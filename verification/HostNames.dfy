// Host names as the C code compares them: ASCII case folding done by hand,
// so that the locale cannot interfere.
module HostNames {

  function Lower(c: char): char {
    if 'A' <= c <= 'Z' then c - 'A' + 'a' else c
  }

  function Fold(s: string): (f: string)
    ensures |f| == |s|
    ensures forall i :: 0 <= i < |s| ==> f[i] == Lower(s[i])
  {
    seq(|s|, i requires 0 <= i < |s| => Lower(s[i]))
  }

  // What hostname_isequal decides.
  predicate NameEq(a: string, b: string) {
    Fold(a) == Fold(b)
  }

  // Equal, or the same ASCII letter in the other case.
  predicate SameLetter(a: char, b: char) {
    a == b || ('A' <= a <= 'Z' && b as int == a as int + 32) || ('A' <= b <= 'Z' && a as int == b as int + 32)
  }

  lemma NameEqMeans(a: string, b: string)
    ensures NameEq(a, b) <==> |a| == |b| && forall k :: 0 <= k < |a| ==> SameLetter(a[k], b[k])
  {
    assert 'A' as int == 65 && 'Z' as int == 90 && 'a' as int == 97;
    if NameEq(a, b) {
      forall k | 0 <= k < |a|
        ensures SameLetter(a[k], b[k])
      {
        assert Lower(a[k]) == Fold(a)[k] == Fold(b)[k] == Lower(b[k]);
      }
    } else if |a| == |b| {
      var k :| 0 <= k < |a| && Fold(a)[k] != Fold(b)[k];
      assert Lower(a[k]) != Lower(b[k]);
    }
  }

  // The byte-by-byte loop of util.c. A C string is a sequence without its
  // terminating zero, which the loop meets when an index reaches the length.
  method HostnameIsEqual(a: string, b: string) returns (eq: bool)
    ensures eq == NameEq(a, b)
  {
    var i := 0;
    while i < |a| && i < |b|
      invariant 0 <= i <= |a| && i <= |b|
      invariant forall k :: 0 <= k < i ==> Lower(a[k]) == Lower(b[k])
    {
      if Lower(a[i]) != Lower(b[i]) {
        assert Fold(a)[i] != Fold(b)[i];
        return false;
      }
      i := i + 1;
    }
    eq := i == |a| && i == |b|;
    assert eq ==> Fold(a) == Fold(b);
  }

  // legal_char: the characters canonicalise lets into a name.
  predicate LegalChar(c: char) {
    || 'A' <= c <= 'Z' || 'a' <= c <= 'z' || '0' <= c <= '9'
    || c == '-' || c == '/' || c == '_' || c == ' '
  }
}
