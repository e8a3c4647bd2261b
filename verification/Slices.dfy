// Facts about slices and concatenations that several modules need.
module Slices {
  lemma SubSlice<T>(s: seq<T>, a: nat, b: nat, c: nat, d: nat)
    requires a <= b <= |s| && c <= d <= b - a
    ensures s[a..b][c..d] == s[a + c..a + d]
  {
    var x, y := s[a..b][c..d], s[a + c..a + d];
    assert |x| == |y|;
    assert forall k :: 0 <= k < |x| ==> x[k] == y[k];
  }

  // The parts of a slice that is a concatenation.
  lemma Parts<T>(s: seq<T>, p: nat, x: seq<T>, y: seq<T>, z: seq<T>)
    requires p + |x| + |y| + |z| <= |s| && s[p..p + |x| + |y| + |z|] == x + y + z
    ensures s[p..p + |x|] == x && s[p + |x|..p + |x| + |y|] == y && s[p + |x| + |y|..p + |x| + |y| + |z|] == z
  {
    var a, b, c, e := |x|, |x| + |y|, |x| + |y| + |z|, x + y + z;
    SubSlice(s, p, p + c, 0, a);
    SubSlice(s, p, p + c, a, b);
    SubSlice(s, p, p + c, b, c);
    assert e[0..a] == x && e[a..b] == y && e[b..c] == z;
  }

  lemma Regroup<T>(a: seq<T>, b: seq<T>, c: seq<T>)
    ensures a + (b + c) == (a + b) + c
    ensures a + [] == a
  {
  }
}
