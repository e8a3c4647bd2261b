// The data blocks of the TFTP server in tftp.c. In netascii mode every LF of the file
// goes out as CR LF (section 2 of RFC 1350), made in place in the packet; where the pair
// straddles two blocks, carrylf remembers that its CR has gone.
module TftpBlocks {
  import opened DnsName
  import opened Slices

  const LF: Byte := 10

  const CR: Byte := 13

  // ---------- what the client is to receive ----------

  // carry: the CR of a first LF has been sent already.
  function Expand(s: seq<Byte>, carry: bool): (e: seq<Byte>)
    ensures |e| >= |s|
  {
    if s == [] then []
    else (if s[0] == LF && !carry then [CR, LF] else [s[0]]) + Expand(s[1..], false)
  }

  // How much of s goes into n bytes, and whether a CR went without its LF.
  datatype Taken = Taken(raw: nat, carry: bool)

  function Consume(s: seq<Byte>, carry: bool, n: nat): (t: Taken)
    ensures t.raw <= |s|
  {
    if n == 0 then Taken(0, carry)
    else if s == [] then Taken(0, false)
    else if s[0] == LF && !carry then
      if n == 1 then Taken(0, true)
      else
        var t := Consume(s[1..], false, n - 2);
        Taken(t.raw + 1, t.carry)
    else
      var t := Consume(s[1..], false, n - 1);
      Taken(t.raw + 1, t.carry)
  }

  function Min(a: nat, b: nat): nat {
    if a < b then a else b
  }

  lemma Pushed(head: seq<Byte>, rest: seq<Byte>, n: nat, more: seq<Byte>)
    requires n >= |head| && rest == rest[..Min(n - |head|, |rest|)] + more
    ensures head + rest == (head + rest)[..Min(n, |head + rest|)] + more
  {
    var m := Min(n - |head|, |rest|);
    assert (head + rest)[..Min(n, |head + rest|)] == head + rest[..m];
    assert head + (rest[..m] + more) == (head + rest[..m]) + more;
  }

  // A block ends where the next one goes on.
  lemma {:induction false} ConsumeResumes(s: seq<Byte>, carry: bool, n: nat)
    ensures var t, e := Consume(s, carry, n), Expand(s, carry);
      e == e[..Min(n, |e|)] + Expand(s[t.raw..], t.carry) && (n >= |e| ==> t.raw == |s|)
  {
    if n == 0 || s == [] {
      assert s[0..] == s;
    } else if s[0] == LF && !carry && n == 1 {
      assert s[0..] == s;
      assert Expand(s, carry) == [CR] + Expand(s, true);
    } else {
      var pair := s[0] == LF && !carry;
      var k := if pair then n - 2 else n - 1;
      ConsumeResumes(s[1..], false, k);
      hide Expand;
      var t := Consume(s[1..], false, k);
      Pushed(if pair then [CR, LF] else [s[0]], Expand(s[1..], false), n, Expand(s[1..][t.raw..], t.carry));
      assert s[1..][t.raw..] == s[t.raw + 1..];
      ExpandFirst(s, carry);
    }
  }

  lemma ExpandFirst(s: seq<Byte>, carry: bool)
    requires s != []
    ensures Expand(s, carry) == (if s[0] == LF && !carry then [CR, LF] else [s[0]]) + Expand(s[1..], false)
  {
  }

  lemma {:induction false} ExpandConcat(a: seq<Byte>, b: seq<Byte>, carry: bool)
    requires a != []
    ensures Expand(a + b, carry) == Expand(a, carry) + Expand(b, false)
  {
    assert (a + b)[1..] == a[1..] + b;
    if |a| > 1 {
      ExpandConcat(a[1..], b, false);
    } else {
      assert a[1..] == [] && a[1..] + b == b;
    }
  }

  // ---------- the expansion in place ----------

  // One byte inserted: the bytes from i on move up, the last one falls off.
  method InsertCR(data: array<Byte>, i: nat, size: nat)
    requires i < size <= data.Length
    modifies data
    ensures data[..size] == old(data[..i]) + [CR] + old(data[i..size - 1])
    ensures data[size..] == old(data[size..])
  {
    var j := size - 1;
    while j > i
      invariant i <= j < size
      invariant forall k :: 0 <= k <= j ==> data[k] == old(data[k])
      invariant forall k :: j < k < size ==> data[k] == old(data[k - 1])
      invariant forall k :: size <= k < data.Length ==> data[k] == old(data[k])
    {
      data[j] := data[j - 1];
      j := j - 1;
    }
    data[i] := CR;
    ShiftedByOne(old(data[..]), data[..], i, size);
  }

  lemma ShiftedByOne(d: seq<Byte>, e: seq<Byte>, i: nat, size: nat)
    requires i < size <= |d| == |e| && e[i] == CR
    requires forall k :: 0 <= k < i || size <= k < |d| ==> e[k] == d[k]
    requires forall k :: i < k < size ==> e[k] == d[k - 1]
    ensures e[..size] == d[..i] + [CR] + d[i..size - 1] && e[size..] == d[size..]
  {
  }

  // Half way: the first i bytes are done, the raw bytes from "raw" on follow.
  predicate Halfway(d: seq<Byte>, s: seq<Byte>, carry: bool, i: nat, raw: nat, size: nat) {
    && i <= size <= |d| && raw + (size - i) <= |s|
    && d[i..size] == s[raw..raw + (size - i)]
    && Expand(s, carry) == d[..i] + Expand(s[raw..], i == 0 && carry)
  }

  // What the block takes, seen from half way.
  predicate TakenSoFar(s: seq<Byte>, carry: bool, blocksize: nat, i: nat, raw: nat) {
    && i <= blocksize && raw <= |s|
    && var t := Consume(s[raw..], i == 0 && carry, blocksize - i);
        Consume(s, carry, blocksize) == Taken(raw + t.raw, t.carry)
  }

  lemma TakeStart(s: seq<Byte>, carry: bool, blocksize: nat)
    ensures TakenSoFar(s, carry, blocksize, 0, 0)
  {
    assert s[0..] == s;
  }

  lemma TakeOne(s: seq<Byte>, carry: bool, blocksize: nat, i: nat, raw: nat)
    requires TakenSoFar(s, carry, blocksize, i, raw) && raw < |s|
    ensures i < blocksize && !(s[raw] == LF && !(i == 0 && carry)) ==> TakenSoFar(s, carry, blocksize, i + 1, raw + 1)
    ensures i + 1 < blocksize && s[raw] == LF && !(i == 0 && carry) ==> TakenSoFar(s, carry, blocksize, i + 2, raw + 1)
    ensures i + 1 == blocksize && s[raw] == LF && !(i == 0 && carry) ==>
        Consume(s, carry, blocksize) == Taken(raw, true)
  {
    assert s[raw..][1..] == s[raw + 1..];
  }

  lemma TakeEnd(s: seq<Byte>, carry: bool, blocksize: nat, i: nat, raw: nat)
    requires TakenSoFar(s, carry, blocksize, i, raw) && blocksize > 0 && (i == blocksize || raw == |s|)
    ensures Consume(s, carry, blocksize) == Taken(raw, false)
  {
  }

  lemma CopyStep(d: seq<Byte>, s: seq<Byte>, carry: bool, i: nat, raw: nat, size: nat)
    requires Halfway(d, s, carry, i, raw, size) && i < size && !(d[i] == LF && !(i == 0 && carry))
    ensures Halfway(d, s, carry, i + 1, raw + 1, size)
  {
    assert d[i] == d[i..size][0] && s[raw] == s[raw..raw + (size - i)][0];
    assert d[i + 1..size] == d[i..size][1..] && s[raw + 1..raw + (size - i)] == s[raw..raw + (size - i)][1..];
    assert s[raw..][1..] == s[raw + 1..];
    assert d[..i + 1] == d[..i] + [d[i]];
  }

  // A CR put in front of an LF that stays in the block.
  lemma InsertStep(d: seq<Byte>, d': seq<Byte>, s: seq<Byte>, carry: bool, i: nat, raw: nat, size: nat, size': nat)
    requires Halfway(d, s, carry, i, raw, size) && i < size && d[i] == LF && !(i == 0 && carry)
    requires size <= size' <= size + 1 <= |d| + 1 && size' <= |d| == |d'| && i + 1 < size'
    requires d'[..size'] == d[..i] + [CR] + d[i..size' - 1]
    ensures Halfway(d', s, carry, i + 2, raw + 1, size')
  {
    assert s[raw] == s[raw..raw + (size - i)][0] && d[i] == d[i..size][0];
    assert d'[..i + 2] == d[..i] + [CR, LF] by { assert d'[..size'][..i + 2] == d'[..i + 2]; }
    assert d'[i + 2..size'] == s[raw + 1..raw + (size' - 1 - i)] by {
      SubSlice(d', 0, size', i + 2, size');
      SubSlice(d, i, size' - 1, 1, size' - 1 - i);
      SubSlice(d, i, size, 1, size' - 1 - i);
      SubSlice(s, raw, raw + (size - i), 1, size' - 1 - i);
    }
    assert Expand(s[raw..], i == 0 && carry) == [CR, LF] + Expand(s[raw + 1..], false) by {
      assert s[raw..][1..] == s[raw + 1..];
    }
    assert d[..i] + ([CR, LF] + Expand(s[raw + 1..], false)) == (d[..i] + [CR, LF]) + Expand(s[raw + 1..], false);
  }

  // At the end of the block only the CR fits.
  lemma LastStep(d: seq<Byte>, d': seq<Byte>, s: seq<Byte>, carry: bool, i: nat, raw: nat, size: nat)
    requires Halfway(d, s, carry, i, raw, size) && i + 1 == size && d[i] == LF && !(i == 0 && carry) && |d'| == |d|
    requires d'[..size] == d[..i] + [CR] + d[i..size - 1]
    ensures Expand(s, carry) == d'[..size] + Expand(s[raw..], true)
  {
    assert s[raw] == s[raw..raw + (size - i)][0] && d[i] == d[i..size][0];
    assert d[i..size - 1] == [];
    assert d'[..size] == d[..i] + [CR];
    assert Expand(s[raw..], i == 0 && carry) == [CR] + Expand(s[raw..], true);
    assert d[..i] + ([CR] + Expand(s[raw..], true)) == (d[..i] + [CR]) + Expand(s[raw..], true);
  }

  // The loop of get_block. The bytes read are expanded as far as the block size allows;
  // "expansion" counts the bytes read that no longer fit.
  method ExpandInPlace(data: array<Byte>, read: nat, blocksize: nat, carry: bool)
    returns (size: nat, expansion: nat, newcarry: bool)
    requires 0 < blocksize && read <= blocksize <= data.Length
    modifies data
    ensures read <= size <= blocksize && expansion <= read && (size < blocksize ==> expansion == 0)
    ensures var s := old(data[..read]);
      Expand(s, carry) == data[..size] + Expand(s[read - expansion..], newcarry)
    ensures Consume(old(data[..read]), carry, blocksize) == Taken(read - expansion, newcarry)
  {
    hide Expand, Halfway, Consume, TakenSoFar;
    ghost var s := data[..read];
    size, expansion, newcarry := read, 0, false;
    var i: nat := 0;
    ghost var raw := 0;
    StartHalfway(data[..], read, carry);
    TakeStart(s, carry, blocksize);
    while i < size
      invariant read <= size <= blocksize && expansion <= read && (size < blocksize ==> expansion == 0)
      invariant newcarry ==> Consume(s, carry, blocksize) == Taken(read - expansion, true)
      invariant !newcarry ==> TakenSoFar(s, carry, blocksize, i, raw)
      invariant newcarry ==> i == size + 1 && Expand(s, carry) == data[..size] + Expand(s[read - expansion..], true)
      invariant !newcarry ==>
          i <= size && raw + (size - i) == read - expansion && Halfway(data[..], s, carry, i, raw, size)
      invariant |s| == read
      decreases blocksize + 1 - i
    {
      if data[i] == LF && (i != 0 || !carry) {
        ghost var size0, before := size, data[..];
        HalfwayRoom(before, s, carry, i, raw, size);
        TakeOne(s, carry, blocksize, i, raw);
        if size == blocksize {
          expansion := expansion + 1;
          if i == size - 1 {
            newcarry := true;
          }
        } else {
          size := size + 1;
        }
        InsertCR(data, i, size);
        assert data[..size] == before[..i] + [CR] + before[i..size - 1];
        if newcarry {
          LastStep(before, data[..], s, carry, i, raw, size);
          assert raw == read - expansion;
        } else {
          InsertStep(before, data[..], s, carry, i, raw, size0, size);
          raw := raw + 1;
        }
        i := i + 1;
      } else {
        HalfwayRoom(data[..], s, carry, i, raw, size);
        TakeOne(s, carry, blocksize, i, raw);
        CopyStep(data[..], s, carry, i, raw, size);
        raw := raw + 1;
      }
      i := i + 1;
    }
    if !newcarry {
      TakeEnd(s, carry, blocksize, i, raw);
      EndHalfway(data[..], s, carry, i, raw, size);
    }
  }

  lemma StartHalfway(d: seq<Byte>, read: nat, carry: bool)
    requires read <= |d|
    ensures Halfway(d, d[..read], carry, 0, 0, read)
  {
    assert d[..read][0..] == d[..read];
    assert d[..0] + Expand(d[..read], carry) == Expand(d[..read], carry);
  }

  lemma HalfwayRoom(d: seq<Byte>, s: seq<Byte>, carry: bool, i: nat, raw: nat, size: nat)
    requires Halfway(d, s, carry, i, raw, size) && i < size
    ensures raw + (size - i) <= |s| && s[raw] == d[i]
  {
    assert s[raw] == s[raw..raw + (size - i)][0] && d[i] == d[i..size][0];
  }

  lemma EndHalfway(d: seq<Byte>, s: seq<Byte>, carry: bool, i: nat, raw: nat, size: nat)
    requires Halfway(d, s, carry, i, raw, size) && i == size && (i == 0 ==> s[raw..] == [])
    ensures Expand(s, carry) == d[..size] + Expand(s[raw..], false)
  {
  }
}
