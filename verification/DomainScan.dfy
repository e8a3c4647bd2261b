// Which tail of a name is replaced by a pointer, and by which: the encoder of the domain
// search list takes the longest tail that it finds, and the first place where it stands.
module DomainScan {
  import opened Optional
  import opened DnsName
  import opened DnsCompare
  import opened DnsEncode
  import opened DnsRecords
  import opened DomainSearch

  // Where the scan stands after k steps from r: from what is taken for a length byte to the
  // next one.
  function Hop(b: seq<Byte>, r: nat, k: nat): nat
    decreases k
  {
    if k == 0 || r >= |b| then r else Hop(b, r + b[r] + 1, k - 1)
  }

  // The tail stands at r, with a zero behind it.
  predicate CopyAt(b: seq<Byte>, r: nat, e: seq<Byte>) {
    r + |e| < |b| && b[r..r + |e|] == e && b[r + |e|] == 0
  }

  // The tail from label j on is found nowhere.
  ghost predicate Nowhere(b: seq<Byte>, labels: seq<string>, j: nat)
    requires j <= |labels| && AllNarrow(labels)
  {
    forall i: nat :: Hop(b, 0, i) < |b| ==> !CopyAt(b, Hop(b, 0, i), EncodeLabels(labels[j..]))
  }

  // The longest tail that is found starts with label j, and step i finds it first.
  ghost predicate Found(b: seq<Byte>, labels: seq<string>, j: nat, i: nat)
    requires AllNarrow(labels)
  {
    && j < |labels| && (forall k: nat :: k < j ==> Nowhere(b, labels, k))
    && CopyAt(b, Hop(b, 0, i), EncodeLabels(labels[j..]))
    && (forall k: nat :: k < i ==> !CopyAt(b, Hop(b, 0, k), EncodeLabels(labels[j..])))
  }

  // ---------- one tail ----------

  lemma {:induction false} ScanFirst(full: seq<Byte>, b: seq<Byte>, r: nat, tail: nat)
    requires b <= full && tail <= |full|
    ensures var s := ScanEarlier(full, |b|, r, tail);
      && (s.Some? ==> exists i: nat :: FirstHit(full, b, r, tail, s.v, i))
      && (s.None? ==> forall i: nat :: !Hit(full, b, r, tail, i))
    decreases if r < |b| then |b| - r else 0
  {
    hide CString;
    if r < |b| && CString(full, r) != CString(full, tail) {
      var next := r + b[r] + 1;
      ScanFirst(full, b, next, tail);
      var s := ScanEarlier(full, |b|, next, tail);
      forall i: nat
        ensures Hit(full, b, r, tail, i + 1) <==> Hit(full, b, next, tail, i)
      {
      }
      assert !Hit(full, b, r, tail, 0);
      if s.Some? {
        var i: nat :| FirstHit(full, b, next, tail, s.v, i);
        forall k: nat | k < i + 1
          ensures !Hit(full, b, r, tail, k)
        {
          assert k > 0 ==> !Hit(full, b, next, tail, k - 1) && (Hit(full, b, r, tail, k - 1 + 1) <==>
            Hit(full, b, next, tail, k - 1));
        }
        assert FirstHit(full, b, r, tail, s.v, i + 1);
      } else {
        forall i: nat
          ensures !Hit(full, b, r, tail, i)
        {
          assert i > 0 ==> (Hit(full, b, r, tail, i - 1 + 1) <==> Hit(full, b, next, tail, i - 1));
        }
      }
    } else if r < |b| {
      assert FirstHit(full, b, r, tail, r, 0);
    } else {
      forall i: nat
        ensures Hop(b, r, i) == r
      {
      }
    }
  }

  predicate Hit(full: seq<Byte>, b: seq<Byte>, r: nat, tail: nat, i: nat)
    requires b <= full && tail <= |full|
  {
    Hop(b, r, i) < |b| && CString(full, Hop(b, r, i)) == CString(full, tail)
  }

  ghost predicate FirstHit(full: seq<Byte>, b: seq<Byte>, r: nat, tail: nat, s: nat, i: nat)
    requires b <= full && tail <= |full|
  {
    s == Hop(b, r, i) && Hit(full, b, r, tail, i) && forall k: nat :: k < i ==> !Hit(full, b, r, tail, k)
  }

  // A copy of the tail is what the comparison of C strings takes for it.
  lemma CopyIsHit(b: seq<Byte>, labels: seq<string>, j: nat, at: nat)
    requires Writable(labels) && AllNarrow(labels) && NoEmptyLabel(labels) && j < |labels|
    requires CopyAt(b, at, EncodeLabels(labels[j..]))
    ensures var full, tail := Full(b, labels), |b| + |EncodeLabels(labels[..j])|;
      tail <= |full| && at <= |full| && CString(full, at) == CString(full, tail)
  {
    hide EncodeLabels, Writable, NoEmptyLabel;
    var full, tail, e := Full(b, labels), |b| + |EncodeLabels(labels[..j])|, EncodeLabels(labels[j..]);
    SplitAt(b, labels, j);
    SplitAt(b, labels, 0);
    assert labels[0..] == labels && labels[..0] == [];
    NoLabel();
    EncodedNonZero(labels);
    LastZero(full, b, EncodeLabels(labels));
    assert CString(full, tail) == e;
    assert full[at..at + |e|] == b[at..at + |e|] == e && full[at + |e|] == 0;
    assert forall k :: 0 <= k < |e| ==> full[tail..|full| - 1][k] == e[k];
    StringIs(full, at, e);
  }

  lemma StringIs(full: seq<Byte>, at: nat, e: seq<Byte>)
    requires at + |e| < |full| && full[at..at + |e|] == e && full[at + |e|] == 0
    requires forall k :: 0 <= k < |e| ==> e[k] != 0
    ensures CString(full, at) == e
  {
    forall k | at <= k < at + |e|
      ensures full[k] != 0
    {
      assert full[k] == full[at..at + |e|][k - at] == e[k - at];
    }
  }

  lemma HitIsCopy(b: seq<Byte>, labels: seq<string>, j: nat, at: nat)
    requires Writable(labels) && AllNarrow(labels) && NoEmptyLabel(labels) && j < |labels| && at < |b|
    requires |b| + |EncodeLabels(labels[..j])| <= |Full(b, labels)|
    ensures var full := Full(b, labels);
      CString(full, at) == CString(full, |b| + |EncodeLabels(labels[..j])|)
      <==> CopyAt(b, at, EncodeLabels(labels[j..]))
  {
    hide EncodeLabels, Writable, NoEmptyLabel, CString;
    var full := Full(b, labels);
    if CopyAt(b, at, EncodeLabels(labels[j..])) {
      CopyIsHit(b, labels, j, at);
    }
    if CString(full, at) == CString(full, |b| + |EncodeLabels(labels[..j])|) {
      MatchIsEarlier(b, labels, j, at);
    }
  }

  // ---------- the longest tail ----------

  // Where label j of the new name begins.
  function TailAt(b: seq<Byte>, labels: seq<string>, j: nat): (t: nat)
    requires AllNarrow(labels) && j <= |labels|
    ensures t <= |Full(b, labels)|
  {
    SplitAt(b, labels, j);
    |b| + |EncodeLabels(labels[..j])|
  }

  // What the scan for the tail from label j on gives.
  function TailScan(b: seq<Byte>, labels: seq<string>, j: nat): Option<nat>
    requires AllNarrow(labels) && j <= |labels|
  {
    ScanEarlier(Full(b, labels), |b|, 0, TailAt(b, labels, j))
  }

  // The first tail from label k on that is found, and where.
  predicate FirstTail(b: seq<Byte>, labels: seq<string>, k: nat, m: Match, j: nat)
    requires AllNarrow(labels)
  {
    && k <= j < |labels| && m.tail == TailAt(b, labels, j) && TailScan(b, labels, j) == Some(m.at)
    && forall i: nat :: k <= i < j ==> TailScan(b, labels, i).None?
  }

  lemma {:induction false} TailsFirst(b: seq<Byte>, labels: seq<string>, k: nat)
    requires Writable(labels) && AllNarrow(labels) && NoEmptyLabel(labels) && k <= |labels|
    ensures var m := ScanTails(Full(b, labels), |b|, TailAt(b, labels, k));
      && (m.Some? ==> exists j: nat :: FirstTail(b, labels, k, m.v, j))
      && (m.None? ==> forall i: nat :: k <= i < |labels| ==> TailScan(b, labels, i).None?)
    decreases |labels| - k
  {
    hide EncodeLabels, Writable, NoEmptyLabel, CString, ScanEarlier;
    var full, tail := Full(b, labels), TailAt(b, labels, k);
    SplitAt(b, labels, k);
    if k < |labels| {
      NextLabel(b, labels, k);
      LabelThere(labels, k);
      TailsFirst(b, labels, k + 1);
      var m := ScanTails(full, |b|, tail);
      if TailScan(b, labels, k).Some? {
        assert FirstTail(b, labels, k, m.v, k);
      } else {
        assert m == ScanTails(full, |b|, TailAt(b, labels, k + 1));
        if m.Some? {
          var j: nat :| FirstTail(b, labels, k + 1, m.v, j);
          assert FirstTail(b, labels, k, m.v, j);
        }
      }
    } else {
      NoLabel();
      assert labels[k..] == [];
      assert full[tail] == 0;
    }
  }

  lemma LabelThere(labels: seq<string>, k: nat)
    requires NoEmptyLabel(labels) && k < |labels|
    ensures |labels[k]| > 0
  {
  }

  // Step i is the first to find the tail.
  predicate FirstCopy(b: seq<Byte>, e: seq<Byte>, at: nat, i: nat) {
    at == Hop(b, 0, i) && CopyAt(b, at, e) && forall k: nat :: k < i ==> !CopyAt(b, Hop(b, 0, k), e)
  }

  lemma ScanIs(b: seq<Byte>, labels: seq<string>, j: nat)
    requires Writable(labels) && AllNarrow(labels) && NoEmptyLabel(labels) && j < |labels|
    ensures var s := TailScan(b, labels, j);
      && (s.None? ==> Nowhere(b, labels, j))
      && (s.Some? ==> exists i: nat :: FirstCopy(b, EncodeLabels(labels[j..]), s.v, i))
  {
    hide EncodeLabels, Writable, NoEmptyLabel, CString, ScanEarlier, CopyAt, Hop;
    var full, tail, e := Full(b, labels), TailAt(b, labels, j), EncodeLabels(labels[j..]);
    assert full[..|b|] == b;
    ScanFirst(full, b, 0, tail);
    forall i: nat
      ensures Hit(full, b, 0, tail, i) <==> Hop(b, 0, i) < |b| && CopyAt(b, Hop(b, 0, i), e)
    {
      if Hop(b, 0, i) < |b| {
        HitIsCopy(b, labels, j, Hop(b, 0, i));
      }
    }
    CopyInside(b, e);
    var s := TailScan(b, labels, j);
    if s.Some? {
      var i: nat :| FirstHit(full, b, 0, tail, s.v, i);
      assert Hit(full, b, 0, tail, i);
      forall k: nat | k < i
        ensures !CopyAt(b, Hop(b, 0, k), e)
      {
        assert !Hit(full, b, 0, tail, k);
      }
      assert FirstCopy(b, e, s.v, i);
    }
  }

  lemma CopyInside(b: seq<Byte>, e: seq<Byte>)
    ensures forall r: nat :: CopyAt(b, r, e) ==> r < |b|
  {
  }

  // One more name is written with its longest tail that is found as a pointer to where it is
  // found first, or in full if none is.
  lemma LongestTail(b: seq<Byte>, labels: seq<string>)
    requires labels != [] && Writable(labels) && AllNarrow(labels) && NoEmptyLabel(labels)
    ensures var c := AddName(b, labels);
      || (c == Full(b, labels) && forall j: nat :: j < |labels| ==> Nowhere(b, labels, j))
      || (exists j: nat, i: nat :: (Found(b, labels, j, i)
           && c == b + EncodeLabels(labels[..j]) + PointerTo(Hop(b, 0, i))))
  {
    hide EncodeLabels, Writable, NoEmptyLabel, ScanTails, ScanEarlier, CopyAt, Hop, Nowhere, PointerTo;
    assert labels[..0] == [];
    NoLabel();
    TailsFirst(b, labels, 0);
    forall j: nat | j < |labels| && TailScan(b, labels, j).None?
      ensures Nowhere(b, labels, j)
    {
      ScanIs(b, labels, j);
    }
    var m := ScanTails(Full(b, labels), |b|, |b|);
    if m.Some? {
      var j: nat :| FirstTail(b, labels, 0, m.v, j);
      ScanIs(b, labels, j);
      var i: nat :| FirstCopy(b, EncodeLabels(labels[j..]), m.v.at, i);
      SplitAt(b, labels, j);
      assert Full(b, labels)[..m.v.tail] == b + EncodeLabels(labels[..j]);
      assert Found(b, labels, j, i);
    }
  }
}
