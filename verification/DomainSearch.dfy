// The domain search list of DHCP option 119 (and the names of option 120): option.c
// writes each name in full and then replaces its tail by a pointer to an earlier copy of
// it (section 2 of RFC 3397). Offsets are relative to the first name.
module DomainSearch {
  import opened Optional
  import opened HostNames
  import opened DnsName
  import opened DnsCompare
  import opened DnsEncode
  import opened DnsRecords

  // ---------- the encoder ----------

  // The end of the C string at r.
  function ZeroAt(b: seq<Byte>, r: nat): (z: nat)
    requires r <= |b|
    ensures r <= z <= |b|
    ensures z < |b| ==> b[z] == 0
    ensures forall k :: r <= k < z ==> b[k] != 0
    decreases |b| - r
  {
    if r == |b| || b[r] == 0 then r else ZeroAt(b, r + 1)
  }

  function CString(b: seq<Byte>, r: nat): seq<Byte>
    requires r <= |b|
  {
    b[r..ZeroAt(b, r)]
  }

  // The inner loop: r goes from length byte to length byte, or what it takes for one. It
  // may well land in the middle of a label.
  function ScanEarlier(full: seq<Byte>, len: nat, r: nat, tail: nat): (s: Option<nat>)
    requires len <= |full| && tail <= |full|
    ensures s.Some? ==> s.v < len && CString(full, s.v) == CString(full, tail)
    decreases if r < len then len - r else 0
  {
    if r >= len then None
    else if CString(full, r) == CString(full, tail) then Some(r)
    else ScanEarlier(full, len, r + full[r] + 1, tail)
  }

  datatype Match = Match(tail: nat, at: nat)

  // The outer loop: the longest tail of the new name first.
  function ScanTails(full: seq<Byte>, len: nat, tail: nat): (m: Option<Match>)
    requires len <= |full|
    ensures m.Some? ==> tail <= m.v.tail < |full| && full[m.v.tail] != 0 && m.v.at < len
    ensures m.Some? ==> CString(full, m.v.at) == CString(full, m.v.tail)
    decreases if tail < |full| then |full| - tail else 0
  {
    if tail >= |full| || full[tail] == 0 then None
    else
      var r := ScanEarlier(full, len, 0, tail);
      if r.Some? then Some(Match(tail, r.v)) else ScanTails(full, len, tail + full[tail] + 1)
  }

  function Full(b: seq<Byte>, labels: seq<string>): seq<Byte>
    requires AllNarrow(labels)
  {
    b + EncodeLabels(labels) + [0]
  }

  function AddName(b: seq<Byte>, labels: seq<string>): seq<Byte>
    requires AllNarrow(labels)
  {
    var full := Full(b, labels);
    var m := ScanTails(full, |b|, |b|);
    if m.Some? then full[..m.v.tail] + PointerTo(m.v.at) else full
  }

  predicate AllLists(names: seq<seq<string>>) {
    forall i :: 0 <= i < |names| ==> names[i] != [] && Writable(names[i]) && AllNarrow(names[i])
  }

  function EncodeList(names: seq<seq<string>>): seq<Byte>
    requires AllLists(names)
  {
    if names == [] then [] else AddName(EncodeList(names[..|names| - 1]), names[|names| - 1])
  }

  // strcmp, as far as equality goes: both strings end inside the buffer.
  method StrEqual(b: seq<Byte>, r: nat, t: nat) returns (eq: bool)
    requires r < |b| && t < |b| && b[|b| - 1] == 0
    ensures eq == (CString(b, r) == CString(b, t))
  {
    hide ZeroAt;
    var i := 0;
    while b[r + i] == b[t + i] && b[r + i] != 0
      invariant 0 <= i && r + i < |b| && t + i < |b| && r + i <= ZeroAt(b, r) && t + i <= ZeroAt(b, t)
      invariant b[r..r + i] == b[t..t + i]
      decreases |b| - i
    {
      assert b[r..r + i + 1] == b[r..r + i] + [b[r + i]] && b[t..t + i + 1] == b[t..t + i] + [b[t + i]];
      i := i + 1;
    }
    eq := b[r + i] == b[t + i];
    if !eq {
      StringsDiffer(b, r, t, i);
    }
  }

  lemma StringsDiffer(b: seq<Byte>, r: nat, t: nat, i: nat)
    requires r + i < |b| && t + i < |b| && b[r + i] != b[t + i]
    requires r + i <= ZeroAt(b, r) && t + i <= ZeroAt(b, t)
    ensures CString(b, r) != CString(b, t)
  {
    hide ZeroAt;
    var x, y := CString(b, r), CString(b, t);
    if r + i < ZeroAt(b, r) && t + i < ZeroAt(b, t) {
      assert x[i] != y[i];
    } else {
      assert |x| != |y|;
    }
  }

  method FindEarlier(full: seq<Byte>, len: nat, tail: nat) returns (s: Option<nat>)
    requires len < |full| && tail < |full| && full[|full| - 1] == 0
    ensures s == ScanEarlier(full, len, 0, tail)
  {
    var r: nat := 0;
    while r < len
      invariant ScanEarlier(full, len, 0, tail) == ScanEarlier(full, len, r, tail)
      decreases if r < len then len - r else 0
    {
      var eq := StrEqual(full, r, tail);
      if eq {
        return Some(r);
      }
      r := r + full[r] + 1;
    }
    s := None;
  }

  // The encoder for one name: written behind the others in full, then cut short.
  method AppendDomain(b: seq<Byte>, arg: string) returns (c: seq<Byte>)
    requires DnsEncode.Narrow(arg)
    ensures AllNarrow(SplitDots(arg)) && c == AddName(b, SplitDots(arg))
  {
    hide ScanEarlier, SplitDots, EncodeLabels, CString;
    SplitNarrow(arg);
    EncodeLength(arg);
    var len := |b|;
    var newp := new Byte[len + |arg| + 2](_ => 0);
    for i := 0 to len
      invariant newp[..i] == b[..i]
    {
      newp[i] := b[i];
    }
    var q := DoRfc1035Name(newp, len, arg);
    assert newp[..q] == newp[..len] + newp[len..q];
    newp[q] := 0;
    var full := newp[..q + 1];
    assert full == Full(b, SplitDots(arg));
    c := CutTail(full, len);
  }

  // The scan for an earlier copy of a tail of the name behind the first len bytes.
  method CutTail(full: seq<Byte>, len: nat) returns (c: seq<Byte>)
    requires len < |full| && full[|full| - 1] == 0
    ensures var m := ScanTails(full, len, len); c == if m.Some? then full[..m.v.tail] + PointerTo(m.v.at) else full
  {
    hide ScanEarlier, CString;
    var tail: nat := len;
    while tail < |full| && full[tail] != 0
      invariant ScanTails(full, len, len) == ScanTails(full, len, tail)
      decreases if tail < |full| then |full| - tail else 0
    {
      var r := FindEarlier(full, len, tail);
      if r.Some? {
        return full[..tail] + PointerTo(r.v);
      }
      tail := tail + full[tail] + 1;
    }
    c := full;
  }

  // ---------- the decoder ----------

  function Padded(b: seq<Byte>): (p: seq<Byte>)
    ensures |p| == |b| + SLACK && p[..|b|] == b && p[|b|..] == seq(SLACK, _ => 0)
    ensures Fits(p, |b|)
  {
    b + seq(SLACK, _ => 0)
  }

  // The name at p, read as names in DNS packets are (section 4.1.4 of RFC 1035).
  function NameAt(b: seq<Byte>, p: nat): Walk
    requires p <= |b|
  {
    ReadFrom(Padded(b), |b|, p, 0)
  }

  lemma {:induction false} NameEnds(b: seq<Byte>, p: nat, hops: nat)
    requires p < |b| && hops <= MAX_HOPS && ReadFrom(Padded(b), |b|, p, hops).Labels?
    ensures p < ReadFrom(Padded(b), |b|, p, hops).next <= |b|
    decreases |b| - p
  {
    var l: nat := Padded(b)[p];
    if 0 < l <= MAXLABEL {
      NameEnds(b, p + 1 + l, hops);
    }
  }

  // All names from p on; a bad name makes the list unreadable.
  function DecodeFrom(b: seq<Byte>, p: nat): Option<seq<seq<string>>>
    requires p <= |b|
    decreases |b| - p
  {
    if p == |b| then Some([])
    else
      var w := NameAt(b, p);
      if w.Bad? then None
      else
        NameEnds(b, p, 0);
        var rest := DecodeFrom(b, w.next);
        if rest.None? then None else Some([w.labels] + rest.v)
  }

  function DecodeList(b: seq<Byte>): Option<seq<seq<string>>> {
    DecodeFrom(b, 0)
  }

  // ---------- what is written stays readable ----------

  // Reading a name is not disturbed by what comes after it.
  lemma {:induction false} ReadStable(b: seq<Byte>, c: seq<Byte>, p: nat, hops: nat)
    requires p < |b| && b <= c && hops <= MAX_HOPS && ReadFrom(Padded(b), |b|, p, hops).Labels?
    ensures ReadFrom(Padded(c), |c|, p, hops) == ReadFrom(Padded(b), |b|, p, hops)
    decreases MAX_HOPS - hops, |b| - p
  {
    var x, y := Padded(b), Padded(c);
    assert forall k :: 0 <= k < |b| ==> x[k] == b[k] && y[k] == b[k];
    var l: nat := x[p];
    if l >= 0xc0 {
      ReadStable(b, c, PointerTarget(x, p), hops + 1);
    } else if 0 < l <= MAXLABEL {
      ReadStable(b, c, p + 1 + l, hops);
      assert Text(x, p + 1, l) == Text(y, p + 1, l);
    }
  }

  lemma NameStable(b: seq<Byte>, c: seq<Byte>, p: nat)
    requires p < |b| && b <= c && NameAt(b, p).Labels?
    ensures NameAt(c, p) == NameAt(b, p) && p < NameAt(b, p).next <= |b|
  {
    hide ReadFrom;
    ReadStable(b, c, p, 0);
    NameEnds(b, p, 0);
  }

  lemma DecodeStep(b: seq<Byte>, p: nat)
    requires p < |b|
    ensures DecodeFrom(b, p).Some? ==>
        NameAt(b, p).Labels? && p < NameAt(b, p).next <= |b| && DecodeFrom(b, NameAt(b, p).next).Some?
    ensures NameAt(b, p).Labels? && p < NameAt(b, p).next <= |b| && DecodeFrom(b, NameAt(b, p).next).Some? ==>
      DecodeFrom(b, p) == Some([NameAt(b, p).labels] + DecodeFrom(b, NameAt(b, p).next).v)
  {
    hide ReadFrom;
    if NameAt(b, p).Labels? {
      NameEnds(b, p, 0);
    }
  }

  lemma DecodeEnd(b: seq<Byte>)
    ensures DecodeFrom(b, |b|) == Some([])
  {
  }

  lemma {:induction false} DecodeStable(b: seq<Byte>, c: seq<Byte>, p: nat)
    requires p <= |b| && b <= c && DecodeFrom(b, p).Some? && DecodeFrom(c, |b|).Some?
    ensures DecodeFrom(c, p) == Some(DecodeFrom(b, p).v + DecodeFrom(c, |b|).v)
    decreases |b| - p
  {
    hide DecodeFrom, NameAt;
    if p < |b| {
      DecodeStep(b, p);
      NameStable(b, c, p);
      var w := NameAt(b, p);
      DecodeStable(b, c, w.next);
      DecodeStep(c, p);
      var rest := DecodeFrom(b, w.next).v;
      assert [w.labels] + (rest + DecodeFrom(c, |b|).v) == ([w.labels] + rest) + DecodeFrom(c, |b|).v;
    } else {
      DecodeEnd(b);
      assert [] + DecodeFrom(c, |b|).v == DecodeFrom(c, |b|).v;
    }
  }

  // ---------- the new name ----------

  lemma {:induction false} EncodedNonZero(labels: seq<string>)
    requires Writable(labels) && AllNarrow(labels) && NoEmptyLabel(labels)
    ensures forall k :: 0 <= k < |EncodeLabels(labels)| ==> EncodeLabels(labels)[k] != 0
    ensures labels != [] ==> |EncodeLabels(labels)| >= 2
  {
    if labels != [] {
      assert Legal(labels[0]);
      assert Writable(labels[1..]) by {
        WritableTail(labels);
      }
      EncodedNonZero(labels[1..]);
      assert forall i :: 0 <= i < |labels[0]| ==> LegalChar(labels[0][i]);
    }
  }

  lemma WritableTail(labels: seq<string>)
    requires labels != [] && Writable(labels)
    ensures Writable(labels[1..])
  {
    hide Legal;
    forall i | 0 <= i < |labels[1..]|
      ensures Legal(labels[1..][i])
    {
      assert labels[1..][i] == labels[i + 1];
    }
  }

  lemma {:induction false} EncodeConcat(a: seq<string>, b: seq<string>)
    requires AllNarrow(a) && AllNarrow(b)
    ensures AllNarrow(a + b) && EncodeLabels(a + b) == EncodeLabels(a) + EncodeLabels(b)
  {
    if a == [] {
      assert a + b == b;
    } else {
      EncodeConcat(a[1..], b);
      assert (a + b)[1..] == a[1..] + b;
      assert EncodeLabels(a + b) == EncodeLabel(a[0]) + (EncodeLabels(a[1..]) + EncodeLabels(b));
    }
  }

  lemma SplitAt(b: seq<Byte>, labels: seq<string>, k: nat)
    requires AllNarrow(labels) && k <= |labels|
    ensures Full(b, labels) == b + EncodeLabels(labels[..k]) + EncodeLabels(labels[k..]) + [0]
  {
    assert labels == labels[..k] + labels[k..];
    EncodeConcat(labels[..k], labels[k..]);
    assert b + (EncodeLabels(labels[..k]) + EncodeLabels(labels[k..])) == b + EncodeLabels(labels[..k]) +
        EncodeLabels(labels[k..]);
  }

  // Where the outer loop stands, it stands behind whole labels of the new name.
  lemma {:induction false} ScanAtLabels(b: seq<Byte>, labels: seq<string>, k: nat)
    requires Writable(labels) && AllNarrow(labels) && NoEmptyLabel(labels) && k <= |labels|
    ensures var full := Full(b, labels);
      var m := ScanTails(full, |b|, |b| + |EncodeLabels(labels[..k])|);
      m.Some? ==> exists j :: 0 <= j < |labels| && m.v.tail == |b| + |EncodeLabels(labels[..j])|
    decreases |labels| - k
  {
    hide EncodeLabels, Writable, NoEmptyLabel, CString, ScanEarlier;
    var full := Full(b, labels);
    var tail := |b| + |EncodeLabels(labels[..k])|;
    SplitAt(b, labels, k);
    if k < |labels| {
      NextLabel(b, labels, k);
      ScanAtLabels(b, labels, k + 1);
    } else {
      NoLabel();
      assert labels[k..] == [];
      assert full[tail] == 0;
    }
  }

  lemma NoLabel()
    ensures EncodeLabels([]) == []
  {
  }

  lemma NextLabel(b: seq<Byte>, labels: seq<string>, k: nat)
    requires Writable(labels) && AllNarrow(labels) && NoEmptyLabel(labels) && k < |labels|
    ensures var full, tail := Full(b, labels), |b| + |EncodeLabels(labels[..k])|;
      tail < |full| && full[tail] == |labels[k]| && tail + full[tail] + 1 == |b| + |EncodeLabels(labels[..k + 1])|
  {
    hide Legal;
    SplitAt(b, labels, k);
    assert labels[..k + 1] == labels[..k] + [labels[k]];
    EncodeConcat(labels[..k], [labels[k]]);
    assert EncodeLabels([labels[k]]) == EncodeLabel(labels[k]) by {
      assert [labels[k]][1..] == [];
    }
    assert EncodeLabels(labels[k..])[0] == |labels[k]|;
    assert labels[k] != "";
  }

  // The match lies in the earlier bytes: it is the tail followed by a zero.
  lemma MatchIsEarlier(b: seq<Byte>, labels: seq<string>, j: nat, at: nat)
    requires Writable(labels) && AllNarrow(labels) && NoEmptyLabel(labels) && j < |labels| && at < |b|
    requires |b| + |EncodeLabels(labels[..j])| <= |Full(b, labels)|
    requires var full := Full(b, labels); CString(full, at) == CString(full, |b| + |EncodeLabels(labels[..j])|)
    ensures var n := |EncodeLabels(labels[j..])|;
      at + n < |b| && b[at..at + n] == EncodeLabels(labels[j..]) && b[at + n] == 0
  {
    hide EncodeLabels, Writable, NoEmptyLabel;
    var full := Full(b, labels);
    var tail := |b| + |EncodeLabels(labels[..j])|;
    var n := |EncodeLabels(labels[j..])|;
    SplitAt(b, labels, j);
    SplitAt(b, labels, 0);
    assert labels[0..] == labels && labels[..0] == [];
    NoLabel();
    EncodedNonZero(labels);
    LastZero(full, b, EncodeLabels(labels));
    assert ZeroAt(full, tail) == |full| - 1;
    assert full[tail..|full| - 1] == EncodeLabels(labels[j..]);
    var z := ZeroAt(full, at);
    assert z - at == n;
    assert z < |b|;
    assert full[at..z] == b[at..z];
  }

  // Behind b the full buffer has its one zero at the end.
  lemma LastZero(full: seq<Byte>, b: seq<Byte>, e: seq<Byte>)
    requires full == b + e + [0] && forall k :: 0 <= k < |e| ==> e[k] != 0
    ensures forall r :: |b| <= r < |full| ==> ZeroAt(full, r) == |full| - 1
    ensures forall r :: 0 <= r < |full| ==> ZeroAt(full, r) < |b| || ZeroAt(full, r) == |full| - 1
  {
    assert full[|full| - 1] == 0;
    forall k | |b| <= k < |full| - 1
      ensures full[k] != 0
    {
      assert full[k] == e[k - |b|];
    }
  }

  // Reading labels and then a pointer gives the labels and what is pointed at.
  lemma PointerRead(buf: seq<Byte>, plen: nat, p: nat, at: nat)
    requires Fits(buf, plen) && p + 2 <= plen && at < plen && at < 0x4000 && buf[p..p + 2] == PointerTo(at)
    ensures var far := ReadFrom(buf, plen, at, 1);
      far.Labels? && EncodeLabels([]) == [] ==> ReadFrom(buf, plen, p, 0) == Labels(far.labels, p + 2)
  {
    assert buf[p] == buf[p..p + 2][0] && buf[p + 1] == buf[p..p + 2][1];
    assert PointerTarget(buf, p) == at;
  }

  lemma LabelRead(buf: seq<Byte>, plen: nat, p: nat)
    requires Fits(buf, plen) && p <= plen && 0 < buf[p] <= MAXLABEL && p + 1 + buf[p] < plen
    ensures var w := ReadFrom(buf, plen, p + 1 + buf[p], 0);
      w.Labels? ==> ReadFrom(buf, plen, p, 0) == Labels([Text(buf, p + 1, buf[p])] + w.labels, w.next)
  {
  }

  lemma {:induction false} ReadThenPointer(buf: seq<Byte>, plen: nat, p: nat, labels: seq<string>, at: nat)
    requires Fits(buf, plen) && AllNarrow(labels) && ShortLabels(labels) && NoEmptyLabel(labels)
    requires p + |EncodeLabels(labels)| + 2 <= plen && buf[p..p + |EncodeLabels(labels)|] == EncodeLabels(labels)
    requires at < plen && at < 0x4000
    requires buf[p + |EncodeLabels(labels)|..p + |EncodeLabels(labels)| + 2] == PointerTo(at)
    requires ReadFrom(buf, plen, at, 1).Labels?
    ensures ReadFrom(buf, plen, p, 0) == Behind(labels, ReadFrom(buf, plen, at, 1), p + |EncodeLabels(labels)| + 2)
    decreases |labels|
  {
    hide EncodeLabels, Text, AllNarrow, ShortLabels, NoEmptyLabel, Behind;
    var far := ReadFrom(buf, plen, at, 1);
    if labels == [] {
      NoLabel();
      PointerRead(buf, plen, p, at);
      BehindNone(far, p + 2);
    } else {
      TailLabels(labels);
      FirstInPlace(buf, p, labels);
      LabelRead(buf, plen, p);
      hide ReadFrom;
      ReadThenPointer(buf, plen, p + 1 + |labels[0]|, labels[1..], at);
      BehindOne(labels, far, p + |EncodeLabels(labels)| + 2);
    }
  }

  // The labels, with those of far behind them.
  function Behind(labels: seq<string>, far: Walk, next: nat): (w: Walk)
    requires far.Labels?
    ensures w.Labels?
  {
    Labels(labels + far.labels, next)
  }

  lemma BehindNone(far: Walk, next: nat)
    requires far.Labels?
    ensures Behind([], far, next) == Labels(far.labels, next)
  {
    assert [] + far.labels == far.labels;
  }

  lemma BehindOne(labels: seq<string>, far: Walk, next: nat)
    requires far.Labels? && labels != []
    ensures Behind(labels, far, next) == Labels([labels[0]] + Behind(labels[1..], far, next).labels, next)
    ensures Behind(labels[1..], far, next).next == next
  {
    assert [labels[0]] + (labels[1..] + far.labels) == labels + far.labels;
  }

  lemma TailLabels(labels: seq<string>)
    requires AllNarrow(labels) && ShortLabels(labels) && NoEmptyLabel(labels) && labels != []
    ensures AllNarrow(labels[1..]) && ShortLabels(labels[1..]) && NoEmptyLabel(labels[1..])
    ensures 0 < |labels[0]| <= MAXLABEL
  {
  }

  // ---------- the compressed list means what was asked for ----------

  lemma DecodeLast(b: seq<Byte>, c: seq<Byte>, labels: seq<string>)
    requires b <= c && |b| < |c| && NameAt(c, |b|) == Labels(labels, |c|) && DecodeList(b).Some?
    ensures DecodeList(c) == Some(DecodeList(b).v + [labels])
  {
    hide ReadFrom, Padded, NameAt;
    NameEndsAt(c, |b|);
    assert DecodeFrom(c, |c|) == Some([]);
    assert [labels] + [] == [labels];
    assert DecodeFrom(c, |b|) == Some([labels]);
    DecodeStable(b, c, 0);
  }

  lemma NameEndsAt(c: seq<Byte>, p: nat)
    requires p < |c| && NameAt(c, p).Labels?
    ensures p < NameAt(c, p).next <= |c|
  {
    NameEnds(c, p, 0);
  }

  lemma FullReads(b: seq<Byte>, labels: seq<string>)
    requires Writable(labels) && AllNarrow(labels) && NoEmptyLabel(labels)
    ensures NameAt(Full(b, labels), |b|) == Labels(labels, |Full(b, labels)|)
  {
    hide ReadFrom, EncodeLabels, Writable;
    var c := Full(b, labels);
    var x, n := Padded(c), |EncodeLabels(labels)|;
    assert x[|b|..|b| + n] == x[..|c|][|b|..|b| + n];
    assert x[|b| + n] == x[..|c|][|b| + n];
    assert ShortLabels(labels) by {
      WritableShort(labels);
    }
    assert HoldsLabels(x, |c|, |b|, labels);
    ReadWritten(x, |c|, |b|, labels, 0);
    UpToEmptyIs(labels);
  }

  lemma WritableShort(labels: seq<string>)
    requires Writable(labels)
    ensures ShortLabels(labels)
  {
  }

  lemma CompressedReads(b: seq<Byte>, labels: seq<string>, j: nat, at: nat)
    requires Writable(labels) && AllNarrow(labels) && NoEmptyLabel(labels) && j < |labels| && at < |b| && at < 0x4000
    requires var n := |EncodeLabels(labels[j..])|;
      at + n < |b| && b[at..at + n] == EncodeLabels(labels[j..]) && b[at + n] == 0
    ensures var c := b + EncodeLabels(labels[..j]) + PointerTo(at); NameAt(c, |b|) == Labels(labels, |c|)
  {
    hide ReadFrom, EncodeLabels, Writable, Legal, Narrow;
    var c := b + EncodeLabels(labels[..j]) + PointerTo(at);
    var x := Padded(c);
    var n, m := |EncodeLabels(labels[j..])|, |EncodeLabels(labels[..j])|;
    WritableShort(labels);
    assert ShortLabels(labels[j..]) && NoEmptyLabel(labels[j..]) && ShortLabels(labels[..j]) &&
        NoEmptyLabel(labels[..j]);
    assert forall k :: 0 <= k < |c| ==> x[k] == c[k];
    assert x[at..at + n] == b[at..at + n] && x[at + n] == 0;
    assert HoldsLabels(x, |c|, at, labels[j..]);
    ReadWritten(x, |c|, at, labels[j..], 1);
    UpToEmptyIs(labels[j..]);
    assert x[|b|..|b| + m] == EncodeLabels(labels[..j]);
    assert x[|b| + m..|b| + m + 2] == PointerTo(at);
    ReadThenPointer(x, |c|, |b|, labels[..j], at);
    assert labels[..j] + labels[j..] == labels;
  }

  // One more name, whatever the scan hit upon.
  lemma AddNameDecodes(b: seq<Byte>, labels: seq<string>)
    requires labels != [] && Writable(labels) && AllNarrow(labels) && NoEmptyLabel(labels) && |b| <= 0x4000
    requires DecodeList(b).Some?
    ensures DecodeList(AddName(b, labels)) == Some(DecodeList(b).v + [labels])
  {
    hide DecodeList, NameAt, EncodeLabels, Writable, NoEmptyLabel, CString, ScanTails;
    var full := Full(b, labels);
    var m := ScanTails(full, |b|, |b|);
    assert labels[..0] == [];
    NoLabel();
    if m.None? {
      FullReads(b, labels);
      DecodeLast(b, full, labels);
    } else {
      ScanAtLabels(b, labels, 0);
      var j :| 0 <= j < |labels| && m.v.tail == |b| + |EncodeLabels(labels[..j])|;
      SplitAt(b, labels, j);
      assert full[..m.v.tail] == b + EncodeLabels(labels[..j]);
      MatchIsEarlier(b, labels, j, m.v.at);
      CompressedReads(b, labels, j, m.v.at);
      DecodeLast(b, AddName(b, labels), labels);
    }
  }

  lemma AddNameGrows(b: seq<Byte>, labels: seq<string>)
    requires AllNarrow(labels)
    ensures |b| < |AddName(b, labels)|
  {
    hide ScanTails, EncodeLabels;
  }

  predicate NoEmptyLabels(names: seq<seq<string>>) {
    forall i :: 0 <= i < |names| ==> NoEmptyLabel(names[i])
  }

  lemma {:induction false} ListDecodes(names: seq<seq<string>>)
    requires AllLists(names) && NoEmptyLabels(names) && |EncodeList(names)| <= 255
    ensures DecodeList(EncodeList(names)) == Some(names)
  {
    hide AddName, NoEmptyLabel, Writable, AllNarrow, DecodeList;
    if names == [] {
      NothingDecodes();
    } else {
      var before, last := names[..|names| - 1], names[|names| - 1];
      AddNameGrows(EncodeList(before), last);
      ListDecodes(before);
      AddNameDecodes(EncodeList(before), last);
      assert before + [last] == names;
    }
  }

  lemma NothingDecodes()
    ensures DecodeList([]) == Some([])
  {
  }

  lemma {:induction false} DecodedNonEmpty(b: seq<Byte>, p: nat)
    requires p <= |b| && DecodeFrom(b, p).Some?
    ensures NoEmptyLabels(DecodeFrom(b, p).v)
    decreases |b| - p
  {
    hide ReadFrom, NoEmptyLabel, Padded;
    if p < |b| {
      ReadNonEmpty(Padded(b), |b|, p, 0);
      NameEnds(b, p, 0);
      DecodedNonEmpty(b, NameAt(b, p).next);
    }
  }

  // The option of at most 255 bytes decodes to the list it was made from exactly if no
  // name has an empty label. (canonicalise lets names like "a..b" pass.)
  lemma CompressionKeepsMeaning(names: seq<seq<string>>)
    requires AllLists(names) && |EncodeList(names)| <= 255
    ensures DecodeList(EncodeList(names)) == Some(names) <==> NoEmptyLabels(names)
  {
    hide NoEmptyLabel, EncodeList, AllLists, ReadFrom;
    if NoEmptyLabels(names) {
      ListDecodes(names);
    }
    if DecodeList(EncodeList(names)) == Some(names) {
      DecodedNonEmpty(EncodeList(names), 0);
    }
  }

  // Such a list: the name "a..b" alone.
  lemma EmptyLabelInList()
    ensures var names := [["a", "", "b"]];
      AllLists(names) && |EncodeList(names)| == 6 && DecodeList(EncodeList(names)) != Some(names)
  {
    var labels := ["a", "", "b"];
    var names := [labels];
    assert names[..0] == [] && EncodeList([]) == [];
    assert labels[1..] == ["", "b"] && labels[1..][1..] == ["b"] && labels[1..][1..][1..] == [];
    assert EncodeLabels([]) == [];
    assert EncodeLabels(["b"]) == [1, 98];
    assert EncodeLabels(["", "b"]) == [0, 1, 98];
    assert EncodeLabels(labels) == [1, 97, 0, 1, 98];
    var full := Full([], labels);
    assert full == [1, 97, 0, 1, 98, 0];
    assert ScanTails(full, 0, 2) == None;
    assert ScanTails(full, 0, 0) == None;
    assert EncodeList(names) == full;
    assert !NoEmptyLabel(names[0]) by { assert names[0][1] == ""; }
    hide EncodeList, DecodeList;
    CompressionKeepsMeaning(names);
  }
}
