// Writing names: canonicalise and do_rfc1035_name of util.c, and that reading undoes
// writing exactly for the names without an empty label.
module DnsEncode {
  import opened Optional
  import opened HostNames
  import opened Slices
  import opened DnsName
  import opened DnsCompare

  // ---------- labels of a written name ----------

  function FirstDot(s: string): (k: nat)
    ensures k <= |s|
    ensures k < |s| ==> s[k] == '.'
    ensures forall i :: 0 <= i < k ==> s[i] != '.'
  {
    if s == "" || s[0] == '.' then 0 else 1 + FirstDot(s[1..])
  }

  // A final dot adds no label, but two dots in a row have an empty one between them.
  function SplitDots(s: string): seq<string>
    decreases |s|
  {
    if s == "" then []
    else
      var k := FirstDot(s);
      [s[..k]] + SplitDots(if k < |s| then s[k + 1..] else "")
  }

  predicate Narrow(s: string) {
    forall i :: 0 <= i < |s| ==> s[i] < 256 as char
  }

  function Bytes(s: string): (b: seq<Byte>)
    requires Narrow(s)
    ensures |b| == |s|
  {
    seq(|s|, i requires 0 <= i < |s| => s[i] as int)
  }

  // The length byte holds what fits into it.
  function EncodeLabel(w: string): seq<Byte>
    requires Narrow(w)
  {
    [|w| % 256] + Bytes(w)
  }

  predicate AllNarrow(labels: seq<string>) {
    forall i :: 0 <= i < |labels| ==> Narrow(labels[i])
  }

  function EncodeLabels(labels: seq<string>): seq<Byte>
    requires AllNarrow(labels)
  {
    if labels == [] then [] else EncodeLabel(labels[0]) + EncodeLabels(labels[1..])
  }

  lemma {:induction false} SplitNarrow(s: string)
    requires Narrow(s)
    ensures AllNarrow(SplitDots(s))
    decreases |s|
  {
    if s != "" {
      var k := FirstDot(s);
      SplitNarrow(if k < |s| then s[k + 1..] else "");
    }
  }

  function EncodeName(s: string): seq<Byte>
    requires Narrow(s)
  {
    SplitNarrow(s);
    EncodeLabels(SplitDots(s))
  }

  lemma NarrowPart(s: string, k: nat)
    requires Narrow(s) && k <= |s|
    ensures Narrow(s[..k]) && Narrow("") && (k < |s| ==> Narrow(s[k + 1..]))
  {
  }

  lemma EncodeNext(s: string)
    requires Narrow(s) && s != ""
    ensures var k := FirstDot(s);
      var rest := if k < |s| then s[k + 1..] else "";
      Narrow(rest) && EncodeName(s) == EncodeLabel(s[..k]) + EncodeName(rest)
  {
    hide Narrow, EncodeLabel;
    SplitNarrow(s);
    var k := FirstDot(s);
    var rest := if k < |s| then s[k + 1..] else "";
    NarrowPart(s, k);
    assert SplitDots(s)[0] == s[..k] && SplitDots(s)[1..] == SplitDots(rest);
  }

  lemma EncodeLength(s: string)
    requires Narrow(s)
    ensures |EncodeName(s)| <= |s| + 1
    decreases |s|
  {
    if s != "" {
      var k := FirstDot(s);
      EncodeNext(s);
      var rest := if k < |s| then s[k + 1..] else "";
      EncodeLength(rest);
      if rest == "" {
        assert EncodeName(rest) == [];
      }
    }
  }

  // ---------- do_rfc1035_name ----------

  // One label, with its length written last.
  method PutLabel(buf: array<Byte>, p: nat, s: string) returns (q: nat, k: nat)
    requires Narrow(s) && p + |s| + 1 <= buf.Length
    modifies buf
    ensures k == FirstDot(s) && q == p + 1 + k && q <= buf.Length
    ensures buf[p..q] == EncodeLabel(s[..k])
    ensures buf[..p] == old(buf[..p]) && buf[q..] == old(buf[q..])
  {
    var j := 0;
    while j < |s| && s[j] != '.'
      invariant 0 <= j <= |s|
      invariant forall i :: 0 <= i < j ==> s[i] != '.' && buf[p + 1 + i] == s[i] as int
      invariant forall i :: 0 <= i < buf.Length && (i < p + 1 || i >= p + 1 + j) ==> buf[i] == old(buf[i])
    {
      buf[p + 1 + j] := s[j] as int;
      j := j + 1;
    }
    buf[p] := j % 256;
    k, q := j, p + 1 + j;
  }

  method DoRfc1035Name(buf: array<Byte>, p: nat, sval: string) returns (q: nat)
    requires Narrow(sval) && p + |sval| + 1 <= buf.Length
    modifies buf
    ensures q == p + |EncodeName(sval)| <= buf.Length
    ensures buf[p..q] == EncodeName(sval)
    ensures buf[..p] == old(buf[..p]) && buf[q..] == old(buf[q..])
  {
    hide EncodeLabel, FirstDot, SplitDots, EncodeLabels, EncodeName;
    var s := sval;
    q := p;
    EncodeLength(sval);
    NoLabels();
    ghost var written: seq<Byte> := [];
    while s != ""
      invariant p <= q <= buf.Length && (s != "" ==> q + |s| + 1 <= buf.Length)
      invariant Narrow(s)
      invariant written + EncodeName(s) == EncodeName(sval) && q == p + |written|
      invariant buf[p..q] == written
      invariant buf[..p] == old(buf[..p]) && buf[q..] == old(buf[q..])
      decreases |s|
    {
      EncodeNext(s);
      ghost var from, before := q, buf[..];
      var k;
      q, k := PutLabel(buf, q, s);
      Glue(old(buf[..]), before, buf[..], p, from, q);
      Regroup(written, EncodeLabel(s[..k]), EncodeName(if k < |s| then s[k + 1..] else ""));
      written := written + EncodeLabel(s[..k]);
      s := if k < |s| then s[k + 1..] else "";
    }
    assert written + [] == written;
  }

  lemma NoLabels()
    ensures EncodeName("") == []
    ensures forall s :: Narrow(s) ==> [] + EncodeName(s) == EncodeName(s)
  {
  }

  lemma Glue(start: seq<Byte>, before: seq<Byte>, after: seq<Byte>, p: nat, mid: nat, q: nat)
    requires p <= mid <= q <= |before| == |after| == |start|
    requires before[..p] == start[..p] && before[mid..] == start[mid..]
    requires after[..mid] == before[..mid] && after[q..] == before[q..]
    ensures after[p..q] == before[p..mid] + after[mid..q]
    ensures after[..p] == start[..p] && after[q..] == start[q..]
  {
    assert after[p..mid] == after[..mid][p..] == before[..mid][p..] == before[p..mid];
    assert after[..p] == after[..mid][..p] == before[..mid][..p] == before[..p];
    assert before[q..] == before[mid..][q - mid..] == start[mid..][q - mid..] == start[q..];
  }

  // ---------- canonicalise ----------

  predicate ShortLabels(labels: seq<string>) {
    forall i :: 0 <= i < |labels| ==> |labels[i]| <= MAXLABEL
  }

  // A label in progress of length gap, followed by the labels of s.
  predicate LabelsOk(s: string, gap: nat) {
    s == "" || (if s[0] == '.' then LabelsOk(s[1..], 0) else LegalChar(s[0]) && gap + 1 <= MAXLABEL && LabelsOk(s[1..],
        gap + 1))
  }

  method Canonicalise(s: string) returns (r: Option<string>)
    ensures r.Some? ==> 0 < |s| <= MAXDNAME && r.v == (if s[|s| - 1] == '.' then s[..|s| - 1] else s)
    ensures r.Some? ==> LabelsOk(r.v, 0)
    ensures s != "" && |s| <= MAXDNAME && s != "." ==>
      var t := if s[|s| - 1] == '.' then s[..|s| - 1] else s;
      r.Some? <==> LabelsOk(t, 0) && exists i :: 0 <= i < |t| && t[i] != '.' && t[i] != ' '
  {
    if s == "" || |s| > MAXDNAME {
      return None;
    }
    var t := s;
    if s[|s| - 1] == '.' {
      if |s| == 1 {
        return None;
      }
      t := s[..|s| - 1];
    }
    var i, gap := 0, 0;
    var nowhite := false;
    while i < |t|
      invariant 0 <= i <= |t| && gap >= 0
      invariant LabelsOk(t, 0) <==> LabelsOk(t[i..], gap)
      invariant nowhite <==> exists k :: 0 <= k < i && t[k] != '.' && t[k] != ' '
    {
      assert t[i..][1..] == t[i + 1..];
      if t[i] == '.' {
        gap := 0;
      } else {
        if !LegalChar(t[i]) {
          return None;
        }
        gap := gap + 1;
        if gap > MAXLABEL {
          return None;
        }
        if t[i] != ' ' {
          nowhite := true;
        }
      }
      i := i + 1;
    }
    assert t[i..] == "";
    r := if nowhite then Some(t) else None;
  }

  lemma {:induction false} LabelsOkHead(s: string, gap: nat)
    requires LabelsOk(s, gap)
    ensures FirstDot(s) + gap <= MAXLABEL || FirstDot(s) == 0
    ensures Legal(s[..FirstDot(s)])
    ensures FirstDot(s) < |s| ==> LabelsOk(s[FirstDot(s) + 1..], 0)
    decreases |s|
  {
    if s != "" && s[0] != '.' {
      LabelsOkHead(s[1..], gap + 1);
      assert s[..FirstDot(s)] == [s[0]] + s[1..][..FirstDot(s[1..])];
      if FirstDot(s) < |s| {
        assert s[FirstDot(s) + 1..] == s[1..][FirstDot(s[1..]) + 1..];
      }
    }
  }

  // What canonicalise lets through has legal labels of at most 63 characters, but some
  // of them may be empty.
  lemma {:induction false} CanonicalLabels(s: string)
    requires LabelsOk(s, 0)
    ensures AllLegal(SplitDots(s)) && ShortLabels(SplitDots(s))
    decreases |s|
  {
    if s != "" {
      LabelsOkHead(s, 0);
      var k := FirstDot(s);
      var rest := if k < |s| then s[k + 1..] else "";
      CanonicalLabels(rest);
      var tail := SplitDots(rest);
      assert forall i :: 0 < i < |SplitDots(s)| ==> SplitDots(s)[i] == tail[i - 1];
    }
  }

  // ---------- reading undoes writing ----------

  // The labels before the first empty one.
  function UpToEmpty(labels: seq<string>): seq<string> {
    if labels == [] || labels[0] == "" then [] else [labels[0]] + UpToEmpty(labels[1..])
  }

  predicate Writable(labels: seq<string>) {
    AllLegal(labels) && ShortLabels(labels)
  }

  // The bytes at p are the labels and a zero, all in the packet.
  predicate HoldsLabels(buf: seq<Byte>, plen: nat, p: nat, labels: seq<string>)
    requires AllNarrow(labels)
  {
    var n := |EncodeLabels(labels)|;
    p + n < plen && plen + SLACK <= |buf| && buf[p..p + n] == EncodeLabels(labels) && buf[p + n] == 0
  }

  // The first of the labels encoded at p, and where the rest of them is.
  lemma FirstInPlace(buf: seq<Byte>, p: nat, labels: seq<string>)
    requires AllNarrow(labels) && labels != [] && |labels[0]| <= MAXLABEL
    requires p + |EncodeLabels(labels)| <= |buf| && buf[p..p + |EncodeLabels(labels)|] == EncodeLabels(labels)
    ensures var q := p + 1 + |labels[0]|;
      && AllNarrow(labels[1..]) && q + |EncodeLabels(labels[1..])| == p + |EncodeLabels(labels)|
      && buf[p] == |labels[0]| && Text(buf, p + 1, |labels[0]|) == labels[0]
      && buf[q..q + |EncodeLabels(labels[1..])|] == EncodeLabels(labels[1..])
  {
    assert EncodeLabels(labels) == [|labels[0]|] + Bytes(labels[0]) + EncodeLabels(labels[1..]);
    hide EncodeLabels, EncodeLabel, Text, Bytes;
    var q := p + 1 + |labels[0]|;
    Parts(buf, p, [|labels[0]|], Bytes(labels[0]), EncodeLabels(labels[1..]));
    assert buf[p] == buf[p..p + 1][0];
    BytesRead(buf, p + 1, labels[0]);
  }

  lemma BytesRead(buf: seq<Byte>, p: nat, w: string)
    requires Narrow(w) && p + |w| <= |buf| && buf[p..p + |w|] == Bytes(w)
    ensures Text(buf, p, |w|) == w
  {
    forall i | 0 <= i < |w|
      ensures Text(buf, p, |w|)[i] == w[i]
    {
      assert buf[p + i] == buf[p..p + |w|][i] == Bytes(w)[i];
    }
  }

  lemma HoldsFirst(buf: seq<Byte>, plen: nat, p: nat, labels: seq<string>)
    requires AllNarrow(labels) && HoldsLabels(buf, plen, p, labels) && labels != [] && |labels[0]| <= MAXLABEL
    ensures buf[p] == |labels[0]| && p + 1 + |labels[0]| < plen
    ensures Text(buf, p + 1, |labels[0]|) == labels[0]
    ensures AllNarrow(labels[1..]) && HoldsLabels(buf, plen, p + 1 + |labels[0]|, labels[1..])
    ensures p + 1 + |labels[0]| + |EncodeLabels(labels[1..])| == p + |EncodeLabels(labels)|
  {
    hide EncodeLabels, Text;
    FirstInPlace(buf, p, labels);
  }

  // Reading stops at an empty label, which looks like the end.
  lemma {:induction false} ReadWritten(buf: seq<Byte>, plen: nat, p: nat, labels: seq<string>, hops: nat)
    requires AllNarrow(labels) && ShortLabels(labels) && HoldsLabels(buf, plen, p, labels) && hops <= MAX_HOPS
    ensures var w := ReadFrom(buf, plen, p, hops);
      && w.Labels? && w.labels == UpToEmpty(labels)
      && (NoEmptyLabel(labels) ==> w.next == p + |EncodeLabels(labels)| + 1)
    decreases |labels|
  {
    hide HoldsLabels, EncodeLabels;
    if labels == [] {
      HoldsNone(buf, plen, p);
    } else {
      HoldsFirst(buf, plen, p, labels);
      if labels[0] != "" {
        ReadWritten(buf, plen, p + 1 + |labels[0]|, labels[1..], hops);
      }
    }
  }

  lemma HoldsNone(buf: seq<Byte>, plen: nat, p: nat)
    requires HoldsLabels(buf, plen, p, [])
    ensures p < plen && plen + SLACK <= |buf| && buf[p] == 0 && EncodeLabels([]) == []
  {
  }

  lemma {:induction false} UpToEmptyIs(labels: seq<string>)
    ensures NoEmptyLabel(labels) ==> UpToEmpty(labels) == labels
    ensures !NoEmptyLabel(labels) ==> |Dotted(UpToEmpty(labels))| < |Dotted(labels)|
    ensures AllLegal(labels) ==> AllLegal(UpToEmpty(labels))
    ensures |Dotted(UpToEmpty(labels))| <= |Dotted(labels)|
  {
    hide Legal;
    if labels != [] && labels[0] != "" {
      UpToEmptyIs(labels[1..]);
      var rest := UpToEmpty(labels[1..]);
      assert ([labels[0]] + rest)[1..] == rest;
      assert NoEmptyLabel(labels[1..]) ==> NoEmptyLabel(labels);
    }
  }

  function WithoutFinalDot(s: string): string {
    if FinalDot(s) then s[..|s| - 1] else s
  }

  // The labels with dots between them are the name again.
  lemma {:induction false} SplitJoins(s: string)
    requires s != ""
    ensures Dotted(SplitDots(s)) == WithoutFinalDot(s) + "."
    decreases |s|
  {
    hide Dotted, FinalDot;
    var k := FirstDot(s);
    var rest := if k < |s| then s[k + 1..] else "";
    var labels := SplitDots(s);
    assert labels[0] == s[..k] && labels[1..] == SplitDots(rest);
    DottedFirst(labels);
    DotsAt(s, k);
    if rest != "" {
      SplitJoins(rest);
      Regroup(s[..k] + ".", WithoutFinalDot(rest), ".");
    } else {
      assert SplitDots(rest) == [];
      JoinNone();
      Regroup(s[..k] + ".", "", "");
    }
  }

  // Where the final dot of a name goes.
  lemma DotsAt(s: string, k: nat)
    requires s != "" && k <= |s| && (k < |s| ==> s[k] == '.') && (forall i :: 0 <= i < k ==> s[i] != '.')
    ensures k + 1 >= |s| ==> WithoutFinalDot(s) == s[..k]
    ensures k + 1 < |s| ==> WithoutFinalDot(s) == s[..k] + "." + WithoutFinalDot(s[k + 1..])
  {
  }

  lemma SplitJoin(s: string)
    ensures Join(SplitDots(s)) == WithoutFinalDot(s)
  {
    if s != "" {
      SplitJoins(s);
      DropDot(WithoutFinalDot(s));
    }
  }

  // A name written by do_rfc1035_name and closed with a zero is extracted again exactly
  // if it has no empty label and is short enough for the reader, whose limit is two less
  // than that of canonicalise; a final dot is lost. (A single dot is no canonical name.)
  lemma RoundTrip(buf: seq<Byte>, plen: nat, p: nat, s: string)
    requires Writable(SplitDots(s)) && Narrow(s) && s != "."
    requires AllNarrow(SplitDots(s)) && HoldsLabels(buf, plen, p, SplitDots(s))
    ensures Fits(buf, plen)
    ensures Extract(buf, plen, p).Some? <==> |Dotted(UpToEmpty(SplitDots(s)))| < MAXDNAME
    ensures Extract(buf, plen, p).Some? && Extract(buf, plen, p).v.name == WithoutFinalDot(s) <==>
        NoEmptyLabel(SplitDots(s)) && |WithoutFinalDot(s)| + 1 < MAXDNAME
    ensures Extract(buf, plen, p).Some? && NoEmptyLabel(SplitDots(s)) ==>
        Extract(buf, plen, p).v.next == p + |EncodeName(s)| + 1
  {
    hide ReadFrom, Dotted, Join, SplitDots, HoldsLabels, EncodeLabels, UpToEmpty, Legal, FinalDot;
    HoldsFits(buf, plen, p, SplitDots(s));
    ReadWritten(buf, plen, p, SplitDots(s), 0);
    UpToEmptyIs(SplitDots(s));
    SplitJoin(s);
    DottedSize(s);
    JoinDotted(UpToEmpty(SplitDots(s)));
    JoinDotted(SplitDots(s));
    assert WithoutFinalDot(s) == "" ==> s == "" by {
      OnlyDot(s);
    }
  }

  // canonicalise lets "a..b" pass, and what is written for it is read as "a".
  lemma EmptyLabelEndsName(buf: seq<Byte>, plen: nat, p: nat)
    requires AllNarrow(SplitDots("a..b")) && HoldsLabels(buf, plen, p, SplitDots("a..b"))
    ensures LabelsOk("a..b", 0) && Fits(buf, plen) && Extract(buf, plen, p).Some? && Extract(buf, plen, p).v.name == "a"
  {
    ThreeLabels();
    hide ReadFrom, HoldsLabels, EncodeLabels, SplitDots;
    HoldsFits(buf, plen, p, SplitDots("a..b"));
    ReadWritten(buf, plen, p, SplitDots("a..b"), 0);
    DottedOne("a");
  }

  lemma ThreeLabels()
    ensures SplitDots("a..b") == ["a", "", "b"] && LabelsOk("a..b", 0) && ShortLabels(["a", "", "b"])
    ensures UpToEmpty(["a", "", "b"]) == ["a"]
  {
    assert "a..b"[2..] == ".b" && ".b"[1..] == "b" && "b"[1..] == "" && "a..b"[1..] == "..b" && "..b"[1..] == ".b";
    assert "a..b"[..1] == "a" && ".b"[..0] == "" && "b"[..1] == "b";
    assert SplitDots("b") == ["b"];
    assert SplitDots(".b") == [""] + SplitDots("b");
    assert SplitDots("a..b") == ["a"] + SplitDots(".b");
    assert ["a", "", "b"][1..] == ["", "b"];
    assert UpToEmpty(["", "b"]) == [];
  }

  lemma OnlyDot(s: string)
    ensures WithoutFinalDot(s) == "" <==> s == "" || s == "."
  {
    assert |s| == 1 && s[0] == '.' ==> s == ".";
  }

  lemma HoldsFits(buf: seq<Byte>, plen: nat, p: nat, labels: seq<string>)
    requires AllNarrow(labels) && HoldsLabels(buf, plen, p, labels)
    ensures Fits(buf, plen) && p < plen
  {
  }

  lemma DottedSize(s: string)
    ensures |Dotted(SplitDots(s))| <= |s| + 1
    ensures |Dotted(SplitDots(s))| == (if s == "" then 0 else |WithoutFinalDot(s)| + 1)
  {
    if s != "" {
      SplitJoins(s);
    }
  }
}
