// questions_crc: a checksum of the question section that does not depend on the case of
// the letters or on how the names are compressed.
module DnsCrc {
  import opened Optional
  import opened HostNames
  import opened DnsName
  import opened DnsCompare
  import opened CrcBits

  // A name, and the four bytes of type and class.
  datatype Question = Question(name: string, tail: seq<Byte>)

  // The questions as far as they can be read; the last one may run over the end.
  function ReadQuestions(buf: seq<Byte>, plen: nat, p: nat, q: nat): seq<Question>
    requires Fits(buf, plen) && p <= plen
    decreases q
  {
    if q == 0 then []
    else
      var e := Extract(buf, plen, p);
      if e.None? then []
      else
        ExtractEnds(buf, plen, p);
        [Question(e.v.name, buf[e.v.next..e.v.next + 4])]
        + if e.v.next + 4 > plen then [] else ReadQuestions(buf, plen, e.v.next + 4, q - 1)
  }

  lemma {:induction false} ReadEnds(buf: seq<Byte>, plen: nat, p: nat, hops: nat)
    requires Fits(buf, plen) && p <= plen && hops <= MAX_HOPS
    ensures var w := ReadFrom(buf, plen, p, hops); w.Labels? ==> p < w.next <= plen + 1
    decreases MAX_HOPS - hops, |buf| - p
  {
    var l: nat := buf[p];
    if 0 < l <= MAXLABEL && p + 1 + l < plen {
      ReadEnds(buf, plen, p + 1 + l, hops);
    }
  }

  lemma ExtractEnds(buf: seq<Byte>, plen: nat, p: nat)
    requires Fits(buf, plen) && p <= plen
    ensures var e := Extract(buf, plen, p); e.Some? ==> p < e.v.next <= plen + 1
  {
    ReadEnds(buf, plen, p, 0);
  }

  // ---------- the checksum ----------

  function CrcByte(crc: bv32, b: Byte): bv32 {
    CrcMix(crc, TopBits(b))
  }

  function CrcBytes(crc: bv32, bs: seq<Byte>): bv32 {
    if bs == [] then crc else CrcByte(CrcBytes(crc, bs[..|bs| - 1]), bs[|bs| - 1])
  }

  predicate Ascii(s: string) {
    forall i :: 0 <= i < |s| ==> s[i] < 128 as char
  }

  function AsciiBytes(s: string): (b: seq<Byte>)
    requires Ascii(s)
    ensures |b| == |s|
  {
    seq(|s|, i requires 0 <= i < |s| => s[i] as int)
  }

  // The characters of a name count in lower case.
  function NameBytes(name: string): seq<Byte>
    requires Ascii(name)
  {
    AsciiBytes(Fold(name))
  }

  function QuestionBytes(q: Question): seq<Byte> {
    (if Ascii(q.name) then NameBytes(q.name) else []) + q.tail
  }

  function CrcQuestions(crc: bv32, qs: seq<Question>): bv32
    decreases |qs|
  {
    if qs == [] then crc else CrcQuestions(CrcBytes(crc, QuestionBytes(qs[0])), qs[1..])
  }

  lemma {:induction false} DottedAscii(labels: seq<string>)
    requires AllLegal(labels)
    ensures Ascii(Dotted(labels)) && Ascii(Join(labels))
  {
    if labels != [] {
      assert Legal(labels[0]);
      assert AllLegal(labels[1..]) by {
        forall i | 0 <= i < |labels[1..]|
          ensures Legal(labels[1..][i])
        {
          assert labels[1..][i] == labels[i + 1];
        }
      }
      DottedAscii(labels[1..]);
    }
  }

  lemma ExtractAscii(buf: seq<Byte>, plen: nat, p: nat)
    requires Fits(buf, plen) && p <= plen && Extract(buf, plen, p).Some?
    ensures Ascii(Extract(buf, plen, p).v.name)
  {
    DottedAscii(ReadFrom(buf, plen, p, 0).labels);
  }

  lemma {:induction false} CrcConcat(crc: bv32, a: seq<Byte>, b: seq<Byte>)
    ensures CrcBytes(crc, a + b) == CrcBytes(CrcBytes(crc, a), b)
  {
    hide CrcByte, CrcBytes;
    if b == [] {
      assert a + b == a;
      CrcEmpty(CrcBytes(crc, a));
    } else {
      CrcConcat(crc, a, b[..|b| - 1]);
      assert (a + b)[..|a + b| - 1] == a + b[..|b| - 1] && (a + b)[|a + b| - 1] == b[|b| - 1];
      CrcSnoc(crc, a + b);
      CrcSnoc(CrcBytes(crc, a), b);
    }
  }

  lemma CrcEmpty(crc: bv32)
    ensures CrcBytes(crc, []) == crc
  {
  }

  lemma CrcSnoc(crc: bv32, bs: seq<Byte>)
    requires bs != []
    ensures CrcBytes(crc, bs) == CrcByte(CrcBytes(crc, bs[..|bs| - 1]), bs[|bs| - 1])
  {
    hide CrcByte;
  }

  method CrcUpdate(crc0: bv32, b: Byte) returns (crc: bv32)
    ensures crc == CrcByte(crc0, b)
  {
    crc := crc0 ^ (BitsOf(b) << 24);
    ghost var start := crc;
    var i := 8;
    while i > 0
      invariant 0 <= i <= 8 && CrcShift(start, 8) == CrcShift(crc, i)
    {
      crc := if crc & 0x80000000 != 0 then (crc << 1) ^ 0x04c11db7 else crc << 1;
      i := i - 1;
    }
  }

  method QuestionsCrc(buf: seq<Byte>, plen: nat, qdcount: nat, start: nat) returns (crc: bv32)
    requires Fits(buf, plen) && start <= plen
    ensures crc == CrcQuestions(0xffffffff, ReadQuestions(buf, plen, start, qdcount))
  {
    hide CrcByte, Extract, CrcBytes, Ascii, Fold;
    crc := 0xffffffff;
    var p: nat, q: nat := start, qdcount;
    while q != 0
      invariant p <= plen
      invariant CrcQuestions(0xffffffff, ReadQuestions(buf, plen, start, qdcount)) == CrcQuestions(crc,
          ReadQuestions(buf, plen, p, q))
      decreases q
    {
      var e := ExtractName(buf, plen, p);
      if e.None? {
        return;
      }
      ExtractEnds(buf, plen, p);
      ExtractAscii(buf, plen, p);
      var mid := CrcName(crc, e.v.name);
      var tail := buf[e.v.next..e.v.next + 4];
      var last := CrcTail(mid, tail);
      CrcConcat(crc, NameBytes(e.v.name), tail);
      ghost var qs := ReadQuestions(buf, plen, p, q);
      FirstQuestion(crc, qs, last);
      crc := last;
      p := e.v.next + 4;
      if p > plen {
        assert qs[1..] == [];
        return;
      }
      q := q - 1;
    }
  }

  lemma FirstQuestion(crc: bv32, qs: seq<Question>, last: bv32)
    requires qs != [] && last == CrcBytes(crc, QuestionBytes(qs[0]))
    ensures CrcQuestions(crc, qs) == CrcQuestions(last, qs[1..])
  {
  }

  method CrcName(crc0: bv32, name: string) returns (crc: bv32)
    requires Ascii(name)
    ensures crc == CrcBytes(crc0, NameBytes(name))
  {
    hide CrcByte;
    crc := crc0;
    var bytes := NameBytes(name);
    var j := 0;
    while j < |name|
      invariant 0 <= j <= |name| && crc == CrcBytes(crc0, bytes[..j])
    {
      var c := name[j];
      if 'A' <= c <= 'Z' {
        c := c - 'A' + 'a';
      }
      assert bytes[..j + 1][..j] == bytes[..j] && bytes[j] == c as int;
      crc := CrcUpdate(crc, c as int);
      j := j + 1;
    }
    assert bytes[..|bytes|] == bytes;
  }

  method CrcTail(crc0: bv32, bs: seq<Byte>) returns (crc: bv32)
    ensures crc == CrcBytes(crc0, bs)
  {
    hide CrcByte;
    crc := crc0;
    var j := 0;
    while j < |bs|
      invariant 0 <= j <= |bs| && crc == CrcBytes(crc0, bs[..j])
    {
      assert bs[..j + 1][..j] == bs[..j];
      crc := CrcUpdate(crc, bs[j]);
      j := j + 1;
    }
    assert bs[..|bs|] == bs;
  }

  // ---------- what it does not depend on ----------

  // The same questions, up to the case of letters.
  predicate SameQuestions(a: seq<Question>, b: seq<Question>) {
    |a| == |b| && forall i :: 0 <= i < |a| ==> NameEq(a[i].name, b[i].name) && a[i].tail == b[i].tail
  }

  lemma SameBytes(a: Question, b: Question)
    requires NameEq(a.name, b.name) && a.tail == b.tail
    ensures QuestionBytes(a) == QuestionBytes(b)
  {
    assert forall i :: 0 <= i < |a.name| ==> Fold(a.name)[i] == Lower(a.name[i]) && Fold(b.name)[i] == Lower(b.name[i]);
    assert Ascii(a.name) <==> Ascii(Fold(a.name)) by {
      AsciiFold(a.name);
    }
    AsciiFold(b.name);
  }

  lemma AsciiFold(s: string)
    ensures Ascii(s) <==> Ascii(Fold(s))
  {
    assert forall i :: 0 <= i < |s| ==> Fold(s)[i] == Lower(s[i]);
    forall i | 0 <= i < |s|
      ensures s[i] < 128 as char <==> Fold(s)[i] < 128 as char
    {
    }
  }

  lemma {:induction false} SameCrc(crc: bv32, a: seq<Question>, b: seq<Question>)
    requires SameQuestions(a, b)
    ensures CrcQuestions(crc, a) == CrcQuestions(crc, b)
    decreases |a|
  {
    hide CrcBytes, QuestionBytes, NameEq;
    if a != [] {
      SameBytes(a[0], b[0]);
      SameCrc(CrcBytes(crc, QuestionBytes(a[0])), a[1..], b[1..]);
    }
  }

  // The same labels, up to the case of letters.
  predicate SameLabels(a: seq<string>, b: seq<string>) {
    |a| == |b| && forall i :: 0 <= i < |a| ==> NameEq(a[i], b[i])
  }

  // Reading n questions in two packets meets the same labels, types and classes; where the
  // labels stand, and which pointers lead there, does not matter.
  ghost predicate SameWalks(buf1: seq<Byte>, plen1: nat, p1: nat, buf2: seq<Byte>, plen2: nat, p2: nat, n: nat)
    requires Fits(buf1, plen1) && Fits(buf2, plen2) && p1 <= plen1 && p2 <= plen2
    decreases n
  {
    n == 0 ||
    (var w1, w2 := ReadFrom(buf1, plen1, p1, 0), ReadFrom(buf2, plen2, p2, 0);
     ReadEnds(buf1, plen1, p1, 0);
     ReadEnds(buf2, plen2, p2, 0);
     if w1.Bad? || w2.Bad? then w1.Bad? && w2.Bad?
     else
       && SameLabels(w1.labels, w2.labels)
       && buf1[w1.next..w1.next + 4] == buf2[w2.next..w2.next + 4]
       && (w1.next + 4 <= plen1 <==> w2.next + 4 <= plen2)
       && (w1.next + 4 <= plen1 ==> SameWalks(buf1, plen1, w1.next + 4, buf2, plen2, w2.next + 4, n - 1)))
  }

  lemma LegalFold(a: string, b: string)
    requires NameEq(a, b)
    ensures |a| == |b| && (Legal(a) <==> Legal(b))
  {
    FoldLength(a, b);
    assert forall i :: 0 <= i < |a| ==> Fold(a)[i] == Lower(a[i]) && Fold(b)[i] == Lower(b[i]);
    assert forall i :: 0 <= i < |a| ==> (LegalChar(a[i]) <==> LegalChar(b[i]));
  }

  lemma {:induction false} SameDotted(a: seq<string>, b: seq<string>)
    requires SameLabels(a, b)
    ensures NameEq(Dotted(a), Dotted(b)) && |Dotted(a)| == |Dotted(b)| && (AllLegal(a) <==> AllLegal(b))
  {
    if a != [] {
      hide Fold, Legal;
      SameDotted(a[1..], b[1..]);
      FoldConcat(a[0] + ".", Dotted(a[1..]));
      FoldConcat(b[0] + ".", Dotted(b[1..]));
      FoldConcat(a[0], ".");
      FoldConcat(b[0], ".");
      LegalFold(a[0], b[0]);
      assert AllLegal(a) <==> Legal(a[0]) && AllLegal(a[1..]) by { AllLegalCons(a); }
      AllLegalCons(b);
    }
  }

  lemma AllLegalCons(a: seq<string>)
    requires a != []
    ensures AllLegal(a) <==> Legal(a[0]) && AllLegal(a[1..])
  {
    assert a == [a[0]] + a[1..];
  }

  // Names with the same labels are both too long, or illegal, or neither, and are equal.
  lemma SameNames(a: seq<string>, b: seq<string>)
    requires SameLabels(a, b)
    ensures (Extractable(a) <==> Extractable(b)) && NameEq(Join(a), Join(b))
  {
    SameDotted(a, b);
    if a != [] {
      DottedJoin(a);
      DottedJoin(b);
      FoldConcat(Join(a), ".");
      FoldConcat(Join(b), ".");
      var x, y := Fold(Join(a)), Fold(Join(b));
      assert (x + Fold("."))[..|x|] == (y + Fold("."))[..|y|];
    }
  }

  lemma {:induction false} WalksGiveQuestions(buf1: seq<Byte>, plen1: nat, p1: nat, buf2: seq<Byte>, plen2: nat,
                                              p2: nat, n: nat)
    requires Fits(buf1, plen1) && Fits(buf2, plen2) && p1 <= plen1 && p2 <= plen2
    requires SameWalks(buf1, plen1, p1, buf2, plen2, p2, n)
    ensures SameQuestions(ReadQuestions(buf1, plen1, p1, n), ReadQuestions(buf2, plen2, p2, n))
    decreases n
  {
    hide ReadFrom, Extractable, NameEq, Join, SameLabels;
    if n > 0 {
      var w1, w2 := ReadFrom(buf1, plen1, p1, 0), ReadFrom(buf2, plen2, p2, 0);
      ReadEnds(buf1, plen1, p1, 0);
      ReadEnds(buf2, plen2, p2, 0);
      if w1.Labels? {
        SameNames(w1.labels, w2.labels);
        if w1.next + 4 <= plen1 {
          WalksGiveQuestions(buf1, plen1, w1.next + 4, buf2, plen2, w2.next + 4, n - 1);
        }
      }
    }
  }

  // Two packets that ask the same, label by label, have the same CRC, however the names
  // are written: in capitals or not, in full or with pointers.
  lemma CrcIsCanonical(buf1: seq<Byte>, plen1: nat, p1: nat, buf2: seq<Byte>, plen2: nat, p2: nat, n: nat)
    requires Fits(buf1, plen1) && Fits(buf2, plen2) && p1 <= plen1 && p2 <= plen2
    requires SameWalks(buf1, plen1, p1, buf2, plen2, p2, n)
    ensures CrcQuestions(0xffffffff, ReadQuestions(buf1, plen1, p1, n)) == CrcQuestions(0xffffffff, ReadQuestions(buf2,
        plen2, p2, n))
  {
    hide SameWalks, ReadQuestions, CrcQuestions;
    WalksGiveQuestions(buf1, plen1, p1, buf2, plen2, p2, n);
    SameCrc(0xffffffff, ReadQuestions(buf1, plen1, p1, n), ReadQuestions(buf2, plen2, p2, n));
  }

  lemma {:induction false} FewerHops(buf: seq<Byte>, plen: nat, p: nat, few: nat, many: nat)
    requires Fits(buf, plen) && p <= plen && few <= many <= MAX_HOPS && ReadFrom(buf, plen, p, many).Labels?
    ensures ReadFrom(buf, plen, p, few) == ReadFrom(buf, plen, p, many)
    decreases MAX_HOPS - many, |buf| - p
  {
    var l: nat := buf[p];
    if l >= 0xc0 {
      FewerHops(buf, plen, PointerTarget(buf, p), few + 1, many + 1);
    } else if 0 < l <= MAXLABEL {
      FewerHops(buf, plen, p + 1 + l, few, many);
    }
  }

  // A pointer stands for the name it points at.
  lemma PointerIsTransparent(buf: seq<Byte>, plen: nat, p: nat)
    requires Fits(buf, plen) && p <= plen && buf[p] >= 0xc0 && Extract(buf, plen, p).Some?
    ensures PointerTarget(buf, p) < plen
    ensures Extract(buf, plen, PointerTarget(buf, p)).Some?
    ensures Extract(buf, plen, p) == Some(Extracted(Extract(buf, plen, PointerTarget(buf, p)).v.name, p + 2))
  {
    FewerHops(buf, plen, PointerTarget(buf, p), 0, 1);
  }

  // ---------- what the checksum tells apart ----------

  // One byte more tells apart checksums.
  lemma SameByte(crc: bv32, crc': bv32, b: Byte)
    requires CrcByte(crc, b) == CrcByte(crc', b)
    ensures crc == crc'
  {
    hide CrcMix, TopBits;
    MixSame(crc, crc', TopBits(b));
  }

  // For one checksum it tells apart the bytes.
  lemma OtherByte(crc: bv32, b: Byte, b': Byte)
    requires CrcByte(crc, b) == CrcByte(crc, b')
    ensures b == b'
  {
    hide CrcMix, TopBits;
    MixOther(crc, TopBits(b), TopBits(b'));
    TopBitsDiffer(b, b');
  }

  lemma {:induction false} CrcInjective(crc: bv32, crc': bv32, bs: seq<Byte>)
    requires CrcBytes(crc, bs) == CrcBytes(crc', bs)
    ensures crc == crc'
  {
    hide CrcByte;
    if bs != [] {
      var rest := bs[..|bs| - 1];
      SameByte(CrcBytes(crc, rest), CrcBytes(crc', rest), bs[|bs| - 1]);
      CrcInjective(crc, crc', rest);
    }
  }

  // Changing one byte of the questions changes the checksum.
  lemma OneByteShows(crc: bv32, bs: seq<Byte>, i: nat, b: Byte)
    requires i < |bs| && bs[i] != b
    ensures CrcBytes(crc, bs[i := b]) != CrcBytes(crc, bs)
  {
    hide CrcByte;
    var head, tail := bs[..i], bs[i + 1..];
    assert bs == (head + [bs[i]]) + tail && bs[i := b] == (head + [b]) + tail;
    CrcConcat(crc, head + [bs[i]], tail);
    CrcConcat(crc, head + [b], tail);
    CrcConcat(crc, head, [bs[i]]);
    CrcConcat(crc, head, [b]);
    CrcOne(CrcBytes(crc, head), bs[i]);
    CrcOne(CrcBytes(crc, head), b);
    if CrcBytes(crc, bs[i := b]) == CrcBytes(crc, bs) {
      CrcInjective(CrcByte(CrcBytes(crc, head), bs[i]), CrcByte(CrcBytes(crc, head), b), tail);
      OtherByte(CrcBytes(crc, head), bs[i], b);
    }
  }

  lemma CrcOne(crc: bv32, b: Byte)
    ensures CrcBytes(crc, [b]) == CrcByte(crc, b)
  {
    assert [b][..0] == [];
  }
}
