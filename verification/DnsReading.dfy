// What a reader gets from the resource records that have been written (sections 3.2.1 and
// 4.1.3 of RFC 1035).
module DnsReading {
  import opened Optional
  import opened Slices
  import opened DnsName
  import opened DnsCompare
  import opened DnsEncode
  import opened DnsRecords

  // n bytes as a number, the highest first.
  function Number(buf: seq<Byte>, p: nat, n: nat): nat
    requires p + n <= |buf|
  {
    if n == 0 then 0 else Number(buf, p, n - 1) * 256 + buf[p + n - 1]
  }

  // A record whose name is a compression pointer: where that points, the other fields, and
  // the bytes of the data.
  datatype Answer = Answer(owner: nat, kind: nat, cls: nat, ttl: nat, from: nat, to: nat)

  function ReadRecord(buf: seq<Byte>, p: nat): (r: Option<Answer>)
    ensures r.Some? ==> r.v.from <= r.v.to <= |buf|
  {
    if p + 12 > |buf| || Number(buf, p, 2) < 0xc000 || p + 12 + Number(buf, p + 10, 2) > |buf| then None
    else
      Some(Answer(Number(buf, p, 2) - 0xc000, Number(buf, p + 2, 2), Number(buf, p + 4, 2), Number(buf, p + 6, 4),
        p + 12, p + 12 + Number(buf, p + 10, 2)))
  }

  // The bytes from m to q are read as the item.
  predicate ItemReads(buf: seq<Byte>, plen: nat, m: nat, q: nat, i: Item)
    requires m <= q <= plen && Fits(buf, plen)
  {
    match i
    case Addr6(a) => q == m + 16 && buf[m..q] == a
    case Addr4(a) => q == m + 4 && buf[m..q] == a
    case Short(n) => q == m + 2 && Number(buf, m, 2) == n % 0x10000
    case Long(n) => q == m + 4 && Number(buf, m, 4) == n % 0x1_0000_0000
    case Domain(s) =>
      ShortLabels(SplitDots(s)) ==>
        var w := ReadFrom(buf, plen, m, 0);
        w.Labels? && w.labels == UpToEmpty(SplitDots(s)) && (NoEmptyLabel(SplitDots(s)) ==> w.next == q)
    case Raw(d) => buf[m..q] == d
    case Counted(d) =>
      var n := if |d| > 255 then 255 else |d|;
      q == m + 1 + n && buf[m] == n && buf[m + 1..q] == d[..n]
  }

  // The bytes from p to q are read as the items, one after the other.
  ghost predicate ItemsRead(buf: seq<Byte>, plen: nat, p: nat, q: nat, items: seq<Item>)
    requires p <= q <= plen && Fits(buf, plen)
    decreases |items|, 1
  {
    if items == [] then p == q else exists m: nat :: LastReads(buf, plen, p, m, q, items)
  }

  // The last item starts at m.
  ghost predicate LastReads(buf: seq<Byte>, plen: nat, p: nat, m: nat, q: nat, items: seq<Item>)
    requires p <= q <= plen && Fits(buf, plen) && items != []
    decreases |items|, 0
  {
    && p <= m <= q && ItemsRead(buf, plen, p, m, items[..|items| - 1])
    && ItemReads(buf, plen, m, q, items[|items| - 1])
  }

  // ---------- numbers ----------

  lemma ShortReads(buf: seq<Byte>, p: nat, n: nat)
    requires p + 2 <= |buf| && buf[p..p + 2] == PutShort(n)
    ensures Number(buf, p, 2) == n % 0x10000
  {
    assert buf[p] == buf[p..p + 2][0] && buf[p + 1] == buf[p..p + 2][1];
    assert Number(buf, p, 1) == Number(buf, p, 0) * 256 + buf[p];
  }

  lemma LongDigits(n: nat)
    ensures n % 0x1_0000_0000
         == ((n / 0x1000000 % 256 * 256 + n / 0x10000 % 256) * 256 + n / 256 % 256) * 256 + n % 256
  {
    var h := n / 0x10000;
    assert n / 0x1000000 == h / 256;
    assert h % 0x10000 == h / 256 % 256 * 256 + h % 256;
    assert n % 0x10000 == n / 256 % 256 * 256 + n % 256;
    assert n % 0x1_0000_0000 == h % 0x10000 * 0x10000 + n % 0x10000;
  }

  lemma LongReads(buf: seq<Byte>, p: nat, n: nat)
    requires p + 4 <= |buf| && buf[p..p + 4] == PutLong(n)
    ensures Number(buf, p, 4) == n % 0x1_0000_0000
  {
    var b := buf[p..p + 4];
    LongDigits(n);
    assert buf[p] == b[0] && buf[p + 1] == b[1] && buf[p + 2] == b[2] && buf[p + 3] == b[3];
    FourBytes(buf, p);
  }

  lemma FourBytes(buf: seq<Byte>, p: nat)
    requires p + 4 <= |buf|
    ensures Number(buf, p, 4) == ((buf[p] as int * 256 + buf[p + 1]) * 256 + buf[p + 2]) * 256 + buf[p + 3]
  {
    assert Number(buf, p, 1) == Number(buf, p, 0) * 256 + buf[p];
    assert Number(buf, p, 2) == Number(buf, p, 1) * 256 + buf[p + 1];
    assert Number(buf, p, 3) == Number(buf, p, 2) * 256 + buf[p + 2];
  }

  lemma PointerReads(buf: seq<Byte>, p: nat, n: nat)
    requires p + 2 <= |buf| && buf[p..p + 2] == PointerTo(n)
    ensures Number(buf, p, 2) == 0xc000 + n % 0x4000
  {
    assert buf[p] == buf[p..p + 2][0] && buf[p + 1] == buf[p..p + 2][1];
    assert Number(buf, p, 1) == Number(buf, p, 0) * 256 + buf[p];
  }

  // ---------- data ----------

  lemma ItemBytesRead(buf: seq<Byte>, plen: nat, m: nat, i: Item)
    requires ItemOk(i) && Fits(buf, plen) && m + |ItemBytes(i)| <= plen
    requires buf[m..m + |ItemBytes(i)|] == ItemBytes(i)
    ensures ItemReads(buf, plen, m, m + |ItemBytes(i)|, i)
  {
    match i
    case Short(n) => ShortReads(buf, m, n);
    case Long(n) => LongReads(buf, m, n);
    case Domain(s) => DomainReads(buf, plen, m, s);
    case Counted(d) =>
      var n := if |d| > 255 then 255 else |d|;
      var b := [n] + d[..n];
      assert buf[m] == buf[m..m + |b|][0];
      SubSlice(buf, m, m + |b|, 1, |b|);
    case _ =>
  }

  lemma DomainReads(buf: seq<Byte>, plen: nat, m: nat, s: string)
    requires DnsEncode.Narrow(s) && Fits(buf, plen) && m + |EncodeName(s)| + 1 <= plen
    requires buf[m..m + |EncodeName(s)| + 1] == EncodeName(s) + [0]
    ensures ItemReads(buf, plen, m, m + |EncodeName(s)| + 1, Domain(s))
  {
    SplitNarrow(s);
    var e := EncodeName(s);
    hide EncodeLabels, SplitDots, ReadFrom;
    SubSlice(buf, m, m + |e| + 1, 0, |e|);
    assert (e + [0])[0..|e|] == e;
    assert buf[m + |e|] == buf[m..m + |e| + 1][|e|] == (e + [0])[|e|] == 0;
    if ShortLabels(SplitDots(s)) {
      ReadWritten(buf, plen, m, SplitDots(s), 0);
    }
  }

  lemma {:induction false} DataReads(buf: seq<Byte>, plen: nat, p: nat, items: seq<Item>)
    requires ItemsOk(items) && Fits(buf, plen) && p + |Data(items)| <= plen
    requires buf[p..p + |Data(items)|] == Data(items)
    ensures ItemsRead(buf, plen, p, p + |Data(items)|, items)
    decreases |items|
  {
    hide ItemBytes, ItemReads, ItemOk;
    if items != [] {
      var before, last := items[..|items| - 1], items[|items| - 1];
      var m, q := p + |Data(before)|, p + |Data(items)|;
      SubSlice(buf, p, q, 0, m - p);
      SubSlice(buf, p, q, m - p, q - p);
      assert Data(items)[..m - p] == Data(before) && Data(items)[m - p..] == ItemBytes(last);
      DataReads(buf, plen, p, before);
      ItemBytesRead(buf, plen, m, last);
      assert LastReads(buf, plen, p, m, q, items);
    }
  }

  // ---------- records ----------

  // A reader at p gets the record: a name offset of 14 bits, type and class of 16 bits, a TTL
  // of 32 bits, and the data item by item.
  ghost predicate RecordReads(buf: seq<Byte>, plen: nat, p: nat, r: Record)
    requires Fits(buf, plen)
  {
    var a := ReadRecord(buf, p);
    && a.Some? && a.v.owner == r.nameOffset % 0x4000
    && a.v.kind == r.kind % 0x10000 && a.v.cls == r.cls % 0x10000 && a.v.ttl == r.ttl % 0x1_0000_0000
    && a.v.to <= plen && ItemsRead(buf, plen, a.v.from, a.v.to, r.items)
  }

  lemma RecordFields(buf: seq<Byte>, p: nat, r: Record)
    requires ItemsOk(r.items) && p + |RecordBytes(r)| <= |buf| && buf[p..p + |RecordBytes(r)|] == RecordBytes(r)
    ensures p + 12 + |Data(r.items)| <= |buf|
    ensures buf[p..p + 2] == PointerTo(r.nameOffset) && buf[p + 2..p + 4] == PutShort(r.kind)
    ensures buf[p + 4..p + 6] == PutShort(r.cls) && buf[p + 6..p + 10] == PutLong(r.ttl)
    ensures buf[p + 10..p + 12] == PutShort(|Data(r.items)|) && buf[p + 12..p + 12 + |Data(r.items)|] == Data(r.items)
  {
    var ptr, kind, cls, ttl := PointerTo(r.nameOffset), PutShort(r.kind), PutShort(r.cls), PutLong(r.ttl);
    var len, data := PutShort(|Data(r.items)|), Data(r.items);
    assert RecordBytes(r) == ptr + kind + cls + ttl + len + data;
    hide RecordBytes, Data, PutLong, PutShort, PointerTo;
    Regroup(ptr + kind, cls, ttl);
    Regroup(ptr + kind, cls + ttl, len);
    Regroup(ptr + kind, cls + ttl + len, data);
    Regroup(cls + ttl, len, data);
    Regroup(len, data, []);
    Parts(buf, p, ptr, kind, cls + ttl + (len + data));
    Parts(buf, p + 4, cls, ttl, len + data);
    Parts(buf, p + 10, len, data, []);
  }

  lemma FitsIn(buf: seq<Byte>, plen: nat)
    requires Fits(buf, plen)
    ensures plen <= |buf|
  {
  }

  // What AddResourceRecord has written is read as the record it was given.
  lemma WrittenIsRead(buf: seq<Byte>, plen: nat, p: nat, r: Record)
    requires Fits(buf, plen) && ItemsOk(r.items) && p + |RecordBytes(r)| <= plen && |Data(r.items)| < 0x10000
    requires buf[p..p + |RecordBytes(r)|] == RecordBytes(r)
    ensures RecordReads(buf, plen, p, r)
  {
    hide Data, RecordBytes, PutLong, PutShort, PointerTo, ItemsRead, Number, ItemsOk, Fits;
    FitsIn(buf, plen);
    RecordFields(buf, p, r);
    PointerReads(buf, p, r.nameOffset);
    ShortReads(buf, p + 2, r.kind);
    ShortReads(buf, p + 4, r.cls);
    LongReads(buf, p + 6, r.ttl);
    ShortReads(buf, p + 10, |Data(r.items)|);
    DataReads(buf, plen, p + 12, r.items);
  }

  // ---------- a run of additions ----------

  // Skipping k records leads to the k-th record added, for any k.
  ghost predicate AllRead(w: Writer, start: nat) {
    forall buf, plen, k: nat ::
      (|w.bytes| <= plen && Fits(buf, plen) && buf[..|w.bytes|] == w.bytes && k < |w.added| ==>
        ReadsAt(buf, plen, start, k, w.added[k].record))
  }

  ghost predicate ReadsAt(buf: seq<Byte>, plen: nat, start: nat, k: nat, r: Record)
    requires Fits(buf, plen)
  {
    SkipSection(buf, plen, start, k).Some? && RecordReads(buf, plen, SkipSection(buf, plen, start, k).v, r)
  }

  lemma StepReads(w: Writer, limit: nat, a: Add, start: nat)
    requires ItemsOk(a.record.items) && Skips(w, start) && AllRead(w, start) && |w.bytes| <= limit <= 0x10000
    ensures AllRead(Step(w, limit, a), start)
  {
    hide SkipSection, RecordBytes, ReadsAt, ItemsOk, Skips, AllRead, Data;
    var w' := Step(w, limit, a);
    if w'.added != w.added {
      DataFits(w, limit, a.record);
      forall buf, plen, k: nat |
        |w'.bytes| <= plen && Fits(buf, plen) && buf[..|w'.bytes|] == w'.bytes && k < |w'.added|
        ensures ReadsAt(buf, plen, start, k, w'.added[k].record)
      {
        OneReads(w, w', a, buf, plen, start, k);
      }
      ReadAll(w', start);
    } else {
      ReadSame(w, w', start);
    }
  }

  lemma DataFits(w: Writer, limit: nat, r: Record)
    requires ItemsOk(r.items) && limit <= 0x10000 && |w.bytes| + |RecordBytes(r)| <= limit
    ensures |Data(r.items)| < 0x10000
  {
    hide Data;
  }

  lemma OneReads(w: Writer, w': Writer, a: Add, buf: seq<Byte>, plen: nat, start: nat, k: nat)
    requires ItemsOk(a.record.items) && Skips(w, start) && AllRead(w, start) && |Data(a.record.items)| < 0x10000
    requires w'.bytes == w.bytes + RecordBytes(a.record) && w'.added == w.added + [a]
    requires |w'.bytes| <= plen && Fits(buf, plen) && buf[..|w'.bytes|] == w'.bytes && k < |w'.added|
    ensures ReadsAt(buf, plen, start, k, w'.added[k].record)
  {
    hide SkipSection, RecordBytes, ReadsAt, ItemsOk, Skips, AllRead, Data;
    assert buf[..|w.bytes|] == buf[..|w'.bytes|][..|w.bytes|] == w.bytes;
    if k < |w.added| {
      OldReads(w, buf, plen, start, k);
    } else {
      NewReads(w, a.record, buf, plen, start);
    }
  }

  lemma ReadAll(w: Writer, start: nat)
    requires forall buf, plen, k: nat ::
      (|w.bytes| <= plen && Fits(buf, plen) && buf[..|w.bytes|] == w.bytes && k < |w.added| ==>
        ReadsAt(buf, plen, start, k, w.added[k].record))
    ensures AllRead(w, start)
  {
  }

  lemma ReadSame(w: Writer, w': Writer, start: nat)
    requires AllRead(w, start) && w'.bytes == w.bytes && w'.added == w.added
    ensures AllRead(w', start)
  {
    hide ReadsAt;
  }

  lemma OldReads(w: Writer, buf: seq<Byte>, plen: nat, start: nat, k: nat)
    requires AllRead(w, start) && k < |w.added|
    requires |w.bytes| <= plen && Fits(buf, plen) && buf[..|w.bytes|] == w.bytes
    ensures ReadsAt(buf, plen, start, k, w.added[k].record)
  {
    hide ReadsAt;
  }

  lemma NewReads(w: Writer, r: Record, buf: seq<Byte>, plen: nat, start: nat)
    requires ItemsOk(r.items) && Skips(w, start) && |Data(r.items)| < 0x10000
    requires |w.bytes| + |RecordBytes(r)| <= plen && Fits(buf, plen)
    requires buf[..|w.bytes| + |RecordBytes(r)|] == w.bytes + RecordBytes(r)
    ensures ReadsAt(buf, plen, start, |w.added|, r)
  {
    hide SkipSection, RecordBytes, RecordReads, ItemsOk, Data;
    var n, m := |w.bytes|, |w.bytes| + |RecordBytes(r)|;
    assert buf[..n] == buf[..m][..n] == w.bytes;
    assert buf[n..m] == buf[..m][n..] == RecordBytes(r);
    WrittenIsRead(buf, plen, n, r);
  }

  lemma {:induction false} RunReads(w: Writer, limit: nat, adds: seq<Add>, start: nat)
    requires AddsOk(adds) && Skips(w, start) && AllRead(w, start) && |w.bytes| <= limit <= 0x10000
    ensures AllRead(Run(w, limit, adds), start)
    decreases |adds|
  {
    hide Skips, Step, AllRead;
    if adds != [] {
      StepSkips(w, limit, adds[0], start);
      StepReads(w, limit, adds[0], start);
      RunReads(Step(w, limit, adds[0]), limit, adds[1..], start);
    }
  }

  // A reply built behind the questions of a query: the reader that skips the questions and
  // then k records gets the k-th record that was added.
  lemma ReplyReads(query: seq<Byte>, limit: nat, adds: seq<Add>, buf: seq<Byte>, plen: nat, count: nat, k: nat)
    requires AddsOk(adds) && |query| <= limit <= 0x10000 && Fits(buf, plen)
    requires var w := Run(Writer(query, false, []), limit, adds);
      |w.bytes| <= plen && buf[..|w.bytes|] == w.bytes && k < |w.added|
    requires SkipQuestions(buf, plen, HEADER, count) == Some(|query|)
    ensures var w := Run(Writer(query, false, []), limit, adds);
      ReadsAt(buf, plen, SkipQuestions(buf, plen, HEADER, count).v, k, w.added[k].record)
  {
    hide SkipSection, SkipQuestions, Run, ReadsAt;
    StartSkips(query);
    RunReads(Writer(query, false, []), limit, adds, |query|);
  }

  // ---------- which records are added ----------

  // What the record takes: a pointer for the name, ten bytes for the other fields, the data.
  function Size(r: Record): nat
    requires ItemsOk(r.items)
  {
    12 + |Data(r.items)|
  }

  lemma SizeIs(r: Record)
    requires ItemsOk(r.items)
    ensures |RecordBytes(r)| == Size(r)
  {
    hide Data;
  }

  // The writer when the first k records have been tried.
  function After(w: Writer, limit: nat, adds: seq<Add>, k: nat): Writer
    requires AddsOk(adds) && k <= |adds|
  {
    Run(w, limit, adds[..k])
  }

  predicate NoRoom(w: Writer, limit: nat, adds: seq<Add>, k: nat)
    requires AddsOk(adds) && k < |adds|
  {
    |After(w, limit, adds, k).bytes| + Size(adds[k].record) > limit
  }

  lemma {:induction false} OneAfter(w: Writer, limit: nat, adds: seq<Add>, k: nat)
    requires AddsOk(adds) && k < |adds|
    ensures After(w, limit, adds, 0) == w
    ensures After(w, limit, adds, k + 1) == Step(After(w, limit, adds, k), limit, adds[k])
    decreases k
  {
    hide Step;
    assert adds[..k + 1][0] == adds[0] && adds[..k + 1][1..] == adds[1..][..k];
    if k > 0 {
      assert adds[..k][0] == adds[0] && adds[..k][1..] == adds[1..][..k - 1];
      OneAfter(Step(w, limit, adds[0]), limit, adds[1..], k - 1);
      assert adds[1..][k - 1] == adds[k];
      assert After(w, limit, adds, k) == After(Step(w, limit, adds[0]), limit, adds[1..], k - 1);
      assert After(w, limit, adds, k + 1) == After(Step(w, limit, adds[0]), limit, adds[1..], k - 1 + 1);
    } else {
      assert adds[..0] == [] && adds[..1][1..] == [];
      assert After(w, limit, adds, 1) == Run(Step(w, limit, adds[0]), limit, []) == Step(w, limit, adds[0]);
    }
  }

  // Record k is added exactly if there is room for it, unless it is tracked and one like it
  // was cut off before; only a tracked one that is cut off truncates the answer.
  lemma WhichAdded(w: Writer, limit: nat, adds: seq<Add>, k: nat)
    requires AddsOk(adds) && k < |adds|
    ensures var s, t := After(w, limit, adds, k), After(w, limit, adds, k + 1);
      if NoRoom(w, limit, adds, k) || (adds[k].track && s.trunc) then
        t.bytes == s.bytes && t.added == s.added && t.trunc == (s.trunc || adds[k].track)
      else
        && |t.bytes| == |s.bytes| + Size(adds[k].record) && s.bytes <= t.bytes
        && t.added == s.added + [adds[k]] && t.trunc == s.trunc
  {
    hide Run, RecordBytes, Size;
    OneAfter(w, limit, adds, k);
    SizeIs(adds[k].record);
  }

  // The answer is truncated exactly if there was no room for a tracked record.
  lemma {:induction false} TruncatedMeans(w: Writer, limit: nat, adds: seq<Add>, n: nat)
    requires AddsOk(adds) && n <= |adds| && !w.trunc
    ensures After(w, limit, adds, n).trunc
      <==> exists k: nat :: k < n && adds[k].track && NoRoom(w, limit, adds, k)
    decreases n
  {
    hide NoRoom, After;
    if n > 0 {
      TruncatedMeans(w, limit, adds, n - 1);
      WhichAdded(w, limit, adds, n - 1);
      StaysCut(w, limit, adds, n - 1);
    } else {
      NotCut(w, limit, adds);
    }
  }

  lemma NotCut(w: Writer, limit: nat, adds: seq<Add>)
    requires AddsOk(adds)
    ensures After(w, limit, adds, 0) == w
  {
    assert adds[..0] == [];
  }

  lemma StaysCut(w: Writer, limit: nat, adds: seq<Add>, k: nat)
    requires AddsOk(adds) && k < |adds|
    ensures After(w, limit, adds, k).trunc ==> After(w, limit, adds, k + 1).trunc
  {
    hide Run;
    OneAfter(w, limit, adds, k);
  }

  // ---------- questions ----------

  // n questions from p to q: each a name, and four bytes for type and class.
  ghost predicate Questions(buf: seq<Byte>, plen: nat, p: nat, q: nat, n: nat)
    requires Fits(buf, plen)
    decreases n
  {
    if n == 0 then p == q <= plen
    else exists e: nat, k: nat :: Labelled(buf, plen, p, e, k) && Questions(buf, plen, e + 4, q, n - 1)
  }

  // skip_questions gives the end of the questions, and nothing if they are not all there.
  lemma {:induction false} SkipQuestionsIs(buf: seq<Byte>, plen: nat, p: nat, q: nat, n: nat)
    requires Fits(buf, plen)
    ensures SkipQuestions(buf, plen, p, n) == Some(q) <==> Questions(buf, plen, p, q, n)
    decreases n
  {
    hide SkipName, Labelled;
    if n > 0 {
      SkipIs(buf, plen, p);
      var a := SkipName(buf, plen, p);
      if a.Some? {
        SkipQuestionsIs(buf, plen, a.v + 4, q, n - 1);
      }
      forall e: nat, k: nat | Labelled(buf, plen, p, e, k)
        ensures a == Some(e)
      {
        SkippedIs(buf, plen, p, e, k);
      }
    }
  }
}
