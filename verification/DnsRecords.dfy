// Resource records: add_resource_record writes them, skip_section steps over them.
module DnsRecords {
  import opened Optional
  import opened DnsName
  import opened DnsCompare
  import opened DnsEncode

  // One letter of the format string, with its argument.
  datatype Item =
    | Addr6(addr: seq<Byte>)
    | Addr4(addr: seq<Byte>)
    | Short(n: nat)
    | Long(n: nat)
    | Domain(name: string)
    | Raw(data: seq<Byte>)
    | Counted(data: seq<Byte>)

  datatype Record = Record(nameOffset: nat, kind: nat, cls: nat, ttl: nat, items: seq<Item>)

  function PutShort(n: nat): (b: seq<Byte>)
    ensures |b| == 2
  {
    [n / 256 % 256, n % 256]
  }

  function PutLong(n: nat): (b: seq<Byte>)
    ensures |b| == 4
  {
    [n / 0x1000000 % 256, n / 0x10000 % 256, n / 256 % 256, n % 256]
  }

  // The top two bits mark a compression pointer.
  function PointerTo(offset: nat): (b: seq<Byte>)
    ensures |b| == 2 && b[0] >= 0xc0
  {
    [0xc0 + offset / 256 % 64, offset % 256]
  }

  predicate ItemOk(i: Item) {
    match i
    case Addr6(a) => |a| == 16
    case Addr4(a) => |a| == 4
    case Domain(s) => DnsEncode.Narrow(s)
    case _ => true
  }

  function ItemBytes(i: Item): seq<Byte>
    requires ItemOk(i)
  {
    match i
    case Addr6(a) => a
    case Addr4(a) => a
    case Short(n) => PutShort(n)
    case Long(n) => PutLong(n)
    case Domain(s) => EncodeName(s) + [0]
    case Raw(d) => d
    case Counted(d) =>
      var n := if |d| > 255 then 255 else |d|;
      [n] + d[..n]
  }

  predicate ItemsOk(items: seq<Item>) {
    forall k :: 0 <= k < |items| ==> ItemOk(items[k])
  }

  function Data(items: seq<Item>): seq<Byte>
    requires ItemsOk(items)
  {
    if items == [] then [] else Data(items[..|items| - 1]) + ItemBytes(items[|items| - 1])
  }

  function RecordBytes(r: Record): (b: seq<Byte>)
    requires ItemsOk(r.items)
    ensures |b| == 12 + |Data(r.items)|
  {
    PointerTo(r.nameOffset) + PutShort(r.kind) + PutShort(r.cls) + PutLong(r.ttl) + PutShort(|Data(r.items)|) +
        Data(r.items)
  }

  // ---------- writing ----------

  method PutBytes(buf: array<Byte>, p: nat, b: seq<Byte>) returns (q: nat)
    requires p + |b| <= buf.Length
    modifies buf
    ensures q == p + |b| && buf[p..q] == b
    ensures buf[..p] == old(buf[..p])
  {
    for j := 0 to |b|
      invariant forall i :: 0 <= i < j ==> buf[p + i] == b[i]
      invariant forall i :: 0 <= i < p ==> buf[i] == old(buf[i])
    {
      buf[p + j] := b[j];
    }
    q := p + |b|;
  }

  method PutItem(buf: array<Byte>, p: nat, i: Item) returns (q: nat)
    requires ItemOk(i) && p + |ItemBytes(i)| <= buf.Length
    requires i.Domain? ==> p + |i.name| + 2 <= buf.Length
    modifies buf
    ensures q == p + |ItemBytes(i)| && buf[p..q] == ItemBytes(i)
    ensures buf[..p] == old(buf[..p])
  {
    hide EncodeName;
    match i
    case Addr6(a) => q := PutBytes(buf, p, a);
    case Addr4(a) => q := PutBytes(buf, p, a);
    case Short(n) => q := PutBytes(buf, p, PutShort(n));
    case Long(n) => q := PutBytes(buf, p, PutLong(n));
    case Domain(s) =>
      var e := DoRfc1035Name(buf, p, s);
      ghost var mid := buf[..];
      q := PutBytes(buf, e, [0]);
      assert buf[p..e] == buf[..e][p..] && mid[p..e] == mid[..e][p..];
      assert buf[..p] == buf[..e][..p] && mid[..p] == mid[..e][..p];
      assert buf[p..q] == buf[p..e] + buf[e..q];
    case Raw(d) => q := PutBytes(buf, p, d);
    case Counted(d) =>
      var n := if |d| > 255 then 255 else |d|;
      q := PutBytes(buf, p, [n] + d[..n]);
  }

  // The most bytes the items can take, name by name.
  function Room(items: seq<Item>): nat
    requires ItemsOk(items)
  {
    if items == [] then 0
    else
      var i := items[|items| - 1];
      Room(items[..|items| - 1]) + if i.Domain? then |i.name| + 2 else |ItemBytes(i)|
  }

  lemma ItemRoom(i: Item)
    requires ItemOk(i)
    ensures i.Domain? ==> |ItemBytes(i)| <= |i.name| + 2
  {
    if i.Domain? {
      EncodeLength(i.name);
    }
  }

  lemma {:induction false} RoomPrefix(items: seq<Item>, k: nat)
    requires ItemsOk(items) && k <= |items|
    ensures |Data(items[..k])| <= Room(items[..k]) <= Room(items)
  {
    if k < |items| {
      RoomPrefix(items[..|items| - 1], k);
      assert items[..|items| - 1][..k] == items[..k];
    } else if k > 0 {
      RoomPrefix(items[..k - 1], k - 1);
      assert items[..k] == items && items[..k - 1][..k - 1] == items[..k - 1];
      ItemRoom(items[k - 1]);
    }
  }

  method PutItems(buf: array<Byte>, p: nat, items: seq<Item>) returns (q: nat)
    requires ItemsOk(items) && p + Room(items) <= buf.Length
    modifies buf
    ensures q == p + |Data(items)| && q <= buf.Length && buf[p..q] == Data(items)
    ensures buf[..p] == old(buf[..p])
  {
    hide ItemBytes, ItemOk;
    q := p;
    var k := 0;
    while k < |items|
      invariant 0 <= k <= |items|
      invariant q == p + |Data(items[..k])| && q <= buf.Length && buf[p..q] == Data(items[..k])
      invariant buf[..p] == old(buf[..p])
    {
      RoomPrefix(items, k);
      RoomPrefix(items, k + 1);
      assert items[..k + 1][..k] == items[..k];
      ItemRoom(items[k]);
      ghost var before := buf[..];
      var e := PutItem(buf, q, items[k]);
      assert buf[p..q] == buf[..q][p..] && before[p..q] == before[..q][p..];
      assert buf[..p] == buf[..q][..p] && before[..p] == before[..q][..p];
      assert buf[p..e] == buf[p..q] + buf[q..e];
      q := e;
      k := k + 1;
    }
    assert items[..|items|] == items;
  }

  function Header(r: Record, n: nat): (b: seq<Byte>)
    ensures |b| == 12
  {
    PointerTo(r.nameOffset) + PutShort(r.kind) + PutShort(r.cls) + PutLong(r.ttl) + PutShort(n)
  }

  method WriteRecord(buf: array<Byte>, p: nat, r: Record) returns (e: nat)
    requires ItemsOk(r.items) && p + 12 + Room(r.items) <= buf.Length
    modifies buf
    ensures e == p + |RecordBytes(r)| <= buf.Length && buf[p..e] == RecordBytes(r)
    ensures buf[..p] == old(buf[..p])
  {
    hide RecordBytes;
    RoomPrefix(r.items, |r.items|);
    assert r.items[..|r.items|] == r.items;
    var sav := PutBytes(buf, p, Header(r, 0));
    ghost var head := buf[..];
    e := PutItems(buf, sav, r.items);
    assert buf[..p] == buf[..sav][..p] && head[..p] == head[..sav][..p];
    ghost var full := buf[..];
    var len := PutShort(e - sav);
    buf[sav - 2] := len[0];
    buf[sav - 1] := len[1];
    assert buf[..p] == full[..p];
    Assembled(r, head, full, buf[..], p, e);
  }

  // track is false where the caller passes no flag for truncation.
  method AddResourceRecord(buf: array<Byte>, limit: Option<nat>, track: bool, trunc: bool, p: nat, r: Record)
    returns (q: nat, trunc': bool, added: bool)
    requires ItemsOk(r.items) && p + 12 + Room(r.items) <= buf.Length
    modifies buf
    ensures var n := |RecordBytes(r)|;
      && added == (!(track && trunc) && (limit.None? || p + n <= limit.v))
      && trunc' == (trunc || (track && !added))
      && q == (if added then p + n else p) <= buf.Length
      && (added ==> buf[p..q] == RecordBytes(r))
    ensures buf[..p] == old(buf[..p])
    ensures limit.Some? ==>
      Writer(buf[..q], trunc', if added then [Add(r, track)]
          else []) == Step(Writer(old(buf[..p]), trunc, []), limit.v, Add(r, track))
  {
    hide RecordBytes, ItemsOk, Room;
    if track && trunc {
      return p, trunc, false;
    }
    var e := WriteRecord(buf, p, r);
    if limit.Some? && limit.v < e {
      return p, trunc || track, false;
    }
    assert buf[..e] == buf[..p] + buf[p..e];
    q, trunc', added := e, trunc, true;
  }

  // Header, data and the length put in last make up the record.
  lemma Assembled(r: Record, head: seq<Byte>, full: seq<Byte>, done: seq<Byte>, p: nat, e: nat)
    requires ItemsOk(r.items) && e == p + 12 + |Data(r.items)| && e <= |head| == |full| == |done|
    requires head[p..p + 12] == Header(r, 0) && full[..p + 12] == head[..p + 12] && full[p + 12..e] == Data(r.items)
    requires done == full[p + 10 := PutShort(|Data(r.items)|)[0]][p + 11 := PutShort(|Data(r.items)|)[1]]
    ensures done[p..e] == RecordBytes(r)
  {
    hide Data, PutLong, PointerTo;
    var rec := RecordBytes(r);
    forall k | 0 <= k < |rec|
      ensures done[p + k] == rec[k]
    {
      if k < 10 {
        assert head[p + k] == head[p..p + 12][k];
        assert full[p + k] == full[..p + 12][p + k];
      } else if k >= 12 {
        assert full[p + k] == full[p + 12..e][k - 12];
      }
    }
  }

  // ---------- stepping over ----------

  function GetShort(buf: seq<Byte>, p: nat): nat
    requires p + 1 < |buf|
  {
    var high: nat := buf[p];
    high * 256 + buf[p + 1]
  }

  // The rest of the buffer after the packet lets the reads run over.
  function SkipSection(buf: seq<Byte>, plen: nat, p: nat, count: nat): Option<nat>
    requires Fits(buf, plen)
    decreases count
  {
    if count == 0 then Some(p)
    else
      var a := SkipName(buf, plen, p);
      if a.None? || a.v + 10 > |buf| then None
      else
        var e := a.v + 10 + GetShort(buf, a.v + 8);
        if e > plen then None else SkipSection(buf, plen, e, count - 1)
  }

  method SkipSectionLoop(buf: seq<Byte>, plen: nat, start: nat, count: nat) returns (r: Option<nat>)
    requires Fits(buf, plen)
    ensures r == SkipSection(buf, plen, start, count)
  {
    var p: nat, i: nat := start, 0;
    while i < count
      invariant 0 <= i <= count
      invariant SkipSection(buf, plen, start, count) == SkipSection(buf, plen, p, count - i)
    {
      var a := SkipNameLoop(buf, plen, p);
      if a.None? || a.v + 10 > |buf| {
        return None;
      }
      p := a.v + 8;
      var rdlen := buf[p] as int * 256 + buf[p + 1] as int;
      p := p + 2;
      if p + rdlen > plen {
        return None;
      }
      p := p + rdlen;
      i := i + 1;
    }
    r := Some(p);
  }

  lemma LengthField(r: Record)
    requires ItemsOk(r.items)
    ensures var n := |Data(r.items)|; RecordBytes(r)[10] == n / 256 % 256 && RecordBytes(r)[11] == n % 256
    ensures RecordBytes(r)[0] >= 0xc0
  {
    hide Data, PutLong, PointerTo;
  }

  lemma SkipsRecord(buf: seq<Byte>, plen: nat, p: nat, r: Record)
    requires Fits(buf, plen) && ItemsOk(r.items) && p + |RecordBytes(r)| <= plen && |Data(r.items)| < 0x10000
    requires buf[p..p + |RecordBytes(r)|] == RecordBytes(r)
    ensures SkipSection(buf, plen, p, 1) == Some(p + |RecordBytes(r)|)
  {
    hide Data, RecordBytes, SkipName, SkipSection, ItemsOk;
    LengthField(r);
    var rec := RecordBytes(r);
    var n := |Data(r.items)|;
    assert buf[p] == buf[p..p + |rec|][0] && buf[p + 10] == buf[p..p + |rec|][10] &&
        buf[p + 11] == buf[p..p + |rec|][11];
    SkipPointer(buf, plen, p);
    assert GetShort(buf, p + 10) == n;
    SkipOne(buf, plen, p);
  }

  lemma SkipPointer(buf: seq<Byte>, plen: nat, p: nat)
    requires Fits(buf, plen) && p < plen && buf[p] >= 0xc0
    ensures SkipName(buf, plen, p) == Some(p + 2)
  {
  }

  lemma SkipOne(buf: seq<Byte>, plen: nat, p: nat)
    requires Fits(buf, plen) && SkipName(buf, plen, p).Some? && SkipName(buf, plen, p).v + 10 <= |buf|
    requires SkipName(buf, plen, p).v + 10 + GetShort(buf, SkipName(buf, plen, p).v + 8) <= plen
    ensures SkipSection(buf, plen, p, 1) == Some(SkipName(buf, plen, p).v + 10 + GetShort(buf, SkipName(buf, plen,
        p).v + 8))
  {
    hide SkipName, GetShort;
    assert forall e: nat :: SkipSection(buf, plen, e, 0) == Some(e);
  }

  // ---------- a run of additions ----------

  datatype Add = Add(record: Record, track: bool)

  // What has been written, as far as the cursor, and the truncation flag.
  datatype Writer = Writer(bytes: seq<Byte>, trunc: bool, added: seq<Add>)

  predicate AddsOk(adds: seq<Add>) {
    forall k :: 0 <= k < |adds| ==> ItemsOk(adds[k].record.items)
  }

  function Step(w: Writer, limit: nat, a: Add): Writer
    requires ItemsOk(a.record.items)
  {
    var b := RecordBytes(a.record);
    if a.track && w.trunc then w
    else if |w.bytes| + |b| > limit then w.(trunc := w.trunc || a.track)
    else w.(bytes := w.bytes + b, added := w.added + [a])
  }

  function Run(w: Writer, limit: nat, adds: seq<Add>): Writer
    requires AddsOk(adds)
    decreases |adds|
  {
    if adds == [] then w else Run(Step(w, limit, adds[0]), limit, adds[1..])
  }

  // The packet, followed by whatever the buffer holds.
  predicate Holds(buf: seq<Byte>, bytes: seq<Byte>) {
    Fits(buf, |bytes|) && buf[..|bytes|] == bytes
  }

  // From "start" the additions so far are stepped over exactly.
  ghost predicate Skips(w: Writer, start: nat) {
    start <= |w.bytes| && forall buf, plen :: |w.bytes| <= plen && Fits(buf, plen) && buf[..|w.bytes|] == w.bytes ==>
      SkipSection(buf, plen, start, |w.added|) == Some(|w.bytes|)
  }

  lemma {:induction false} SkipTwice(buf: seq<Byte>, plen: nat, p: nat, m: nat, n: nat)
    requires Fits(buf, plen) && SkipSection(buf, plen, p, m).Some?
    ensures SkipSection(buf, plen, p, m + n) == SkipSection(buf, plen, SkipSection(buf, plen, p, m).v, n)
    decreases m
  {
    if m > 0 {
      var a := SkipName(buf, plen, p).v;
      SkipTwice(buf, plen, a + 10 + GetShort(buf, a + 8), m - 1, n);
    }
  }

  lemma StepSkips(w: Writer, limit: nat, a: Add, start: nat)
    requires ItemsOk(a.record.items) && Skips(w, start) && |w.bytes| <= limit <= 0x10000
    ensures Skips(Step(w, limit, a), start) && |Step(w, limit, a).bytes| <= limit
    ensures Step(w, limit, a).trunc || !w.trunc
    ensures w.trunc && a.track ==> Step(w, limit, a) == w
  {
    hide SkipSection, RecordBytes, Skips;
    var w' := Step(w, limit, a);
    if w'.bytes != w.bytes || w'.added != w.added {
      SkipsStart(w, start);
      forall buf, plen | |w'.bytes| <= plen && Fits(buf, plen) && buf[..|w'.bytes|] == w'.bytes
        ensures SkipSection(buf, plen, start, |w'.added|) == Some(|w'.bytes|)
      {
        OneMore(w, a.record, buf, plen, start, limit);
      }
      SkipsAll(w', start);
    } else {
      SkipsSame(w, w', start);
    }
  }

  lemma SkipsStart(w: Writer, start: nat)
    requires Skips(w, start)
    ensures start <= |w.bytes|
  {
  }

  lemma SkipsAll(w: Writer, start: nat)
    requires start <= |w.bytes|
    requires forall buf, plen :: |w.bytes| <= plen && Fits(buf, plen) && buf[..|w.bytes|] == w.bytes ==>
      SkipSection(buf, plen, start, |w.added|) == Some(|w.bytes|)
    ensures Skips(w, start)
  {
  }

  lemma SkipsSame(w: Writer, w': Writer, start: nat)
    requires Skips(w, start) && w'.bytes == w.bytes && w'.added == w.added
    ensures Skips(w', start)
  {
    hide SkipSection;
  }

  lemma OneMore(w: Writer, r: Record, buf: seq<Byte>, plen: nat, start: nat, limit: nat)
    requires ItemsOk(r.items) && Skips(w, start) && |w.bytes| + |RecordBytes(r)| <= limit <= 0x10000
    requires |w.bytes| + |RecordBytes(r)| <= plen && Fits(buf, plen)
    requires buf[..|w.bytes| + |RecordBytes(r)|] == w.bytes + RecordBytes(r)
    ensures SkipSection(buf, plen, start, |w.added| + 1) == Some(|w.bytes| + |RecordBytes(r)|)
  {
    hide SkipSection, RecordBytes;
    var n, m := |w.bytes|, |w.bytes| + |RecordBytes(r)|;
    assert buf[..n] == buf[..m][..n] == w.bytes;
    assert buf[n..m] == buf[..m][n..] == RecordBytes(r);
    SkipTwice(buf, plen, start, |w.added|, 1);
    SkipsRecord(buf, plen, n, r);
  }

  // Any run of additions: as many records as were added are stepped over, from the end
  // of the questions, exactly to the cursor, which never passes the limit.
  lemma {:induction false} RunSkips(w: Writer, limit: nat, adds: seq<Add>, start: nat)
    requires AddsOk(adds) && Skips(w, start) && |w.bytes| <= limit <= 0x10000
    ensures Skips(Run(w, limit, adds), start) && |Run(w, limit, adds).bytes| <= limit
    decreases |adds|
  {
    hide Skips, Step;
    if adds != [] {
      StepSkips(w, limit, adds[0], start);
      RunSkips(Step(w, limit, adds[0]), limit, adds[1..], start);
    }
  }

  // Where the questions start.
  const HEADER: nat := 12

  // skip_questions
  function SkipQuestions(buf: seq<Byte>, plen: nat, p: nat, count: nat): Option<nat>
    requires Fits(buf, plen)
    decreases count
  {
    if count == 0 then if p > plen then None else Some(p)
    else
      var a := SkipName(buf, plen, p);
      if a.None? then None else SkipQuestions(buf, plen, a.v + 4, count - 1)
  }

  method SkipQuestionsLoop(buf: seq<Byte>, plen: nat, start: nat, count: nat) returns (r: Option<nat>)
    requires Fits(buf, plen)
    ensures r == SkipQuestions(buf, plen, start, count)
  {
    var p: nat, q: nat := start, count;
    while q != 0
      invariant SkipQuestions(buf, plen, p, q) == SkipQuestions(buf, plen, start, count)
      decreases q
    {
      var a := SkipNameLoop(buf, plen, p);
      if a.None? {
        return None;
      }
      p := a.v + 4;
      q := q - 1;
    }
    r := if p > plen then None else Some(p);
  }

  // A reply built behind the questions of a query: whatever is added, the reader that
  // skips the questions and then as many records as were added ends at the cursor of the
  // writer, and the cursor is within the limit.
  lemma ReplySkips(query: seq<Byte>, limit: nat, adds: seq<Add>, buf: seq<Byte>, plen: nat, count: nat)
    requires AddsOk(adds) && |query| <= limit <= 0x10000 && Fits(buf, plen)
    requires var w := Run(Writer(query, false, []), limit, adds);
      |w.bytes| <= plen && buf[..|w.bytes|] == w.bytes
    requires SkipQuestions(buf, plen, HEADER, count) == Some(|query|)
    ensures var w := Run(Writer(query, false, []), limit, adds);
      |w.bytes| <= limit && SkipSection(buf, plen, SkipQuestions(buf, plen, HEADER, count).v,
          |w.added|) == Some(|w.bytes|)
  {
    hide SkipSection, SkipQuestions, Run;
    StartSkips(query);
    RunSkips(Writer(query, false, []), limit, adds, |query|);
  }

  lemma StartSkips(bytes: seq<Byte>)
    ensures Skips(Writer(bytes, false, []), |bytes|)
  {
  }

  // Once an answer has been cut short, no later one that would be noticed is added.
  lemma {:induction false} TruncationIsFinal(w: Writer, limit: nat, adds: seq<Add>)
    requires AddsOk(adds) && w.trunc
    ensures var r := Run(w, limit, adds);
      r.trunc && |w.added| <= |r.added| && forall k :: |w.added| <= k < |r.added| ==> !r.added[k].track
    ensures w.added <= Run(w, limit, adds).added
    decreases |adds|
  {
    hide RecordBytes;
    if adds != [] {
      TruncationIsFinal(Step(w, limit, adds[0]), limit, adds[1..]);
    }
  }
}
