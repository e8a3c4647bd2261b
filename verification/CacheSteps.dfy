// What the methods of the cache need to know: unrolled steps of the functions that
// specify them, and what the pointers say where a lookup or a rehash stands.
module CacheSteps {
  import opened CacheState
  import opened CacheInvariant
  import opened CacheSweep
  import opened CacheInsert
  import opened CacheCommit
  import opened CacheLookup
  import opened CacheAnswers
  import opened CacheLookupTheorems
  import opened CacheByAddr
  import opened CacheTables
  import opened CacheFixed
  import opened CacheRun
  import opened CacheLinks

  lemma ScanChainStep(st: State, b: nat, i: nat, addr: Addr, now: int, flags: Flags)
    requires Wf(st) && b < |st.chains| && i < |st.chains[b]|
    ensures var c, t := st.chains[b][i], Drop(st, b, i);
      && c in st.recs && Wf(t) && b < |t.chains| && i <= |t.chains[b]|
      && (st.recs[c].flags.Class() != 2 && Swept(st.recs[c], addr, now, flags) ==>
            ScanChain(st, b, i, addr, now, flags) == ScanChain(t, b, i, addr, now, flags))
      && (st.recs[c].flags.Class() != 2 && !Swept(st.recs[c], addr, now, flags) ==>
            ScanChain(st, b, i, addr, now, flags) == ScanChain(st, b, i + 1, addr, now, flags))
  {
    EntryRec(st, b, i);
    DropChainIs(st, b, i);
    hide Drop, Swept, Wf;
  }

  // The scan is over at the end of the chain, or at an immortal record.
  lemma ScanChainEnds(st: State, b: nat, i: nat, addr: Addr, now: int, flags: Flags)
    requires Wf(st) && b < |st.chains| && i <= |st.chains[b]|
    requires var c := At(st.chains[b], i); c != null ==> c in st.recs && st.recs[c].flags.Class() == 2
    ensures ScanChain(st, b, i, addr, now, flags) == st
  {
    hide Drop, Swept;
  }

  lemma ScanAllStep(st: State, b: nat, addr: Addr, now: int, flags: Flags)
    requires Wf(st) && b < |st.chains|
    ensures var t := ScanChain(st, b, 0, addr, now, flags);
      |t.chains| == |st.chains| && ScanAll(st, b, addr, now, flags) == ScanAll(t, b + 1, addr, now, flags)
  {
    hide ScanChain;
  }

  lemma ScanAllEnd(st: State, addr: Addr, now: int, flags: Flags)
    requires Wf(st)
    ensures ScanAll(st, |st.chains|, addr, now, flags) == st
  {
  }

  lemma SepSize(st: State)
    requires Sep(st)
    ensures |st.chains| > 0
  {
  }

  // What remains of the chain when entry i is dropped.
  lemma DropChainIs(st: State, b: nat, i: nat)
    requires Wf(st) && b < |st.chains| && i < |st.chains[b]|
    ensures var t := Drop(st, b, i);
      && Wf(t) && |t.chains| == |st.chains| && |t.chains[b]| == |st.chains[b]| - 1
      && (forall k: int :: k < i ==> At(t.chains[b], k) == At(st.chains[b], k))
      && At(t.chains[b], i) == At(st.chains[b], i + 1)
  {
    DropWf(st, b, i);
  }

  lemma ScanForwardEnd(st: State, b: nat, name: string, now: int, flags: Flags)
    requires Wf(st) && b < |st.chains|
    ensures ScanForward(st, b, |st.chains[b]|, name, now, flags) == (st, true)
  {
  }

  lemma ChainMember(st: State, b: nat, i: nat)
    requires Sep(st) && b < |st.chains| && i < |st.chains[b]|
    ensures st.chains[b][i] in st.recs
    ensures At(st.chains[b], i as int - 1) != null ==> At(st.chains[b], i as int - 1) in st.recs
  {
    var up := At(st.chains[b], i as int - 1);
    assert up != null ==> up in st.chains[b];
    assert st.chains[b][i] in st.chains[b];
  }

  lemma UpMember(st: State, b: nat, k: nat)
    requires Sep(st) && b < |st.chains| && k <= |st.chains[b]|
    ensures At(st.chains[b], k as int - 1) != null ==> At(st.chains[b], k as int - 1) in st.recs
  {
    var up := At(st.chains[b], k as int - 1);
    assert up != null ==> up in st.chains[b];
  }

  lemma RetireSep(l: Links, st: State, c: Crec, t: State)
    requires Sep(st) && Agree(l, st) && Targets(st.recs) && c in st.recs && Cached(st.recs[c])
    requires t == st.(recs := st.recs[c := Freed(st.recs[c], st.uid)], uid := t.uid, bigFree := t.bigFree)
    ensures Sep(t) && Agree(l, t) && Targets(t.recs)
  {
    TargetsUpdate(st.recs, c, Freed(st.recs[c], st.uid));
  }

  lemma LinkRecs(st: State, c: Crec)
    ensures var t := CacheState.Link(st, c); t == st.(lru := t.lru)
  {
  }

  lemma EndsKnown(l: Links, st: State)
    requires Sep(st) && Agree(l, st)
    ensures l.head != null ==> l.head in st.recs && l.head in st.lru
    ensures l.tail != null ==> l.tail in st.recs && l.tail in st.lru
  {
  }

  lemma UnlinkRecs(st: State, c: Crec)
    requires c in st.lru
    ensures var t := CacheState.Unlink(st, c);
            && t == st.(lru := t.lru)
  {
  }

  // The neighbours of a record of the LRU list are records too.
  lemma LruMember(l: Links, st: State, c: Crec)
    requires Sep(st) && Agree(l, st) && c in st.lru
    ensures c in st.recs && c in l.next && c in l.prev
    ensures l.prev[c] != null ==> l.prev[c] in st.recs
    ensures l.next[c] != null ==> l.next[c] in st.recs
  {
    var k: int := IndexOf(st.lru, c);
    assert At(st.lru, k - 1) != null ==> At(st.lru, k - 1) in st.lru;
    assert At(st.lru, k + 1) != null ==> At(st.lru, k + 1) in st.lru;
  }

  lemma ErrorOnly(l: Links, st: State, v: bool)
    requires Sep(st) && Agree(l, st) && Wf(st)
    ensures Sep(st.(insertError := v)) && Agree(l, st.(insertError := v)) && Wf(st.(insertError := v))
  {
    hide Leads, LeadsBack, Distinct;
    var t := st.(insertError := v);
    forall b | 0 <= b < |t.chains|
      ensures ChainOk(t, b)
    {
      assert ChainOk(st, b);
    }
  }

  lemma PendingHead(l: Links, st: State)
    requires Agree(l, st)
    ensures l.newChain == null <==> st.pending == []
    ensures l.newChain != null ==> l.newChain == st.pending[0]
  {
  }

  lemma SkipReverseStep(recs: map<Crec, Rec>, ch: seq<Crec>, i: nat)
    requires i <= |ch| && forall c :: c in ch ==> c in recs
    ensures i == |ch| || !recs[ch[i]].flags.reverse ==> SkipReverse(recs, ch, i) == i
    ensures i < |ch| && recs[ch[i]].flags.reverse ==> SkipReverse(recs, ch, i) == SkipReverse(recs, ch, i + 1)
  {
  }

  lemma SkipMortalStep(recs: map<Crec, Rec>, ch: seq<Crec>, i: nat)
    requires i <= |ch| && forall c :: c in ch ==> c in recs
    ensures i == |ch| || recs[ch[i]].flags.immortal ==> SkipMortal(recs, ch, i) == i
    ensures i < |ch| && !recs[ch[i]].flags.immortal ==> SkipMortal(recs, ch, i) == SkipMortal(recs, ch, i + 1)
  {
  }

  lemma ReleaseStep(st: State)
    requires Wf(st) && st.pending != []
    ensures st.pending[0] in st.recs && Cached(st.recs[st.pending[0]])
    ensures Wf(ReleaseFirst(st)) && ReleaseAll(st) == ReleaseAll(ReleaseFirst(st))
    ensures ReleaseFirst(st) == CacheState.Free(st.(pending := st.pending[1..]), st.pending[0])
    ensures ReleaseFirst(st).pending == st.pending[1..]
  {
    ReleaseFirstWf(st);
  }

  lemma ReleaseEnd(st: State)
    requires Wf(st) && st.pending == []
    ensures ReleaseAll(st) == st
  {
  }

  lemma CommitOne(st: State)
    requires Wf(st) && st.pending != []
    ensures st.pending[0] in st.recs && Cached(st.recs[st.pending[0]])
    ensures var c, s := st.pending[0], st.(pending := st.pending[1..]);
      Wf(s) && c !in s.lru && c !in s.pending && c !in s.chains[Bucket(s, s.recs[c].name)]
    ensures var c, s := st.pending[0], st.(pending := st.pending[1..]);
      Outdated(st.recs, st.recs[c]) ==>
        Wf(CacheState.Free(s, c)) && CacheState.Free(s,
            c).pending == s.pending && CommitAll(st) == CommitAll(CacheState.Free(s, c))
    ensures var c, s := st.pending[0], st.(pending := st.pending[1..]);
      var h := HashIn(s, c);
      !Outdated(st.recs, st.recs[c]) ==>
        && c in h.recs && c !in h.lru && c !in h.pending && h.pending == s.pending
        && Wf(CacheState.Link(h, c)) && CommitAll(st) == CommitAll(CacheState.Link(h, c))
  {
    hide HashPos;
    PopPendingWf(st);
    ReleaseFirstWf(st);
    CommitFirstWf(st);
  }

  lemma CommitEnd(st: State)
    requires Wf(st) && st.pending == []
    ensures CommitAll(st) == st
  {
  }

  lemma GrabStep(st: State, now: int, freedAll: bool, freeAvail: bool, tries: nat)
    requires Wf(st)
    ensures st.lru == [] ==> GrabTail(st, now, freedAll, freeAvail, tries) == (st, Empty, tries + 1)
    ensures st.lru != [] ==> var c := st.lru[|st.lru| - 1];
      && c in st.recs
      && var r := st.recs[c];
      && (!InUse(r) ==> GrabTail(st, now, freedAll, freeAvail, tries) == (st, Ready, tries + 1))
      && (InUse(r) && freeAvail ==> GrabTail(st, now, freedAll, freeAvail, tries) == (st, Loop, tries + 1))
      && (InUse(r) && !freeAvail && freedAll ==>
            Wf(ScanFree(st, r.name, r.addr, now, r.flags).0)
            && GrabTail(st, now, freedAll, freeAvail, tries) == GrabTail(ScanFree(st, r.name, r.addr, now, r.flags).0,
                now, true, true, tries + 1))
      && (InUse(r) && !freeAvail && !freedAll ==>
            Wf(ScanFree(st, "", [], now, NO_FLAGS).0)
            && GrabTail(st, now, freedAll, freeAvail, tries) == GrabTail(ScanFree(st, "", [], now, NO_FLAGS).0, now,
                true, freeAvail, tries + 1))
  {
    hide ScanFree, ChainOk;
  }

  lemma FillSep(l: Links, st: State, c: Crec, r: Rec)
    requires Sep(st) && Agree(l, st) && Targets(st.recs) && c in st.recs && Cached(st.recs[c])
    requires Cached(r) && r.target == null && Unchained(st, c)
    ensures var t := st.(recs := st.recs[c := r]); Sep(t) && Agree(l, t) && Targets(t.recs)
  {
    TargetsUpdate(st.recs, c, r);
  }

  ghost predicate Unchained(st: State, c: Crec) {
    forall b :: 0 <= b < |st.chains| ==> c !in st.chains[b]
  }

  // A free tail record is in no chain and can be unlinked.
  lemma TailFree(st: State)
    requires Wf(st) && PoolOk(st) && FreeTail(st)
    ensures var c, t := st.lru[|st.lru| - 1], st.(lru := st.lru[..|st.lru| - 1]);
      && c in st.recs && c in st.lru && c !in t.lru && c !in st.pending && Cached(st.recs[c])
      && Unchained(t, c) && CacheState.Unlink(st, c) == t
  {
    var n := |st.lru| - 1;
    var c := st.lru[n];
    assert IndexOf(st.lru, c) == n;
    forall b | 0 <= b < |st.chains|
      ensures c !in st.chains[b]
    {
      assert ChainOk(st, b);
    }
  }

  lemma NumberOnly(l: Links, st: State, c: Crec)
    requires Sep(st) && Agree(l, st)
    ensures var t := st.(born := st.born[c := st.clock], clock := st.clock + 1); Sep(t) && Agree(l, t)
  {
  }

  lemma BigOnly(l: Links, st: State, bigFree: nat, bigLeft: nat)
    requires Sep(st) && Agree(l, st) && Wf(st)
    ensures var t := st.(bigFree := bigFree, bigLeft := bigLeft); Sep(t) && Agree(l, t) && Wf(t)
  {
    hide Leads, LeadsBack, Distinct;
    var t := st.(bigFree := bigFree, bigLeft := bigLeft);
    forall b | 0 <= b < |t.chains|
      ensures ChainOk(t, b)
    {
      assert ChainOk(st, b);
    }
  }

  // There is no buffer for a long name.
  ghost predicate NoBuffer(st: State, nm: string, malloc: bool) {
    LongName(nm) && st.bigFree == 0 && (st.bigLeft == 0 || !malloc)
  }

  // The state when the name has its buffer.
  ghost function Buffered(st: State, nm: string): State {
    if LongName(nm) && (st.bigFree > 0 || st.bigLeft > 0) then TakeBigName(st) else st
  }

  lemma BigKeeps(st: State, nm: string)
    requires Wf(st) && PoolOk(st) && FreeTail(st)
    ensures var t := Buffered(st, nm);
      t.recs == st.recs && t.lru == st.lru && (Wf(t) ==> PoolOk(t) && FreeTail(t))
  {
  }

  lemma PlaceIs(st: State, nm: string, addr: Addr, now: int, ttl: nat, flags: Flags, malloc: bool)
    requires Wf(st) && st.lru != []
    ensures NoBuffer(st, nm, malloc) ==>
      Place(st, nm, addr, now, ttl, flags, malloc) == (st.(insertError := true), Refused(NoLongName))
    ensures !NoBuffer(st, nm, malloc) ==>
      var s := Buffered(st, nm);
      && s.lru == st.lru && s.recs == st.recs
      && var c := s.lru[|s.lru| - 1];
      c in s.recs
      && Place(st, nm, addr, now, ttl, flags, malloc)
           == (Pend(s, Rec(flags.(bigname := LongName(nm)), nm, addr, now + ttl, s.recs[c].uid, null, 0)), Inserted(c))
  {
    assert st.lru[|st.lru| - 1] in st.lru;
    hide Wf, Pend, LongName;
  }

  // The record at the tail goes to new_chain with new contents.
  lemma PendIs(st: State, rec: Rec)
    requires st.lru != []
    ensures var c := st.lru[|st.lru| - 1];
      Pend(st, rec) == st.(lru := st.lru[..|st.lru| - 1], recs := st.recs[c := rec], pending := [c] + st.pending,
          born := st.born[c := st.clock], clock := st.clock + 1)
  {
  }

  lemma InsertIs(st: State, nm: string, addr: Addr, now: int, ttl: nat, flags: Flags, malloc: bool)
    requires Wf(st)
    ensures st.insertError ==> Insert(st, nm, addr, now, ttl, flags, malloc) == (st, Refused(EarlierError))
    ensures !st.insertError ==>
      var (s1, ok) := ScanFree(st, nm, addr, now, flags);
      && (!ok ==> Insert(st, nm, addr, now, ttl, flags, malloc) == (s1.(insertError := true), Refused(HostsOrDhcp)))
      && (ok ==>
            var (s2, g, _) := GrabTail(s1, now, flags.reverse, false, 0);
            && (g == Empty ==> Insert(st, nm, addr, now, ttl, flags, malloc) == (s2.(insertError := true),
                Refused(NoEntries)))
            && (g == Ready && s2.lru != [] ==>
                Insert(st, nm, addr, now, ttl, flags, malloc) == Place(s2, nm, addr, now, ttl, flags, malloc)))
  {
    hide ScanFree, GrabTail, Place;
  }

  // The scan and the grab of an insertion end with a free record at the tail, or none.
  lemma InsertPlan(st: State, nm: string, addr: Addr, now: int, flags: Flags)
    requires Wf(st) && Inv(st)
    ensures var (s1, ok) := ScanFree(st, nm, addr, now, flags);
      Wf(s1) &&
      var (s2, g, _) := GrabTail(s1, now, flags.reverse, false, 0);
      Wf(s2) && g != Loop && (g == Ready ==> PoolOk(s2) && FreeTail(s2))
  {
    hide ScanFree, GrabTail, ChainsOrdered, PoolOk, FreeSuffix, FlagsOk, NoClash, CnamesOk, BigInPool, BigNames;
    hide FreeTail, Shrunk;
    ScanFreeInv(st, nm, addr, now, flags);
    GrabTailTerminates(ScanFree(st, nm, addr, now, flags).0, now, flags.reverse);
  }

  // The next fields of records outside the LRU list.
  ghost predicate OutsideNext(l: Links, m: Links, st: State) {
    forall x :: x in st.recs && x !in st.lru ==> x in l.next && x in m.next && m.next[x] == l.next[x]
  }

  lemma OutsideSame(l: Links, st: State)
    requires forall x :: x in st.recs ==> x in l.next
    ensures OutsideNext(l, l, st)
  {
  }

  lemma LruNeighbours(l: Links, st: State, c: Crec)
    requires Sep(st) && Agree(l, st) && c in st.lru
    ensures c in l.next && c in l.prev && (l.prev[c] != null ==> l.prev[c] in st.lru)
    ensures l.tail != null && l.tail in st.lru && l.head != null && l.head in st.lru
  {
    var k: int := IndexOf(st.lru, c);
    assert At(st.lru, k - 1) != null ==> At(st.lru, k - 1) in st.lru;
    assert l.tail in st.lru && l.head in st.lru;
  }

  lemma UnlinkLinkOutside(l: Links, st: State, c: Crec)
    requires Sep(st) && Agree(l, st) && c in st.lru && forall x :: x in st.recs ==> x in l.next
    ensures c in l.next && c in l.prev && OutsideNext(l, LinkLinks(UnlinkLinks(l, c), c), st)
  {
    hide Sep, Agree;
    LruNeighbours(l, st, c);
  }

  lemma UnlinkAppendOutside(l: Links, st: State, c: Crec)
    requires Sep(st) && Agree(l, st) && c in st.lru && forall x :: x in st.recs ==> x in l.next
    ensures c in l.next && c in l.prev && OutsideNext(l, AppendLinks(UnlinkLinks(l, c), c), st)
  {
    hide Sep, Agree;
    LruNeighbours(l, st, c);
  }

  // Only the next fields matter.
  lemma OutsideSwap(l: Links, k: Links, m: Links, st: State, t: State)
    requires OutsideNext(k, m, t) && l.next == k.next && t.lru == st.lru && t.recs == st.recs
    ensures forall n: Links :: n.next == m.next ==> OutsideNext(l, n, st)
  {
  }

  lemma GiveBackOk(l: Links, st: State, c: Crec)
    requires Sep(st) && Agree(l, st) && c in st.lru
    ensures c in st.recs && c !in st.pending
    ensures CacheState.Unlink(st, c) == st.(lru := CacheState.Unlink(st, c).lru)
  {
  }

  lemma DropIs(st: State, b: nat, i: nat)
    requires Wf(st) && b < |st.chains| && i < |st.chains[b]|
    ensures var c, s := st.chains[b][i], Unhash(st, b, i);
      && c in st.recs && (Cached(st.recs[c]) <==> c in st.lru)
      && s.lru == st.lru && s.recs == st.recs && Wf(Drop(st, b, i))
      && (Cached(st.recs[c]) ==> Drop(st, b, i) == CacheState.Free(CacheState.Unlink(s, c), c))
      && (!Cached(st.recs[c]) ==> Drop(st, b, i) == s)
  {
    EntryRec(st, b, i);
    DropWf(st, b, i);
  }

  // Where the lookup loop stands: up is the entry before the current one, insUp the
  // entry behind which matches are put once there was a first match, ans and last the
  // ends of the chain of hosts and DHCP answers.
  datatype Cursor = Cursor(up: Crec?, insUp: Crec?, started: bool, rev: bool, imm: bool, ans: Crec?, last: Crec?)

  // The answers follow each other on next.
  ghost predicate Chained(l: Links, ans: Crec?, last: Crec?, hosts: seq<Crec>) {
    && (hosts == [] ==> last == null)
    && (hosts != [] ==> ans == hosts[0] && last == hosts[|hosts| - 1])
    && forall k :: 0 <= k < |hosts| - 1 ==> hosts[k] in l.next && l.next[hosts[k]] == hosts[k + 1]
  }

  // The answers chained so far are hosts or DHCP records, each once.
  ghost predicate HostsOk(st: State, hosts: seq<Crec>) {
    Distinct(hosts) && forall x :: x in hosts ==> x in st.recs && x !in st.lru && x !in st.pending
  }

  ghost predicate CursorOk(links: Links, k: Cursor, l: Look, b: nat)
    requires LookOk(l, b)
  {
    && k.up == At(l.st.chains[b], l.i as int - 1)
    && k.started == l.started
    && (l.started ==> k.insUp == At(l.st.chains[b], l.ins as int - 1) && k.rev == l.rev && k.imm == l.imm)
    && Chained(links, k.ans, k.last, l.hosts)
    && HostsOk(l.st, l.hosts)
    && (forall i, x :: l.i <= i < |l.st.chains[b]| && x in l.hosts ==> l.st.chains[b][i] != x)
  }

  lemma MoveUpSteps(st: State, b: nat, i: nat, ins: nat)
    requires Wf(st) && b < |st.chains| && ins <= i < |st.chains[b]|
    ensures var t, c := Unhash(st, b, i), st.chains[b][i];
      && |t.chains| == |st.chains| && ins <= |t.chains[b]| && At(t.chains[b], ins as int - 1) == At(st.chains[b],
          ins as int - 1)
      && c in t.recs && Bucket(t, t.recs[c].name) == b && c !in t.chains[b]
      && t.(chains := t.chains[b := InsertAt(t.chains[b], ins, c)]) == MoveUp(st, b, i, ins)
  {
    assert ChainOk(st, b) && st.chains[b][i] in st.chains[b];
    RemoveAtDistinct(st.chains[b], i);
    var t := Unhash(st, b, i);
    assert t.chains[b := InsertAt(t.chains[b], ins, st.chains[b][i])] == MoveUp(st, b, i, ins).chains;
  }

  lemma NextOutside(l: Links, st: State, x: Crec, v: Crec?)
    requires Agree(l, st) && x !in st.lru && x !in st.pending
    ensures Agree(l.(next := Set(l.next, x, v)), st)
  {
    LeadsFrame(l.next, l.head, st.lru, x, v);
    LeadsFrame(l.next, l.newChain, st.pending, x, v);
    hide Leads, LeadsBack;
    AgreeLists(l, st, l.(next := Set(l.next, x, v)), st);
  }

  // The state once the match at entry i has been chained or promoted.
  ghost function Answered(l: Look, b: nat): State
    requires LookOk(l, b) && l.i < |l.st.chains[b]|
  {
    EntryRec(l.st, b, l.i);
    var c := l.st.chains[b][l.i];
    if Cached(l.st.recs[c]) then CacheState.Promote(l.st, c) else l.st
  }

  ghost function HostsAfter(l: Look, b: nat): seq<Crec>
    requires LookOk(l, b) && l.i < |l.st.chains[b]|
  {
    EntryRec(l.st, b, l.i);
    var c := l.st.chains[b][l.i];
    if Cached(l.st.recs[c]) then l.hosts else l.hosts + [c]
  }

  lemma AnswerFacts(l: Look, b: nat)
    requires LookOk(l, b) && l.i < |l.st.chains[b]|
    ensures var c := l.st.chains[b][l.i];
      && Wf(l.st) && c in l.st.recs && c !in l.st.pending && (Cached(l.st.recs[c]) <==> c in l.st.lru)
      && Wf(Answered(l, b)) && Answered(l, b).chains == l.st.chains && Answered(l, b).pending == l.st.pending
      && Answered(l, b).recs == l.st.recs && (forall x :: x in l.st.recs ==> (x in Answered(l, b).lru <==>
          x in l.st.lru))
      && (Cached(l.st.recs[c]) ==> Answered(l, b) == CacheState.Promote(l.st, c) && HostsAfter(l, b) == l.hosts)
      && (!Cached(l.st.recs[c]) ==> Answered(l, b) == l.st && HostsAfter(l, b) == l.hosts + [c])
  {
    var c := l.st.chains[b][l.i];
    EntryRec(l.st, b, l.i);
    assert ChainOk(l.st, b) && c in l.st.chains[b];
    if Cached(l.st.recs[c]) {
      PromoteWf(l.st, c);
    }
  }

  lemma CursorParts(links: Links, k: Cursor, l: Look, b: nat)
    requires LookOk(l, b) && CursorOk(links, k, l, b) && l.i < |l.st.chains[b]|
    ensures Chained(links, k.ans, k.last, l.hosts) && HostsOk(l.st, l.hosts) && l.st.chains[b][l.i] !in l.hosts
  {
    hide Chained, HostsOk;
  }

  lemma LastIsHost(links: Links, st: State, k: Cursor, hosts: seq<Crec>)
    requires Chained(links, k.ans, k.last, hosts) && HostsOk(st, hosts)
    ensures k.last != null ==> k.last in st.recs && k.last !in st.lru && k.last !in st.pending
  {
    assert hosts != [] ==> hosts[|hosts| - 1] in hosts;
  }

  lemma ChainGrows(links: Links, st: State, k: Cursor, hosts: seq<Crec>, c: Crec)
    requires Chained(links, k.ans, k.last, hosts) && HostsOk(st, hosts)
    requires c !in hosts && c in st.recs && c !in st.lru && c !in st.pending && forall x :: x in st.recs ==>
        x in links.next
    ensures Chained(links.(next := Set(links.next, k.last, c)), if k.last == null then c else k.ans, c, hosts + [c])
    ensures HostsOk(st, hosts + [c])
  {
    var h := hosts + [c];
    assert forall i :: 0 <= i < |hosts| ==> h[i] == hosts[i] && hosts[i] in hosts;
  }

  lemma ChainStays(l: Links, m: Links, st: State, t: State, k: Cursor, hosts: seq<Crec>)
    requires Chained(l, k.ans, k.last, hosts) && HostsOk(st, hosts) && OutsideNext(l, m, st)
    requires t.pending == st.pending && forall x :: x in st.recs ==> x in t.recs && (x in t.lru <==> x in st.lru)
    ensures Chained(m, k.ans, k.last, hosts) && HostsOk(t, hosts)
  {
    assert forall i :: 0 <= i < |hosts| ==> hosts[i] in hosts;
  }

  lemma MatchIs(l: Look, b: nat)
    requires LookOk(l, b) && l.i < |l.st.chains[b]|
    ensures var c, s := l.st.chains[b][l.i], Answered(l, b);
      && c in l.st.recs && |s.chains| == |l.st.chains| && s.chains[b] == l.st.chains[b] && Wf(l.st) && Wf(s)
      && LookMatch(l, b) ==
           if l.started && SameClass(l, l.st.recs[c]) then
             (assert l.ins <= l.i; l.(st := MoveUp(s, b, l.i, l.ins), i := l.i + 1, ins := l.ins + 1,
                 hosts := HostsAfter(l, b)))
           else if l.started then l.(st := s, i := l.i + 1, hosts := HostsAfter(l, b))
           else Look(s, l.i + 1, l.i, true, l.st.recs[c].flags.reverse, l.st.recs[c].flags.immortal, HostsAfter(l, b))
  {
    AnswerFacts(l, b);
    hide CacheState.Promote, MoveUp, Wf;
  }

  lemma StartedPlace(links: Links, k: Cursor, l: Look, b: nat)
    requires LookOk(l, b) && CursorOk(links, k, l, b)
    ensures k.up == At(l.st.chains[b], l.i as int - 1) && k.started == l.started
    ensures l.started ==>
        k.insUp == At(l.st.chains[b], l.ins as int - 1) && k.rev == l.rev && k.imm == l.imm && l.ins < l.i
    ensures b < |l.st.chains| && forall i, x :: l.i <= i < |l.st.chains[b]| && x in l.hosts ==> l.st.chains[b][i] != x
  {
    hide Chained, HostsOk;
  }

  // The cursor after a match.
  ghost predicate MatchMoves(k: Cursor, m: Cursor, c: Crec, f: Flags) {
    m == if k.started && f.reverse == k.rev && f.immortal == k.imm then k.(ans := m.ans, last := m.last, insUp := c)
         else if k.started then k.(ans := m.ans, last := m.last, up := c)
         else Cursor(c, k.up, true, f.reverse, f.immortal, m.ans, m.last)
  }

  lemma MatchCursor(links1: Links, links2: Links, k: Cursor, m: Cursor, l: Look, b: nat)
    requires LookOk(l, b) && l.i < |l.st.chains[b]| && links2.next == links1.next
    requires k.up == At(l.st.chains[b], l.i as int - 1) && k.started == l.started
    requires l.started ==>
        k.insUp == At(l.st.chains[b], l.ins as int - 1) && k.rev == l.rev && k.imm == l.imm && l.ins < l.i
    requires Chained(links1, m.ans, m.last, HostsAfter(l, b)) && HostsOk(Answered(l, b), HostsAfter(l, b))
    requires forall i, x :: l.i <= i < |l.st.chains[b]| && x in l.hosts ==> l.st.chains[b][i] != x
    requires l.st.chains[b][l.i] in l.st.recs
    requires MatchMoves(k, m, l.st.chains[b][l.i], l.st.recs[l.st.chains[b][l.i]].flags)
    ensures LookOk(LookMatch(l, b), b) && CursorOk(links2, m, LookMatch(l, b), b)
  {
    hide Wf, HostsOk, MoveUp, Answered, HostsAfter, LookOk, Chained, LookMatch;
    LookMatchOk(l, b);
    MatchIs(l, b);
    HostsGrow(l, b);
    MatchPlace(l, b);
    var s, n := Answered(l, b), LookMatch(l, b);
    if l.started && SameClass(l, l.st.recs[l.st.chains[b][l.i]]) {
      MoveUpKeepsHosts(s, b, l.i, l.ins, HostsAfter(l, b));
    }
    assert Chained(links2, m.ans, m.last, n.hosts) by { ChainedNext(links1, links2, m, n.hosts); }
  }

  lemma ChainedNext(l: Links, m: Links, k: Cursor, hosts: seq<Crec>)
    requires Chained(l, k.ans, k.last, hosts) && m.next == l.next
    ensures Chained(m, k.ans, k.last, hosts)
  {
  }

  lemma HostsGrow(l: Look, b: nat)
    requires LookOk(l, b) && l.i < |l.st.chains[b]|
    ensures forall x :: x in HostsAfter(l, b) ==> x in l.hosts || x == l.st.chains[b][l.i]
  {
  }

  lemma MoveUpKeepsHosts(st: State, b: nat, i: nat, ins: nat, hosts: seq<Crec>)
    requires b < |st.chains| && ins <= i < |st.chains[b]| && HostsOk(st, hosts)
    ensures HostsOk(MoveUp(st, b, i, ins), hosts)
  {
    hide InsertAt, RemoveAt;
  }

  // Where a match leaves the entries behind it.
  lemma MatchPlace(l: Look, b: nat)
    requires LookOk(l, b) && l.i < |l.st.chains[b]|
    ensures var ch, n := l.st.chains[b], LookMatch(l, b);
      && b < |n.st.chains| && |n.st.chains[b]| == |ch|
      && (forall j :: l.i < j < |ch| ==> n.st.chains[b][j] == ch[j] && ch[j] != ch[l.i])
      && (l.started && ch[l.i] in l.st.recs && SameClass(l, l.st.recs[ch[l.i]]) ==>
            && l.ins < l.i && At(n.st.chains[b], l.i) == At(ch, l.i as int - 1) && At(n.st.chains[b], l.ins) == ch[l.i])
      && (!(l.started && ch[l.i] in l.st.recs && SameClass(l, l.st.recs[ch[l.i]])) ==> n.st.chains[b] == ch)
  {
    LookMatchOk(l, b);
    MatchIs(l, b);
    RestApart(l, b);
    if l.started { MovedEntries(l.st.chains[b], l.i, l.ins); }
    hide Wf, InsertAt, RemoveAt, Answered, LookMatch, HostsAfter, ChainOk;
  }

  // After one step the next entry of the chain is the one that was next before.
  ghost predicate Advanced(l: Look, n: Look, b: nat)
    requires b < |l.st.chains|
  {
    b < |n.st.chains| && n.i <= |n.st.chains[b]| && At(n.st.chains[b], n.i) == At(l.st.chains[b], l.i + 1)
  }

  lemma MatchNext(l: Look, b: nat)
    requires LookOk(l, b) && l.i < |l.st.chains[b]|
    ensures Advanced(l, LookMatch(l, b), b)
  {
    LookMatchOk(l, b);
    MatchPlace(l, b);
    hide LookMatch, LookOk;
  }

  lemma OthersNext(l: Look, b: nat)
    requires LookOk(l, b) && l.i < |l.st.chains[b]|
    ensures Advanced(l, l.(i := l.i + 1), b) && Advanced(l, l.(st := Drop(l.st, b, l.i)), b)
  {
    hide Drop, SameClass;
    DropChainIs(l.st, b, l.i);
  }

  lemma RestApart(l: Look, b: nat)
    requires LookOk(l, b) && l.i < |l.st.chains[b]|
    ensures forall i :: l.i < i < |l.st.chains[b]| ==> l.st.chains[b][i] != l.st.chains[b][l.i]
  {
    assert ChainOk(l.st, b);
  }

  lemma MovedEntries(ch: seq<Crec>, i: nat, ins: nat)
    requires ins < i < |ch|
    ensures var r := InsertAt(RemoveAt(ch, i), ins, ch[i]);
      && |r| == |ch| && At(r, i) == At(ch, i as int - 1) && At(r, ins) == ch[i]
      && forall j :: i < j < |ch| ==> r[j] == ch[j]
  {
  }

  lemma InvIsWf(st: State)
    requires Inv(st)
    ensures Wf(st)
  {
  }

  // The test a lookup by name makes, and the one a lookup by address makes.
  ghost function ByName(name: string, prot: Flags): Rec -> bool {
    (r: Rec) => Matching(r, name, prot)
  }

  ghost function ByAddr(addr: Addr, prot: Flags): Rec -> bool {
    (r: Rec) => AddrMatching(r, addr, prot)
  }

  // From each answer the next field leads to the following one, and from the last to
  // a record that is no answer.
  ghost predicate Trail(l: Links, st: State, a: seq<Crec>, p: Rec -> bool) {
    && (forall j :: 0 <= j < |a| ==> a[j] in st.recs && a[j] in l.next && p(st.recs[a[j]]))
    && (forall j :: 0 <= j < |a| - 1 ==> l.next[a[j]] == a[j + 1])
    && (a != [] ==> var z := l.next[a[|a| - 1]]; z != null ==> z in st.recs && !p(st.recs[z]))
  }

  lemma TrailNext(l: Links, st: State, a: seq<Crec>, p: Rec -> bool, j: nat)
    requires Trail(l, st, a, p) && j < |a|
    ensures a[j] in st.recs && a[j] in l.next
    ensures var n := l.next[a[j]];
      && (n != null ==> n in st.recs)
      && At(a, j + 1) == if n != null && p(st.recs[n]) then n else null
  {
    assert j + 1 < |a| ==> p(st.recs[a[j + 1]]);
  }

  lemma StartCursor(links: Links, st: State, b: nat)
    requires Wf(st) && b < |st.chains|
    ensures LookOk(StartLook(st), b)
    ensures CursorOk(links, Cursor(null, null, false, false, false, null, null), StartLook(st), b)
  {
    hide Wf;
  }

  lemma StepIs(l: Look, b: nat, name: string, now: int, prot: Flags)
    requires LookOk(l, b) && l.i < |l.st.chains[b]|
    ensures var c := l.st.chains[b][l.i];
      && Wf(l.st) && c in l.st.recs
      && LookStep(l, b, name, now, prot) ==
           if Dead(l.st.recs, l.st.recs[c], now) then l.(st := Drop(l.st, b, l.i))
           else if Matching(l.st.recs[c], name, prot) then LookMatch(l, b)
           else l.(i := l.i + 1)
  {
    EntryRec(l.st, b, l.i);
    hide Drop, LookMatch, Matching, Dead;
  }

  lemma UpIs(links: Links, k: Cursor, l: Look, b: nat)
    requires LookOk(l, b) && CursorOk(links, k, l, b)
    ensures k.up == At(l.st.chains[b], l.i as int - 1)
  {
    hide Chained, HostsOk;
  }

  lemma PassCursor(links: Links, k: Cursor, l: Look, b: nat)
    requires LookOk(l, b) && CursorOk(links, k, l, b) && l.i < |l.st.chains[b]|
    ensures LookOk(l.(i := l.i + 1), b) && CursorOk(links, k.(up := l.st.chains[b][l.i]), l.(i := l.i + 1), b)
  {
    hide Chained, HostsOk, Wf;
  }

  lemma LaterEntries(s: seq<Crec>, t: seq<Crec>, i: nat, hosts: seq<Crec>)
    requires i < |s| && i <= |t| && t[i..] == s[i + 1..]
    requires forall k, x :: i <= k < |s| && x in hosts ==> s[k] != x
    ensures forall k, x :: i <= k < |t| && x in hosts ==> t[k] != x
  {
    forall k, x | i <= k < |t| && x in hosts
      ensures t[k] != x
    {
      assert t[k] == t[i..][k - i] == s[i + 1..][k - i] == s[k + 1];
    }
  }

  // The answers chained so far survive the removal of another entry.
  lemma DropCursor(links1: Links, links2: Links, k: Cursor, l: Look, b: nat)
    requires LookOk(l, b) && l.i < |l.st.chains[b]| && Wf(l.st) && CursorOk(links1, k, l, b)
    requires OutsideNext(links1, links2, l.st)
    ensures var n := l.(st := Drop(l.st, b, l.i)); LookOk(n, b) && CursorOk(links2, k, n, b)
  {
    hide Wf, Drop, Chained, HostsOk, OutsideNext, Distinct, SameClass, RemoveAt;
    LookDropOk(l, b);
    DropChainIs(l.st, b, l.i);
    DropChain(l.st, b, l.i);
    DropOthers(links1, links2, k, l.st, b, l.i, l.hosts);
    LaterEntries(l.st.chains[b], Drop(l.st, b, l.i).chains[b], l.i, l.hosts);
  }

  lemma DropOthers(l: Links, m: Links, k: Cursor, st: State, b: nat, i: nat, hosts: seq<Crec>)
    requires Wf(st) && b < |st.chains| && i < |st.chains[b]| && Chained(l, k.ans, k.last, hosts)
    requires HostsOk(st, hosts) && OutsideNext(l, m, st)
    ensures Chained(m, k.ans, k.last, hosts) && HostsOk(Drop(st, b, i), hosts)
  {
    EntryRec(st, b, i);
    DropWf(st, b, i);
    assert Drop(st, b, i).pending == st.pending;
    assert forall x :: x in st.recs ==> x in Drop(st, b, i).recs;
    hide Wf, Drop, ChainOk, Hashed, Chained, HostsOk, OutsideNext;
    ChainStays(l, m, st, Drop(st, b, i), k, hosts);
  }

  lemma LoopEnd(l: Look, b: nat, name: string, now: int, prot: Flags)
    requires LookOk(l, b) && l.i <= |l.st.chains[b]| && At(l.st.chains[b], l.i) == null
    ensures LookLoop(l, b, name, now, prot) == l
  {
    hide LookStep;
  }

  lemma EndParts(links: Links, k: Cursor, l: Look, b: nat)
    requires LookOk(l, b) && CursorOk(links, k, l, b)
    ensures Chained(links, k.ans, k.last, l.hosts) && HostsOk(l.st, l.hosts)
  {
    hide Chained, HostsOk;
  }

  // With the LRU list behind them, the chained answers lead on into that list.
  lemma AnswersLead(l: Links, st: State, k: Cursor, hosts: seq<Crec>)
    requires Chained(l, k.ans, k.last, hosts) && HostsOk(st, hosts) && Leads(l.next, l.head, st.lru)
    requires forall x :: x in st.recs ==> x in l.next
    ensures Leads(Set(l.next, k.last, l.head), if k.last == null then l.head else k.ans, hosts + st.lru)
  {
    var f, s := Set(l.next, k.last, l.head), hosts + st.lru;
    var first := if k.last == null then l.head else k.ans;
    assert first == At(s, 0);
    forall i | 0 <= i < |s|
      ensures s[i] in f && f[s[i]] == At(s, i + 1)
    {
      if i < |hosts| {
        assert hosts[i] in hosts;
        assert hosts[|hosts| - 1] == k.last;
      } else {
        assert s[i] == st.lru[i - |hosts|] && s[i] in st.lru;
        assert hosts != [] ==> hosts[|hosts| - 1] in hosts;
      }
    }
  }

  // The list that a first search leaves leads through its answers.
  lemma LookupTrail(l: Links, st: State, ans: Crec?, m: Look, name: string, now: int, prot: Flags)
    requires Inv(st) && m == FindByName(st, name, now, prot) && Leads(l.next, ans, m.hosts + m.st.lru)
    ensures Inv(m.st) && Trail(l, m.st, AnswerList(st, name, now, prot), ByName(name, prot))
    ensures ans != null ==> ans in m.st.recs
    ensures At(AnswerList(st, name, now, prot), 0) == if ans != null && Matching(m.st.recs[ans], name, prot) then ans
        else null
  {
    hide FindByName, AnswerList, Inv, Matching, Leads;
    InvIsWf(st);
    var n := LookupParts(st, m, name, now, prot);
    var a, p := AnswerList(st, name, now, prot), ByName(name, prot);
    assert forall r: Rec :: p(r) == Matching(r, name, prot);
    hide ByName;
    ListTrail(l, m.st, ans, m.hosts, n, a, p);
  }

  lemma LookupParts(st: State, m: Look, name: string, now: int, prot: Flags) returns (n: nat)
    requires Inv(st) && m == FindByName(st, name, now, prot)
    ensures Inv(m.st) && n <= |m.st.lru| && AnswerList(st, name, now, prot) == m.hosts + m.st.lru[..n]
    ensures forall x :: x in AnswerList(st, name, now, prot) ==> x in m.st.recs && Matching(m.st.recs[x], name, prot)
    ensures n < |m.st.lru| ==> m.st.lru[n] in m.st.recs && !Matching(m.st.recs[m.st.lru[n]], name, prot)
  {
    hide FindByName, Survivors, AnswerList, HostCount, Live, Hashed, RotateLeft, Inv, Matching, Distinct;
    InvIsWf(st);
    LookupState(st, name, now, prot);
    LookupIsFilter(st, name, now, prot);
    n := |AnswerList(st, name, now, prot)| - HostCount(st, name, now, prot);
  }

  lemma AddrTrail(l: Links, st: State, ans: Crec?, addr: Addr, now: int, prot: Flags)
    requires Inv(st) && var r := FindByAddr(st, addr, now, prot); Leads(l.next, ans, r.hosts + r.st.lru)
    ensures var r := FindByAddr(st, addr, now, prot);
      && Inv(r.st) && Trail(l, r.st, AddrAnswers(r), ByAddr(addr, prot))
      && (ans != null ==> ans in r.st.recs)
      && At(AddrAnswers(r), 0) == if ans != null && AddrMatching(r.st.recs[ans], addr, prot) then ans else null
  {
    AddrLookupIsFilter(st, addr, now, prot);
    var r := FindByAddr(st, addr, now, prot);
    LruKnown(r.st);
    hide FindByAddr, Hashed, Inv, AddrMatching, Distinct, Reverse;
    assert AddrAnswers(r) == r.hosts + r.st.lru[..|r.done|];
    ListTrail(l, r.st, ans, r.hosts, |r.done|, AddrAnswers(r), ByAddr(addr, prot));
  }

  lemma LruKnown(st: State)
    requires Inv(st)
    ensures forall i :: 0 <= i < |st.lru| ==> st.lru[i] in st.recs
  {
  }

  lemma ListTrail(l: Links, st: State, ans: Crec?, hosts: seq<Crec>, n: nat, a: seq<Crec>, p: Rec -> bool)
    requires n <= |st.lru| && a == hosts + st.lru[..n] && Leads(l.next, ans, hosts + st.lru)
    requires forall x :: x in a ==> x in st.recs && p(st.recs[x])
    requires n < |st.lru| ==> st.lru[n] in st.recs && !p(st.recs[st.lru[n]])
    ensures Trail(l, st, a, p) && (ans != null ==> ans in st.recs)
    ensures At(a, 0) == if ans != null && p(st.recs[ans]) then ans else null
  {
    var s := hosts + st.lru;
    assert forall j :: 0 <= j < |a| ==> a[j] == s[j];
    assert |a| < |s| ==> s[|a|] == st.lru[n];
    PrefixTrail(l, st, ans, s, a, p);
  }

  lemma PrefixTrail(l: Links, st: State, ans: Crec?, s: seq<Crec>, a: seq<Crec>, p: Rec -> bool)
    requires |a| <= |s| && (forall j :: 0 <= j < |a| ==> a[j] == s[j]) && Leads(l.next, ans, s)
    requires forall x :: x in a ==> x in st.recs && p(st.recs[x])
    requires |a| < |s| ==> s[|a|] in st.recs && !p(st.recs[s[|a|]])
    ensures Trail(l, st, a, p) && (ans != null ==> ans in st.recs)
    ensures At(a, 0) == if ans != null && p(st.recs[ans]) then ans else null
  {
    forall j | 0 <= j < |a|
      ensures a[j] in st.recs && a[j] in l.next && p(st.recs[a[j]]) && l.next[a[j]] == At(s, j + 1)
    {
      assert a[j] in a;
    }
  }

  // The writes of cache_link, one after the other.
  lemma LinkWrites(l: Links, l1: Links, l2: Links, c: Crec)
    requires l.head != c
    requires l1 == if l.head == null then l else l.(prev := Set(l.prev, l.head, c), tail := if l.head == null then c
        else l.tail)
    requires l2 == l1.(next := Set(Set(l1.next, c, l1.head), null, c), prev := Set(l1.prev, c, null), head := c)
    ensures LinkLinks(l, c) == if l2.tail == null then l2.(prev := Set(l2.prev, null, c), tail := c) else l2
  {
    if l.head != null {
      assert l.prev[l.head := c][c := null] == l.prev[c := null][l.head := c];
    }
  }

  // The writes of the list part of cache_free.
  lemma AppendWrites(l: Links, c: Crec)
    requires l.tail != c
    ensures AppendLinks(l, c) ==
      l.(next := Set(Set(l.next, l.tail, c), c, null), prev := Set(Set(l.prev, c, l.tail), null, c),
         head := if l.tail == null then c else l.head, tail := c)
  {
    if l.tail != null {
      assert l.next[l.tail := c][c := null] == l.next[c := null][l.tail := c];
    }
  }

  // ---------- lookups by address ----------

  // The entries still to be scanned, from entry i of chain b on, are not yet answers.
  ghost predicate Ahead(st: State, hosts: seq<Crec>, b: nat, i: nat) {
    forall d, j, x :: b <= d < |st.chains| && 0 <= j < |st.chains[d]| && (d == b ==> i <= j) && x in hosts ==>
        st.chains[d][j] != x
  }

  ghost predicate AddrCursor(links: Links, k: Cursor, a: AddrLook, b: nat, i: nat) {
    Chained(links, k.ans, k.last, a.hosts) && HostsOk(a.st, a.hosts) && Ahead(a.st, a.hosts, b, i)
  }

  lemma AddrDrops(a: AddrLook, b: nat, i: nat, addr: Addr, now: int, prot: Flags)
    requires Wf(a.st) && b < |a.st.chains| && i < |a.st.chains[b]| && a.st.chains[b][i] in a.st.recs
    requires var r := a.st.recs[a.st.chains[b][i]]; r.flags.reverse && Expired(r, now)
    ensures var t := Drop(a.st, b, i);
      && Wf(t) && b < |t.chains| && i <= |t.chains[b]|
      && AddrChain(a, b, i, addr, now, prot) == AddrChain(a.(st := t), b, i, addr, now, prot)
  {
    DropChainIs(a.st, b, i);
    hide Drop, AddrVisit, Wf;
  }

  lemma AddrVisits(a: AddrLook, b: nat, i: nat, addr: Addr, now: int, prot: Flags)
    requires Wf(a.st) && b < |a.st.chains| && i < |a.st.chains[b]| && a.st.chains[b][i] in a.st.recs
    requires var r := a.st.recs[a.st.chains[b][i]]; r.flags.reverse && !Expired(r, now)
    ensures Cached(a.st.recs[a.st.chains[b][i]]) <==> a.st.chains[b][i] in a.st.lru
    ensures var n := AddrVisit(a, a.st.chains[b][i], addr, prot);
      && Wf(n.st) && n.st.chains == a.st.chains
      && AddrChain(a, b, i, addr, now, prot) == AddrChain(n, b, i + 1, addr, now, prot)
  {
    var c := a.st.chains[b][i];
    EntryRec(a.st, b, i);
    VisitWf(a, c, addr, prot);
    hide Drop, AddrVisit, Wf;
  }

  lemma AddrEnds(a: AddrLook, b: nat, i: nat, addr: Addr, now: int, prot: Flags)
    requires Wf(a.st) && b < |a.st.chains| && i <= |a.st.chains[b]|
    requires var c := At(a.st.chains[b], i); c != null ==> c in a.st.recs && !a.st.recs[c].flags.reverse
    ensures AddrChain(a, b, i, addr, now, prot) == a
  {
    hide Drop, AddrVisit;
  }

  lemma UpAside(links: Links, k: Cursor, a: AddrLook, b: nat, i: nat, up: Crec?)
    requires AddrCursor(links, k, a, b, i)
    ensures AddrCursor(links, k.(up := up), a, b, i)
  {
    hide Chained, HostsOk, Ahead;
  }

  lemma LaterAhead(links: Links, k: Cursor, a: AddrLook, b: nat, i: nat)
    requires AddrCursor(links, k, a, b, i)
    ensures AddrCursor(links, k, a, b + 1, 0)
  {
    hide Chained, HostsOk;
  }

  lemma EntryAhead(st: State, hosts: seq<Crec>, b: nat, i: nat)
    requires Wf(st) && b < |st.chains| && i < |st.chains[b]| && Ahead(st, hosts, b, i)
    ensures st.chains[b][i] !in hosts && st.chains[b][i] !in st.pending
    ensures Ahead(st, hosts, b, i + 1) && Ahead(st, hosts + [st.chains[b][i]], b, i + 1)
  {
    var c := st.chains[b][i];
    assert ChainOk(st, b) && c in st.chains[b];
    forall d, j | b <= d < |st.chains| && 0 <= j < |st.chains[d]| && (d == b ==> i + 1 <= j)
      ensures st.chains[d][j] != c
    {
      assert ChainOk(st, d) && st.chains[d][j] in st.chains[d];
    }
  }

  lemma AheadSame(st: State, t: State, hosts: seq<Crec>, b: nat, i: nat)
    requires Ahead(st, hosts, b, i) && t.chains == st.chains
    ensures Ahead(t, hosts, b, i)
  {
  }

  lemma AddrDropCursor(links1: Links, links2: Links, k: Cursor, a: AddrLook, b: nat, i: nat)
    requires Wf(a.st) && b < |a.st.chains| && i < |a.st.chains[b]| && AddrCursor(links1, k, a, b, i)
    requires OutsideNext(links1, links2, a.st)
    ensures AddrCursor(links2, k, a.(st := Drop(a.st, b, i)), b, i)
  {
    DropOthers(links1, links2, k, a.st, b, i, a.hosts);
    DropChain(a.st, b, i);
    hide Wf, Drop, Chained, HostsOk, OutsideNext, Distinct;
    var t := Drop(a.st, b, i);
    forall d, j, x | b <= d < |t.chains| && 0 <= j < |t.chains[d]| && (d == b ==> i <= j) && x in a.hosts
      ensures t.chains[d][j] != x
    {
      if d == b {
        assert t.chains[b][j] == t.chains[b][i..][j - i] == a.st.chains[b][i + 1..][j - i] == a.st.chains[b][j + 1];
      }
    }
  }

  lemma StartAddr(links: Links, st: State)
    ensures AddrCursor(links, Cursor(null, null, false, false, false, null, null), AddrLook(st, [], []), 0, 0)
  {
  }

  lemma AddrParts(links: Links, k: Cursor, a: AddrLook, b: nat)
    requires AddrCursor(links, k, a, b, 0)
    ensures Chained(links, k.ans, k.last, a.hosts) && HostsOk(a.st, a.hosts)
  {
  }

  lemma AddrAllStep(a: AddrLook, b: nat, addr: Addr, now: int, prot: Flags)
    requires Wf(a.st) && b < |a.st.chains|
    ensures var r := AddrChain(a, b, 0, addr, now, prot);
      && Wf(r.st) && |r.st.chains| == |a.st.chains| && AddrAll(a, b, addr, now, prot) == AddrAll(r, b + 1, addr, now,
          prot)
  {
    hide AddrChain, Wf;
  }

  lemma AddrAllEnd(a: AddrLook, addr: Addr, now: int, prot: Flags)
    requires Wf(a.st)
    ensures AddrAll(a, |a.st.chains|, addr, now, prot) == a
  {
  }

  // ---------- rehash ----------

  // Records that are not hashed (yet) keep their hash_next field.
  ghost predicate UnhashedStay(l: Links, m: Links, st: State)
    requires Wf(st)
  {
    forall y :: y in st.recs && !Hashed(st, y) && y in l.hashNext ==> y in m.hashNext && m.hashNext[y] == l.hashNext[y]
  }

  lemma StaySame(l: Links, st: State)
    requires Wf(st)
    ensures UnhashedStay(l, l, st)
  {
  }

  lemma LeadsOn(f: Field, first: Crec?, s: seq<Crec>)
    requires Leads(f, first, s) && first != null
    ensures s != [] && first == s[0] && s[0] in f && Leads(f, f[s[0]], s[1..])
  {
  }

  lemma ChainUnroll(st: State, ch: seq<Crec>)
    requires Wf(st) && Distinct(ch) && ch != [] && forall c :: c in ch ==> Hashable(st, c)
    ensures Hashable(st, ch[0]) && Wf(HashIn(st, ch[0])) && Distinct(ch[1..]) && ch[0] !in ch[1..]
    ensures forall c :: c in ch[1..] ==> c in ch && Hashable(HashIn(st, ch[0]), c)
    ensures HashChain(st, ch) == HashChain(HashIn(st, ch[0]), ch[1..])
  {
    HashChainStep(st, ch);
    HeadNotInTail(ch);
    hide HashIn;
  }

  lemma HashableParts(st: State, c: Crec)
    requires Wf(st) && Hashable(st, c)
    ensures c in st.recs && c !in st.chains[Bucket(st, st.recs[c].name)]
  {
  }

  lemma ChainDone(f: Field, st: State, rest: seq<Crec>)
    requires Wf(st) && Leads(f, null, rest)
    ensures rest == [] && HashChain(st, []) == st
  {
  }

  // The rest of the old chain is still there after its first record was hashed.
  lemma Unhashed(l: Links, m: Links, st: State, c: Crec, rest: seq<Crec>)
    requires Wf(st) && Leads(l.hashNext, c, rest) && rest != [] && c == rest[0] && c in l.hashNext && c !in rest[1..]
    requires forall x :: x in rest ==> Hashable(st, x)
    requires forall x :: x in rest[1..] ==> x in rest
    requires forall y :: y in l.hashNext && y != c && !Hashed(st, y) ==>
        y in m.hashNext && m.hashNext[y] == l.hashNext[y]
    ensures Leads(m.hashNext, l.hashNext[c], rest[1..])
  {
    var s := rest[1..];
    hide Wf, Hashed;
    forall i | 0 <= i < |s|
      ensures s[i] in m.hashNext && m.hashNext[s[i]] == At(s, i + 1)
    {
      assert s[i] == rest[i + 1] && s[i] in s && Hashable(st, s[i]);
    }
  }

  lemma StayOn(l0: Links, l: Links, m: Links, st: State, t: State, c: Crec)
    requires Wf(st) && Wf(t) && UnhashedStay(l0, l, st) && t.recs == st.recs && Hashed(t, c)
    requires forall x :: x in st.recs && Hashed(st, x) ==> Hashed(t, x)
    requires forall y :: y in l.hashNext && y != c && !Hashed(st, y) ==>
        y in m.hashNext && m.hashNext[y] == l.hashNext[y]
    ensures UnhashedStay(l0, m, t)
  {
    hide Wf, Hashed;
  }

  // The chains of the old table from bucket i on.
  ghost predicate OldChains(l: Links, heads: seq<Crec?>, chains: seq<seq<Crec>>, i: nat) {
    |heads| == |chains| && forall b :: i <= b < |chains| ==> Leads(l.hashNext, heads[b], chains[b])
  }

  lemma OldStart(l: Links, st: State, m: Links)
    requires Agree(l, st) && m.hashNext == l.hashNext
    ensures OldChains(m, l.buckets, st.chains, 0)
  {
    hide LeadsBack;
  }

  lemma OldHead(l: Links, heads: seq<Crec?>, chains: seq<seq<Crec>>, i: nat)
    requires OldChains(l, heads, chains, i) && i < |chains|
    ensures Leads(l.hashNext, heads[i], chains[i])
  {
  }

  lemma OldRest(l: Links, m: Links, st: State, heads: seq<Crec?>, chains: seq<seq<Crec>>, i: nat)
    requires Wf(st) && OldChains(l, heads, chains, i) && i < |chains| && UnhashedStay(l, m, st)
    requires AllHashable(st, chains[i + 1..])
    ensures OldChains(m, heads, chains, i + 1)
  {
    hide Wf, Hashed, Leads, Distinct;
    forall b | i + 1 <= b < |chains|
      ensures Leads(m.hashNext, heads[b], chains[b])
    {
      assert chains[i + 1..][b - i - 1] == chains[b];
      LeadsUnhashed(l, m, st, heads[b], chains[b]);
    }
  }

  lemma LeadsUnhashed(l: Links, m: Links, st: State, first: Crec?, s: seq<Crec>)
    requires Wf(st) && Leads(l.hashNext, first, s) && UnhashedStay(l, m, st) && forall c :: c in s ==> Hashable(st, c)
    ensures Leads(m.hashNext, first, s)
  {
    hide Wf, Hashed;
    forall i | 0 <= i < |s|
      ensures s[i] in m.hashNext && m.hashNext[s[i]] == At(s, i + 1)
    {
      assert s[i] in s && Hashable(st, s[i]);
    }
  }

  lemma TableUnroll(st: State, chains: seq<seq<Crec>>, i: nat)
    requires Wf(st) && ChainsOrdered(st) && i < |chains| && AllHashable(st, chains[i..])
    ensures Distinct(chains[i]) && forall c :: c in chains[i] ==> Hashable(st, c)
    ensures var t := HashChain(st, chains[i]);
      && Wf(t) && ChainsOrdered(t) && AllHashable(t, chains[i + 1..])
      && HashTable(st, chains[i..]) == HashTable(t, chains[i + 1..])
  {
    assert chains[i..][0] == chains[i] && chains[i..][1..] == chains[i + 1..];
    HashTableStep(st, chains[i..]);
    hide HashChain, Wf, ChainsOrdered;
  }

  lemma TableDone(st: State, chains: seq<seq<Crec>>)
    requires Wf(st) && ChainsOrdered(st) && AllHashable(st, chains[|chains|..])
    ensures HashTable(st, chains[|chains|..]) == st
  {
    hide Wf, ChainsOrdered;
  }

  lemma TableGrows(n: nat, size: nat)
    requires n > 0
    ensures TableSize(n, size) == if n < size / 10 then TableSize(2 * n, size) else n
  {
  }

  lemma RehashIs(st: State, size: nat, malloc: bool)
    requires Wf(st)
    ensures var n := TableSize(64, size);
      && (n <= |st.chains| || !malloc ==> CacheTables.Rehash(st, size, malloc) == st)
      && (n > |st.chains| && malloc ==>
            Wf(EmptyTable(st, n)) && ChainsOrdered(EmptyTable(st, n)) && AllHashable(EmptyTable(st, n), st.chains)
            && CacheTables.Rehash(st, size, malloc) == HashTable(EmptyTable(st, n), st.chains))
  {
    hide TableSize, HashTable, EmptyTable, AllHashable, Wf, ChainsOrdered;
    EmptyWf(st, TableSize(64, size));
  }

  lemma EmptyAgrees(l: Links, st: State, n: nat)
    requires Sep(st) && Agree(l, st) && n > 0
    ensures var t := EmptyTable(st, n); Sep(t) && forall m: Links :: m == l.(buckets := seq(n, i => null)) ==>
        Agree(m, t)
  {
  }

  // ---------- cache_init ----------

  // A record that was never used.
  const BLANK := Rec(NO_FLAGS, "", [], 0, 0, null, 0)

  lemma NoneTwice()
    ensures Distinct<Crec>([])
  {
  }

  // The state with the records of the pool linked so far.
  ghost function PoolOf(pool: seq<Crec>, h: string -> nat, size: nat): State {
    State(map c | c in pool :: BLANK.(uid := IndexOf(pool, c)), Reverse(pool), seq(TableSize(64, size), i => []), [],
          |pool|, false, h, 0, size / 10, map[], 0)
  }

  lemma {:induction false} IndexOfSnoc<T>(s: seq<T>, c: T, x: T)
    requires x in s + [c]
    ensures IndexOf(s + [c], x) == if x in s then IndexOf(s, x) else |s|
  {
    if s == [] {
      assert s + [c] == [c];
    } else if s[0] != x {
      assert (s + [c])[1..] == s[1..] + [c];
      IndexOfSnoc(s[1..], c, x);
      assert s == [s[0]] + s[1..];
    }
  }

  lemma PoolSnoc(pool: seq<Crec>, c: Crec, h: string -> nat, size: nat)
    requires c !in pool && Distinct(pool)
    ensures var st := PoolOf(pool, h, size);
      && Distinct(pool + [c])
      && CacheState.Link(st.(recs := st.recs[c := BLANK.(uid := st.uid)], uid := st.uid + 1), c) == PoolOf(pool + [c],
          h, size)
  {
    var st, t := PoolOf(pool, h, size), PoolOf(pool + [c], h, size);
    ReverseSnoc(pool, c);
    forall x | x in pool + [c]
      ensures t.recs[x] == st.recs[c := BLANK.(uid := st.uid)][x]
    {
      IndexOfSnoc(pool, c, x);
    }
    assert t.recs == st.recs[c := BLANK.(uid := st.uid)];
    assert forall i :: 0 <= i < |pool| ==> pool[i] in pool;
  }

  lemma {:induction false} ReverseTwice<T>(s: seq<T>)
    ensures Reverse(Reverse(s)) == s
  {
    if s != [] {
      ReverseTwice(s[1..]);
      ReverseSnoc(Reverse(s[1..]), s[0]);
      assert [s[0]] + s[1..] == s;
    }
  }

  lemma PoolIsInit(pool: seq<Crec>, h: string -> nat, size: nat)
    requires Distinct(pool) && |pool| == size
    ensures var st := PoolOf(pool, h, size);
      |st.lru| == size && Distinct(Reverse(st.lru)) && st == Init(Reverse(st.lru), BLANK, h) && Idle(st)
  {
    hide Reverse, Idle, TableSize, Distinct;
    ReverseTwice(pool);
    InitIdle(pool, BLANK, h);
  }

  lemma AdmitOk(l: Links, st: State, c: Crec, r: Rec, n: Crec?, p: Crec?, hn: Crec?)
    requires Sep(st) && Agree(l, st) && Targets(st.recs) && c !in st.recs && r.target == null
    ensures var t := st.(recs := st.recs[c := r], uid := st.uid + 1);
      && Sep(t) && Targets(t.recs) && c !in st.lru && c !in st.pending
      && Agree(l.(next := l.next[c := n], prev := l.prev[c := p], hashNext := l.hashNext[c := hn]), t)
  {
    hide Leads, LeadsBack, Bucket;
    UnknownUnchained(st, c);
    var t := st.(recs := st.recs[c := r], uid := st.uid + 1);
    assert Sep(t) by { hide Agree, Targets; AdmitSep(st, c, r); }
    assert Targets(t.recs) by { hide Agree, Sep; }
    hide Sep, Targets;
    LeadsAside(l.next, l.head, st.lru, c, n);
    LeadsAside(l.next, l.newChain, st.pending, c, n);
    LeadsBackAside(l.prev, l.tail, st.lru, c, p);
    forall b | 0 <= b < |st.chains|
      ensures Leads(l.hashNext[c := hn], l.buckets[b], st.chains[b])
    {
      LeadsAside(l.hashNext, l.buckets[b], st.chains[b], c, hn);
    }
  }

  lemma UnknownUnchained(st: State, c: Crec)
    requires Sep(st) && c !in st.recs
    ensures c !in st.lru && c !in st.pending && forall b :: 0 <= b < |st.chains| ==> c !in st.chains[b]
  {
  }

  lemma AdmitSep(st: State, c: Crec, r: Rec)
    requires Sep(st) && c !in st.recs
    ensures Sep(st.(recs := st.recs[c := r], uid := st.uid + 1))
  {
    var t := st.(recs := st.recs[c := r], uid := st.uid + 1);
    forall b, x | 0 <= b < |t.chains| && x in t.chains[b]
      ensures x in t.recs && Bucket(t, t.recs[x].name) == b
    {
      assert x in st.recs && Bucket(st, st.recs[x].name) == b;
    }
  }

  lemma LeadsAside(f: Field, first: Crec?, s: seq<Crec>, c: Crec, v: Crec?)
    requires Leads(f, first, s) && c !in s
    ensures Leads(f[c := v], first, s)
  {
    assert forall i :: 0 <= i < |s| ==> s[i] in s;
  }

  lemma LeadsBackAside(f: Field, last: Crec?, s: seq<Crec>, c: Crec, v: Crec?)
    requires LeadsBack(f, last, s) && c !in s
    ensures LeadsBack(f[c := v], last, s)
  {
    assert forall i :: 0 <= i < |s| ==> s[i] in s;
  }

  lemma PointSep(l: Links, st: State, cpp: Crec, newc: Crec)
    requires Sep(st) && Agree(l, st) && Targets(st.recs) && cpp in st.recs && newc in st.recs
    requires Cached(st.recs[cpp]) && Cached(st.recs[newc])
    ensures var t := CacheCommit.LinkCname(st, cpp, newc); Sep(t) && Agree(l, t) && Targets(t.recs)
  {
    TargetsUpdate(st.recs, cpp, st.recs[cpp].(target := newc, targetUid := st.recs[newc].uid));
  }

  // ---------- whole transactions ----------

  lemma IdleStart(st: State, items: seq<Item>, now: int, commit: bool)
    requires Idle(st) && forall i :: 0 <= i < |items| ==> InsertFlags(items[i].flags)
    ensures Wf(st) && TxnInv(StartInsert(st)) && PendingLocal(StartInsert(st))
    ensures Wf(InsertAll(StartInsert(st), items, now, null))
    ensures var t := InsertAll(StartInsert(st), items, now, null);
      Transaction(st, items, now, commit) == if commit then EndInsert(t) else t
  {
    hide InsertAll, EndInsert, ChainsOrdered, PoolOk, FreeSuffix, FlagsOk, NoClash, CnamesOk, BigInPool;
    hide PendingNoClash, Distinct, ChainOk;
    StartInsertInv(st);
    InsertAllOk(StartInsert(st), items, now, null);
  }

  lemma TxnIsInv(st: State)
    requires TxnInv(st)
    ensures Inv(st) && Wf(st)
  {
  }

  // The items from i on.
  ghost function InsertFrom(st: State, items: seq<Item>, i: nat, now: int, cpp: Crec?): State
    requires TxnInv(st) && PendingLocal(st) && (cpp != null ==> cpp in st.pending) && i <= |items|
    requires forall k :: 0 <= k < |items| ==> InsertFlags(items[k].flags)
  {
    InsertAll(st, items[i..], now, cpp)
  }

  lemma InsertUnroll(st: State, items: seq<Item>, i: nat, now: int, cpp: Crec?)
    requires TxnInv(st) && PendingLocal(st) && (cpp != null ==> cpp in st.pending) && i < |items|
    requires forall k :: 0 <= k < |items| ==> InsertFlags(items[k].flags)
    ensures var (t, c) := InsertItem(st, items[i], now, Waiting(items[i], cpp));
      && TxnInv(t) && Wf(t) && PendingLocal(t) && (c != null ==> c in t.pending)
      && InsertFrom(st, items, i, now, cpp) == InsertFrom(t, items, i + 1, now, c)
  {
    hide TxnInv, PendingLocal, InsertItem;
    InsertItemOk(st, items[i], now, Waiting(items[i], cpp));
    TxnIsInv(InsertItem(st, items[i], now, Waiting(items[i], cpp)).0);
    assert items[i..][0] == items[i] && items[i..][1..] == items[i + 1..];
  }

  // One insertion, step by step.
  lemma ItemIs(st: State, it: Item, now: int, cpp: Crec?)
    requires TxnInv(st) && PendingLocal(st) && (cpp != null ==> cpp in st.pending) && InsertFlags(it.flags)
    ensures var (t, r) := Insert(st, it.name, it.addr, now, it.ttl, it.flags, it.malloc);
      && (r.Inserted? ==> r.c in t.recs && Cached(t.recs[r.c]))
      && (r.Inserted? && cpp != null ==> cpp in t.recs && Cached(t.recs[cpp]))
      && InsertItem(st, it, now, cpp) ==
           (if r.Inserted? && cpp != null then CacheCommit.LinkCname(t, cpp, r.c)
               else t, if r.Inserted? && it.flags.cname then r.c else null)
  {
    hide ChainsOrdered, PoolOk, FreeSuffix, FlagsOk, NoClash, CnamesOk, BigInPool, BigNames, PendingNoClash;
    hide PendingLocal, ChainOk, Distinct, Insert, CacheCommit.LinkCname;
    InsertInv(st, it.name, it.addr, now, it.ttl, it.flags, it.malloc);
    var (t, r) := Insert(st, it.name, it.addr, now, it.ttl, it.flags, it.malloc);
    assert r.Inserted? ==> r.c in t.pending && (cpp != null ==> cpp in t.pending);
  }

  lemma InsertNone(st: State, items: seq<Item>, now: int, cpp: Crec?)
    requires TxnInv(st) && PendingLocal(st) && (cpp != null ==> cpp in st.pending)
    requires forall k :: 0 <= k < |items| ==> InsertFlags(items[k].flags)
    ensures InsertFrom(st, items, 0, now, cpp) == InsertAll(st, items, now, cpp)
  {
    assert items[0..] == items;
  }

  lemma InsertDone(st: State, items: seq<Item>, now: int, cpp: Crec?)
    requires TxnInv(st) && PendingLocal(st) && (cpp != null ==> cpp in st.pending)
    requires forall k :: 0 <= k < |items| ==> InsertFlags(items[k].flags)
    ensures InsertFrom(st, items, |items|, now, cpp) == st
  {
  }
}
