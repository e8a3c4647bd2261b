// Runs of the cache: every state reachable from cache_init through lookups,
// transactions, reloads, DHCP updates and rehashes satisfies the invariant.
module CacheRun {
  import opened CacheState
  import opened CacheInvariant
  import opened CacheSweep
  import opened CacheInsert
  import opened CacheCommit
  import opened CacheLookup
  import opened CacheAnswers
  import opened CacheByAddr
  import opened CacheTables
  import opened CacheFixed
  import opened CacheDhcp

  // ---------- transactions ----------

  // One cache_insert call of a transaction; first marks the first one for a question.
  datatype Item = Item(name: string, addr: Addr, ttl: nat, flags: Flags, malloc: bool, first: bool)

  // The CNAME that still waits for its target: none when a question begins.
  function Waiting(it: Item, cpp: Crec?): Crec? {
    if it.first then null else cpp
  }

  // The calls of one transaction. Each record inserted right after a CNAME, for the same
  // question, becomes the target of that CNAME; cpp is the CNAME waiting for its target.
  ghost function InsertAll(st: State, items: seq<Item>, now: int, cpp: Crec?): State
    requires TxnInv(st) && PendingLocal(st) && (cpp != null ==> cpp in st.pending)
    requires forall i :: 0 <= i < |items| ==> InsertFlags(items[i].flags)
    decreases |items|
  {
    if items == [] then st
    else
      InsertItemOk(st, items[0], now, Waiting(items[0], cpp));
      var (t, cpp') := InsertItem(st, items[0], now, Waiting(items[0], cpp));
      InsertAll(t, items[1..], now, cpp')
  }

  ghost function InsertItem(st: State, it: Item, now: int, cpp: Crec?): (State, Crec?)
    requires TxnInv(st) && PendingLocal(st) && (cpp != null ==> cpp in st.pending)
    requires InsertFlags(it.flags)
  {
    var (t, r) := Insert(st, it.name, it.addr, now, it.ttl, it.flags, it.malloc);
    InsertInv(st, it.name, it.addr, now, it.ttl, it.flags, it.malloc);
    InsertLocal(st, it.name, it.addr, now, it.ttl, it.flags, it.malloc);
    var u := if r.Inserted? && cpp != null && cpp in t.recs then LinkCname(t, cpp, r.c) else t;
    (u, if r.Inserted? && it.flags.cname then r.c else null)
  }

  lemma FramedLocal(st: State, t: State)
    requires Wf(st) && Wf(t) && SameTables(st, t) && PendingLocal(st)
    ensures PendingLocal(t)
  {
    assert forall x :: x in st.recs && CnamePointer(st, x) ==> CnamePointer(t, x);
  }

  lemma PendedLocal(st: State, t: State, c: Crec, rec: Rec)
    requires Wf(st) && Wf(t) && Pended(st, t, c, rec) && rec.target == null && rec.uid == st.recs[c].uid
    requires PendingLocal(st)
    ensures PendingLocal(t)
  {
    forall x | x in t.pending && t.recs[x].flags.cname
      ensures CnamePointer(t, x) && (!Outdated(t.recs, t.recs[x]) ==> t.recs[x].target in t.pending)
    {
      if x != c { PendedPointer(st, t, c, rec, x); }
    }
  }

  lemma LinkedLocal(st: State, t: State, cpp: Crec, newc: Crec)
    requires Wf(st) && Wf(t) && Linked(st, t, cpp, newc) && PendingLocal(st) && BornOk(st) && PoolOk(st)
    requires newc in st.pending && st.born[cpp] < st.born[newc]
    ensures PendingLocal(t)
  {
    forall x | x in t.pending && t.recs[x].flags.cname
      ensures CnamePointer(t, x) && (!Outdated(t.recs, t.recs[x]) ==> t.recs[x].target in t.pending)
    {
      if x != cpp { LinkedPointer(st, t, cpp, newc, x); }
    }
  }

  lemma PlaceLocal(st: State, name: string, addr: Addr, now: int, ttl: nat, flags: Flags, malloc: bool)
    requires TxnInv(st) && FreeTail(st) && PendingLocal(st) && InsertFlags(flags)
    ensures var t := Place(st, name, addr, now, ttl, flags, malloc).0; Wf(t) && PendingLocal(t)
  {
    hide ChainsOrdered, PoolOk, FreeSuffix, FlagsOk, NoClash, CnamesOk, BigInPool, PendingNoClash, PendingLocal;
    hide Wf, BigHolders, BigNames, Pend, SameTables, NameFree;
    if LongName(name) && st.bigFree == 0 && (st.bigLeft == 0 || !malloc) {
      var t := st.(insertError := true);
      ErrorIsSameTables(st);
      FrameTxn(st, t);
      FramedLocal(st, t);
    } else {
      var s := if LongName(name) then TakeBigName(st) else st;
      TakeIsSameTables(st, name);
      FrameTxn(st, s);
      FramedLocal(st, s);
      PendLocal(s, NewRec(s.recs[s.lru[|s.lru| - 1]], name, addr, now, ttl, flags));
    }
  }

  lemma PendLocal(st: State, rec: Rec)
    requires Inv(st) && FreeTail(st) && PendingLocal(st) && Cached(rec)
    requires rec.target == null && rec.uid == st.recs[st.lru[|st.lru| - 1]].uid
    ensures Wf(Pend(st, rec)) && PendingLocal(Pend(st, rec))
  {
    PendIsPended(st, rec);
    PendedLocal(st, Pend(st, rec), st.lru[|st.lru| - 1], rec);
  }

  lemma InsertLocal(st: State, name: string, addr: Addr, now: int, ttl: nat, flags: Flags, malloc: bool)
    requires TxnInv(st) && PendingLocal(st) && InsertFlags(flags)
    ensures var t := Insert(st, name, addr, now, ttl, flags, malloc).0; Wf(t) && PendingLocal(t)
  {
    hide ChainsOrdered, PoolOk, FreeSuffix, FlagsOk, NoClash, CnamesOk, BigInPool, BigNames, BigHolders;
    hide PendingNoClash, PendingLocal, ChainOk, Distinct, Hashed, ScanFree, GrabTail, Place, Shrunk, Quiet;
    if !st.insertError {
      var (s1, ok) := ScanFree(st, name, addr, now, flags);
      ScanFreeIdle(st, name, addr, now, flags);
      ScanFreeInv(st, name, addr, now, flags);
      if !ok {
        FrameTxn(s1, s1.(insertError := true));
        FramedLocal(s1, s1.(insertError := true));
      } else {
        var (s2, g, n) := GrabTail(s1, now, flags.reverse, false, 0);
        GrabTailTerminates(s1, now, flags.reverse);
        ShrunkQuiet(s1, s2);
        QuietLocal(s1, s2);
        PendingNotHashed(s1);
        ShrunkKeepsPendingNoClash(s1, s2);
        ShrunkLru(s1, s2);
        if g == Empty {
          FrameTxn(s2, s2.(insertError := true));
          FramedLocal(s2, s2.(insertError := true));
        } else {
          PlaceLocal(s2, name, addr, now, ttl, flags, malloc);
        }
      }
    }
  }

  lemma InsertItemOk(st: State, it: Item, now: int, cpp: Crec?)
    requires TxnInv(st) && PendingLocal(st) && (cpp != null ==> cpp in st.pending)
    requires InsertFlags(it.flags)
    ensures var (t, cpp') := InsertItem(st, it, now, cpp);
            TxnInv(t) && PendingLocal(t) && BigNames(t) == BigNames(st) && (cpp' != null ==> cpp' in t.pending)
  {
    hide ChainsOrdered, FreeSuffix, FlagsOk, NoClash, CommittedCnames, PendingCnames, BigInPool, BigNames;
    hide BigHolders, PendingNoClash, PendingLocal, ChainOk, Distinct, Hashed, Insert, LinkCname;
    var (t, r) := Insert(st, it.name, it.addr, now, it.ttl, it.flags, it.malloc);
    InsertInv(st, it.name, it.addr, now, it.ttl, it.flags, it.malloc);
    InsertLocal(st, it.name, it.addr, now, it.ttl, it.flags, it.malloc);
    if r.Inserted? && cpp != null {
      assert cpp in t.pending && r.c in t.pending && t.pending[0] == r.c && cpp != r.c;
      var k :| 0 <= k < |t.pending| && t.pending[k] == cpp;
      assert t.born[t.pending[k]] < t.born[t.pending[0]];
      LinkIsLinked(t, cpp, r.c);
      LinkInv(t, cpp, r.c);
      LinkedLocal(t, LinkCname(t, cpp, r.c), cpp, r.c);
      LinkPending(t, cpp, r.c);
    }
  }

  lemma LinkPending(st: State, cpp: Crec, newc: Crec)
    requires cpp in st.recs && newc in st.recs
    ensures LinkCname(st, cpp, newc).pending == st.pending
  {
  }

  lemma {:induction false} InsertAllOk(st: State, items: seq<Item>, now: int, cpp: Crec?)
    requires TxnInv(st) && PendingLocal(st) && (cpp != null ==> cpp in st.pending)
    requires forall i :: 0 <= i < |items| ==> InsertFlags(items[i].flags)
    ensures var t := InsertAll(st, items, now, cpp); TxnInv(t) && PendingLocal(t) && BigNames(t) == BigNames(st)
    decreases |items|
  {
    hide TxnInv, PendingLocal, BigNames, InsertItem;
    if items != [] {
      InsertItemOk(st, items[0], now, Waiting(items[0], cpp));
      var (t, cpp') := InsertItem(st, items[0], now, Waiting(items[0], cpp));
      assert forall i :: 0 <= i < |items[1..]| ==> items[1..][i] == items[i + 1];
      InsertAllOk(t, items[1..], now, cpp');
    }
  }

  // cache_start_insert, the inserts, and cache_end_insert unless the packet was
  // truncated or malformed.
  ghost function Transaction(st: State, items: seq<Item>, now: int, commit: bool): State
    requires Idle(st) && forall i :: 0 <= i < |items| ==> InsertFlags(items[i].flags)
  {
    StartInsertInv(st);
    var t := InsertAll(StartInsert(st), items, now, null);
    InsertAllOk(StartInsert(st), items, now, null);
    if commit then EndInsert(t) else t
  }

  lemma TransactionIdle(st: State, items: seq<Item>, now: int, commit: bool)
    requires Idle(st) && forall i :: 0 <= i < |items| ==> InsertFlags(items[i].flags)
    ensures var t := Transaction(st, items, now, commit); Idle(t) && BigNames(t) == BigNames(st)
  {
    hide ChainsOrdered, PoolOk, FreeSuffix, FlagsOk, NoClash, CnamesOk, BigInPool, BigNames, BigHolders;
    hide PendingNoClash, ChainOk, Distinct, Hashed, InsertAll, StartInsert, EndInsert;
    StartInsertInv(st);
    InsertAllOk(StartInsert(st), items, now, null);
    EndInsertExact(InsertAll(StartInsert(st), items, now, null));
  }

  // ---------- runs ----------

  datatype HostsEntry = HostsEntry(c: Crec, old_: Rec, name: string, addr: Addr, ipv4: bool, index: int, addrDup: bool)

  datatype Op =
    | LookupName(name: string, now: int, prot: Flags)
    | LookupAddr(addr: Addr, now: int, prot: Flags)
    | Update(items: seq<Item>, now: int, commit: bool)
    | Reload(entries: seq<HostsStep>)
    | UnhashLeases
    | AddLease(name: string, addr: Addr, ttd: int, c: Crec, old_: Rec, malloc: bool)
    | Grow(size: nat, malloc: bool)

  ghost predicate OpOk(op: Op) {
    op.Update? ==> forall i :: 0 <= i < |op.items| ==> InsertFlags(op.items[i].flags)
  }

  // Reading the hosts files: entries, and a larger table now and then.
  datatype HostsStep = Entry(e: HostsEntry) | Enlarge(size: nat, malloc: bool)

  ghost function HostsOne(st: State, s: HostsStep): (t: State)
    requires Wf(st)
    ensures Wf(t)
  {
    match s
    case Entry(e) =>
      if e.c in st.recs then st else AddHosts(st, e.c, e.old_, e.name, e.addr, e.ipv4, e.index, e.addrDup).0
    case Enlarge(size, malloc) =>
      RehashWf(st, size, malloc);
      Rehash(st, size, malloc)
  }

  lemma RehashWf(st: State, size: nat, malloc: bool)
    requires Wf(st)
    ensures Wf(Rehash(st, size, malloc))
  {
    hide HashTable, EmptyTable, AllHashable, Distinct, ChainOk;
    var n := TableSize(64, size);
    if n > |st.chains| && malloc {
      EmptyWf(st, n);
      HashTableOk(EmptyTable(st, n), st.chains);
    }
  }

  ghost function AddEntries(st: State, steps: seq<HostsStep>): (t: State)
    requires Wf(st)
    ensures Wf(t)
    decreases |steps|
  {
    if steps == [] then st else AddEntries(HostsOne(st, steps[0]), steps[1..])
  }

  lemma HostsOneInv(st: State, s: HostsStep)
    requires Idle(st) && AllFree(st) && OneReverse(st)
    ensures var t := HostsOne(st, s); Idle(t) && AllFree(t) && OneReverse(t) && BigNames(t) == BigNames(st)
  {
    hide ChainsOrdered, PoolOk, FreeSuffix, FlagsOk, NoClash, CnamesOk, BigInPool, ChainOk, Distinct, PendingLocal;
    hide BigNames, AddHosts, Rehash;
    match s
    case Entry(e) =>
      if e.c !in st.recs { AddHostsInv(st, e.c, e.old_, e.name, e.addr, e.ipv4, e.index, e.addrDup); }
    case Enlarge(size, malloc) =>
      RehashIdle(st, size, malloc);
      RehashInv(st, size, malloc);
      RearrangedFree(st, Rehash(st, size, malloc));
  }

  lemma RearrangedFree(st: State, t: State)
    requires Wf(st) && Wf(t) && Rearranged(st, t) && AllFree(st) && OneReverse(st)
    ensures AllFree(t) && OneReverse(t)
  {
  }

  lemma {:induction false} AddEntriesInv(st: State, steps: seq<HostsStep>)
    requires Idle(st) && AllFree(st) && OneReverse(st)
    ensures var t := AddEntries(st, steps); Idle(t) && OneReverse(t) && BigNames(t) == BigNames(st)
    decreases |steps|
  {
    hide ChainsOrdered, PoolOk, FreeSuffix, FlagsOk, NoClash, CnamesOk, BigInPool, ChainOk, Distinct, Hashed;
    hide PendingLocal, BigNames, AllFree, OneReverse, HostsOne;
    if steps != [] {
      HostsOneInv(st, steps[0]);
      AddEntriesInv(HostsOne(st, steps[0]), steps[1..]);
    }
  }

  // cache_reload, and then reading the hosts files.
  lemma ReloadIdle(st: State, entries: seq<HostsStep>)
    requires Idle(st)
    ensures var t := AddEntries(Flush(st, 0), entries); Idle(t) && OneReverse(t) && BigNames(t) == BigNames(st)
  {
    FlushInvariant(st);
    hide ChainsOrdered, PoolOk, FreeSuffix, FlagsOk, NoClash, CnamesOk, BigInPool, BigNames, PendingLocal, ChainOk;
    hide Distinct, Hashed, Flush, AddEntries;
    AddEntriesInv(Flush(st, 0), entries);
  }

  ghost function Apply(st: State, op: Op): State
    requires Idle(st) && OpOk(op)
  {
    match op
    case LookupName(name, now, prot) => FindByName(st, name, now, prot).st
    case LookupAddr(addr, now, prot) => FindByAddr(st, addr, now, prot).st
    case Update(items, now, commit) => Transaction(st, items, now, commit)
    case Reload(entries) => AddEntries(Flush(st, 0), entries)
    case UnhashLeases => UnhashDhcp(st, 0)
    case AddLease(name, addr, ttd, c, old_, malloc) => if c in st.recs then st
        else AddDhcp(st, name, addr, ttd, c, old_, malloc).0
    case Grow(size, malloc) => Rehash(st, size, malloc)
  }

  lemma ApplyIdle(st: State, op: Op)
    requires Idle(st) && OpOk(op)
    ensures Idle(Apply(st, op)) && BigNames(Apply(st, op)) == BigNames(st)
  {
    hide Inv, PendingLocal, BigNames, FindByName, FindByAddr, Transaction, AddEntries, Flush, UnhashDhcp, AddDhcp;
    hide Rehash;
    match op
    case LookupName(name, now, prot) => FindByNameIdle(st, name, now, prot);
    case LookupAddr(addr, now, prot) => FindByAddrIdle(st, addr, now, prot);
    case Update(items, now, commit) => TransactionIdle(st, items, now, commit);
    case Reload(entries) => ReloadIdle(st, entries);
    case UnhashLeases => UnhashDhcpInv(st, 0);
    case AddLease(name, addr, ttd, c, old_, malloc) => if c !in st.recs { AddDhcpInv(st, name, addr, ttd, c, old_,
        malloc); }
    case Grow(size, malloc) => RehashIdle(st, size, malloc);
  }

  lemma RehashIdle(st: State, size: nat, malloc: bool)
    requires Idle(st)
    ensures Idle(Rehash(st, size, malloc)) && BigNames(Rehash(st, size, malloc)) == BigNames(st)
  {
    hide ChainsOrdered, PoolOk, FreeSuffix, FlagsOk, NoClash, CnamesOk, BigInPool, BigNames, PendingLocal, ChainOk;
    hide Distinct, Rehash;
    RehashInv(st, size, malloc);
    RearrangedQuiet(st, Rehash(st, size, malloc));
    QuietLocal(st, Rehash(st, size, malloc));
  }

  ghost function Run(st: State, ops: seq<Op>): State
    requires Idle(st) && forall i :: 0 <= i < |ops| ==> OpOk(ops[i])
    decreases |ops|
  {
    if ops == [] then st
    else
      ApplyIdle(st, ops[0]);
      Run(Apply(st, ops[0]), ops[1..])
  }

  // The state cache_init leaves: the records of the pool, all free, linked in turn at
  // the head of the LRU list and numbered in that order.
  ghost function Init(nodes: seq<Crec>, rec: Rec, hash: string -> nat): State
    requires Distinct(nodes)
  {
    State(map c | c in nodes :: rec.(flags := NO_FLAGS, uid := IndexOf(nodes, c)), Reverse(nodes), seq(TableSize(64,
        |nodes|), i => []), [],
          |nodes|, false, hash, 0, |nodes| / 10, map[], 0)
  }

  lemma InitWf(nodes: seq<Crec>, rec: Rec, hash: string -> nat)
    requires Distinct(nodes)
    ensures var st := Init(nodes, rec, hash);
      Wf(st) && (forall c :: c in st.recs ==> !Hashed(st, c)) && (forall c :: c in st.recs <==> c in st.lru)
  {
    ReverseMembers(nodes);
  }

  lemma InitIdle(nodes: seq<Crec>, rec: Rec, hash: string -> nat)
    requires Distinct(nodes)
    ensures Idle(Init(nodes, rec, hash)) && BigNames(Init(nodes, rec, hash)) == |nodes| / 10
  {
    var st := Init(nodes, rec, hash);
    InitWf(nodes, rec, hash);
    assert forall c :: c in st.recs ==> !InUse(st.recs[c]) && !st.recs[c].flags.bigname && Cached(st.recs[c]);
    assert BigHolders(st) == {};
    hide Wf, Reverse, Init, Distinct;
  }

  // Every reachable state satisfies the invariant, and no long name is ever lost.
  lemma {:induction false} RunIdle(st: State, ops: seq<Op>)
    requires Idle(st) && forall i :: 0 <= i < |ops| ==> OpOk(ops[i])
    ensures Idle(Run(st, ops)) && BigNames(Run(st, ops)) == BigNames(st)
    decreases |ops|
  {
    hide Inv, PendingLocal, BigNames, Apply, OpOk;
    if ops != [] {
      ApplyIdle(st, ops[0]);
      RunIdle(Apply(st, ops[0]), ops[1..]);
    }
  }

  lemma ReachableInv(nodes: seq<Crec>, rec: Rec, hash: string -> nat, ops: seq<Op>)
    requires Distinct(nodes) && forall i :: 0 <= i < |ops| ==> OpOk(ops[i])
    ensures Idle(Init(nodes, rec, hash))
    ensures var t := Run(Init(nodes, rec, hash), ops); Inv(t) && BigNames(t) == |nodes| / 10
  {
    InitIdle(nodes, rec, hash);
    RunIdle(Init(nodes, rec, hash), ops);
  }
}
