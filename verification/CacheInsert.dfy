// cache_start_insert, cache_insert and cache_end_insert: a transaction collects
// records on new_chain and commits all of them or none.
module CacheInsert {
  import opened HostNames
  import opened CacheState
  import opened CacheInvariant
  import opened CacheSweep

  const SMALLDNAME := 40

  datatype Refusal = EarlierError | HostsOrDhcp | NoEntries | TightLoop | NoLongName
  datatype InsertResult = Inserted(c: Crec) | Refused(why: Refusal)
  datatype Grab = Ready | Empty | Loop

  // ---------- finding a free record ----------

  // The loop that brings a free record to the tail of the LRU list: sweep the cache
  // once, then evict once. tries counts the passes.
  ghost function GrabTail(st: State, now: int, freedAll: bool, freeAvail: bool, tries: nat): (r: (State, Grab, nat))
    requires Wf(st)
    ensures Wf(r.0)
    decreases if freedAll then 0 else 1, if freeAvail then 0 else 1
  {
    if st.lru == [] then (st, Empty, tries + 1)
    else
      var c := st.lru[|st.lru| - 1];
      var r := st.recs[c];
      if InUse(r) then
        if freeAvail then (st, Loop, tries + 1)
        else if freedAll then GrabTail(ScanFree(st, r.name, r.addr, now, r.flags).0, now, true, true, tries + 1)
        else GrabTail(ScanFree(st, "", [], now, NO_FLAGS).0, now, true, freeAvail, tries + 1)
      else (st, Ready, tries + 1)
  }

  lemma ShrunkKeepsPendingNoClash(st: State, t: State)
    requires Wf(st) && Wf(t) && Shrunk(st, t) && PendingNoClash(st)
    requires forall c :: c in st.pending ==> !Hashed(st, c)
    ensures PendingNoClash(t)
  {
    forall h | h in t.recs && Fixed(t, h)
      ensures Fixed(st, h)
    {
    }
  }

  ghost predicate FreeTail(st: State) {
    st.lru != [] && st.lru[|st.lru| - 1] in st.recs && !InUse(st.recs[st.lru[|st.lru| - 1]])
  }

  ghost predicate GrabOk(st: State, r: (State, Grab, nat), limit: nat)
    requires Wf(st)
  {
    && Inv(r.0) && Shrunk(st, r.0) && BigNames(r.0) == BigNames(st)
    && r.1 != Loop && r.2 <= limit
    && (r.1 == Empty <==> st.lru == [])
    && (r.1 == Ready ==> FreeTail(r.0))
  }

  lemma GrabOkTransitive(st: State, t: State, r: (State, Grab, nat), limit: nat)
    requires Inv(st) && Inv(t) && Shrunk(st, t) && BigNames(t) == BigNames(st) && GrabOk(t, r, limit)
    ensures GrabOk(st, r, limit)
  {
    hide ChainsOrdered, PoolOk, FreeSuffix, FlagsOk, NoClash, CnamesOk, BigInPool, BigNames, Distinct, ChainOk;
    ShrunkTransitive(st, t, r.0);
    ShrunkLru(st, t);
  }

  lemma GrabAfterEviction(st: State, now: int, tries: nat)
    requires Inv(st) && (st.lru == [] || FreeTail(st))
    ensures GrabOk(st, GrabTail(st, now, true, true, tries), tries + 1)
  {
    hide ChainsOrdered, PoolOk, FreeSuffix, FlagsOk, NoClash, CnamesOk, BigInPool, BigNames, Distinct, ChainOk, Shrunk;
    ShrunkReflexive(st);
  }

  lemma GrabAfterSweep(st: State, now: int, tries: nat)
    requires Inv(st)
    ensures GrabOk(st, GrabTail(st, now, true, false, tries), tries + 2)
  {
    hide ChainsOrdered, PoolOk, FreeSuffix, FlagsOk, NoClash, CnamesOk, BigInPool, BigNames, Distinct, ChainOk;
    hide Shrunk, GrabOk, ScanFree, GrabTail;
    if st.lru == [] || !InUse(st.recs[st.lru[|st.lru| - 1]]) {
      GrabImmediate(st, now, true, false, tries);
    } else {
      var r := st.recs[st.lru[|st.lru| - 1]];
      var t := ScanFree(st, r.name, r.addr, now, r.flags).0;
      ScanFreeInv(st, r.name, r.addr, now, r.flags);
      EvictionFreesTail(st, now);
      GrabEvicts(st, now, tries);
      GrabAfterEviction(t, now, tries + 1);
      GrabOkTransitive(st, t, GrabTail(t, now, true, true, tries + 1), tries + 2);
    }
  }

  lemma GrabEvicts(st: State, now: int, tries: nat)
    requires Wf(st) && st.lru != [] && InUse(st.recs[st.lru[|st.lru| - 1]])
    ensures var r := st.recs[st.lru[|st.lru| - 1]];
      var t := ScanFree(st, r.name, r.addr, now, r.flags).0;
      Wf(t) && GrabTail(st, now, true, false, tries) == GrabTail(t, now, true, true, tries + 1)
  {
    hide Distinct, ChainOk, ScanFree;
  }

  lemma GrabImmediate(st: State, now: int, freedAll: bool, freeAvail: bool, tries: nat)
    requires Inv(st) && (st.lru == [] || !InUse(st.recs[st.lru[|st.lru| - 1]]))
    ensures forall limit: nat :: tries < limit ==> GrabOk(st, GrabTail(st, now, freedAll, freeAvail, tries), limit)
  {
    hide ChainsOrdered, PoolOk, FreeSuffix, FlagsOk, NoClash, CnamesOk, BigInPool, BigNames, Distinct, ChainOk, Shrunk;
    ShrunkReflexive(st);
  }

  // The eviction loop needs at most three passes, and never takes the way out that
  // guards against a tight loop; it fails only when there is no record to take.
  lemma GrabTailTerminates(st: State, now: int, freedAll: bool)
    requires Inv(st)
    ensures GrabOk(st, GrabTail(st, now, freedAll, false, 0), if freedAll then 2 else 3)
  {
    hide ChainsOrdered, PoolOk, FreeSuffix, FlagsOk, NoClash, CnamesOk, BigInPool, BigNames, Distinct, ChainOk;
    hide Shrunk, GrabOk, ScanFree;
    if freedAll {
      GrabAfterSweep(st, now, 0);
    } else if st.lru == [] || !InUse(st.recs[st.lru[|st.lru| - 1]]) {
      GrabImmediate(st, now, false, false, 0);
    } else {
      var t := ScanFree(st, "", [], now, NO_FLAGS).0;
      ScanFreeInv(st, "", [], now, NO_FLAGS);
      GrabAfterSweep(t, now, 1);
      GrabOkTransitive(st, t, GrabTail(t, now, true, false, 1), 3);
    }
  }

  lemma ShrunkLru(st: State, t: State)
    requires Wf(st) && Wf(t) && Shrunk(st, t)
    ensures st.lru == [] <==> t.lru == []
  {
    if st.lru != [] { assert st.lru[0] in t.lru; }
    if t.lru != [] { assert t.lru[0] in t.recs && t.lru[0] in st.lru; }
  }

  // ---------- cache_insert ----------

  predicate LongName(name: string) { |name| > SMALLDNAME - 1 }

  // Take the free tail record and put it on new_chain.
  ghost function Pend(st: State, rec: Rec): State
    requires st.lru != []
  {
    var c := st.lru[|st.lru| - 1];
    st.(lru := st.lru[..|st.lru| - 1], recs := st.recs[c := rec], pending := [c] + st.pending,
        born := st.born[c := st.clock], clock := st.clock + 1)
  }

  // Pay for a long name: from the free list first, else by allocating.
  ghost function TakeBigName(st: State): State
    requires st.bigFree > 0 || st.bigLeft > 0
  {
    if st.bigFree > 0 then st.(bigFree := st.bigFree - 1) else st.(bigLeft := st.bigLeft - 1)
  }

  ghost function NewRec(old_: Rec, name: string, addr: Addr, now: int, ttl: nat, flags: Flags): Rec {
    Rec(flags.(bigname := LongName(name)), name, addr, now + ttl, old_.uid, null, 0)
  }

  // Fill in the free record at the tail, with room for a long name if needed.
  // malloc says whether allocating another long name would succeed.
  ghost function Place(st: State, name: string, addr: Addr, now: int, ttl: nat, flags: Flags, malloc: bool): (State,
                       InsertResult)
    requires Wf(st) && st.lru != []
  {
    if LongName(name) && st.bigFree == 0 && (st.bigLeft == 0 || !malloc) then
      (st.(insertError := true), Refused(NoLongName))
    else
      var s := if LongName(name) then TakeBigName(st) else st;
      var c := s.lru[|s.lru| - 1];
      (Pend(s, NewRec(s.recs[c], name, addr, now, ttl, flags)), Inserted(c))
  }

  ghost function Insert(st: State, name: string, addr: Addr, now: int, ttl: nat, flags: Flags,
                        malloc: bool): (r: (State, InsertResult))
    requires Wf(st)
  {
    if st.insertError then (st, Refused(EarlierError))
    else
      var (s1, ok) := ScanFree(st, name, addr, now, flags);
      if !ok then (s1.(insertError := true), Refused(HostsOrDhcp))
      else
        var (s2, g, _) := GrabTail(s1, now, flags.reverse, false, 0);
        if g == Loop then (s2.(insertError := true), Refused(TightLoop))
        else if g == Empty || s2.lru == [] then (s2.(insertError := true), Refused(NoEntries))
        else Place(s2, name, addr, now, ttl, flags, malloc)
  }

  // ---------- a transaction's steps keep the invariant ----------

  // Everything Pend changes.
  ghost predicate Pended(st: State, t: State, c: Crec, rec: Rec)
    requires Wf(st) && Wf(t)
  {
    && c in st.lru && !InUse(st.recs[c]) && !Hashed(st, c)
    && t.recs == st.recs[c := rec] && t.chains == st.chains && t.hash == st.hash
    && t.lru == st.lru[..|st.lru| - 1] && t.pending == [c] + st.pending && c !in st.pending
    && (forall x :: x in st.recs ==> (x in t.lru <==> x in st.lru && x != c))
    && (forall x :: x in st.recs ==> (Hashed(t, x) <==> Hashed(st, x)))
    && (forall b, x :: 0 <= b < |st.chains| && x in st.chains[b] ==> x != c)
    && t.born == st.born[c := st.clock] && t.clock == st.clock + 1 && t.uid == st.uid
    && t.bigFree == st.bigFree && t.bigLeft == st.bigLeft
  }

  lemma PendIsPended(st: State, rec: Rec)
    requires Wf(st) && PoolOk(st) && FreeTail(st) && Cached(rec)
    ensures Wf(Pend(st, rec)) && Pended(st, Pend(st, rec), st.lru[|st.lru| - 1], rec)
  {
    hide Distinct;
    TailUnchained(st);
    var t, c := Pend(st, rec), st.lru[|st.lru| - 1];
    assert st.lru == t.lru + [c];
    assert Distinct(t.lru) && c !in t.lru && Distinct(t.pending) by { TailDistinct(st, c); }
    forall b | 0 <= b < |st.chains|
      ensures ChainOk(t, b)
    {
      assert ChainOk(st, b);
    }
  }

  lemma TailDistinct(st: State, c: Crec)
    requires Wf(st) && st.lru != [] && c == st.lru[|st.lru| - 1]
    ensures Distinct(st.lru[..|st.lru| - 1]) && c !in st.lru[..|st.lru| - 1] && Distinct([c] + st.pending)
  {
    assert c in st.lru && c !in st.pending;
  }

  // The free record at the tail is in no chain.
  lemma TailUnchained(st: State)
    requires Wf(st) && PoolOk(st) && FreeTail(st)
    ensures var c := st.lru[|st.lru| - 1];
      c in st.lru && c in st.recs && !Hashed(st, c) && forall b :: 0 <= b < |st.chains| ==> c !in st.chains[b]
  {
    var c := st.lru[|st.lru| - 1];
    forall b | 0 <= b < |st.chains|
      ensures c !in st.chains[b]
    {
      assert ChainOk(st, b);
    }
  }

  lemma PendedChains(st: State, t: State, c: Crec, rec: Rec)
    requires Wf(st) && Wf(t) && Pended(st, t, c, rec) && ChainsOrdered(st)
    ensures ChainsOrdered(t)
  {
    forall b | 0 <= b < |t.chains|
      ensures Ordered(t.recs, t.chains[b])
    {
      assert c !in st.chains[b];
      OrderedFrame(st.recs, t.recs, st.chains[b], c);
    }
  }

  lemma PendedPool(st: State, t: State, c: Crec, rec: Rec)
    requires Wf(st) && Wf(t) && Pended(st, t, c, rec) && PoolOk(st) && FreeSuffix(st.recs, st.lru) && rec.uid < st.uid
    ensures PoolOk(t) && FreeSuffix(t.recs, t.lru)
  {
  }

  lemma PendedFlags(st: State, t: State, c: Crec, rec: Rec)
    requires Wf(st) && Wf(t) && Pended(st, t, c, rec) && FlagsOk(st) && NoClash(st)
    requires InsertFlags(rec.flags.(bigname := false))
    ensures FlagsOk(t) && NoClash(t)
  {
    forall h | h in t.recs && Fixed(t, h)
      ensures Fixed(st, h)
    {
    }
  }

  lemma PendedPointer(st: State, t: State, c: Crec, rec: Rec, x: Crec)
    requires Wf(st) && Wf(t) && Pended(st, t, c, rec) && rec.target == null && rec.uid == st.recs[c].uid
    requires x in st.recs && x != c && st.recs[x].flags.cname && CnamePointer(st, x)
    requires !Outdated(st.recs, st.recs[x]) ==> st.recs[x].target != c
    ensures CnamePointer(t, x) && (Outdated(t.recs, t.recs[x]) <==> Outdated(st.recs, st.recs[x]))
  {
  }

  lemma PendedCnames(st: State, t: State, c: Crec, rec: Rec)
    requires Wf(st) && Wf(t) && Pended(st, t, c, rec) && rec.target == null && rec.uid == st.recs[c].uid
    requires PoolOk(st) && CommittedCnames(st) && PendingCnames(st)
    ensures CommittedCnames(t) && PendingCnames(t)
  {
    forall x | x in t.lru && t.recs[x].flags.forward && t.recs[x].flags.cname
      ensures CnamePointer(t, x) && (!Outdated(t.recs, t.recs[x]) ==> Hashed(t, t.recs[x].target))
    {
      PendedPointer(st, t, c, rec, x);
    }
    forall x | x in t.pending && t.recs[x].flags.cname
      ensures CnamePointer(t, x)
      ensures (!Outdated(t.recs, t.recs[x]) ==> t.recs[x].target in t.pending || Hashed(t, t.recs[x].target))
    {
      if x != c { PendedPointer(st, t, c, rec, x); }
    }
  }

  lemma PendedBorn(st: State, t: State, c: Crec, rec: Rec)
    requires Wf(st) && Wf(t) && Pended(st, t, c, rec) && BornOk(st)
    ensures BornOk(t)
  {
  }

  // No hosts or DHCP record holds the name in this family.
  ghost predicate NameFree(st: State, name: string, flags: Flags)
    requires Wf(st)
  {
    forall h :: h in st.recs && Fixed(st, h) ==>
      !(NameEq(name, st.recs[h].name) && (flags.SameFamily(st.recs[h].flags) || flags.cname || st.recs[h].flags.cname))
  }

  lemma NameFreeBigname(st: State, name: string, flags: Flags, big: bool)
    requires Wf(st) && NameFree(st, name, flags)
    ensures NameFree(st, name, flags.(bigname := big))
  {
  }

  // The records of a transaction do not clash with hosts or DHCP records either.
  ghost predicate TxnInv(st: State) {
    Inv(st) && PendingNoClash(st)
  }

  lemma PendedClash(st: State, t: State, c: Crec, rec: Rec)
    requires Wf(st) && Wf(t) && Pended(st, t, c, rec) && PendingNoClash(st)
    requires rec.flags.forward ==> NameFree(st, rec.name, rec.flags)
    ensures PendingNoClash(t)
  {
    forall h | h in t.recs && Fixed(t, h)
      ensures Fixed(st, h)
    {
    }
  }

  lemma PendedBig(st: State, t: State, c: Crec, rec: Rec)
    requires Wf(st) && Wf(t) && Pended(st, t, c, rec) && BigInPool(st) && !st.recs[c].flags.bigname
    ensures BigInPool(t) && BigNames(t) == BigNames(st) + (if rec.flags.bigname then 1 else 0)
  {
    hide Hashed, Distinct, ChainOk;
    if rec.flags.bigname {
      assert BigHolders(t) == BigHolders(st) + {c};
    } else {
      assert BigHolders(t) == BigHolders(st);
    }
  }

  lemma PendInv(st: State, rec: Rec)
    requires TxnInv(st) && FreeTail(st)
    requires rec.target == null && rec.uid == st.recs[st.lru[|st.lru| - 1]].uid
    requires InsertFlags(rec.flags.(bigname := false))
    requires rec.flags.forward ==> NameFree(st, rec.name, rec.flags)
    ensures TxnInv(Pend(st, rec))
    ensures BigNames(Pend(st, rec)) == BigNames(st) + if rec.flags.bigname then 1 else 0
  {
    PendIsPended(st, rec);
    var t, c := Pend(st, rec), st.lru[|st.lru| - 1];
    assert c in st.lru;
    PendedChains(st, t, c, rec);
    PendedPool(st, t, c, rec);
    PendedFlags(st, t, c, rec);
    PendedCnames(st, t, c, rec);
    PendedBorn(st, t, c, rec);
    PendedClash(st, t, c, rec);
    PendedBig(st, t, c, rec);
  }

  // The long-name accounts and the error flag take no part in the rest of the invariant.
  ghost predicate SameTables(st: State, t: State) {
    t == st.(bigFree := t.bigFree, bigLeft := t.bigLeft, insertError := t.insertError)
  }

  lemma FrameWf(st: State, t: State)
    requires Wf(st) && SameTables(st, t)
    ensures Wf(t)
    ensures forall x :: x in st.recs ==> (Hashed(t, x) <==> Hashed(st, x))
  {
    forall b | 0 <= b < |t.chains|
      ensures ChainOk(t, b)
    {
      assert ChainOk(st, b);
    }
  }

  lemma FramePool(st: State, t: State)
    requires Wf(st) && Wf(t) && SameTables(st, t) && PoolOk(st) && FlagsOk(st)
    requires forall x :: x in st.recs ==> (Hashed(t, x) <==> Hashed(st, x))
    ensures PoolOk(t) && FlagsOk(t)
  {
  }

  lemma FrameClash(st: State, t: State)
    requires Wf(st) && Wf(t) && SameTables(st, t) && NoClash(st) && PendingNoClash(st)
    requires forall x :: x in st.recs ==> (Hashed(t, x) <==> Hashed(st, x))
    ensures NoClash(t) && PendingNoClash(t)
    ensures forall h :: h in st.recs ==> (Fixed(t, h) <==> Fixed(st, h))
  {
  }

  lemma FrameCnames(st: State, t: State)
    requires Wf(st) && Wf(t) && SameTables(st, t) && CnamesOk(st)
    requires forall x :: x in st.recs ==> (Hashed(t, x) <==> Hashed(st, x))
    ensures CnamesOk(t)
  {
    assert forall x :: x in st.recs && CnamePointer(st, x) ==> CnamePointer(t, x);
  }

  lemma FrameTxn(st: State, t: State)
    requires TxnInv(st) && SameTables(st, t)
    ensures TxnInv(t) && BigNames(t) == BigNames(st) - st.bigFree - st.bigLeft + t.bigFree + t.bigLeft
    ensures forall name, flags :: NameFree(st, name, flags) ==> NameFree(t, name, flags)
  {
    FrameWf(st, t);
    FramePool(st, t);
    FrameClash(st, t);
    FrameCnames(st, t);
    assert BigHolders(t) == BigHolders(st);
  }

  lemma NoBlocksNoClash(st: State, t: State, name: string, now: int, flags: Flags)
    requires Inv(st) && Wf(t) && Shrunk(ScanForward(st, Bucket(st, name), 0, name, now, flags).0, t)
    requires ScanForward(st, Bucket(st, name), 0, name, now, flags).1
    ensures NameFree(t, name, flags)
  {
    var b := Bucket(st, name);
    var s1 := ScanForward(st, b, 0, name, now, flags).0;
    ScanForwardInv(st, b, 0, name, now, flags);
    ScanForwardResult(st, 0, name, now, flags);
    forall h | h in t.recs && Fixed(t, h) && NameEq(t.recs[h].name, name)
      ensures !(flags.SameFamily(t.recs[h].flags) || flags.cname || t.recs[h].flags.cname)
    {
      assert Hashed(s1, h) && s1.recs[h] == t.recs[h];
      assert h in s1.chains[b];
      var k :| 0 <= k < |s1.chains[b]| && s1.chains[b][k] == h;
      assert !Supersedes(s1.recs[h], name, flags);
    }
  }

  ghost predicate PendingUnhashed(st: State)
    requires Wf(st)
  {
    forall c :: c in st.pending ==> !Hashed(st, c)
  }

  lemma PendingNotHashed(st: State)
    requires Wf(st)
    ensures PendingUnhashed(st)
  {
    forall c | c in st.pending
      ensures !Hashed(st, c)
    {
      assert ChainOk(st, Bucket(st, st.recs[c].name));
    }
  }

  lemma ShrunkPending(st: State, t: State)
    requires Wf(st) && Wf(t) && Shrunk(st, t)
    ensures t.pending == st.pending && t.insertError == st.insertError
  {
  }

  lemma InsertedRec(st: State, rec: Rec)
    requires Wf(st) && st.lru != []
    ensures var t := Pend(st, rec); var c := st.lru[|st.lru| - 1];
            && t.pending == [c] + st.pending && c in t.recs && t.recs[c] == rec && c !in st.pending
            && t.insertError == st.insertError
  {
    assert st.lru[|st.lru| - 1] in st.lru;
  }

  ghost predicate InsertOk(st: State, t: State, r: InsertResult, name: string, addr: Addr, now: int, ttl: nat,
                           flags: Flags) {
    && TxnInv(t) && Wf(st) && BigNames(t) == BigNames(st)
    && r != Refused(TightLoop)
    && (r.Refused? <==> t.insertError)
    && (r.Refused? ==> t.pending == st.pending)
    && (r.Inserted? ==>
          && t.pending == [r.c] + st.pending && r.c in t.recs && r.c !in st.pending
          && t.recs[r.c] == NewRec(t.recs[r.c], name, addr, now, ttl, flags))
    && (!st.insertError && flags.forward ==> (r == Refused(HostsOrDhcp) <==> SomeBlocks(st, name, now, flags)))
    && (r == Refused(NoEntries) ==> st.lru == [])
  }

  lemma TakeIsSameTables(st: State, name: string)
    requires LongName(name) ==> st.bigFree > 0 || st.bigLeft > 0
    ensures SameTables(st, if LongName(name) then TakeBigName(st) else st)
  {
  }

  lemma ErrorIsSameTables(st: State)
    ensures SameTables(st, st.(insertError := true))
  {
  }

  lemma PlaceInv(st: State, name: string, addr: Addr, now: int, ttl: nat, flags: Flags, malloc: bool)
    requires TxnInv(st) && InsertFlags(flags) && FreeTail(st) && !st.insertError
    requires flags.forward ==> NameFree(st, name, flags)
    ensures var (t, r) := Place(st, name, addr, now, ttl, flags, malloc);
            && TxnInv(t) && BigNames(t) == BigNames(st)
            && (r.Refused? ==> r == Refused(NoLongName) && t.insertError && t.pending == st.pending)
            && (r.Inserted? ==> !t.insertError && t.pending == [r.c] + st.pending && r.c in t.recs && r.c !in st.pending
                                && t.recs[r.c] == NewRec(t.recs[r.c], name, addr, now, ttl, flags))
  {
    hide ChainsOrdered, PoolOk, FreeSuffix, FlagsOk, NoClash, CnamesOk, BigInPool, BigNames, PendingNoClash, Wf;
    hide Pend, NameFree, BigHolders, SameTables;
    if LongName(name) && st.bigFree == 0 && (st.bigLeft == 0 || !malloc) {
      assert SameTables(st, st.(insertError := true)) by { ErrorIsSameTables(st); }
      FrameTxn(st, st.(insertError := true));
    } else {
      var s := if LongName(name) then TakeBigName(st) else st;
      assert SameTables(st, s) by { TakeIsSameTables(st, name); }
      FrameTxn(st, s);
      PlacePend(s, name, addr, now, ttl, flags);
    }
  }

  lemma PlacePend(st: State, name: string, addr: Addr, now: int, ttl: nat, flags: Flags)
    requires TxnInv(st) && InsertFlags(flags) && FreeTail(st)
    requires flags.forward ==> NameFree(st, name, flags)
    ensures var c := st.lru[|st.lru| - 1]; var rec := NewRec(st.recs[c], name, addr, now, ttl, flags);
        var t := Pend(st, rec);
            && TxnInv(t) && BigNames(t) == BigNames(st) + (if LongName(name) then 1 else 0)
            && t.insertError == st.insertError && t.pending == [c] + st.pending && c in t.recs && c !in st.pending &&
                t.recs[c] == rec
  {
    hide ChainsOrdered, PoolOk, FreeSuffix, FlagsOk, NoClash, CnamesOk, BigInPool, BigNames, PendingNoClash, Pend;
    hide NameFree, BigHolders, Distinct, ChainOk;
    var rec := NewRec(st.recs[st.lru[|st.lru| - 1]], name, addr, now, ttl, flags);
    if flags.forward { NameFreeBigname(st, name, flags, rec.flags.bigname); }
    PendInv(st, rec);
    InsertedRec(st, rec);
  }

  // The part of cache_insert after the scan for the name has succeeded.
  lemma InsertAfterScan(st: State, name: string, addr: Addr, now: int, ttl: nat, flags: Flags, malloc: bool)
    requires TxnInv(st) && InsertFlags(flags) && !st.insertError
    requires ScanFree(st, name, addr, now, flags).1
    requires flags.forward ==> !SomeBlocks(st, name, now, flags)
    ensures var (t, r) := Insert(st, name, addr, now, ttl, flags, malloc);
        InsertOk(st, t, r, name, addr, now, ttl, flags)
  {
    hide ChainsOrdered, PoolOk, FreeSuffix, FlagsOk, NoClash, CnamesOk, BigInPool, BigNames, PendingNoClash;
    hide Distinct, ChainOk, Shrunk, GrabTail, Place, SomeBlocks, NameFree;
    var s1 := ScanFree(st, name, addr, now, flags).0;
    ScanFreeInv(st, name, addr, now, flags);
    var (s2, g, n) := GrabTail(s1, now, flags.reverse, false, 0);
    GrabTailTerminates(s1, now, flags.reverse);
    PendingNotHashed(s1);
    ShrunkKeepsPendingNoClash(s1, s2);
    ShrunkPending(st, s1);
    ShrunkPending(s1, s2);
    ShrunkLru(st, s1);
    if g == Empty {
      FrameTxn(s2, s2.(insertError := true));
    } else {
      if flags.forward {
        NoBlocksNoClash(st, s2, name, now, flags);
      }
      PlaceInv(s2, name, addr, now, ttl, flags, malloc);
    }
  }

  // cache_insert on a state inside a transaction: either the new record heads
  // new_chain with the given contents, or nothing is pending that was not before and
  // insert_error is set. It never reports a tight loop, and refuses for a hosts or
  // DHCP record exactly when a live one holds the name.
  lemma InsertInv(st: State, name: string, addr: Addr, now: int, ttl: nat, flags: Flags, malloc: bool)
    requires TxnInv(st) && InsertFlags(flags)
    ensures var (t, r) := Insert(st, name, addr, now, ttl, flags, malloc);
        InsertOk(st, t, r, name, addr, now, ttl, flags)
  {
    hide ChainsOrdered, PoolOk, FreeSuffix, FlagsOk, NoClash, CnamesOk, BigInPool, BigNames, PendingNoClash;
    hide Distinct, ChainOk, Shrunk, GrabTail, Place, SomeBlocks;
    if !st.insertError {
      var (s1, ok) := ScanFree(st, name, addr, now, flags);
      if flags.forward {
        ScanForwardResult(st, 0, name, now, flags);
      }
      if ok {
        InsertAfterScan(st, name, addr, now, ttl, flags, malloc);
      } else {
        ScanFreeInv(st, name, addr, now, flags);
        ShrunkPending(st, s1);
        FrameTxn(s1, s1.(insertError := true));
      }
    }
  }
}
