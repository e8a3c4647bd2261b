// What a transaction stores: its records hold what was inserted, and lookups find it after
// the commit, and nothing else that was not there before.
module CacheStored {
  import opened HostNames
  import opened CacheState
  import opened CacheInvariant
  import opened CacheSweep
  import opened CacheInsert
  import opened CacheCommit
  import opened CacheLookupTheorems
  import opened CacheByAddr
  import opened CacheFixed
  import opened CacheRun

  // The record holds what was given to cache_insert.
  predicate Holds(r: Rec, it: Item, now: int) {
    && r.name == it.name && r.addr == it.addr && r.ttd == now + it.ttl
    && r.flags.(bigname := it.flags.bigname) == it.flags
  }

  // Nothing is newly hashed, hashed records stay as they are, and so do pending ones.
  ghost predicate Keeps(st: State, t: State)
    requires Wf(st) && Wf(t)
  {
    && t.recs.Keys == st.recs.Keys
    && (forall x :: x in st.recs && Hashed(t, x) ==> Hashed(st, x) && t.recs[x] == st.recs[x])
    && (forall x :: x in st.pending ==> x in st.recs && t.recs[x] == st.recs[x])
  }

  lemma ShrunkKeeps(st: State, t: State)
    requires Wf(st) && Wf(t) && Shrunk(st, t)
    ensures Keeps(st, t) && t.pending == st.pending
  {
    hide Distinct, ChainOk;
    PendingNotHashed(st);
  }

  lemma KeepsTransitive(s: State, t: State, u: State)
    requires Wf(s) && Wf(t) && Wf(u) && Keeps(s, t) && Keeps(t, u) && t.pending == s.pending
    ensures Keeps(s, u)
  {
    hide Distinct, ChainOk, Hashed;
  }

  // ---------- one insertion ----------

  lemma PlaceKeeps(st: State, it: Item, now: int)
    requires TxnInv(st) && FreeTail(st) && InsertFlags(it.flags)
    ensures var (t, r) := Place(st, it.name, it.addr, now, it.ttl, it.flags, it.malloc);
      && Wf(t) && Keeps(st, t)
      && (r.Inserted? ==> r.c in t.recs && Holds(t.recs[r.c], it, now) && t.recs[r.c].target == null)
  {
    hide ChainsOrdered, PoolOk, FreeSuffix, FlagsOk, NoClash, CnamesOk, BigInPool, PendingNoClash;
    hide Wf, BigHolders, BigNames, Pend, SameTables, Keeps, Pended;
    if LongName(it.name) && st.bigFree == 0 && (st.bigLeft == 0 || !it.malloc) {
      var t := st.(insertError := true);
      ErrorIsSameTables(st);
      FrameTxn(st, t);
      SameTablesKeeps(st, t);
    } else {
      var s := if LongName(it.name) then TakeBigName(st) else st;
      TakeIsSameTables(st, it.name);
      FrameTxn(st, s);
      SameTablesKeeps(st, s);
      var c := s.lru[|s.lru| - 1];
      var rec := NewRec(s.recs[c], it.name, it.addr, now, it.ttl, it.flags);
      PendIsPended(s, rec);
      PendedKeeps(s, Pend(s, rec), c, rec);
      KeepsTransitive(st, s, Pend(s, rec));
    }
  }

  lemma SameTablesKeeps(st: State, t: State)
    requires Wf(st) && Wf(t) && SameTables(st, t)
    ensures Keeps(st, t) && t.pending == st.pending
  {
    hide Distinct, ChainOk;
  }

  lemma PendedKeeps(st: State, t: State, c: Crec, rec: Rec)
    requires Wf(st) && Wf(t) && Pended(st, t, c, rec)
    ensures Keeps(st, t) && c in t.recs && t.recs[c] == rec
  {
    hide Distinct, ChainOk, Hashed;
  }

  lemma InsertKeeps(st: State, it: Item, now: int)
    requires TxnInv(st) && InsertFlags(it.flags)
    ensures var (t, r) := Insert(st, it.name, it.addr, now, it.ttl, it.flags, it.malloc);
      && InsertOk(st, t, r, it.name, it.addr, now, it.ttl, it.flags)
      && Keeps(st, t) && (st.insertError ==> t == st && r.Refused?)
      && (r.Inserted? ==> Holds(t.recs[r.c], it, now) && t.recs[r.c].target == null)
  {
    hide ChainsOrdered, PoolOk, FreeSuffix, FlagsOk, NoClash, CnamesOk, BigInPool, BigNames, BigHolders;
    hide PendingNoClash, ChainOk, Distinct, Hashed, ScanFree, GrabTail, Place, Shrunk, Keeps, InsertOk;
    InsertInv(st, it.name, it.addr, now, it.ttl, it.flags, it.malloc);
    InsertedIn(st, it, now);
    if st.insertError {
      SameTablesKeeps(st, st) by { ErrorSame(st); }
    } else {
      var (s1, ok) := ScanFree(st, it.name, it.addr, now, it.flags);
      ScanFreeInv(st, it.name, it.addr, now, it.flags);
      ShrunkKeeps(st, s1);
      PendingNotHashed(st);
      if !ok {
        ErrorKeeps(st, s1);
      } else {
        var (s2, g, n) := GrabTail(s1, now, it.flags.reverse, false, 0);
        GrabTailTerminates(s1, now, it.flags.reverse);
        PendingNotHashed(s1);
        ShrunkKeepsPendingNoClash(s1, s2);
        ShrunkKeeps(s1, s2);
        KeepsTransitive(st, s1, s2);
        ShrunkLru(s1, s2);
        if g == Empty {
          ErrorKeeps(st, s2);
        } else {
          PlaceKeeps(s2, it, now);
          KeepsTransitive(st, s2, Place(s2, it.name, it.addr, now, it.ttl, it.flags, it.malloc).0);
        }
      }
    }
  }

  lemma ErrorSame(st: State)
    requires st.insertError
    ensures SameTables(st, st)
  {
  }

  lemma ErrorKeeps(st: State, t: State)
    requires Wf(st) && Wf(t) && Keeps(st, t) && t.pending == st.pending
    ensures Wf(t.(insertError := true)) && Keeps(st, t.(insertError := true))
  {
    hide Distinct, ChainOk, Keeps;
    ErrorIsSameTables(t);
    FrameWf(t, t.(insertError := true));
    SameTablesKeeps(t, t.(insertError := true));
    KeepsTransitive(st, t, t.(insertError := true));
  }

  lemma InsertedIn(st: State, it: Item, now: int)
    requires Wf(st)
    requires var (t, r) := Insert(st, it.name, it.addr, now, it.ttl, it.flags, it.malloc);
      InsertOk(st, t, r, it.name, it.addr, now, it.ttl, it.flags)
    ensures var (t, r) := Insert(st, it.name, it.addr, now, it.ttl, it.flags, it.malloc);
      Wf(t) && (r.Inserted? ==> r.c in t.recs)
  {
    hide Insert, Distinct, ChainOk;
  }

  // ---------- a whole transaction ----------

  predicate ItemsOk(items: seq<Item>) {
    forall i :: 0 <= i < |items| ==> InsertFlags(items[i].flags)
  }

  // The record of item k of n, all inserted without an error.
  function RecordOf(t: State, n: nat, k: nat): Crec
    requires k < n <= |t.pending|
  {
    t.pending[n - 1 - k]
  }

  // The CNAME is linked to the record.
  predicate PointsAt(recs: map<Crec, Rec>, c: Crec, d: Crec)
    requires c in recs && d in recs
  {
    recs[c].target == d && recs[c].targetUid == recs[d].uid
  }

  // Item k is a CNAME, and the next one was inserted for the same question.
  predicate Links(items: seq<Item>, k: nat) {
    k + 1 < |items| && items[k].flags.cname && !items[k + 1].first
  }

  ghost predicate InRecs(t: State) {
    forall x :: x in t.pending ==> x in t.recs
  }

  // What the items have put in front of new_chain.
  ghost predicate Stacked(st: State, t: State, items: seq<Item>, now: int) {
    && |t.pending| == |items| + |st.pending| && t.pending[|items|..] == st.pending && InRecs(t)
    && (forall k: nat :: k < |items| ==> StoredAt(t, items, now, k))
  }

  // Item k is in its record, and linked to the next one if it is a CNAME for it.
  ghost predicate StoredAt(t: State, items: seq<Item>, now: int, k: nat)
    requires k < |items| <= |t.pending| && InRecs(t)
  {
    var c := RecordOf(t, |items|, k);
    && Holds(t.recs[c], items[k], now)
    && (if Links(items, k) then PointsAt(t.recs, c, RecordOf(t, |items|, k + 1)) else t.recs[c].target == null)
  }

  // The other pending records: only the CNAME that waits for its target gets one.
  ghost predicate Waits(st: State, t: State, items: seq<Item>, cpp: Crec?) {
    && InRecs(st) && InRecs(t) && |items| <= |t.pending|
    && (forall x :: x in st.pending && x != cpp ==> x in t.recs && t.recs[x] == st.recs[x])
    && (cpp != null ==>
          && cpp in st.pending && cpp in t.recs
          && (if items != [] && !items[0].first then
                && PointsAt(t.recs, cpp, RecordOf(t, |items|, 0))
                && t.recs[cpp] == st.recs[cpp].(target := t.recs[cpp].target, targetUid := t.recs[cpp].targetUid)
              else t.recs[cpp] == st.recs[cpp]))
  }

  // Hashed records are those of before.
  ghost predicate NoneNew(st: State, t: State)
    requires Wf(st) && Wf(t)
  {
    && t.recs.Keys == st.recs.Keys
    && (forall x :: x in st.recs && Hashed(t, x) ==> Hashed(st, x) && t.recs[x] == st.recs[x])
  }

  // The new record, before the CNAME that waits is linked to it.
  ghost predicate Fresh(st: State, s: State, c: Crec, it: Item, now: int)
    requires Wf(st) && Wf(s)
  {
    && s.pending == [c] + st.pending && c in s.recs && c !in st.pending
    && NoneNew(st, s) && InRecs(st) && (forall x :: x in st.pending ==> s.recs[x] == st.recs[x])
    && Holds(s.recs[c], it, now) && s.recs[c].target == null
  }

  lemma InsertFresh(st: State, it: Item, now: int)
    requires TxnInv(st) && InsertFlags(it.flags)
    ensures var (s, r) := Insert(st, it.name, it.addr, now, it.ttl, it.flags, it.malloc);
      && TxnInv(s) && NoneNew(st, s) && (r.Refused? <==> s.insertError) && (st.insertError ==> s.insertError)
      && (r.Inserted? ==> Fresh(st, s, r.c, it, now))
  {
    hide TxnInv, Insert, Wf, Hashed, Holds;
    InsertKeeps(st, it, now);
  }

  lemma FreshStacks(st: State, s: State, c: Crec, it: Item, now: int)
    requires Wf(st) && Wf(s) && Fresh(st, s, c, it, now)
    ensures Stacked(st, s, [it], now) && Waits(st, s, [it], null) && s.pending[0] == c
  {
    hide Wf, Hashed, Holds;
    assert ([c] + st.pending)[1..] == st.pending;
  }

  lemma LinkStacks(st: State, s: State, c: Crec, it: Item, now: int, cpp: Crec)
    requires Wf(st) && Wf(s) && Fresh(st, s, c, it, now) && cpp in st.pending && !it.first
    requires Wf(LinkCname(s, cpp, c)) && Linked(s, LinkCname(s, cpp, c), cpp, c)
    ensures var t := LinkCname(s, cpp, c);
      Stacked(st, t, [it], now) && Waits(st, t, [it], cpp) && t.pending[0] == c && NoneNew(st, t)
  {
    hide Wf, Hashed, Holds;
    assert ([c] + st.pending)[1..] == st.pending;
  }

  // One item.
  lemma ItemStored(st: State, it: Item, now: int, cpp: Crec?)
    requires TxnInv(st) && PendingLocal(st) && InsertFlags(it.flags) && (cpp != null ==> cpp in st.pending)
    ensures var (t, cpp') := InsertItem(st, it, now, Waiting(it, cpp));
      && Wf(t) && NoneNew(st, t) && (st.insertError ==> t.insertError)
      && (!t.insertError ==>
            && Stacked(st, t, [it], now) && Waits(st, t, [it], cpp)
            && cpp' == (if it.flags.cname then t.pending[0] else null))
  {
    hide ChainsOrdered, PoolOk, FreeSuffix, FlagsOk, NoClash, CnamesOk, BigInPool, PendingNoClash, Wf;
    hide PendingLocal, BigNames, Insert, Stacked, Waits, Fresh, NoneNew, Linked, LinkCname;
    InsertFresh(st, it, now);
    InsertItemOk(st, it, now, Waiting(it, cpp));
    var (s, r) := Insert(st, it.name, it.addr, now, it.ttl, it.flags, it.malloc);
    if r.Inserted? {
      FreshStacks(st, s, r.c, it, now);
      if Waiting(it, cpp) == null {
        NotWaiting(st, s, it, cpp);
      } else {
        FreshPending(st, s, r.c, it, now, cpp);
        LinkIsLinked(s, cpp, r.c);
        LinkStacks(st, s, r.c, it, now, cpp);
        LinkError(s, cpp, r.c);
      }
    }
  }

  lemma NotWaiting(st: State, s: State, it: Item, cpp: Crec?)
    requires Waits(st, s, [it], null) && Waiting(it, cpp) == null && (cpp != null ==> cpp in st.pending)
    ensures Waits(st, s, [it], cpp)
  {
  }

  lemma FreshPending(st: State, s: State, c: Crec, it: Item, now: int, cpp: Crec)
    requires Wf(st) && Wf(s) && Fresh(st, s, c, it, now) && cpp in st.pending
    ensures cpp in s.pending && cpp in s.recs && c in s.recs
  {
    hide Wf, Hashed, Holds;
  }

  lemma LinkError(s: State, cpp: Crec, c: Crec)
    requires cpp in s.recs && c in s.recs
    ensures LinkCname(s, cpp, c).insertError == s.insertError
  {
  }

  lemma ErrorStays(st: State, items: seq<Item>, now: int, cpp: Crec?)
    requires TxnInv(st) && PendingLocal(st) && (cpp != null ==> cpp in st.pending) && ItemsOk(items)
    ensures var t := InsertAll(st, items, now, cpp); Wf(t) && NoneNew(st, t) && (st.insertError ==> t.insertError)
    decreases |items|
  {
    hide ChainsOrdered, PoolOk, FreeSuffix, FlagsOk, NoClash, CnamesOk, BigInPool, PendingNoClash, Wf;
    hide PendingLocal, BigNames, InsertItem, Stacked, Waits, Hashed;
    if items != [] {
      ItemStored(st, items[0], now, cpp);
      InsertItemOk(st, items[0], now, Waiting(items[0], cpp));
      var (t, cpp') := InsertItem(st, items[0], now, Waiting(items[0], cpp));
      ErrorStays(t, items[1..], now, cpp');
    }
  }

  lemma {:induction false} AllStored(st: State, items: seq<Item>, now: int, cpp: Crec?)
    requires TxnInv(st) && PendingLocal(st) && (cpp != null ==> cpp in st.pending) && ItemsOk(items)
    requires !InsertAll(st, items, now, cpp).insertError
    ensures var t := InsertAll(st, items, now, cpp); Stacked(st, t, items, now) && Waits(st, t, items, cpp)
    decreases |items|
  {
    hide ChainsOrdered, PoolOk, FreeSuffix, FlagsOk, NoClash, CnamesOk, BigInPool, PendingNoClash;
    hide PendingLocal, BigNames, InsertItem, Stacked, Waits, Hashed, NoneNew, Wf;
    if items != [] {
      ItemStored(st, items[0], now, cpp);
      InsertItemOk(st, items[0], now, Waiting(items[0], cpp));
      var (t, cpp') := InsertItem(st, items[0], now, Waiting(items[0], cpp));
      ErrorStays(t, items[1..], now, cpp');
      AllStored(t, items[1..], now, cpp');
      NewIsNew(st, t, items[0], now);
      StoredJoin(st, t, InsertAll(t, items[1..], now, cpp'), items, now, cpp, cpp');
    } else {
      NothingStored(st, now, cpp);
    }
  }

  lemma NothingStored(st: State, now: int, cpp: Crec?)
    requires TxnInv(st) && (cpp != null ==> cpp in st.pending)
    ensures Stacked(st, st, [], now) && Waits(st, st, [], cpp)
  {
    hide ChainsOrdered, PoolOk, FreeSuffix, FlagsOk, NoClash, CnamesOk, BigInPool, PendingNoClash, Hashed, ChainOk;
  }

  lemma NewIsNew(st: State, t: State, it: Item, now: int)
    requires TxnInv(t) && Stacked(st, t, [it], now)
    ensures forall x :: x in st.pending ==> x != t.pending[0]
  {
    hide ChainsOrdered, PoolOk, FreeSuffix, FlagsOk, NoClash, CnamesOk, BigInPool, PendingNoClash, Hashed, ChainOk;
    assert Distinct(t.pending) && t.pending[1..] == st.pending;
    assert forall k :: 0 <= k < |st.pending| ==> t.pending[1..][k] == t.pending[k + 1];
  }

  lemma JoinPlaces(st: State, t: State, u: State, n: nat)
    requires n > 0 && |u.pending| == n - 1 + |t.pending| && u.pending[n - 1..] == t.pending
    requires |t.pending| == 1 + |st.pending| && t.pending[1..] == st.pending
    ensures |u.pending| == n + |st.pending| && u.pending[n..] == st.pending
    ensures RecordOf(u, n, 0) == t.pending[0]
    ensures forall k: nat :: 0 < k < n ==> RecordOf(u, n, k) == RecordOf(u, n - 1, k - 1)
  {
    assert u.pending[n - 1] == u.pending[n - 1..][0];
    assert u.pending[n..] == u.pending[n - 1..][1..];
  }

  lemma StoredJoin(st: State, t: State, u: State, items: seq<Item>, now: int, cpp: Crec?, cpp': Crec?)
    requires items != [] && Stacked(st, t, [items[0]], now) && Waits(st, t, [items[0]], cpp)
    requires cpp' == if items[0].flags.cname then t.pending[0] else null
    requires Stacked(t, u, items[1..], now) && Waits(t, u, items[1..], cpp')
    requires forall x :: x in st.pending ==> x != t.pending[0]
    ensures Stacked(st, u, items, now) && Waits(st, u, items, cpp)
  {
    var n, rest := |items|, items[1..];
    JoinPlaces(st, t, u, n);
    var c := t.pending[0];
    assert StoredAt(t, [items[0]], now, 0);
    forall k: nat | k < n
      ensures StoredAt(u, items, now, k)
    {
      if k > 0 {
        assert items[k] == rest[k - 1] && (Links(items, k) <==> Links(rest, k - 1));
        assert StoredAt(u, rest, now, k - 1);
      } else {
        assert c in t.pending && (Links(items, 0) <==> cpp' != null && rest != [] && !rest[0].first);
      }
    }
    forall x | x in st.pending
      ensures x in t.pending && x != c
    {
      var k :| 0 <= k < |st.pending| && st.pending[k] == x;
      assert t.pending[1..][k] == t.pending[k + 1];
    }
  }

  // ---------- start and commit ----------

  lemma {:induction false} ReleaseKeeps(st: State)
    requires Wf(st)
    ensures NoneNew(st, ReleaseAll(st))
    decreases |st.pending|
  {
    hide Wf, Released, NoneNew, ReleaseFirst;
    if st.pending != [] {
      ReleaseFirstWf(st);
      ReleasedOne(st, ReleaseFirst(st), st.pending[0]);
      ReleaseKeeps(ReleaseFirst(st));
      NoneNewTransitive(st, ReleaseFirst(st), ReleaseAll(ReleaseFirst(st)));
    } else {
      NoneNewReflexive(st);
    }
  }

  lemma NoneNewReflexive(st: State)
    requires Wf(st)
    ensures NoneNew(st, st)
  {
    hide Wf, Hashed;
  }

  lemma ReleasedOne(st: State, t: State, c: Crec)
    requires Wf(st) && Wf(t) && Released(st, t, c)
    ensures NoneNew(st, t) && |t.pending| < |st.pending|
  {
    hide Wf, Hashed;
  }

  lemma NoneNewTransitive(s: State, t: State, u: State)
    requires Wf(s) && Wf(t) && Wf(u) && NoneNew(s, t) && NoneNew(t, u)
    ensures NoneNew(s, u)
  {
    hide Wf, Hashed;
  }

  lemma StartKeeps(st: State)
    requires Idle(st)
    ensures Wf(StartInsert(st)) && NoneNew(st, StartInsert(st))
    ensures TxnInv(StartInsert(st)) && PendingLocal(StartInsert(st)) && StartInsert(st).pending == []
  {
    hide ChainsOrdered, PoolOk, FreeSuffix, FlagsOk, NoClash, CnamesOk, BigInPool, BigNames, PendingNoClash;
    hide Distinct, ChainOk, ReleaseAll;
    StartInsertInv(st);
    ReleaseKeeps(st);
    var s := ReleaseAll(st);
    SameTablesKeeps(s, StartInsert(st));
  }

  lemma {:induction false} CommitKeeps(st: State)
    requires TxnInv(st)
    ensures var t := CommitAll(st);
      forall x :: x in st.recs && x in t.recs && Hashed(t, x) ==> t.recs[x] == st.recs[x]
    decreases |st.pending|
  {
    if st.pending != [] {
      var c := st.pending[0];
      assert c in st.pending;
      var s := if Outdated(st.recs, st.recs[c]) then ReleaseFirst(st) else CommitFirst(st);
      CommitStep(st);
      StepKeeps(st, s);
      hide Reaches, CommitOk, ReleaseFirst, CommitFirst, Hashed, Stepped, ChainsOrdered, PoolOk, FreeSuffix;
      hide FlagsOk, NoClash, CnamesOk, BigInPool, PendingNoClash, BigNames;
      CommitAllExact(s);
      CommitKeeps(s);
      GoneStays(s, CommitAll(s), c);
    }
  }

  lemma GoneStays(s: State, t: State, c: Crec)
    requires Wf(s) && Wf(t) && CommitOk(s, t) && c in s.recs && c !in s.pending
    ensures c in t.recs && (Hashed(t, c) <==> Hashed(s, c)) && t.recs.Keys == s.recs.Keys
  {
    hide Hashed, Distinct, ChainOk, Reaches;
  }

  lemma StepKeeps(st: State, s: State)
    requires TxnInv(st) && st.pending != [] && st.pending[0] in st.recs && Wf(s) && Stepped(st, s)
    requires s == if Outdated(st.recs, st.recs[st.pending[0]]) then ReleaseFirst(st) else CommitFirst(st)
    ensures st.pending[0] !in s.pending && st.pending[0] in s.recs && s.recs.Keys == st.recs.Keys
    ensures forall x :: x in st.recs && x != st.pending[0] ==> s.recs[x] == st.recs[x]
    ensures Hashed(s, st.pending[0]) ==> s.recs[st.pending[0]] == st.recs[st.pending[0]]
  {
    hide ChainsOrdered, PoolOk, FreeSuffix, FlagsOk, NoClash, CnamesOk, BigInPool, PendingNoClash, BigNames;
    hide ReleaseFirst, CommitFirst, Reaches, ChainOk;
    if Outdated(st.recs, st.recs[st.pending[0]]) {
      ReleaseFirstWf(st);
    } else {
      CommitFirstWf(st);
    }
  }

  // ---------- what is found afterwards ----------

  // The state after all insertions, before the commit.
  ghost function Inserts(st: State, items: seq<Item>, now: int): State
    requires Idle(st) && ItemsOk(items)
  {
    StartKeeps(st);
    InsertAll(StartInsert(st), items, now, null)
  }

  // The record of item k, when all were inserted and committed.
  ghost predicate IsStored(st: State, t: State, items: seq<Item>, now: int, k: nat, c: Crec)
    requires Idle(st) && ItemsOk(items) && Wf(t) && k < |items|
  {
    var u := Inserts(st, items, now);
    && |u.pending| == |items| && c == RecordOf(u, |items|, k)
    && c in t.recs && (!items[k].flags.cname ==> Hashed(t, c))
    && (Hashed(t, c) ==> Holds(t.recs[c], items[k], now))
  }

  lemma InsertsOk(st: State, items: seq<Item>, now: int)
    requires Idle(st) && ItemsOk(items)
    ensures var u := Inserts(st, items, now);
      && TxnInv(u) && NoneNew(st, u)
      && (!u.insertError ==> Stacked(StartInsert(st), u, items, now) && |u.pending| == |items|)
  {
    hide ChainsOrdered, PoolOk, FreeSuffix, FlagsOk, NoClash, CnamesOk, BigInPool, PendingNoClash, BigNames;
    hide InsertAll, StartInsert, PendingLocal, Distinct, ChainOk, Hashed, Waits;
    StartKeeps(st);
    InsertAllOk(StartInsert(st), items, now, null);
    ErrorStays(StartInsert(st), items, now, null);
    if !Inserts(st, items, now).insertError {
      AllStored(StartInsert(st), items, now, null);
    }
  }

  // Each item is in its own record after the commit.
  lemma CommittedRecord(st: State, items: seq<Item>, now: int, k: nat)
    requires Idle(st) && ItemsOk(items) && k < |items| && !Inserts(st, items, now).insertError
    ensures var t := Transaction(st, items, now, true);
      |Inserts(st, items, now).pending| == |items|
      && Inv(t) && IsStored(st, t, items, now, k, RecordOf(Inserts(st, items, now), |items|, k))
  {
    hide ChainsOrdered, PoolOk, FreeSuffix, FlagsOk, NoClash, CnamesOk, BigInPool, PendingNoClash, BigNames;
    hide InsertAll, StartInsert, PendingLocal, Distinct, ChainOk, Hashed, CommitAll;
    InsertsOk(st, items, now);
    TransactionIdle(st, items, now, true);
    var u, t := Inserts(st, items, now), Transaction(st, items, now, true);
    EndInsertExact(u);
    CommitKeeps(u);
    var c := RecordOf(u, |items|, k);
    assert c in u.pending && c in u.recs && StoredAt(u, items, now, k);
    if !items[k].flags.cname {
      NoCnameReaches(u, |items| - 1 - k);
    }
  }

  lemma NoCnameReaches(u: State, i: nat)
    requires Wf(u) && i < |u.pending| && u.pending[i] in u.recs && !u.recs[u.pending[i]].flags.cname
    ensures Reaches(u, i)
  {
  }

  // After the commit and until its time runs out, lookups of a name that was inserted answer
  // with what was inserted for it.
  lemma StoredIsAnswered(st: State, items: seq<Item>, now: int, k: nat, asked: string, later: int, prot: Flags)
    requires Idle(st) && ItemsOk(items) && k < |items| && !Inserts(st, items, now).insertError
    requires items[k].flags.forward && !items[k].flags.cname && items[k].flags.Meets(prot)
    requires NameEq(items[k].name, asked) && (later < now + items[k].ttl || items[k].flags.immortal)
    ensures var t := Transaction(st, items, now, true);
      Inv(t) && exists c :: c in AnswerList(t, asked, later, prot) && c in t.recs && Holds(t.recs[c], items[k], now)
  {
    hide ChainsOrdered, PoolOk, FreeSuffix, FlagsOk, NoClash, CnamesOk, BigInPool, PendingNoClash, BigNames;
    hide Transaction, Inserts, PendingLocal, Distinct, ChainOk, Hashed, AnswerList, Live, HostCount;
    CommittedRecord(st, items, now, k);
    var t := Transaction(st, items, now, true);
    var c := RecordOf(Inserts(st, items, now), |items|, k);
    LookupIsFilter(t, asked, later, prot);
    LiveUnlessExpired(t, asked, later, c);
  }

  // The same for an address.
  lemma StoredAddrIsAnswered(st: State, items: seq<Item>, now: int, k: nat, later: int, prot: Flags)
    requires Idle(st) && ItemsOk(items) && k < |items| && !Inserts(st, items, now).insertError
    requires items[k].flags.reverse && items[k].flags.Meets(prot)
    requires later < now + items[k].ttl || items[k].flags.immortal
    ensures var t := Transaction(st, items, now, true);
      && Inv(t)
      && exists c :: c in AddrAnswers(FindByAddr(t, items[k].addr, later, prot)) && c in t.recs
           && Holds(t.recs[c], items[k], now)
  {
    hide ChainsOrdered, PoolOk, FreeSuffix, FlagsOk, NoClash, CnamesOk, BigInPool, PendingNoClash, BigNames;
    hide Transaction, Inserts, PendingLocal, Distinct, ChainOk, Hashed, FindByAddr, AddrAnswers;
    CommittedRecord(st, items, now, k);
    var t := Transaction(st, items, now, true);
    var c := RecordOf(Inserts(st, items, now), |items|, k);
    AddrLookupIsFilter(t, items[k].addr, later, prot);
  }

  // A CNAME followed by what it stands for, for the same question, leads to that.
  lemma CnameLeads(st: State, items: seq<Item>, now: int, k: nat)
    requires Idle(st) && ItemsOk(items) && !Inserts(st, items, now).insertError
    requires Links(items, k) && !items[k + 1].flags.cname
    ensures var t := Transaction(st, items, now, true);
      && Wf(t)
      && exists c, d :: c in t.recs && d in t.recs && Hashed(t, c) && Hashed(t, d) && PointsAt(t.recs, c, d)
           && Holds(t.recs[c], items[k], now) && Holds(t.recs[d], items[k + 1], now)
  {
    hide ChainsOrdered, PoolOk, FreeSuffix, FlagsOk, NoClash, CnamesOk, BigInPool, PendingNoClash, BigNames;
    hide Inserts, PendingLocal, Distinct, ChainOk, Hashed, CommitAll, Transaction, Holds;
    CommittedRecord(st, items, now, k);
    CommittedRecord(st, items, now, k + 1);
    LinkStored(st, items, now, k);
    IsCommitted(st, items, now);
    LinkCommits(Inserts(st, items, now), |items| - 1 - k, |items| - 2 - k);
  }

  lemma LinkStored(st: State, items: seq<Item>, now: int, k: nat)
    requires Idle(st) && ItemsOk(items) && !Inserts(st, items, now).insertError
    requires Links(items, k) && !items[k + 1].flags.cname
    ensures var u := Inserts(st, items, now);
      && TxnInv(u) && |u.pending| == |items| && InRecs(u)
      && !u.recs[u.pending[|items| - 2 - k]].flags.cname
      && PointsAt(u.recs, u.pending[|items| - 1 - k], u.pending[|items| - 2 - k])
  {
    hide TxnInv, Inserts, Hashed, NoneNew, StartInsert;
    InsertsOk(st, items, now);
    var u := Inserts(st, items, now);
    assert StoredAt(u, items, now, k) && StoredAt(u, items, now, k + 1);
    assert RecordOf(u, |items|, k + 1) == u.pending[|items| - 2 - k];
  }

  lemma LinkCommits(u: State, i: nat, j: nat)
    requires TxnInv(u) && j < i < |u.pending| && InRecs(u)
    requires !u.recs[u.pending[j]].flags.cname && PointsAt(u.recs, u.pending[i], u.pending[j])
    ensures var t := CommitAll(u); var c, d := u.pending[i], u.pending[j];
      c in t.recs && d in t.recs && Hashed(t, c) && Hashed(t, d) && PointsAt(t.recs, c, d)
  {
    hide ChainsOrdered, PoolOk, FreeSuffix, FlagsOk, NoClash, CnamesOk, BigInPool, PendingNoClash, BigNames;
    hide Distinct, ChainOk, Hashed, CommitAll, Reaches;
    CommitAllExact(u);
    CommitKeeps(u);
    NoCnameReaches(u, j);
    LinkReaches(u, i, j);
  }

  lemma IsCommitted(st: State, items: seq<Item>, now: int)
    requires Idle(st) && ItemsOk(items) && !Inserts(st, items, now).insertError
    ensures Wf(Inserts(st, items, now)) && Transaction(st, items, now, true) == CommitAll(Inserts(st, items, now))
  {
    hide ChainsOrdered, PoolOk, FreeSuffix, FlagsOk, NoClash, CnamesOk, BigInPool, PendingNoClash, BigNames;
    hide InsertAll, StartInsert, PendingLocal, Distinct, ChainOk, Hashed, CommitAll;
    InsertsOk(st, items, now);
  }

  lemma LinkReaches(u: State, i: nat, j: nat)
    requires Wf(u) && j < i < |u.pending| && u.pending[i] in u.recs && u.pending[j] in u.recs
    requires !u.recs[u.pending[j]].flags.cname && PointsAt(u.recs, u.pending[i], u.pending[j])
    ensures Reaches(u, i)
  {
    hide Wf, Hashed;
    assert Reaches(u, j);
  }

  // Whatever is hashed afterwards was so before, or is the record of an item of a transaction
  // that was committed: nothing comes of one that was given up, or met an error.
  lemma NothingElse(st: State, items: seq<Item>, now: int, commit: bool)
    requires Idle(st) && ItemsOk(items)
    ensures var t := Transaction(st, items, now, commit);
      && Wf(t)
      && forall x :: x in t.recs && Hashed(t, x) ==>
           || (x in st.recs && Hashed(st, x) && t.recs[x] == st.recs[x])
           || (commit && !Inserts(st, items, now).insertError
                && exists k: nat :: k < |items| && Holds(t.recs[x], items[k], now))
  {
    hide ChainsOrdered, PoolOk, FreeSuffix, FlagsOk, NoClash, CnamesOk, BigInPool, PendingNoClash, BigNames;
    hide Inserts, PendingLocal, Wf, Hashed, Transaction, NoneNew, Holds;
    InsertsOk(st, items, now);
    TransactionIdle(st, items, now, commit);
    var u, t := Inserts(st, items, now), Transaction(st, items, now, commit);
    OldOnes(st, u);
    TableThere(st);
    TableThere(t);
    if commit && !u.insertError {
      forall x | x in t.recs && Hashed(t, x)
        ensures (x in st.recs && Hashed(st, x) && t.recs[x] == st.recs[x])
          || exists k: nat :: k < |items| && Holds(t.recs[x], items[k], now)
      {
        OldOrItem(st, items, now, x);
      }
    } else {
      NotCommitted(st, items, now, commit);
    }
  }

  lemma OldOnes(st: State, u: State)
    requires Wf(st) && Wf(u) && NoneNew(st, u)
    ensures forall x :: x in u.recs && Hashed(u, x) ==> x in st.recs && Hashed(st, x) && u.recs[x] == st.recs[x]
  {
    hide Wf, Hashed;
  }

  lemma OldOrItem(st: State, items: seq<Item>, now: int, x: Crec)
    requires Idle(st) && ItemsOk(items) && !Inserts(st, items, now).insertError
    requires Wf(Transaction(st, items, now, true))
    requires x in Transaction(st, items, now, true).recs && Hashed(Transaction(st, items, now, true), x)
    ensures var t := Transaction(st, items, now, true);
      || (x in st.recs && Hashed(st, x) && t.recs[x] == st.recs[x])
      || exists k: nat :: k < |items| && Holds(t.recs[x], items[k], now)
  {
    hide ChainsOrdered, PoolOk, FreeSuffix, FlagsOk, NoClash, CnamesOk, BigInPool, PendingNoClash, BigNames;
    hide Inserts, PendingLocal, Wf, Hashed, CommitAll, Transaction, NoneNew, Holds, Reaches;
    InsertsOk(st, items, now);
    var u := Inserts(st, items, now);
    OldOnes(st, u);
    IsCommitted(st, items, now);
    CommitAllExact(u);
    if x in u.pending {
      var i :| 0 <= i < |u.pending| && u.pending[i] == x;
      CommittedRecord(st, items, now, |items| - 1 - i);
    }
  }

  lemma NotCommitted(st: State, items: seq<Item>, now: int, commit: bool)
    requires Idle(st) && ItemsOk(items) && (commit ==> Inserts(st, items, now).insertError)
    ensures Transaction(st, items, now, commit) == Inserts(st, items, now)
  {
    hide ChainsOrdered, PoolOk, FreeSuffix, FlagsOk, NoClash, CnamesOk, BigInPool, PendingNoClash, BigNames;
    hide InsertAll, StartInsert, PendingLocal, Distinct, ChainOk, Hashed, CommitAll;
    InsertsOk(st, items, now);
  }
}