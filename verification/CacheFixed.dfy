// Records outside the pool: hosts files and DHCP leases. They are put into the hash
// table directly and taken out by cache_reload and cache_unhash_dhcp.
module CacheFixed {
  import opened CacheState
  import opened CacheInvariant
  import opened CacheSweep
  import opened CacheCommit
  import opened CacheLookup
  import opened CacheTables

  // ---------- adding ----------

  predicate FixedFlags(f: Flags) {
    (f.hosts || f.dhcp) && f.forward && !f.cname && !f.bigname && !f.neg && (f.hosts ==> f.immortal)
  }

  // No cached record clashes with the record to be added.
  ghost predicate RoomFor(st: State, rec: Rec)
    requires Wf(st)
  {
    forall c :: c in st.lru && st.recs[c].flags.forward ==> !Clash(st.recs[c], rec)
  }

  ghost function AddFixed(st: State, c: Crec, rec: Rec): State
    requires Wf(st) && c !in st.recs && FixedFlags(rec.flags)
  {
    AddRecWf(st, c, rec);
    HashIn(st.(recs := st.recs[c := rec]), c)
  }

  lemma AddRecWf(st: State, c: Crec, rec: Rec)
    requires Wf(st) && c !in st.recs && FixedFlags(rec.flags)
    ensures var s := st.(recs := st.recs[c := rec]);
            && Wf(s) && Hashable(s, c) && (forall x :: x in st.recs ==> (Hashed(s, x) <==> Hashed(st, x)))
  {
    var s := st.(recs := st.recs[c := rec]);
    forall b | 0 <= b < |s.chains|
      ensures ChainOk(s, b) && c !in s.chains[b]
    {
      assert ChainOk(st, b);
    }
  }

  // Everything AddFixed changes.
  ghost predicate Added(st: State, t: State, c: Crec, rec: Rec)
    requires Wf(st) && Wf(t)
  {
    && c !in st.recs && FixedFlags(rec.flags)
    && t == st.(recs := st.recs[c := rec], chains := t.chains) && |t.chains| == |st.chains|
    && (forall x :: x in st.recs ==> (Hashed(t, x) <==> Hashed(st, x)))
    && Hashed(t, c)
  }

  lemma AddFixedAdded(st: State, c: Crec, rec: Rec)
    requires Wf(st) && c !in st.recs && FixedFlags(rec.flags)
    ensures Wf(AddFixed(st, c, rec)) && Added(st, AddFixed(st, c, rec), c, rec)
    ensures ChainsOrdered(st) ==> ChainsOrdered(AddFixed(st, c, rec))
  {
    var s := st.(recs := st.recs[c := rec]);
    AddRecWf(st, c, rec);
    HashInWf(s, c);
    if ChainsOrdered(st) {
      forall b | 0 <= b < |s.chains|
        ensures Ordered(s.recs, s.chains[b])
      {
        assert Ordered(st.recs, st.chains[b]) && ChainOk(st, b);
        OrderedFrame(st.recs, s.recs, st.chains[b], c);
      }
      HashInOrdered(s, c);
    }
  }

  lemma AddedPool(st: State, t: State, c: Crec, rec: Rec)
    requires Wf(st) && Wf(t) && Added(st, t, c, rec) && PoolOk(st) && FlagsOk(st) && FreeSuffix(st.recs, st.lru)
    ensures PoolOk(t) && FlagsOk(t) && FreeSuffix(t.recs, t.lru)
  {
  }

  lemma AddedClash(st: State, t: State, c: Crec, rec: Rec)
    requires Wf(st) && Wf(t) && Added(st, t, c, rec) && NoClash(st) && RoomFor(st, rec)
    ensures NoClash(t)
  {
    forall h | h in t.recs && Fixed(t, h)
      ensures h == c || Fixed(st, h)
    {
    }
  }

  lemma AddedCnames(st: State, t: State, c: Crec, rec: Rec)
    requires Wf(st) && Wf(t) && Added(st, t, c, rec) && CnamesOk(st)
    ensures CnamesOk(t)
  {
    forall x | x in st.recs && CnamePointer(st, x)
      ensures CnamePointer(t, x) && (Outdated(t.recs, t.recs[x]) <==> Outdated(st.recs, st.recs[x]))
    {
    }
  }

  lemma AddedBig(st: State, t: State, c: Crec, rec: Rec)
    requires Wf(st) && Wf(t) && Added(st, t, c, rec) && BigInPool(st)
    ensures BigInPool(t) && BigNames(t) == BigNames(st)
  {
    hide Wf, Hashed;
    assert BigHolders(t) == BigHolders(st);
  }

  lemma AddFixedInv(st: State, c: Crec, rec: Rec)
    requires Inv(st) && c !in st.recs && FixedFlags(rec.flags) && RoomFor(st, rec)
    ensures var t := AddFixed(st, c, rec);
            Inv(t) && BigNames(t) == BigNames(st) && Added(st, t, c, rec)
  {
    hide Wf, ChainsOrdered, PoolOk, FreeSuffix, FlagsOk, NoClash, CnamesOk, BigInPool, BigNames, Added, AddFixed;
    AddFixedAdded(st, c, rec);
    var t := AddFixed(st, c, rec);
    AddedBig(st, t, c, rec);
    AddedPool(st, t, c, rec);
    AddedClash(st, t, c, rec);
    AddedCnames(st, t, c, rec);
  }

  // ---------- removing ----------

  // Unhash a hosts or DHCP record and forget it.
  ghost function Forget(st: State, b: nat, i: nat): State
    requires b < |st.chains| && i < |st.chains[b]|
  {
    var s := Unhash(st, b, i);
    s.(recs := s.recs - {st.chains[b][i]})
  }

  // Everything Forget changes.
  ghost predicate Forgotten(st: State, t: State, c: Crec)
    requires Wf(st) && Wf(t)
  {
    && c in st.recs && !Cached(st.recs[c]) && c !in st.lru && c !in st.pending
    && t == st.(recs := st.recs - {c}, chains := t.chains) && |t.chains| == |st.chains|
    && (forall x :: x in t.recs ==> (Hashed(t, x) <==> Hashed(st, x)))
  }

  lemma ForgetWf(st: State, b: nat, i: nat)
    requires Wf(st) && b < |st.chains| && i < |st.chains[b]|
    requires st.chains[b][i] in st.recs && !Cached(st.recs[st.chains[b][i]])
    ensures Wf(Forget(st, b, i)) && Forgotten(st, Forget(st, b, i), st.chains[b][i])
    ensures Forget(st, b, i).chains == st.chains[b := RemoveAt(st.chains[b], i)]
    ensures ChainsOrdered(st) ==> ChainsOrdered(Forget(st, b, i))
  {
    var t, c := Forget(st, b, i), st.chains[b][i];
    assert ChainOk(st, b) && c in st.chains[b];
    assert c !in st.pending && c !in st.lru;
    RemoveAtDistinct(st.chains[b], i);
    forall d | 0 <= d < |t.chains|
      ensures ChainOk(t, d) && c !in t.chains[d]
    {
      assert ChainOk(st, d);
    }
    if ChainsOrdered(st) {
      assert Ordered(st.recs, st.chains[b]);
      OrderedRemove(st.recs, st.chains[b], i);
      forall d | 0 <= d < |t.chains|
        ensures Ordered(t.recs, t.chains[d])
      {
        assert Ordered(st.recs, st.chains[d]) && c !in t.chains[d];
      }
    }
  }

  // The F_HOSTS and cached branches of cache_reload: a cached record keeps its place in
  // the LRU list with all flags cleared.
  ghost function Clear(st: State, b: nat, i: nat): State
    requires b < |st.chains| && i < |st.chains[b]| && st.chains[b][i] in st.recs
  {
    var c := st.chains[b][i];
    var s := Unhash(st, b, i);
    s.(recs := s.recs[c := s.recs[c].(flags := NO_FLAGS)],
       bigFree := s.bigFree + if s.recs[c].flags.bigname then 1 else 0)
  }

  ghost predicate Cleared(st: State, t: State, c: Crec)
    requires Wf(st) && Wf(t)
  {
    && c in st.recs && c in st.lru && c !in st.pending
    && t == st.(recs := st.recs[c := st.recs[c].(flags := NO_FLAGS)], chains := t.chains,
                bigFree := st.bigFree + if st.recs[c].flags.bigname then 1 else 0)
    && |t.chains| == |st.chains|
    && (forall x :: x in st.recs ==> (Hashed(t, x) <==> Hashed(st, x) && x != c))
  }

  lemma ClearWf(st: State, b: nat, i: nat)
    requires Wf(st) && b < |st.chains| && i < |st.chains[b]|
    requires st.chains[b][i] in st.recs && Cached(st.recs[st.chains[b][i]])
    ensures Wf(Clear(st, b, i)) && Cleared(st, Clear(st, b, i), st.chains[b][i])
    ensures Clear(st, b, i).chains == st.chains[b := RemoveAt(st.chains[b], i)]
    ensures ChainsOrdered(st) ==> ChainsOrdered(Clear(st, b, i))
  {
    var t, c := Clear(st, b, i), st.chains[b][i];
    assert ChainOk(st, b) && c in st.chains[b];
    RemoveAtDistinct(st.chains[b], i);
    forall d | 0 <= d < |t.chains|
      ensures ChainOk(t, d) && c !in t.chains[d]
    {
      assert ChainOk(st, d);
    }
    if ChainsOrdered(st) {
      assert Ordered(st.recs, st.chains[b]);
      OrderedRemove(st.recs, st.chains[b], i);
      forall d | 0 <= d < |t.chains|
        ensures Ordered(t.recs, t.chains[d])
      {
        assert Ordered(st.recs, st.chains[d]) && c !in t.chains[d];
        OrderedFrame(st.recs, t.recs, t.chains[d], c);
      }
    }
  }

  // Outside a commit, a pending CNAME that is not outdated points at a pending record.
  ghost predicate PendingLocal(st: State)
    requires Wf(st)
  {
    forall c :: c in st.pending && st.recs[c].flags.cname ==>
      CnamePointer(st, c) && (!Outdated(st.recs, st.recs[c]) ==> st.recs[c].target in st.pending)
  }

  // What holds of the cache between operations.
  ghost predicate Idle(st: State) {
    Inv(st) && PendingLocal(st)
  }

  // What the flush keeps while it is under way. (Cached records that are cleared stay
  // where they are, so the order of the LRU list is only right again at the end.)
  ghost predicate FlushInv(st: State) {
    Wf(st) && ChainsOrdered(st) && PoolOk(st) && FlagsOk(st) && NoClash(st) && PendingLocal(st) && BornOk(st) &&
        BigInPool(st)
  }

  lemma ForgottenFlush(st: State, t: State, c: Crec)
    requires Wf(st) && Wf(t) && Forgotten(st, t, c) && ChainsOrdered(t) && FlushInv(st)
    ensures FlushInv(t) && BigNames(t) == BigNames(st)
  {
    ForgottenPointers(st, t, c);
    ForgottenRest(st, t, c);
    ForgottenBig(st, t, c);
  }

  lemma ForgottenRest(st: State, t: State, c: Crec)
    requires Wf(st) && Wf(t) && Forgotten(st, t, c) && PoolOk(st) && FlagsOk(st) && NoClash(st)
    ensures PoolOk(t) && FlagsOk(t) && NoClash(t)
  {
    forall h | h in t.recs && Fixed(t, h)
      ensures Fixed(st, h)
    {
    }
  }

  lemma ForgottenPointers(st: State, t: State, c: Crec)
    requires Wf(st) && Wf(t) && Forgotten(st, t, c) && PendingLocal(st) && BornOk(st)
    ensures PendingLocal(t) && BornOk(t)
    ensures forall x :: x in t.recs && CnamePointer(st, x) ==> CnamePointer(t, x)
    ensures forall x :: x in t.recs && CnamePointer(st, x) ==> (Outdated(t.recs, t.recs[x]) <==>
        Outdated(st.recs, st.recs[x]))
  {
    hide Distinct, ChainOk, Hashed;
    forall x | x in t.recs && CnamePointer(st, x)
      ensures CnamePointer(t, x) && (Outdated(t.recs, t.recs[x]) <==> Outdated(st.recs, st.recs[x]))
    {
    }
    hide CnamePointer, Outdated;
  }

  lemma ForgottenBig(st: State, t: State, c: Crec)
    requires Wf(st) && Wf(t) && Forgotten(st, t, c) && BigInPool(st)
    ensures BigInPool(t) && BigNames(t) == BigNames(st)
  {
    assert c !in BigHolders(st);
    assert BigHolders(t) == BigHolders(st);
  }

  lemma ForgottenCommitted(st: State, t: State, c: Crec)
    requires Wf(st) && Wf(t) && Forgotten(st, t, c) && CommittedCnames(st)
    requires forall x :: x in t.recs && CnamePointer(st, x) ==> CnamePointer(t, x)
    requires forall x :: x in t.recs && CnamePointer(st, x) ==> (Outdated(t.recs, t.recs[x]) <==>
        Outdated(st.recs, st.recs[x]))
    ensures CommittedCnames(t)
  {
    forall x | x in t.lru && t.recs[x].flags.forward && t.recs[x].flags.cname
      ensures CnamePointer(t, x) && (!Outdated(t.recs, t.recs[x]) ==> Hashed(t, t.recs[x].target))
    {
      assert CnamePointer(st, x);
    }
  }

  lemma LocalIsPending(t: State)
    requires Wf(t) && PendingLocal(t)
    ensures PendingCnames(t)
  {
  }

  lemma ForgottenInv(st: State, t: State, c: Crec)
    requires Wf(st) && Wf(t) && Forgotten(st, t, c) && ChainsOrdered(t) && Idle(st)
    ensures Idle(t) && BigNames(t) == BigNames(st)
  {
    hide ChainsOrdered, PoolOk, FlagsOk, NoClash, PendingLocal, BornOk, BigInPool, BigNames, Distinct;
    hide ChainOk, Hashed, CommittedCnames, PendingCnames;
    ForgottenPointers(st, t, c);
    ForgottenRest(st, t, c);
    ForgottenBig(st, t, c);
    ForgottenCommitted(st, t, c);
    LocalIsPending(t);
  }

  lemma ClearedFlush(st: State, t: State, c: Crec)
    requires Wf(st) && Wf(t) && Cleared(st, t, c) && ChainsOrdered(t) && FlushInv(st)
    ensures FlushInv(t) && BigNames(t) == BigNames(st)
  {
    ClearedRest(st, t, c);
    ClearedPointers(st, t, c);
    ClearedBig(st, t, c);
  }

  lemma ClearedRest(st: State, t: State, c: Crec)
    requires Wf(st) && Wf(t) && Cleared(st, t, c) && PoolOk(st) && FlagsOk(st) && NoClash(st)
    ensures PoolOk(t) && FlagsOk(t) && NoClash(t)
  {
    hide Wf, Cleared, PoolOk, FlagsOk, NoClash;
    ClearedPool(st, t, c);
    ClearedClash(st, t, c);
  }

  lemma ClearedPool(st: State, t: State, c: Crec)
    requires Wf(st) && Wf(t) && Cleared(st, t, c) && PoolOk(st) && FlagsOk(st)
    ensures PoolOk(t) && FlagsOk(t)
  {
    hide Distinct, ChainOk, Hashed;
    assert PoolOk(t) by { hide FlagsOk; }
    assert FlagsOk(t) by { hide PoolOk; }
  }

  lemma ClearedClash(st: State, t: State, c: Crec)
    requires Wf(st) && Wf(t) && Cleared(st, t, c) && NoClash(st)
    ensures NoClash(t)
  {
    hide Distinct, ChainOk;
    forall h | h in t.recs && Fixed(t, h)
      ensures Fixed(st, h)
    {
    }
  }

  lemma ClearedPointers(st: State, t: State, c: Crec)
    requires Wf(st) && Wf(t) && Cleared(st, t, c) && PendingLocal(st) && BornOk(st)
    ensures PendingLocal(t) && BornOk(t)
  {
    hide Distinct, ChainOk, Hashed;
    assert PendingLocal(t) by {
      hide BornOk;
      forall x | x in st.pending && CnamePointer(st, x)
        ensures CnamePointer(t, x) && (Outdated(st.recs, st.recs[x]) <==> Outdated(t.recs, t.recs[x]))
      {
      }
    }
    assert BornOk(t) by { hide PendingLocal, CnamePointer, Outdated; }
  }

  lemma ClearedBig(st: State, t: State, c: Crec)
    requires Wf(st) && Wf(t) && Cleared(st, t, c) && BigInPool(st)
    ensures BigInPool(t) && BigNames(t) == BigNames(st)
  {
    hide Distinct, ChainOk, Hashed;
    if st.recs[c].flags.bigname {
      assert BigHolders(t) == BigHolders(st) - {c};
      assert c in BigHolders(st);
    } else {
      assert BigHolders(t) == BigHolders(st);
    }
  }

  // ---------- cache_reload ----------

  // The flush of one chain: hosts records are freed, cached ones cleared, DHCP ones stay.
  ghost function FlushChain(st: State, b: nat, i: nat): (t: State)
    requires Wf(st) && b < |st.chains| && i <= |st.chains[b]|
    ensures Wf(t) && |t.chains| == |st.chains|
    decreases |st.chains[b]| - i
  {
    if i == |st.chains[b]| then st
    else
      EntryRec(st, b, i);
      var r := st.recs[st.chains[b][i]];
      if r.flags.hosts then ForgetWf(st, b, i); FlushChain(Forget(st, b, i), b, i)
      else if !r.flags.dhcp then ClearWf(st, b, i); FlushChain(Clear(st, b, i), b, i)
      else FlushChain(st, b, i + 1)
  }

  ghost function Flush(st: State, b: nat): (t: State)
    requires Wf(st) && b <= |st.chains|
    ensures Wf(t) && |t.chains| == |st.chains|
    decreases |st.chains| - b
  {
    if b == |st.chains| then st else Flush(FlushChain(st, b, 0), b + 1)
  }

  // Entries before i of chain b, and earlier chains, are all DHCP records.
  ghost predicate DhcpUpTo(st: State, b: nat, i: nat)
    requires Wf(st) && b <= |st.chains| && (b < |st.chains| ==> i <= |st.chains[b]|)
  {
    && (forall d, c :: 0 <= d < b && c in st.chains[d] && c in st.recs ==>
        st.recs[c].flags.dhcp && !st.recs[c].flags.hosts)
    && (b < |st.chains| ==> forall k :: 0 <= k < i ==>
        st.chains[b][k] in st.recs && st.recs[st.chains[b][k]].flags.dhcp && !st.recs[st.chains[b][k]].flags.hosts)
  }

  lemma RemovedDhcp(st: State, t: State, b: nat, i: nat)
    requires Wf(st) && Wf(t) && b < |st.chains| && i < |st.chains[b]| && DhcpUpTo(st, b, i)
    requires t.chains == st.chains[b := RemoveAt(st.chains[b], i)]
    requires forall x :: x in t.recs ==> x in st.recs
    requires forall x :: x in st.recs && x != st.chains[b][i] ==> x in t.recs && t.recs[x] == st.recs[x]
    ensures DhcpUpTo(t, b, i)
  {
    var c := st.chains[b][i];
    assert ChainOk(st, b) && c in st.chains[b];
    forall d | 0 <= d < b
      ensures c !in st.chains[d]
    {
      ChainsDisjoint(st, b, d);
    }
    forall k | 0 <= k < i
      ensures t.chains[b][k] == st.chains[b][k] && st.chains[b][k] != c
    {
    }
  }

  lemma {:induction false} FlushChainOk(st: State, b: nat, i: nat)
    requires FlushInv(st) && b < |st.chains| && i <= |st.chains[b]| && DhcpUpTo(st, b, i)
    ensures var t := FlushChain(st, b, i);
        FlushInv(t) && BigNames(t) == BigNames(st) && DhcpUpTo(t, b + 1, 0) && t.lru == st.lru &&
            t.pending == st.pending && t.hash == st.hash
    decreases |st.chains[b]| - i
  {
    hide ChainsOrdered, PoolOk, FlagsOk, NoClash, PendingLocal, BornOk, BigInPool, BigNames, Distinct, ChainOk, Hashed;
    if i == |st.chains[b]| {
      ChainRecs(st, b);
      assert forall c :: c in st.chains[b] ==> exists k :: 0 <= k < i && st.chains[b][k] == c;
    } else {
      EntryRec(st, b, i);
      var c := st.chains[b][i];
      var r := st.recs[c];
      if r.flags.hosts {
        ForgetWf(st, b, i);
        ForgottenFlush(st, Forget(st, b, i), c);
        RemovedDhcp(st, Forget(st, b, i), b, i);
        FlushChainOk(Forget(st, b, i), b, i);
      } else if !r.flags.dhcp {
        ClearWf(st, b, i);
        ClearedFlush(st, Clear(st, b, i), c);
        RemovedDhcp(st, Clear(st, b, i), b, i);
        FlushChainOk(Clear(st, b, i), b, i);
      } else {
        FlushChainOk(st, b, i + 1);
      }
    }
  }

  lemma {:induction false} FlushOk(st: State, b: nat)
    requires FlushInv(st) && b <= |st.chains| && DhcpUpTo(st, b, 0)
    ensures var t := Flush(st, b);
        FlushInv(t) && BigNames(t) == BigNames(st) && DhcpUpTo(t, |t.chains|, 0) && t.lru == st.lru &&
            t.pending == st.pending && t.hash == st.hash
    decreases |st.chains| - b
  {
    hide ChainsOrdered, PoolOk, FlagsOk, NoClash, PendingLocal, BornOk, BigInPool, BigNames, Distinct, ChainOk;
    hide Hashed, DhcpUpTo;
    if b < |st.chains| {
      FlushChainOk(st, b, 0);
      FlushOk(FlushChain(st, b, 0), b + 1);
    }
  }

  // After the flush only DHCP records are hashed and every record of the LRU list is
  // free, so the invariant holds again; no long name is lost.
  lemma FlushInvariant(st: State)
    requires Idle(st)
    ensures var t := Flush(st, 0);
            && Idle(t) && BigNames(t) == BigNames(st)
            && t.lru == st.lru && t.pending == st.pending && t.hash == st.hash
            && (forall c :: c in t.lru ==> !InUse(t.recs[c]))
            && (forall c :: c in t.recs && Hashed(t, c) ==> t.recs[c].flags.dhcp && !t.recs[c].flags.hosts)
  {
    FlushOk(st, 0);
    var t := Flush(st, 0);
    hide ChainsOrdered, NoClash, BornOk, BigInPool, BigNames, Distinct, Flush;
    forall c | c in t.recs && Hashed(t, c)
      ensures t.recs[c].flags.dhcp && !t.recs[c].flags.hosts && c !in t.lru
    {
      assert ChainOk(t, Bucket(t, t.recs[c].name));
    }
    NothingCommitted(t);
  }

  lemma NothingCommitted(t: State)
    requires FlushInv(t) && forall c :: c in t.lru ==> !InUse(t.recs[c])
    ensures Idle(t)
  {
  }

  // ---------- cache_unhash_dhcp ----------

  ghost function UnhashDhcpChain(st: State, b: nat, i: nat): (t: State)
    requires Wf(st) && b < |st.chains| && i <= |st.chains[b]|
    ensures Wf(t) && |t.chains| == |st.chains|
    decreases |st.chains[b]| - i
  {
    if i == |st.chains[b]| then st
    else
      EntryRec(st, b, i);
      if st.recs[st.chains[b][i]].flags.dhcp then ForgetWf(st, b, i); UnhashDhcpChain(Forget(st, b, i), b, i)
      else UnhashDhcpChain(st, b, i + 1)
  }

  ghost function UnhashDhcp(st: State, b: nat): (t: State)
    requires Wf(st) && b <= |st.chains|
    ensures Wf(t) && |t.chains| == |st.chains|
    decreases |st.chains| - b
  {
    if b == |st.chains| then st else UnhashDhcp(UnhashDhcpChain(st, b, 0), b + 1)
  }

  lemma {:induction false} UnhashDhcpChainInv(st: State, b: nat, i: nat)
    requires Idle(st) && b < |st.chains| && i <= |st.chains[b]|
    ensures var t := UnhashDhcpChain(st, b, i); Idle(t) && BigNames(t) == BigNames(st)
    decreases |st.chains[b]| - i
  {
    hide ChainsOrdered, PoolOk, FlagsOk, FreeSuffix, NoClash, CnamesOk, PendingLocal, BornOk, BigInPool, BigNames;
    hide Distinct, ChainOk, Hashed;
    if i < |st.chains[b]| {
      EntryRec(st, b, i);
      if st.recs[st.chains[b][i]].flags.dhcp {
        ForgetWf(st, b, i);
        ForgottenInv(st, Forget(st, b, i), st.chains[b][i]);
        UnhashDhcpChainInv(Forget(st, b, i), b, i);
      } else {
        UnhashDhcpChainInv(st, b, i + 1);
      }
    }
  }

  lemma {:induction false} UnhashDhcpInv(st: State, b: nat)
    requires Idle(st) && b <= |st.chains|
    ensures var t := UnhashDhcp(st, b); Idle(t) && BigNames(t) == BigNames(st)
    decreases |st.chains| - b
  {
    hide ChainsOrdered, PoolOk, FlagsOk, FreeSuffix, NoClash, CnamesOk, PendingLocal, BornOk, BigInPool, BigNames;
    hide Distinct, ChainOk, Hashed;
    if b < |st.chains| {
      UnhashDhcpChainInv(st, b, 0);
      UnhashDhcpInv(UnhashDhcpChain(st, b, 0), b + 1);
    }
  }
}
