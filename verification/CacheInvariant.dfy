// What every reachable cache state satisfies, and that each primitive step keeps it.
module CacheInvariant {
  import opened HostNames
  import opened CacheState

  // ---------- the invariant ----------

  ghost predicate Ordered(recs: map<Crec, Rec>, ch: seq<Crec>) {
    && (forall i :: 0 <= i < |ch| ==> ch[i] in recs)
    && (forall i, j :: 0 <= i < j < |ch| ==> recs[ch[i]].flags.Class() <= recs[ch[j]].flags.Class())
  }

  // reverse, then other, then non-reverse immortal
  ghost predicate ChainsOrdered(st: State) {
    forall b :: 0 <= b < |st.chains| ==> Ordered(st.recs, st.chains[b])
  }

  ghost predicate PoolOk(st: State)
    requires Wf(st)
  {
    && (forall c :: c in st.lru ==> (InUse(st.recs[c]) <==> Hashed(st, c)))
    && (forall c :: c in st.lru && !InUse(st.recs[c]) ==> !st.recs[c].flags.bigname)
    && (forall c :: c in st.recs && InPool(st, c) ==> st.recs[c].uid < st.uid)
  }

  // The free records form a suffix of the LRU list.
  ghost predicate FreeSuffix(recs: map<Crec, Rec>, lru: seq<Crec>) {
    && (forall i :: 0 <= i < |lru| ==> lru[i] in recs)
    && (forall i, j :: 0 <= i < j < |lru| && InUse(recs[lru[j]]) ==> InUse(recs[lru[i]]))
  }

  // The flags cache_insert is called with.
  predicate InsertFlags(f: Flags) {
    && !f.hosts && !f.dhcp && !f.bigname
    && f.forward != f.reverse
    && (f.ipv4 || f.ipv6 || f.cname)
    && (f.cname ==> f.forward)
  }

  ghost predicate FlagsOk(st: State)
    requires Wf(st)
  {
    && (forall c :: c in st.lru && InUse(st.recs[c]) ==> InsertFlags(st.recs[c].flags.(bigname := false)))
    && (forall c :: c in st.pending ==> InsertFlags(st.recs[c].flags.(bigname := false)))
    && (forall c :: c in st.recs && Hashed(st, c) && !Cached(st.recs[c]) ==>
        && st.recs[c].flags.forward && !st.recs[c].flags.cname && !st.recs[c].flags.neg
        && (st.recs[c].flags.hosts ==> st.recs[c].flags.immortal))
  }

  // Same name, and the same address family or a CNAME on either side.
  predicate Clash(r: Rec, h: Rec) {
    NameEq(r.name, h.name) && (r.flags.SameFamily(h.flags) || r.flags.cname || h.flags.cname)
  }

  // h is a forward record from a hosts file or a DHCP lease that lookups can find.
  ghost predicate Fixed(st: State, h: Crec)
    requires Wf(st)
  {
    Hashed(st, h) && !Cached(st.recs[h]) && st.recs[h].flags.forward
  }

  ghost predicate NoClash(st: State)
    requires Wf(st)
  {
    forall c, h :: c in st.lru && h in st.recs && st.recs[c].flags.forward && Fixed(st, h) ==>
        !Clash(st.recs[c], st.recs[h])
  }

  ghost predicate PendingNoClash(st: State)
    requires Wf(st)
  {
    forall c, h :: c in st.pending && h in st.recs && st.recs[c].flags.forward && Fixed(st, h) ==>
        !Clash(st.recs[c], st.recs[h])
  }

  ghost predicate InPool(st: State, c: Crec) {
    c in st.lru || c in st.pending
  }

  ghost predicate CnamePointer(st: State, c: Crec)
    requires Wf(st)
    requires c in st.recs
  {
    var r := st.recs[c];
    && (r.target != null ==> InPool(st, r.target) && r.targetUid < st.uid)
    && (!Outdated(st.recs, r) ==> c in st.born && r.target in st.born && st.born[c] < st.born[r.target])
  }

  // A committed CNAME that is not outdated points at a hashed record.
  ghost predicate CommittedCnames(st: State)
    requires Wf(st)
  {
    forall c :: c in st.lru && st.recs[c].flags.forward && st.recs[c].flags.cname ==>
      CnamePointer(st, c) && (!Outdated(st.recs, st.recs[c]) ==> Hashed(st, st.recs[c].target))
  }

  // Inside a transaction a CNAME that is not outdated points at a later record of the
  // transaction, committed already or still pending.
  ghost predicate PendingCnames(st: State)
    requires Wf(st)
  {
    forall c :: c in st.pending && st.recs[c].flags.cname ==>
      CnamePointer(st, c) && (!Outdated(st.recs, st.recs[c]) ==>
          st.recs[c].target in st.pending || Hashed(st, st.recs[c].target))
  }

  ghost predicate BornOk(st: State)
    requires Wf(st)
  {
    && (forall c :: c in st.born ==> st.born[c] < st.clock)
    && (forall c :: c in st.lru && InUse(st.recs[c]) ==> c in st.born)
    && (forall c :: c in st.pending ==> c in st.born)
    && (forall i, j :: 0 <= i < j < |st.pending| ==> st.born[st.pending[j]] < st.born[st.pending[i]])
  }

  ghost predicate CnamesOk(st: State)
    requires Wf(st)
  {
    CommittedCnames(st) && PendingCnames(st) && BornOk(st)
  }

  // Long names are held by pool records, on the free list, or still to be allocated.
  ghost function BigHolders(st: State): set<Crec> {
    set c | c in st.recs && st.recs[c].flags.bigname
  }

  ghost function BigNames(st: State): int {
    |BigHolders(st)| + st.bigFree + st.bigLeft
  }

  ghost predicate BigInPool(st: State) {
    forall c :: c in BigHolders(st) ==> InPool(st, c)
  }

  ghost predicate Inv(st: State) {
    && Wf(st)
    && ChainsOrdered(st)
    && PoolOk(st)
    && FreeSuffix(st.recs, st.lru)
    && FlagsOk(st)
    && NoClash(st)
    && CnamesOk(st)
    && BigInPool(st)
  }

  // ---------- Drop ----------

  lemma DropRecs(st: State, b: nat, i: nat)
    requires Wf(st) && b < |st.chains| && i < |st.chains[b]|
    ensures var c := st.chains[b][i]; var t := Drop(st, b, i);
            && c in st.recs
            && t.recs == (if Cached(st.recs[c]) then st.recs[c := Freed(st.recs[c], st.uid)] else st.recs)
            && (Cached(st.recs[c]) <==> c in st.lru)
            && t.uid == (if Cached(st.recs[c]) then st.uid + 1 else st.uid)
            && t.pending == st.pending && t.born == st.born && t.clock == st.clock && t.hash == st.hash &&
                t.insertError == st.insertError
            && t.bigLeft == st.bigLeft
            && t.bigFree == st.bigFree + (if Cached(st.recs[c]) && st.recs[c].flags.bigname then 1 else 0)
            && |t.chains| == |st.chains|
  {
    assert ChainOk(st, b) && st.chains[b][i] in st.chains[b];
  }

  lemma OrderedRemove(recs: map<Crec, Rec>, ch: seq<Crec>, i: nat)
    requires Ordered(recs, ch) && i < |ch|
    ensures Ordered(recs, RemoveAt(ch, i))
  {
    var r := RemoveAt(ch, i);
    assert forall k :: 0 <= k < |r| ==> r[k] == ch[if k < i then k else k + 1];
  }

  lemma OrderedFrame(recs: map<Crec, Rec>, recs': map<Crec, Rec>, ch: seq<Crec>, c: Crec)
    requires Ordered(recs, ch) && c !in ch
    requires forall x :: x in recs && x != c ==> x in recs' && recs'[x].flags == recs[x].flags
    ensures Ordered(recs', ch)
  {
  }

  lemma DropOrdered(st: State, b: nat, i: nat)
    requires Wf(st) && ChainsOrdered(st) && b < |st.chains| && i < |st.chains[b]|
    ensures ChainsOrdered(Drop(st, b, i))
  {
    DropRecs(st, b, i);
    DropWf(st, b, i);
    var t, c := Drop(st, b, i), st.chains[b][i];
    OrderedRemove(st.recs, st.chains[b], i);
    forall d | 0 <= d < |t.chains|
      ensures Ordered(t.recs, t.chains[d])
    {
      assert Ordered(st.recs, st.chains[d]);
      assert ChainOk(t, d);
      assert !Hashed(t, c) && Ordered(st.recs, t.chains[d]);
      assert c !in t.chains[d];
    }
  }

  lemma FreeSuffixMove(recs: map<Crec, Rec>, lru: seq<Crec>, c: Crec, uid: int)
    requires FreeSuffix(recs, lru) && Distinct(lru) && c in lru
    ensures FreeSuffix(recs[c := Freed(recs[c], uid)], RemoveAt(lru, IndexOf(lru, c)) + [c])
  {
    var k := IndexOf(lru, c);
    var l := RemoveAt(lru, k) + [c];
    assert forall m :: 0 <= m < |l| - 1 ==> l[m] == lru[if m < k then m else m + 1] && l[m] != c;
  }

  lemma DropPool(st: State, b: nat, i: nat)
    requires Wf(st) && PoolOk(st) && b < |st.chains| && i < |st.chains[b]|
    ensures Wf(Drop(st, b, i)) && PoolOk(Drop(st, b, i))
  {
    DropWf(st, b, i);
    DropRecs(st, b, i);
  }

  lemma DropFreeSuffix(st: State, b: nat, i: nat)
    requires Wf(st) && FreeSuffix(st.recs, st.lru) && b < |st.chains| && i < |st.chains[b]|
    ensures FreeSuffix(Drop(st, b, i).recs, Drop(st, b, i).lru)
  {
    DropRecs(st, b, i);
    if Cached(st.recs[st.chains[b][i]]) {
      FreeSuffixMove(st.recs, st.lru, st.chains[b][i], st.uid);
    }
  }

  // What a drop does to everything but the order of the lists.
  ghost predicate Dropped(st: State, t: State, c: Crec)
    requires Wf(st) && Wf(t)
  {
    && c in st.recs && c !in st.pending
    && t.recs.Keys == st.recs.Keys
    && (forall x :: x in st.recs && x != c ==> t.recs[x] == st.recs[x])
    && t.recs[c] == (if c in st.lru then Freed(st.recs[c], st.uid) else st.recs[c])
    && (forall x :: x in st.recs ==> (Hashed(t, x) <==> Hashed(st, x) && x != c))
    && (forall x :: x in st.recs ==> (x in t.lru <==> x in st.lru))
    && t.pending == st.pending && t.born == st.born && t.clock == st.clock
    && t.bigLeft == st.bigLeft
    && t.bigFree == st.bigFree + (if c in st.lru && st.recs[c].flags.bigname then 1 else 0)
    && st.uid <= t.uid && (c in st.lru ==> st.uid < t.uid)
  }

  lemma DropIsDropped(st: State, b: nat, i: nat)
    requires Wf(st) && b < |st.chains| && i < |st.chains[b]|
    ensures Wf(Drop(st, b, i)) && Dropped(st, Drop(st, b, i), st.chains[b][i])
  {
    DropWf(st, b, i);
    DropRecs(st, b, i);
    assert ChainOk(st, b);
  }

  lemma DroppedFlags(st: State, t: State, c: Crec)
    requires Wf(st) && Wf(t) && Dropped(st, t, c) && FlagsOk(st)
    ensures FlagsOk(t)
  {
  }

  lemma DroppedNoClash(st: State, t: State, c: Crec)
    requires Wf(st) && Wf(t) && Dropped(st, t, c) && NoClash(st)
    ensures NoClash(t)
    ensures PendingNoClash(st) ==> PendingNoClash(t)
  {
    forall h | h in t.recs && Fixed(t, h)
      ensures Fixed(st, h) && t.recs[h] == st.recs[h]
    {
    }
  }

  lemma DroppedPointer(st: State, t: State, c: Crec, x: Crec)
    requires Wf(st) && Wf(t) && Dropped(st, t, c)
    requires x in st.recs && x != c && st.recs[x].flags.cname && CnamePointer(st, x)
    requires forall y :: y in st.recs && InPool(st, y) ==> st.recs[y].uid < st.uid
    ensures CnamePointer(t, x)
    ensures !Outdated(t.recs, t.recs[x]) ==> !Outdated(st.recs, st.recs[x]) && st.recs[x].target != c
  {
  }

  lemma DroppedCommitted(st: State, t: State, c: Crec)
    requires Wf(st) && Wf(t) && Dropped(st, t, c) && PoolOk(st) && CommittedCnames(st)
    ensures CommittedCnames(t)
  {
    forall x | x in t.lru && t.recs[x].flags.forward && t.recs[x].flags.cname
      ensures CnamePointer(t, x) && (!Outdated(t.recs, t.recs[x]) ==> Hashed(t, t.recs[x].target))
    {
      assert x != c && x in st.lru;
      DroppedPointer(st, t, c, x);
    }
  }

  lemma DroppedPending(st: State, t: State, c: Crec)
    requires Wf(st) && Wf(t) && Dropped(st, t, c) && PoolOk(st) && PendingCnames(st)
    ensures PendingCnames(t)
  {
    forall x | x in t.pending && t.recs[x].flags.cname
      ensures CnamePointer(t, x)
      ensures (!Outdated(t.recs, t.recs[x]) ==> t.recs[x].target in t.pending || Hashed(t, t.recs[x].target))
    {
      DroppedPointer(st, t, c, x);
    }
  }

  lemma DroppedBigNames(st: State, t: State, c: Crec)
    requires Wf(st) && Wf(t) && Dropped(st, t, c) && BigInPool(st)
    ensures BigInPool(t) && BigNames(t) == BigNames(st)
  {
    hide Hashed, Distinct, ChainOk;
    if c in st.lru && st.recs[c].flags.bigname {
      assert BigHolders(t) == BigHolders(st) - {c};
      assert c in BigHolders(st);
    } else {
      assert BigHolders(t) == BigHolders(st);
    }
  }

  lemma DropInv(st: State, b: nat, i: nat)
    requires Inv(st) && b < |st.chains| && i < |st.chains[b]|
    ensures Inv(Drop(st, b, i)) && BigNames(Drop(st, b, i)) == BigNames(st)
    ensures PendingNoClash(st) ==> PendingNoClash(Drop(st, b, i))
  {
    DropOrdered(st, b, i);
    DropPool(st, b, i);
    DropFreeSuffix(st, b, i);
    DropIsDropped(st, b, i);
    var t, c := Drop(st, b, i), st.chains[b][i];
    DroppedFlags(st, t, c);
    DroppedNoClash(st, t, c);
    DroppedCommitted(st, t, c);
    DroppedPending(st, t, c);
    DroppedBigNames(st, t, c);
  }

  // What the record is afterwards: a pool record is free, at the tail of the list, with a
  // uid no record had before, so every CNAME that pointed at it is outdated.
  lemma DropGivesBack(st: State, b: nat, i: nat)
    requires Inv(st) && b < |st.chains| && i < |st.chains[b]|
    ensures var t, c := Drop(st, b, i), st.chains[b][i];
      && c in st.recs && t.recs.Keys == st.recs.Keys
      && (forall x :: x in st.recs && x != c ==> t.recs[x] == st.recs[x])
      && (Cached(st.recs[c]) ==> GivenBack(st, t, c) && Disowned(t, c))
      && (!Cached(st.recs[c]) ==> t == st.(chains := t.chains))
  {
    hide Drop, NoClash, FreeSuffix, ChainsOrdered, BigInPool, BigNames, FlagsOk, CommittedCnames, PoolOk, InUse;
    var t, c := Drop(st, b, i), st.chains[b][i];
    DropRecs(st, b, i);
    DropRest(st, b, i);
    hide Wf, Outdated;
    if Cached(st.recs[c]) {
      MovedGivenBack(st, t, c);
      MovedDisowned(st, t, c);
    }
  }

  lemma DropRest(st: State, b: nat, i: nat)
    requires Wf(st) && b < |st.chains| && i < |st.chains[b]| && st.chains[b][i] in st.recs
    ensures var t, c := Drop(st, b, i), st.chains[b][i];
      && (Cached(st.recs[c]) ==> c in st.lru && t.lru == RemoveAt(st.lru, IndexOf(st.lru, c)) + [c])
      && (!Cached(st.recs[c]) ==> t == st.(chains := t.chains))
  {
    hide RemoveAt, IndexOf;
    assert ChainOk(st, b);
  }

  lemma MovedGivenBack(st: State, t: State, c: Crec)
    requires Wf(st) && PoolOk(st) && c in st.lru && c in st.recs && t.uid == st.uid + 1
    requires t.recs == st.recs[c := Freed(st.recs[c], st.uid)]
    requires t.lru == RemoveAt(st.lru, IndexOf(st.lru, c)) + [c]
    ensures GivenBack(st, t, c)
  {
    hide Wf;
    var k := IndexOf(st.lru, c);
    assert t.lru == st.lru[..k] + st.lru[k + 1..] + [c];
  }

  lemma MovedDisowned(st: State, t: State, c: Crec)
    requires Wf(st) && CommittedCnames(st) && c in st.lru && c in st.recs
    requires t.recs == st.recs[c := Freed(st.recs[c], st.uid)]
    requires t.lru == RemoveAt(st.lru, IndexOf(st.lru, c)) + [c]
    ensures Disowned(t, c)
  {
    forall x | x in t.lru && x in t.recs && x != c && CnameTo(t.recs[x], c)
      ensures Outdated(t.recs, t.recs[x])
    {
      assert x in st.lru && CnamePointer(st, x);
    }
  }

  ghost predicate GivenBack(st: State, t: State, c: Crec)
    requires c in st.recs && c in t.recs
  {
    && !InUse(t.recs[c]) && !t.recs[c].flags.bigname && t.recs[c].name == st.recs[c].name
    && (forall x :: x in st.recs && InPool(st, x) ==> st.recs[x].uid < t.recs[c].uid)
    && t.recs[c].uid < t.uid
    && exists k :: 0 <= k < |st.lru| && st.lru[k] == c && t.lru == st.lru[..k] + st.lru[k + 1..] + [c]
  }

  predicate CnameTo(r: Rec, c: Crec) {
    r.flags.forward && r.flags.cname && r.target == c
  }

  // No cached CNAME is taken to point at c.
  ghost predicate Disowned(t: State, c: Crec) {
    forall x :: x in t.lru && x in t.recs && x != c && CnameTo(t.recs[x], c) ==> Outdated(t.recs, t.recs[x])
  }
}
