// Ending a transaction: linking CNAMEs to their targets, releasing what was not
// committed, and moving new_chain into the hash table and the LRU list.
module CacheCommit {
  import opened CacheState
  import opened CacheInvariant
  import opened CacheSweep
  import opened CacheInsert

  // ---------- cache_hash ----------

  ghost function SkipReverse(recs: map<Crec, Rec>, ch: seq<Crec>, i: nat): (p: nat)
    requires i <= |ch| && forall c :: c in ch ==> c in recs
    ensures i <= p <= |ch|
    ensures forall k :: i <= k < p ==> recs[ch[k]].flags.reverse
    ensures p < |ch| ==> !recs[ch[p]].flags.reverse
    decreases |ch| - i
  {
    if i < |ch| && recs[ch[i]].flags.reverse then SkipReverse(recs, ch, i + 1) else i
  }

  ghost function SkipMortal(recs: map<Crec, Rec>, ch: seq<Crec>, i: nat): (p: nat)
    requires i <= |ch| && forall c :: c in ch ==> c in recs
    ensures i <= p <= |ch|
    ensures forall k :: i <= k < p ==> !recs[ch[k]].flags.immortal
    ensures p < |ch| ==> recs[ch[p]].flags.immortal
    decreases |ch| - i
  {
    if i < |ch| && !recs[ch[i]].flags.immortal then SkipMortal(recs, ch, i + 1) else i
  }

  ghost function HashPos(recs: map<Crec, Rec>, ch: seq<Crec>, f: Flags): (p: nat)
    requires forall c :: c in ch ==> c in recs
    ensures p <= |ch|
  {
    if f.reverse then 0
    else if f.immortal then SkipMortal(recs, ch, SkipReverse(recs, ch, 0))
    else SkipReverse(recs, ch, 0)
  }

  ghost function HashIn(st: State, c: Crec): State
    requires Wf(st) && c in st.recs
  {
    var b := Bucket(st, st.recs[c].name);
    ChainRecs(st, b);
    st.(chains := st.chains[b := InsertAt(st.chains[b], HashPos(st.recs, st.chains[b], st.recs[c].flags), c)])
  }

  lemma OrderedInsert(recs: map<Crec, Rec>, ch: seq<Crec>, c: Crec)
    requires Ordered(recs, ch) && c in recs
    ensures Ordered(recs, InsertAt(ch, HashPos(recs, ch, recs[c].flags), c))
  {
    var p, cl := HashPos(recs, ch, recs[c].flags), recs[c].flags.Class();
    if !recs[c].flags.reverse {
      var q := SkipReverse(recs, ch, 0);
      assert forall k :: q <= k < |ch| ==> recs[ch[k]].flags.Class() >= 1;
    }
    assert p < |ch| ==> recs[ch[p]].flags.Class() >= cl;
    hide SkipReverse, SkipMortal, HashPos, InsertAt;
    InsertBetween(recs, ch, p, c);
  }

  lemma InsertBetween(recs: map<Crec, Rec>, ch: seq<Crec>, p: nat, c: Crec)
    requires Ordered(recs, ch) && c in recs && p <= |ch|
    requires forall k :: 0 <= k < p ==> recs[ch[k]].flags.Class() <= recs[c].flags.Class()
    requires p < |ch| ==> recs[ch[p]].flags.Class() >= recs[c].flags.Class()
    ensures Ordered(recs, InsertAt(ch, p, c))
  {
    var r := InsertAt(ch, p, c);
    assert forall k :: 0 <= k < |r| ==> r[k] == if k < p then ch[k] else if k == p then c else ch[k - 1];
  }

  // ---------- the three steps ----------

  // The caller's pointer from a CNAME to the record inserted after it.
  ghost function LinkCname(st: State, cpp: Crec, newc: Crec): State
    requires cpp in st.recs && newc in st.recs
  {
    st.(recs := st.recs[cpp := st.recs[cpp].(target := newc, targetUid := st.recs[newc].uid)])
  }

  ghost function ReleaseFirst(st: State): State
    requires st.pending != [] && st.pending[0] in st.recs
  {
    Free(st.(pending := st.pending[1..]), st.pending[0])
  }

  ghost function CommitFirst(st: State): State
    requires Wf(st) && st.pending != []
  {
    var s := st.(pending := st.pending[1..]);
    PopPendingWf(st);
    Link(HashIn(s, st.pending[0]), st.pending[0])
  }

  lemma PopPendingWf(st: State)
    requires Wf(st) && st.pending != []
    ensures Wf(st.(pending := st.pending[1..]))
    ensures var t := st.(pending := st.pending[1..]);
            && st.pending[0] in st.recs && st.pending[0] !in t.pending && st.pending[0] !in t.lru
            && (forall x :: x in st.pending <==> x in t.pending || x == st.pending[0])
            && (forall x :: x in st.recs ==> (Hashed(t, x) <==> Hashed(st, x)))
            && !Hashed(t, st.pending[0])
  {
    var t := st.(pending := st.pending[1..]);
    assert st.pending == [st.pending[0]] + t.pending;
    forall b | 0 <= b < |t.chains|
      ensures ChainOk(t, b) && st.pending[0] !in t.chains[b]
    {
      assert ChainOk(st, b);
    }
  }

  ghost function ReleaseAll(st: State): (t: State)
    requires Wf(st)
    ensures Wf(t)
    decreases |st.pending|
  {
    if st.pending == [] then st else ReleaseFirstWf(st); ReleaseAll(ReleaseFirst(st))
  }

  ghost function StartInsert(st: State): State
    requires Wf(st)
  {
    ReleaseAll(st).(insertError := false)
  }

  ghost function CommitAll(st: State): (t: State)
    requires Wf(st)
    ensures Wf(t)
    decreases |st.pending|
  {
    if st.pending == [] then st
    else
      var c := st.pending[0];
      if Outdated(st.recs, st.recs[c]) then ReleaseFirstWf(st); CommitAll(ReleaseFirst(st))
      else CommitFirstWf(st); CommitAll(CommitFirst(st))
  }

  ghost function EndInsert(st: State): State
    requires Wf(st)
  {
    if st.insertError then st else CommitAll(st)
  }

  lemma ReleaseFirstWf(st: State)
    requires Wf(st) && st.pending != []
    ensures st.pending[0] in st.recs
    ensures Wf(ReleaseFirst(st)) && Released(st, ReleaseFirst(st), st.pending[0])
  {
    PopPendingWf(st);
    FreeWf(st.(pending := st.pending[1..]), st.pending[0]);
  }

  // Everything a release changes.
  ghost predicate Released(st: State, t: State, c: Crec)
    requires Wf(st) && Wf(t)
  {
    && st.pending == [c] + t.pending && c in st.recs && c !in t.pending && c !in st.lru && !Hashed(st, c)
    && t.recs == st.recs[c := Freed(st.recs[c], st.uid)] && t.uid == st.uid + 1
    && t.lru == st.lru + [c]
    && (forall x :: x in st.recs ==> (Hashed(t, x) <==> Hashed(st, x)))
    && t.chains == st.chains && t.born == st.born && t.clock == st.clock && t.insertError == st.insertError
    && t.hash == st.hash
    && t.bigFree == st.bigFree + (if st.recs[c].flags.bigname then 1 else 0) && t.bigLeft == st.bigLeft
  }

  lemma CommitFirstWf(st: State)
    requires Wf(st) && st.pending != [] && st.pending[0] in st.recs
    ensures Wf(CommitFirst(st)) && Committed(st, CommitFirst(st), st.pending[0])
  {
    PopPendingWf(st);
    var s, c, t := st.(pending := st.pending[1..]), st.pending[0], CommitFirst(st);
    var b := Bucket(st, st.recs[c].name);
    ChainRecs(s, b);
    assert ChainOk(s, b);
    InsertAtDistinct(s.chains[b], HashPos(s.recs, s.chains[b], s.recs[c].flags), c);
    forall d | 0 <= d < |t.chains|
      ensures ChainOk(t, d)
    {
      assert ChainOk(s, d);
    }
  }

  // Everything a commit changes.
  ghost predicate Committed(st: State, t: State, c: Crec)
    requires Wf(st) && Wf(t)
  {
    && st.pending == [c] + t.pending && c in st.recs && c !in t.pending && c !in st.lru && !Hashed(st, c)
    && t.recs == st.recs && t.uid == st.uid && |t.chains| == |st.chains|
    && t.lru == [c] + st.lru
    && (forall x :: x in st.recs ==> (Hashed(t, x) <==> Hashed(st, x) || x == c))
    && t.born == st.born && t.clock == st.clock && t.insertError == st.insertError && t.hash == st.hash
    && t.bigFree == st.bigFree && t.bigLeft == st.bigLeft
  }

  lemma CommitOrdered(st: State)
    requires Wf(st) && st.pending != [] && st.pending[0] in st.recs && ChainsOrdered(st)
    ensures ChainsOrdered(CommitFirst(st))
  {
    PopPendingWf(st);
    var s, c, t := st.(pending := st.pending[1..]), st.pending[0], CommitFirst(st);
    var b := Bucket(st, st.recs[c].name);
    assert Ordered(st.recs, st.chains[b]);
    OrderedInsert(st.recs, st.chains[b], c);
    forall d | 0 <= d < |t.chains|
      ensures Ordered(t.recs, t.chains[d])
    {
      assert Ordered(st.recs, st.chains[d]);
    }
  }

  // ---------- releases keep the invariant ----------

  lemma ReleasedLists(st: State, t: State, c: Crec)
    requires Wf(st) && Wf(t) && Released(st, t, c) && ChainsOrdered(st) && PoolOk(st) && FreeSuffix(st.recs, st.lru)
    ensures ChainsOrdered(t) && PoolOk(t) && FreeSuffix(t.recs, t.lru)
  {
    hide Wf, Released, ChainsOrdered, PoolOk, FreeSuffix;
    ReleasedOrder(st, t, c);
    ReleasedPool(st, t, c);
    ReleasedSuffix(st, t, c);
  }

  lemma ReleasedOrder(st: State, t: State, c: Crec)
    requires Wf(st) && Wf(t) && Released(st, t, c) && ChainsOrdered(st)
    ensures ChainsOrdered(t)
  {
    forall b | 0 <= b < |t.chains|
      ensures Ordered(t.recs, t.chains[b])
    {
      assert Ordered(st.recs, st.chains[b]) && ChainOk(st, b);
      OrderedFrame(st.recs, t.recs, st.chains[b], c);
    }
  }

  lemma ReleasedPool(st: State, t: State, c: Crec)
    requires Wf(st) && Wf(t) && Released(st, t, c) && PoolOk(st)
    ensures PoolOk(t)
  {
    hide Distinct, ChainOk;
  }

  lemma ReleasedSuffix(st: State, t: State, c: Crec)
    requires Wf(st) && Wf(t) && Released(st, t, c) && FreeSuffix(st.recs, st.lru)
    ensures FreeSuffix(t.recs, t.lru)
  {
    hide Distinct, ChainOk, Hashed;
  }

  lemma ReleasedFlags(st: State, t: State, c: Crec)
    requires Wf(st) && Wf(t) && Released(st, t, c) && FlagsOk(st) && NoClash(st)
    ensures FlagsOk(t) && NoClash(t)
    ensures PendingNoClash(st) ==> PendingNoClash(t)
  {
    forall h | h in t.recs && Fixed(t, h)
      ensures Fixed(st, h)
    {
    }
  }

  lemma ReleasedPointer(st: State, t: State, c: Crec, x: Crec)
    requires Wf(st) && Wf(t) && Released(st, t, c) && PoolOk(st)
    requires x in st.recs && x != c && st.recs[x].flags.cname && CnamePointer(st, x)
    ensures CnamePointer(t, x)
    ensures !Outdated(t.recs, t.recs[x]) ==> !Outdated(st.recs, st.recs[x]) && st.recs[x].target != c
  {
  }

  lemma ReleasedCnames(st: State, t: State, c: Crec)
    requires Wf(st) && Wf(t) && Released(st, t, c) && PoolOk(st) && CommittedCnames(st) && PendingCnames(st)
    ensures CommittedCnames(t) && PendingCnames(t)
  {
    forall x | x in t.lru && t.recs[x].flags.forward && t.recs[x].flags.cname
      ensures CnamePointer(t, x) && (!Outdated(t.recs, t.recs[x]) ==> Hashed(t, t.recs[x].target))
    {
      ReleasedPointer(st, t, c, x);
    }
    forall x | x in t.pending && t.recs[x].flags.cname
      ensures CnamePointer(t, x)
      ensures (!Outdated(t.recs, t.recs[x]) ==> t.recs[x].target in t.pending || Hashed(t, t.recs[x].target))
    {
      assert x in st.pending;
      ReleasedPointer(st, t, c, x);
    }
  }

  lemma ReleasedBorn(st: State, t: State, c: Crec)
    requires Wf(st) && Wf(t) && Released(st, t, c) && BornOk(st)
    ensures BornOk(t)
  {
    assert forall i :: 0 <= i < |t.pending| ==> t.pending[i] == st.pending[i + 1];
  }

  lemma ReleasedBig(st: State, t: State, c: Crec)
    requires Wf(st) && Wf(t) && Released(st, t, c) && BigInPool(st)
    ensures BigInPool(t) && BigNames(t) == BigNames(st)
  {
    hide Distinct, ChainOk, Hashed;
    if st.recs[c].flags.bigname {
      assert BigHolders(t) == BigHolders(st) - {c};
      assert c in BigHolders(st);
    } else {
      assert BigHolders(t) == BigHolders(st);
    }
  }

  lemma ReleaseInv(st: State)
    requires Inv(st) && st.pending != []
    ensures st.pending[0] in st.recs
    ensures var t := ReleaseFirst(st); Inv(t) && BigNames(t) == BigNames(st)
    ensures PendingNoClash(st) ==> PendingNoClash(ReleaseFirst(st))
  {
    var t, c := ReleaseFirst(st), st.pending[0];
    ReleaseFirstWf(st);
    hide Wf, ChainsOrdered, PoolOk, FreeSuffix, FlagsOk, NoClash, CommittedCnames, PendingCnames, BornOk;
    hide BigInPool, BigNames, PendingNoClash, ReleaseFirst, Released;
    ReleasedLists(st, t, c);
    ReleasedFlags(st, t, c);
    ReleasedCnames(st, t, c);
    ReleasedBorn(st, t, c);
    ReleasedBig(st, t, c);
  }

  // ---------- commits keep the invariant ----------

  lemma CommittedPool(st: State, t: State, c: Crec)
    requires Wf(st) && Wf(t) && Committed(st, t, c) && PoolOk(st) && FreeSuffix(st.recs, st.lru) && FlagsOk(st)
    ensures PoolOk(t) && FreeSuffix(t.recs, t.lru) && FlagsOk(t)
  {
    hide Distinct, ChainOk, Hashed;
    assert c in st.pending;
    assert PoolOk(t) by { hide FlagsOk, FreeSuffix; }
    assert FlagsOk(t) by { hide PoolOk, FreeSuffix; }
    assert forall i :: 1 <= i < |t.lru| ==> t.lru[i] == st.lru[i - 1];
  }

  lemma CommittedClash(st: State, t: State, c: Crec)
    requires Wf(st) && Wf(t) && Committed(st, t, c) && NoClash(st) && PendingNoClash(st)
    ensures NoClash(t) && PendingNoClash(t)
  {
    assert c in st.pending;
    forall h | h in t.recs && Fixed(t, h)
      ensures Fixed(st, h)
    {
    }
  }

  lemma CommittedPointers(st: State, t: State, c: Crec)
    requires Wf(st) && Wf(t) && Committed(st, t, c) && CommittedCnames(st) && PendingCnames(st) && BornOk(st)
    requires !Outdated(st.recs, st.recs[c])
    ensures CommittedCnames(t)
  {
    assert c in st.pending;
    forall x | x in t.lru && t.recs[x].flags.forward && t.recs[x].flags.cname
      ensures CnamePointer(t, x) && (!Outdated(t.recs, t.recs[x]) ==> Hashed(t, t.recs[x].target))
    {
      assert x == c ==> st.recs[c].target != c;
    }
  }

  lemma CommittedRest(st: State, t: State, c: Crec)
    requires Wf(st) && Wf(t) && Committed(st, t, c) && PendingCnames(st) && BornOk(st) && BigInPool(st)
    ensures PendingCnames(t) && BornOk(t) && BigInPool(t) && BigNames(t) == BigNames(st)
  {
    assert c in st.pending;
    forall x | x in t.pending && t.recs[x].flags.cname
      ensures CnamePointer(t, x)
      ensures (!Outdated(t.recs, t.recs[x]) ==> t.recs[x].target in t.pending || Hashed(t, t.recs[x].target))
    {
      assert x in st.pending;
    }
    assert forall i :: 0 <= i < |t.pending| ==> t.pending[i] == st.pending[i + 1];
    assert BigHolders(t) == BigHolders(st);
  }

  lemma CommitInv(st: State)
    requires TxnInv(st) && st.pending != [] && !Outdated(st.recs, st.recs[st.pending[0]])
    ensures var t := CommitFirst(st); TxnInv(t) && BigNames(t) == BigNames(st)
  {
    var t, c := CommitFirst(st), st.pending[0];
    assert c in st.pending;
    CommitFirstWf(st);
    CommitOrdered(st);
    hide Wf, ChainsOrdered, PoolOk, FreeSuffix, FlagsOk, NoClash, CommittedCnames, PendingCnames, BornOk;
    hide BigInPool, BigNames, PendingNoClash, CommitFirst, Committed;
    CommittedPool(st, t, c);
    CommittedClash(st, t, c);
    CommittedPointers(st, t, c);
    CommittedRest(st, t, c);
  }

  // ---------- whole transactions ----------

  lemma {:induction false} ReleaseAllInv(st: State)
    requires Inv(st)
    ensures var t := ReleaseAll(st); Inv(t) && t.pending == [] && BigNames(t) == BigNames(st)
    decreases |st.pending|
  {
    hide ChainsOrdered, PoolOk, FreeSuffix, FlagsOk, NoClash, CnamesOk, BigInPool, BigNames, PendingNoClash;
    hide Distinct, ChainOk;
    if st.pending != [] {
      ReleaseInv(st);
      ReleaseFirstWf(st);
      ReleaseAllInv(ReleaseFirst(st));
    }
  }

  // cache_start_insert opens a transaction from any reachable state, giving back
  // whatever an abandoned one left on new_chain.
  lemma StartInsertInv(st: State)
    requires Inv(st)
    ensures var t := StartInsert(st); TxnInv(t) && t.pending == [] && !t.insertError && BigNames(t) == BigNames(st)
  {
    ReleaseAllInv(st);
    hide ChainsOrdered, PoolOk, FreeSuffix, FlagsOk, NoClash, CnamesOk, BigInPool, Distinct, ChainOk, BigHolders;
    hide SameTables;
    var s := ReleaseAll(st);
    assert SameTables(s, s.(insertError := false)) by { NoErrorIsSameTables(s); }
    FrameTxn(s, s.(insertError := false));
  }

  lemma NoErrorIsSameTables(st: State)
    ensures SameTables(st, st.(insertError := false))
  {
  }

  // Entry i of new_chain leads, through CNAME targets, to a record that is not a CNAME
  // (or to one that is committed already).
  ghost predicate Reaches(st: State, i: nat)
    requires Wf(st) && i < |st.pending|
    decreases i
  {
    var r := st.recs[st.pending[i]];
    || !r.flags.cname
    || (&& !Outdated(st.recs, r)
        && (|| Hashed(st, r.target)
            || exists j :: 0 <= j < i && st.pending[j] == r.target && Reaches(st, j)))
  }

  lemma FirstReaches(st: State)
    requires TxnInv(st) && st.pending != []
    ensures Reaches(st, 0) <==> !Outdated(st.recs, st.recs[st.pending[0]])
  {
    var c := st.pending[0];
    assert c in st.pending;
    var r := st.recs[c];
  }

  lemma {:induction false} ReachesAfterCommit(st: State, t: State, i: nat)
    requires TxnInv(st) && Wf(t) && st.pending != [] && i < |t.pending|
    requires !Outdated(st.recs, st.recs[st.pending[0]]) && Committed(st, t, st.pending[0])
    ensures Reaches(st, i + 1) <==> Reaches(t, i)
    decreases i
  {
    hide ChainsOrdered, PoolOk, FreeSuffix, FlagsOk, NoClash, CnamesOk, BigInPool, PendingNoClash, Distinct, ChainOk;
    FirstReaches(st);
    var c := st.pending[0];
    assert forall j :: 0 <= j < |t.pending| ==> t.pending[j] == st.pending[j + 1];
    forall j | 0 <= j < i
      ensures Reaches(st, j + 1) <==> Reaches(t, j)
    {
      ReachesAfterCommit(st, t, j);
    }
    assert t.pending[i] in t.pending;
    var r := st.recs[st.pending[i + 1]];
    if r.flags.cname && !Outdated(st.recs, r) {
      if Reaches(st, i + 1) && !Hashed(t, r.target) {
        var j :| 0 <= j < i + 1 && st.pending[j] == r.target && Reaches(st, j);
        assert j > 0 && t.pending[j - 1] == r.target && Reaches(t, j - 1);
      }
      if Reaches(t, i) && !Hashed(st, r.target) {
        if r.target == c {
          assert st.pending[0] == r.target && Reaches(st, 0);
        } else {
          var j :| 0 <= j < i && t.pending[j] == r.target && Reaches(t, j);
          assert st.pending[j + 1] == r.target && Reaches(st, j + 1);
        }
      }
    }
  }

  lemma ReachesReleased(st: State, t: State, i: nat)
    requires Wf(st) && Wf(t) && st.pending != [] && i < |t.pending| && Released(st, t, st.pending[0]) && !Reaches(st, 0)
    requires forall j :: 0 <= j < i ==> (Reaches(st, j + 1) <==> Reaches(t, j))
    requires var x := t.pending[i];
      x in st.recs && x != st.pending[0]
      && (st.recs[x].flags.cname && !Outdated(t.recs, st.recs[x]) ==>
          !Outdated(st.recs, st.recs[x]) && st.recs[x].target != st.pending[0])
    ensures Reaches(st, i + 1) <==> Reaches(t, i)
  {
    hide Distinct, ChainOk, Hashed, Reaches;
    var x := t.pending[i];
    var r := st.recs[x];
    assert st.pending[i + 1] == x && t.recs[x] == r;
    ReachesIs(st, i + 1);
    ReachesIs(t, i);
    ReleasedHashed(st, t, r);
    if r.flags.cname {
      if (exists j :: 0 <= j < i + 1 && st.pending[j] == r.target && Reaches(st, j)) {
        var j :| 0 <= j < i + 1 && st.pending[j] == r.target && Reaches(st, j);
        assert j > 0 && t.pending[j - 1] == r.target && Reaches(t, j - 1);
      }
      if (exists j :: 0 <= j < i && t.pending[j] == r.target && Reaches(t, j)) {
        var j :| 0 <= j < i && t.pending[j] == r.target && Reaches(t, j);
        assert st.pending[j + 1] == r.target && Reaches(st, j + 1);
      }
    }
  }

  lemma ReachesIs(st: State, i: nat)
    requires Wf(st) && i < |st.pending|
    ensures st.pending[i] in st.recs
    ensures var r := st.recs[st.pending[i]];
      Reaches(st, i) <==>
        (!r.flags.cname
         || (!Outdated(st.recs, r)
             && (Hashed(st, r.target) || exists j :: 0 <= j < i && st.pending[j] == r.target && Reaches(st, j))))
  {
  }

  // The record released is in no chain before, and outdates the pointers to it.
  lemma ReleasedHashed(st: State, t: State, r: Rec)
    requires Wf(st) && Wf(t) && st.pending != [] && Released(st, t, st.pending[0])
    ensures r.flags.cname && !Outdated(st.recs, r) && r.target != st.pending[0] ==>
      !Outdated(t.recs, r) && (Hashed(t, r.target) <==> Hashed(st, r.target))
    ensures r.flags.cname && !Outdated(st.recs, r) && r.target == st.pending[0] ==> !Hashed(st, r.target)
  {
    hide Hashed, Distinct, ChainOk;
  }

  lemma {:induction false} ReachesAfterRelease(st: State, t: State, i: nat)
    requires TxnInv(st) && Wf(t) && st.pending != [] && i < |t.pending|
    requires Outdated(st.recs, st.recs[st.pending[0]]) && Released(st, t, st.pending[0])
    ensures Reaches(st, i + 1) <==> Reaches(t, i)
    decreases i
  {
    hide ChainsOrdered, FreeSuffix, FlagsOk, NoClash, BigInPool, PendingNoClash, Distinct, ChainOk, Reaches;
    FirstReaches(st);
    assert forall j :: 0 <= j < |t.pending| ==> t.pending[j] == st.pending[j + 1];
    forall j | 0 <= j < i
      ensures Reaches(st, j + 1) <==> Reaches(t, j)
    {
      ReachesAfterRelease(st, t, j);
    }
    var x := st.pending[i + 1];
    assert x == t.pending[i] && x in t.pending && x in st.pending && x != st.pending[0];
    if st.recs[x].flags.cname {
      ReleasedPointer(st, t, st.pending[0], x);
    }
    ReachesReleased(st, t, i);
  }

  // What committing the records of st means for the state t that results.
  ghost predicate CommitOk(st: State, t: State)
    requires Wf(st) && Wf(t)
  {
    && t.pending == [] && t.recs.Keys == st.recs.Keys
    && t.insertError == st.insertError && t.hash == st.hash && |t.chains| == |st.chains|
    && (forall i :: 0 <= i < |st.pending| ==> (Hashed(t, st.pending[i]) <==> Reaches(st, i)))
    && (forall x :: x in st.recs && x !in st.pending ==> (Hashed(t, x) <==> Hashed(st, x)) && t.recs[x] == st.recs[x])
  }

  // What handling the first record of new_chain does.
  ghost predicate Stepped(st: State, s: State)
    requires Wf(st) && Wf(s)
  {
    && st.pending != [] && st.pending[0] in st.recs
    && s.pending == st.pending[1..] && s.recs.Keys == st.recs.Keys && s.insertError == st.insertError
    && s.hash == st.hash && |s.chains| == |st.chains|
    && (forall i :: 0 <= i < |s.pending| ==> (Reaches(st, i + 1) <==> Reaches(s, i)))
    && (forall x :: x in st.recs && x != st.pending[0] ==> (Hashed(s, x) <==> Hashed(st, x)) && s.recs[x] == st.recs[x])
  }

  lemma CommitOkStep(st: State, s: State, t: State)
    requires Wf(st) && Wf(s) && Wf(t) && st.pending != [] && CommitOk(s, t) && Stepped(st, s)
    requires Hashed(s, st.pending[0]) <==> Reaches(st, 0)
    ensures CommitOk(st, t)
  {
    hide Wf, Reaches, Hashed, Stepped, CommitOk;
    SteppedMembers(st, s);
    assert |st.chains| > 0 && |t.chains| > 0 by { TableThere(st); TableThere(t); }
    forall i | 0 <= i < |st.pending|
      ensures st.pending[i] in t.recs && (Hashed(t, st.pending[i]) <==> Reaches(st, i))
    {
      SteppedEntry(st, s, t, i);
    }
    forall x | x in st.recs && x !in st.pending
      ensures x in t.recs && (Hashed(t, x) <==> Hashed(st, x)) && t.recs[x] == st.recs[x]
    {
      SteppedOther(st, s, t, x);
    }
    SteppedRest(st, s, t);
  }

  lemma TableThere(st: State)
    requires Wf(st)
    ensures |st.chains| > 0
  {
  }

  lemma SteppedMembers(st: State, s: State)
    requires Wf(st) && Wf(s) && Stepped(st, s)
    ensures st.pending[0] !in s.pending && st.pending == [st.pending[0]] + s.pending
    ensures forall x :: x in st.pending ==> x in st.recs
  {
  }

  lemma SteppedEntry(st: State, s: State, t: State, i: nat)
    requires Wf(st) && Wf(s) && Wf(t) && Stepped(st, s) && CommitOk(s, t) && i < |st.pending|
    requires st.pending[0] !in s.pending && (Hashed(s, st.pending[0]) <==> Reaches(st, 0))
    ensures st.pending[i] in t.recs && (Hashed(t, st.pending[i]) <==> Reaches(st, i))
  {
    hide Hashed, Reaches;
    if i > 0 {
      assert st.pending[i] == s.pending[i - 1];
      assert Reaches(st, (i - 1) + 1) <==> Reaches(s, i - 1);
    }
  }

  lemma SteppedOther(st: State, s: State, t: State, x: Crec)
    requires Wf(st) && Wf(s) && Wf(t) && Stepped(st, s) && CommitOk(s, t) && x in st.recs && x !in st.pending
    requires st.pending == [st.pending[0]] + s.pending
    ensures x in t.recs && (Hashed(t, x) <==> Hashed(st, x)) && t.recs[x] == st.recs[x]
  {
    hide Hashed, Reaches, Wf;
  }

  lemma SteppedRest(st: State, s: State, t: State)
    requires Wf(st) && Wf(s) && Wf(t) && Stepped(st, s) && CommitOk(s, t)
    requires forall i :: 0 <= i < |st.pending| ==> st.pending[i] in t.recs && (Hashed(t, st.pending[i]) <==>
        Reaches(st, i))
    requires forall x :: x in st.recs && x !in st.pending ==>
        x in t.recs && (Hashed(t, x) <==> Hashed(st, x)) && t.recs[x] == st.recs[x]
    ensures CommitOk(st, t)
  {
    hide Hashed, Reaches, Wf;
  }

  // The commit loop commits exactly the records whose CNAME chain reaches a record
  // that is not a CNAME, and leaves every other hashed record alone.
  lemma {:induction false} CommitAllExact(st: State)
    requires TxnInv(st)
    ensures var t := CommitAll(st); TxnInv(t) && BigNames(t) == BigNames(st) && CommitOk(st, t)
    decreases |st.pending|
  {
    if st.pending != [] {
      var c := st.pending[0];
      assert c in st.pending;
      var s := if Outdated(st.recs, st.recs[c]) then ReleaseFirst(st) else CommitFirst(st);
      FirstReaches(st);
      CommitStep(st);
      hide TxnInv, BigNames, Reaches, CommitOk, Wf, ReleaseFirst, CommitFirst;
      CommitAllExact(s);
      CommitOkStep(st, s, CommitAll(s));
    }
  }

  // One step of the commit loop.
  lemma CommitStep(st: State)
    requires TxnInv(st) && st.pending != []
    ensures st.pending[0] in st.recs
    ensures var c := st.pending[0];
            var s := if Outdated(st.recs, st.recs[c]) then ReleaseFirst(st) else CommitFirst(st);
            && TxnInv(s) && BigNames(s) == BigNames(st) && Stepped(st, s)
            && (Hashed(s, c) <==> !Outdated(st.recs, st.recs[c]))
  {
    hide ChainsOrdered, PoolOk, FreeSuffix, FlagsOk, NoClash, CnamesOk, BigInPool, BigNames, PendingNoClash;
    hide Reaches, Released, Committed, Stepped, ReleaseFirst, CommitFirst;
    var c := st.pending[0];
    assert c in st.pending;
    if Outdated(st.recs, st.recs[c]) {
      ReleaseFirstWf(st);
      ReleaseInv(st);
      ReleaseStepped(st, ReleaseFirst(st));
    } else {
      CommitFirstWf(st);
      CommitInv(st);
      CommitStepped(st, CommitFirst(st));
    }
  }

  lemma ReleaseStepped(st: State, t: State)
    requires TxnInv(st) && Wf(t) && st.pending != [] && st.pending[0] in st.recs
    requires Outdated(st.recs, st.recs[st.pending[0]]) && Released(st, t, st.pending[0])
    ensures Stepped(st, t) && !Hashed(t, st.pending[0])
  {
    forall i | 0 <= i < |t.pending|
      ensures Reaches(st, i + 1) <==> Reaches(t, i)
    {
      ReachesAfterRelease(st, t, i);
    }
    hide TxnInv, Wf, Reaches, Hashed;
  }

  lemma CommitStepped(st: State, t: State)
    requires TxnInv(st) && Wf(t) && st.pending != [] && st.pending[0] in st.recs
    requires !Outdated(st.recs, st.recs[st.pending[0]]) && Committed(st, t, st.pending[0])
    ensures Stepped(st, t) && Hashed(t, st.pending[0])
  {
    forall i | 0 <= i < |t.pending|
      ensures Reaches(st, i + 1) <==> Reaches(t, i)
    {
      ReachesAfterCommit(st, t, i);
    }
    hide TxnInv, Wf, Reaches, Hashed;
  }

  // cache_end_insert: after an error it commits nothing; otherwise new_chain is empty
  // afterwards and exactly the records that reach a non-CNAME are in the hash table.
  lemma EndInsertExact(st: State)
    requires TxnInv(st)
    ensures var t := EndInsert(st);
            && TxnInv(t) && BigNames(t) == BigNames(st)
            && (st.insertError ==> t == st)
            && (!st.insertError ==> CommitOk(st, t))
  {
    if !st.insertError { CommitAllExact(st); }
  }

  // ---------- CNAME pointers ----------

  // p follows the target pointers of hashed CNAMEs that are not outdated.
  ghost predicate CnamePath(st: State, p: seq<Crec>)
    requires Wf(st)
  {
    && (forall k :: 0 <= k < |p| ==> p[k] in st.recs)
    && forall k :: 0 <= k < |p| - 1 ==>
         && Hashed(st, p[k]) && st.recs[p[k]].flags.cname && st.recs[p[k]].flags.forward
         && !Outdated(st.recs, st.recs[p[k]]) && st.recs[p[k]].target == p[k + 1]
  }

  // Such a path only visits hashed pool records, and never the same one twice.
  lemma {:induction false} CnamePathAcyclic(st: State, p: seq<Crec>, i: nat, j: nat)
    requires Inv(st) && CnamePath(st, p) && i < j < |p|
    ensures p[j] in st.lru && Hashed(st, p[j]) && p[i] in st.born && p[j] in st.born
    ensures st.born[p[i]] < st.born[p[j]] && p[i] != p[j]
    decreases j - i
  {
    var k := j - 1;
    var b := Bucket(st, st.recs[p[k]].name);
    assert ChainOk(st, b);
    assert Hashed(st, p[k]);
    assert p[k] in st.lru;
    assert CnamePointer(st, p[k]) && Hashed(st, p[j]);
    PendingNotHashed(st);
    if i < k { CnamePathAcyclic(st, p, i, k); }
  }

  // ---------- linking ----------

  ghost predicate Linked(st: State, t: State, cpp: Crec, newc: Crec)
    requires Wf(st) && Wf(t)
  {
    && cpp in st.pending && newc in st.recs
    && t == st.(recs := st.recs[cpp := st.recs[cpp].(target := newc, targetUid := st.recs[newc].uid)])
    && (forall x :: x in st.recs ==> (Hashed(t, x) <==> Hashed(st, x)))
    && !Hashed(st, cpp)
  }

  lemma LinkIsLinked(st: State, cpp: Crec, newc: Crec)
    requires Wf(st) && cpp in st.pending && newc in st.recs
    ensures Wf(LinkCname(st, cpp, newc)) && Linked(st, LinkCname(st, cpp, newc), cpp, newc)
  {
    var t := LinkCname(st, cpp, newc);
    PendingNotHashed(st);
    forall b | 0 <= b < |t.chains|
      ensures ChainOk(t, b)
    {
      assert ChainOk(st, b);
    }
  }

  lemma LinkedLists(st: State, t: State, cpp: Crec, newc: Crec)
    requires Wf(st) && Wf(t) && Linked(st, t, cpp, newc) && ChainsOrdered(st) && PoolOk(st)
    requires FreeSuffix(st.recs, st.lru) && FlagsOk(st)
    ensures ChainsOrdered(t) && PoolOk(t) && FreeSuffix(t.recs, t.lru) && FlagsOk(t)
  {
    hide Wf, Linked, ChainsOrdered, PoolOk, FreeSuffix, FlagsOk;
    LinkedOrder(st, t, cpp, newc);
    LinkedPool(st, t, cpp, newc);
    LinkedFlags(st, t, cpp, newc);
  }

  lemma LinkedOrder(st: State, t: State, cpp: Crec, newc: Crec)
    requires Wf(st) && Wf(t) && Linked(st, t, cpp, newc) && ChainsOrdered(st)
    ensures ChainsOrdered(t)
  {
    hide Distinct, ChainOk, Hashed;
    forall b | 0 <= b < |t.chains|
      ensures Ordered(t.recs, t.chains[b])
    {
      assert Ordered(st.recs, st.chains[b]);
    }
  }

  lemma LinkedPool(st: State, t: State, cpp: Crec, newc: Crec)
    requires Wf(st) && Wf(t) && Linked(st, t, cpp, newc) && PoolOk(st) && FreeSuffix(st.recs, st.lru)
    ensures PoolOk(t) && FreeSuffix(t.recs, t.lru)
  {
    hide Distinct, ChainOk, Hashed;
  }

  lemma LinkedFlags(st: State, t: State, cpp: Crec, newc: Crec)
    requires Wf(st) && Wf(t) && Linked(st, t, cpp, newc) && FlagsOk(st)
    ensures FlagsOk(t)
  {
    hide Distinct, ChainOk, Hashed;
  }

  lemma LinkedClash(st: State, t: State, cpp: Crec, newc: Crec)
    requires Wf(st) && Wf(t) && Linked(st, t, cpp, newc) && NoClash(st) && PendingNoClash(st)
    ensures NoClash(t) && PendingNoClash(t)
  {
    forall h | h in t.recs && Fixed(t, h)
      ensures Fixed(st, h) && t.recs[h].flags == st.recs[h].flags && t.recs[h].name == st.recs[h].name
    {
    }
  }

  lemma LinkedPointer(st: State, t: State, cpp: Crec, newc: Crec, x: Crec)
    requires Wf(st) && Wf(t) && Linked(st, t, cpp, newc)
    requires x in st.recs && x != cpp && CnamePointer(st, x)
    ensures CnamePointer(t, x) && (Outdated(t.recs, t.recs[x]) <==> Outdated(st.recs, st.recs[x]))
  {
  }

  lemma LinkedCommitted(st: State, t: State, cpp: Crec, newc: Crec)
    requires Wf(st) && Wf(t) && Linked(st, t, cpp, newc) && CommittedCnames(st)
    ensures CommittedCnames(t)
  {
    forall x | x in t.lru && t.recs[x].flags.forward && t.recs[x].flags.cname
      ensures CnamePointer(t, x) && (!Outdated(t.recs, t.recs[x]) ==> Hashed(t, t.recs[x].target))
    {
      LinkedPointer(st, t, cpp, newc, x);
    }
  }

  lemma LinkedPending(st: State, t: State, cpp: Crec, newc: Crec)
    requires Wf(st) && Wf(t) && Linked(st, t, cpp, newc) && PendingCnames(st) && BornOk(st) && PoolOk(st)
    requires newc in st.pending && st.born[cpp] < st.born[newc]
    ensures PendingCnames(t) && BornOk(t)
  {
    forall x | x in t.pending && t.recs[x].flags.cname
      ensures CnamePointer(t, x)
      ensures (!Outdated(t.recs, t.recs[x]) ==> t.recs[x].target in t.pending || Hashed(t, t.recs[x].target))
    {
      if x != cpp { LinkedPointer(st, t, cpp, newc, x); }
    }
  }

  // Pointing a pending CNAME at a record inserted after it keeps the invariant.
  lemma LinkedBig(st: State, t: State, cpp: Crec, newc: Crec)
    requires Wf(st) && Wf(t) && Linked(st, t, cpp, newc) && BigInPool(st)
    ensures BigInPool(t) && BigNames(t) == BigNames(st)
  {
    hide Hashed, Distinct, ChainOk;
    assert BigHolders(t) == BigHolders(st);
  }

  lemma PendingKnown(st: State)
    requires Wf(st)
    ensures forall x :: x in st.pending ==> x in st.recs
  {
  }

  lemma LinkInv(st: State, cpp: Crec, newc: Crec)
    requires TxnInv(st) && cpp in st.pending && newc in st.pending && st.born[cpp] < st.born[newc]
    ensures var t := LinkCname(st, cpp, newc); TxnInv(t) && BigNames(t) == BigNames(st)
  {
    hide Wf, ChainsOrdered, PoolOk, FreeSuffix, FlagsOk, NoClash, CommittedCnames, PendingCnames, BornOk;
    hide PendingNoClash, Linked, BigInPool, BigNames, LinkCname;
    PendingKnown(st);
    LinkIsLinked(st, cpp, newc);
    var t := LinkCname(st, cpp, newc);
    LinkedBig(st, t, cpp, newc);
    LinkedLists(st, t, cpp, newc);
    LinkedClash(st, t, cpp, newc);
    LinkedCommitted(st, t, cpp, newc);
    LinkedPending(st, t, cpp, newc);
  }
}
