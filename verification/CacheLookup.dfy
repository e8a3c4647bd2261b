// cache_find_by_name: a first lookup sweeps the bucket of the name, promotes the
// cached matches to the head of the LRU list, rotates the matches in the chain, and
// leaves an answer list that starts with the hosts and DHCP records.
module CacheLookup {
  import opened HostNames
  import opened CacheState
  import opened CacheInvariant
  import opened CacheSweep

  // The record answers a lookup of name for one of the bits of prot.
  predicate Matching(r: Rec, name: string, prot: Flags) {
    r.flags.forward && r.flags.Meets(prot) && NameEq(r.name, name)
  }

  // Where the loop stands: the next entry, the place of the first match (once there is
  // one) with the class bits of that match, and the hosts or DHCP answers so far.
  datatype Look = Look(st: State, i: nat, ins: nat, started: bool, rev: bool, imm: bool, hosts: seq<Crec>)

  predicate SameClass(l: Look, r: Rec) {
    r.flags.reverse == l.rev && r.flags.immortal == l.imm
  }

  ghost predicate LookOk(l: Look, b: nat) {
    && Wf(l.st) && b < |l.st.chains| && l.i <= |l.st.chains[b]|
    && (l.started ==>
          && l.ins < l.i && l.st.chains[b][l.ins] in l.st.recs
          && SameClass(l, l.st.recs[l.st.chains[b][l.ins]]))
  }

  // Move entry i of chain b to position ins.
  ghost function MoveUp(st: State, b: nat, i: nat, ins: nat): State
    requires b < |st.chains| && ins <= i < |st.chains[b]|
  {
    st.(chains := st.chains[b := InsertAt(RemoveAt(st.chains[b], i), ins, st.chains[b][i])])
  }

  // A live match at entry i.
  ghost function LookMatch(l: Look, b: nat): Look
    requires LookOk(l, b) && l.i < |l.st.chains[b]|
  {
    var c := l.st.chains[b][l.i];
    assert ChainOk(l.st, b) && c in l.st.chains[b];
    var r := l.st.recs[c];
    var s := if Cached(r) then Promote(l.st, c) else l.st;
    var hosts := if Cached(r) then l.hosts else l.hosts + [c];
    if l.started && SameClass(l, r) then
      l.(st := MoveUp(s, b, l.i, l.ins), i := l.i + 1, ins := l.ins + 1, hosts := hosts)
    else if l.started then
      l.(st := s, i := l.i + 1, hosts := hosts)
    else
      Look(s, l.i + 1, l.i, true, r.flags.reverse, r.flags.immortal, hosts)
  }

  ghost function LookStep(l: Look, b: nat, name: string, now: int, prot: Flags): Look
    requires LookOk(l, b) && l.i < |l.st.chains[b]|
  {
    var c := l.st.chains[b][l.i];
    assert ChainOk(l.st, b) && c in l.st.chains[b];
    if Dead(l.st.recs, l.st.recs[c], now) then l.(st := Drop(l.st, b, l.i))
    else if Matching(l.st.recs[c], name, prot) then LookMatch(l, b)
    else l.(i := l.i + 1)
  }

  ghost function LookLoop(l: Look, b: nat, name: string, now: int, prot: Flags): (m: Look)
    requires LookOk(l, b)
    ensures LookOk(m, b) && m.i == |m.st.chains[b]|
    decreases |l.st.chains[b]| - l.i
  {
    if l.i == |l.st.chains[b]| then l
    else
      LookStepOk(l, b, name, now, prot);
      LookLoop(LookStep(l, b, name, now, prot), b, name, now, prot)
  }

  ghost function FindByName(st: State, name: string, now: int, prot: Flags): Look
    requires Wf(st)
  {
    LookLoop(Look(st, 0, 0, false, false, false, []), Bucket(st, name), name, now, prot)
  }

  // ---------- promotions and rotations only rearrange ----------

  ghost predicate Rearranged(st: State, t: State)
    requires Wf(st) && Wf(t)
  {
    && t == st.(lru := t.lru, chains := t.chains)
    && (forall x :: x in st.recs ==> (x in t.lru <==> x in st.lru))
    && (forall x :: x in st.recs ==> (Hashed(t, x) <==> Hashed(st, x)))
  }

  lemma PromoteWf(st: State, c: Crec)
    requires Wf(st) && c in st.lru
    ensures Wf(Promote(st, c)) && Rearranged(st, Promote(st, c)) && Promote(st, c).chains == st.chains
  {
    var t := Promote(st, c);
    RemoveAtDistinct(st.lru, IndexOf(st.lru, c));
    forall b | 0 <= b < |t.chains|
      ensures ChainOk(t, b)
    {
      assert ChainOk(st, b);
    }
  }

  lemma PromoteFreeSuffix(recs: map<Crec, Rec>, lru: seq<Crec>, c: Crec)
    requires FreeSuffix(recs, lru) && c in lru && InUse(recs[c])
    ensures FreeSuffix(recs, [c] + RemoveAt(lru, IndexOf(lru, c)))
  {
    var k := IndexOf(lru, c);
    var t := [c] + RemoveAt(lru, k);
    assert forall m :: 1 <= m < |t| ==> t[m] == lru[if m - 1 < k then m - 1 else m];
  }

  lemma MoveUpWf(st: State, b: nat, i: nat, ins: nat)
    requires Wf(st) && b < |st.chains| && ins <= i < |st.chains[b]|
    ensures Wf(MoveUp(st, b, i, ins)) && Rearranged(st, MoveUp(st, b, i, ins))
    ensures |MoveUp(st, b, i, ins).chains| == |st.chains|
  {
    var t, ch := MoveUp(st, b, i, ins), st.chains[b];
    assert ChainOk(st, b) && ch[i] in ch;
    RemoveAtDistinct(ch, i);
    InsertAtDistinct(RemoveAt(ch, i), ins, ch[i]);
    forall d | 0 <= d < |t.chains|
      ensures ChainOk(t, d)
    {
      assert ChainOk(st, d);
    }
  }

  lemma MoveUpOrdered(recs: map<Crec, Rec>, ch: seq<Crec>, i: nat, ins: nat)
    requires Ordered(recs, ch) && ins < i < |ch|
    requires recs[ch[i]].flags.Class() == recs[ch[ins]].flags.Class()
    ensures Ordered(recs, InsertAt(RemoveAt(ch, i), ins, ch[i]))
  {
    MovedAt(ch, i, ins);
    hide InsertAt, RemoveAt;
  }

  lemma MovedAt<T>(ch: seq<T>, i: nat, ins: nat)
    requires ins < i < |ch|
    ensures var r := InsertAt(RemoveAt(ch, i), ins, ch[i]);
      && |r| == |ch|
      && forall k :: 0 <= k < |r| ==> r[k] == if k < ins then ch[k] else if k == ins then ch[i]
          else if k <= i then ch[k - 1] else ch[k]
  {
  }

  lemma LookDropOk(l: Look, b: nat)
    requires LookOk(l, b) && l.i < |l.st.chains[b]|
    ensures LookOk(l.(st := Drop(l.st, b, l.i)), b) && |Drop(l.st, b, l.i).chains[b]| == |l.st.chains[b]| - 1
  {
    DropChain(l.st, b, l.i);
    hide Wf, Drop, Distinct, ChainOk;
    var t := Drop(l.st, b, l.i);
    if l.started {
      assert t.chains[b][l.ins] == t.chains[b][..l.i][l.ins] == l.st.chains[b][l.ins];
      assert t.chains[b][l.ins] in t.chains[b];
    }
  }

  lemma LookMatchOk(l: Look, b: nat)
    requires LookOk(l, b) && l.i < |l.st.chains[b]|
    ensures var m := LookMatch(l, b);
            LookOk(m, b) && m.i == l.i + 1 && |m.st.chains| == |l.st.chains| && |m.st.chains[b]| == |l.st.chains[b]|
  {
    hide Wf, Promote, Distinct, ChainOk, Hashed, Rearranged, InsertAt, RemoveAt;
    EntryRec(l.st, b, l.i);
    var c := l.st.chains[b][l.i];
    var r := l.st.recs[c];
    var s := if Cached(r) then Promote(l.st, c) else l.st;
    if Cached(r) {
      PromoteWf(l.st, c);
      PromoteRecs(l.st, c);
    }
    if l.started && SameClass(l, r) {
      MoveUpWf(s, b, l.i, l.ins);
      MovedFirst(s.chains[b], l.i, l.ins);
    }
  }

  lemma EntryRec(st: State, b: nat, i: nat)
    requires Wf(st) && b < |st.chains| && i < |st.chains[b]|
    ensures var c := st.chains[b][i]; c in st.recs && (Cached(st.recs[c]) <==> c in st.lru)
  {
    assert ChainOk(st, b) && st.chains[b][i] in st.chains[b];
  }

  lemma PromoteRecs(st: State, c: Crec)
    requires c in st.lru
    ensures Promote(st, c).recs == st.recs
  {
  }

  lemma MovedFirst<T>(ch: seq<T>, i: nat, ins: nat)
    requires ins < i < |ch|
    ensures InsertAt(RemoveAt(ch, i), ins, ch[i])[ins + 1] == ch[ins]
  {
  }

  lemma LookStepOk(l: Look, b: nat, name: string, now: int, prot: Flags)
    requires LookOk(l, b) && l.i < |l.st.chains[b]|
    ensures var m := LookStep(l, b, name, now, prot);
            LookOk(m, b) && |m.st.chains[b]| - m.i == |l.st.chains[b]| - l.i - 1
  {
    EntryRec(l.st, b, l.i);
    LookDropOk(l, b);
    LookMatchOk(l, b);
    hide LookMatch, Drop, Wf;
  }

  lemma RearrangedInv(st: State, t: State)
    requires Inv(st) && Wf(t) && Rearranged(st, t) && ChainsOrdered(t) && FreeSuffix(t.recs, t.lru)
    ensures Inv(t) && BigNames(t) == BigNames(st)
    ensures PendingNoClash(st) ==> PendingNoClash(t)
  {
    RearrangedPool(st, t);
    RearrangedClash(st, t);
    RearrangedCnames(st, t);
    assert BigHolders(t) == BigHolders(st);
  }

  lemma RearrangedPool(st: State, t: State)
    requires Wf(st) && Wf(t) && Rearranged(st, t) && PoolOk(st) && FlagsOk(st)
    ensures PoolOk(t) && FlagsOk(t)
  {
  }

  lemma RearrangedClash(st: State, t: State)
    requires Wf(st) && Wf(t) && Rearranged(st, t) && NoClash(st)
    ensures NoClash(t) && (PendingNoClash(st) ==> PendingNoClash(t))
  {
    forall h | h in t.recs && Fixed(t, h)
      ensures Fixed(st, h)
    {
    }
  }

  lemma RearrangedCnames(st: State, t: State)
    requires Wf(st) && Wf(t) && Rearranged(st, t) && CnamesOk(st)
    ensures CnamesOk(t)
  {
    assert forall x :: x in st.recs && CnamePointer(st, x) ==> CnamePointer(t, x);
  }

  lemma PromoteInv(st: State, c: Crec)
    requires Inv(st) && c in st.lru && InUse(st.recs[c])
    ensures Inv(Promote(st, c)) && Rearranged(st, Promote(st, c)) && BigNames(Promote(st, c)) == BigNames(st)
  {
    PromoteWf(st, c);
    PromoteFreeSuffix(st.recs, st.lru, c);
    RearrangedInv(st, Promote(st, c));
  }

  lemma MoveUpInv(st: State, b: nat, i: nat, ins: nat)
    requires Inv(st) && b < |st.chains| && ins < i < |st.chains[b]|
    requires st.chains[b][i] in st.recs && st.chains[b][ins] in st.recs
    requires st.recs[st.chains[b][i]].flags.Class() == st.recs[st.chains[b][ins]].flags.Class()
    ensures Inv(MoveUp(st, b, i, ins)) && Rearranged(st, MoveUp(st, b, i, ins))
    ensures BigNames(MoveUp(st, b, i, ins)) == BigNames(st)
  {
    MoveUpWf(st, b, i, ins);
    assert Ordered(st.recs, st.chains[b]);
    MoveUpOrdered(st.recs, st.chains[b], i, ins);
    hide PoolOk, FlagsOk, NoClash, CnamesOk, BigInPool, BigNames, PendingNoClash, Distinct, ChainOk, Rearranged, Wf;
    RearrangedInv(st, MoveUp(st, b, i, ins));
  }

  lemma LookMatchInv(l: Look, b: nat, name: string, prot: Flags)
    requires LookOk(l, b) && l.i < |l.st.chains[b]| && Inv(l.st)
    requires l.st.chains[b][l.i] in l.st.recs && Matching(l.st.recs[l.st.chains[b][l.i]], name, prot)
    ensures Inv(LookMatch(l, b).st) && BigNames(LookMatch(l, b).st) == BigNames(l.st)
  {
    var c := l.st.chains[b][l.i];
    assert ChainOk(l.st, b) && c in l.st.chains[b];
    var r := l.st.recs[c];
    var s := if Cached(r) then Promote(l.st, c) else l.st;
    hide ChainsOrdered, PoolOk, FreeSuffix, FlagsOk, NoClash, CnamesOk, BigInPool, BigNames, PendingNoClash;
    hide Distinct, MoveUp;
    if Cached(r) { PromoteInv(l.st, c); }
    if l.started && SameClass(l, r) { MoveUpInv(s, b, l.i, l.ins); }
  }

  lemma {:induction false} LookLoopInv(l: Look, b: nat, name: string, now: int, prot: Flags)
    requires LookOk(l, b) && Inv(l.st)
    ensures var m := LookLoop(l, b, name, now, prot); Inv(m.st) && BigNames(m.st) == BigNames(l.st)
    decreases |l.st.chains[b]| - l.i
  {
    hide ChainsOrdered, PoolOk, FreeSuffix, FlagsOk, NoClash, CnamesOk, BigInPool, BigNames, PendingNoClash;
    hide Distinct, LookMatch, Drop;
    if l.i < |l.st.chains[b]| {
      var c := l.st.chains[b][l.i];
      assert ChainOk(l.st, b) && c in l.st.chains[b];
      LookStepOk(l, b, name, now, prot);
      if Dead(l.st.recs, l.st.recs[c], now) {
        DropInv(l.st, b, l.i);
      } else if Matching(l.st.recs[c], name, prot) {
        LookMatchInv(l, b, name, prot);
      }
      LookLoopInv(LookStep(l, b, name, now, prot), b, name, now, prot);
    }
  }
}
