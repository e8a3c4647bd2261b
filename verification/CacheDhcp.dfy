// cache_add_dhcp_entry and add_hosts_entry: how names from leases and hosts files
// enter the cache without clashing with cached answers.
module CacheDhcp {
  import opened HostNames
  import opened CacheState
  import opened CacheInvariant
  import opened CacheSweep
  import opened CacheStays
  import opened CacheInsert
  import opened CacheLookup
  import opened CacheAnswers
  import opened CacheLookupTheorems
  import opened CacheByAddr
  import opened CacheFixed

  // ---------- steps that leave the pending records alone ----------

  ghost predicate Quiet(st: State, t: State) {
    && t.pending == st.pending && t.born == st.born && t.hash == st.hash && t.insertError == st.insertError
    && st.uid <= t.uid && t.recs.Keys == st.recs.Keys
    && (forall x :: x in st.pending && x in st.recs ==> t.recs[x] == st.recs[x])
    && (forall x :: x in st.recs ==> t.recs[x].uid == st.recs[x].uid || st.uid <= t.recs[x].uid)
    && (forall x :: x in st.recs ==> (x in t.lru <==> x in st.lru))
  }

  lemma QuietTransitive(s: State, t: State, u: State)
    requires Quiet(s, t) && Quiet(t, u)
    ensures Quiet(s, u)
  {
  }

  lemma QuietLocal(st: State, t: State)
    requires Wf(st) && Wf(t) && Quiet(st, t) && PendingLocal(st)
    ensures PendingLocal(t)
  {
    forall c | c in t.pending && t.recs[c].flags.cname
      ensures CnamePointer(t, c) && (!Outdated(t.recs, t.recs[c]) ==> t.recs[c].target in t.pending)
    {
      assert CnamePointer(st, c);
      QuietPointer(st, t, c);
    }
  }

  lemma QuietPointer(st: State, t: State, c: Crec)
    requires Wf(st) && Wf(t) && Quiet(st, t) && c in st.pending && CnamePointer(st, c)
    requires !Outdated(st.recs, st.recs[c]) ==> st.recs[c].target in st.pending
    ensures CnamePointer(t, c) && (!Outdated(t.recs, t.recs[c]) ==> t.recs[c].target in t.pending)
  {
  }

  lemma ShrunkQuiet(st: State, t: State)
    requires Wf(st) && Wf(t) && Shrunk(st, t)
    ensures Quiet(st, t)
  {
    PendingNotHashed(st);
  }

  lemma RearrangedQuiet(st: State, t: State)
    requires Wf(st) && Wf(t) && Rearranged(st, t)
    ensures Quiet(st, t)
  {
  }

  lemma {:induction false} LookLoopQuiet(l: Look, b: nat, name: string, now: int, prot: Flags)
    requires LookOk(l, b)
    ensures Quiet(l.st, LookLoop(l, b, name, now, prot).st)
    decreases |l.st.chains[b]| - l.i
  {
    if l.i < |l.st.chains[b]| {
      LoopUnroll(l, b, name, now, prot);
      LookStepQuiet(l, b, name, now, prot);
      hide LookLoop, LookStep, LookOk, Quiet;
      LookLoopQuiet(LookStep(l, b, name, now, prot), b, name, now, prot);
      QuietTransitive(l.st, LookStep(l, b, name, now, prot).st, LookLoop(l, b, name, now, prot).st);
    }
  }

  lemma LookStepQuiet(l: Look, b: nat, name: string, now: int, prot: Flags)
    requires LookOk(l, b) && l.i < |l.st.chains[b]|
    ensures Quiet(l.st, LookStep(l, b, name, now, prot).st)
  {
    hide ChainOk, Distinct, Drop, Promote, MoveUp, Quiet;
    EntryRec(l.st, b, l.i);
    var c := l.st.chains[b][l.i];
    var r := l.st.recs[c];
    if Dead(l.st.recs, r, now) {
      DropWf(l.st, b, l.i);
      DropShrinks(l.st, b, l.i);
      ShrunkQuiet(l.st, Drop(l.st, b, l.i));
    } else if Matching(r, name, prot) {
      MatchQuiet(l, b);
    } else {
      SelfQuiet(l.st);
    }
  }

  lemma SelfQuiet(st: State)
    ensures Quiet(st, st)
  {
  }

  lemma MatchQuiet(l: Look, b: nat)
    requires LookOk(l, b) && l.i < |l.st.chains[b]|
    ensures Quiet(l.st, LookMatch(l, b).st)
  {
    hide ChainOk, Distinct, Promote, MoveUp, Quiet;
    EntryRec(l.st, b, l.i);
    SelfQuiet(l.st);
    var c := l.st.chains[b][l.i];
    var r := l.st.recs[c];
    var s := if Cached(r) then Promote(l.st, c) else l.st;
    if Cached(r) {
      PromoteWf(l.st, c);
      PromoteRecs(l.st, c);
      RearrangedQuiet(l.st, s);
    }
    if l.started && SameClass(l, r) {
      MoveUpWf(s, b, l.i, l.ins);
      RearrangedQuiet(s, MoveUp(s, b, l.i, l.ins));
      QuietTransitive(l.st, s, MoveUp(s, b, l.i, l.ins));
    }
  }

  lemma {:induction false} AddrChainQuiet(a: AddrLook, b: nat, i: nat, addr: Addr, now: int, prot: Flags)
    requires Wf(a.st) && b < |a.st.chains| && i <= |a.st.chains[b]|
    ensures Quiet(a.st, AddrChain(a, b, i, addr, now, prot).st)
    decreases |a.st.chains[b]| - i
  {
    hide ChainOk, Distinct, Drop, Promote, Quiet, AddrVisit, Rearranged;
    SelfQuiet(a.st);
    if i < |a.st.chains[b]| {
      EntryRec(a.st, b, i);
      var c := a.st.chains[b][i];
      if !a.st.recs[c].flags.reverse {
      } else if Expired(a.st.recs[c], now) {
        DropChain(a.st, b, i);
        DropShrinks(a.st, b, i);
        ShrunkQuiet(a.st, Drop(a.st, b, i));
        AddrChainQuiet(a.(st := Drop(a.st, b, i)), b, i, addr, now, prot);
        QuietTransitive(a.st, Drop(a.st, b, i), AddrChain(a, b, i, addr, now, prot).st);
      } else {
        VisitWf(a, c, addr, prot);
        var n := AddrVisit(a, c, addr, prot);
        RearrangedQuiet(a.st, n.st);
        AddrChainQuiet(n, b, i + 1, addr, now, prot);
        QuietTransitive(a.st, n.st, AddrChain(a, b, i, addr, now, prot).st);
      }
    }
  }

  lemma {:induction false} AddrAllQuiet(a: AddrLook, b: nat, addr: Addr, now: int, prot: Flags)
    requires Wf(a.st) && b <= |a.st.chains|
    ensures Quiet(a.st, AddrAll(a, b, addr, now, prot).st)
    decreases |a.st.chains| - b
  {
    hide ChainOk, Distinct, Quiet, AddrChain;
    SelfQuiet(a.st);
    if b < |a.st.chains| {
      var n := AddrChain(a, b, 0, addr, now, prot);
      AddrChainQuiet(a, b, 0, addr, now, prot);
      AddrAllQuiet(n, b + 1, addr, now, prot);
      QuietTransitive(a.st, n.st, AddrAll(n, b + 1, addr, now, prot).st);
    }
  }

  // ---------- every lookup and sweep keeps the state idle ----------

  lemma FindByNameIdle(st: State, name: string, now: int, prot: Flags)
    requires Idle(st)
    ensures var t := FindByName(st, name, now, prot).st; Idle(t) && Quiet(st, t) && BigNames(t) == BigNames(st)
  {
    hide ChainsOrdered, PoolOk, FreeSuffix, FlagsOk, NoClash, CnamesOk, BigInPool, BigNames, PendingLocal, ChainOk;
    hide Distinct, LookLoop, Quiet;
    LookLoopInv(StartLook(st), Bucket(st, name), name, now, prot);
    LookLoopQuiet(StartLook(st), Bucket(st, name), name, now, prot);
    QuietLocal(st, FindByName(st, name, now, prot).st);
  }

  lemma FindByAddrIdle(st: State, addr: Addr, now: int, prot: Flags)
    requires Idle(st)
    ensures var t := FindByAddr(st, addr, now, prot).st; Idle(t) && Quiet(st, t) && BigNames(t) == BigNames(st)
  {
    hide ChainsOrdered, PoolOk, FreeSuffix, FlagsOk, NoClash, CnamesOk, BigInPool, BigNames, PendingLocal, ChainOk;
    hide Distinct, AddrAll, AddrOk, Quiet;
    StartAddrOk(st, addr, now, prot);
    AddrAllOk(AddrLook(st, [], []), 0, addr, now, prot);
    AddrAllQuiet(AddrLook(st, [], []), 0, addr, now, prot);
    QuietLocal(st, FindByAddr(st, addr, now, prot).st);
  }

  lemma ScanFreeIdle(st: State, name: string, addr: Addr, now: int, flags: Flags)
    requires Idle(st)
    ensures var t := ScanFree(st, name, addr, now, flags).0;
        Idle(t) && Quiet(st, t) && Shrunk(st, t) && BigNames(t) == BigNames(st)
  {
    hide ChainsOrdered, PoolOk, FreeSuffix, FlagsOk, NoClash, CnamesOk, BigInPool, BigNames, PendingLocal, ChainOk;
    hide Distinct, Shrunk, ScanFree, Quiet;
    ScanFreeInv(st, name, addr, now, flags);
    ShrunkQuiet(st, ScanFree(st, name, addr, now, flags).0);
    QuietLocal(st, ScanFree(st, name, addr, now, flags).0);
  }

  // ---------- cache_add_dhcp_entry ----------

  const DHCP_PROT := NO_FLAGS.(ipv4 := true, cname := true)

  // The outcome of walking the answers for the host name: the name belongs to a hosts
  // record with another address, or the walk reached a cached record, or neither.
  datatype Walk = Conflict | Reached(c: Crec, inHosts: bool) | Done(inHosts: bool)

  ghost function WalkAnswers(recs: map<Crec, Rec>, a: seq<Crec>, addr: Addr, inHosts: bool): Walk
    requires forall x :: x in a ==> x in recs
    decreases |a|
  {
    if a == [] then Done(inHosts)
    else
      var r := recs[a[0]];
      if r.flags.hosts then
        if r.addr != addr then Conflict else WalkAnswers(recs, a[1..], addr, true)
      else if !r.flags.dhcp then Reached(a[0], inHosts)
      else WalkAnswers(recs, a[1..], addr, inHosts)
  }

  lemma {:induction false} WalkReaches(recs: map<Crec, Rec>, a: seq<Crec>, addr: Addr, inHosts: bool)
    requires forall x :: x in a ==> x in recs
    ensures match WalkAnswers(recs, a, addr, inHosts)
            case Reached(c, _) => c in a && Cached(recs[c])
            case Done(_) => forall x :: x in a ==> !Cached(recs[x])
            case Conflict => true
    decreases |a|
  {
    if a != [] {
      WalkReaches(recs, a[1..], addr, true);
      WalkReaches(recs, a[1..], addr, inHosts);
      assert a == [a[0]] + a[1..];
    }
  }

  ghost function ClearFlags(f: Flags): Flags {
    NO_FLAGS.(ipv4 := f.ipv4, cname := f.cname, forward := f.forward)
  }

  lemma FindByNameKeys(st: State, name: string, now: int, prot: Flags)
    requires Wf(st)
    ensures var t := FindByName(st, name, now, prot).st; Wf(t) && t.recs.Keys == st.recs.Keys
    ensures forall x :: x in AnswerList(st, name, now, prot) ==> x in st.recs
  {
    LookLoopQuiet(StartLook(st), Bucket(st, name), name, now, prot);
    AnswerMembers(st, name, now, prot);
  }

  lemma FindByAddrKeys(st: State, addr: Addr, now: int, prot: Flags)
    requires Wf(st)
    ensures var l := FindByAddr(st, addr, now, prot); Wf(l.st) && l.st.recs.Keys == st.recs.Keys
    ensures forall x :: x in AddrAnswers(FindByAddr(st, addr, now, prot)) ==> x in st.recs
  {
    AddrAllQuiet(AddrLook(st, [], []), 0, addr, now, prot);
    AddrAllMembers(AddrLook(st, [], []), 0, addr, now, prot);
    ReverseMembers(FindByAddr(st, addr, now, prot).done);
  }

  lemma {:induction false} AddrChainMembers(a: AddrLook, b: nat, i: nat, addr: Addr, now: int, prot: Flags)
    requires Wf(a.st) && b < |a.st.chains| && i <= |a.st.chains[b]|
    requires (forall x :: x in a.hosts ==> x in a.st.recs) && (forall x :: x in a.done ==> x in a.st.recs)
    ensures var r := AddrChain(a, b, i, addr, now, prot);
            && r.st.recs.Keys == a.st.recs.Keys
            && (forall x :: x in r.hosts ==> x in r.st.recs) && (forall x :: x in r.done ==> x in r.st.recs)
    decreases |a.st.chains[b]| - i
  {
    hide ChainOk, Distinct, Drop, Promote;
    if i < |a.st.chains[b]| {
      EntryRec(a.st, b, i);
      var c := a.st.chains[b][i];
      if a.st.recs[c].flags.reverse {
        if Expired(a.st.recs[c], now) {
          DropChain(a.st, b, i);
          DropKeys(a.st, b, i);
          AddrChainMembers(a.(st := Drop(a.st, b, i)), b, i, addr, now, prot);
        } else {
          VisitWf(a, c, addr, prot);
          AddrChainMembers(AddrVisit(a, c, addr, prot), b, i + 1, addr, now, prot);
        }
      }
    }
  }

  lemma {:induction false} AddrAllMembers(a: AddrLook, b: nat, addr: Addr, now: int, prot: Flags)
    requires Wf(a.st) && b <= |a.st.chains|
    requires (forall x :: x in a.hosts ==> x in a.st.recs) && (forall x :: x in a.done ==> x in a.st.recs)
    ensures var r := AddrAll(a, b, addr, now, prot);
            (forall x :: x in r.hosts ==> x in r.st.recs) && (forall x :: x in r.done ==> x in r.st.recs)
    decreases |a.st.chains| - b
  {
    hide ChainOk, Distinct, AddrChain;
    if b < |a.st.chains| {
      AddrChainMembers(a, b, 0, addr, now, prot);
      AddrAllMembers(AddrChain(a, b, 0, addr, now, prot), b + 1, addr, now, prot);
      assert AddrAll(a, b, addr, now, prot) == AddrAll(AddrChain(a, b, 0, addr, now, prot), b + 1, addr, now, prot);
    } else {
      assert AddrAll(a, b, addr, now, prot) == a;
    }
  }

  lemma ScanFreeKeys(st: State, name: string, addr: Addr, now: int, flags: Flags)
    requires Wf(st)
    ensures ScanFree(st, name, addr, now, flags).0.recs.Keys == st.recs.Keys
  {
    if flags.forward { ScanForwardKeys(st, Bucket(st, name), 0, name, now, flags); }
    else { ScanAllKeys(st, 0, addr, now, flags); }
  }

  lemma {:induction false} ScanForwardKeys(st: State, b: nat, i: nat, name: string, now: int, flags: Flags)
    requires Wf(st) && b < |st.chains| && i <= |st.chains[b]|
    ensures ScanForward(st, b, i, name, now, flags).0.recs.Keys == st.recs.Keys
    decreases |st.chains[b]| - i
  {
    hide ChainOk, Distinct, Drop;
    if i < |st.chains[b]| {
      EntryRec(st, b, i);
      var r := st.recs[st.chains[b][i]];
      if Dead(st.recs, r, now) || (Supersedes(r, name, flags) && Cached(r)) {
        DropChain(st, b, i);
        DropKeys(st, b, i);
        ScanForwardKeys(Drop(st, b, i), b, i, name, now, flags);
      } else if !Supersedes(r, name, flags) {
        ScanForwardKeys(st, b, i + 1, name, now, flags);
      }
    }
  }

  lemma {:induction false} ScanChainKeys(st: State, b: nat, i: nat, addr: Addr, now: int, flags: Flags)
    requires Wf(st) && b < |st.chains| && i <= |st.chains[b]|
    ensures ScanChain(st, b, i, addr, now, flags).recs.Keys == st.recs.Keys
    decreases |st.chains[b]| - i
  {
    hide ChainOk, Distinct, Drop;
    if i < |st.chains[b]| {
      EntryRec(st, b, i);
      var r := st.recs[st.chains[b][i]];
      if r.flags.Class() == 2 {
      } else if Swept(r, addr, now, flags) {
        DropChain(st, b, i);
        DropKeys(st, b, i);
        ScanChainKeys(Drop(st, b, i), b, i, addr, now, flags);
      } else {
        ScanChainKeys(st, b, i + 1, addr, now, flags);
      }
    }
  }

  lemma {:induction false} ScanAllKeys(st: State, b: nat, addr: Addr, now: int, flags: Flags)
    requires Wf(st) && b <= |st.chains|
    ensures ScanAll(st, b, addr, now, flags).recs.Keys == st.recs.Keys
    decreases |st.chains| - b
  {
    hide ChainOk, Distinct, ScanChain;
    if b < |st.chains| {
      ScanChainKeys(st, b, 0, addr, now, flags);
      ScanAllKeys(ScanChain(st, b, 0, addr, now, flags), b + 1, addr, now, flags);
    }
  }

  // The part of the function that makes room for the name.
  ghost function ClearName(st: State, name: string, addr: Addr): (r: (State, Walk))
    requires Wf(st)
    ensures Wf(r.0) && r.0.recs.Keys == st.recs.Keys
  {
    FindByNameKeys(st, name, 0, DHCP_PROT);
    var m := FindByName(st, name, 0, DHCP_PROT).st;
    var a := AnswerList(st, name, 0, DHCP_PROT);
    var w := WalkAnswers(st.recs, a, addr, false);
    WalkReaches(st.recs, a, addr, false);
    if w.Reached? then
      ScanFreeKeys(m, name, [], 0, ClearFlags(m.recs[w.c].flags));
      (ScanFree(m, name, [], 0, ClearFlags(m.recs[w.c].flags)).0, w)
    else (m, w)
  }

  ghost function DhcpRec(old_: Rec, name: string, addr: Addr, ttd: int, reverse: bool): Rec {
    Rec(NO_FLAGS.(dhcp := true, forward := true, ipv4 := true, reverse := reverse, immortal := ttd == 0),
        name, addr, if ttd == 0 then old_.ttd else ttd, old_.uid, null, 0)
  }

  const IPV4 := NO_FLAGS.(ipv4 := true)

  const REVERSE4 := NO_FLAGS.(ipv4 := true, reverse := true)

  // The part that decides whether the new record gets the reverse mapping.
  ghost function ClearAddr(st: State, addr: Addr): (r: (State, bool))
    requires Wf(st)
    ensures Wf(r.0) && r.0.recs.Keys == st.recs.Keys
  {
    FindByAddrKeys(st, addr, 0, IPV4);
    var l := FindByAddr(st, addr, 0, IPV4);
    var a := AddrAnswers(l);
    if a == [] then (l.st, true)
    else
      assert a[0] in a;
      if l.st.recs[a[0]].flags.neg then
        ScanFreeKeys(l.st, "", addr, 0, REVERSE4);
        (ScanFree(l.st, "", addr, 0, REVERSE4).0, true)
      else (l.st, false)
  }

  // c is the spare or newly allocated record, with contents old_; malloc may fail.
  ghost function AddDhcp(st: State, name: string, addr: Addr, ttd: int, c: Crec, old_: Rec, malloc: bool): (r: (State,
                         bool))
    requires Wf(st) && c !in st.recs
  {
    var (s1, w) := ClearName(st, name, addr);
    if w.Conflict? || w.inHosts then (s1, false)
    else
      var (s2, reverse) := ClearAddr(s1, addr);
      if malloc then (AddFixed(s2, c, DhcpRec(old_, name, addr, ttd, reverse)), true) else (s2, false)
  }

  // No cached forward record of this name with an IPv4 address or a CNAME is in use.
  ghost predicate NameCleared(st: State, name: string)
    requires Wf(st)
  {
    forall x :: x in st.lru && st.recs[x].flags.forward && NameEq(st.recs[x].name, name) ==>
      !st.recs[x].flags.ipv4 && !st.recs[x].flags.cname
  }

  lemma QuietKeepsCleared(st: State, t: State, name: string)
    requires Idle(st) && Idle(t) && NameCleared(st, name)
    requires forall x :: x in t.recs && Hashed(t, x) ==> x in st.recs && Hashed(st, x) && t.recs[x] == st.recs[x]
    requires forall x :: x in st.recs && x in t.lru ==> x in st.lru
    ensures NameCleared(t, name)
  {
  }

  // After a lookup whose answers are all hosts or DHCP records, no cached one is left.
  lemma LookupClears(st: State, name: string)
    requires Idle(st)
    requires forall x :: x in AnswerList(st, name, 0, DHCP_PROT) ==> x in st.recs && !Cached(st.recs[x])
    ensures var m := FindByName(st, name, 0, DHCP_PROT).st; Wf(m) && NameCleared(m, name)
  {
    hide ChainsOrdered, FreeSuffix, FlagsOk, NoClash, CnamesOk, BigInPool, BigNames, PendingLocal, ChainOk;
    hide Distinct, LookLoop, RotateLeft, Rest, AnswerList, HostCount, Quiet;
    var l, b := StartLook(st), Bucket(st, name);
    var m := FindByName(st, name, 0, DHCP_PROT).st;
    FindByNameIdle(st, name, 0, DHCP_PROT);
    LookupState(st, name, 0, DHCP_PROT);
    AnswerMembers(st, name, 0, DHCP_PROT);
    RotateMembers(st.recs, Survivors(st, name, 0), name, DHCP_PROT);
    LookSameBuckets(l, b, name, 0, DHCP_PROT);
    LookRecs(l, b, name, 0, DHCP_PROT);
    forall x | x in m.lru && m.recs[x].flags.forward && NameEq(m.recs[x].name, name)
      ensures !m.recs[x].flags.ipv4 && !m.recs[x].flags.cname
    {
      assert Hashed(m, x) && Bucket(m, m.recs[x].name) == b;
      assert x in Survivors(st, name, 0);
    }
  }

  // When the walk reaches a cached record, the scan that follows is never stopped: a
  // hosts or DHCP record that stops it would clash with that record.
  lemma ScanClears(m: State, c: Crec, name: string)
    requires Idle(m) && c in m.lru && Matching(m.recs[c], name, DHCP_PROT)
    ensures var t := ScanFree(m, name, [], 0, ClearFlags(m.recs[c].flags)).0; Idle(t) && Wf(t) && NameCleared(t, name)
  {
    hide ChainsOrdered, FreeSuffix, FlagsOk, NoClash, CnamesOk, BigInPool, BigNames, PendingLocal, ChainOk;
    hide Distinct, ScanForward, Quiet, SomeBlocks, Shrunk, CleanBefore;
    var f := ClearFlags(m.recs[c].flags);
    var t := ScanFree(m, name, [], 0, f).0;
    ScanFreeIdle(m, name, [], 0, f);
    ScanForwardResult(m, 0, name, 0, f) by { assert CleanBefore(m, Bucket(m, name), 0, name, 0, f) by { NothingBefore(m,
        name, 0, f); } }
    ScanNotBlocked(m, c, name);
    SameBucket(m, t, name, f);
    CleanIsCleared(t, name, f);
  }

  lemma NothingBefore(st: State, name: string, now: int, flags: Flags)
    requires Wf(st)
    ensures CleanBefore(st, Bucket(st, name), 0, name, now, flags)
  {
  }

  lemma SameBucket(m: State, t: State, name: string, flags: Flags)
    requires Wf(m) && Wf(t) && Shrunk(m, t)
    ensures Bucket(t, name) == Bucket(m, name)
  {
  }

  lemma CleanIsCleared(t: State, name: string, f: Flags)
    requires Wf(t) && PoolOk(t) && f.forward && (f.ipv4 || f.cname)
    requires CleanBefore(t, Bucket(t, name), |t.chains[Bucket(t, name)]|, name, 0, f)
    ensures NameCleared(t, name)
  {
    var b := Bucket(t, name);
    forall x | x in t.lru && t.recs[x].flags.forward && NameEq(t.recs[x].name, name)
      ensures !t.recs[x].flags.ipv4 && !t.recs[x].flags.cname
    {
      assert Hashed(t, x) && x in t.chains[b];
      var k :| 0 <= k < |t.chains[b]| && t.chains[b][k] == x;
      assert !Supersedes(t.recs[x], name, f);
    }
  }

  lemma ScanNotBlocked(m: State, c: Crec, name: string)
    requires Inv(m) && c in m.lru && Matching(m.recs[c], name, DHCP_PROT)
    ensures !SomeBlocks(m, name, 0, ClearFlags(m.recs[c].flags))
  {
    var f := ClearFlags(m.recs[c].flags);
    forall h | h in m.recs && Hashed(m, h) && !Cached(m.recs[h])
      ensures !Blocks(m, h, name, 0, f)
    {
      if m.recs[h].flags.forward { assert Fixed(m, h); }
    }
  }

  lemma ClearNameOk(st: State, name: string, addr: Addr)
    requires Idle(st)
    ensures var (t, w) := ClearName(st, name, addr);
            Idle(t) && BigNames(t) == BigNames(st) && (!w.Conflict? ==> NameCleared(t, name))
  {
    var m := FindByName(st, name, 0, DHCP_PROT).st;
    var a := AnswerList(st, name, 0, DHCP_PROT);
    FindByNameIdle(st, name, 0, DHCP_PROT);
    FindByNameKeys(st, name, 0, DHCP_PROT);
    WalkReaches(st.recs, a, addr, false);
    var w := WalkAnswers(st.recs, a, addr, false);
    hide ChainsOrdered, PoolOk, FreeSuffix, FlagsOk, NoClash, CnamesOk, BigInPool, BigNames, PendingLocal, ChainOk;
    hide Distinct, ScanFree, Quiet, FindByName, AnswerList, NameCleared, WalkAnswers;
    match w {
      case Conflict =>
      case Done(_) =>
        LookupClears(st, name);
      case Reached(c, _) =>
        ReachedMatches(st, name, c);
        ScanClears(m, c, name);
        ScanFreeIdle(m, name, [], 0, ClearFlags(m.recs[c].flags));
    }
  }

  lemma ReachedMatches(st: State, name: string, c: Crec)
    requires Idle(st) && c in AnswerList(st, name, 0, DHCP_PROT) && c in st.recs && Cached(st.recs[c])
    ensures var m := FindByName(st, name, 0, DHCP_PROT).st;
        c in m.lru && c in m.recs && Matching(m.recs[c], name, DHCP_PROT)
  {
    hide ChainsOrdered, PoolOk, FreeSuffix, FlagsOk, NoClash, CnamesOk, BigInPool, BigNames, PendingLocal;
    hide Distinct, Rest, LookLoop, RotateLeft;
    LookupState(st, name, 0, DHCP_PROT);
    AnswerMembers(st, name, 0, DHCP_PROT);
    LookupIsFilter(st, name, 0, DHCP_PROT);
    LookLoopQuiet(StartLook(st), Bucket(st, name), name, 0, DHCP_PROT);
    assert ChainOk(st, Bucket(st, st.recs[c].name));
  }

  // No other hashed record maps this address back to a name.
  ghost predicate AddrCleared(st: State, addr: Addr)
    requires Wf(st)
  {
    forall x :: x in st.recs && Hashed(st, x) ==> !AddrMatching(st.recs[x], addr, IPV4)
  }

  // What a lookup by address leaves in the table.
  lemma AddrLookupLeaves(st: State, addr: Addr, now: int, prot: Flags)
    requires Idle(st)
    ensures var l := FindByAddr(st, addr, now, prot); var a := AddrAnswers(l);
            && Wf(l.st)
            && (forall x :: x in l.st.recs && Hashed(l.st, x) ==>
                x in st.recs && Hashed(st, x) && l.st.recs[x] == st.recs[x])
            && (forall x :: x in l.st.recs && Hashed(l.st, x) && AddrMatching(l.st.recs[x], addr, prot) ==> x in a)
  {
    var l := FindByAddr(st, addr, now, prot);
    hide ChainsOrdered, PoolOk, FreeSuffix, FlagsOk, NoClash, CnamesOk, BigInPool, BigNames, PendingLocal, ChainOk;
    hide Distinct, AddrAll, HeadIs;
    StartAddrOk(st, addr, now, prot);
    AddrAllOk(AddrLook(st, [], []), 0, addr, now, prot);
    SeenAll(l.st);
    ReverseMembers(l.done);
  }

  // The answers are still hashed after the lookup.
  lemma AddrAnswersStay(st: State, addr: Addr, now: int, prot: Flags)
    requires Inv(st)
    ensures var l := FindByAddr(st, addr, now, prot);
      && Wf(l.st)
      && forall x :: x in AddrAnswers(l) ==>
        x in st.recs && x in l.st.recs && Hashed(l.st, x) && l.st.recs[x] == st.recs[x]
        && AddrMatching(st.recs[x], addr, prot)
  {
    hide ChainsOrdered, PoolOk, FreeSuffix, FlagsOk, NoClash, CnamesOk, BigInPool, BigNames, ChainOk;
    hide Distinct, AddrAll, HeadIs, AddrAnswers, AddrMatching, Hashed, AddrOk, Expired;
    StartAddrOk(st, addr, now, prot);
    AddrAllOk(AddrLook(st, [], []), 0, addr, now, prot);
    AddrLookupIsFilter(st, addr, now, prot);
  }

  lemma ReverseCleared(s: State, addr: Addr)
    requires Idle(s)
    requires forall x :: x in s.recs && Hashed(s, x) && AddrMatching(s.recs[x], addr, IPV4) ==> Cached(s.recs[x])
    ensures var t := ScanFree(s, "", addr, 0, REVERSE4).0; Wf(t) && AddrCleared(t, addr)
  {
    hide PoolOk, FreeSuffix, FlagsOk, NoClash, CnamesOk, BigInPool, BigNames, PendingLocal, Distinct, ScanAll, KeepAll;
    var t := ScanFree(s, "", addr, 0, REVERSE4).0;
    ScanAllIsExact(s, 0, addr, 0, REVERSE4);
    ScanFreeIdle(s, "", addr, 0, REVERSE4);
    forall x | x in t.recs && Hashed(t, x)
      ensures !AddrMatching(t.recs[x], addr, IPV4)
    {
      var b := Bucket(s, s.recs[x].name);
      KeepAllMembers(s.recs, s.chains[b], addr, 0, REVERSE4);
      assert Hashed(s, x) && t.recs[x] == s.recs[x];
      assert x in t.chains[b];
    }
  }

  lemma ClearAddrOk(st: State, name: string, addr: Addr)
    requires Idle(st) && NameCleared(st, name)
    ensures var (t, reverse) := ClearAddr(st, addr);
            && Idle(t) && BigNames(t) == BigNames(st) && NameCleared(t, name)
            && (reverse ==> AddrCleared(t, addr))
  {
    hide ChainsOrdered, PoolOk, FreeSuffix, NoClash, CnamesOk, BigInPool, BigNames, PendingLocal, ChainOk;
    hide Distinct, ScanFree, Quiet, FindByAddr, AddrAnswers, Hashed, AddrMatching, NameCleared;
    var l := FindByAddr(st, addr, 0, IPV4);
    var a := AddrAnswers(l);
    FindByAddrIdle(st, addr, 0, IPV4);
    FindByAddrKeys(st, addr, 0, IPV4);
    AddrLookupIsFilter(st, addr, 0, IPV4);
    AddrLookupLeaves(st, addr, 0, IPV4);
    QuietLru(st, l.st);
    QuietKeepsCleared(st, l.st, name);
    if a != [] {
      assert a[0] in a;
      if l.st.recs[a[0]].flags.neg {
        assert |l.hosts| == 0;
        AllCached(st, l, addr);
        ReverseCleared(l.st, addr);
        ScanFreeIdle(l.st, "", addr, 0, REVERSE4);
        ScanKeepsCleared(l.st, name, addr);
      }
    }
  }

  lemma QuietLru(st: State, t: State)
    requires Quiet(st, t)
    ensures forall x :: x in st.recs && x in t.lru ==> x in st.lru
  {
  }

  lemma ScanKeepsCleared(s: State, name: string, addr: Addr)
    requires Idle(s) && NameCleared(s, name)
    ensures var t := ScanFree(s, "", addr, 0, REVERSE4).0; Wf(t) && NameCleared(t, name)
  {
    hide ChainsOrdered, PoolOk, FreeSuffix, FlagsOk, NoClash, CnamesOk, BigInPool, BigNames, PendingLocal, ChainOk;
    hide Distinct, ScanFree;
    ScanFreeIdle(s, "", addr, 0, REVERSE4);
    QuietKeepsCleared(s, ScanFree(s, "", addr, 0, REVERSE4).0, name);
  }

  lemma AllCached(st: State, l: AddrLook, addr: Addr)
    requires Idle(st) && Wf(l.st) && |l.hosts| == 0
    requires var a := AddrAnswers(l);
             && (forall i :: 0 <= i < |a| ==> a[i] in st.recs && (Cached(st.recs[a[i]]) <==> i >= |l.hosts|))
             && (forall x :: x in l.st.recs && Hashed(l.st, x) && AddrMatching(l.st.recs[x], addr, IPV4) ==> x in a)
             && (forall x :: x in a ==> x in l.st.recs && x in st.recs && l.st.recs[x] == st.recs[x])
    ensures forall x :: x in l.st.recs && Hashed(l.st, x) && AddrMatching(l.st.recs[x], addr, IPV4) ==>
        Cached(l.st.recs[x])
  {
    hide Inv, PendingLocal, AddrAnswers, Wf;
    var a := AddrAnswers(l);
    forall x | x in a
      ensures Cached(st.recs[x])
    {
      var i :| 0 <= i < |a| && a[i] == x;
    }
  }

  // What a record made for a lease holds; a lease that never ends has ttd 0.
  predicate LeaseEntry(r: Rec, name: string, addr: Addr, ttd: int) {
    && r.name == name && r.addr == addr
    && r.flags.forward && r.flags.dhcp && r.flags.ipv4
    && !r.flags.hosts && !r.flags.ipv6 && !r.flags.cname && !r.flags.neg
    && (r.flags.immortal <==> ttd == 0) && (ttd != 0 ==> r.ttd == ttd)
  }

  // A hosts record of the name with an IPv4 address.
  ghost predicate HostsHave(st: State, name: string)
    requires Wf(st)
  {
    exists x :: x in st.recs && Hashed(st, x) && st.recs[x].flags.hosts && Matching(st.recs[x], name, DHCP_PROT)
      && !Expired(st.recs[x], 0)
  }

  // Another record, not a negative one, that maps the address back.
  ghost predicate MapsBack(st: State, c: Crec, addr: Addr)
    requires Wf(st)
  {
    exists x :: x in st.recs && x != c && Hashed(st, x) && AddrMatching(st.recs[x], addr, IPV4) && !st.recs[x].flags.neg
  }

  // cache_add_dhcp_entry keeps the cache consistent whatever it finds. It adds a record
  // for the lease exactly if no hosts record has the name and there is memory. Then no
  // cached answer clashes with it; it carries the reverse mapping exactly if no other
  // record has it, and is the only hashed record that maps the address back then.
  lemma AddDhcpInv(st: State, name: string, addr: Addr, ttd: int, c: Crec, old_: Rec, malloc: bool)
    requires Idle(st) && c !in st.recs
    ensures var (t, added) := AddDhcp(st, name, addr, ttd, c, old_, malloc);
            && Idle(t) && BigNames(t) == BigNames(st)
            && (added <==> malloc && !HostsHave(st, name))
            && (!added ==> c !in t.recs)
            && (added ==> c in t.recs && Hashed(t, c) && LeaseEntry(t.recs[c], name, addr, ttd) && NameCleared(t, name)
                          && (t.recs[c].flags.reverse <==> !MapsBack(t, c, addr))
                          && (t.recs[c].flags.reverse ==>
                              forall x :: x in t.recs && Hashed(t, x) && AddrMatching(t.recs[x], addr, IPV4) ==>
                                  x == c))
  {
    hide ChainsOrdered, PoolOk, FreeSuffix, FlagsOk, NoClash, CnamesOk, BigInPool, BigNames, PendingLocal, ChainOk;
    hide Distinct, ClearName, ClearAddr, AddFixed, NameCleared, AddrCleared, HostsHave, MapsBack;
    var (s1, w) := ClearName(st, name, addr);
    ClearNameOk(st, name, addr);
    ClearNameRefuses(st, name, addr);
    if !w.Conflict? && !w.inHosts {
      var (s2, reverse) := ClearAddr(s1, addr);
      ClearAddrOk(s1, name, addr);
      ClearAddrMaps(s1, addr, c);
      if malloc {
        var rec := DhcpRec(old_, name, addr, ttd, reverse);
        AddRecord(s2, name, addr, c, rec);
        AddedMaps(s2, AddFixed(s2, c, rec), c, rec, addr);
        if reverse { OnlyThenAlone(AddFixed(s2, c, rec), c, addr); }
      }
    }
  }

  // ---------- when the entry is refused ----------

  predicate FixedFirst(recs: map<Crec, Rec>, a: seq<Crec>)
    requires forall x :: x in a ==> x in recs
  {
    forall i, j :: 0 <= i < j < |a| && Cached(recs[a[i]]) ==> Cached(recs[a[j]])
  }

  lemma {:induction false} WalkRefuses(recs: map<Crec, Rec>, a: seq<Crec>, addr: Addr, inHosts: bool)
    requires (forall x :: x in a ==> x in recs) && FixedFirst(recs, a)
    ensures var w := WalkAnswers(recs, a, addr, inHosts);
      (w.Conflict? || w.inHosts) <==> inHosts || exists x :: x in a && recs[x].flags.hosts
    decreases |a|
  {
    if a != [] {
      WalkRefuses(recs, a[1..], addr, true);
      WalkRefuses(recs, a[1..], addr, inHosts);
      assert a == [a[0]] + a[1..];
      assert Cached(recs[a[0]]) ==> forall x :: x in a ==> Cached(recs[x]);
    }
  }

  lemma ClearNameRefuses(st: State, name: string, addr: Addr)
    requires Idle(st)
    ensures var w := ClearName(st, name, addr).1; (w.Conflict? || w.inHosts) <==> HostsHave(st, name)
  {
    hide ChainsOrdered, PoolOk, FreeSuffix, FlagsOk, NoClash, CnamesOk, BigInPool, BigNames, PendingLocal, ChainOk;
    hide Distinct, FindByName, AnswerList, Live, HostCount, ScanFree, Hashed, Front;
    var a := AnswerList(st, name, 0, DHCP_PROT);
    LookupIsFilter(st, name, 0, DHCP_PROT);
    WalkRefuses(st.recs, a, addr, false);
    forall x | x in st.recs && st.recs[x].flags.hosts && Hashed(st, x)
      ensures Live(st.recs, Front(st.chains[Bucket(st, name)], x), x, 0) <==> !Expired(st.recs[x], 0)
    {
      FixedNoCname(st, x);
      LiveUnlessExpired(st, name, 0, x);
    }
  }

  lemma FixedNoCname(st: State, x: Crec)
    requires Inv(st) && x in st.recs && Hashed(st, x) && !Cached(st.recs[x])
    ensures !st.recs[x].flags.cname && !st.recs[x].flags.neg && st.recs[x].flags.forward
  {
  }

  // ---------- the reverse mapping ----------

  lemma ClearAddrMaps(st: State, addr: Addr, c: Crec)
    requires Idle(st) && c !in st.recs
    ensures var (t, reverse) := ClearAddr(st, addr); reverse || MapsBack(t, c, addr)
  {
    hide ChainsOrdered, PoolOk, FreeSuffix, FlagsOk, NoClash, CnamesOk, BigInPool, BigNames, PendingLocal, ChainOk;
    hide Distinct, FindByAddr, AddrAnswers, ScanFree, AddrMatching;
    var l := FindByAddr(st, addr, 0, IPV4);
    var a := AddrAnswers(l);
    AddrLookupIsFilter(st, addr, 0, IPV4);
    FindByAddrKeys(st, addr, 0, IPV4);
    AddrAnswersStay(st, addr, 0, IPV4);
    if a != [] { assert a[0] in a; }
  }

  lemma AddRecord(st: State, name: string, addr: Addr, c: Crec, rec: Rec)
    requires Idle(st) && NameCleared(st, name) && c !in st.recs
    requires FixedFlags(rec.flags) && rec.name == name && rec.flags.ipv4 && !rec.flags.ipv6
    requires rec.flags.reverse ==> AddrCleared(st, addr)
    ensures var t := AddFixed(st, c, rec);
            && Idle(t) && BigNames(t) == BigNames(st) && c in t.recs && t.recs[c] == rec && Hashed(t, c)
            && NameCleared(t, name) && Added(st, t, c, rec)
            && (rec.flags.reverse ==> forall x :: x in t.recs && Hashed(t, x) && AddrMatching(t.recs[x], addr, IPV4) ==>
                x == c)
  {
    hide ChainsOrdered, PoolOk, FreeSuffix, FlagsOk, NoClash, CnamesOk, BigInPool, BigNames, ChainOk, Distinct;
    assert RoomFor(st, rec);
    AddFixedInv(st, c, rec);
    hide AddFixed;
    AddedLocal(st, AddFixed(st, c, rec), c, rec);
  }

  lemma OnlyThenAlone(t: State, c: Crec, addr: Addr)
    requires Wf(t) && forall x :: x in t.recs && Hashed(t, x) && AddrMatching(t.recs[x], addr, IPV4) ==> x == c
    ensures !MapsBack(t, c, addr)
  {
  }

  lemma AddedMaps(st: State, t: State, c: Crec, rec: Rec, addr: Addr)
    requires Wf(st) && Wf(t) && Added(st, t, c, rec)
    ensures MapsBack(t, c, addr) <==> MapsBack(st, c, addr)
  {
    hide Distinct, ChainOk, AddrMatching, Hashed;
  }

  lemma AddedLocal(st: State, t: State, c: Crec, rec: Rec)
    requires Wf(st) && Wf(t) && Added(st, t, c, rec) && PendingLocal(st)
    ensures PendingLocal(t)
  {
    forall x | x in st.recs && CnamePointer(st, x)
      ensures CnamePointer(t, x) && (Outdated(t.recs, t.recs[x]) <==> Outdated(st.recs, st.recs[x]))
    {
    }
  }

  // ---------- add_hosts_entry ----------

  // A hosts record with this address in this family that is hashed already.
  ghost predicate HostsAddr(st: State, addr: Addr, flags: Flags)
    requires Wf(st)
  {
    exists x :: x in st.recs && Hashed(st,
        x) && st.recs[x].flags.hosts && st.recs[x].flags.SameFamily(flags) && st.recs[x].addr == addr
  }

  ghost function FamilyOf(f: Flags): Flags {
    NO_FLAGS.(ipv4 := f.ipv4, ipv6 := f.ipv6)
  }

  ghost function HostsFlags(ipv4: bool, reverse: bool): Flags {
    NO_FLAGS.(hosts := true, immortal := true, forward := true, reverse := reverse, ipv4 := ipv4, ipv6 := !ipv4)
  }

  // The new record c with index in its uid field; addrDup says that the line before had
  // the same address.
  ghost function AddHosts(st: State, c: Crec, old_: Rec, name: string, addr: Addr, ipv4: bool, index: int,
                          addrDup: bool): (r: (State, bool))
    requires Wf(st) && c !in st.recs
    ensures Wf(r.0)
  {
    var prot := FamilyOf(HostsFlags(ipv4, true));
    FindByNameKeys(st, name, 0, prot);
    var m := FindByName(st, name, 0, prot).st;
    var a := AnswerList(st, name, 0, prot);
    if a != [] && a[0] in m.recs && m.recs[a[0]].flags.hosts && m.recs[a[0]].addr == addr then (m, false)
    else
      var reverse := !addrDup && !HostsAddr(m, addr, HostsFlags(ipv4, true));
      var rec := Rec(HostsFlags(ipv4, reverse), name, addr, old_.ttd, index, null, 0);
      AddFixedAdded(m, c, rec);
      (AddFixed(m, c, rec), true)
  }

  ghost predicate AllFree(st: State) {
    forall x :: x in st.lru ==> x in st.recs && !InUse(st.recs[x])
  }

  // At most one hosts record maps each address back to a name.
  ghost predicate OneReverse(st: State)
    requires Wf(st)
  {
    forall x, y | x in st.recs && y in st.recs && HostsReverse(st, x) && HostsReverse(st, y) && x != y
      :: !(st.recs[x].addr == st.recs[y].addr && st.recs[x].flags.SameFamily(st.recs[y].flags))
  }

  ghost predicate HostsReverse(st: State, x: Crec)
    requires Wf(st)
  {
    Hashed(st, x) && st.recs[x].flags.hosts && st.recs[x].flags.reverse
  }

  // What a record made for a line of a hosts file holds.
  predicate HostsEntry(r: Rec, name: string, addr: Addr, ipv4: bool, index: int) {
    && r.name == name && r.addr == addr && r.uid == index
    && r.flags.hosts && r.flags.forward && r.flags.immortal
    && (r.flags.ipv4 <==> ipv4) && (r.flags.ipv6 <==> !ipv4)
    && !r.flags.dhcp && !r.flags.cname && !r.flags.neg
  }

  // Another hosts record with the address.
  ghost predicate OtherHosts(st: State, c: Crec, addr: Addr, ipv4: bool)
    requires Wf(st)
  {
    exists x :: x in st.recs && x != c && Hashed(st, x) && st.recs[x].flags.hosts && st.recs[x].addr == addr
      && (if ipv4 then st.recs[x].flags.ipv4 else st.recs[x].flags.ipv6)
  }

  // A hosts record with the name and the address.
  ghost predicate HostsKnow(st: State, name: string, addr: Addr, ipv4: bool)
    requires Wf(st)
  {
    exists x :: x in st.recs && Hashed(st, x) && st.recs[x].flags.hosts && st.recs[x].addr == addr
      && NameEq(st.recs[x].name, name) && (if ipv4 then st.recs[x].flags.ipv4 else st.recs[x].flags.ipv6)
  }

  // Hosts entries are only added right after the flush of cache_reload, when no cached
  // record is in use. An entry that is left out is known already; the first one for an
  // address gets its reverse mapping, unless the line before had the same address.
  lemma AddHostsInv(st: State, c: Crec, old_: Rec, name: string, addr: Addr, ipv4: bool, index: int, addrDup: bool)
    requires Idle(st) && AllFree(st) && OneReverse(st) && c !in st.recs
    ensures var (t, added) := AddHosts(st, c, old_, name, addr, ipv4, index, addrDup);
            && Idle(t) && BigNames(t) == BigNames(st) && AllFree(t) && OneReverse(t)
            && (added ==> c in t.recs && Hashed(t, c) && HostsEntry(t.recs[c], name, addr, ipv4, index)
                          && (t.recs[c].flags.reverse <==> !addrDup && !OtherHosts(t, c, addr, ipv4)))
            && (!added ==> c !in t.recs && HostsKnow(st, name, addr, ipv4))
  {
    hide ChainsOrdered, FreeSuffix, FlagsOk, NoClash, CnamesOk, BigInPool, BigNames, PendingLocal, ChainOk;
    hide Distinct, FindByName, AddFixed, AnswerList, OneReverse, HostsAddr, OtherHosts, HostsKnow;
    var prot := FamilyOf(HostsFlags(ipv4, true));
    var m := FindByName(st, name, 0, prot).st;
    FindByNameIdle(st, name, 0, prot);
    FindByNameKeys(st, name, 0, prot);
    LookupKeepsFree(st, name, 0, prot);
    var a := AnswerList(st, name, 0, prot);
    if a != [] && a[0] in m.recs && m.recs[a[0]].flags.hosts && m.recs[a[0]].addr == addr {
      AnswerKnows(st, name, addr, ipv4);
    } else {
      var reverse := !addrDup && !HostsAddr(m, addr, HostsFlags(ipv4, true));
      var rec := Rec(HostsFlags(ipv4, reverse), name, addr, old_.ttd, index, null, 0);
      assert RoomFor(m, rec);
      AddFixedInv(m, c, rec);
      AddedLocal(m, AddFixed(m, c, rec), c, rec);
      AddedReverse(m, AddFixed(m, c, rec), c, rec);
      OthersAre(m, AddFixed(m, c, rec), c, rec, addr, ipv4);
    }
  }

  lemma OthersAre(m: State, t: State, c: Crec, rec: Rec, addr: Addr, ipv4: bool)
    requires Wf(m) && Wf(t) && Added(m, t, c, rec)
    ensures OtherHosts(t, c, addr, ipv4) <==> HostsAddr(m, addr, HostsFlags(ipv4, true))
  {
    hide Distinct, ChainOk, Hashed;
  }

  lemma AnswerKnows(st: State, name: string, addr: Addr, ipv4: bool)
    requires Idle(st)
    requires var prot := FamilyOf(HostsFlags(ipv4, true)); var m := FindByName(st, name, 0, prot).st;
      var a := AnswerList(st, name, 0, prot);
      a != [] && a[0] in m.recs && m.recs[a[0]].flags.hosts && m.recs[a[0]].addr == addr
    ensures HostsKnow(st, name, addr, ipv4)
  {
    hide ChainsOrdered, FreeSuffix, FlagsOk, NoClash, CnamesOk, BigInPool, BigNames, PendingLocal, ChainOk, PoolOk;
    hide Distinct, FindByName, AnswerList, Live, HostCount, Hashed;
    var prot := FamilyOf(HostsFlags(ipv4, true));
    var a := AnswerList(st, name, 0, prot);
    LookupIsFilter(st, name, 0, prot);
    LookupState(st, name, 0, prot);
    assert a[0] in a;
  }

  lemma AddedReverse(st: State, t: State, c: Crec, rec: Rec)
    requires Wf(st) && Wf(t) && Added(st, t, c, rec) && OneReverse(st)
    requires rec.flags.reverse ==> !HostsAddr(st, rec.addr, rec.flags)
    ensures OneReverse(t)
  {
    forall x | x in t.recs && HostsReverse(t, x)
      ensures x == c || HostsReverse(st, x)
    {
    }
  }

  // Records leave the hash table, or stay as they are; none comes into use.
  ghost predicate Fewer(st: State, t: State)
    requires Wf(st) && Wf(t)
  {
    && t.recs.Keys == st.recs.Keys
    && (forall x :: x in st.recs && Hashed(t, x) ==> Hashed(st, x) && t.recs[x] == st.recs[x])
    && (forall x :: x in st.recs && Cached(st.recs[x]) ==> Cached(t.recs[x]))
    && (forall x :: x in st.recs && InUse(t.recs[x]) ==> InUse(st.recs[x]))
  }

  lemma {:induction false} LookLoopFewer(l: Look, b: nat, name: string, now: int, prot: Flags)
    requires LookOk(l, b)
    ensures Fewer(l.st, LookLoop(l, b, name, now, prot).st)
    decreases |l.st.chains[b]| - l.i
  {
    if l.i < |l.st.chains[b]| {
      LoopUnroll(l, b, name, now, prot);
      LookStepFewer(l, b, name, now, prot);
      hide LookLoop, LookStep, Distinct, ChainOk, Hashed;
      LookLoopFewer(LookStep(l, b, name, now, prot), b, name, now, prot);
    }
  }

  lemma LookStepFewer(l: Look, b: nat, name: string, now: int, prot: Flags)
    requires LookOk(l, b) && l.i < |l.st.chains[b]|
    ensures Wf(LookStep(l, b, name, now, prot).st) && Fewer(l.st, LookStep(l, b, name, now, prot).st)
  {
    hide Wf, Fewer, Drop, LookMatch;
    EntryRec(l.st, b, l.i);
    LookStepOk(l, b, name, now, prot);
    FewerReflexive(l.st);
    if Dead(l.st.recs, l.st.recs[l.st.chains[b][l.i]], now) {
      DropFewer(l.st, b, l.i);
    } else if Matching(l.st.recs[l.st.chains[b][l.i]], name, prot) {
      MatchFewer(l, b);
    }
  }

  lemma FewerReflexive(st: State)
    requires Wf(st)
    ensures Fewer(st, st)
  {
  }

  lemma DropFewer(st: State, b: nat, i: nat)
    requires Wf(st) && b < |st.chains| && i < |st.chains[b]|
    ensures Wf(Drop(st, b, i)) && Fewer(st, Drop(st, b, i))
  {
    hide Drop, ChainOk, Distinct, Hashed;
    DropIsDropped(st, b, i);
  }

  lemma MatchFewer(l: Look, b: nat)
    requires LookOk(l, b) && l.i < |l.st.chains[b]|
    ensures Wf(LookMatch(l, b).st) && Fewer(l.st, LookMatch(l, b).st)
  {
    hide ChainOk, Distinct, Promote, MoveUp;
    EntryRec(l.st, b, l.i);
    var c := l.st.chains[b][l.i];
    var s := if Cached(l.st.recs[c]) then Promote(l.st, c) else l.st;
    if Cached(l.st.recs[c]) {
      PromoteWf(l.st, c);
      PromoteRecs(l.st, c);
    }
    if l.started && SameClass(l, l.st.recs[c]) {
      MoveUpWf(s, b, l.i, l.ins);
    }
  }

  lemma LookupKeepsFree(st: State, name: string, now: int, prot: Flags)
    requires Idle(st) && AllFree(st) && OneReverse(st)
    ensures var m := FindByName(st, name, now, prot).st; Wf(m) && AllFree(m) && OneReverse(m)
  {
    hide ChainsOrdered, PoolOk, FreeSuffix, FlagsOk, NoClash, CnamesOk, BigInPool, PendingLocal, ChainOk, Distinct;
    hide LookLoop, Quiet, Fewer, AllFree, OneReverse;
    FindByNameIdle(st, name, now, prot);
    LookLoopFewer(StartLook(st), Bucket(st, name), name, now, prot);
    FewerKeepsFree(st, FindByName(st, name, now, prot).st);
  }

  lemma FewerKeepsFree(st: State, t: State)
    requires Wf(st) && Wf(t) && Quiet(st, t) && Fewer(st, t) && AllFree(st) && OneReverse(st)
    ensures AllFree(t) && OneReverse(t)
  {
  }
}
