// Runs of the lease table: leases read from the file, then any sequence of changes and
// calls of do_script_run, with the rerun of the scripts that every start-up makes.
module LeaseRuns {
  import opened Optional
  import opened LeaseTable
  import opened LeaseEvents

  datatype Op =
    | Load(addr: nat, hw: Hw, clid: seq<nat>, expires: nat, name: Option<string>)
    | RerunScripts
    | LeaseAllocate(addr: nat, room: bool)
    | LeaseSetExpires(i: nat, len: nat, now: nat)
    | LeaseSetHwaddr(i: nat, hw: Hw, clid: seq<nat>, room: bool)
    | LeaseSetHostname(i: nat, name: Option<string>, auth: bool, room: bool)
    | LeaseSetInterface(i: nat, n: int)
    | LeasePrune(target: Option<nat>, now: nat)
    | DoScriptRun(ro: bool)

  // owed has a Del event for each lease pruned so far; synced is set by the rerun.
  datatype World = World(s: Leases, log: seq<Event>, owed: multiset<Event>, synced: bool)

  // What lease_init does with one line of the file.
  function LoadLease(s: Leases, a: nat, hw: Hw, clid: seq<nat>, expires: nat, name: Option<string>): Leases
    requires s.left > 0
  {
    var s1 := Allocate(s, a, true);
    var s2 := s1.(live := s1.live[0 := s1.live[0].(expires := expires)]);
    var s3 := SetHwaddr(s2, 0, hw, clid, true);
    var s4 := if name.Some? then SetHostname(s3, 0, name, false, true) else s3;
    s4.(live := s4.live[0 := s4.live[0].(isNew := false, changed := false)])
  }

  // Callers allocate an address only after lease_find_by_addr or lease_find_by_client
  // has shown that nobody has it; setters work on leases of the table; the file is read
  // first and has no address twice.
  predicate Enabled(w: World, op: Op) {
    match op
    case Load(a, _, _, _, _) => w.s.left > 0 && w.s.dead == [] && !w.synced && !HasAddr(w.s.live, a)
    case RerunScripts => true
    case LeaseAllocate(a, _) => !HasAddr(w.s.live, a)
    case LeaseSetExpires(i, _, _) => i < |w.s.live|
    case LeaseSetHwaddr(i, _, _, _) => i < |w.s.live|
    case LeaseSetHostname(i, _, _, _) => i < |w.s.live|
    case LeaseSetInterface(i, _) => i < |w.s.live|
    case LeasePrune(_, _) => true
    case DoScriptRun(_) => true
  }

  function Farewell(l: Lease): Event {
    Del(l.addr, l.hw, l.hostname)
  }

  function Farewells(ls: seq<Lease>): multiset<Event> {
    if ls == [] then multiset{} else multiset{Farewell(ls[0])} + Farewells(ls[1..])
  }

  function Apply(w: World, op: Op): World
    requires Enabled(w, op)
  {
    match op
    case Load(a, hw, clid, exp, name) => w.(s := LoadLease(w.s, a, hw, clid, exp, name))
    case RerunScripts => w.(s := w.s.(live := AllChanged(w.s.live)), synced := true)
    case LeaseAllocate(a, room) => w.(s := Allocate(w.s, a, room))
    case LeaseSetExpires(i, len, now) => w.(s := SetExpires(w.s, i, len, now))
    case LeaseSetHwaddr(i, hw, clid, room) => w.(s := SetHwaddr(w.s, i, hw, clid, room))
    case LeaseSetHostname(i, name, auth, room) => w.(s := SetHostname(w.s, i, name, auth, room))
    case LeaseSetInterface(i, n) => w.(s := SetInterface(w.s, i, n))
    case LeasePrune(target, now) =>
      w.(s := Prune(w.s, target, now), owed := w.owed + Farewells(Gone(w.s.live, target, now)))
    case DoScriptRun(ro) =>
      var (s', e) := Script(w.s, ro);
      w.(s := s', log := if e.Some? then w.log + [e.v] else w.log)
  }

  // An operation that no caller could make leaves the world alone.
  function Run(w: World, ops: seq<Op>): World
    decreases |ops|
  {
    if ops == [] then w
    else Run(if Enabled(w, ops[0]) then Apply(w, ops[0]) else w, ops[1..])
  }

  function Start(max: nat): World {
    World(Leases([], [], max, false, false), [], multiset{}, false)
  }

  // ---------- what every run keeps ----------

  function Deletions(log: seq<Event>): multiset<Event> {
    if log == [] then multiset{}
    else Deletions(log[..|log| - 1]) + (if log[|log| - 1].Del? then multiset{log[|log| - 1]} else multiset{})
  }

  // At every moment the script's table gives no hostname to two addresses, and an
  // address is added only when the table does not have it.
  ghost predicate GoodLog(log: seq<Event>) {
    && (forall n :: 0 <= n <= |log| ==> UniqueNames(Replay(map[], log[..n])))
    && (forall n :: 0 <= n < |log| && log[n].Add? ==> log[n].addr !in Replay(map[], log[..n]))
  }

  ghost predicate WorldInv(w: World, max: nat) {
    && TableInv(w.s, max)
    && EventInv(w.s, Replay(map[], w.log), w.synced)
    && w.owed == Deletions(w.log) + Farewells(w.s.dead)
    && GoodLog(w.log)
  }

  lemma FarewellsCons(l: Lease, ls: seq<Lease>)
    ensures Farewells([l] + ls) == multiset{Farewell(l)} + Farewells(ls)
  {
    assert ([l] + ls)[1..] == ls;
  }

  lemma {:induction false} FarewellsConcat(a: seq<Lease>, b: seq<Lease>)
    ensures Farewells(a + b) == Farewells(a) + Farewells(b)
  {
    hide Farewells, Farewell;
    if a == [] {
      assert a + b == b;
      FarewellsNone();
    } else {
      FarewellsConcat(a[1..], b);
      assert a == [a[0]] + a[1..] && a + b == [a[0]] + (a[1..] + b);
      FarewellsCons(a[0], a[1..]);
      FarewellsCons(a[0], a[1..] + b);
    }
  }

  lemma FarewellsNone()
    ensures Farewells([]) == multiset{}
  {
  }

  lemma LogGrows(log: seq<Event>, e: Event)
    requires GoodLog(log) && UniqueNames(Follow(Replay(map[], log), e))
    requires e.Add? ==> e.addr !in Replay(map[], log)
    ensures GoodLog(log + [e])
    ensures Replay(map[], log + [e]) == Follow(Replay(map[], log), e)
    ensures Deletions(log + [e]) == Deletions(log) + (if e.Del? then multiset{e} else multiset{})
  {
    hide UniqueNames, Follow, GoodLog;
    assert (log + [e])[..|log|] == log;
    GoodSnoc(log, e);
  }

  lemma GoodSnoc(log: seq<Event>, e: Event)
    requires GoodLog(log) && UniqueNames(Replay(map[], log + [e]))
    requires e.Add? ==> e.addr !in Replay(map[], log)
    ensures GoodLog(log + [e])
  {
    hide UniqueNames, Follow, Replay;
    var all := log + [e];
    assert all[..|all|] == all && log[..|log|] == log;
    assert forall n :: 0 <= n <= |log| ==> all[..n] == log[..n];
    assert forall n :: 0 <= n < |log| ==> all[n] == log[n];
  }

  lemma ScriptKeeps(s: Leases, ro: bool, t: Table, synced: bool)
    requires DistinctAddrs(s.live) && DistinctNames(s.live) && EventInv(s, t, synced) && Script(s, ro).1.Some?
    ensures EventInv(Script(s, ro).0, Follow(t, Script(s, ro).1.v), synced)
  {
    hide EventInv, Follow, Untold, DistinctAddrs, DistinctNames;
    if s.dead != [] {
      ScriptKeepsDead(s, ro, t, synced);
    } else if LostName(s.live) < |s.live| {
      ScriptKeepsLost(s, ro, t, synced);
    } else {
      ScriptKeepsTold(s, ro, t, synced);
    }
  }

  lemma ScriptAddsUnknown(s: Leases, ro: bool, t: Table)
    requires NewUnknown(s, t) && Script(s, ro).1.Some? && Script(s, ro).1.v.Add?
    ensures Script(s, ro).1.v.addr !in t
  {
    var k := FirstUntold(s.live, ro);
    assert !HasAddr(s.dead, s.live[k].addr);
  }

  lemma ScriptOwes(s: Leases, ro: bool)
    requires Script(s, ro).1.Some?
    ensures var (s', e) := Script(s, ro);
      Farewells(s.dead) == (if e.v.Del? then multiset{e.v} else multiset{}) + Farewells(s'.dead)
  {
    if s.dead != [] && s.dead[0].oldHostname.Some? {
      assert s.dead[0 := Unnamed(s.dead[0])][1..] == s.dead[1..];
    }
  }

  lemma ScriptStepKeeps(w: World, ro: bool, max: nat)
    requires WorldInv(w, max)
    ensures WorldInv(Apply(w, DoScriptRun(ro)), max)
  {
    hide EventInv, Follow, Farewells, GoodLog, Replay, Deletions, UniqueNames;
    var (s', e) := Script(w.s, ro);
    ScriptTable(w.s, ro, max);
    if e.Some? {
      var t := Replay(map[], w.log);
      ScriptKeeps(w.s, ro, t, w.synced);
      EventInvParts(w.s, t, w.synced);
      EventInvParts(s', Follow(t, e.v), w.synced);
      if e.v.Add? {
        ScriptAddsUnknown(w.s, ro, t);
      }
      ScriptOwes(w.s, ro);
      LogGrows(w.log, e.v);
    } else {
      assert s' == w.s;
    }
  }

  lemma EventInvParts(s: Leases, t: Table, synced: bool)
    requires EventInv(s, t, synced)
    ensures NewUnknown(s, t) && UniqueNames(t)
  {
  }

  lemma RerunKeeps(s: Leases, t: Table, synced: bool)
    requires EventInv(s, t, synced)
    ensures EventInv(s.(live := AllChanged(s.live)), t, true)
  {
    hide UniqueNames;
    var s' := s.(live := AllChanged(s.live));
    forall a | HasAddr(s.live, a)
      ensures HasAddr(s'.live, a)
    {
      var i :| 0 <= i < |s.live| && s.live[i].addr == a;
      assert s'.live[i].addr == a;
    }
  }

  // Before the rerun nothing is claimed of settled leases, so the flags may be cleared.
  lemma ClearKeeps(s: Leases, t: Table)
    requires EventInv(s, t, false) && 0 < |s.live| && s.dead == []
    ensures EventInv(s.(live := s.live[0 := s.live[0].(isNew := false, changed := false)]), t, false)
  {
    hide UniqueNames;
    var s' := s.(live := s.live[0 := s.live[0].(isNew := false, changed := false)]);
    assert forall i :: 0 <= i < |s.live| ==>
        s'.live[i].addr == s.live[i].addr && s'.live[i].hostname == s.live[i].hostname &&
            s'.live[i].oldHostname == s.live[i].oldHostname;
    forall a | HasAddr(s.live, a)
      ensures HasAddr(s'.live, a)
    {
      var i :| 0 <= i < |s.live| && s.live[i].addr == a;
      assert s'.live[i].addr == a;
    }
  }

  predicate Same(a: Leases, b: Leases) {
    |a.live| == |b.live| && a.dead == b.dead && a.left == b.left
    && forall i :: 0 <= i < |a.live| ==> Quiet(a.live[i], b.live[i]) && b.live[i].hostname == a.live[i].hostname
  }

  // A change that touches no address and no name.
  lemma SameKeeps(s: Leases, s': Leases, t: Table, synced: bool, max: nat)
    requires Same(s, s') && TableInv(s, max) && EventInv(s, t, synced)
    ensures TableInv(s', max) && EventInv(s', t, synced)
  {
    hide EventInv;
    QuietKeeps(s, s', t, synced);
  }

  lemma SetHostnameKeeps(s: Leases, i: nat, name: Option<string>, auth: bool, room: bool, t: Table, synced: bool,
                         max: nat)
    requires i < |s.live| && TableInv(s, max) && EventInv(s, t, synced)
    ensures TableInv(SetHostname(s, i, name, auth, room), max)
    ensures EventInv(SetHostname(s, i, name, auth, room), t, synced)
  {
    hide EventInv, TableInv, SetHostname;
    SetHostnameTable(s, i, name, auth, room, max);
    SetHostnameQuiet(s, i, name, auth, room);
    QuietKeeps(s, SetHostname(s, i, name, auth, room), t, synced);
  }

  lemma LoadKeeps(s: Leases, a: nat, hw: Hw, clid: seq<nat>, exp: nat, name: Option<string>, t: Table, max: nat)
    requires s.left > 0 && s.dead == [] && !HasAddr(s.live, a) && TableInv(s, max) && EventInv(s, t, false)
    ensures TableInv(LoadLease(s, a, hw, clid, exp, name), max)
    ensures EventInv(LoadLease(s, a, hw, clid, exp, name), t, false)
  {
    hide EventInv, HasAddr, WithHw, WithClid, SetHostname;
    var s1 := Allocate(s, a, true);
    AllocateKeeps(s, a, true, t, false, max);
    var s2 := s1.(live := s1.live[0 := s1.live[0].(expires := exp)]);
    SameKeeps(s1, s2, t, false, max);
    var s3 := SetHwaddr(s2, 0, hw, clid, true);
    HwaddrSame(s2, 0, hw, clid, true);
    SameKeeps(s2, s3, t, false, max);
    if name.Some? {
      SetHostnameKeeps(s3, 0, name, false, true, t, false, max);
      SetHostnameQuiet(s3, 0, name, false, true);
    }
    var s4 := if name.Some? then SetHostname(s3, 0, name, false, true) else s3;
    ClearKeeps(s4, t);
    assert LoadLease(s, a, hw, clid, exp, name) == s4.(live := s4.live[0 := s4.live[0].(isNew := false,
        changed := false)]);
  }

  lemma HwaddrSame(s: Leases, i: nat, hw: Hw, clid: seq<nat>, room: bool)
    requires i < |s.live|
    ensures Same(s, SetHwaddr(s, i, hw, clid, room))
  {
  }

  // ---------- every operation ----------

  lemma TableStep(w: World, op: Op, max: nat)
    requires Enabled(w, op) && !op.DoScriptRun? && TableInv(w.s, max)
    requires EventInv(w.s, Replay(map[], w.log), w.synced)
    ensures TableInv(Apply(w, op).s, max)
    ensures EventInv(Apply(w, op).s, Replay(map[], w.log), Apply(w, op).synced)
    ensures Apply(w, op).log == w.log
  {
    hide EventInv, Replay, LoadLease, Prune, SetHostname, HasAddr;
    var t := Replay(map[], w.log);
    match op
    case Load(a, hw, clid, exp, name) => LoadKeeps(w.s, a, hw, clid, exp, name, t, max);
    case RerunScripts => RerunKeeps(w.s, t, w.synced);
    case LeaseAllocate(a, room) => AllocateKeeps(w.s, a, room, t, w.synced, max);
    case LeaseSetExpires(i, len, now) => SameKeeps(w.s, Apply(w, op).s, t, w.synced, max);
    case LeaseSetHwaddr(i, hw, clid, room) =>
      HwaddrSame(w.s, i, hw, clid, room);
      SameKeeps(w.s, Apply(w, op).s, t, w.synced, max);
    case LeaseSetHostname(i, name, auth, room) => SetHostnameKeeps(w.s, i, name, auth, room, t, w.synced, max);
    case LeaseSetInterface(i, n) => SameKeeps(w.s, Apply(w, op).s, t, w.synced, max);
    case LeasePrune(target, now) =>
      PruneTable(w.s, target, now, max);
      PruneKeeps(w.s, target, now, t, w.synced);
  }

  lemma OwedStep(w: World, op: Op)
    requires Enabled(w, op) && !op.DoScriptRun? && w.owed == Deletions(w.log) + Farewells(w.s.dead)
    ensures Apply(w, op).owed == Deletions(Apply(w, op).log) + Farewells(Apply(w, op).s.dead)
  {
    hide Deletions, Farewells, Gone, Kept, HasAddr;
    match op
    case LeasePrune(target, now) => FarewellsConcat(Gone(w.s.live, target, now), w.s.dead);
    case LeaseSetHostname(i, name, auth, room) => SetHostnameQuiet(w.s, i, name, auth, room);
    case _ =>
  }

  lemma {:induction false} RunKeeps(w: World, ops: seq<Op>, max: nat)
    requires WorldInv(w, max)
    ensures WorldInv(Run(w, ops), max)
    decreases |ops|
  {
    hide TableInv, EventInv, Replay, Deletions, Farewells, GoodLog, Enabled, Apply;
    if ops != [] {
      if Enabled(w, ops[0]) {
        if ops[0].DoScriptRun? {
          ScriptStepKeeps(w, ops[0].ro, max);
        } else {
          TableStep(w, ops[0], max);
          OwedStep(w, ops[0]);
        }
        RunKeeps(Apply(w, ops[0]), ops[1..], max);
      } else {
        RunKeeps(w, ops[1..], max);
      }
    }
  }

  // Every run: leases have distinct addresses and distinct names and fill the pool
  // together with the free slots; the log never names two addresses alike and adds no
  // address twice; and each lease ever pruned has exactly one deletion, told or owed.
  lemma EveryRun(ops: seq<Op>, max: nat)
    ensures WorldInv(Run(Start(max), ops), max)
  {
    assert UniqueNames(Replay(map[], []));
    RunKeeps(Start(max), ops, max);
  }

  // ---------- draining ----------

  // Once do_script_run has nothing to say after the start-up rerun, the script's table
  // is the lease table and every pruned lease has been deleted exactly once.
  lemma DrainedIsExact(ops: seq<Op>, ro: bool, max: nat)
    requires Run(Start(max), ops).synced && Script(Run(Start(max), ops).s, ro).1.None?
    ensures var w := Run(Start(max), ops);
      DistinctAddrs(w.s.live) && Replay(map[], w.log) == TableOf(w.s.live) && w.owed == Deletions(w.log)
  {
    EveryRun(ops, max);
    var w := Run(Start(max), ops);
    DrainedTable(w.s, ro, Replay(map[], w.log));
  }

  lemma DrainedTable(s: Leases, ro: bool, t: Table)
    requires EventInv(s, t, true) && DistinctAddrs(s.live) && Script(s, ro).1.None?
    ensures s.dead == [] && t == TableOf(s.live)
  {
    hide Reborn, NewUnknown, NamesKnown, UniqueNames;
    forall i | 0 <= i < |s.live|
      ensures s.live[i].addr in t && t[s.live[i].addr] == Entry(s.live[i].hw, s.live[i].hostname)
    {
      assert Settled(s.live[i]) && s.live[i].oldHostname.None?;
    }
    assert forall a :: HasAddr(s.dead, a) ==> false;
    TableIs(s.live, t);
  }

  lemma TableIs(ls: seq<Lease>, t: Table)
    requires DistinctAddrs(ls) && forall a :: a in t ==> HasAddr(ls, a)
    requires forall i :: 0 <= i < |ls| ==> ls[i].addr in t && t[ls[i].addr] == Entry(ls[i].hw, ls[i].hostname)
    ensures t == TableOf(ls)
  {
    var u := TableOf(ls);
    forall a | a in u
      ensures a in t && t[a] == u[a]
    {
      var i :| 0 <= i < |ls| && ls[i].addr == a && u[a] == Entry(ls[i].hw, ls[i].hostname);
    }
    forall a | a in t
      ensures a in u
    {
      var i :| 0 <= i < |ls| && ls[i].addr == a;
      assert ls[i].addr in u;
    }
  }

  function LostCount(ls: seq<Lease>): nat {
    if ls == [] then 0 else (if ls[0].oldHostname.Some? then 1 else 0) + LostCount(ls[1..])
  }

  function UntoldCount(ls: seq<Lease>, ro: bool): nat {
    if ls == [] then 0 else (if Untold(ls[0], ro) then 1 else 0) + UntoldCount(ls[1..], ro)
  }

  // The number of events still to come.
  function Backlog(s: Leases, ro: bool): nat {
    |s.dead| + LostCount(s.dead) + LostCount(s.live) + UntoldCount(s.live, ro)
  }

  lemma {:induction false} CountsAt(ls: seq<Lease>, i: nat, l: Lease, ro: bool)
    requires i < |ls|
    ensures LostCount(ls[i := l]) == LostCount(ls) - (if ls[i].oldHostname.Some? then 1
        else 0) + (if l.oldHostname.Some? then 1 else 0)
    ensures UntoldCount(ls[i := l], ro) == UntoldCount(ls, ro) - (if Untold(ls[i], ro) then 1
        else 0) + (if Untold(l, ro) then 1 else 0)
  {
    if i == 0 {
      assert ls[i := l][1..] == ls[1..];
    } else {
      CountsAt(ls[1..], i - 1, l, ro);
      assert ls[i := l][1..] == ls[1..][i - 1 := l];
    }
  }

  lemma {:induction false} NoneLeft(ls: seq<Lease>, ro: bool)
    ensures LostCount(ls) == 0 <==> LostName(ls) == |ls|
    ensures UntoldCount(ls, ro) == 0 <==> FirstUntold(ls, ro) == |ls|
  {
    if ls != [] {
      NoneLeft(ls[1..], ro);
    }
  }

  // Each call that tells something leaves one event fewer to tell, and a call tells
  // nothing exactly when there is nothing left: a drain is Backlog calls long.
  lemma EachCallTellsOne(s: Leases, ro: bool)
    ensures Script(s, ro).1.None? <==> Backlog(s, ro) == 0
    ensures Script(s, ro).1.Some? ==> Backlog(Script(s, ro).0, ro) == Backlog(s, ro) - 1
  {
    NoneLeft(s.live, ro);
    if s.dead != [] {
      CountsAt(s.dead, 0, Unnamed(s.dead[0]), ro);
    } else if LostName(s.live) < |s.live| {
      CountsAt(s.live, LostName(s.live), Unnamed(s.live[LostName(s.live)]), ro);
    } else if FirstUntold(s.live, ro) < |s.live| {
      CountsAt(s.live, FirstUntold(s.live, ro), Told(s.live[FirstUntold(s.live, ro)]), ro);
    }
  }

  // No lease is announced while a deletion or the loss of a name is still untold.
  lemma AnnouncesLast(s: Leases, ro: bool)
    requires Script(s, ro).1.Some? && (Script(s, ro).1.v.Add? || Script(s, ro).1.v.Old?)
    ensures s.dead == [] && LostCount(s.live) == 0
  {
    NoneLeft(s.live, ro);
  }
}
