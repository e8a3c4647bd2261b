// What the script has been told about a lease beside its address and name: a lease with no
// change flag set was announced with the values it has.
module LeaseTold {
  import opened Optional
  import opened LeaseTable
  import opened LeaseEvents
  import opened LeaseRuns

  // The values that come with an add or an old event.
  datatype Report = Report(iface: int, hw: Hw, expires: nat, clid: seq<nat>)

  function ReportOf(l: Lease): Report {
    Report(l.lastInterface, l.hw, l.expires, l.clid)
  }

  // said has the last report for each address.
  datatype Teller = Teller(w: World, said: map<nat, Report>)

  function Perform(t: Teller, op: Op): Teller {
    if !Enabled(t.w, op) then t
    else
      var w := Apply(t.w, op);
      if op.DoScriptRun? && |w.log| > |t.w.log| && (w.log[|t.w.log|].Add? || w.log[|t.w.log|].Old?) then
        Teller(w, Hear(t.said, t.w.s.live, w.log[|t.w.log|].addr))
      else t.(w := w)
  }

  // The report is about the lease on the address.
  function Hear(said: map<nat, Report>, ls: seq<Lease>, a: nat): map<nat, Report> {
    if ByAddr(ls, a) < |ls| then said[a := ReportOf(ls[ByAddr(ls, a)])] else said
  }

  function PerformAll(t: Teller, ops: seq<Op>): Teller
    decreases |ops|
  {
    if ops == [] then t else PerformAll(Perform(t, ops[0]), ops[1..])
  }

  // What is known of the lease: interface and hardware address unless it has changed, and end
  // and client-id as well if these have not.
  predicate Known(said: map<nat, Report>, l: Lease) {
    l.isNew || l.changed
    || (&& l.addr in said && said[l.addr].iface == l.lastInterface && said[l.addr].hw == l.hw
        && (l.auxChanged || (said[l.addr].expires == l.expires && said[l.addr].clid == l.clid)))
  }

  predicate AllKnown(said: map<nat, Report>, ls: seq<Lease>) {
    forall i :: 0 <= i < |ls| ==> Known(said, ls[i])
  }

  lemma KeptKnown(said: map<nat, Report>, ls: seq<Lease>, target: Option<nat>, now: nat)
    requires AllKnown(said, ls)
    ensures AllKnown(said, Kept(ls, target, now))
  {
    hide Known;
    KeptIsFilter(ls, target, now);
    var ks := Kept(ls, target, now);
    forall i | 0 <= i < |ks|
      ensures Known(said, ks[i])
    {
      assert ks[i] in ls;
      var k :| 0 <= k < |ls| && ls[k] == ks[i];
    }
  }

  lemma HostnameKnown(said: map<nat, Report>, s: Leases, i: nat, name: Option<string>, auth: bool, room: bool)
    requires AllKnown(said, s.live) && i < |s.live|
    ensures AllKnown(said, SetHostname(s, i, name, auth, room).live)
  {
  }

  lemma ChangesKnown(t: Teller, op: Op)
    requires Enabled(t.w, op) && !op.DoScriptRun? && !op.Load? && AllKnown(t.said, t.w.s.live)
    ensures AllKnown(t.said, Apply(t.w, op).s.live)
  {
    hide Prune, SetHostname, Rob;
    match op
    case LeaseSetHostname(i, name, auth, room) => HostnameKnown(t.said, t.w.s, i, name, auth, room);
    case LeasePrune(target, now) =>
      KeptKnown(t.said, t.w.s.live, target, now);
      PruneLive(t.w.s, target, now);
    case _ =>
  }

  lemma PruneLive(s: Leases, target: Option<nat>, now: nat)
    ensures Prune(s, target, now).live == Kept(s.live, target, now)
  {
  }

  lemma ToldKnown(said: map<nat, Report>, ls: seq<Lease>, k: nat)
    requires AllKnown(said, ls) && DistinctAddrs(ls) && k < |ls|
    ensures AllKnown(Hear(said, ls, ls[k].addr), ls[k := Told(ls[k])])
  {
    hide ByAddr;
    OneIndex(ls, k);
  }

  lemma UnnamedKnown(said: map<nat, Report>, ls: seq<Lease>, k: nat)
    requires AllKnown(said, ls) && k < |ls|
    ensures AllKnown(said, ls[k := Unnamed(ls[k])])
  {
  }

  // The event tells whom the call was about.
  lemma ScriptIs(w: World, ro: bool)
    ensures var (s', e) := Script(w.s, ro);
      if e.Some? && (e.v.Add? || e.v.Old?) then
        exists k :: 0 <= k < |w.s.live| && e.v.addr == w.s.live[k].addr && s'.live == w.s.live[k := Told(w.s.live[k])]
      else s'.live == w.s.live || exists k :: 0 <= k < |w.s.live| && s'.live == w.s.live[k := Unnamed(w.s.live[k])]
  {
    hide FirstUntold, LostName;
  }

  lemma ScriptKnown(t: Teller, ro: bool)
    requires AllKnown(t.said, t.w.s.live) && DistinctAddrs(t.w.s.live)
    ensures AllKnown(Perform(t, DoScriptRun(ro)).said, Perform(t, DoScriptRun(ro)).w.s.live)
  {
    hide AllKnown, Script, Hear, Told, Unnamed;
    ScriptIs(t.w, ro);
    var ls := t.w.s.live;
    var (s', e) := Script(t.w.s, ro);
    if e.Some? && (e.v.Add? || e.v.Old?) {
      var k :| 0 <= k < |ls| && e.v.addr == ls[k].addr && s'.live == ls[k := Told(ls[k])];
      ToldKnown(t.said, ls, k);
    } else if s'.live != ls {
      var k :| 0 <= k < |ls| && s'.live == ls[k := Unnamed(ls[k])];
      UnnamedKnown(t.said, ls, k);
    }
  }

  lemma OneIndex(ls: seq<Lease>, k: nat)
    requires DistinctAddrs(ls) && k < |ls|
    ensures ByAddr(ls, ls[k].addr) == k
  {
    var i := ByAddr(ls, ls[k].addr);
    assert i < |ls| && ls[i].addr == ls[k].addr;
  }

  lemma Synced(t: Teller, op: Op)
    requires Enabled(t.w, op)
    ensures Apply(t.w, op).synced <==> t.w.synced || op.RerunScripts?
  {
    hide Script, LoadLease, Prune, SetHostname;
  }

  // Over any run: from the start-up rerun on, a lease that is neither new nor changed was
  // announced with its interface and hardware address, and with its end and client-id unless
  // these changed after that.
  lemma {:induction false} EveryRunTold(t: Teller, ops: seq<Op>, max: nat)
    requires WorldInv(t.w, max) && (t.w.synced ==> AllKnown(t.said, t.w.s.live))
    ensures var u := PerformAll(t, ops); u.w.synced ==> AllKnown(u.said, u.w.s.live)
    decreases |ops|
  {
    hide WorldInv, Enabled, Apply, AllKnown;
    if ops != [] {
      var op, u := ops[0], Perform(t, ops[0]);
      OneStep(t, op, max);
      EveryRunTold(u, ops[1..], max);
    }
  }

  lemma OneStep(t: Teller, op: Op, max: nat)
    requires WorldInv(t.w, max) && (t.w.synced ==> AllKnown(t.said, t.w.s.live))
    ensures var u := Perform(t, op); WorldInv(u.w, max) && (u.w.synced ==> AllKnown(u.said, u.w.s.live))
  {
    hide WorldInv, Enabled, Apply, AllKnown;
    RunKeeps(t.w, [op], max);
    RunOne(t.w, op);
    if Enabled(t.w, op) {
      Synced(t, op);
      if op.RerunScripts? {
        RerunKnown(t);
      } else if t.w.synced {
        NoLoad(t.w, op);
        if op.DoScriptRun? {
          Distinct(t.w, max);
          ScriptKnown(t, op.ro);
        } else {
          ChangesKnown(t, op);
        }
      }
    }
  }

  lemma RunOne(w: World, op: Op)
    ensures Run(w, [op]) == if Enabled(w, op) then Apply(w, op) else w
  {
    hide Apply, Enabled;
    assert [op][1..] == [];
  }

  lemma RerunKnown(t: Teller)
    ensures AllKnown(t.said, Apply(t.w, RerunScripts).s.live)
  {
  }

  lemma NoLoad(w: World, op: Op)
    requires w.synced && Enabled(w, op)
    ensures !op.Load?
  {
  }

  lemma Distinct(w: World, max: nat)
    requires WorldInv(w, max)
    ensures DistinctAddrs(w.s.live)
  {
    hide EventInv, GoodLog, Replay;
  }
}
