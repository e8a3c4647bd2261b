// A client that has been ACKed an address is recognised by it afterwards: its next
// lookup finds the lease, so that it can renew.
module DhcpRenewal {
  import opened Optional
  import opened LeaseTable
  import opened LeaseEvents
  import opened DhcpConfig
  import opened DhcpProtocol
  import opened DhcpSafety

  predicate DistinctClids(ls: seq<Lease>) {
    forall i, j :: 0 <= i < j < |ls| && ls[i].clid != [] ==> ls[i].clid != ls[j].clid
  }

  // No lease but the one at "own" has the client-id.
  predicate OnlyOwn(ls: seq<Lease>, own: Option<nat>, clid: seq<nat>) {
    clid != [] ==> forall k :: 0 <= k < |ls| && Some(k) != own ==> ls[k].clid != clid
  }

  lemma {:induction false} KeptClids(ls: seq<Lease>, target: Option<nat>, now: nat)
    requires DistinctClids(ls)
    ensures DistinctClids(Kept(ls, target, now))
  {
    if ls != [] {
      var rest := Kept(ls[1..], target, now);
      KeptClids(ls[1..], target, now);
      KeptIsFilter(ls[1..], target, now);
      forall k | 0 <= k < |rest|
        ensures ls[0].clid != [] ==> rest[k].clid != ls[0].clid
      {
        assert rest[k] in ls[1..];
        var i :| 0 <= i < |ls[1..]| && ls[1..][i] == rest[k];
        assert ls[i + 1] == rest[k];
      }
    }
  }

  // The client-id a client is known by is on no lease but its own.
  lemma StoredIsOwn(set_: Settings, st: Server, p: Packet)
    requires DistinctClids(st.s.live)
    ensures OnlyOwn(st.s.live, LeaseOf(st.s, p), p.clid)
    ensures OnlyOwn(st.s.live, LeaseOf(st.s, p), Identify(set_, st, p).stored)
  {
    hide FirstConfig, ConfigOf, Ignores;
    var i := ByClient(st.s.live, PacketHw(p), p.clid);
  }

  lemma SquashOwn(st: Server, i: nat, now: nat, clid: seq<nat>)
    requires i < |st.s.live| && OnlyOwn(st.s.live, Some(i), clid)
    ensures OnlyOwn(Squash(st, i, now).s.live, None, clid)
  {
    var s' := Squash(st, i, now).s;
    KeptIsFilter(st.s.live, Some(st.s.live[i].addr), now);
    if clid != [] {
      forall k | 0 <= k < |s'.live|
        ensures s'.live[k].clid != clid
      {
        assert s'.live[k] in Kept(st.s.live, Some(st.s.live[i].addr), now);
        var j :| 0 <= j < |st.s.live| && st.s.live[j] == s'.live[k];
        assert j != i;
      }
    }
  }

  lemma ElsewhereClids(a: Leases, b: Leases, i: nat)
    requires Elsewhere(a, b, i)
    ensures |a.live| == |b.live| && i < |a.live|
    ensures forall k :: 0 <= k < |b.live| && k != i ==>
        b.live[k].hw == a.live[k].hw && b.live[k].clid == a.live[k].clid
  {
  }

  // Committing at index i keeps client-ids apart and makes i the client's own, unless it
  // is a new lease that holds neither hardware address nor client-id.
  lemma CommitFound(base: Leases, r: Leases, i: nat, p: Packet, stored: seq<nat>, found: bool)
    requires Elsewhere(base, r, i) && DistinctClids(base.live)
    requires OnlyOwn(base.live, Some(i), p.clid) && OnlyOwn(base.live, Some(i), stored)
    requires r.live[i].hw == PacketHw(p) && r.live[i].clid == ClidAfter(base.live[i].clid, stored, p.room)
    requires found ==> i == ByClient(base.live, PacketHw(p), p.clid)
    requires !found ==> i == 0 && base.live[0].clid == [] && p.room
    requires stored == p.clid || stored == [] ||
        (p.clid == [] && if found then stored == base.live[i].clid else p.hwBytes != [])
    ensures DistinctClids(r.live)
    ensures ByClient(r.live, PacketHw(p), p.clid)
         == if found || p.hwBytes != [] || stored != [] then i else |r.live|
  {
    CommitClids(base, r, i, stored);
    ElsewhereClids(base, r, i);
    hide Elsewhere, DistinctClids;
    var hw := PacketHw(p);
    if r.live[i].clid == p.clid && p.clid != [] {
      assert ByClid(r.live, p.clid) == i;
    } else {
      assert ByClid(r.live, p.clid) == |r.live|;
      if found || p.hwBytes != [] || stored != [] {
        assert HwMatch(r.live[i], hw, p.clid);
        assert ByHw(r.live, hw, p.clid) == i;
      }
    }
  }

  lemma CommitClids(base: Leases, r: Leases, i: nat, stored: seq<nat>)
    requires Elsewhere(base, r, i) && DistinctClids(base.live) && OnlyOwn(base.live, Some(i), stored)
    requires r.live[i].clid in [stored, base.live[i].clid, []]
    ensures DistinctClids(r.live)
  {
    forall a, b | 0 <= a < b < |r.live| && r.live[a].clid != []
      ensures r.live[a].clid != r.live[b].clid
    {
      if a != i && b != i {
        assert r.live[a].clid == base.live[a].clid && r.live[b].clid == base.live[b].clid;
      }
    }
  }

  lemma AllocateClids(s: Leases, a: nat, clid: seq<nat>)
    requires s.left > 0 && DistinctClids(s.live)
    ensures DistinctClids(Allocate(s, a, true).live)
    ensures OnlyOwn(s.live, None, clid) ==> OnlyOwn(Allocate(s, a, true).live, Some(0), clid)
  {
    var r := Allocate(s, a, true).live;
    assert forall k :: 0 < k < |r| ==> r[k] == s.live[k - 1];
  }

  // After the ACK the sender's lookup gives the lease on the address.
  predicate Finds(s: Leases, p: Packet, a: nat) {
    LeaseOf(s, p).Some? && s.live[LeaseOf(s, p).v].addr == a
  }

  // The client has a hardware address or a client-id that goes into its lease, or had
  // the lease on the address already.
  predicate Recognisable(s: Leases, p: Packet, c: Client, a: nat) {
    p.hwBytes != [] || c.stored != [] || (c.lease.Some? && c.lease.v < |s.live| && s.live[c.lease.v].addr == a)
  }

  lemma ConcludeFound(set_: Settings, st: Server, p: Packet, c: Client, lease: Option<nat>, chain: seq<Context>, a: nat,
                      selecting: bool, max: nat)
    requires TableInv(st.s, max) && DistinctClids(st.s.live) && chain != []
    requires (c.config.Some? ==> c.config.v < |st.configs|)
    requires lease.Some? ==> lease == LeaseOf(st.s, p) && st.s.live[lease.v].addr == a
    requires OnlyOwn(st.s.live, lease, c.stored) && OnlyOwn(st.s.live, lease, p.clid)
    requires c.stored == p.clid || c.stored == []
      || (p.clid == [] && if lease.Some? then c.stored == st.s.live[lease.v].clid else p.hwBytes != [])
    ensures var (st', r) := Conclude(set_, st, p, c, lease, chain, a, selecting);
      && DistinctClids(st'.s.live)
      && (r.Ack? ==> (Finds(st'.s, p, a) <==> lease.Some? || p.hwBytes != [] || c.stored != []))
  {
    hide Commit, TableInv, Narrow, CalcTime, Elsewhere, OnlyOwn, DistinctClids, Allocate, ByClient;
    var why := Refusal(st, p, c, lease, chain, a, selecting);
    if why.None? {
      NotLeased(st.s, lease, a);
      var ctx := chain[Narrow(chain, a, c.tags).v];
      var time := CalcTime(ctx, ConfigAt(st, c.config), p.reqTime);
      CommitEffect(set_, st.s, p, c, lease, a, time, ctx, max);
      var base := if lease.Some? then st.s else Allocate(st.s, a, true);
      var i := if lease.Some? then lease.v else 0;
      var r := Commit(set_, st.s, p, c, lease, a, time, ctx);
      if lease.None? {
        AllocateTable(st.s, a, max);
        AllocateClids(st.s, a, c.stored);
        AllocateClids(st.s, a, p.clid);
      }
      CommitClids(base, r, i, c.stored);
      CommitFound(base, r, i, p, c.stored, lease.Some?);
      ElsewhereAddr(base, r, i);
    }
  }

  lemma ElsewhereAddr(a: Leases, b: Leases, i: nat)
    requires Elsewhere(a, b, i)
    ensures |b.live| == |a.live| && i < |b.live| && b.live[i].addr == a.live[i].addr
  {
  }

  lemma StoredShape(set_: Settings, st: Server, p: Packet)
    ensures var c := Identify(set_, st, p);
      && (c.lease.Some? && p.clid == [] ==>
            p.hwBytes != [] && (c.stored == [] || c.stored == st.s.live[c.lease.v].clid))
      && (c.lease.None? || p.clid != [] ==> c.stored == p.clid || c.stored == [])
  {
    hide FirstConfig, ConfigOf, Ignores;
  }

  lemma RequestFound(set_: Settings, st: Server, p: Packet, max: nat)
    requires TableInv(st.s, max) && DistinctClids(st.s.live) && p.chain != [] && p.kind == Request
    ensures
      var c := Identify(set_, st, p);
      var (st', r) := OnRequest(set_, st, p, c);
      && DistinctClids(st'.s.live)
      && (r.Ack? ==> (Finds(st'.s, p, r.addr) <==> Recognisable(st.s, p, c, r.addr)))
  {
    hide Identify, Conclude, Prune, TableInv, FirstLocal, Ciaddr, DistinctClids, OnlyOwn, Finds, LeaseOf;
    var c := Identify(set_, st, p);
    StoredIsOwn(set_, st, p);
    StoredShape(set_, st, p);
    if c.lease.Some? {
      KeptClids(st.s.live, Some(st.s.live[c.lease.v].addr), p.now);
      SquashLive(st, c.lease.v, p.now);
      PruneTable(st.s, Some(st.s.live[c.lease.v].addr), p.now, max);
      SquashOwn(st, c.lease.v, p.now, c.stored);
      SquashOwn(st, c.lease.v, p.now, p.clid);
    }
    if c.ignored {
    } else if p.requested.Some? && p.server.Some? {
      var k := if p.override != 0 then 0 else FirstLocal(p.chain, p.server.v);
      if !((p.override != 0 && p.server.v != p.override) || k == |p.chain|) {
        if c.lease.Some? && st.s.live[c.lease.v].addr != p.requested.v {
          ConcludeFound(set_, Squash(st, c.lease.v, p.now), p, c, None, p.chain[k..], p.requested.v, true, max);
          ConcludeAddr(set_, Squash(st, c.lease.v, p.now), p, c, None, p.chain[k..], p.requested.v, true);
        } else {
          ConcludeFound(set_, st, p, c, c.lease, p.chain[k..], p.requested.v, true, max);
          ConcludeAddr(set_, st, p, c, c.lease, p.chain[k..], p.requested.v, true);
        }
      }
    } else {
      var a := if p.requested.Some? then p.requested.v else Ciaddr(p);
      if !(c.lease.Some? && st.s.live[c.lease.v].addr != a) {
        ConcludeFound(set_, st, p, c, c.lease, p.chain, a, false, max);
        ConcludeAddr(set_, st, p, c, c.lease, p.chain, a, false);
      }
    }
  }

  lemma SquashLive(st: Server, i: nat, now: nat)
    requires i < |st.s.live|
    ensures Squash(st, i, now).s.live == Kept(st.s.live, Some(st.s.live[i].addr), now)
  {
  }

  lemma ConcludeAddr(set_: Settings, st: Server, p: Packet, c: Client, lease: Option<nat>, chain: seq<Context>, a: nat,
                     selecting: bool)
    requires chain != [] && (c.config.Some? ==> c.config.v < |st.configs|) && (lease.Some? ==> lease.v < |st.s.live|)
    ensures var r := Conclude(set_, st, p, c, lease, chain, a, selecting).1; r.Nak? || (r.Ack? && r.addr == a)
  {
    hide Refusal, Commit, Narrow, CalcTime;
  }

  // ---------- the other messages, and runs ----------

  lemma OthersClids(set_: Settings, st: Server, p: Packet, c: Client)
    requires DistinctClids(st.s.live) && ClientOk(st, p, c)
    ensures DistinctClids(OnDecline(st, p, c).0.s.live) && DistinctClids(OnRelease(st, p, c).0.s.live)
    ensures DistinctClids(OnInform(st, p, c).0.s.live)
  {
    hide Narrow, Prune, Ciaddr, DistinctClids, LeaseOf;
    if c.lease.Some? {
      KeptClids(st.s.live, Some(st.s.live[c.lease.v].addr), p.now);
      SquashLive(st, c.lease.v, p.now);
    }
    var i := if c.lease.Some? then c.lease.v else ByAddr(st.s.live, Ciaddr(p));
    if i < |st.s.live| {
      InterfaceClids(st.s, i, p.iface);
    }
  }

  lemma InterfaceClids(s: Leases, i: nat, iface: int)
    requires i < |s.live| && DistinctClids(s.live)
    ensures DistinctClids(SetInterface(s, i, iface).live)
  {
  }

  lemma BootpClids(set_: Settings, st: Server, p: Packet, max: nat)
    requires TableInv(st.s, max) && DistinctClids(st.s.live) && p.chain != [] && p.kind == Bootp
    requires p.choice.Some? ==> !HasAddr(AllocTable(set_, st, p).live, p.choice.v)
    ensures DistinctClids(OnBootp(set_, st, p).0.s.live)
  {
    hide TableInv, BootpChoice, BootpCommit, Narrow, Allocate, AllocTable, HasAddr, Ignores, Elsewhere, DistinctClids;
    var config := FindConfig(st.configs, p.chain, [], PacketHw(p), None);
    var tags := BootpTags(st, p, config);
    BootpChoiceSafe(set_, st, p, config, tags, max);
    BootpChoiceClids(set_, st, p, config, tags);
    var b := BootpChoice(set_, st, p, config, tags);
    if b.NeedsLease? && b.s.left > 0 {
      AllocateTable(b.s, b.addr, max);
      AllocateClids(b.s, b.addr, []);
      BootpCommitEffect(Allocate(b.s, b.addr, true), p, ConfigAt(st, config), 0, max);
      CommitClids(Allocate(b.s, b.addr, true), BootpCommit(Allocate(b.s, b.addr, true), p, ConfigAt(st, config), 0), 0,
          []);
    } else if b.HasLease? {
      BootpCommitEffect(b.s, p, ConfigAt(st, config), b.i, max);
      CommitClids(b.s, BootpCommit(b.s, p, ConfigAt(st, config), b.i), b.i, []);
    }
  }

  lemma BootpChoiceClids(set_: Settings, st: Server, p: Packet, config: Option<nat>, tags: set<string>)
    requires DistinctClids(st.s.live) && (config.Some? ==> config.v < |st.configs|)
    ensures DistinctClids(BootpChoice(set_, st, p, config, tags).s.live)
  {
    hide Available, Prune, DistinctClids;
    var i := ByClient(st.s.live, PacketHw(p), []);
    if i < |st.s.live| {
      KeptClids(st.s.live, Some(st.s.live[i].addr), p.now);
      SquashLive(st, i, p.now);
    }
  }

  // Every packet keeps client-ids apart, and after an ACK the lease is found for the client
  // again, exactly unless it is a new one that stores nothing to know the client by.
  lemma StepFound(set_: Settings, st: Server, p: Packet, max: nat)
    requires TableInv(st.s, max) && DistinctClids(st.s.live) && Legit(set_, st, p)
    ensures var (st', r) := Step(set_, st, p);
      && DistinctClids(st'.s.live)
      && (r.Ack? ==>
            var st0 := Expire(st, p.now);
            (Finds(st'.s, p, r.addr) <==> Recognisable(st0.s, p, Identify(set_, st0, p), r.addr)))
  {
    hide TableInv, OnBootp, OnRequest, OnDecline, OnRelease, OnInform, OnDiscover, Identify, Prune, AllocTable;
    hide Legit, DistinctClids, Finds;
    var st0 := Expire(st, p.now);
    PruneTable(st.s, None, p.now, max);
    KeptClids(st.s.live, None, p.now);
    assert st0.s.live == Kept(st.s.live, None, p.now) by {
      ExpireLive(st, p.now);
    }
    LegitChoice(set_, st, p);
    if !Malformed(p) && p.chain != [] {
      if p.kind == Bootp {
        BootpClids(set_, st0, p, max);
        BootpNoAck(set_, st0, p);
      } else {
        var c := Identify(set_, st0, p);
        OthersClids(set_, st0, p, c);
        NoAck(st0, p, c);
        if p.kind == Request {
          RequestFound(set_, st0, p, max);
        }
      }
    }
  }

  lemma ExpireLive(st: Server, now: nat)
    ensures Expire(st, now).s.live == Kept(st.s.live, None, now)
  {
  }

  lemma {:induction false} EveryRunClids(set_: Settings, st: Server, ps: seq<Packet>, max: nat)
    requires TableInv(st.s, max) && DistinctClids(st.s.live) && LegitRun(set_, st, ps)
    ensures DistinctClids(Run(set_, st, ps).s.live)
    decreases |ps|
  {
    hide TableInv, Step, Legit, DistinctClids;
    if ps != [] {
      StepSafe(set_, st, ps[0], max);
      StepFound(set_, st, ps[0], max);
      EveryRunClids(set_, Step(set_, st, ps[0]).0, ps[1..], max);
    }
  }
}
