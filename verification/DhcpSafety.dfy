// Safety of the lease protocol over all runs: leases keep distinct addresses and the
// pool never leaks, and an address in use by one client is not given to another.
module DhcpSafety {
  import opened Optional
  import opened LeaseTable
  import opened LeaseEvents
  import opened DhcpConfig
  import opened DhcpProtocol

  // ---------- changes that keep the table ----------

  // Nothing but flags, names and the lease at i changes.
  predicate Elsewhere(a: Leases, b: Leases, i: nat) {
    && |a.live| == |b.live| && i < |a.live| && a.left == b.left
    && (forall k :: 0 <= k < |a.live| ==> b.live[k].addr == a.live[k].addr)
    && (forall k :: 0 <= k < |a.live| && k != i ==>
        b.live[k].hw == a.live[k].hw && b.live[k].clid == a.live[k].clid && b.live[k].expires == a.live[k].expires)
  }

  lemma ElsewhereTrans(a: Leases, b: Leases, c: Leases, i: nat)
    requires Elsewhere(a, b, i) && Elsewhere(b, c, i)
    ensures Elsewhere(a, c, i)
  {
  }

  predicate NamesStay(a: Leases, b: Leases) {
    |a.live| == |b.live| && forall k :: 0 <= k < |a.live| ==> b.live[k].hostname == a.live[k].hostname
  }

  lemma NamesStayTable(a: Leases, b: Leases, i: nat, max: nat)
    requires Elsewhere(a, b, i) && NamesStay(a, b) && TableInv(a, max)
    ensures TableInv(b, max)
  {
  }

  lemma HostnameElsewhere(s: Leases, i: nat, name: Option<string>, auth: bool, room: bool, max: nat)
    requires i < |s.live| && TableInv(s, max)
    ensures Elsewhere(s, SetHostname(s, i, name, auth, room), i) && TableInv(SetHostname(s, i, name, auth, room), max)
    ensures var m := SetHostname(s, i, name, auth, room).live[i];
        m.hw == s.live[i].hw && m.clid == s.live[i].clid && m.expires == s.live[i].expires
  {
    hide TableInv, Refused, SameName;
    SetHostnameTable(s, i, name, auth, room, max);
  }

  lemma HwaddrElsewhere(s: Leases, i: nat, hw: Hw, clid: seq<nat>, room: bool)
    requires i < |s.live|
    ensures Elsewhere(s, SetHwaddr(s, i, hw, clid, room), i) && NamesStay(s, SetHwaddr(s, i, hw, clid, room))
    ensures SetHwaddr(s, i, hw, clid, room).live[i].hw == hw
    ensures SetHwaddr(s, i, hw, clid, room).live[i].clid == ClidAfter(s.live[i].clid, clid, room)
  {
  }

  // The client-id of a lease that is given another one.
  function ClidAfter(old_: seq<nat>, clid: seq<nat>, room: bool): (r: seq<nat>)
    ensures r in [clid, old_, []]
  {
    if clid == [] || clid == old_ then old_ else if |clid| != |old_| && !room then [] else clid
  }

  // Setting the end and the interface comes last.
  lemma FinishElsewhere(s: Leases, i: nat, time: nat, now: nat, iface: int)
    requires i < |s.live|
    ensures |SetExpires(s, i, time, now).live| == |s.live|
    ensures var r := SetInterface(SetExpires(s, i, time, now), i, iface);
      && Elsewhere(s, r, i) && NamesStay(s, r)
      && r.live[i].hw == s.live[i].hw && r.live[i].clid == s.live[i].clid
      && r.live[i].expires == (if time == FOREVER then 0 else now + time) && r.live[i].lastInterface == iface
  {
  }

  lemma AllocateTable(s: Leases, a: nat, max: nat)
    requires TableInv(s, max) && !HasAddr(s.live, a) && s.left > 0
    ensures TableInv(Allocate(s, a, true), max)
    ensures |Allocate(s, a, true).live| == |s.live| + 1 && Allocate(s, a, true).live[1..] == s.live
    ensures Allocate(s, a, true).live[0] == NewLease(a)
  {
    var s' := Allocate(s, a, true);
    assert forall i :: 0 < i < |s'.live| ==> s'.live[i] == s.live[i - 1];
  }

  function LeaseEnd(time: nat, now: nat): nat {
    if time == FOREVER then 0 else now + time
  }

  // ---------- committing a lease ----------

  lemma CommitEffect(set_: Settings, s: Leases, p: Packet, c: Client, lease: Option<nat>, a: nat, time: nat,
                     ctx: Context, max: nat)
    requires TableInv(s, max) && (lease.Some? ==> lease.v < |s.live|)
    requires lease.None? ==> s.left > 0 && !HasAddr(s.live, a)
    ensures var r := Commit(set_, s, p, c, lease, a, time, ctx);
      var base := if lease.Some? then s else Allocate(s, a, true);
      var i := if lease.Some? then lease.v else 0;
      && TableInv(r, max) && Elsewhere(base, r, i)
      && r.live[i].hw == PacketHw(p) && r.live[i].expires == LeaseEnd(time, p.now)
      && r.live[i].lastInterface == p.iface
      && r.live[i].clid == ClidAfter(base.live[i].clid, c.stored, p.room)
  {
    hide SetHwaddr, SetHostname, SetExpires, SetInterface, Elsewhere, TableInv, HasAddr, NamesIgnored, NamesStay;
    hide Allocate;
    if lease.None? {
      AllocateTable(s, a, max);
    }
    var base := if lease.Some? then s else Allocate(s, a, true);
    var i := if lease.Some? then lease.v else 0;
    var s2 := SetChanged(base, i, p.requested.Some? || lease.None?);
    ChangedElsewhere(base, i, p.requested.Some? || lease.None?, max);
    var auth := c.auth || p.dnsName.Some?;
    var tags := c.tags + (if ctx.netid.Some? then {ctx.netid.v} else {});
    HwaddrElsewhere(s2, i, PacketHw(p), c.stored, p.room);
    var s3 := SetHwaddr(s2, i, PacketHw(p), c.stored, p.room);
    NamesStayTable(s2, s3, i, max);
    ElsewhereTrans(base, s2, s3, i);
    ElsewhereIn(base, s3, i);
    var name := if !c.auth && p.dnsName.Some? then p.dnsName
                else if !auth && NamesIgnored(set_, tags) then None else c.name;
    var s4 := if name.Some? then SetHostname(s3, i, name, auth, p.room) else s3;
    if name.Some? {
      HostnameElsewhere(s3, i, name, auth, p.room, max);
      ElsewhereTrans(base, s3, s4, i);
    }
    ElsewhereIn(base, s4, i);
    FinishElsewhere(s4, i, time, p.now, p.iface);
    var r := SetInterface(SetExpires(s4, i, time, p.now), i, p.iface);
    NamesStayTable(s4, r, i, max);
    ElsewhereTrans(base, s4, r, i);
    ElsewhereIn(base, r, i);
    assert Commit(set_, s, p, c, lease, a, time, ctx) == r;
  }

  lemma ElsewhereIn(a: Leases, b: Leases, i: nat)
    requires Elsewhere(a, b, i)
    ensures |a.live| == |b.live| && i < |b.live|
  {
  }

  lemma ChangedElsewhere(s: Leases, i: nat, really: bool, max: nat)
    requires i < |s.live| && TableInv(s, max)
    ensures Elsewhere(s, SetChanged(s, i, really), i) && TableInv(SetChanged(s, i, really), max)
    ensures SetChanged(s, i, really).live[i] == s.live[i].(changed := s.live[i].changed || really)
  {
    NamesStayTable(s, SetChanged(s, i, really), i, max);
  }

  // ---------- leases that stay ----------

  // Some lease still binds the address to the same client, for the same time.
  predicate Binds(s: Leases, l: Lease) {
    exists i :: 0 <= i < |s.live| && SameBinding(s.live[i], l)
  }

  predicate SameBinding(m: Lease, l: Lease) {
    m.addr == l.addr && m.hw == l.hw && m.clid == l.clid && m.expires == l.expires
  }

  lemma ElsewhereBinds(a: Leases, b: Leases, i: nat, l: Lease)
    requires Elsewhere(a, b, i) && Binds(a, l) && a.live[i].addr != l.addr
    ensures Binds(b, l)
  {
    var k :| 0 <= k < |a.live| && SameBinding(a.live[k], l);
    assert SameBinding(b.live[k], l);
  }

  lemma PruneBinds(s: Leases, target: Option<nat>, now: nat, l: Lease)
    requires Binds(s, l) && !Expired(l, now) && target != Some(l.addr)
    ensures Binds(Prune(s, target, now), l)
  {
    var k :| 0 <= k < |s.live| && SameBinding(s.live[k], l);
    KeptIsFilter(s.live, target, now);
    assert s.live[k] in Kept(s.live, target, now);
    var j :| 0 <= j < |Prune(s, target, now).live| && Prune(s, target, now).live[j] == s.live[k];
    assert SameBinding(Prune(s, target, now).live[j], l);
  }

  lemma AllocateBinds(s: Leases, a: nat, l: Lease)
    requires Binds(s, l) && s.left > 0
    ensures Binds(Allocate(s, a, true), l)
  {
    var k :| 0 <= k < |s.live| && SameBinding(s.live[k], l);
    assert SameBinding(Allocate(s, a, true).live[k + 1], l);
  }

  lemma BindsAddr(s: Leases, l: Lease)
    requires Binds(s, l)
    ensures HasAddr(s.live, l.addr)
  {
    var k :| 0 <= k < |s.live| && SameBinding(s.live[k], l);
  }

  // Pruning only takes leases away.
  lemma PruneAddr(s: Leases, target: Option<nat>, now: nat, a: nat)
    ensures HasAddr(Prune(s, target, now).live, a) ==> HasAddr(s.live, a)
    ensures target == Some(a) ==> !HasAddr(Prune(s, target, now).live, a)
  {
    KeptIsFilter(s.live, target, now);
    HasAddrMembers(s.live, a);
    HasAddrMembers(Prune(s, target, now).live, a);
  }

  // The client-id that dhcp_reply looks leases up with.
  function LookupClid(p: Packet): seq<nat> {
    if p.kind == Bootp then [] else p.clid
  }

  // The lease could be taken for one of the client's own.
  predicate Matches(l: Lease, p: Packet) {
    ClidMatch(l, LookupClid(p)) || HwMatch(l, PacketHw(p), LookupClid(p))
  }

  // Where the client's own lease is, nobody else's binding is.
  lemma OwnIsNotTheirs(s: Leases, p: Packet, i: nat, l: Lease, max: nat)
    requires TableInv(s, max) && Binds(s, l) && !Matches(l, p) && i < |s.live| && Matches(s.live[i], p)
    ensures s.live[i].addr != l.addr
  {
    var k :| 0 <= k < |s.live| && SameBinding(s.live[k], l);
    assert k != i;
    assert i < k || k < i;
  }

  // An address is given only where it is free or the client's own.
  lemma NotLeased(s: Leases, lease: Option<nat>, a: nat)
    requires !LeasedToOther(s, lease, a)
    ensures HasAddr(s.live, a) ==> lease == Some(ByAddr(s.live, a)) && ByAddr(s.live, a) < |s.live|
  {
  }

  // ---------- REQUEST ----------

  lemma ConcludeSafe(set_: Settings, st: Server, p: Packet, c: Client, lease: Option<nat>, chain: seq<Context>, a: nat,
                     selecting: bool, max: nat)
    requires TableInv(st.s, max) && chain != [] && (c.config.Some? ==> c.config.v < |st.configs|)
    requires lease.Some? ==> lease.v < |st.s.live| && st.s.live[lease.v].addr == a
    ensures TableInv(Conclude(set_, st, p, c, lease, chain, a, selecting).0.s, max)
    ensures var (st', r) := Conclude(set_, st, p, c, lease, chain, a, selecting);
      r.Ack? ==>
        && r.addr == a
        && (HasAddr(st.s.live, a) ==> lease.Some?)
        && exists i :: 0 <= i < |st'.s.live| && st'.s.live[i].addr == a && st'.s.live[i].hw == PacketHw(p)
                       && st'.s.live[i].expires == LeaseEnd(r.time, p.now) && st'.s.live[i].lastInterface == p.iface
                       && (p.room && c.stored != [] ==> st'.s.live[i].clid == c.stored)
  {
    hide Commit, TableInv, Narrow, CalcTime;
    var why := Refusal(st, p, c, lease, chain, a, selecting);
    if why.None? {
      NotLeased(st.s, lease, a);
      var ctx := chain[Narrow(chain, a, c.tags).v];
      var time := CalcTime(ctx, ConfigAt(st, c.config), p.reqTime);
      CommitEffect(set_, st.s, p, c, lease, a, time, ctx, max);
      var r := Commit(set_, st.s, p, c, lease, a, time, ctx);
      var i := if lease.Some? then lease.v else 0;
      assert r.live[i].addr == a;
    }
  }

  lemma ConcludeBinds(set_: Settings, st: Server, p: Packet, c: Client, lease: Option<nat>, chain: seq<Context>, a: nat,
                      selecting: bool, l: Lease, max: nat)
    requires TableInv(st.s, max) && chain != [] && (c.config.Some? ==> c.config.v < |st.configs|)
    requires lease.Some? ==> lease.v < |st.s.live| && st.s.live[lease.v].addr == a && Matches(st.s.live[lease.v], p)
    requires Binds(st.s, l) && !Matches(l, p)
    ensures Binds(Conclude(set_, st, p, c, lease, chain, a, selecting).0.s, l)
    ensures var r := Conclude(set_, st, p, c, lease, chain, a, selecting).1; r.Ack? ==> r.addr == a && a != l.addr
  {
    hide Commit, TableInv, Narrow, CalcTime, Matches, Binds;
    var why := Refusal(st, p, c, lease, chain, a, selecting);
    if why.None? {
      NotLeased(st.s, lease, a);
      BindsAddr(st.s, l);
      if lease.Some? {
        OwnIsNotTheirs(st.s, p, lease.v, l, max);
      } else {
        AllocateBinds(st.s, a, l);
      }
      var ctx := chain[Narrow(chain, a, c.tags).v];
      var time := CalcTime(ctx, ConfigAt(st, c.config), p.reqTime);
      CommitEffect(set_, st.s, p, c, lease, a, time, ctx, max);
      ElsewhereBinds(if lease.Some? then st.s else Allocate(st.s, a, true), Commit(set_, st.s, p, c, lease, a, time,
          ctx), if lease.Some? then lease.v else 0, l);
    }
  }

  predicate Current(s: Leases, now: nat) {
    forall i :: 0 <= i < |s.live| ==> !Expired(s.live[i], now)
  }

  lemma ExpireCurrent(st: Server, now: nat)
    ensures Current(Expire(st, now).s, now)
  {
    KeptIsFilter(st.s.live, None, now);
    assert forall i :: 0 <= i < |Expire(st, now).s.live| ==> Expire(st, now).s.live[i] in Kept(st.s.live, None, now);
  }

  lemma SquashKeepsOthers(st: Server, i: nat, now: nat, a: nat)
    requires i < |st.s.live| && Current(st.s, now) && st.s.live[i].addr != a && HasAddr(st.s.live, a)
    ensures HasAddr(Squash(st, i, now).s.live, a)
  {
    var k :| 0 <= k < |st.s.live| && st.s.live[k].addr == a;
    KeptIsFilter(st.s.live, Some(st.s.live[i].addr), now);
    assert st.s.live[k] in Kept(st.s.live, Some(st.s.live[i].addr), now);
    HasAddrMembers(Squash(st, i, now).s.live, a);
  }

  // Some lease binds the address to the client of the packet, on the interface it came from,
  // until the end of the time.
  predicate BoundTo(s: Leases, p: Packet, c: Client, a: nat, time: nat) {
    exists i :: 0 <= i < |s.live| && s.live[i].addr == a && s.live[i].hw == PacketHw(p)
                && s.live[i].expires == LeaseEnd(time, p.now) && s.live[i].lastInterface == p.iface
                && (p.room && c.stored != [] ==> s.live[i].clid == c.stored)
  }

  // A lease that is there already is the client's own.
  predicate OwnOrFree(s: Leases, c: Client, a: nat) {
    HasAddr(s.live, a) ==> c.lease.Some? && c.lease.v < |s.live| && s.live[c.lease.v].addr == a
  }

  predicate ClientOk(st: Server, p: Packet, c: Client) {
    && p.chain != [] && (c.config.Some? ==> c.config.v < |st.configs|)
    && c.lease == LeaseOf(st.s, p)
  }

  lemma RequestSafe(set_: Settings, st: Server, p: Packet, c: Client, max: nat)
    requires TableInv(st.s, max) && Current(st.s, p.now) && ClientOk(st, p, c)
    ensures var (st', r) := OnRequest(set_, st, p, c);
      && TableInv(st'.s, max)
      && (r.Ack? ==> OwnOrFree(st.s, c, r.addr) && BoundTo(st'.s, p, c, r.addr, r.time))
  {
    hide Conclude, Prune, TableInv, HasAddr, FirstLocal, Ciaddr;
    if c.ignored {
    } else if p.requested.Some? && p.server.Some? {
      SelectingSafe(set_, st, p, c, max);
    } else if p.requested.Some? {
      if c.lease.Some? && st.s.live[c.lease.v].addr != p.requested.v {
        PruneTable(st.s, Some(st.s.live[c.lease.v].addr), p.now, max);
      } else {
        ConcludeSafe(set_, st, p, c, c.lease, p.chain, p.requested.v, false, max);
      }
    } else if !(c.lease.Some? && Ciaddr(p) != st.s.live[c.lease.v].addr) {
      ConcludeSafe(set_, st, p, c, c.lease, p.chain, Ciaddr(p), false, max);
    }
  }

  lemma SelectingSafe(set_: Settings, st: Server, p: Packet, c: Client, max: nat)
    requires TableInv(st.s, max) && Current(st.s, p.now) && ClientOk(st, p, c)
    requires p.requested.Some? && p.server.Some?
    ensures var (st', r) := Selecting(set_, st, p, c);
      && TableInv(st'.s, max)
      && (r.Ack? ==> OwnOrFree(st.s, c, r.addr) && BoundTo(st'.s, p, c, r.addr, r.time))
  {
    hide Conclude, Prune, TableInv, HasAddr, FirstLocal;
    var k := if p.override != 0 then 0 else FirstLocal(p.chain, p.server.v);
    if !((p.override != 0 && p.server.v != p.override) || k == |p.chain|) {
      if c.lease.Some? && st.s.live[c.lease.v].addr != p.requested.v {
        PruneTable(st.s, Some(st.s.live[c.lease.v].addr), p.now, max);
        ConcludeSafe(set_, Squash(st, c.lease.v, p.now), p, c, None, p.chain[k..], p.requested.v, true, max);
        if HasAddr(st.s.live, p.requested.v) {
          SquashKeepsOthers(st, c.lease.v, p.now, p.requested.v);
        }
      } else {
        ConcludeSafe(set_, st, p, c, c.lease, p.chain[k..], p.requested.v, true, max);
      }
    }
  }

  // A lease the client cannot be taken to own survives its REQUEST and is not ACKed.
  lemma RequestBinds(set_: Settings, st: Server, p: Packet, c: Client, l: Lease, max: nat)
    requires TableInv(st.s, max) && ClientOk(st, p, c) && p.kind == Request
    requires Binds(st.s, l) && !Matches(l, p) && !Expired(l, p.now)
    ensures var (st', r) := OnRequest(set_, st, p, c);
      Binds(st'.s, l) && (r.Ack? ==> r.addr != l.addr)
  {
    hide Conclude, Prune, TableInv, HasAddr, FirstLocal, Ciaddr, Binds, Matches;
    if c.lease.Some? {
      assert Matches(st.s.live[c.lease.v], p) by {
        LookupMatches(st.s, p);
      }
      OwnIsNotTheirs(st.s, p, c.lease.v, l, max);
    }
    if c.ignored {
    } else if p.requested.Some? && p.server.Some? {
      var k := if p.override != 0 then 0 else FirstLocal(p.chain, p.server.v);
      if !((p.override != 0 && p.server.v != p.override) || k == |p.chain|) {
        if c.lease.Some? && st.s.live[c.lease.v].addr != p.requested.v {
          PruneBinds(st.s, Some(st.s.live[c.lease.v].addr), p.now, l);
          PruneTable(st.s, Some(st.s.live[c.lease.v].addr), p.now, max);
          ConcludeBinds(set_, Squash(st, c.lease.v, p.now), p, c, None, p.chain[k..], p.requested.v, true, l, max);
        } else {
          ConcludeBinds(set_, st, p, c, c.lease, p.chain[k..], p.requested.v, true, l, max);
        }
      }
    } else if p.requested.Some? {
      if c.lease.Some? && st.s.live[c.lease.v].addr != p.requested.v {
        PruneBinds(st.s, Some(st.s.live[c.lease.v].addr), p.now, l);
      } else {
        ConcludeBinds(set_, st, p, c, c.lease, p.chain, p.requested.v, false, l, max);
      }
    } else if !(c.lease.Some? && Ciaddr(p) != st.s.live[c.lease.v].addr) {
      ConcludeBinds(set_, st, p, c, c.lease, p.chain, Ciaddr(p), false, l, max);
    }
  }

  lemma LookupMatches(s: Leases, p: Packet)
    requires p.kind != Bootp && LeaseOf(s, p).Some?
    ensures Matches(s.live[LeaseOf(s, p).v], p)
  {
  }

  // ---------- BOOTP ----------

  predicate BootpOk(b: BootpLease, max: nat) {
    TableInv(b.s, max) && (b.NeedsLease? ==> !HasAddr(b.s.live, b.addr)) && (b.HasLease? ==>
        b.i < |b.s.live| && b.s.live[b.i].addr == b.addr)
  }

  lemma BootpChoiceSafe(set_: Settings, st: Server, p: Packet, config: Option<nat>, tags: set<string>, max: nat)
    requires TableInv(st.s, max) && (config.Some? ==> config.v < |st.configs|) && p.kind == Bootp
    requires p.choice.Some? ==> !HasAddr(AllocTable(set_, st, p).live, p.choice.v)
    ensures BootpOk(BootpChoice(set_, st, p, config, tags), max)
  {
    hide TableInv, Available, Prune, HasAddr;
    if config.Some? && st.configs[config.v].addr.Some? {
      ByAddrNone(st.s, st.configs[config.v].addr.v);
    } else {
      var i := ByClient(st.s.live, PacketHw(p), []);
      if i < |st.s.live| {
        PruneTable(st.s, Some(st.s.live[i].addr), p.now, max);
      }
    }
  }

  lemma ByAddrNone(s: Leases, a: nat)
    ensures ByAddr(s.live, a) == |s.live| <==> !HasAddr(s.live, a)
  {
  }

  lemma BootpCommitEffect(s: Leases, p: Packet, config: Option<Config>, i: nat, max: nat)
    requires i < |s.live| && TableInv(s, max)
    ensures TableInv(BootpCommit(s, p, config, i), max) && Elsewhere(s, BootpCommit(s, p, config, i), i)
    ensures BootpCommit(s, p, config, i).live[i].hw == PacketHw(p)
    ensures BootpCommit(s, p, config, i).live[i].clid == s.live[i].clid
    ensures BootpCommit(s, p, config, i).live[i].expires
         == LeaseEnd(if config.Some? && config.v.leaseTime.Some? then config.v.leaseTime.v else FOREVER, p.now)
    ensures BootpCommit(s, p, config, i).live[i].lastInterface == p.iface
  {
    hide SetHwaddr, SetHostname, SetExpires, SetInterface, Elsewhere, TableInv, NamesStay;
    HwaddrElsewhere(s, i, PacketHw(p), [], p.room);
    var s1 := SetHwaddr(s, i, PacketHw(p), [], p.room);
    NamesStayTable(s, s1, i, max);
    ElsewhereIn(s, s1, i);
    var s2 := if config.Some? && config.v.name.Some? then SetHostname(s1, i, config.v.name, true, p.room) else s1;
    if config.Some? && config.v.name.Some? {
      HostnameElsewhere(s1, i, config.v.name, true, p.room, max);
      ElsewhereTrans(s, s1, s2, i);
    }
    ElsewhereIn(s, s2, i);
    var time := if config.Some? && config.v.leaseTime.Some? then config.v.leaseTime.v else FOREVER;
    FinishElsewhere(s2, i, time, p.now, p.iface);
    var r := SetInterface(SetExpires(s2, i, time, p.now), i, p.iface);
    NamesStayTable(s2, r, i, max);
    ElsewhereTrans(s, s2, r, i);
    ElsewhereIn(s, r, i);
  }

  lemma BootpSafe(set_: Settings, st: Server, p: Packet, max: nat)
    requires TableInv(st.s, max) && p.chain != [] && p.kind == Bootp
    requires p.choice.Some? ==> !HasAddr(AllocTable(set_, st, p).live, p.choice.v)
    ensures TableInv(OnBootp(set_, st, p).0.s, max)
  {
    hide TableInv, BootpChoice, BootpCommit, Narrow, Allocate, AllocTable, HasAddr, Ignores;
    var config := FindConfig(st.configs, p.chain, [], PacketHw(p), None);
    var tags := BootpTags(st, p, config);
    BootpChoiceSafe(set_, st, p, config, tags, max);
    var b := BootpChoice(set_, st, p, config, tags);
    if b.NeedsLease? && b.s.left > 0 {
      AllocateTable(b.s, b.addr, max);
      BootpCommitEffect(Allocate(b.s, b.addr, true), p, ConfigAt(st, config), 0, max);
    } else if b.HasLease? {
      BootpCommitEffect(b.s, p, ConfigAt(st, config), b.i, max);
    }
  }

  // A stranger's choice never is the leased address, and its own lease is elsewhere.
  lemma BootpChoiceBinds(set_: Settings, st: Server, p: Packet, config: Option<nat>, tags: set<string>, l: Lease,
                         max: nat)
    requires TableInv(st.s, max) && (config.Some? ==> config.v < |st.configs|) && p.kind == Bootp && p.hwBytes != []
    requires Binds(st.s, l) && !Matches(l, p) && !Expired(l, p.now)
    ensures var b := BootpChoice(set_, st, p, config, tags);
      Binds(b.s, l) && (b.HasLease? ==> b.s.live[b.i].addr != l.addr)
  {
    hide TableInv, Available, Prune, HasAddr, Binds;
    if config.Some? && st.configs[config.v].addr.Some? {
      var i := ByAddr(st.s.live, st.configs[config.v].addr.v);
      if i < |st.s.live| && st.s.live[i].hw == PacketHw(p) {
        OwnIsNotTheirs(st.s, p, i, l, max);
      }
    } else {
      var i := ByClient(st.s.live, PacketHw(p), []);
      if i < |st.s.live| {
        OwnIsNotTheirs(st.s, p, i, l, max);
        PruneBinds(st.s, Some(st.s.live[i].addr), p.now, l);
      }
    }
  }

  lemma BootpBinds(set_: Settings, st: Server, p: Packet, l: Lease, max: nat)
    requires TableInv(st.s, max) && p.chain != [] && p.kind == Bootp
    requires p.choice.Some? ==> !HasAddr(AllocTable(set_, st, p).live, p.choice.v)
    requires Binds(st.s, l) && !Matches(l, p) && !Expired(l, p.now)
    ensures var (st', r) := OnBootp(set_, st, p);
      Binds(st'.s, l) && (r.BootpReply? ==> r.addr != l.addr)
  {
    hide TableInv, BootpChoice, BootpCommit, Narrow, Allocate, AllocTable, HasAddr, Ignores, Matches, Binds, Elsewhere;
    if p.hwBytes != [] {
      var config := FindConfig(st.configs, p.chain, [], PacketHw(p), None);
      var tags := BootpTags(st, p, config);
      BootpChoiceSafe(set_, st, p, config, tags, max);
      BootpChoiceBinds(set_, st, p, config, tags, l, max);
      var b := BootpChoice(set_, st, p, config, tags);
      BindsAddr(b.s, l);
      if b.NeedsLease? && b.s.left > 0 {
        AllocateTable(b.s, b.addr, max);
        AllocateBinds(b.s, b.addr, l);
        BootpCommitEffect(Allocate(b.s, b.addr, true), p, ConfigAt(st, config), 0, max);
        ElsewhereBinds(Allocate(b.s, b.addr, true), BootpCommit(Allocate(b.s, b.addr, true), p, ConfigAt(st, config),
            0), 0, l);
      } else if b.HasLease? {
        BootpCommitEffect(b.s, p, ConfigAt(st, config), b.i, max);
        ElsewhereBinds(b.s, BootpCommit(b.s, p, ConfigAt(st, config), b.i), b.i, l);
      }
    }
  }

  // ---------- the other messages ----------

  lemma OthersSafe(set_: Settings, st: Server, p: Packet, c: Client, max: nat)
    requires TableInv(st.s, max) && ClientOk(st, p, c)
    ensures TableInv(OnDecline(st, p, c).0.s, max) && TableInv(OnRelease(st, p, c).0.s, max)
    ensures TableInv(OnInform(st, p, c).0.s, max)
  {
    hide TableInv, Narrow, Prune, Ciaddr;
    if c.lease.Some? {
      PruneTable(st.s, Some(st.s.live[c.lease.v].addr), p.now, max);
    }
    var i := if c.lease.Some? then c.lease.v else ByAddr(st.s.live, Ciaddr(p));
    if i < |st.s.live| {
      InterfaceSafe(st.s, i, p.iface, max);
    }
  }

  lemma InterfaceSafe(s: Leases, i: nat, iface: int, max: nat)
    requires i < |s.live| && TableInv(s, max)
    ensures TableInv(SetInterface(s, i, iface), max)
    ensures forall l :: Binds(s, l) ==> Binds(SetInterface(s, i, iface), l)
  {
    var r := SetInterface(s, i, iface);
    NamesStayTable(s, r, i, max);
    forall l | Binds(s, l)
      ensures Binds(r, l)
    {
      var k :| 0 <= k < |s.live| && SameBinding(s.live[k], l);
      assert SameBinding(r.live[k], l);
    }
  }

  lemma OthersBind(set_: Settings, st: Server, p: Packet, c: Client, l: Lease, max: nat)
    requires TableInv(st.s, max) && ClientOk(st, p, c) && p.kind != Bootp
    requires Binds(st.s, l) && !Matches(l, p) && !Expired(l, p.now)
    ensures Binds(OnDecline(st, p, c).0.s, l) && Binds(OnRelease(st, p, c).0.s, l) && Binds(OnInform(st, p, c).0.s, l)
  {
    hide TableInv, Narrow, Prune, Ciaddr, Binds, Matches;
    if c.lease.Some? {
      LookupMatches(st.s, p);
      OwnIsNotTheirs(st.s, p, c.lease.v, l, max);
      PruneBinds(st.s, Some(st.s.live[c.lease.v].addr), p.now, l);
    }
    var i := if c.lease.Some? then c.lease.v else ByAddr(st.s.live, Ciaddr(p));
    if i < |st.s.live| {
      InterfaceSafe(st.s, i, p.iface, max);
    }
  }

  // An offer to a stranger is never the leased address.
  lemma DiscoverSafe(set_: Settings, st: Server, p: Packet, c: Client, l: Lease, max: nat)
    requires TableInv(st.s, max) && ClientOk(st, p, c) && p.kind == Discover
    requires p.choice.Some? ==> !HasAddr(st.s.live, p.choice.v)
    requires Binds(st.s, l) && !Matches(l, p)
    ensures OnDiscover(st, p, c).Offer? ==> OnDiscover(st, p, c).addr != l.addr
  {
    hide TableInv, Narrow, CalcTime, Matches, Binds, Available, HasAddr;
    BindsAddr(st.s, l);
    if c.lease.Some? {
      LookupMatches(st.s, p);
      OwnIsNotTheirs(st.s, p, c.lease.v, l, max);
    }
    ByAddrNone(st.s, l.addr);
  }

  // ---------- steps and runs ----------

  lemma LegitChoice(set_: Settings, st: Server, p: Packet)
    requires Legit(set_, st, p)
    ensures p.choice.Some? ==> !HasAddr(AllocTable(set_, Expire(st, p.now), p).live, p.choice.v)
  {
  }

  // The safety of one packet: the table stays sound, and an address is ACKed only where
  // no other client's live lease is; then the table binds it to the client.
  lemma StepSafe(set_: Settings, st: Server, p: Packet, max: nat)
    requires TableInv(st.s, max) && Legit(set_, st, p)
    ensures var (st', r) := Step(set_, st, p);
      && TableInv(st'.s, max)
      && (r.Ack? ==>
            var st0 := Expire(st, p.now);
            var c := Identify(set_, st0, p);
            OwnOrFree(st0.s, c, r.addr) && BoundTo(st'.s, p, c, r.addr, r.time))
  {
    hide TableInv, OnBootp, OnRequest, OnDecline, OnRelease, OnInform, OnDiscover, Identify, Prune, AllocTable, Legit;
    var st0 := Expire(st, p.now);
    PruneTable(st.s, None, p.now, max);
    ExpireCurrent(st, p.now);
    LegitChoice(set_, st, p);
    if !Malformed(p) && p.chain != [] {
      if p.kind == Bootp {
        BootpSafe(set_, st0, p, max);
        BootpNoAck(set_, st0, p);
      } else {
        var c := Identify(set_, st0, p);
        RequestSafe(set_, st0, p, c, max);
        OthersSafe(set_, st0, p, c, max);
        NoAck(st0, p, c);
      }
    }
  }

  lemma BootpNoAck(set_: Settings, st: Server, p: Packet)
    requires p.chain != []
    ensures var r := OnBootp(set_, st, p).1; r.BootpReply? || r.Silent?
  {
    hide BootpChoice, BootpCommit, Narrow, Allocate, Ignores, FindConfig;
  }

  lemma NoAck(st: Server, p: Packet, c: Client)
    requires ClientOk(st, p, c)
    ensures !OnDecline(st, p, c).1.Ack? && !OnRelease(st, p, c).1.Ack? && !OnInform(st, p, c).1.Ack?
    ensures !OnDiscover(st, p, c).Ack?
  {
    hide Narrow, Prune, CalcTime;
  }

  // The address a reply lets the client use.
  function Granted(r: Reply): Option<nat> {
    match r
    case Offer(a, _, _) => Some(a)
    case Ack(a, _) => Some(a)
    case BootpReply(a) => Some(a)
    case _ => None
  }

  lemma StepBinds(set_: Settings, st: Server, p: Packet, l: Lease, max: nat)
    requires TableInv(st.s, max) && Legit(set_, st, p)
    requires Binds(st.s, l) && !Matches(l, p) && !Expired(l, p.now)
    ensures var (st', r) := Step(set_, st, p);
      Binds(st'.s, l) && Granted(r) != Some(l.addr)
  {
    hide TableInv, OnBootp, OnRequest, OnDecline, OnRelease, OnInform, OnDiscover, Identify, Prune, AllocTable;
    hide Legit, Binds, Matches;
    var st0 := Expire(st, p.now);
    PruneTable(st.s, None, p.now, max);
    PruneBinds(st.s, None, p.now, l);
    LegitChoice(set_, st, p);
    if !Malformed(p) && p.chain != [] {
      if p.kind == Bootp {
        BootpBinds(set_, st0, p, l, max);
        BootpNoAck(set_, st0, p);
      } else {
        var c := Identify(set_, st0, p);
        OthersBind(set_, st0, p, c, l, max);
        GrantedKinds(set_, st0, p, c);
        if p.kind == Request {
          RequestBinds(set_, st0, p, c, l, max);
        } else if p.kind == Discover {
          assert AllocTable(set_, st0, p) == st0.s by {
            AllocTableDhcp(set_, st0, p);
          }
          DiscoverSafe(set_, st0, p, c, l, max);
        }
      }
    }
  }

  lemma AllocTableDhcp(set_: Settings, st: Server, p: Packet)
    requires p.kind != Bootp
    ensures AllocTable(set_, st, p) == st.s
  {
  }

  lemma GrantedKinds(set_: Settings, st: Server, p: Packet, c: Client)
    requires ClientOk(st, p, c)
    ensures Granted(OnDecline(st, p, c).1) == None && Granted(OnRelease(st, p, c).1) == None
    ensures Granted(OnInform(st, p, c).1) == None
    ensures OnDiscover(st, p, c).Offer? || OnDiscover(st, p, c).Silent?
    ensures var r := OnRequest(set_, st, p, c).1; r.Ack? || r.Nak? || r.Silent?
  {
    hide Narrow, Prune, CalcTime, Refusal, Commit, FirstLocal;
  }

  function Run(set_: Settings, st: Server, ps: seq<Packet>): Server
    decreases |ps|
  {
    if ps == [] then st else Run(set_, Step(set_, st, ps[0]).0, ps[1..])
  }

  predicate LegitRun(set_: Settings, st: Server, ps: seq<Packet>)
    decreases |ps|
  {
    ps == [] || (Legit(set_, st, ps[0]) && LegitRun(set_, Step(set_, st, ps[0]).0, ps[1..]))
  }

  // Over any run of packets leases keep distinct addresses and distinct names, and free
  // slots and leases add up to dhcp_max.
  lemma {:induction false} EveryRunSafe(set_: Settings, st: Server, ps: seq<Packet>, max: nat)
    requires TableInv(st.s, max) && LegitRun(set_, st, ps)
    ensures TableInv(Run(set_, st, ps).s, max)
    decreases |ps|
  {
    hide TableInv, Step, Legit;
    if ps != [] {
      StepSafe(set_, st, ps[0], max);
      EveryRunSafe(set_, Step(set_, st, ps[0]).0, ps[1..], max);
    }
  }

  // No reply of the run grants the address.
  predicate NeverGranted(set_: Settings, st: Server, ps: seq<Packet>, a: nat)
    decreases |ps|
  {
    ps == [] || (Granted(Step(set_, st, ps[0]).1) != Some(a) && NeverGranted(set_, Step(set_, st, ps[0]).0, ps[1..], a))
  }

  // While a lease runs, whatever packets clients send that it cannot be taken to belong
  // to: the lease stays, and its address is never offered, ACKed or given to a BOOTP
  // client.
  lemma {:induction false} LeaseIsExclusive(set_: Settings, st: Server, ps: seq<Packet>, l: Lease, max: nat)
    requires TableInv(st.s, max) && LegitRun(set_, st, ps) && Binds(st.s, l)
    requires forall i :: 0 <= i < |ps| ==> !Matches(l, ps[i]) && !Expired(l, ps[i].now)
    ensures Binds(Run(set_, st, ps).s, l) && NeverGranted(set_, st, ps, l.addr)
    decreases |ps|
  {
    hide TableInv, Step, Legit, Binds, Matches, Granted;
    if ps != [] {
      assert !Matches(l, ps[0]) && !Expired(l, ps[0].now);
      StepSafe(set_, st, ps[0], max);
      StepBinds(set_, st, ps[0], l, max);
      forall i | 0 <= i < |ps[1..]|
        ensures !Matches(l, ps[1..][i]) && !Expired(l, ps[1..][i].now)
      {
        assert ps[1..][i] == ps[i + 1];
      }
      LeaseIsExclusive(set_, Step(set_, st, ps[0]).0, ps[1..], l, max);
    }
  }
}
