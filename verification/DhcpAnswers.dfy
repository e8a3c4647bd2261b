// What the replies promise: for how long an address is granted, and that a client can
// give up or refuse an address.
module DhcpAnswers {
  import opened Optional
  import opened LeaseTable
  import opened LeaseEvents
  import opened DhcpConfig
  import opened DhcpAllocate
  import opened DhcpProtocol
  import opened DhcpSafety
  import opened DhcpAgreement

  // ---------- the context of a reply ----------

  // Context k is the one for the address: the first that gives it away to clients with
  // the tags, or if none does (or it is the router's) the first static one on its network,
  // or the first on its network.
  predicate Chosen(chain: seq<Context>, a: nat, tags: set<string>, k: nat) {
    && k < |chain|
    && if chain[0].router != a && exists j :: 0 <= j < |chain| && Serves(chain[j], a, tags) then
         Serves(chain[k], a, tags) && forall j :: 0 <= j < k ==> !Serves(chain[j], a, tags)
       else if exists j :: 0 <= j < |chain| && StaticNet(chain[j], a) then
         StaticNet(chain[k], a) && forall j :: 0 <= j < k ==> !StaticNet(chain[j], a)
       else SameNet(a, chain[k].start, chain[k].netmask)
            && forall j :: 0 <= j < k ==> !SameNet(a, chain[j].start, chain[j].netmask)
  }

  predicate StaticNet(c: Context, a: nat) {
    c.isStatic && SameNet(a, c.start, c.netmask)
  }

  lemma NarrowChooses(chain: seq<Context>, a: nat, tags: set<string>)
    requires Narrow(chain, a, tags).Some?
    ensures Chosen(chain, a, tags, Narrow(chain, a, tags).v)
  {
    hide Serves, SameNet;
  }

  // The contexts a packet may be answered for: when it names a server, from the first one
  // on that has that address.
  predicate From(p: Packet, m: nat) {
    if p.kind == Request && p.requested.Some? && p.server.Some? && p.override == 0 then
      && m < |p.chain| && p.chain[m].local == p.server.v
      && forall j :: 0 <= j < m ==> p.chain[j].local != p.server.v
    else m == 0
  }

  // ---------- how long ----------

  // The time set by the host configuration, or else by the context.
  function Limit(st: Server, c: Client, ctx: Context): nat
    requires c.config.Some? ==> c.config.v < |st.configs|
  {
    if c.config.Some? && st.configs[c.config.v].leaseTime.Some? then st.configs[c.config.v].leaseTime.v
    else ctx.leaseTime
  }

  // The time granted: the limit, or less if less was asked for, but not under two minutes.
  predicate TimeOk(time: nat, asked: Option<nat>, limit: nat) {
    match asked
    case None => time == limit
    case Some(v) =>
      && (time == limit || time == v || (time == 120 && v < 120))
      && (limit != FOREVER ==> time <= limit)
      && (limit <= FOREVER ==> time <= v || (time <= 120 && v < 120))
      && (time < limit ==> time >= 120)
  }

  lemma CalcTimeOk(st: Server, c: Client, ctx: Context, asked: Option<nat>)
    requires c.config.Some? ==> c.config.v < |st.configs|
    ensures TimeOk(CalcTime(ctx, ConfigAt(st, c.config), asked), asked, Limit(st, c, ctx))
  {
  }

  // The time is granted for some context that fits the address.
  predicate Timed(st: Server, p: Packet, c: Client, a: nat, time: nat, m: nat, k: nat)
    requires c.config.Some? ==> c.config.v < |st.configs|
  {
    && From(p, m) && m <= |p.chain| && Chosen(p.chain[m..], a, c.tags, k)
    && TimeOk(time, p.reqTime, Limit(st, c, p.chain[m..][k]))
  }

  // The server goes by the address a relay asked it to use, or by its own in the context.
  predicate IdIs(id: nat, p: Packet, k: nat) {
    if p.override != 0 then id == p.override else k < |p.chain| && id == p.chain[k].local
  }

  lemma ConcludeTimed(set_: Settings, st: Server, p: Packet, c: Client, lease: Option<nat>, m: nat, a: nat,
                      selecting: bool)
    requires m < |p.chain| && From(p, m) && (c.config.Some? ==> c.config.v < |st.configs|)
    requires lease.Some? ==> lease.v < |st.s.live|
    ensures var r := Conclude(set_, st, p, c, lease, p.chain[m..], a, selecting).1;
      r.Ack? ==> r.addr == a && exists k :: Timed(st, p, c, a, r.time, m, k)
  {
    hide Narrow, Commit, Chosen, CalcTime, TimeOk, From;
    if Refusal(st, p, c, lease, p.chain[m..], a, selecting).None? {
      var k := Narrow(p.chain[m..], a, c.tags).v;
      NarrowChooses(p.chain[m..], a, c.tags);
      CalcTimeOk(st, c, p.chain[m..][k], p.reqTime);
      assert Timed(st, p, c, a, CalcTime(p.chain[m..][k], ConfigAt(st, c.config), p.reqTime), m, k);
    }
  }

  lemma RequestTimed(set_: Settings, st: Server, p: Packet, c: Client)
    requires ClientOk(st, p, c) && p.kind == Request
    ensures var r := OnRequest(set_, st, p, c).1;
      r.Ack? ==> exists m, k :: Timed(st, p, c, r.addr, r.time, m, k)
  {
    hide Conclude, Timed, Prune, LeaseOf, Ciaddr;
    assert p.chain[0..] == p.chain;
    forall lease: Option<nat>, m: nat, a: nat, selecting: bool, s: Server |
      && m < |p.chain| && From(p, m) && s.configs == st.configs && (lease.Some? ==> lease.v < |s.s.live|)
      ensures var r := Conclude(set_, s, p, c, lease, p.chain[m..], a, selecting).1;
        r.Ack? ==> r.addr == a && exists k :: Timed(st, p, c, a, r.time, m, k)
    {
      ConcludeTimed(set_, s, p, c, lease, m, a, selecting);
      TimedSame(s, st, p, c, a);
    }
  }

  lemma TimedSame(s: Server, st: Server, p: Packet, c: Client, a: nat)
    requires s.configs == st.configs && (c.config.Some? ==> c.config.v < |st.configs|)
    ensures forall time, m, k :: Timed(s, p, c, a, time, m, k) ==> Timed(st, p, c, a, time, m, k)
  {
  }

  // Every address offered or ACKed is granted for the time its host configuration or its
  // context allows, or for less if the client asked for less.
  lemma GrantedTime(set_: Settings, st: Server, p: Packet)
    ensures var r := Step(set_, st, p).1;
      var st0 := Expire(st, p.now);
      var c := Identify(set_, st0, p);
      && (r.Offer? ==> exists k: nat :: (Timed(st0, p, c, r.addr, r.time, 0, k) && IdIs(r.server, p, k)))
      && (r.Ack? ==> exists m, k :: Timed(st0, p, c, r.addr, r.time, m, k))
  {
    hide OnBootp, OnRequest, OnDecline, OnRelease, OnInform, OnDiscover, Identify, Prune, Timed;
    var st0 := Expire(st, p.now);
    if !Malformed(p) && p.chain != [] {
      if p.kind == Bootp {
        BootpNoAck(set_, st0, p);
      } else {
        var c := Identify(set_, st0, p);
        NoAck(st0, p, c);
        GrantedKinds(set_, st0, p, c);
        if p.kind == Request {
          RequestTimed(set_, st0, p, c);
        } else if p.kind == Discover {
          DiscoverTimed(st0, p, c);
        }
        OthersNoOffer(st0, p, c);
      }
    }
  }

  lemma OthersNoOffer(st: Server, p: Packet, c: Client)
    requires ClientOk(st, p, c)
    ensures !OnDecline(st, p, c).1.Offer? && !OnRelease(st, p, c).1.Offer? && !OnInform(st, p, c).1.Offer?
  {
    hide Narrow, Prune;
  }

  lemma DiscoverTimed(st: Server, p: Packet, c: Client)
    requires ClientOk(st, p, c) && p.kind == Discover
    ensures var r := OnDiscover(st, p, c);
      r.Offer? ==> exists k: nat :: (Timed(st, p, c, r.addr, r.time, 0, k) && IdIs(r.server, p, k))
  {
    hide OfferAddr, Narrow, Chosen, CalcTime, TimeOk;
    var a := OfferAddr(st, p, c);
    assert p.chain[0..] == p.chain;
    if a.Some? && Narrow(p.chain, a.v, c.tags).Some? {
      var k := Narrow(p.chain, a.v, c.tags).v;
      NarrowChooses(p.chain, a.v, c.tags);
      CalcTimeOk(st, c, p.chain[k], p.reqTime);
      assert Timed(st, p, c, a.v, CalcTime(p.chain[k], ConfigAt(st, c.config), p.reqTime), 0, k);
    }
  }

  // ---------- RELEASE ----------

  // Only the lease on the address goes; the others stay as they are.
  ghost predicate Without(s: Leases, t: Leases, a: nat) {
    && !HasAddr(t.live, a) && t.left == s.left + 1
    && (forall l :: l in t.live <==> l in s.live && l.addr != a)
  }

  // The lease of the client, if that is on the address.
  predicate Owns(st: Server, c: Client, a: nat) {
    c.lease.Some? && c.lease.v < |st.s.live| && st.s.live[c.lease.v].addr == a
  }

  // The server the packet names is this one, in the context for the address.
  ghost predicate NamesUs(p: Packet, a: nat, tags: set<string>) {
    p.server.Some? && exists k: nat :: (Chosen(p.chain, a, tags, k) && IdIs(p.server.v, p, k))
  }

  lemma NamedMeans(p: Packet, a: nat, tags: set<string>)
    ensures var n := Narrow(p.chain, a, tags);
      NamesUs(p, a, tags) <==> n.Some? && p.server == Some(ServerId(p.chain[n.v], p.override))
  {
    hide Narrow, Chosen;
    if Narrow(p.chain, a, tags).Some? {
      NarrowChooses(p.chain, a, tags);
    }
    forall k: nat | Chosen(p.chain, a, tags, k)
      ensures Narrow(p.chain, a, tags) == Some(k)
    {
      ChosenNarrows(p.chain, a, tags, k);
    }
  }

  // A RELEASE ends the lease on the address exactly if it comes from the owner and names
  // this server.
  lemma ReleaseEnds(set_: Settings, st: Server, p: Packet, max: nat)
    requires TableInv(st.s, max) && p.kind == Release && !Malformed(p) && p.chain != []
    ensures var st0 := Expire(st, p.now);
      var c := Identify(set_, st0, p);
      var st1 := Step(set_, st, p).0;
      var a := if p.requested.Some? then 0 else p.ciaddr;
      if Owns(st0, c, a) && NamesUs(p, a, c.tags) then Without(st0.s, st1.s, a)
      else st1 == st0
  {
    hide Identify, Prune, Narrow, Chosen, Without, TableInv, NamesUs;
    var st0 := Expire(st, p.now);
    var c := Identify(set_, st0, p);
    var a := Ciaddr(p);
    PruneTable(st.s, None, p.now, max);
    ExpireCurrent(st, p.now);
    NamedMeans(p, a, c.tags);
    if Owns(st0, c, a) {
      SquashWithout(st0, c.lease.v, p.now, max);
    }
  }

  lemma ChosenNarrows(chain: seq<Context>, a: nat, tags: set<string>, k: nat)
    requires Chosen(chain, a, tags, k)
    ensures Narrow(chain, a, tags) == Some(k)
  {
    hide Serves, SameNet;
  }

  lemma {:induction false} OneGoes(ls: seq<Lease>, i: nat, now: nat)
    requires i < |ls| && DistinctAddrs(ls) && forall k :: 0 <= k < |ls| ==> !Expired(ls[k], now)
    ensures |Gone(ls, Some(ls[i].addr), now)| == 1
  {
    hide Expired;
    var a := ls[i].addr;
    if i > 0 {
      assert ls[0].addr != a;
      OneGoes(ls[1..], i - 1, now);
    } else {
      NoneGoes(ls[1..], a, now);
    }
  }

  lemma {:induction false} NoneGoes(ls: seq<Lease>, a: nat, now: nat)
    requires forall k :: 0 <= k < |ls| ==> !Expired(ls[k], now) && ls[k].addr != a
    ensures Gone(ls, Some(a), now) == []
  {
    hide Expired;
    if ls != [] {
      NoneGoes(ls[1..], a, now);
    }
  }

  lemma SquashWithout(st: Server, i: nat, now: nat, max: nat)
    requires TableInv(st.s, max) && i < |st.s.live| && Current(st.s, now)
    ensures Without(st.s, Squash(st, i, now).s, st.s.live[i].addr)
  {
    hide DistinctNames, Expired;
    var a := st.s.live[i].addr;
    KeptIsFilter(st.s.live, Some(a), now);
    OneGoes(st.s.live, i, now);
    PruneAddr(st.s, Some(a), now, a);
    HasAddrMembers(st.s.live, a);
  }

  // ---------- DECLINE ----------

  predicate ToThisServer(p: Packet) {
    p.chain != [] && p.server.Some? && IdIs(p.server.v, p, 0)
  }

  // A DECLINE to this server ends the client's lease on the address, and if the address is
  // reserved for the client the time is noted; nothing else changes.
  lemma DeclineEnds(set_: Settings, st: Server, p: Packet, max: nat)
    requires TableInv(st.s, max) && p.kind == Decline && !Malformed(p) && p.chain != []
    ensures var st0 := Expire(st, p.now);
      var c := Identify(set_, st0, p);
      var st1 := Step(set_, st, p).0;
      if ToThisServer(p) && p.requested.Some? then
        && (if Owns(st0, c, p.requested.v) then Without(st0.s, st1.s, p.requested.v) else st1.s == st0.s)
        && st1.configs == (if ConfAddr(st0, c) != p.requested then st.configs
                           else st.configs[c.config.v := st.configs[c.config.v].(declined := Some(p.now))])
      else st1 == st0
  {
    hide Identify, Prune, Without, TableInv;
    var st0 := Expire(st, p.now);
    var c := Identify(set_, st0, p);
    PruneTable(st.s, None, p.now, max);
    ExpireCurrent(st, p.now);
    if p.requested.Some? && Owns(st0, c, p.requested.v) {
      SquashWithout(st0, c.lease.v, p.now, max);
    }
  }

  // An address that was declined is offered to nobody for ten minutes.
  lemma DeclinedRests(set_: Settings, st: Server, d: Packet, i: nat, t: nat)
    requires i < |st.configs| && st.configs[i].addr.Some? && st.configs[i].declined == Some(t)
    requires UniqueReservations(st.configs) && !HasAddr(st.s.live, st.configs[i].addr.v)
    requires d.kind == Discover && Legit(set_, st, d) && d.now < t + 600
    ensures var r := Step(set_, st, d).1; r.Offer? ==> r.addr != st.configs[i].addr.v
  {
    hide Identify, OnDiscover, Prune, Legit, UniqueReservations, HasAddr, Free;
    var a := st.configs[i].addr.v;
    var st0 := Expire(st, d.now);
    var c := Identify(set_, st0, d);
    PruneAddr(st.s, None, d.now, a);
    LegitDiscover(set_, st, d);
    if !Malformed(d) && d.chain != [] && OnDiscover(st0, d, c).Offer? && OnDiscover(st0, d, c).addr == a {
      OnlyByReservation(st0, d, c, i, a);
      NotWhileDeclined(st0, d, c, i, t, a);
    }
  }

  lemma NotWhileDeclined(st: Server, d: Packet, c: Client, i: nat, t: nat, a: nat)
    requires ClientOk(st, d, c) && c.config == Some(i) && st.configs[i].addr == Some(a)
    requires st.configs[i].declined == Some(t) && d.now < t + 600 && !HasAddr(st.s.live, a)
    requires d.choice.Some? ==> Free(d.chain, st.s.live, st.configs, c.tags, d.choice.v)
    ensures OnDiscover(st, d, c).Offer? ==> OnDiscover(st, d, c).addr != a
  {
    hide Narrow, Available, CalcTime, LeaseOf;
  }

  // Then the client it is reserved for is offered it again.
  lemma DeclinedReturns(set_: Settings, st: Server, d: Packet, i: nat, t: nat)
    requires i < |st.configs| && st.configs[i].addr.Some? && st.configs[i].declined == Some(t)
    requires st.configs[i].addr.v != 0 && !HasAddr(st.s.live, st.configs[i].addr.v)
    requires d.kind == Discover && !Malformed(d) && d.chain != [] && d.now >= t + 600
    requires d.chain[0].router != st.configs[i].addr.v
    requires var c := Identify(set_, Expire(st, d.now), d); c.config == Some(i) && !c.ignored
    ensures var r := Step(set_, st, d).1; r.Offer? && r.addr == st.configs[i].addr.v
  {
    hide Identify, Prune, HasAddr, OnChain, Narrow, CalcTime, Available, LeaseOf;
    var a := st.configs[i].addr.v;
    var st0 := Expire(st, d.now);
    var c := Identify(set_, st0, d);
    PruneAddr(st.s, None, d.now, a);
    LeasedMeans0(st0, c.lease, a);
    OnChainNarrows(d.chain, st0.configs[i], c.tags);
  }

  lemma LeasedMeans0(st: Server, lease: Option<nat>, a: nat)
    requires !HasAddr(st.s.live, a)
    ensures !LeasedToOther(st.s, lease, a)
  {
  }
}
