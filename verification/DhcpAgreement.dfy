// DISCOVER and REQUEST agree: what is offered to a client is not refused to it, and a
// client sent away to get its reserved address is then offered that address.
module DhcpAgreement {
  import opened Optional
  import opened LeaseTable
  import opened LeaseEvents
  import opened DhcpConfig
  import opened DhcpAllocate
  import opened DhcpProtocol
  import opened DhcpSafety

  // ---------- the same client, later ----------

  // Two packets of one client on one network; what they ask for may differ.
  predicate SameClient(p: Packet, q: Packet) {
    && p.hwKind == q.hwKind && p.hwBytes == q.hwBytes && p.clid == q.clid && p.chain == q.chain
    && p.tags == q.tags && p.clientName == q.clientName && p.override == q.override
  }

  lemma KeptCons(ls: seq<Lease>, now: nat)
    ensures ls == [] ==> Kept(ls, None, now) == []
    ensures ls != [] ==> Kept(ls, None, now) == if Expired(ls[0], now) then Kept(ls[1..], None, now)
        else [ls[0]] + Kept(ls[1..], None, now)
  {
  }

  lemma ClidCons(l: Lease, ls: seq<Lease>, clid: seq<nat>)
    ensures ByClid([l] + ls, clid) == if ClidMatch(l, clid) then 0 else 1 + ByClid(ls, clid)
  {
    assert ([l] + ls)[1..] == ls;
  }

  lemma HwCons(l: Lease, ls: seq<Lease>, hw: Hw, clid: seq<nat>)
    ensures ByHw([l] + ls, hw, clid) == if HwMatch(l, hw, clid) then 0 else 1 + ByHw(ls, hw, clid)
  {
    assert ([l] + ls)[1..] == ls;
  }

  lemma {:induction false} ByClidAfter(ls: seq<Lease>, clid: seq<nat>, now: nat)
    ensures var i, k := ByClid(ls, clid), Kept(ls, None, now);
      && (i == |ls| ==> ByClid(k, clid) == |k|)
      && (i < |ls| && !Expired(ls[i], now) ==> ByClid(k, clid) < |k| && k[ByClid(k, clid)] == ls[i])
  {
    hide ByClid, ClidMatch, Expired, Kept;
    KeptCons(ls, now);
    if ls != [] {
      var rest := Kept(ls[1..], None, now);
      ByClidAfter(ls[1..], clid, now);
      assert ls == [ls[0]] + ls[1..];
      ClidCons(ls[0], ls[1..], clid);
      ClidCons(ls[0], rest, clid);
    }
  }

  lemma {:induction false} ByHwAfter(ls: seq<Lease>, hw: Hw, clid: seq<nat>, now: nat)
    ensures var i, k := ByHw(ls, hw, clid), Kept(ls, None, now);
      && (i == |ls| ==> ByHw(k, hw, clid) == |k|)
      && (i < |ls| && !Expired(ls[i], now) ==> ByHw(k, hw, clid) < |k| && k[ByHw(k, hw, clid)] == ls[i])
  {
    hide ByHw, HwMatch, Expired, Kept;
    KeptCons(ls, now);
    if ls != [] {
      var rest := Kept(ls[1..], None, now);
      ByHwAfter(ls[1..], hw, clid, now);
      assert ls == [ls[0]] + ls[1..];
      HwCons(ls[0], ls[1..], hw, clid);
      HwCons(ls[0], rest, hw, clid);
    }
  }

  // The client-id stored in the lease the packet is found to have.
  function StoredClid(s: Leases, p: Packet): seq<nat> {
    var i := LeaseOf(s, p);
    if i.Some? then s.live[i.v].clid else []
  }

  // When leases have run out, the client still goes by the same client-id: its packets
  // carry one, or the lease it is found to have stores the one it had before.
  predicate Remembered(st: Server, p: Packet, now: nat) {
    p.clid != [] || StoredClid(Expire(st, now).s, p) == StoredClid(st.s, p)
  }

  // A client whose own lease still runs is remembered, and so is one without a lease.
  lemma RunningIsRemembered(st: Server, p: Packet, now: nat)
    requires LeaseOf(st.s, p).Some? ==> !Expired(st.s.live[LeaseOf(st.s, p).v], now)
    ensures Remembered(st, p, now)
  {
    ByClidAfter(st.s.live, p.clid, now);
    ByHwAfter(st.s.live, PacketHw(p), p.clid, now);
  }

  lemma SameLookup(s: Leases, p: Packet, q: Packet)
    requires SameClient(p, q)
    ensures LeaseOf(s, p) == LeaseOf(s, q) && StoredClid(s, p) == StoredClid(s, q)
  {
  }

  // A lease of the client's that still runs is found again although others expire.
  lemma LookupLater(st: Server, p: Packet, q: Packet, now: nat)
    requires SameClient(p, q) && LeaseOf(st.s, p).Some? && !Expired(st.s.live[LeaseOf(st.s, p).v], now)
    ensures LeaseOf(Expire(st, now).s, q).Some?
    ensures Expire(st, now).s.live[LeaseOf(Expire(st, now).s, q).v] == st.s.live[LeaseOf(st.s, p).v]
  {
    ByClidAfter(st.s.live, p.clid, now);
    ByHwAfter(st.s.live, PacketHw(p), p.clid, now);
  }

  // A lease that has run out has left its address.
  lemma ExpiredIsGone(s: Leases, i: nat, now: nat)
    requires DistinctAddrs(s.live) && i < |s.live| && Expired(s.live[i], now)
    ensures !HasAddr(Prune(s, None, now).live, s.live[i].addr)
  {
    KeptIsFilter(s.live, None, now);
    HasAddrMembers(Kept(s.live, None, now), s.live[i].addr);
  }

  lemma IdentifyLater(set_: Settings, st: Server, p: Packet, q: Packet, now: nat)
    requires SameClient(p, q) && Remembered(st, p, now)
    ensures var c, c' := Identify(set_, st, p), Identify(set_, Expire(st, now), q);
      c'.(lease := None) == c.(lease := None)
  {
    hide LeaseOf, FirstConfig, ConfigOf, Prune, Ignores;
    SameLookup(Expire(st, now).s, p, q);
    FirstConfigSame(st.configs, p, q);
    assert Expire(st, now).configs == st.configs;
  }

  // With the host configuration everything else that decides about the client stays.
  lemma SameConfigSame(set_: Settings, st: Server, p: Packet, q: Packet, now: nat)
    requires SameClient(p, q)
    requires Identify(set_, Expire(st, now), q).config == Identify(set_, st, p).config
    ensures var c, c' := Identify(set_, st, p), Identify(set_, Expire(st, now), q);
      c'.tags == c.tags && c'.ignored == c.ignored && ConfAddr(Expire(st, now), c') == ConfAddr(st, c)
  {
    hide LeaseOf, FirstConfig, ConfigOf, Prune, Ignores;
    assert Expire(st, now).configs == st.configs;
  }

  lemma FirstConfigSame(configs: seq<Config>, p: Packet, q: Packet)
    requires SameClient(p, q)
    ensures forall clid :: FirstConfig(configs, p, clid) == FirstConfig(configs, q, clid)
    ensures forall clid :: ConfigOf(configs, p, clid) == ConfigOf(configs, q, clid)
  {
    hide FindConfig;
  }

  // The address of a lease of the client's own, if it has one.
  function OwnAddr(st: Server, lease: Option<nat>): Option<nat>
    requires lease.Some? ==> lease.v < |st.s.live|
  {
    if lease.Some? then Some(st.s.live[lease.v].addr) else None
  }

  lemma LeasedMeans(st: Server, lease: Option<nat>, a: nat)
    requires DistinctAddrs(st.s.live) && (lease.Some? ==> lease.v < |st.s.live|)
    ensures LeasedToOther(st.s, lease, a) <==> HasAddr(st.s.live, a) && OwnAddr(st, lease) != Some(a)
  {
    var i := ByAddr(st.s.live, a);
    if i < |st.s.live| && lease.Some? && st.s.live[lease.v].addr == a {
      assert i == lease.v;
    }
  }

  // ---------- what an offer promises ----------

  predicate OneRouter(chain: seq<Context>) {
    forall i :: 0 <= i < |chain| ==> chain[i].router == chain[0].router
  }

  predicate Offerable(st: Server, p: Packet, c: Client, a: nat)
    requires p.chain != [] && (c.config.Some? ==> c.config.v < |st.configs|)
  {
    && (ConfAddr(st, c) == Some(a) || Available(p.chain, a, c.tags).Some?)
    && !LeasedToOther(st.s, c.lease, a)
  }

  lemma FreeIsAvailable(chain: seq<Context>, live: seq<Lease>, configs: seq<Config>, tags: set<string>, a: nat)
    requires Free(chain, live, configs, tags, a)
    ensures Available(chain, a, tags).Some? && !HasAddr(live, a)
  {
    hide Serves, HasAddr;
  }

  lemma OfferMeans(set_: Settings, st: Server, p: Packet, c: Client)
    requires p.chain != [] && c == Identify(set_, st, p) && DistinctAddrs(st.s.live)
    requires p.choice.Some? ==> Free(p.chain, st.s.live, st.configs, c.tags, p.choice.v)
    requires OnDiscover(st, p, c).Offer?
    ensures var r := OnDiscover(st, p, c);
      && Offerable(st, p, c, r.addr) && !c.ignored
      && Narrow(p.chain, r.addr, c.tags).Some? && r.server == ServerId(p.chain[Narrow(p.chain, r.addr, c.tags).v],
          p.override)
  {
    hide Identify, Available, Narrow, CalcTime, Reserved, LeasedToOther, Free, HasAddr;
    var a := OnDiscover(st, p, c).addr;
    LeasedMeans(st, c.lease, a);
    ByAddrNone(st.s, a);
    if p.choice == Some(a) {
      FreeIsAvailable(p.chain, st.s.live, st.configs, c.tags, a);
    }
  }

  // ---------- the contexts after the server identifier was looked for ----------

  lemma SuffixNarrows(chain: seq<Context>, k: nat, a: nat, tags: set<string>)
    requires OneRouter(chain) && Narrow(chain, a, tags).Some? && k <= Narrow(chain, a, tags).v
    ensures Narrow(chain[k..], a, tags).Some?
    ensures Available(chain, a, tags).Some? ==> Available(chain[k..], a, tags).Some?
  {
    hide Serves, SameNet;
    var n := Narrow(chain, a, tags).v;
    var rest := chain[k..];
    assert rest[n - k] == chain[n];
    assert rest[0].router == chain[0].router;
    if Available(chain, a, tags).Some? {
      assert Serves(rest[n - k], a, tags);
    } else {
      NarrowFails(rest, a, tags);
    }
  }

  lemma ServerFound(chain: seq<Context>, n: nat, override: nat)
    requires n < |chain|
    ensures override == 0 ==> FirstLocal(chain, ServerId(chain[n], override)) <= n
  {
  }

  // The contexts from the first one the server identifier belongs to.
  function Serving(p: Packet, server: nat): seq<Context> {
    p.chain[if p.override != 0 then 0 else FirstLocal(p.chain, server)..]
  }

  // The address is on a network of the contexts, and free for clients with the tags or
  // the client's reserved one.
  predicate Suits(chain: seq<Context>, a: nat, tags: set<string>, conf: Option<nat>) {
    Narrow(chain, a, tags).Some? && (Available(chain, a, tags).Some? || conf == Some(a))
  }

  lemma NarrowedAvailable(chain: seq<Context>, a: nat, tags: set<string>)
    requires OneRouter(chain) && Narrow(chain, a, tags).Some?
    ensures Available([chain[Narrow(chain, a, tags).v]], a, tags).Some? <==> Available(chain, a, tags).Some?
  {
    hide Serves, SameNet;
    var n := Narrow(chain, a, tags).v;
    assert [chain[n]][0] == chain[n] && chain[n].router == chain[0].router;
  }

  lemma ServingRouter(chain: seq<Context>, k: nat)
    requires OneRouter(chain) && k <= |chain|
    ensures OneRouter(chain[k..])
  {
  }

  // ---------- DISCOVER, then REQUEST ----------

  // Somebody else's host configuration reserves the address.
  predicate ReservedForOther(configs: seq<Config>, config: Option<nat>, a: nat) {
    var i := Reserved(configs, a); i < |configs| && Some(i) != config
  }

  // A lease slot: the client's own, or a free one and memory for it.
  predicate SlotFor(st: Server, lease: Option<nat>, a: nat, room: bool)
    requires lease.Some? ==> lease.v < |st.s.live|
  {
    OwnAddr(st, lease) == Some(a) || (room && (lease.Some? || st.s.left > 0))
  }

  predicate Asks(d: Packet, q: Packet, a: nat, server: nat) {
    SameClient(d, q) && q.kind == Request && q.requested == Some(a) && q.server == Some(server)
  }

  lemma SquashFrees(st: Server, i: nat, now: nat)
    requires i < |st.s.live|
    ensures Squash(st, i, now).s.left > 0 && Squash(st, i, now).configs == st.configs
    ensures forall a :: HasAddr(Squash(st, i, now).s.live, a) ==> HasAddr(st.s.live, a)
  {
    KeptIsFilter(st.s.live, Some(st.s.live[i].addr), now);
    assert st.s.live[i] in Gone(st.s.live, Some(st.s.live[i].addr), now);
    forall a | HasAddr(Squash(st, i, now).s.live, a)
      ensures HasAddr(st.s.live, a)
    {
      PruneAddr(st.s, Some(st.s.live[i].addr), now, a);
    }
  }

  lemma ConcludeExact(set_: Settings, st: Server, q: Packet, c: Client, lease: Option<nat>, chain: seq<Context>, a: nat)
    requires chain != [] && OneRouter(chain) && (c.config.Some? ==> c.config.v < |st.configs|)
    requires lease.Some? ==> lease.v < |st.s.live|
    requires !LeasedToOther(st.s, lease, a)
    ensures var r := Conclude(set_, st, q, c, lease, chain, a, true).1;
      && (r.Ack? || r.Nak?) && (r.Ack? ==> r.addr == a)
      && (r.Ack? <==>
            && Suits(chain, a, c.tags, ConfAddr(st, c)) && !ReservedForOther(st.configs, c.config, a)
            && c.emac != [] && (lease.Some? || (st.s.left > 0 && q.room)))
  {
    hide Narrow, Available, LeasedToOther, Reserved, Commit, CalcTime, OneRouter;
    if Narrow(chain, a, c.tags).Some? {
      NarrowedAvailable(chain, a, c.tags);
    }
  }

  // What the answer to a REQUEST for an address depends on that nobody else has.
  lemma RequestExact(set_: Settings, st: Server, q: Packet, c: Client, a: nat, n: nat)
    requires DistinctAddrs(st.s.live) && ClientOk(st, q, c) && OneRouter(q.chain) && n < |q.chain|
    requires !LeasedToOther(st.s, c.lease, a)
    requires q.requested == Some(a) && q.server == Some(ServerId(q.chain[n], q.override))
    ensures var r := OnRequest(set_, st, q, c).1;
      && (r.Ack? || r.Nak? || r.Silent?) && (r.Silent? <==> c.ignored) && (r.Ack? ==> r.addr == a)
      && (r.Ack? <==>
            && !c.ignored && Suits(Serving(q, q.server.v), a, c.tags, ConfAddr(st, c))
            && !ReservedForOther(st.configs, c.config, a) && c.emac != [] && SlotFor(st, c.lease, a, q.room))
  {
    hide Conclude, Suits, LeasedToOther, Reserved, Prune, OneRouter, HasAddr;
    var k := if q.override != 0 then 0 else FirstLocal(q.chain, q.server.v);
    ServerFound(q.chain, n, q.override);
    ServingRouter(q.chain, k);
    LeasedMeans(st, c.lease, a);
    if c.lease.Some? && st.s.live[c.lease.v].addr != a {
      var st' := Squash(st, c.lease.v, q.now);
      SquashFrees(st, c.lease.v, q.now);
      SquashDistinct(st, c.lease.v, q.now);
      LeasedMeans(st', None, a);
      ConcludeExact(set_, st', q, c, None, q.chain[k..], a);
    } else {
      ConcludeExact(set_, st, q, c, c.lease, q.chain[k..], a);
    }
  }

  lemma SquashDistinct(st: Server, i: nat, now: nat)
    requires i < |st.s.live| && DistinctAddrs(st.s.live)
    ensures DistinctAddrs(Squash(st, i, now).s.live)
  {
    KeptDistinctAddrs(st.s.live, Some(st.s.live[i].addr), now);
  }

  // Time passing only frees addresses.
  lemma LaterLeased(st: Server, p: Packet, q: Packet, now: nat, a: nat)
    requires DistinctAddrs(st.s.live) && SameClient(p, q)
    ensures LeasedToOther(Expire(st, now).s, LeaseOf(Expire(st, now).s, q), a) ==>
        LeasedToOther(st.s, LeaseOf(st.s, p), a)
    ensures DistinctAddrs(Expire(st, now).s.live)
  {
    hide LeaseOf, Prune, LeasedToOther, DistinctAddrs, HasAddr, Expired;
    var i := LeaseOf(st.s, p);
    ExpireDistinct(st, now);
    PruneAddr(st.s, None, now, a);
    LeasedMeans(st, i, a);
    LeasedMeans(Expire(st, now), LeaseOf(Expire(st, now).s, q), a);
    if i.Some? && Expired(st.s.live[i.v], now) {
      ExpiredIsGone(st.s, i.v, now);
    } else if i.Some? {
      LookupLater(st, p, q, now);
    }
  }

  lemma ExpireDistinct(st: Server, now: nat)
    requires DistinctAddrs(st.s.live)
    ensures DistinctAddrs(Expire(st, now).s.live)
  {
    KeptDistinctAddrs(st.s.live, None, now);
  }

  // While the client's host configuration stays, what fitted it at the offer fits it later.
  lemma SuitsLater(set_: Settings, st: Server, d: Packet, q: Packet, a: nat, n: nat)
    requires n < |d.chain| && Narrow(d.chain, a, Identify(set_, st, d).tags) == Some(n)
    requires SameClient(d, q) && OneRouter(d.chain) && q.server == Some(ServerId(d.chain[n], d.override))
    requires Offerable(st, d, Identify(set_, st, d), a) && !Identify(set_, st, d).ignored
    requires Identify(set_, Expire(st, q.now), q).config == Identify(set_, st, d).config
    ensures var c' := Identify(set_, Expire(st, q.now), q);
      !c'.ignored && Suits(Serving(q, q.server.v), a, c'.tags, ConfAddr(Expire(st, q.now), c'))
  {
    hide Identify, LeasedToOther, Available, LeaseOf, OneRouter, Narrow, Prune;
    SameConfigSame(set_, st, d, q, q.now);
    ServerFound(d.chain, n, d.override);
    SuffixNarrows(d.chain, if d.override != 0 then 0 else FirstLocal(d.chain, q.server.v), a,
      Identify(set_, st, d).tags);
  }

  // A REQUEST for the offered address, to the server that offered it, with no packet in
  // between: the address never belongs to somebody else by then, and the answer is an ACK
  // exactly if the client, identified again, is not ignored, fits the address, which is
  // not reserved for another host, has an identity at all and a slot for its lease. As
  // long as the host configuration found for the client is the same it is not ignored and
  // still fits.
  lemma DiscoverThenRequest(set_: Settings, st: Server, d: Packet, q: Packet)
    requires DistinctAddrs(st.s.live) && d.kind == Discover && Legit(set_, st, d) && OneRouter(d.chain)
    requires Step(set_, st, d).1.Offer?
    requires Asks(d, q, Step(set_, st, d).1.addr, Step(set_, st, d).1.server)
    ensures
      var (st0, offer) := Step(set_, st, d);
      var st1 := Expire(st0, q.now);
      var c := Identify(set_, st1, q);
      var r := Step(set_, st0, q).1;
      && (r.Ack? || r.Nak? || r.Silent?) && (r.Silent? <==> c.ignored) && (r.Ack? ==> r.addr == offer.addr)
      && (r.Ack? <==>
            && !c.ignored && Suits(Serving(q, offer.server), offer.addr, c.tags, ConfAddr(st1, c))
            && !ReservedForOther(st.configs, c.config, offer.addr) && c.emac != []
            && SlotFor(st1, c.lease, offer.addr, q.room))
      && (c.config == Identify(set_, st0, d).config ==>
            !c.ignored && Suits(Serving(q, offer.server), offer.addr, c.tags, ConfAddr(st1, c)))
  {
    hide Identify, OnDiscover, OnRequest, DistinctAddrs, OneRouter, SlotFor, ReservedForOther, Suits, Serving;
    hide Narrow, Prune, Legit, Free, LeasedToOther, Available, LeaseOf;
    var st0 := Expire(st, d.now);
    var offer := Step(set_, st, d).1;
    var c0 := Identify(set_, st0, d);
    ExpireDistinct(st, d.now);
    LegitDiscover(set_, st, d);
    OfferMeans(set_, st0, d, c0);
    var n := Narrow(d.chain, offer.addr, c0.tags).v;
    var st1 := Expire(st0, q.now);
    var c1 := Identify(set_, st1, q);
    LaterLeased(st0, d, q, q.now, offer.addr);
    RequestExact(set_, st1, q, c1, offer.addr, n);
    if c1.config == c0.config {
      SuitsLater(set_, st0, d, q, offer.addr, n);
    }
  }

  // The offer is kept to a client that is remembered: the REQUEST is ACKed exactly unless
  // the address (then the client's present one) has been reserved for another host, the
  // client has no identity at all, or there is no slot for the lease.
  lemma OfferIsKept(set_: Settings, st: Server, d: Packet, q: Packet)
    requires DistinctAddrs(st.s.live) && d.kind == Discover && Legit(set_, st, d) && OneRouter(d.chain)
    requires Step(set_, st, d).1.Offer?
    requires Asks(d, q, Step(set_, st, d).1.addr, Step(set_, st, d).1.server)
    requires Remembered(Expire(st, d.now), d, q.now)
    ensures
      var (st0, offer) := Step(set_, st, d);
      var st1 := Expire(st0, q.now);
      var c := Identify(set_, st1, q);
      var r := Step(set_, st0, q).1;
      && (r.Ack? || r.Nak?) && (r.Ack? ==> r.addr == offer.addr)
      && (r.Ack? <==>
            && !ReservedForOther(st.configs, c.config, offer.addr) && c.emac != []
            && SlotFor(st1, c.lease, offer.addr, q.room))
  {
    hide Identify, Respond, DistinctAddrs, OneRouter, SlotFor, ReservedForOther, Suits, Prune, Legit, Remembered;
    DiscoverKeeps(set_, st, d);
    IdentifyLater(set_, Expire(st, d.now), d, q, q.now);
    DiscoverThenRequest(set_, st, d, q);
  }

  lemma LegitDiscover(set_: Settings, st: Server, d: Packet)
    requires d.kind == Discover && Legit(set_, st, d)
    ensures d.choice.Some? ==>
        Free(d.chain, Expire(st, d.now).s.live, st.configs, Identify(set_, Expire(st, d.now), d).tags, d.choice.v)
  {
    hide Free, Identify, Prune;
  }

  // With unique reservations an address offered because it is the client's reserved one
  // is not reserved for another host.
  lemma OwnReservation(configs: seq<Config>, i: nat, a: nat)
    requires UniqueReservations(configs) && i < |configs| && configs[i].addr == Some(a)
    ensures !ReservedForOther(configs, Some(i), a)
  {
    var k := Reserved(configs, a);
    assert k <= i;
  }

  // So only the client's present lease can be on another host's reservation.
  lemma ReservedOnlyByLease(set_: Settings, st: Server, d: Packet)
    requires DistinctAddrs(st.s.live) && d.kind == Discover && Legit(set_, st, d) && UniqueReservations(st.configs)
    requires Step(set_, st, d).1.Offer?
    ensures
      var st0 := Expire(st, d.now);
      var c := Identify(set_, st0, d);
      var a := Step(set_, st, d).1.addr;
      ReservedForOther(st.configs, c.config, a) ==> OwnAddr(st0, c.lease) == Some(a)
  {
    hide Identify, LeaseOf, DistinctAddrs, Narrow, Prune, Legit, Free, CalcTime, Available, LeasedToOther;
    hide ReservedForOther, UniqueReservations;
    var st0 := Expire(st, d.now);
    var c := Identify(set_, st0, d);
    var a := Step(set_, st, d).1.addr;
    LegitDiscover(set_, st, d);
    if ConfAddr(st0, c) == Some(a) {
      OwnReservation(st.configs, c.config.v, a);
    }
    if d.choice == Some(a) {
      FreeIsUnreserved(d.chain, st0.s.live, st.configs, c.tags, a, c.config);
    }
    NotReserved(st.configs, c.config, a);
  }

  lemma NotReserved(configs: seq<Config>, config: Option<nat>, a: nat)
    ensures Reserved(configs, a) == |configs| ==> !ReservedForOther(configs, config, a)
  {
  }

  lemma FreeIsUnreserved(chain: seq<Context>, live: seq<Lease>, configs: seq<Config>, tags: set<string>, a: nat,
                         config: Option<nat>)
    requires Free(chain, live, configs, tags, a)
    ensures !ReservedForOther(configs, config, a)
  {
    hide Serves, HasAddr;
  }

  // ---------- "static lease available" ----------

  lemma ConcludeStatic(set_: Settings, st: Server, q: Packet, c: Client, lease: Option<nat>, chain: seq<Context>,
                       a: nat, selecting: bool)
    requires chain != [] && (c.config.Some? ==> c.config.v < |st.configs|) && (lease.Some? ==> lease.v < |st.s.live|)
    requires Conclude(set_, st, q, c, lease, chain, a, selecting).1 == Nak(StaticAvailable)
    ensures Conclude(set_, st, q, c, lease, chain, a, selecting).0 == st && !selecting
    ensures ConfAddr(st, c).Some? && chain[0].router != ConfAddr(st, c).v && ConfAddr(st, c).v != a
    ensures !LeasedToOther(st.s, lease, ConfAddr(st, c).v)
    ensures var d := st.configs[c.config.v].declined; d.None? || q.now > d.v + DECLINE_BACKOFF
  {
    hide Prune, Narrow, Available, Reserved, LeasedToOther, Commit, CalcTime;
  }

  lemma StaticNakMeans(set_: Settings, st: Server, q: Packet, c: Client)
    requires ClientOk(st, q, c) && OnRequest(set_, st, q, c).1 == Nak(StaticAvailable)
    ensures OnRequest(set_, st, q, c).0 == st && !c.ignored
    ensures ConfAddr(st, c).Some? && q.chain[0].router != ConfAddr(st, c).v
    ensures !LeasedToOther(st.s, c.lease, ConfAddr(st, c).v) && OwnAddr(st, c.lease) != ConfAddr(st, c)
    ensures var d := st.configs[c.config.v].declined; d.None? || q.now > d.v + DECLINE_BACKOFF
  {
    hide Conclude, Selecting, Prune, LeasedToOther, LeaseOf, Ciaddr;
    if q.requested.Some? && q.server.Some? {
      NotSelecting(set_, st, q, c);
    } else {
      ConcludeStatic(set_, st, q, c, c.lease, q.chain, if q.requested.Some? then q.requested.v else Ciaddr(q), false);
    }
  }

  lemma NotSelecting(set_: Settings, st: Server, q: Packet, c: Client)
    requires ClientOk(st, q, c) && q.requested.Some? && q.server.Some?
    ensures Selecting(set_, st, q, c).1 != Nak(StaticAvailable)
  {
    hide Conclude, Prune, LeaseOf, FirstLocal;
    var k := if q.override != 0 then 0 else FirstLocal(q.chain, q.server.v);
    if k < |q.chain| {
      NoStaticNak(set_, st, q, c, c.lease, q.chain[k..], q.requested.v);
      if c.lease.Some? {
        NoStaticNak(set_, Squash(st, c.lease.v, q.now), q, c, None, q.chain[k..], q.requested.v);
      }
    }
  }

  lemma NoStaticNak(set_: Settings, st: Server, q: Packet, c: Client, lease: Option<nat>, chain: seq<Context>, a: nat)
    requires chain != [] && (c.config.Some? ==> c.config.v < |st.configs|) && (lease.Some? ==> lease.v < |st.s.live|)
    ensures Conclude(set_, st, q, c, lease, chain, a, true).1 != Nak(StaticAvailable)
  {
    hide Narrow, Available, Reserved, LeasedToOther, Commit, CalcTime;
  }

  lemma OnChainNarrows(chain: seq<Context>, c: Config, tags: set<string>)
    requires OnChain(chain, c) && c.addr.Some?
    ensures Narrow(chain, c.addr.v, tags).Some?
  {
    hide SameNet;
    NarrowFails(chain, c.addr.v, tags);
  }

  predicate NoNullReservation(configs: seq<Config>) {
    forall i :: 0 <= i < |configs| ==> configs[i].addr != Some(0)
  }

  // The client of a packet, when it comes in.
  function Who(set_: Settings, st: Server, p: Packet): Client {
    Identify(set_, Expire(st, p.now), p)
  }

  // A client that is refused its address because a reserved one is waiting for it is
  // offered the reserved one as soon as it asks and is found to have the same host
  // configuration.
  lemma StaticNakThenOffer(set_: Settings, st: Server, q: Packet, d: Packet)
    requires DistinctAddrs(st.s.live) && NoNullReservation(st.configs)
    requires q.kind == Request && Step(set_, st, q).1 == Nak(StaticAvailable)
    requires d.kind == Discover && SameClient(q, d) && q.now <= d.now
    requires Who(set_, Step(set_, st, q).0, d).config == Who(set_, st, q).config
    ensures
      var st0 := Step(set_, st, q).0;
      var r := Step(set_, st0, d).1;
      r.Offer? && Some(r.addr) == Reservation(set_, st, q)
  {
    hide Identify, OnRequest, DistinctAddrs, LeaseOf, LeasedToOther, Narrow, Available, CalcTime, Prune, OnChain;
    var st1 := Expire(st, q.now);
    var c := Identify(set_, st1, q);
    ExpireDistinct(st, q.now);
    StaticNakMeans(set_, st1, q, c);
    var a := ConfAddr(st1, c).v;
    var st2 := Expire(st1, d.now);
    var c' := Identify(set_, st2, d);
    assert Step(set_, st, q).0 == st1;
    SameConfigSame(set_, st1, q, d, d.now);
    LaterLeased(st1, q, d, d.now, a);
    assert StaticOffer(st2, d, c') == Some(a);
    OnChainNarrows(d.chain, st2.configs[c'.config.v], c'.tags);
  }

  // It is offered the reserved address only then, because nothing else leads to it.
  lemma StaticNakThenOfferExact(set_: Settings, st: Server, q: Packet, d: Packet)
    requires DistinctAddrs(st.s.live) && NoNullReservation(st.configs) && UniqueReservations(st.configs)
    requires q.kind == Request && Step(set_, st, q).1 == Nak(StaticAvailable)
    requires d.kind == Discover && SameClient(q, d) && q.now <= d.now && Legit(set_, Step(set_, st, q).0, d)
    ensures
      var st0 := Step(set_, st, q).0;
      var r := Step(set_, st0, d).1;
      && Reservation(set_, st, q).Some?
      && (r.Offer? && Some(r.addr) == Reservation(set_, st, q) <==>
            Who(set_, st0, d).config == Who(set_, st, q).config)
  {
    hide Identify, OnRequest, OnDiscover, DistinctAddrs, LeaseOf, LeasedToOther, Prune, OnChain, Legit;
    hide UniqueReservations, NoNullReservation, Free;
    var st1 := Expire(st, q.now);
    var c := Identify(set_, st1, q);
    ExpireDistinct(st, q.now);
    StaticNakMeans(set_, st1, q, c);
    StaticNakKeeps(set_, st, q);
    var a := ConfAddr(st1, c).v;
    var st2 := Expire(st1, d.now);
    var c' := Identify(set_, st2, d);
    LegitDiscover(set_, st1, d);
    LeasedMeans(st1, c.lease, a);
    PruneAddr(st1.s, None, d.now, a);
    if c'.config == c.config {
      StaticNakThenOffer(set_, st, q, d);
    } else if OnDiscover(st2, d, c').Offer? && OnDiscover(st2, d, c').addr == a {
      OnlyByReservation(st2, d, c', c.config.v, a);
    }
  }

  // An offered address that has no lease and is reserved is offered because of its host
  // configuration.
  lemma OnlyByReservation(st: Server, d: Packet, c: Client, i: nat, a: nat)
    requires ClientOk(st, d, c) && i < |st.configs| && st.configs[i].addr == Some(a) && UniqueReservations(st.configs)
    requires d.choice.Some? ==> Free(d.chain, st.s.live, st.configs, c.tags, d.choice.v)
    requires !HasAddr(st.s.live, a) && OnDiscover(st, d, c).Offer? && OnDiscover(st, d, c).addr == a
    ensures c.config == Some(i)
  {
    hide LeasedToOther, Narrow, Available, CalcTime, Free, LeaseOf;
    if d.choice == Some(a) {
      FreeIsUnreserved(d.chain, st.s.live, st.configs, c.tags, a, c.config);
    }
  }

  // An offer of the client's own reservation is ACKed exactly if it is still found to have
  // the same host configuration, has an identity and a slot.
  lemma ReservedOfferAcked(set_: Settings, st: Server, d: Packet, r: Packet)
    requires DistinctAddrs(st.s.live) && UniqueReservations(st.configs) && OneRouter(d.chain)
    requires d.kind == Discover && Legit(set_, st, d) && Step(set_, st, d).1.Offer?
    requires Some(Step(set_, st, d).1.addr) == Reservation(set_, st, d)
    requires Asks(d, r, Step(set_, st, d).1.addr, Step(set_, st, d).1.server)
    ensures
      var (st0, offer) := Step(set_, st, d);
      var answer := Step(set_, st0, r).1;
      answer.Ack? && answer.addr == offer.addr <==>
        Who(set_, st0, r).config == Who(set_, st, d).config && CanLease(set_, st0, r, offer.addr)
  {
    hide Identify, Respond, DistinctAddrs, OneRouter, SlotFor, UniqueReservations, Suits, Prune, Legit;
    hide ReservedForOther;
    DiscoverThenRequest(set_, st, d, r);
    DiscoverKeeps(set_, st, d);
    var st0 := Expire(st, d.now);
    ReservedForOne(st.configs, Who(set_, st, d).config.v, Who(set_, st0, r).config, Step(set_, st, d).1.addr);
  }

  // With unique reservations an address is reserved for one host only.
  lemma ReservedForOne(configs: seq<Config>, i: nat, config: Option<nat>, a: nat)
    requires UniqueReservations(configs) && i < |configs| && configs[i].addr == Some(a)
    ensures ReservedForOther(configs, config, a) <==> config != Some(i)
  {
    var k := Reserved(configs, a);
    assert k <= i;
  }

  lemma DiscoverKeeps(set_: Settings, st: Server, d: Packet)
    requires d.kind == Discover
    ensures Step(set_, st, d).0 == Expire(st, d.now)
  {
    hide OnDiscover, Identify, Prune;
  }

  function After(set_: Settings, st: Server, p: Packet): Server {
    Step(set_, st, p).0
  }

  function ReplyTo(set_: Settings, st: Server, p: Packet): Reply {
    Step(set_, st, p).1
  }

  // The address reserved for the sender of a packet.
  function Reservation(set_: Settings, st: Server, p: Packet): Option<nat> {
    ConfAddr(Expire(st, p.now), Identify(set_, Expire(st, p.now), p))
  }

  // The sender has an identity and there is a slot for its lease.
  predicate CanLease(set_: Settings, st: Server, p: Packet, a: nat) {
    var c := Identify(set_, Expire(st, p.now), p);
    c.emac != [] && SlotFor(Expire(st, p.now), c.lease, a, p.room)
  }

  predicate SentAway(set_: Settings, st: Server, q: Packet) {
    q.kind == Request && ReplyTo(set_, st, q) == Nak(StaticAvailable)
  }

  predicate Accepts(set_: Settings, st: Server, d: Packet, r: Packet) {
    ReplyTo(set_, st, d).Offer? && Asks(d, r, ReplyTo(set_, st, d).addr, ReplyTo(set_, st, d).server)
  }

  // After the refusal, DISCOVER and REQUEST lead to a lease on the reserved address, so
  // that there is no endless loop, exactly if both packets are found to come from the host
  // it is reserved for, which has an identity and a slot.
  lemma StaticNakConverges(set_: Settings, st: Server, q: Packet, d: Packet, r: Packet)
    requires DistinctAddrs(st.s.live) && NoNullReservation(st.configs) && UniqueReservations(st.configs)
    requires OneRouter(q.chain)
    requires SentAway(set_, st, q)
    requires d.kind == Discover && SameClient(q, d) && q.now <= d.now && Legit(set_, After(set_, st, q), d)
    requires Accepts(set_, After(set_, st, q), d, r)
    ensures var st1 := After(set_, st, q);
      var st2 := After(set_, st1, d);
      var a := Reservation(set_, st, q);
      && a.Some?
      && (ReplyTo(set_, st2, r).Ack? && ReplyTo(set_, st2, r).addr == a.v <==>
            && Who(set_, st1, d).config == Who(set_, st, q).config
            && Who(set_, st2, r).config == Who(set_, st, q).config && CanLease(set_, st2, r, a.v))
  {
    hide Identify, Expire, Respond, DistinctAddrs, OneRouter, UniqueReservations, NoNullReservation, CanLease;
    hide Legit, Suits, SlotFor, ReservedForOther;
    var st1 := After(set_, st, q);
    StaticNakThenOfferExact(set_, st, q, d);
    StaticNakKeeps(set_, st, q);
    ExpireDistinct(st, q.now);
    ExpireConfigs(st, q.now);
    SameChain(q, d);
    if Who(set_, st1, d).config == Who(set_, st, q).config {
      SameReservation(set_, st, q, d);
      ReservedOfferAcked(set_, st1, d, r);
    } else {
      DiscoverThenRequest(set_, st1, d, r);
    }
  }

  lemma SameChain(p: Packet, q: Packet)
    requires SameClient(p, q)
    ensures p.chain == q.chain
  {
  }

  // Packets of a client that is remembered come from the same host.
  lemma RememberedKeepsConfig(set_: Settings, st: Server, p: Packet, q: Packet)
    requires SameClient(p, q) && Remembered(Expire(st, p.now), p, q.now)
    ensures Who(set_, Expire(st, p.now), q).config == Who(set_, st, p).config
  {
    hide Identify, Remembered, SameClient, Expire;
    IdentifyLater(set_, Expire(st, p.now), p, q, q.now);
  }

  lemma ExpireConfigs(st: Server, now: nat)
    ensures Expire(st, now).configs == st.configs
  {
  }

  lemma SameReservation(set_: Settings, st: Server, q: Packet, d: Packet)
    requires SameClient(q, d) && Who(set_, Expire(st, q.now), d).config == Who(set_, st, q).config
    ensures Reservation(set_, Expire(st, q.now), d) == Reservation(set_, st, q)
  {
    hide Identify, Prune;
    SameConfigSame(set_, Expire(st, q.now), q, d, d.now);
  }

  lemma StaticNakKeeps(set_: Settings, st: Server, q: Packet)
    requires q.kind == Request && Step(set_, st, q).1 == Nak(StaticAvailable)
    ensures Step(set_, st, q).0 == Expire(st, q.now)
  {
    hide Identify, OnRequest, Prune, LeaseOf;
    StaticNakMeans(set_, Expire(st, q.now), q, Identify(set_, Expire(st, q.now), q));
  }
}
