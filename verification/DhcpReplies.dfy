// Which reply a packet gets, told from the table and the configuration without the
// functions that decide it.
module DhcpReplies {
  import opened Optional
  import opened LeaseTable
  import opened LeaseEvents
  import opened DhcpConfig
  import opened DhcpProtocol
  import opened DhcpSafety
  import opened DhcpAgreement
  import opened DhcpAnswers

  // ---------- what an address is to a client ----------

  // A range gives the address away to clients with the tags; no context's router has it.
  predicate GivenAway(chain: seq<Context>, a: nat, tags: set<string>) {
    chain != [] && chain[0].router != a && exists j :: 0 <= j < |chain| && Serves(chain[j], a, tags)
  }

  // Some context can take the address: it gives it away, or has it on its network.
  predicate Placed(chain: seq<Context>, a: nat, tags: set<string>) {
    GivenAway(chain, a, tags) || exists j :: 0 <= j < |chain| && SameNet(a, chain[j].start, chain[j].netmask)
  }

  predicate ReservedFor(st: Server, c: Client, a: nat) {
    c.config.Some? && c.config.v < |st.configs| && st.configs[c.config.v].addr == Some(a)
  }

  predicate SomebodysReservation(st: Server, a: nat) {
    exists i :: 0 <= i < |st.configs| && st.configs[i].addr == Some(a)
  }

  // Another client has a lease on the address.
  predicate TakenByOther(st: Server, c: Client, a: nat) {
    HasAddr(st.s.live, a) && !Owns(st, c, a)
  }

  lemma GivenAwayMeans(chain: seq<Context>, a: nat, tags: set<string>)
    ensures Available(chain, a, tags).Some? <==> GivenAway(chain, a, tags)
    ensures Narrow(chain, a, tags).Some? <==> Placed(chain, a, tags)
  {
    hide Serves, SameNet;
    NarrowFails(chain, a, tags);
  }

  lemma TakenMeans(st: Server, c: Client, a: nat)
    requires DistinctAddrs(st.s.live) && (c.lease.Some? ==> c.lease.v < |st.s.live|)
    ensures LeasedToOther(st.s, c.lease, a) <==> TakenByOther(st, c, a)
  {
    LeasedMeans(st, c.lease, a);
  }

  lemma ReservationMeans(st: Server, a: nat)
    ensures Reserved(st.configs, a) < |st.configs| <==> SomebodysReservation(st, a)
  {
  }

  // ---------- DISCOVER ----------

  // The address reserved for the client may be offered to it now.
  predicate ReservationFree(st: Server, d: Packet, c: Client, a: nat) {
    && ReservedFor(st, c, a) && a != 0 && !TakenByOther(st, c, a)
    && d.chain != [] && d.chain[0].router != a
    && (st.configs[c.config.v].declined.Some? ==> d.now >= st.configs[c.config.v].declined.v + 600)
  }

  predicate LeaseGoesOn(st: Server, d: Packet, c: Client, a: nat) {
    Owns(st, c, a) && GivenAway(d.chain, a, c.tags)
  }

  predicate WishGranted(st: Server, d: Packet, c: Client, a: nat) {
    && d.requested == Some(a) && GivenAway(d.chain, a, c.tags)
    && !HasAddr(st.s.live, a) && !SomebodysReservation(st, a)
  }

  // The address for the client: the one reserved for it, or else the one it has, or else
  // the one it asks for, or else a free one.
  ghost predicate AddressFor(st: Server, d: Packet, c: Client, a: nat) {
    if exists b :: ReservationFree(st, d, c, b) then ReservationFree(st, d, c, a)
    else if exists b :: LeaseGoesOn(st, d, c, b) then LeaseGoesOn(st, d, c, a)
    else if exists b :: WishGranted(st, d, c, b) then WishGranted(st, d, c, a)
    else c.emac != [] && d.choice == Some(a)
  }

  lemma OfferAddrIs(st: Server, d: Packet, c: Client)
    requires ClientOk(st, d, c) && DistinctAddrs(st.s.live)
    ensures var a := OfferAddr(st, d, c);
      && (a.Some? ==> AddressFor(st, d, c, a.v))
      && (a.None? ==> forall b :: !AddressFor(st, d, c, b))
  {
    hide Available, LeasedToOther, GivenAway, HasAddr, SomebodysReservation, TakenByOther, LeaseOf;
    forall a: nat
      ensures LeasedToOther(st.s, c.lease, a) <==> TakenByOther(st, c, a)
      ensures Available(d.chain, a, c.tags).Some? <==> GivenAway(d.chain, a, c.tags)
      ensures Reserved(st.configs, a) < |st.configs| <==> SomebodysReservation(st, a)
      ensures ByAddr(st.s.live, a) < |st.s.live| <==> HasAddr(st.s.live, a)
    {
      TakenMeans(st, c, a);
      GivenAwayMeans(d.chain, a, c.tags);
      ReservationMeans(st, a);
      ByAddrNone(st.s, a);
    }
    hide Reserved, ByAddr;
    var conf := StaticOffer(st, d, c);
    assert conf.Some? ==> ReservationFree(st, d, c, conf.v);
    assert forall b: nat :: ReservationFree(st, d, c, b) ==> conf == Some(b);
    assert forall b :: LeaseGoesOn(st, d, c, b) ==> b == st.s.live[c.lease.v].addr;
    if c.lease.Some? {
      var own := st.s.live[c.lease.v].addr;
      assert LeaseGoesOn(st, d, c, own) <==> Available(d.chain, own, c.tags).Some?;
    }
    if d.requested.Some? {
      var wish := d.requested.v;
      assert WishGranted(st, d, c, wish) <==>
        Available(d.chain, wish, c.tags).Some? && ByAddr(st.s.live, wish) == |st.s.live|
        && Reserved(st.configs, wish) == |st.configs|;
    }
  }

  // A DISCOVER is answered with an offer of that address, unless the client is to be
  // ignored or there is no such address, or no context for it.
  lemma OfferExact(set_: Settings, st: Server, d: Packet)
    requires DistinctAddrs(st.s.live) && d.kind == Discover
    ensures var st0 := Expire(st, d.now);
      var c := Identify(set_, st0, d);
      var r := Step(set_, st, d).1;
      && (r.Offer? || r.Silent?)
      && (r.Offer? ==> !Malformed(d) && !c.ignored && AddressFor(st0, d, c, r.addr) && Placed(d.chain, r.addr, c.tags))
      && (r.Silent? && !Malformed(d) && d.chain != [] && !c.ignored ==>
            forall a :: AddressFor(st0, d, c, a) ==> !Placed(d.chain, a, c.tags))
  {
    hide Identify, OfferAddr, Prune, AddressFor, Placed, Narrow, CalcTime, LeaseOf, DistinctAddrs;
    var st0 := Expire(st, d.now);
    var c := Identify(set_, st0, d);
    ExpireDistinct(st, d.now);
    if !Malformed(d) && d.chain != [] {
      OfferAddrIs(st0, d, c);
      var a := OfferAddr(st0, d, c);
      if a.Some? {
        GivenAwayMeans(d.chain, a.v, c.tags);
        OnlyAddress(st0, d, c, a.v);
      }
    }
  }

  lemma OnlyAddress(st: Server, d: Packet, c: Client, a: nat)
    requires AddressFor(st, d, c, a)
    ensures forall b :: AddressFor(st, d, c, b) ==> b == a
  {
  }

  // ---------- REQUEST ----------

  // The address a REQUEST is about: the one it asks for, or the one it uses.
  function Asked(q: Packet): nat {
    if q.requested.Some? then q.requested.v else q.ciaddr
  }

  // The client answers an offer: it asks for the address and names a server.
  predicate Selects(q: Packet) {
    q.requested.Some? && q.server.Some?
  }

  // The packet is for this server: the one it names is this one, in one of the contexts or
  // as the relay told; or it names none, and the client has a lease here or this server is
  // the only one.
  predicate ForUs(set_: Settings, c: Client, q: Packet) {
    if Selects(q) then
      if q.override != 0 then q.server.v == q.override
      else exists j :: 0 <= j < |q.chain| && q.chain[j].local == q.server.v
    else q.requested.None? || c.lease.Some? || set_.authoritative
  }

  // The contexts looked at: from the first one that has the address of the server named.
  function Looked(q: Packet): seq<Context> {
    if Selects(q) && q.override == 0 then q.chain[FirstLocal(q.chain, q.server.v)..] else q.chain
  }

  // Another address is reserved for the client, and waits for it.
  predicate OtherWaits(st: Server, q: Packet, c: Client, a: nat) {
    && !Selects(q) && c.config.Some? && c.config.v < |st.configs| && st.configs[c.config.v].addr.Some?
    && var b := st.configs[c.config.v].addr.v;
      && b != a && !TakenByOther(st, c, b) && Looked(q) != [] && Looked(q)[0].router != b
      && (st.configs[c.config.v].declined.Some? ==> q.now > st.configs[c.config.v].declined.v + 600)
  }

  // A lease for the client: the one it has on the address, or in place of another one, or
  // a new one.
  predicate HasSlot(st: Server, q: Packet, c: Client, a: nat) {
    Owns(st, c, a) || (q.room && (c.lease.Some? || st.s.left > 0))
  }

  // Why the address is refused is true of it.
  predicate Holds(set_: Settings, st: Server, q: Packet, c: Client, why: Reason) {
    var a := Asked(q);
    match why
    case WrongAddress => q.requested.Some? && !Selects(q) && c.lease.Some? && !Owns(st, c, a)
    case LeaseNotFound => q.requested.None? && !Owns(st, c, a) && (c.lease.Some? || !set_.authoritative)
    case WrongNetwork => !Placed(Looked(q), a, c.tags)
    case NotAvailable => !GivenAway(Looked(q), a, c.tags) && !ReservedFor(st, c, a)
    case StaticAvailable => OtherWaits(st, q, c, a)
    case ReservedElsewhere => ReservedForOther(st.configs, c.config, a)
    case InUse => TakenByOther(st, c, a)
    case NoUniqueId => c.emac == []
    case NoLeasesLeft => !HasSlot(st, q, c, a)
  }

  // The same, for the table and the lease at hand when the address is looked at.
  predicate HoldsOf(st: Server, q: Packet, c: Client, lease: Option<nat>, chain: seq<Context>, a: nat, why: Reason)
    requires c.config.Some? ==> c.config.v < |st.configs|
  {
    match why
    case WrongNetwork => !Placed(chain, a, c.tags)
    case NotAvailable => !GivenAway(chain, a, c.tags) && !ReservedFor(st, c, a)
    case StaticAvailable =>
      !Selects(q) && ConfAddr(st, c).Some? && ConfAddr(st, c).v != a && !LeasedToOther(st.s, lease, ConfAddr(st, c).v)
      && chain != [] && chain[0].router != ConfAddr(st, c).v
      && (st.configs[c.config.v].declined.Some? ==> q.now > st.configs[c.config.v].declined.v + 600)
    case ReservedElsewhere => ReservedForOther(st.configs, c.config, a)
    case InUse => LeasedToOther(st.s, lease, a)
    case NoUniqueId => c.emac == []
    case NoLeasesLeft => lease.None? && (st.s.left == 0 || !q.room)
    case _ => false
  }

  lemma ConcludeTold(set_: Settings, st: Server, q: Packet, c: Client, lease: Option<nat>, chain: seq<Context>, a: nat)
    requires chain != [] && OneRouter(chain) && (c.config.Some? ==> c.config.v < |st.configs|)
    requires lease.Some? ==> lease.v < |st.s.live|
    ensures var r := Conclude(set_, st, q, c, lease, chain, a, Selects(q)).1;
      && (r.Ack? || r.Nak?) && (r.Ack? ==> r.addr == a)
      && (r.Nak? ==> HoldsOf(st, q, c, lease, chain, a, r.reason))
      && (r.Ack? ==> forall why :: !HoldsOf(st, q, c, lease, chain, a, why))
  {
    hide Narrow, Available, LeasedToOther, Reserved, Commit, CalcTime, OneRouter, Placed, GivenAway;
    GivenAwayMeans(chain, a, c.tags);
    if Narrow(chain, a, c.tags).Some? {
      NarrowedAvailable(chain, a, c.tags);
    }
  }

  lemma WaitsMeans(st: Server, q: Packet, c: Client, a: nat)
    requires DistinctAddrs(st.s.live) && ClientOk(st, q, c)
    ensures OtherWaits(st, q, c, a) <==> HoldsOf(st, q, c, c.lease, Looked(q), a, StaticAvailable)
  {
    hide LeasedToOther, TakenByOther, LeaseOf;
    if ConfAddr(st, c).Some? {
      TakenMeans(st, c, ConfAddr(st, c).v);
    }
  }

  // With the client's own lease at hand.
  lemma KeptTold(set_: Settings, st: Server, q: Packet, c: Client, a: nat, why: Reason)
    requires DistinctAddrs(st.s.live) && ClientOk(st, q, c) && a == Asked(q)
    requires c.lease.Some? ==> Owns(st, c, a)
    ensures HoldsOf(st, q, c, c.lease, Looked(q), a, why) <==>
        Holds(set_, st, q, c, why) && why != WrongAddress && why != LeaseNotFound
  {
    hide LeasedToOther, TakenByOther, LeaseOf, OtherWaits, Placed, GivenAway, Looked;
    TakenMeans(st, c, a);
    WaitsMeans(st, q, c, a);
  }

  // The client's other lease has been ended first.
  lemma SquashedTold(set_: Settings, st: Server, q: Packet, c: Client, a: nat, why: Reason)
    requires DistinctAddrs(st.s.live) && ClientOk(st, q, c) && a == Asked(q) && Current(st.s, q.now) && Selects(q)
    requires c.lease.Some? && !Owns(st, c, a)
    ensures HoldsOf(Squash(st, c.lease.v, q.now), q, c, None, Looked(q), a, why) <==> Holds(set_, st, q, c, why)
  {
    hide LeasedToOther, LeaseOf, Placed, GivenAway, Looked, HasAddr, Prune;
    var st' := Squash(st, c.lease.v, q.now);
    SquashFrees(st, c.lease.v, q.now);
    SquashDistinct(st, c.lease.v, q.now);
    LeasedMeans(st', None, a);
    SquashKeeps(st, c.lease.v, q.now, a);
  }

  lemma SquashKeeps(st: Server, i: nat, now: nat, a: nat)
    requires i < |st.s.live| && Current(st.s, now) && st.s.live[i].addr != a
    ensures HasAddr(Squash(st, i, now).s.live, a) <==> HasAddr(st.s.live, a)
  {
    KeptIsFilter(st.s.live, Some(st.s.live[i].addr), now);
    HasAddrMembers(st.s.live, a);
    HasAddrMembers(Squash(st, i, now).s.live, a);
  }

  // A REQUEST is ACKed exactly if it is for this server and nothing speaks against it; a NAK
  // gives a reason that is true.
  lemma RequestTold(set_: Settings, st: Server, q: Packet, c: Client)
    requires ClientOk(st, q, c) && DistinctAddrs(st.s.live) && Current(st.s, q.now) && OneRouter(q.chain)
    requires q.kind == Request
    ensures var r := OnRequest(set_, st, q, c).1;
      && (r.Silent? <==> c.ignored || !ForUs(set_, c, q))
      && (r.Silent? || r.Ack? || r.Nak?) && (r.Ack? ==> r.addr == Asked(q))
      && (r.Nak? ==> Holds(set_, st, q, c, r.reason))
      && (r.Ack? ==> forall why :: !Holds(set_, st, q, c, why))
  {
    hide Conclude, Prune, LeaseOf, OneRouter, DistinctAddrs, Holds, HoldsOf;
    var a := Asked(q);
    if !c.ignored && ForUs(set_, c, q) {
      LookedIs(q);
      if c.lease.Some? && !Owns(st, c, a) {
        if Selects(q) {
          ConcludeTold(set_, Squash(st, c.lease.v, q.now), q, c, None, Looked(q), a);
          forall why
            ensures HoldsOf(Squash(st, c.lease.v, q.now), q, c, None, Looked(q), a, why) <==> Holds(set_, st, q, c, why)
          {
            SquashedTold(set_, st, q, c, a, why);
          }
        } else {
          NotOwnTold(set_, st, q, c);
        }
      } else if c.lease.None? && q.requested.None? && !set_.authoritative {
        NotOwnTold(set_, st, q, c);
      } else {
        ConcludeTold(set_, st, q, c, c.lease, Looked(q), a);
        forall why
          ensures HoldsOf(st, q, c, c.lease, Looked(q), a, why) <==>
            Holds(set_, st, q, c, why) && why != WrongAddress && why != LeaseNotFound
        {
          KeptTold(set_, st, q, c, a, why);
        }
        NeitherTold(set_, st, q, c);
      }
    }
  }

  lemma LookedIs(q: Packet)
    requires q.chain != [] && OneRouter(q.chain)
    requires Selects(q) && q.override == 0 ==> exists j :: 0 <= j < |q.chain| && q.chain[j].local == q.server.v
    ensures Looked(q) != [] && OneRouter(Looked(q))
    ensures !(Selects(q) && q.override == 0) ==> Looked(q) == q.chain == q.chain[0..]
    ensures Selects(q) && q.override == 0 ==>
      FirstLocal(q.chain, q.server.v) < |q.chain| && Looked(q) == q.chain[FirstLocal(q.chain, q.server.v)..]
  {
  }

  lemma NotOwnTold(set_: Settings, st: Server, q: Packet, c: Client)
    requires ClientOk(st, q, c) && !Selects(q) && !Owns(st, c, Asked(q)) && q.kind == Request
    requires c.lease.Some? || (q.requested.None? && !set_.authoritative)
    ensures Holds(set_, st, q, c, if q.requested.Some? then WrongAddress else LeaseNotFound)
  {
  }

  lemma NeitherTold(set_: Settings, st: Server, q: Packet, c: Client)
    requires ClientOk(st, q, c) && (c.lease.Some? ==> Owns(st, c, Asked(q)))
    requires c.lease.Some? || q.requested.Some? || set_.authoritative
    ensures !Holds(set_, st, q, c, WrongAddress) && !Holds(set_, st, q, c, LeaseNotFound)
  {
  }

  // The whole step, for a client as it is identified.
  lemma RequestAnswered(set_: Settings, st: Server, q: Packet)
    requires DistinctAddrs(st.s.live) && OneRouter(q.chain) && q.kind == Request
    ensures var st0 := Expire(st, q.now);
      var c := Identify(set_, st0, q);
      var r := Step(set_, st, q).1;
      && (r.Silent? <==> Malformed(q) || q.chain == [] || c.ignored || !ForUs(set_, c, q))
      && (r.Silent? || r.Ack? || r.Nak?) && (r.Ack? ==> r.addr == Asked(q))
      && (r.Nak? ==> Holds(set_, st0, q, c, r.reason))
      && (r.Ack? ==> forall why :: !Holds(set_, st0, q, c, why))
  {
    hide Identify, OnRequest, Prune, DistinctAddrs, OneRouter, Holds, ForUs;
    ExpireDistinct(st, q.now);
    ExpireCurrent(st, q.now);
    if !Malformed(q) && q.chain != [] {
      RequestTold(set_, Expire(st, q.now), q, Identify(set_, Expire(st, q.now), q));
    }
  }

  // ---------- INFORM ----------

  // An INFORM is answered exactly if the client is not ignored and has an address on one of
  // the networks; no lease is made.
  lemma InformAnswered(set_: Settings, st: Server, p: Packet)
    requires p.kind == Inform
    ensures var st0 := Expire(st, p.now);
      var c := Identify(set_, st0, p);
      var (st1, r) := Step(set_, st, p);
      && (r == InformAck(p.ciaddr) || r.Silent?)
      && (r.InformAck? <==>
            && !Malformed(p) && p.chain != [] && !c.ignored && p.requested.None? && p.ciaddr != 0
            && Placed(p.chain, p.ciaddr, c.tags))
      && |st1.s.live| == |st0.s.live| && st1.s.left == st0.s.left && st1.configs == st0.configs
  {
    hide Identify, Prune, Narrow, Placed;
    GivenAwayMeans(p.chain, p.ciaddr, Identify(set_, Expire(st, p.now), p).tags);
  }
}
