// Packets for which an offer is not kept, a client sent away does not get the address that
// waits for it, or a lease is not found again.
module DhcpCases {
  import opened Optional
  import opened LeaseTable
  import opened LeaseEvents
  import opened DhcpConfig
  import opened DhcpProtocol
  import opened DhcpSafety
  import opened DhcpRenewal
  import opened DhcpAgreement

  // One network, with the addresses 1 to 4 to give away and the server at 9.
  const NET: Context := Context(1, 4, 0xffffff00, 9, 9, false, [], None, 100, 0)

  const SETTINGS: Settings := Settings(false, false, [], [])

  // A lease of the address to hardware address 1 of type 1, and one host configuration.
  function Table(a: nat, clid: seq<nat>, host: Config): Server {
    Server(Leases([Lease(a, Hw(1, [1]), clid, 10, None, None, false, false, false, false, 0)], [], 10, false, false),
        [host])
  }

  function ClidHost(a: nat): Config {
    Config(Some([7]), None, None, Some(a), false, None, None, false, None)
  }

  function HwHost(a: nat): Config {
    Config(None, Some(HwPattern(1, [2], 0)), None, Some(a), false, None, None, false, None)
  }

  // A packet from hardware address 1 without client-id.
  function Sent(kind: Kind, ciaddr: nat, requested: Option<nat>, server: Option<nat>, now: nat): Packet {
    Packet(kind, 1, [1], [], ciaddr, requested, server, 0, None, [NET], {}, None, None, None, 0, now, None, true)
  }

  lemma Nets()
    ensures SameNet(5, 1, 0xffffff00) && SameNet(6, 1, 0xffffff00)
  {
  }

  lemma OneHost(c: Config, k: Key)
    ensures Pass([c], [NET], k) == if DhcpConfig.Fits(c, [NET], k) then 0 else 1
  {
    assert [c][1..] == [];
  }

  // Without lease and client-id the host configured for a client-id is not found.
  lemma ClidHostFound(a: nat, clid: seq<nat>, p: Packet)
    requires (a == 5 || a == 6) && p.hwKind == 1 && p.hwBytes == [1] && p.chain == [NET] && p.clientName.None?
    ensures ConfigOf([ClidHost(a)], p, clid) == if clid == [7] || clid == [0, 7] then Some(0) else None
  {
    var h := ClidHost(a);
    Nets();
    assert OnChain([NET], h) by { assert SameNet(a, [NET][0].start, [NET][0].netmask); }
    OneHost(h, ClidKey(clid));
    OneHost(h, HwKey(Hw(1, [1]), false));
    OneHost(h, NameKey(None));
    OneHost(h, HwKey(Hw(1, [1]), true));
  }

  lemma OneLease(l: Lease, now: nat)
    ensures Kept([l], None, now) == if Expired(l, now) then [] else [l]
    ensures Gone([l], None, now) == if Expired(l, now) then [l] else []
  {
    assert [l][1..] == [];
  }

  lemma FoundByHw(l: Lease)
    requires l.hw == Hw(1, [1])
    ensures ByClient([l], Hw(1, [1]), []) == 0
  {
  }

  function Empty(a: nat, host: Config): Server {
    Server(Leases([], Table(a, [7], host).s.live, 11, true, false), [host])
  }

  lemma RunsOut(a: nat, host: Config, clid: seq<nat>)
    ensures Expire(Table(a, clid, host), 10) == Table(a, clid, host)
    ensures Expire(Table(a, [7], host), 11) == Empty(a, host)
  {
    hide Kept, Gone;
    OneLease(Table(a, clid, host).s.live[0], 10);
    OneLease(Table(a, [7], host).s.live[0], 11);
  }

  predicate FromOne(p: Packet) {
    && p.hwKind == 1 && p.hwBytes == [1] && p.clid == [] && p.chain == [NET] && p.tags == {}
    && p.clientName.None? && p.override == 0
  }

  lemma KnownClient(a: nat, r: nat, p: Packet)
    requires (r == 5 || r == 6) && FromOne(p)
    ensures var c := Identify(SETTINGS, Table(a, [7], ClidHost(r)), p);
      c.lease == Some(0) && c.config == Some(0) && c.emac == [1] && !c.ignored
  {
    ClidHostFound(r, [7], p);
    FoundByHw(Table(a, [7], ClidHost(r)).s.live[0]);
  }

  lemma UnknownClient(a: nat, r: nat, p: Packet)
    requires (r == 5 || r == 6) && FromOne(p)
    ensures var c := Identify(SETTINGS, Empty(a, ClidHost(r)), p);
      c.lease == None && c.config == None && c.emac == [1] && !c.ignored
  {
    ClidHostFound(r, [], p);
  }

  // The range does not have 5 and 6, but they are on its network.
  lemma OnTheNet(a: nat, tags: set<string>)
    requires 1 <= a <= 6
    ensures Narrow([NET], a, tags) == Some(0) && (Available([NET], a, tags) == if a < 5 then Some(0) else None)
  {
    Nets();
    assert [NET][1..] == [];
  }

  lemma OffersReserved(p: Packet)
    requires p == Sent(Discover, 0, None, None, 10)
    ensures Step(SETTINGS, Table(5, [7], ClidHost(5)), p) == (Table(5, [7], ClidHost(5)), Offer(5, 9, 100))
  {
    RunsOut(5, ClidHost(5), [7]);
    KnownClient(5, 5, p);
    hide Identify, Narrow, Available, Prune;
    OnTheNet(5, Identify(SETTINGS, Table(5, [7], ClidHost(5)), p).tags);
  }

  lemma RefusesForgotten(p: Packet)
    requires p == Sent(Request, 0, Some(5), Some(9), 11)
    ensures Step(SETTINGS, Table(5, [7], ClidHost(5)), p).1 == Nak(NotAvailable)
  {
    RunsOut(5, ClidHost(5), [7]);
    UnknownClient(5, 5, p);
    hide Identify, Narrow, Available, Prune;
    OnTheNet(5, Identify(SETTINGS, Empty(5, ClidHost(5)), p).tags);
    assert p.chain[0..] == p.chain;
  }

  // The client is offered its lease's address as the one reserved for the client-id that
  // the lease stores. When the lease has run out the client-id is forgotten, and the
  // REQUEST is refused.
  lemma ForgottenOffer()
    ensures var st, d := Table(5, [7], ClidHost(5)), Sent(Discover, 0, None, None, 10);
      var q := Sent(Request, 0, Some(5), Some(9), 11);
      && DistinctAddrs(st.s.live) && Legit(SETTINGS, st, d) && OneRouter(d.chain)
      && Step(SETTINGS, st, d) == (st, Offer(5, 9, 100)) && Asks(d, q, 5, 9)
      && Step(SETTINGS, st, q).1 == Nak(NotAvailable)
  {
    hide Step, Legit;
    OffersReserved(Sent(Discover, 0, None, None, 10));
    RefusesForgotten(Sent(Request, 0, Some(5), Some(9), 11));
    NoChoice(Table(5, [7], ClidHost(5)), Sent(Discover, 0, None, None, 10));
  }

  lemma NoChoice(st: Server, p: Packet)
    requires p.choice.None?
    ensures Legit(SETTINGS, st, p)
  {
  }

  lemma ReservedWaits(p: Packet)
    requires p == Sent(Request, 4, None, None, 10)
    ensures Step(SETTINGS, Table(4, [7], ClidHost(6)), p) == (Table(4, [7], ClidHost(6)), Nak(StaticAvailable))
    ensures Reservation(SETTINGS, Table(4, [7], ClidHost(6)), p) == Some(6)
  {
    RunsOut(4, ClidHost(6), [7]);
    KnownClient(4, 6, p);
    hide Identify, Narrow, Available, Prune;
    OnTheNet(4, Identify(SETTINGS, Table(4, [7], ClidHost(6)), p).tags);
  }

  lemma OffersAnother(p: Packet)
    requires p == Sent(Discover, 0, None, None, 11).(choice := Some(1))
    ensures Step(SETTINGS, Table(4, [7], ClidHost(6)), p).1 == Offer(1, 9, 100)
    ensures Legit(SETTINGS, Table(4, [7], ClidHost(6)), p)
  {
    RunsOut(4, ClidHost(6), [7]);
    UnknownClient(4, 6, p);
    assert Serves([NET][0], 1, Identify(SETTINGS, Empty(4, ClidHost(6)), p).tags);
    hide Identify, Narrow, Available, Prune;
    OnTheNet(1, Identify(SETTINGS, Empty(4, ClidHost(6)), p).tags);
  }

  // A renewing client without client-id is refused its address, because another is reserved
  // for the client-id that its lease stores. When the lease has run out before it asks, it
  // is offered some address, but not the reserved one.
  lemma ForgottenReservation()
    ensures var st, q := Table(4, [7], ClidHost(6)), Sent(Request, 4, None, None, 10);
      var d := Sent(Discover, 0, None, None, 11).(choice := Some(1));
      && DistinctAddrs(st.s.live) && UniqueReservations(st.configs) && NoNullReservation(st.configs)
      && SameClient(q, d) && Legit(SETTINGS, st, d)
      && Step(SETTINGS, st, q) == (st, Nak(StaticAvailable)) && Reservation(SETTINGS, st, q) == Some(6)
      && Step(SETTINGS, st, d).1 == Offer(1, 9, 100)
  {
    hide Step, Reservation, Legit;
    ReservedWaits(Sent(Request, 4, None, None, 10));
    OffersAnother(Sent(Discover, 0, None, None, 11).(choice := Some(1)));
  }

  // The client's present lease is offered although another host has it reserved, and the
  // REQUEST is refused.
  lemma ReservedOffer()
    ensures var st, d := Table(4, [], HwHost(4)), Sent(Discover, 0, None, None, 10);
      var q := Sent(Request, 0, Some(4), Some(9), 10);
      && DistinctAddrs(st.s.live) && Legit(SETTINGS, st, d) && OneRouter(d.chain)
      && Step(SETTINGS, st, d) == (st, Offer(4, 9, 100)) && Asks(d, q, 4, 9)
      && Step(SETTINGS, st, q).1 == Nak(ReservedElsewhere)
  {
    var st, d := Table(4, [], HwHost(4)), Sent(Discover, 0, None, None, 10);
    var q := Sent(Request, 0, Some(4), Some(9), 10);
    RunsOut(4, HwHost(4), []);
    OtherHost(d);
    OtherHost(q);
    hide Identify, Narrow, Available, Prune;
    OnTheNet(4, Identify(SETTINGS, st, d).tags);
    assert q.chain[0..] == q.chain;
  }

  lemma OtherHost(p: Packet)
    requires FromOne(p)
    ensures var c := Identify(SETTINGS, Table(4, [], HwHost(4)), p);
      c.lease == Some(0) && c.config == None && c.emac == [1] && !c.ignored && c.tags == {}
  {
    var h := HwHost(4);
    OneHost(h, ClidKey([]));
    OneHost(h, HwKey(Hw(1, [1]), false));
    OneHost(h, NameKey(None));
    OneHost(h, HwKey(Hw(1, [1]), true));
    FoundByHw(Table(4, [], h).s.live[0]);
  }

  // ---------- a lease that is not found again ----------

  const FIREWIRE: seq<nat> := [1, 2, 3, 4]

  // A host known by its client-id, which is not to be stored.
  const HOST: Config := Config(Some(FIREWIRE), None, None, None, false, None, None, true, None)

  const TABLE: Server := Server(Leases([], [], 10, false, false), [HOST])

  // It has no hardware address.
  const ASKING: Packet :=
    Packet(Request, 24, [], FIREWIRE, 0, Some(1), Some(9), 0, None, [NET], {}, None, None, None, 0, 10, None, true)

  lemma AskingIs()
    ensures var c := Identify(SETTINGS, TABLE, ASKING);
      c.lease == None && c.config == Some(0) && c.stored == [] && c.emac == FIREWIRE && !c.ignored
  {
    OneHost(HOST, ClidKey(FIREWIRE));
  }

  lemma AskingGets()
    ensures Step(SETTINGS, TABLE, ASKING).1 == Ack(1, 100)
  {
    AskingIs();
    assert Expire(TABLE, 10) == TABLE;
    hide Identify, Narrow, Available, Prune, Commit;
    OnTheNet(1, Identify(SETTINGS, TABLE, ASKING).tags);
    assert ASKING.chain[0..] == ASKING.chain;
    assert Reserved(TABLE.configs, 1) == 1;
  }

  // The client is given a lease, and has none when it asks again.
  lemma NotFoundAgain()
    ensures var (st, r) := Step(SETTINGS, TABLE, ASKING); r == Ack(1, 100) && !Finds(st.s, ASKING, 1)
  {
    AskingGets();
    AskingIs();
    assert Expire(TABLE, 10) == TABLE;
    hide Step, Identify, Finds, Prune;
    NoChoice(TABLE, ASKING);
    StepFound(SETTINGS, TABLE, ASKING, 10);
  }
}
