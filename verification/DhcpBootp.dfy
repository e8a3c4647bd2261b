// BOOTP: which requests are answered, with which address, and what lease is kept for it.
module DhcpBootp {
  import opened Optional
  import opened LeaseTable
  import opened LeaseEvents
  import opened DhcpConfig
  import opened DhcpProtocol
  import opened DhcpSafety
  import opened DhcpAllocate
  import opened DhcpAnswers
  import opened DhcpReplies

  // The first lease of the hardware address has no other one like it in front.
  predicate FirstOfHw(ls: seq<Lease>, hw: Hw, i: nat) {
    i < |ls| && HwMatch(ls[i], hw, []) && forall j :: 0 <= j < i ==> !HwMatch(ls[j], hw, [])
  }

  predicate Configured(st: Server, config: Option<nat>) {
    config.Some? && config.v < |st.configs| && st.configs[config.v].addr.Some?
  }

  // The address is reserved for the client, and no other client's lease is on it.
  predicate ByReservation(st: Server, p: Packet, config: Option<nat>, a: nat) {
    && Configured(st, config) && st.configs[config.v].addr == Some(a)
    && forall l :: l in st.s.live && l.addr == a ==> l.hw == PacketHw(p)
  }

  // A client without a reservation, where such clients are served: the address of its lease
  // as long as a range has it, or else the free one found.
  ghost predicate ByRange(set_: Settings, st: Server, p: Packet, config: Option<nat>, tags: set<string>, a: nat) {
    && !Configured(st, config) && set_.bootpDynamic
    && if exists i: nat :: (FirstOfHw(st.s.live, PacketHw(p), i) && GivenAway(p.chain, st.s.live[i].addr, tags))
       then exists i: nat :: (FirstOfHw(st.s.live, PacketHw(p), i) && st.s.live[i].addr == a)
       else p.choice == Some(a)
  }

  ghost predicate AddressIs(set_: Settings, st: Server, p: Packet, config: Option<nat>, tags: set<string>, a: nat) {
    ByReservation(st, p, config, a) || ByRange(set_, st, p, config, tags, a)
  }

  // There is a lease to use: one on the address, or a free slot; a client in the wrong range
  // gives up its old lease first.
  ghost predicate SlotFor(st: Server, p: Packet, config: Option<nat>, a: nat) {
    || HasAddr(st.s.live, a)
    || (p.room && (st.s.left > 0
         || (!Configured(st, config) && exists i: nat :: FirstOfHw(st.s.live, PacketHw(p), i))))
  }

  predicate Silenced(set_: Settings, st: Server, p: Packet, config: Option<nat>, tags: set<string>) {
    || p.hwKind == 0 || p.hwBytes == []
    || (config.Some? && config.v < |st.configs| && st.configs[config.v].disabled) || Ignores(set_.ignore, tags)
  }

  // A lease of the client on the address: for ever, unless its host configuration sets a time.
  predicate Kept(st: Server, p: Packet, config: Option<nat>, s: Leases, a: nat) {
    exists i :: (0 <= i < |s.live| && s.live[i].addr == a && s.live[i].hw == PacketHw(p)
      && s.live[i].expires == BootpEnd(st, config, p.now) && s.live[i].lastInterface == p.iface)
  }

  function BootpEnd(st: Server, config: Option<nat>, now: nat): nat {
    if config.Some? && config.v < |st.configs| && st.configs[config.v].leaseTime.Some?
    then LeaseEnd(st.configs[config.v].leaseTime.v, now) else 0
  }

  lemma FirstIs(ls: seq<Lease>, hw: Hw)
    ensures var i := ByClient(ls, hw, []); forall k: nat :: FirstOfHw(ls, hw, k) <==> k == i && i < |ls|
  {
    hide HwMatch;
    NoClid(ls);
    var i := ByClient(ls, hw, []);
    forall k: nat | FirstOfHw(ls, hw, k)
      ensures k == i
    {
    }
  }

  lemma {:induction false} NoClid(ls: seq<Lease>)
    ensures ByClid(ls, []) == |ls|
  {
    if ls != [] {
      NoClid(ls[1..]);
    }
  }

  // What bootp's choice of an address says.
  ghost predicate ChoiceIs(set_: Settings, st: Server, p: Packet, config: Option<nat>, tags: set<string>,
                           b: BootpLease) {
    match b
    case NoAddress(_) => forall a: nat :: !AddressIs(set_, st, p, config, tags, a)
    case HasLease(_, _, a) => OnlyAddress(set_, st, p, config, tags, a) && HasAddr(st.s.live, a)
    case NeedsLease(s, a) =>
      && OnlyAddress(set_, st, p, config, tags, a) && !HasAddr(st.s.live, a)
      && (p.room && s.left > 0 <==> SlotFor(st, p, config, a))
  }

  ghost predicate OnlyAddress(set_: Settings, st: Server, p: Packet, config: Option<nat>, tags: set<string>, a: nat) {
    forall x: nat :: AddressIs(set_, st, p, config, tags, x) <==> x == a
  }

  lemma ReservedChoice(set_: Settings, st: Server, p: Packet, config: Option<nat>, tags: set<string>, max: nat)
    requires TableInv(st.s, max) && Configured(st, config)
    ensures ChoiceIs(set_, st, p, config, tags, BootpChoice(set_, st, p, config, tags))
  {
    hide DistinctNames, GivenAway;
    var a := st.configs[config.v].addr.v;
    var i := ByAddr(st.s.live, a);
    if i < |st.s.live| {
      assert st.s.live[i] in st.s.live;
    }
  }

  // With a lease that a range still has.
  lemma LeasedChoice(set_: Settings, st: Server, p: Packet, config: Option<nat>, tags: set<string>, i: nat)
    requires (config.Some? ==> config.v < |st.configs|) && !Configured(st, config) && set_.bootpDynamic
    requires i == ByClient(st.s.live, PacketHw(p), []) < |st.s.live| && GivenAway(p.chain, st.s.live[i].addr, tags)
    ensures ChoiceIs(set_, st, p, config, tags, BootpChoice(set_, st, p, config, tags))
  {
    hide GivenAway, Available, FirstOfHw, ByClient;
    FirstIs(st.s.live, PacketHw(p));
    GivenAwayMeans(p.chain, st.s.live[i].addr, tags);
    assert FirstOfHw(st.s.live, PacketHw(p), i);
  }

  // With an address found for the packet.
  lemma FoundChoice(set_: Settings, st: Server, p: Packet, config: Option<nat>, tags: set<string>, max: nat)
    requires TableInv(st.s, max) && Current(st.s, p.now) && p.kind == Bootp
    requires (config.Some? ==> config.v < |st.configs|) && !Configured(st, config) && set_.bootpDynamic
    requires var i := ByClient(st.s.live, PacketHw(p), []);
      i < |st.s.live| ==> !GivenAway(p.chain, st.s.live[i].addr, tags)
    requires p.choice.Some? ==> Free(p.chain, AllocTable(set_, st, p).live, st.configs, tags, p.choice.v)
    ensures ChoiceIs(set_, st, p, config, tags, BootpChoice(set_, st, p, config, tags))
  {
    hide GivenAway, Available, FirstOfHw, ByClient, Prune, HasAddr, Without, Free, TableInv;
    var i := ByClient(st.s.live, PacketHw(p), []);
    FirstIs(st.s.live, PacketHw(p));
    if p.choice.Some? {
      FreeMeans(p.chain, AllocTable(set_, st, p).live, st.configs, tags, p.choice.v);
    }
    if i < |st.s.live| {
      assert FirstOfHw(st.s.live, PacketHw(p), i);
      GivenAwayMeans(p.chain, st.s.live[i].addr, tags);
      SquashWithout(st, i, p.now, max);
      WithoutLeft(st.s, Squash(st, i, p.now).s, st.s.live[i].addr);
      if p.choice.Some? && p.choice.v != st.s.live[i].addr && HasAddr(st.s.live, p.choice.v) {
        SquashKeepsOthers(st, i, p.now, p.choice.v);
      }
    }
  }

  lemma WithoutLeft(s: Leases, t: Leases, a: nat)
    requires Without(s, t, a)
    ensures t.left == s.left + 1
  {
  }

  lemma FreeMeans(chain: seq<Context>, live: seq<Lease>, configs: seq<Config>, tags: set<string>, a: nat)
    requires Free(chain, live, configs, tags, a)
    ensures GivenAway(chain, a, tags) && !HasAddr(live, a)
  {
    hide Serves;
  }

  lemma BootpChoiceIs(set_: Settings, st: Server, p: Packet, config: Option<nat>, tags: set<string>, max: nat)
    requires TableInv(st.s, max) && Current(st.s, p.now) && p.kind == Bootp
    requires config.Some? ==> config.v < |st.configs|
    requires p.choice.Some? ==> Free(p.chain, AllocTable(set_, st, p).live, st.configs, tags, p.choice.v)
    ensures ChoiceIs(set_, st, p, config, tags, BootpChoice(set_, st, p, config, tags))
  {
    hide TableInv, Current, ChoiceIs, Free, GivenAway, BootpDynamic, ByClient;
    if Configured(st, config) {
      ReservedChoice(set_, st, p, config, tags, max);
    } else if set_.bootpDynamic {
      var i := ByClient(st.s.live, PacketHw(p), []);
      if i < |st.s.live| && GivenAway(p.chain, st.s.live[i].addr, tags) {
        LeasedChoice(set_, st, p, config, tags, i);
      } else {
        FoundChoice(set_, st, p, config, tags, max);
      }
    } else {
      NothingElse(set_, st, p, config, tags);
    }
  }

  lemma NothingElse(set_: Settings, st: Server, p: Packet, config: Option<nat>, tags: set<string>)
    requires (config.Some? ==> config.v < |st.configs|) && !Configured(st, config) && !set_.bootpDynamic
    ensures ChoiceIs(set_, st, p, config, tags, BootpChoice(set_, st, p, config, tags))
  {
  }

  lemma CommitKept(st: Server, p: Packet, config: Option<nat>, s: Leases, i: nat, max: nat)
    requires TableInv(s, max) && i < |s.live| && (config.Some? ==> config.v < |st.configs|)
    ensures Kept(st, p, config, BootpCommit(s, p, ConfigAt(st, config), i), s.live[i].addr)
  {
    hide TableInv, BootpCommit;
    BootpCommitEffect(s, p, ConfigAt(st, config), i, max);
    assert BootpCommit(s, p, ConfigAt(st, config), i).live[i].addr == s.live[i].addr;
  }

  // The whole answer, for the choice made.
  lemma OnBootpIs(set_: Settings, st: Server, p: Packet, max: nat)
    requires TableInv(st.s, max) && Current(st.s, p.now) && p.kind == Bootp && p.chain != []
    requires Legal(set_, st, p)
    ensures BootpTold(set_, st, p, OnBootp(set_, st, p).0.s, OnBootp(set_, st, p).1)
  {
    hide TableInv, Current, ChoiceIs, Free, Placed, BootpChoice, FindConfig, BootpTags, BootpCommit, Narrow, Kept;
    hide AddressIs, SlotFor, HasAddr, Ignores, Allocate;
    var (config, tags) := ConfigAndTags(st, p);
    if p.choice.Some? {
      FreeMeans(p.chain, AllocTable(set_, st, p).live, st.configs, tags, p.choice.v);
    }
    BootpChoiceIs(set_, st, p, config, tags, max);
    BootpChoiceSafe(set_, st, p, config, tags, max);
    var b := BootpChoice(set_, st, p, config, tags);
    ChoiceMeans(set_, st, p, config, tags, b);
    if !b.NoAddress? {
      GivenAwayMeans(p.chain, b.addr, tags);
      if b.HasLease? {
        CommitKept(st, p, config, b.s, b.i, max);
      } else if b.s.left > 0 {
        AllocateTable(b.s, b.addr, max);
        CommitKept(st, p, config, Allocate(b.s, b.addr, true), 0, max);
      }
    }
  }

  lemma ChoiceMeans(set_: Settings, st: Server, p: Packet, config: Option<nat>, tags: set<string>, b: BootpLease)
    requires ChoiceIs(set_, st, p, config, tags, b)
    ensures b.NoAddress? ==> forall a: nat :: !AddressIs(set_, st, p, config, tags, a)
    ensures !b.NoAddress? ==> forall a: nat :: AddressIs(set_, st, p, config, tags, a) <==> a == b.addr
    ensures b.HasLease? ==> SlotFor(st, p, config, b.addr)
    ensures b.NeedsLease? ==> (p.room && b.s.left > 0 <==> SlotFor(st, p, config, b.addr))
  {
    hide AddressIs, HasAddr;
  }

  function ConfigAndTags(st: Server, p: Packet): (r: (Option<nat>, set<string>))
    ensures r.0.Some? ==> r.0.v < |st.configs|
  {
    var config := FindConfig(st.configs, p.chain, [], PacketHw(p), None);
    (config, BootpTags(st, p, config))
  }

  // A request is answered exactly if there is an address for the client, a lease for it and
  // a context that can take it; the client then has the lease.
  ghost predicate BootpTold(set_: Settings, st: Server, p: Packet, s: Leases, r: Reply) {
    var (config, tags) := ConfigAndTags(st, p);
    && (r.BootpReply? || r.Silent?)
    && (r.BootpReply? ==> AddressIs(set_, st, p, config, tags, r.addr) && Kept(st, p, config, s, r.addr))
    && (forall a: nat :: AddressIs(set_, st, p, config, tags, a) ==>
          (r == BootpReply(a) <==>
            !Silenced(set_, st, p, config, tags) && SlotFor(st, p, config, a) && Placed(p.chain, a, tags)))
  }

  predicate Legal(set_: Settings, st: Server, p: Packet) {
    p.choice.Some? ==>
      Free(p.chain, AllocTable(set_, st, p).live, st.configs, ConfigAndTags(st, p).1, p.choice.v)
  }

  lemma BootpAnswered(set_: Settings, st: Server, p: Packet, max: nat)
    requires TableInv(st.s, max) && Legit(set_, st, p) && p.kind == Bootp && !Malformed(p) && p.chain != []
    ensures BootpTold(set_, Expire(st, p.now), p, Step(set_, st, p).0.s, Step(set_, st, p).1)
  {
    hide TableInv, BootpTold, OnBootp, Prune, Free, FindConfig, BootpTags, AllocTable;
    PruneTable(st.s, None, p.now, max);
    ExpireCurrent(st, p.now);
    OnBootpIs(set_, Expire(st, p.now), p, max);
  }
}
