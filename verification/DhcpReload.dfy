// What the server leases can be written to the lease file, whatever the packets are, and
// is read again unless a client goes by a single blank.
module DhcpReload {
  import opened Optional
  import opened LeaseTable
  import opened LeaseEvents
  import opened LeaseText
  import opened LeaseFile
  import LeaseRuns
  import DnsEncode
  import opened DhcpConfig
  import opened DhcpAllocate
  import opened DhcpProtocol
  import opened DhcpSafety

  const ADDRS: nat := 0x1_0000_0000

  // ---------- leases that can be saved ----------

  predicate HwOk(hw: Hw) {
    hw.Hw? && 0 <= hw.kind < 256 && IsBytes(hw.bytes) && |hw.bytes| <= LeaseText.CHADDR_MAX
    && (hw.kind == 0 ==> hw.bytes == [])
  }

  predicate ClidOk(clid: seq<nat>) {
    IsBytes(clid) && |clid| <= CLID_MAX
  }

  predicate NameOk(name: Option<string>) {
    name.Some? ==> GoodName(name.v)
  }

  // All but the hardware address, which a new lease does not have yet.
  predicate Partly(l: Lease) {
    l.addr < ADDRS && ClidOk(l.clid) && NameOk(l.hostname)
  }

  predicate AllStored(ls: seq<Lease>) {
    forall i :: 0 <= i < |ls| ==> Partly(ls[i]) && HwOk(ls[i].hw)
  }

  predicate StoredBut(ls: seq<Lease>, k: nat) {
    forall i :: 0 <= i < |ls| ==> Partly(ls[i]) && (i != k ==> HwOk(ls[i].hw))
  }

  // A packet as the network can bring it: its fields are bytes and 32-bit numbers, and
  // names have passed canonicalise.
  predicate Wire(p: Packet) {
    && 0 <= p.hwKind < 256 && IsBytes(p.hwBytes) && ClidOk(p.clid) && p.ciaddr < ADDRS
    && (p.requested.Some? ==> p.requested.v < ADDRS) && (p.choice.Some? ==> p.choice.v < ADDRS)
    && (p.clientName == Some("") || NameOk(p.clientName)) && NameOk(p.dnsName)
  }

  predicate GoodHosts(configs: seq<Config>) {
    forall i :: 0 <= i < |configs| ==> NameOk(configs[i].name) && (configs[i].addr.Some? ==> configs[i].addr.v < ADDRS)
  }

  // ---------- the changes of one packet ----------

  lemma PruneStored(s: Leases, target: Option<nat>, now: nat)
    requires AllStored(s.live)
    ensures AllStored(Prune(s, target, now).live)
  {
    hide Partly, HwOk;
    var k := Kept(s.live, target, now);
    KeptIsFilter(s.live, target, now);
    forall i | 0 <= i < |k|
      ensures Partly(k[i]) && HwOk(k[i].hw)
    {
      assert k[i] in s.live;
    }
  }

  lemma AllocateStored(s: Leases, a: nat)
    requires AllStored(s.live) && a < ADDRS && s.left > 0
    ensures StoredBut(Allocate(s, a, true).live, 0)
  {
    hide HwOk;
    var r := Allocate(s, a, true).live;
    assert forall i :: 0 < i < |r| ==> r[i] == s.live[i - 1];
  }

  lemma SetHwaddrStored(s: Leases, i: nat, hw: Hw, clid: seq<nat>, room: bool)
    requires i < |s.live| && StoredBut(s.live, i) && HwOk(hw) && ClidOk(clid)
    ensures AllStored(SetHwaddr(s, i, hw, clid, room).live)
  {
    hide NameOk, HwOk;
  }

  lemma SetHostnameStored(s: Leases, i: nat, name: Option<string>, auth: bool, room: bool)
    requires i < |s.live| && AllStored(s.live) && NameOk(name)
    ensures AllStored(SetHostname(s, i, name, auth, room).live) &&
        |SetHostname(s, i, name, auth, room).live| == |s.live|
  {
    hide ClidOk, HwOk, GoodName, SameName;
  }

  lemma FinishStored(s: Leases, i: nat, time: nat, now: nat, iface: int)
    requires i < |s.live| && AllStored(s.live)
    ensures AllStored(SetInterface(SetExpires(s, i, time, now), i, iface).live)
  {
    hide ClidOk, HwOk, NameOk;
  }

  lemma InterfaceStored(s: Leases, i: nat, iface: int)
    requires i < |s.live| && AllStored(s.live)
    ensures AllStored(SetInterface(s, i, iface).live)
  {
    hide ClidOk, HwOk, NameOk;
  }

  lemma CompleteStored(s: Leases, i: nat, p: Packet, name: Option<string>, auth: bool, time: nat)
    requires i < |s.live| && AllStored(s.live) && NameOk(name)
    ensures AllStored(Complete(s, i, p, name, auth, time).live)
  {
    hide AllStored, SetHostname, SetExpires, SetInterface;
    SetHostnameStored(s, i, name, auth, p.room);
    FinishStored(s, i, time, p.now, p.iface);
    FinishStored(SetHostname(s, i, name, auth, p.room), i, time, p.now, p.iface);
  }

  lemma ChangedStored(s: Leases, i: nat, really: bool)
    requires i < |s.live| && StoredBut(s.live, i)
    ensures StoredBut(SetChanged(s, i, really).live, i)
  {
    hide ClidOk, HwOk, NameOk;
  }

  lemma AssignStored(s: Leases, p: Packet, c: Client, lease: Option<nat>, a: nat)
    requires (lease.Some? ==> lease.v < |s.live|) && (lease.None? ==> s.left > 0)
    requires AllStored(s.live) && HwOk(PacketHw(p)) && ClidOk(c.stored) && a < ADDRS
    ensures AllStored(Assign(s, p, c, lease, a).live)
  {
    hide HwOk, Partly, Allocate, SetHwaddr;
    if lease.None? {
      AllocateStored(s, a);
      AllocatedOne(s, a);
    }
    var s1 := if lease.Some? then s else Allocate(s, a, true);
    var i := if lease.Some? then lease.v else 0;
    ChangedStored(s1, i, p.requested.Some? || lease.None?);
    SetHwaddrStored(SetChanged(s1, i, p.requested.Some? || lease.None?), i, PacketHw(p), c.stored, p.room);
  }

  lemma AllocatedOne(s: Leases, a: nat)
    requires s.left > 0
    ensures |Allocate(s, a, true).live| == |s.live| + 1
  {
  }

  lemma CommitStored(set_: Settings, s: Leases, p: Packet, c: Client, lease: Option<nat>, a: nat, time: nat,
                     ctx: Context)
    requires (lease.Some? ==> lease.v < |s.live|) && (lease.None? ==> s.left > 0)
    requires AllStored(s.live) && HwOk(PacketHw(p)) && ClidOk(c.stored) && NameOk(c.name) && NameOk(p.dnsName)
    requires a < ADDRS
    ensures AllStored(Commit(set_, s, p, c, lease, a, time, ctx).live)
  {
    hide AllStored, Assign, Complete, NamesIgnored, HwOk, ClidOk;
    AssignStored(s, p, c, lease, a);
    var i := if lease.Some? then lease.v else 0;
    var auth := c.auth || p.dnsName.Some?;
    CompleteStored(Assign(s, p, c, lease, a), i, p, p.dnsName, auth, time);
    CompleteStored(Assign(s, p, c, lease, a), i, p, c.name, auth, time);
    CompleteStored(Assign(s, p, c, lease, a), i, p, None, auth, time);
  }

  lemma BootpCommitStored(s: Leases, p: Packet, config: Option<Config>, i: nat)
    requires i < |s.live| && StoredBut(s.live, i) && HwOk(PacketHw(p))
    requires config.Some? ==> NameOk(config.v.name)
    ensures AllStored(BootpCommit(s, p, config, i).live)
  {
    hide SetHwaddr, SetHostname, SetExpires, SetInterface, HwOk, AllStored, StoredBut;
    SetHwaddrStored(s, i, PacketHw(p), [], p.room);
    var s1 := SetHwaddr(s, i, PacketHw(p), [], p.room);
    var time := if config.Some? && config.v.leaseTime.Some? then config.v.leaseTime.v else FOREVER;
    HwaddrSize(s, i, PacketHw(p), p.room);
    FinishStored(s1, i, time, p.now, p.iface);
    if config.Some? {
      SetHostnameStored(s1, i, config.v.name, true, p.room);
      FinishStored(SetHostname(s1, i, config.v.name, true, p.room), i, time, p.now, p.iface);
    }
  }

  lemma HwaddrSize(s: Leases, i: nat, hw: Hw, room: bool)
    requires i < |s.live|
    ensures |SetHwaddr(s, i, hw, [], room).live| == |s.live|
  {
  }

  // ---------- the messages ----------

  // What is known of the client of a packet.
  predicate ClientStores(st: Server, p: Packet, c: Client) {
    ClientOk(st, p, c) && ClidOk(c.stored) && NameOk(c.name)
  }

  lemma IdentifyStores(set_: Settings, st: Server, p: Packet)
    requires p.chain != [] && Wire(p) && AllStored(st.s.live) && GoodHosts(st.configs)
    ensures ClientStores(st, p, Identify(set_, st, p))
  {
    assert ClidOk([]);
    hide LeaseOf, FirstConfig, ConfigOf, Ignores, GoodName, IsBytes;
    var i := LeaseOf(st.s, p);
    if i.Some? {
      assert Partly(st.s.live[i.v]);
    }
  }

  lemma ConcludeStored(set_: Settings, st: Server, p: Packet, c: Client, lease: Option<nat>, chain: seq<Context>,
      a: nat,
                       selecting: bool)
    requires chain != [] && (c.config.Some? ==> c.config.v < |st.configs|) && (lease.Some? ==> lease.v < |st.s.live|)
    requires AllStored(st.s.live) && HwOk(PacketHw(p)) && ClidOk(c.stored) && NameOk(c.name) && NameOk(p.dnsName)
    requires a < ADDRS
    ensures AllStored(Conclude(set_, st, p, c, lease, chain, a, selecting).0.s.live)
  {
    hide Commit, CalcTime, AllStored, HwOk, ClidOk, NameOk;
    if Refusal(st, p, c, lease, chain, a, selecting).None? {
      var ctx := chain[Narrow(chain, a, c.tags).v];
      CommitStored(set_, st.s, p, c, lease, a, CalcTime(ctx, ConfigAt(st, c.config), p.reqTime), ctx);
    }
  }

  lemma RequestStored(set_: Settings, st: Server, p: Packet, c: Client)
    requires ClientStores(st, p, c) && Wire(p) && HwOk(PacketHw(p)) && AllStored(st.s.live)
    ensures AllStored(OnRequest(set_, st, p, c).0.s.live)
  {
    hide Conclude, Prune, AllStored, HwOk, ClidOk, NameOk, LeaseOf;
    var k := if p.override != 0 || p.server.None? then 0 else FirstLocal(p.chain, p.server.v);
    assert p.chain[0..] == p.chain;
    forall lease: Option<nat>, j: nat, a: nat, selecting: bool, s: Server |
      && j < |p.chain| && s.configs == st.configs && AllStored(s.s.live) && (lease.Some? ==> lease.v < |s.s.live|)
      && a < ADDRS
      ensures AllStored(Conclude(set_, s, p, c, lease, p.chain[j..], a, selecting).0.s.live)
    {
      ConcludeStored(set_, s, p, c, lease, p.chain[j..], a, selecting);
    }
    if c.lease.Some? {
      PruneStored(st.s, Some(st.s.live[c.lease.v].addr), p.now);
    }
  }

  lemma OthersStored(set_: Settings, st: Server, p: Packet, c: Client)
    requires ClientStores(st, p, c) && AllStored(st.s.live)
    ensures AllStored(OnDecline(st, p, c).0.s.live)
    ensures AllStored(OnRelease(st, p, c).0.s.live)
    ensures AllStored(OnInform(st, p, c).0.s.live)
  {
    hide Prune, AllStored, ClidOk, NameOk, Narrow, SetInterface, Ciaddr;
    if c.lease.Some? {
      PruneStored(st.s, Some(st.s.live[c.lease.v].addr), p.now);
    }
    var i := if c.lease.Some? then c.lease.v else ByAddr(st.s.live, Ciaddr(p));
    if i < |st.s.live| {
      InterfaceStored(st.s, i, p.iface);
    }
  }

  // ---------- BOOTP ----------

  // The address BOOTP finds is on some context, so no lease is left half made.
  lemma BootpNarrows(set_: Settings, st: Server, p: Packet, config: Option<nat>, tags: set<string>)
    requires config.Some? ==> config.v < |st.configs| && OnChain(p.chain, st.configs[config.v])
    requires p.choice.Some? ==> exists i :: 0 <= i < |p.chain| && Serves(p.chain[i], p.choice.v, tags)
    requires p.choice.Some? ==> !IsRouter(p.chain, p.choice.v)
    ensures var b := BootpChoice(set_, st, p, config, tags);
      b.NeedsLease? ==> Narrow(p.chain, b.addr, tags).Some?
  {
    hide Serves, SameNet, Prune;
    var b := BootpChoice(set_, st, p, config, tags);
    if b.NeedsLease? {
      NarrowFails(p.chain, b.addr, tags);
    }
  }

  lemma BootpChoiceStored(set_: Settings, st: Server, p: Packet, config: Option<nat>, tags: set<string>)
    requires AllStored(st.s.live) && Wire(p) && GoodHosts(st.configs) && (config.Some? ==> config.v < |st.configs|)
    ensures var b := BootpChoice(set_, st, p, config, tags);
      AllStored(b.s.live) && (b.NeedsLease? ==> b.addr < ADDRS)
  {
    hide AllStored, Prune, Available, ClidOk, NameOk, IsBytes;
    var i := ByClient(st.s.live, PacketHw(p), []);
    if i < |st.s.live| {
      PruneStored(st.s, Some(st.s.live[i].addr), p.now);
    }
  }

  lemma StoredIsBut(ls: seq<Lease>, k: nat)
    requires AllStored(ls)
    ensures StoredBut(ls, k)
  {
    hide Partly, HwOk;
  }

  lemma BootpStored(set_: Settings, st: Server, p: Packet)
    requires p.chain != [] && AllStored(st.s.live) && Wire(p) && GoodHosts(st.configs) && HwOk(PacketHw(p))
    requires var tags := BootpTags(st, p, FindConfig(st.configs, p.chain, [], PacketHw(p), None));
      p.choice.Some? ==>
        !IsRouter(p.chain, p.choice.v) && exists i :: 0 <= i < |p.chain| && Serves(p.chain[i], p.choice.v, tags)
    ensures AllStored(OnBootp(set_, st, p).0.s.live)
  {
    hide BootpCommit, BootpChoice, Prune, Ignores, Narrow, Serves, AllStored, StoredBut, HwOk, Wire, IsRouter, Allocate;
    hide NameOk, OnChain;
    var config := FindConfig(st.configs, p.chain, [], PacketHw(p), None);
    var tags := BootpTags(st, p, config);
    hide FindConfig, BootpTags;
    var b := BootpChoice(set_, st, p, config, tags);
    BootpNarrows(set_, st, p, config, tags);
    BootpChoiceStored(set_, st, p, config, tags);
    if b.NeedsLease? && b.s.left > 0 {
      AllocateStored(b.s, b.addr);
      AllocatedOne(b.s, b.addr);
      BootpCommitStored(Allocate(b.s, b.addr, true), p, ConfigAt(st, config), 0);
    } else if b.HasLease? {
      StoredIsBut(b.s.live, b.i);
      BootpCommitStored(b.s, p, ConfigAt(st, config), b.i);
    }
  }

  lemma ChoiceServes(set_: Settings, st: Server, p: Packet)
    requires p.kind == Bootp && Legit(set_, st, p)
    ensures var st0 := Expire(st, p.now);
      var tags := BootpTags(st0, p, FindConfig(st0.configs, p.chain, [], PacketHw(p), None));
      p.choice.Some? ==>
        !IsRouter(p.chain, p.choice.v) && exists i :: 0 <= i < |p.chain| && Serves(p.chain[i], p.choice.v, tags)
  {
    hide Serves, Prune, FindConfig, BootpTags;
  }

  // ---------- runs ----------

  lemma StepStored(set_: Settings, st: Server, p: Packet)
    requires AllStored(st.s.live) && Wire(p) && GoodHosts(st.configs) && Legit(set_, st, p)
    ensures AllStored(Step(set_, st, p).0.s.live)
  {
    hide OnBootp, OnRequest, OnDecline, OnRelease, OnInform, OnDiscover, Identify, Prune, AllStored, BootpTags;
    hide GoodHosts, FindConfig, Legit, IsRouter, Serves, ClientStores;
    PruneStored(st.s, None, p.now);
    var st0 := Expire(st, p.now);
    if !Malformed(p) && p.chain != [] {
      if p.kind == Bootp {
        ChoiceServes(set_, st, p);
        BootpStored(set_, st0, p);
      } else {
        IdentifyStores(set_, st0, p);
        RequestStored(set_, st0, p, Identify(set_, st0, p));
        OthersStored(set_, st0, p, Identify(set_, st0, p));
      }
    }
  }

  // Only a declined address changes a host configuration.
  lemma StepHosts(set_: Settings, st: Server, p: Packet)
    requires GoodHosts(st.configs)
    ensures GoodHosts(Step(set_, st, p).0.configs)
  {
    hide OnDiscover, Prune, Narrow, Refusal, Commit, CalcTime, FirstLocal, BootpChoice, BootpCommit, Ignores, Allocate;
    hide LeaseOf, FirstConfig, ConfigOf, SetInterface, NameOk, FindConfig, BootpTags;
  }

  predicate AllWire(ps: seq<Packet>) {
    forall i :: 0 <= i < |ps| ==> Wire(ps[i])
  }

  lemma {:induction false} EveryRunStored(set_: Settings, st: Server, ps: seq<Packet>)
    requires AllStored(st.s.live) && GoodHosts(st.configs) && AllWire(ps) && LegitRun(set_, st, ps)
    ensures AllStored(Run(set_, st, ps).s.live)
    decreases |ps|
  {
    hide Step, AllStored, GoodHosts, Wire, Legit;
    if ps != [] {
      StepStored(set_, st, ps[0]);
      StepHosts(set_, st, ps[0]);
      assert forall i :: 0 <= i < |ps[1..]| ==> ps[1..][i] == ps[i + 1];
      EveryRunStored(set_, Step(set_, st, ps[0]).0, ps[1..]);
    }
  }

  lemma TableParts(s: Leases, max: nat)
    requires TableInv(s, max)
    ensures DistinctNames(s.live) && |s.live| <= max
  {
  }

  predicate NoBlankName(ls: seq<Lease>) {
    forall i :: 0 <= i < |ls| ==> ls[i].hostname != Some(" ")
  }

  lemma StoredReturn(ls: seq<Lease>)
    requires AllStored(ls)
    ensures AllSaveable(EntriesOf(ls)) && (AllReturn(EntriesOf(ls)) <==> NoBlankName(ls))
  {
    hide IsBytes, GoodName;
    forall i | 0 <= i < |ls|
      ensures Saveable(EntriesOf(ls)[i]) && (Returns(EntriesOf(ls)[i]) <==> ls[i].hostname != Some(" "))
    {
      assert Partly(ls[i]) && HwOk(ls[i].hw);
    }
  }

  // The leases can be saved, the file reads as the same entries exactly if no client goes
  // by a single blank, and loading the entries makes the same leases, in reverse order.
  predicate Reloads(ls: seq<Lease>, max: nat) {
    && AllSaveable(EntriesOf(ls)) && |ls| <= max
    && (Entries(Words(Save(EntriesOf(ls)))) == EntriesOf(ls) <==> NoBlankName(ls))
    && EntriesOf(LoadAll(LeaseRuns.Start(max).s, EntriesOf(ls)).live) == Reversed(EntriesOf(ls))
  }

  lemma StoredReload(ls: seq<Lease>, max: nat)
    requires AllStored(ls) && DistinctNames(ls) && |ls| <= max
    ensures Reloads(ls, max)
  {
    hide Words, Entries, Save, LoadAll, AllSaveable, DistinctNames, EntriesOf, AllStored, AllReturn, NoBlankName;
    StoredReturn(ls);
    SaveAndLoad(ls, max);
  }

  // After any run of packets the lease file gives the leases back.
  lemma ServedLeasesReload(set_: Settings, st: Server, ps: seq<Packet>, max: nat)
    requires TableInv(st.s, max) && AllStored(st.s.live) && GoodHosts(st.configs)
    requires AllWire(ps) && LegitRun(set_, st, ps)
    ensures Reloads(Run(set_, st, ps).s.live, max)
  {
    hide Run, LegitRun, Reloads, AllStored, TableInv, DistinctNames, GoodHosts, AllWire;
    EveryRunStored(set_, st, ps);
    EveryRunSafe(set_, st, ps, max);
    TableParts(Run(set_, st, ps).s, max);
    StoredReload(Run(set_, st, ps).s.live, max);
  }

  // A client can go by a blank: canonicalise lets the name " .x" pass, and without its
  // domain it is a blank. It is lost when the lease is saved.
  lemma BlankNameLost(e: LeaseFile.Entry)
    requires Saveable(e) && e.name == Some(" ")
    ensures DnsEncode.LabelsOk(" .x", 0) && " .x"[2] == 'x' && " .x"[..DnsEncode.FirstDot(" .x")] == " "
    ensures ParseFields(Fields(e)) != e && ParseFields(Fields(e)).name == None
  {
    FieldsRoundTrip(e);
    assert " .x"[1..] == ".x" && ".x"[1..] == "x" && "x"[1..] == "";
  }
}
