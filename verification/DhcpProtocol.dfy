// What dhcp_reply of rfc2131.c decides for one packet, over the lease table and the host
// configurations. A packet is what the option reader hands over: the tags of vendor and
// user classes, the names, the chain of contexts and the outcome of address_allocate
// (whose pings go over the network) are part of it.
module DhcpProtocol {
  import opened Optional
  import opened LeaseTable
  import opened DhcpConfig
  import opened DhcpAllocate

  datatype Kind = Bootp | Discover | Request | Decline | Release | Inform | Other

  datatype Packet = Packet(kind: Kind, hwKind: int, hwBytes: seq<nat>, clid: seq<nat>, ciaddr: nat,
                           requested: Option<nat>, server: Option<nat>, override: nat, reqTime: Option<nat>,
                           chain: seq<Context>, tags: set<string>, bootFile: Option<string>,
                           clientName: Option<string>, dnsName: Option<string>, iface: int,
                           now: nat, choice: Option<nat>, room: bool)

  datatype Settings = Settings(authoritative: bool, bootpDynamic: bool,
                               ignore: seq<seq<string>>, ignoreNames: seq<seq<string>>)

  datatype Server = Server(s: Leases, configs: seq<Config>)

  datatype Reason =
    | WrongAddress | LeaseNotFound | WrongNetwork | NotAvailable | StaticAvailable
    | ReservedElsewhere | InUse | NoUniqueId | NoLeasesLeft

  datatype Reply =
    | Silent
    | Offer(addr: nat, server: nat, time: nat)
    | Ack(addr: nat, time: nat)
    | Nak(reason: Reason)
    | InformAck(addr: nat)
    | BootpReply(addr: nat)

  const CHADDR_MAX: nat := 16

  function PacketHw(p: Packet): Hw {
    Hw(p.hwKind, p.hwBytes)
  }

  predicate Malformed(p: Packet) {
    |p.hwBytes| > CHADDR_MAX || (p.hwKind == 0 && p.hwBytes != [])
  }

  // A client address is not believed when the packet asks for an address.
  function Ciaddr(p: Packet): nat {
    if p.requested.Some? || p.kind == Discover then 0 else p.ciaddr
  }

  // extended_hwaddr: firewire has no hardware address, but a client-id instead. 27 and
  // 24 are the hardware types EUI64 and IEEE1394.
  function Emac(hw: Hw, clid: seq<nat>): seq<nat>
    requires hw.Hw?
  {
    if hw.bytes == [] && |clid| > 3 then
      if clid[0] == hw.kind || (clid[0] == 27 && hw.kind == 24) then clid[1..] else clid
    else hw.bytes
  }

  function ServerId(c: Context, override: nat): nat {
    if override != 0 then override else c.local
  }

  function CalcTime(c: Context, config: Option<Config>, req: Option<nat>): nat {
    var time := if config.Some? && config.v.leaseTime.Some? then config.v.leaseTime.v else c.leaseTime;
    if req.None? then time
    else
      var r := if req.v < 120 then 120 else req.v;
      if time == FOREVER || (r != FOREVER && r < time) then r else time
  }

  // ---------- who is asking ----------

  // lease and config are indices; clid is the client-id in use, stored is the one that
  // goes into the lease.
  datatype Client = Client(lease: Option<nat>, clid: seq<nat>, stored: seq<nat>, emac: seq<nat>, config: Option<nat>,
                           tags: set<string>, name: Option<string>, auth: bool, ignored: bool)

  function Known(config: Option<nat>): set<string> {
    if config.Some? then {"known"} else {}
  }

  function ConfigTag(configs: seq<Config>, config: Option<nat>): set<string>
    requires config.Some? ==> config.v < |configs|
  {
    if config.Some? && configs[config.v].netid.Some? then {configs[config.v].netid.v} else {}
  }

  predicate Ignores(lists: seq<seq<string>>, tags: set<string>) {
    exists i :: 0 <= i < |lists| && MatchNetid(lists[i], tags, false)
  }

  function LeaseOf(s: Leases, p: Packet): (r: Option<nat>)
    ensures r.Some? ==> r.v < |s.live|
  {
    var i := ByClient(s.live, PacketHw(p), p.clid);
    if i < |s.live| then Some(i) else None
  }

  function FirstConfig(configs: seq<Config>, p: Packet, clid: seq<nat>): (r: Option<nat>)
    ensures r.Some? ==> r.v < |configs| && OnChain(p.chain, configs[r.v])
  {
    FindConfig(configs, p.chain, clid, PacketHw(p), None)
  }

  // The host configuration, looked for again by name when there is none yet.
  function ConfigOf(configs: seq<Config>, p: Packet, clid: seq<nat>): (r: Option<nat>)
    ensures r.Some? ==> r.v < |configs| && OnChain(p.chain, configs[r.v])
  {
    var first := FirstConfig(configs, p, clid);
    if first.Some? || p.clientName.None? || p.clientName.v == "" then first
    else
      var second := FindConfig(configs, p.chain, [], PacketHw(p), p.clientName);
      if second.Some? && configs[second.v].clid.None? && configs[second.v].hw.None? then second else None
  }

  function Identify(set_: Settings, st: Server, p: Packet): (c: Client)
    ensures c.lease == LeaseOf(st.s, p)
    ensures c.config.Some? ==> c.config.v < |st.configs| && OnChain(p.chain, st.configs[c.config.v])
  {
    var lease := LeaseOf(st.s, p);
    var clid := if lease.Some? && p.clid == [] then st.s.live[lease.v].clid else p.clid;
    var config := ConfigOf(st.configs, p, clid);
    var tags := p.tags + Known(config) + ConfigTag(st.configs, config);
    var first := FirstConfig(st.configs, p, clid);
    var named := first.Some? && st.configs[first.v].name.Some?;
    Client(lease, clid,
           if config.Some? && st.configs[config.v].noClid then [] else clid,
           Emac(PacketHw(p), clid), config, tags,
           if named then st.configs[first.v].name
           else if p.clientName.Some? && p.clientName.v != "" then p.clientName else None,
           named,
           Ignores(set_.ignore, tags) || (config.Some? && st.configs[config.v].disabled))
  }

  function ConfigAt(st: Server, config: Option<nat>): Option<Config>
    requires config.Some? ==> config.v < |st.configs|
  {
    if config.Some? then Some(st.configs[config.v]) else None
  }

  // The address reserved for the client, if any.
  function ConfAddr(st: Server, c: Client): Option<nat>
    requires c.config.Some? ==> c.config.v < |st.configs|
  {
    if c.config.Some? then st.configs[c.config.v].addr else None
  }

  // ---------- DISCOVER ----------

  predicate LeasedToOther(s: Leases, lease: Option<nat>, a: nat) {
    var i := ByAddr(s.live, a); i < |s.live| && Some(i) != lease
  }

  // The reserved address, unless somebody else has it, the server or relay is using it,
  // or the client declined it a short while ago.
  function StaticOffer(st: Server, p: Packet, c: Client): Option<nat>
    requires p.chain != [] && (c.config.Some? ==> c.config.v < |st.configs|)
  {
    var a := ConfAddr(st, c);
    if a.None? || LeasedToOther(st.s, c.lease, a.v) || p.chain[0].router == a.v then None
    else
      var d := st.configs[c.config.v].declined;
      if (d.Some? && p.now < d.v + DECLINE_BACKOFF) || a.v == 0 then None else a
  }

  function OfferAddr(st: Server, p: Packet, c: Client): Option<nat>
    requires p.chain != [] && (c.config.Some? ==> c.config.v < |st.configs|)
    requires c.lease.Some? ==> c.lease.v < |st.s.live|
  {
    var conf := StaticOffer(st, p, c);
    if conf.Some? then conf
    else if c.lease.Some? && Available(p.chain, st.s.live[c.lease.v].addr, c.tags).Some? then
        Some(st.s.live[c.lease.v].addr)
    else if p.requested.Some? && Available(p.chain, p.requested.v, c.tags).Some?
         && ByAddr(st.s.live, p.requested.v) == |st.s.live| && Reserved(st.configs, p.requested.v) == |st.configs| then
             p.requested
    else if c.emac == [] then None
    else p.choice
  }

  function OnDiscover(st: Server, p: Packet, c: Client): Reply
    requires p.chain != [] && (c.config.Some? ==> c.config.v < |st.configs|)
    requires c.lease.Some? ==> c.lease.v < |st.s.live|
  {
    if c.ignored then Silent
    else
      var a := OfferAddr(st, p, c);
      if a.None? then Silent
      else
        var n := Narrow(p.chain, a.v, c.tags);
        if n.None? then Silent
        else Offer(a.v, ServerId(p.chain[n.v], p.override), CalcTime(p.chain[n.v], ConfigAt(st, c.config), p.reqTime))
  }

  // ---------- REQUEST ----------

  function FirstLocal(chain: seq<Context>, a: nat): (r: nat)
    ensures r <= |chain|
    ensures r < |chain| ==> chain[r].local == a
    ensures forall k :: 0 <= k < r ==> chain[k].local != a
  {
    if |chain| == 0 || chain[0].local == a then 0 else 1 + FirstLocal(chain[1..], a)
  }

  // Why the client may not have address a, if it may not.
  function Refusal(st: Server, p: Packet, c: Client, lease: Option<nat>, chain: seq<Context>, a: nat,
                   selecting: bool): Option<Reason>
    requires chain != [] && (c.config.Some? ==> c.config.v < |st.configs|)
  {
    var conf := ConfAddr(st, c);
    var n := Narrow(chain, a, c.tags);
    var own := Reserved(st.configs, a);
    if n.None? then Some(WrongNetwork)
    else if Available([chain[n.v]], a, c.tags).None? && conf != Some(a) then Some(NotAvailable)
    else if !selecting && conf.Some? && chain[0].router != conf.v
         && (st.configs[c.config.v].declined.None? || p.now > st.configs[c.config.v].declined.v + DECLINE_BACKOFF)
         && conf.v != a && !LeasedToOther(st.s, lease, conf.v) then Some(StaticAvailable)
    else if own < |st.configs| && Some(own) != c.config then Some(ReservedElsewhere)
    else if LeasedToOther(st.s, lease, a) then Some(InUse)
    else if c.emac == [] then Some(NoUniqueId)
    else if lease.None? && (st.s.left == 0 || !p.room) then Some(NoLeasesLeft)
    else None
  }

  function SetChanged(s: Leases, i: nat, really: bool): Leases
    requires i < |s.live|
  {
    if really then s.(live := s.live[i := s.live[i].(changed := true)]) else s
  }

  // The lease is found, or made, and given the client.
  function Assign(s: Leases, p: Packet, c: Client, lease: Option<nat>, a: nat): (r: Leases)
    requires lease.Some? ==> lease.v < |s.live|
    requires lease.None? ==> s.left > 0
    ensures |r.live| == if lease.Some? then |s.live| else |s.live| + 1
  {
    var s1 := if lease.Some? then s else Allocate(s, a, true);
    var i := if lease.Some? then lease.v else 0;
    var s2 := SetChanged(s1, i, p.requested.Some? || lease.None?);
    SetHwaddr(s2, i, PacketHw(p), c.stored, p.room)
  }

  // It gets its name, when it ends, and where it was asked for.
  function Complete(s: Leases, i: nat, p: Packet, name: Option<string>, auth: bool, time: nat): Leases
    requires i < |s.live|
  {
    var s1 := if name.Some? then SetHostname(s, i, name, auth, p.room) else s;
    SetInterface(SetExpires(s1, i, time, p.now), i, p.iface)
  }

  // The lease is brought up to date, or made.
  function Commit(set_: Settings, s: Leases, p: Packet, c: Client, lease: Option<nat>, a: nat, time: nat,
                  ctx: Context): Leases
    requires lease.Some? ==> lease.v < |s.live|
    requires lease.None? ==> s.left > 0
  {
    var i := if lease.Some? then lease.v else 0;
    var auth := c.auth || p.dnsName.Some?;
    var tags := c.tags + (if ctx.netid.Some? then {ctx.netid.v} else {});
    var name := if !c.auth && p.dnsName.Some? then p.dnsName
                else if !auth && NamesIgnored(set_, tags) then None else c.name;
    Complete(Assign(s, p, c, lease, a), i, p, name, auth, time)
  }

  predicate NamesIgnored(set_: Settings, tags: set<string>) {
    exists i :: 0 <= i < |set_.ignoreNames| && (set_.ignoreNames[i] == [] || MatchNetid(set_.ignoreNames[i], tags,
        false))
  }

  // The common end of all REQUEST states.
  function Conclude(set_: Settings, st: Server, p: Packet, c: Client, lease: Option<nat>, chain: seq<Context>, a: nat,
                    selecting: bool): (Server, Reply)
    requires chain != [] && (c.config.Some? ==> c.config.v < |st.configs|)
    requires lease.Some? ==> lease.v < |st.s.live|
  {
    var why := Refusal(st, p, c, lease, chain, a, selecting);
    if why.Some? then (st, Nak(why.v))
    else
      var ctx := chain[Narrow(chain, a, c.tags).v];
      var time := CalcTime(ctx, ConfigAt(st, c.config), p.reqTime);
      (st.(s := Commit(set_, st.s, p, c, lease, a, time, ctx)), Ack(a, time))
  }

  function Squash(st: Server, i: nat, now: nat): Server
    requires i < |st.s.live|
  {
    st.(s := Prune(st.s, Some(st.s.live[i].addr), now))
  }

  function Selecting(set_: Settings, st: Server, p: Packet, c: Client): (Server, Reply)
    requires p.chain != [] && p.requested.Some? && p.server.Some? && (c.config.Some? ==> c.config.v < |st.configs|)
    requires c.lease.Some? ==> c.lease.v < |st.s.live|
  {
    var k := if p.override != 0 then 0 else FirstLocal(p.chain, p.server.v);
    if (p.override != 0 && p.server.v != p.override) || k == |p.chain| then (st, Silent)
    else if c.lease.Some? && st.s.live[c.lease.v].addr != p.requested.v then
      Conclude(set_, Squash(st, c.lease.v, p.now), p, c, None, p.chain[k..], p.requested.v, true)
    else Conclude(set_, st, p, c, c.lease, p.chain[k..], p.requested.v, true)
  }

  function InitReboot(set_: Settings, st: Server, p: Packet, c: Client): (Server, Reply)
    requires p.chain != [] && p.requested.Some? && (c.config.Some? ==> c.config.v < |st.configs|)
    requires c.lease.Some? ==> c.lease.v < |st.s.live|
  {
    if c.lease.None? && !set_.authoritative then (st, Silent)
    else if c.lease.Some? && st.s.live[c.lease.v].addr != p.requested.v then
      (Squash(st, c.lease.v, p.now), Nak(WrongAddress))
    else Conclude(set_, st, p, c, c.lease, p.chain, p.requested.v, false)
  }

  function Renewing(set_: Settings, st: Server, p: Packet, c: Client): (Server, Reply)
    requires p.chain != [] && (c.config.Some? ==> c.config.v < |st.configs|)
    requires c.lease.Some? ==> c.lease.v < |st.s.live|
  {
    var a := Ciaddr(p);
    if (c.lease.Some? && a != st.s.live[c.lease.v].addr) || (c.lease.None? && !set_.authoritative) then
        (st, Nak(LeaseNotFound))
    else Conclude(set_, st, p, c, c.lease, p.chain, a, false)
  }

  function OnRequest(set_: Settings, st: Server, p: Packet, c: Client): (Server, Reply)
    requires p.chain != [] && (c.config.Some? ==> c.config.v < |st.configs|)
    requires c.lease.Some? ==> c.lease.v < |st.s.live|
  {
    if c.ignored then (st, Silent)
    else if p.requested.Some? && p.server.Some? then Selecting(set_, st, p, c)
    else if p.requested.Some? then InitReboot(set_, st, p, c)
    else Renewing(set_, st, p, c)
  }

  // ---------- the other messages ----------

  function OnDecline(st: Server, p: Packet, c: Client): (Server, Reply)
    requires p.chain != [] && (c.config.Some? ==> c.config.v < |st.configs|)
    requires c.lease.Some? ==> c.lease.v < |st.s.live|
  {
    if p.server != Some(ServerId(p.chain[0], p.override)) || p.requested.None? then (st, Silent)
    else
      var st1 := if c.lease.Some? && st.s.live[c.lease.v].addr == p.requested.v then Squash(st, c.lease.v, p.now)
          else st;
      if ConfAddr(st, c) == p.requested then
        (st1.(configs := st1.configs[c.config.v := st1.configs[c.config.v].(declined := Some(p.now))]), Silent)
      else (st1, Silent)
  }

  function OnRelease(st: Server, p: Packet, c: Client): (Server, Reply)
    requires p.chain != [] && (c.lease.Some? ==> c.lease.v < |st.s.live|)
  {
    var n := Narrow(p.chain, Ciaddr(p), c.tags);
    if n.None? || p.server != Some(ServerId(p.chain[n.v], p.override)) then (st, Silent)
    else if c.lease.Some? && st.s.live[c.lease.v].addr == Ciaddr(p) then (Squash(st, c.lease.v, p.now), Silent)
    else (st, Silent)
  }

  function OnInform(st: Server, p: Packet, c: Client): (Server, Reply)
    requires p.chain != [] && (c.lease.Some? ==> c.lease.v < |st.s.live|)
  {
    if c.ignored || Ciaddr(p) == 0 || Narrow(p.chain, Ciaddr(p), c.tags).None? then (st, Silent)
    else
      var i := if c.lease.Some? then c.lease.v else ByAddr(st.s.live, Ciaddr(p));
      (if i < |st.s.live| then st.(s := SetInterface(st.s, i, p.iface)) else st, InformAck(Ciaddr(p)))
  }

  // BOOTP has no client-id, and its own tags.
  function BootpTags(st: Server, p: Packet, config: Option<nat>): set<string>
    requires config.Some? ==> config.v < |st.configs|
  {
    p.tags + Known(config) + ConfigTag(st.configs, config) + (if p.bootFile.Some? then {p.bootFile.v}
        else {}) + {"bootp"}
  }

  // The table, the client's lease and its address once one is found.
  datatype BootpLease = NoAddress(s: Leases) | HasLease(s: Leases, i: nat, addr: nat) | NeedsLease(s: Leases, addr: nat)

  function BootpDynamic(st: Server, p: Packet, tags: set<string>): (r: BootpLease)
    ensures r.HasLease? ==> r.i < |r.s.live|
  {
    var i := ByClient(st.s.live, PacketHw(p), []);
    if i < |st.s.live| && Available(p.chain, st.s.live[i].addr, tags).Some? then HasLease(st.s, i, st.s.live[i].addr)
    else
      var s := if i < |st.s.live| then Squash(st, i, p.now).s else st.s;
      if p.choice.None? then NoAddress(s) else NeedsLease(s, p.choice.v)
  }

  function BootpChoice(set_: Settings, st: Server, p: Packet, config: Option<nat>, tags: set<string>): (r: BootpLease)
    requires config.Some? ==> config.v < |st.configs|
    ensures r.HasLease? ==> r.i < |r.s.live|
  {
    if config.Some? && st.configs[config.v].addr.Some? then
      var a := st.configs[config.v].addr.v;
      var i := ByAddr(st.s.live, a);
      if i == |st.s.live| then NeedsLease(st.s, a)
      else if st.s.live[i].hw == PacketHw(p) then HasLease(st.s, i, a)
      else NoAddress(st.s)
    else if !set_.bootpDynamic then NoAddress(st.s)
    else BootpDynamic(st, p, tags)
  }

  function BootpCommit(s: Leases, p: Packet, config: Option<Config>, i: nat): Leases
    requires i < |s.live|
  {
    var s1 := SetHwaddr(s, i, PacketHw(p), [], p.room);
    var s2 := if config.Some? && config.v.name.Some? then SetHostname(s1, i, config.v.name, true, p.room) else s1;
    var time := if config.Some? && config.v.leaseTime.Some? then config.v.leaseTime.v else FOREVER;
    SetInterface(SetExpires(s2, i, time, p.now), i, p.iface)
  }

  function OnBootp(set_: Settings, st: Server, p: Packet): (Server, Reply)
    requires p.chain != []
  {
    var config := FindConfig(st.configs, p.chain, [], PacketHw(p), None);
    var tags := BootpTags(st, p, config);
    if p.hwKind == 0 || p.hwBytes == [] then (st, Silent)
    else if (config.Some? && st.configs[config.v].disabled) || Ignores(set_.ignore, tags) then (st, Silent)
    else
      var b := BootpChoice(set_, st, p, config, tags);
      if b.NoAddress? || (b.NeedsLease? && (b.s.left == 0 || !p.room)) then (st.(s := b.s), Silent)
      else
        var s := if b.NeedsLease? then Allocate(b.s, b.addr, true) else b.s;
        var i := if b.NeedsLease? then 0 else b.i;
        if Narrow(p.chain, b.addr, tags).None? then (st.(s := s), Silent)
        else (st.(s := BootpCommit(s, p, ConfigAt(st, config), i)), BootpReply(b.addr))
  }

  // ---------- one packet ----------

  function Expire(st: Server, now: nat): Server {
    st.(s := Prune(st.s, None, now))
  }

  function Respond(set_: Settings, st: Server, p: Packet): (Server, Reply) {
    if Malformed(p) || p.chain == [] then (st, Silent)
    else if p.kind == Bootp then OnBootp(set_, st, p)
    else
      var c := Identify(set_, st, p);
      match p.kind
      case Discover => (st, OnDiscover(st, p, c))
      case Request => OnRequest(set_, st, p, c)
      case Decline => OnDecline(st, p, c)
      case Release => OnRelease(st, p, c)
      case Inform => OnInform(st, p, c)
      case _ => (st, Silent)
  }

  // dhcp_packet: leases that have run out go first.
  function Step(set_: Settings, st: Server, p: Packet): (Server, Reply) {
    Respond(set_, Expire(st, p.now), p)
  }

  // The table, and the tags, that address_allocate works with.
  function AllocTable(set_: Settings, st: Server, p: Packet): Leases {
    if p.kind == Bootp then
      var i := ByClient(st.s.live, PacketHw(p), []);
      if i < |st.s.live| then Squash(st, i, p.now).s else st.s
    else st.s
  }

  function AllocTags(set_: Settings, st: Server, p: Packet): set<string> {
    if p.kind == Bootp then BootpTags(st, p, FindConfig(st.configs, p.chain, [], PacketHw(p), None))
    else Identify(set_, st, p).tags
  }

  // The choice in the packet is one that address_allocate can have made.
  predicate Legit(set_: Settings, st: Server, p: Packet) {
    p.choice.Some? ==>
      Free(p.chain, AllocTable(set_, Expire(st, p.now), p).live, st.configs, AllocTags(set_, Expire(st, p.now), p),
          p.choice.v)
  }
}
