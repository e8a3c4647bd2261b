// Who a client is taken for: the host configuration that is for it, and clients that are
// not answered.
module DhcpClients {
  import DnsEncode
  import opened HostNames
  import opened Optional
  import opened LeaseTable
  import opened DhcpConfig
  import opened DhcpProtocol

  // ---------- host configurations ----------

  // A host with an address counts only where that is on one of the networks.
  predicate Near(chain: seq<Context>, c: Config) {
    c.addr.None? || exists k :: 0 <= k < |chain| && SameNet(c.addr.v, chain[k].start, chain[k].netmask)
  }

  // The client-id, or the same behind the zero byte that stands for no hardware type.
  predicate ForClid(c: Config, chain: seq<Context>, clid: seq<nat>) {
    Near(chain, c) && |clid| > 0 && (c.clid == Some(clid) || (clid[0] == 0 && c.clid == Some(clid[1..])))
  }

  predicate ForType(c: Config, hw: Hw) {
    c.hw.Some? && hw.Hw? && |c.hw.v.bytes| == |hw.bytes| && (c.hw.v.kind == 0 || c.hw.v.kind == hw.kind)
  }

  predicate ForHardware(c: Config, chain: seq<Context>, hw: Hw) {
    Near(chain, c) && ForType(c, hw) && c.hw.v.wild == 0 && c.hw.v.bytes == hw.bytes
  }

  predicate ForName(c: Config, chain: seq<Context>, name: Option<string>) {
    Near(chain, c) && name.Some? && c.name.Some? && NameEq(c.name.v, name.v)
  }

  // Bit k of a mask, from the lowest on.
  predicate Bit(mask: nat, k: nat) {
    if k == 0 then mask % 2 == 1 else Bit(mask / 2, k - 1)
  }

  // The bytes agree, except where the mask has a one: its last bit is for the last byte.
  predicate ForPattern(c: Config, chain: seq<Context>, hw: Hw) {
    && Near(chain, c) && ForType(c, hw) && c.hw.v.wild != 0
    && forall i :: 0 <= i < |hw.bytes| ==>
         Bit(c.hw.v.wild, |hw.bytes| - 1 - i) || c.hw.v.bytes[i] == hw.bytes[i]
  }

  lemma {:induction false} ShiftIs(m: nat, k: nat)
    ensures ShiftRight(m, k) % 2 == 1 <==> Bit(m, k)
  {
    if k > 0 {
      ShiftIs(m / 2, k - 1);
    }
  }

  // The host is for the client, as far as the key goes.
  predicate Wanted(c: Config, chain: seq<Context>, k: Key) {
    match k
    case ClidKey(clid) => ForClid(c, chain, clid)
    case HwKey(hw, pattern) => if pattern then ForPattern(c, chain, hw) else ForHardware(c, chain, hw)
    case NameKey(name) => ForName(c, chain, name)
  }

  predicate First(cs: seq<Config>, chain: seq<Context>, k: Key, i: nat) {
    i < |cs| && Wanted(cs[i], chain, k) && forall j :: 0 <= j < i ==> !Wanted(cs[j], chain, k)
  }

  predicate Any(cs: seq<Config>, chain: seq<Context>, k: Key) {
    exists j :: 0 <= j < |cs| && Wanted(cs[j], chain, k)
  }

  lemma FitsMeans(c: Config, chain: seq<Context>, clid: seq<nat>, hw: Hw, name: Option<string>)
    ensures Fits(c, chain, ClidKey(clid)) <==> ForClid(c, chain, clid)
    ensures Fits(c, chain, HwKey(hw, false)) <==> ForHardware(c, chain, hw)
    ensures Fits(c, chain, NameKey(name)) <==> ForName(c, chain, name)
  {
    hide SameNet;
  }

  lemma PatternMeans(c: Config, chain: seq<Context>, hw: Hw)
    ensures Fits(c, chain, HwKey(hw, true)) <==> ForPattern(c, chain, hw)
  {
    hide SameNet, ShiftRight, Bit;
    if ForType(c, hw) {
      var a, b, n := c.hw.v.bytes, hw.bytes, |hw.bytes|;
      forall k | 0 <= k < n
        ensures ShiftRight(c.hw.v.wild, k) % 2 == 1 <==> Bit(c.hw.v.wild, k)
      {
        ShiftIs(c.hw.v.wild, k);
      }
      if MaskedEq(a, b, c.hw.v.wild) {
        forall i | 0 <= i < n
          ensures Bit(c.hw.v.wild, n - 1 - i) || a[i] == b[i]
        {
          assert a[|a| - 1 - (n - 1 - i)] == a[i] && b[|a| - 1 - (n - 1 - i)] == b[i];
          assert ShiftRight(c.hw.v.wild, n - 1 - i) % 2 == 1 <==> Bit(c.hw.v.wild, n - 1 - i);
        }
      }
    }
  }

  lemma WantedFits(c: Config, chain: seq<Context>, k: Key)
    ensures Fits(c, chain, k) <==> Wanted(c, chain, k)
  {
    hide ForClid, ForHardware, ForName, ForPattern, ByClidFits, HwFits, NameFits;
    match k
    case ClidKey(clid) => FitsMeans(c, chain, clid, Unset, None);
    case HwKey(hw, pattern) =>
      FitsMeans(c, chain, [], hw, None);
      PatternMeans(c, chain, hw);
    case NameKey(name) => FitsMeans(c, chain, [], Unset, name);
  }

  lemma PassIs(cs: seq<Config>, chain: seq<Context>, k: Key)
    ensures if Any(cs, chain, k) then First(cs, chain, k, Pass(cs, chain, k)) else Pass(cs, chain, k) == |cs|
  {
    hide Fits, Wanted;
    forall c
      ensures Fits(c, chain, k) <==> Wanted(c, chain, k)
    {
      WantedFits(c, chain, k);
    }
    var r := Pass(cs, chain, k);
    if r < |cs| {
      assert Wanted(cs[r], chain, k);
    }
  }

  // The client-id comes first, then the hardware address, the name, and last a pattern for
  // hardware addresses; each time the first host that is wanted.
  lemma HostIs(cs: seq<Config>, chain: seq<Context>, clid: seq<nat>, hw: Hw, name: Option<string>)
    ensures var r := FindConfig(cs, chain, clid, hw, name);
      if Any(cs, chain, ClidKey(clid)) then r.Some? && First(cs, chain, ClidKey(clid), r.v)
      else if Any(cs, chain, HwKey(hw, false)) then r.Some? && First(cs, chain, HwKey(hw, false), r.v)
      else if Any(cs, chain, NameKey(name)) then r.Some? && First(cs, chain, NameKey(name), r.v)
      else if Any(cs, chain, HwKey(hw, true)) then r.Some? && First(cs, chain, HwKey(hw, true), r.v)
      else r.None?
  {
    hide Fits, Wanted, Pass;
    PassIs(cs, chain, ClidKey(clid));
    PassIs(cs, chain, HwKey(hw, false));
    PassIs(cs, chain, NameKey(name));
    PassIs(cs, chain, HwKey(hw, true));
  }

  // ---------- clients that are not answered ----------

  // The tags named are all there, and those named with a # are not; at least one is named.
  predicate Named(line: seq<string>, tags: set<string>) {
    && |line| > 0
    && forall t :: t in line ==> if |t| > 0 && t[0] == '#' then t[1..] !in tags else t in tags
  }

  // A host configuration or a line with such tags says so.
  predicate ToBeIgnored(set_: Settings, st: Server, c: Client) {
    || (c.config.Some? && c.config.v < |st.configs| && st.configs[c.config.v].disabled)
    || exists line :: line in set_.ignore && Named(line, c.tags)
  }

  lemma NamedMeans(line: seq<string>, tags: set<string>)
    ensures MatchNetid(line, tags, false) <==> Named(line, tags)
  {
    if MatchNetid(line, tags, false) {
      forall t | t in line
        ensures TagFits(t, tags)
      {
        var k :| 0 <= k < |line| && line[k] == t;
      }
    }
    assert forall k :: 0 <= k < |line| ==> line[k] in line;
  }

  lemma IgnoredMeans(set_: Settings, st: Server, p: Packet)
    ensures var c := Identify(set_, st, p); c.ignored <==> ToBeIgnored(set_, st, c)
  {
    hide MatchNetid, Named, LeaseOf, ConfigOf, FirstConfig;
    forall line, tags
      ensures MatchNetid(line, tags, false) <==> Named(line, tags)
    {
      NamedMeans(line, tags);
    }
    var c := Identify(set_, st, p);
    if exists line :: line in set_.ignore && Named(line, c.tags) {
      var line :| line in set_.ignore && Named(line, c.tags);
      var i :| 0 <= i < |set_.ignore| && set_.ignore[i] == line;
      assert MatchNetid(set_.ignore[i], c.tags, false);
    }
  }

  // Such a client gets no address and no answer to questions; it can still give one up.
  lemma IgnoredIsSilent(set_: Settings, st: Server, p: Packet)
    requires p.kind != Bootp && ToBeIgnored(set_, Expire(st, p.now), Identify(set_, Expire(st, p.now), p))
    ensures var (st1, r) := Step(set_, st, p);
      r == Silent && (p.kind != Decline && p.kind != Release ==> st1 == Expire(st, p.now))
  {
    hide Identify, ToBeIgnored, Prune, Narrow, Conclude;
    IgnoredMeans(set_, Expire(st, p.now), p);
  }

  // The tags a client has: those of the packet, "known" for a host that is configured, and
  // the tag of its host configuration.
  lemma TagsAre(set_: Settings, st: Server, p: Packet, t: string)
    ensures var c := Identify(set_, st, p);
      t in c.tags <==>
        || t in p.tags || (c.config.Some? && t == "known")
        || (c.config.Some? && st.configs[c.config.v].netid == Some(t))
  {
    hide LeaseOf, ConfigOf, FirstConfig, Ignores;
  }

  // Nothing identifies a client without hardware address whose client-id has three bytes or
  // fewer.
  lemma NoUniqueIdIs(set_: Settings, st: Server, p: Packet)
    ensures var c := Identify(set_, st, p); c.emac == [] <==> p.hwBytes == [] && |c.clid| <= 3
  {
    hide LeaseOf, ConfigOf, FirstConfig, Ignores;
  }

  // ---------- the host of a client ----------

  // The client-id in use: that of the packet, or else the one stored in the client's lease.
  function ClidInUse(st: Server, p: Packet, lease: Option<nat>): seq<nat> {
    if p.clid != [] || lease.None? || lease.v >= |st.s.live| then p.clid else st.s.live[lease.v].clid
  }

  // A host that goes by the name alone: the first with the name has nothing else to know its
  // client by.
  predicate ByNameOnly(cs: seq<Config>, p: Packet, i: nat) {
    && p.clientName.Some? && |p.clientName.v| > 0 && First(cs, p.chain, NameKey(p.clientName), i)
    && cs[i].clid.None? && cs[i].hw.None?
  }

  // The host of a client is the one found by client-id or hardware address; only when there is
  // none may the name it gives itself lead to one.
  lemma HostOfClient(set_: Settings, st: Server, p: Packet)
    ensures var c := Identify(set_, st, p);
      var h := FindConfig(st.configs, p.chain, ClidInUse(st, p, c.lease), PacketHw(p), None);
      && c.clid == ClidInUse(st, p, c.lease)
      && (h.Some? ==> c.config == h)
      && (h.None? ==> forall i: nat :: c.config == Some(i) <==> ByNameOnly(st.configs, p, i))
  {
    hide LeaseOf, FindConfig, Ignores, First, Any, Wanted;
    var c := Identify(set_, st, p);
    var hw, none: Option<string> := PacketHw(p), None;
    HostIs(st.configs, p.chain, c.clid, hw, none);
    HostIs(st.configs, p.chain, [], hw, p.clientName);
    NoClidKey(st.configs, p.chain);
    forall i: nat, j: nat | First(st.configs, p.chain, NameKey(p.clientName), i)
        && First(st.configs, p.chain, NameKey(p.clientName), j)
      ensures i == j
    {
      OneFirst(st.configs, p.chain, NameKey(p.clientName), i, j);
    }
    forall i: nat | First(st.configs, p.chain, NameKey(p.clientName), i)
      ensures Any(st.configs, p.chain, NameKey(p.clientName))
    {
      FirstIsAny(st.configs, p.chain, NameKey(p.clientName), i);
    }
  }

  lemma NoClidKey(cs: seq<Config>, chain: seq<Context>)
    ensures !Any(cs, chain, ClidKey([]))
  {
  }

  lemma OneFirst(cs: seq<Config>, chain: seq<Context>, k: Key, i: nat, j: nat)
    requires First(cs, chain, k, i) && First(cs, chain, k, j)
    ensures i == j
  {
    hide Wanted;
  }

  lemma FirstIsAny(cs: seq<Config>, chain: seq<Context>, k: Key, i: nat)
    requires First(cs, chain, k, i)
    ensures Any(cs, chain, k)
  {
    hide Wanted;
  }

  // The tags of a BOOTP client: also the name of the boot file it asks for, and "bootp".
  lemma BootpTagsAre(st: Server, p: Packet, config: Option<nat>, t: string)
    requires config.Some? ==> config.v < |st.configs|
    ensures t in BootpTags(st, p, config) <==>
      || t in p.tags || t == "bootp" || p.bootFile == Some(t)
      || (config.Some? && (t == "known" || st.configs[config.v].netid == Some(t)))
  {
  }

  // ---------- networks ----------

  lemma {:induction false} AndBits(a: nat, b: nat, k: nat)
    ensures Bit(And(a, b), k) <==> Bit(a, k) && Bit(b, k)
  {
    if a == 0 || b == 0 {
      NoBits(k);
    } else if k > 0 {
      AndHalf(a, b);
      AndBits(a / 2, b / 2, k - 1);
    } else {
      AndHalf(a, b);
    }
  }

  lemma AndHalf(a: nat, b: nat)
    ensures And(a, b) / 2 == And(a / 2, b / 2)
    ensures And(a, b) % 2 == 1 <==> a % 2 == 1 && b % 2 == 1
  {
  }

  lemma {:induction false} NoBits(k: nat)
    ensures !Bit(0, k)
  {
    if k > 0 {
      NoBits(k - 1);
    }
  }

  lemma {:induction false} SameBits(a: nat, b: nat)
    requires forall k: nat :: Bit(a, k) <==> Bit(b, k)
    ensures a == b
    decreases a + b
  {
    if a != 0 || b != 0 {
      assert Bit(a, 0) <==> Bit(b, 0);
      forall k: nat
        ensures Bit(a / 2, k) <==> Bit(b / 2, k)
      {
        assert Bit(a, k + 1) <==> Bit(b, k + 1);
      }
      SameBits(a / 2, b / 2);
    }
  }

  ghost predicate Agree(a: nat, b: nat, mask: nat) {
    forall k: nat :: Bit(mask, k) ==> (Bit(a, k) <==> Bit(b, k))
  }

  // Two addresses are on the same network exactly if they agree where the mask has a one.
  lemma SameNetMeans(a: nat, b: nat, mask: nat)
    ensures SameNet(a, b, mask) <==> Agree(a, b, mask)
  {
    hide And, Bit;
    forall k: nat
      ensures Bit(And(a, mask), k) <==> Bit(a, k) && Bit(mask, k)
      ensures Bit(And(b, mask), k) <==> Bit(b, k) && Bit(mask, k)
    {
      AndBits(a, mask, k);
      AndBits(b, mask, k);
    }
    if SameNet(a, b, mask) {
      forall k: nat | Bit(mask, k)
        ensures Bit(a, k) <==> Bit(b, k)
      {
        assert Bit(And(a, mask), k) <==> Bit(And(b, mask), k);
      }
    } else if Agree(a, b, mask) {
      SameBits(And(a, mask), And(b, mask));
    }
  }

  // ---------- host names ----------

  // The part behind the first dot is the domain; one that is there and is not the server's own
  // is alien. Without it the host name is left.
  lemma DomainOf(host: string, domain: string, suffix: Option<string>)
    requires '.' !in host
    ensures Stripped(host) == host && !AlienDomain(host, suffix)
    ensures Stripped(host + "." + domain) == host
    ensures AlienDomain(host + "." + domain, suffix)
      <==> domain != "" && !(suffix.Some? && NameEq(domain, suffix.v))
  {
    DotIs(host, host);
    DotIs(host, host + "." + domain);
    assert (host + "." + domain)[|host| + 1..] == domain;
  }

  lemma {:induction false} DotIs(host: string, name: string)
    requires '.' !in host && host <= name && (name == host || name[|host|] == '.')
    ensures DnsEncode.FirstDot(name) == |host|
  {
    if host != "" {
      DotIs(host[1..], name[1..]);
    }
  }
}
