// Address ranges and host configurations of dhcp.c, and the searches over them. The
// contexts linked on "current" for one packet are a sequence with the head first.
module DhcpConfig {
  import DnsEncode
  import opened Optional
  import opened LeaseTable

  datatype Context = Context(start: nat, end: nat, netmask: nat, router: nat, local: nat, isStatic: bool,
                             filter: seq<string>, netid: Option<string>, leaseTime: nat, epoch: nat)

  // A pattern of kind 0 fits every hardware type; a set bit of wild ignores a byte.
  datatype HwPattern = HwPattern(kind: int, bytes: seq<nat>, wild: nat)

  datatype Config = Config(clid: Option<seq<nat>>, hw: Option<HwPattern>, name: Option<string>, addr: Option<nat>,
                           disabled: bool, leaseTime: Option<nat>, netid: Option<string>, noClid: bool,
                           declined: Option<nat>)

  const DECLINE_BACKOFF: nat := 600

  // ---------- networks ----------

  function And(a: nat, b: nat): nat {
    if a == 0 || b == 0 then 0 else (a % 2) * (b % 2) + 2 * And(a / 2, b / 2)
  }

  predicate SameNet(a: nat, b: nat, mask: nat) {
    And(a, mask) == And(b, mask)
  }

  // ---------- tags ----------

  predicate TagFits(check: string, pool: set<string>) {
    if check != "" && check[0] == '#' then check[1..] !in pool else check in pool
  }

  predicate MatchNetid(check: seq<string>, pool: set<string>, tagNotNeeded: bool) {
    (check == [] ==> tagNotNeeded) && forall k :: 0 <= k < |check| ==> TagFits(check[k], pool)
  }

  method MatchNetidLoop(check: seq<string>, pool: set<string>, tagNotNeeded: bool) returns (ok: bool)
    ensures ok == MatchNetid(check, pool, tagNotNeeded)
  {
    if check == [] && !tagNotNeeded {
      return false;
    }
    var i := 0;
    while i < |check|
      invariant 0 <= i <= |check|
      invariant forall k :: 0 <= k < i ==> TagFits(check[k], pool)
    {
      if check[i] == "" || check[i][0] != '#' {
        if check[i] !in pool {
          assert !TagFits(check[i], pool);
          return false;
        }
      } else if check[i][1..] in pool {
        assert !TagFits(check[i], pool);
        return false;
      }
      i := i + 1;
    }
    ok := true;
  }

  // ---------- contexts ----------

  predicate Serves(c: Context, a: nat, tags: set<string>) {
    !c.isStatic && c.start <= a <= c.end && MatchNetid(c.filter, tags, true)
  }

  function FirstServing(chain: seq<Context>, a: nat, tags: set<string>): (r: nat)
    ensures r <= |chain|
    ensures r < |chain| ==> Serves(chain[r], a, tags)
    ensures forall k :: 0 <= k < r ==> !Serves(chain[k], a, tags)
  {
    if |chain| == 0 || Serves(chain[0], a, tags) then 0 else 1 + FirstServing(chain[1..], a, tags)
  }

  // address_available; the loop over the routers looks at the first context each time.
  function Available(chain: seq<Context>, a: nat, tags: set<string>): (r: Option<nat>)
    ensures r.Some? ==> r.v < |chain| && Serves(chain[r.v], a, tags) && chain[0].router != a
  {
    if |chain| == 0 || chain[0].router == a then None
    else
      var i := FirstServing(chain, a, tags);
      if i < |chain| then Some(i) else None
  }

  function FirstOnNet(chain: seq<Context>, a: nat, onlyStatic: bool): (r: nat)
    ensures r <= |chain|
    ensures r < |chain| ==> SameNet(a, chain[r].start, chain[r].netmask) && (onlyStatic ==> chain[r].isStatic)
    ensures forall k :: 0 <= k < r ==> !(SameNet(a, chain[k].start, chain[k].netmask) && (onlyStatic ==>
        chain[k].isStatic))
  {
    if |chain| == 0 || (SameNet(a, chain[0].start, chain[0].netmask) && (onlyStatic ==> chain[0].isStatic)) then 0
    else 1 + FirstOnNet(chain[1..], a, onlyStatic)
  }

  // narrow_context: from here on the packet has this one context only.
  function Narrow(chain: seq<Context>, a: nat, tags: set<string>): (r: Option<nat>)
    ensures r.Some? ==> r.v < |chain|
  {
    var i := Available(chain, a, tags);
    if i.Some? then i
    else
      var j := FirstOnNet(chain, a, true);
      if j < |chain| then Some(j)
      else
        var k := FirstOnNet(chain, a, false);
        if k < |chain| then Some(k) else None
  }

  // When narrow_context finds nothing, no context could take the address at all.
  lemma NarrowFails(chain: seq<Context>, a: nat, tags: set<string>)
    ensures Narrow(chain, a, tags).None? <==>
      (Available(chain, a, tags).None? && forall k :: 0 <= k < |chain| ==>
          !SameNet(a, chain[k].start, chain[k].netmask))
  {
  }

  method AddressAvailable(chain: seq<Context>, a: nat, tags: set<string>) returns (r: Option<nat>)
    ensures r == Available(chain, a, tags)
  {
    var i := 0;
    while i < |chain|
      invariant 0 <= i <= |chain|
      invariant i > 0 ==> chain[0].router != a
    {
      if a == chain[0].router {
        return None;
      }
      i := i + 1;
    }
    i := 0;
    while i < |chain|
      invariant 0 <= i <= |chain|
      invariant forall k :: 0 <= k < i ==> !Serves(chain[k], a, tags)
    {
      var ok := MatchNetidLoop(chain[i].filter, tags, true);
      if !chain[i].isStatic && a >= chain[i].start && a <= chain[i].end && ok {
        return Some(i);
      }
      i := i + 1;
    }
    r := None;
  }

  method NarrowContext(chain: seq<Context>, a: nat, tags: set<string>) returns (r: Option<nat>)
    ensures r == Narrow(chain, a, tags)
  {
    r := AddressAvailable(chain, a, tags);
    if r.None? {
      var i := 0;
      while i < |chain| && !(SameNet(a, chain[i].start, chain[i].netmask) && chain[i].isStatic)
        invariant 0 <= i <= |chain|
        invariant forall k :: 0 <= k < i ==> !(SameNet(a, chain[k].start, chain[k].netmask) && chain[k].isStatic)
      {
        i := i + 1;
      }
      if i < |chain| {
        return Some(i);
      }
      i := 0;
      while i < |chain| && !SameNet(a, chain[i].start, chain[i].netmask)
        invariant 0 <= i <= |chain|
        invariant forall k :: 0 <= k < i ==> !SameNet(a, chain[k].start, chain[k].netmask)
      {
        i := i + 1;
      }
      if i < |chain| {
        return Some(i);
      }
    }
  }

  // ---------- host configurations ----------

  function Reserved(configs: seq<Config>, a: nat): (r: nat)
    ensures r <= |configs|
    ensures r < |configs| ==> configs[r].addr == Some(a)
    ensures forall k :: 0 <= k < r ==> configs[k].addr != Some(a)
  {
    if |configs| == 0 || configs[0].addr == Some(a) then 0 else 1 + Reserved(configs[1..], a)
  }

  method ConfigFindByAddress(configs: seq<Config>, a: nat) returns (i: nat)
    ensures i == Reserved(configs, a)
  {
    i := 0;
    while i < |configs| && configs[i].addr != Some(a)
      invariant i <= |configs|
      invariant forall k :: 0 <= k < i ==> configs[k].addr != Some(a)
    {
      i := i + 1;
    }
  }

  predicate OnChain(chain: seq<Context>, c: Config) {
    c.addr.Some? ==> exists k :: 0 <= k < |chain| && SameNet(c.addr.v, chain[k].start, chain[k].netmask)
  }

  function ShiftRight(m: nat, k: nat): nat {
    if k == 0 then m else ShiftRight(m / 2, k - 1)
  }

  // memcmp_masked: the lowest bit of the mask belongs to the last byte.
  predicate MaskedEq(a: seq<nat>, b: seq<nat>, mask: nat)
    requires |a| == |b|
  {
    forall k :: 0 <= k < |a| ==> ShiftRight(mask, k) % 2 == 1 || a[|a| - 1 - k] == b[|a| - 1 - k]
  }

  method MemcmpMasked(a: seq<nat>, b: seq<nat>, mask: nat) returns (eq: bool)
    requires |a| == |b|
    ensures eq == MaskedEq(a, b, mask)
  {
    var i, m := |a| - 1, mask;
    while i >= 0
      invariant -1 <= i < |a|
      invariant m == ShiftRight(mask, |a| - 1 - i)
      invariant forall k :: 0 <= k < |a| - 1 - i ==> ShiftRight(mask, k) % 2 == 1 || a[|a| - 1 - k] == b[|a| - 1 - k]
    {
      if m % 2 == 0 && a[i] != b[i] {
        assert a[|a| - 1 - (|a| - 1 - i)] != b[i];
        return false;
      }
      ShiftOnce(mask, |a| - 1 - i);
      i, m := i - 1, m / 2;
    }
    eq := true;
  }

  lemma {:induction false} ShiftOnce(m: nat, k: nat)
    ensures ShiftRight(m, k + 1) == ShiftRight(m, k) / 2
  {
    if k > 0 {
      ShiftOnce(m / 2, k - 1);
    }
  }

  predicate ByClidFits(c: Config, chain: seq<Context>, clid: seq<nat>) {
    && c.clid.Some? && clid != []
    && (c.clid.v == clid || (clid[0] == 0 && c.clid.v == clid[1..]))
    && OnChain(chain, c)
  }

  predicate HwFits(c: Config, chain: seq<Context>, hw: Hw, wild: bool) {
    && c.hw.Some? && hw.Hw? && (c.hw.v.wild != 0) == wild
    && |c.hw.v.bytes| == |hw.bytes| && (c.hw.v.kind == hw.kind || c.hw.v.kind == 0)
    && (if wild then MaskedEq(c.hw.v.bytes, hw.bytes, c.hw.v.wild) else c.hw.v.bytes == hw.bytes)
    && OnChain(chain, c)
  }

  predicate NameFits(c: Config, chain: seq<Context>, name: Option<string>) {
    SameName(c.name, name) && OnChain(chain, c)
  }

  // The four passes of find_config, in their order; the chain is never empty here.
  datatype Key = ClidKey(clid: seq<nat>) | HwKey(hw: Hw, wild: bool) | NameKey(name: Option<string>)

  predicate Fits(c: Config, chain: seq<Context>, k: Key) {
    match k
    case ClidKey(clid) => ByClidFits(c, chain, clid)
    case HwKey(hw, wild) => HwFits(c, chain, hw, wild)
    case NameKey(name) => NameFits(c, chain, name)
  }

  function Pass(configs: seq<Config>, chain: seq<Context>, k: Key): (r: nat)
    ensures r <= |configs|
    ensures r < |configs| ==> Fits(configs[r], chain, k)
    ensures forall j :: 0 <= j < r ==> !Fits(configs[j], chain, k)
  {
    if |configs| == 0 || Fits(configs[0], chain, k) then 0 else 1 + Pass(configs[1..], chain, k)
  }

  function FindConfig(configs: seq<Config>, chain: seq<Context>, clid: seq<nat>, hw: Hw,
                      name: Option<string>): (r: Option<nat>)
    ensures r.Some? ==> r.v < |configs| && OnChain(chain, configs[r.v])
  {
    var a := Pass(configs, chain, ClidKey(clid));
    if a < |configs| then Some(a)
    else
      var b := Pass(configs, chain, HwKey(hw, false));
      if b < |configs| then Some(b)
      else
        var c := Pass(configs, chain, NameKey(name));
        if c < |configs| then Some(c)
        else
          var d := Pass(configs, chain, HwKey(hw, true));
          if d < |configs| then Some(d) else None
  }

  predicate UniqueReservations(configs: seq<Config>) {
    forall i, j :: 0 <= i < j < |configs| && configs[i].addr.Some? ==> configs[i].addr != configs[j].addr
  }

  // ---------- check_dhcp_hosts ----------

  // strip_hostname: the domain of a name, if it has one that is not the server's own.
  function AlienDomain(name: string, suffix: Option<string>): bool {
    var k := DnsEncode.FirstDot(name);
    k + 1 < |name| && !SameName(Some(name[k + 1..]), suffix)
  }

  function Stripped(name: string): string {
    name[..DnsEncode.FirstDot(name)]
  }

  predicate AlienHost(c: Config, suffix: Option<string>) {
    c.name.Some? && AlienDomain(c.name.v, suffix)
  }

  predicate ReservedAfter(configs: seq<Config>, i: nat, k: nat)
    requires i < k <= |configs|
  {
    configs[i].addr.Some? && exists j :: i < j < k && configs[j].addr == configs[i].addr
  }

  // The hosts are looked at when the server starts, when any fault is fatal, and when
  // configuration is read again. Then the flag tested for is the one of an address: hosts
  // without one are passed over.
  predicate Checked(c: Config, fatal: bool) {
    fatal || c.addr.Some?
  }

  predicate Faulty(configs: seq<Config>, i: nat, suffix: Option<string>)
    requires i < |configs|
  {
    ReservedAfter(configs, i, |configs|) || AlienHost(configs[i], suffix)
  }

  function CheckedName(c: Config, suffix: Option<string>): Option<string> {
    if c.name.None? || AlienDomain(c.name.v, suffix) then None else Some(Stripped(c.name.v))
  }

  function CheckedHost(configs: seq<Config>, i: nat, fatal: bool, suffix: Option<string>): Config
    requires i < |configs|
  {
    var c := configs[i];
    c.(addr := if ReservedAfter(configs, i, |configs|) then None else c.addr,
       name := if Checked(c, fatal) then CheckedName(c, suffix) else c.name)
  }

  // Of the hosts with one address only the last keeps it; names lose their domain, and
  // hosts with another domain their name. The result is None when the server gives up.
  method CheckDhcpHosts(configs: seq<Config>, fatal: bool, suffix: Option<string>) returns (r: Option<seq<Config>>)
    ensures r.None? <==> fatal && exists i :: 0 <= i < |configs| && Faulty(configs, i, suffix)
    ensures r.Some? ==> |r.v| == |configs| && UniqueReservations(r.v)
    ensures r.Some? ==> forall i :: 0 <= i < |configs| ==> r.v[i] == CheckedHost(configs, i, fatal, suffix)
  {
    var out := configs;
    var i := 0;
    while i < |configs|
      invariant 0 <= i <= |configs| == |out|
      invariant forall k :: i <= k < |out| ==> out[k] == configs[k]
      invariant forall k :: 0 <= k < i ==> out[k] == CheckedHost(configs, k, fatal, suffix)
      invariant fatal ==> forall k :: 0 <= k < i ==> !Faulty(configs, k, suffix)
    {
      if fatal || configs[i].addr.Some? {
        var c := configs[i];
        var j := i + 1;
        while j < |configs|
          invariant i < j <= |configs|
          invariant c == configs[i].(addr := if ReservedAfter(configs, i, j) then None else configs[i].addr)
          invariant fatal ==> !ReservedAfter(configs, i, j)
        {
          if c.addr.Some? && c.addr == configs[j].addr {
            if fatal {
              assert ReservedAfter(configs, i, |configs|) && Faulty(configs, i, suffix);
              return None;
            }
            c := c.(addr := None);
          }
          j := j + 1;
        }
        if c.name.Some? {
          if AlienDomain(c.name.v, suffix) {
            if fatal {
              assert Faulty(configs, i, suffix);
              return None;
            }
            c := c.(name := None);
          } else {
            c := c.(name := Some(Stripped(c.name.v)));
          }
        }
        out := out[i := c];
      }
      i := i + 1;
    }
    CheckedUnique(configs, out, fatal, suffix);
    r := Some(out);
  }

  lemma CheckedUnique(configs: seq<Config>, r: seq<Config>, fatal: bool, suffix: Option<string>)
    requires |r| == |configs| && forall i :: 0 <= i < |r| ==> r[i] == CheckedHost(configs, i, fatal, suffix)
    ensures UniqueReservations(r)
  {
    forall i, j | 0 <= i < j < |r| && r[i].addr.Some?
      ensures r[i].addr != r[j].addr
    {
      assert !ReservedAfter(configs, i, |configs|);
    }
  }

  // No host keeps a name with an alien domain, exactly if none without an address has one
  // when configuration is read again.
  lemma AlienNamesGo(configs: seq<Config>, r: seq<Config>, fatal: bool, suffix: Option<string>)
    requires |r| == |configs| && forall i :: 0 <= i < |r| ==> r[i] == CheckedHost(configs, i, fatal, suffix)
    ensures (exists i :: 0 <= i < |r| && AlienHost(r[i], suffix)) <==>
        exists i :: 0 <= i < |configs| && !fatal && configs[i].addr.None? && AlienHost(configs[i], suffix)
  {
    forall i | 0 <= i < |r|
      ensures AlienHost(r[i], suffix) <==> !fatal && configs[i].addr.None? && AlienHost(configs[i], suffix)
    {
      if Checked(configs[i], fatal) && r[i].name.Some? {
        NoDotLeft(configs[i].name.v);
      }
    }
  }

  lemma NoDotLeft(name: string)
    ensures DnsEncode.FirstDot(Stripped(name)) == |Stripped(name)|
  {
  }

  // Such a case: a host of the hosts file with a name of another domain and no address.
  lemma AlienNameStays()
    ensures var c := Config(None, Some(HwPattern(1, [1], 0)), Some("x.alien"), None, false, None, None, false, None);
      AlienHost(CheckedHost([c], 0, false, Some("home")), Some("home"))
  {
    assert "x.alien"[1..] == ".alien" && DnsEncode.FirstDot(".alien") == 0 && DnsEncode.FirstDot("x.alien") == 1;
    assert "x.alien"[2..] == "alien" && |"alien"| == 5 && |"home"| == 4;
  }
}
