// The DHCP lease table of lease.c as a value, with one function for each function of
// lease.c that changes it. The list "leases" is a sequence with the head first, and
// so is "old_leases", the pruned leases the script has not been told about.
module LeaseTable {
  import opened HostNames
  import opened Optional

  // Unset is the illegal length 256 that lease_allocate leaves behind: no client has it.
  datatype Hw = Unset | Hw(kind: int, bytes: seq<nat>)

  // An empty clid is no client-id; expires is 0 for a lease that never ends.
  datatype Lease = Lease(addr: nat, hw: Hw, clid: seq<nat>, expires: nat,
                         hostname: Option<string>, oldHostname: Option<string>, authName: bool,
                         isNew: bool, changed: bool, auxChanged: bool, lastInterface: int)

  datatype Leases = Leases(live: seq<Lease>, dead: seq<Lease>, left: nat, fileDirty: bool, dnsDirty: bool)

  const FOREVER: nat := 0xffffffff

  predicate HasAddr(ls: seq<Lease>, a: nat) {
    exists i :: 0 <= i < |ls| && ls[i].addr == a
  }

  predicate DistinctAddrs(ls: seq<Lease>) {
    forall i, j :: 0 <= i < j < |ls| ==> ls[i].addr != ls[j].addr
  }

  predicate SameName(a: Option<string>, b: Option<string>) {
    a.Some? && b.Some? && NameEq(a.v, b.v)
  }

  predicate DistinctNames(ls: seq<Lease>) {
    forall i, j :: 0 <= i < j < |ls| ==> !SameName(ls[i].hostname, ls[j].hostname)
  }

  // ---------- searches ----------

  // lease_find_by_addr: the first lease on the address, or the length of the list.
  function ByAddr(ls: seq<Lease>, a: nat): (r: nat)
    ensures r <= |ls|
    ensures r < |ls| ==> ls[r].addr == a
    ensures forall k :: 0 <= k < r ==> ls[k].addr != a
  {
    if |ls| == 0 || ls[0].addr == a then 0 else 1 + ByAddr(ls[1..], a)
  }

  predicate ClidMatch(l: Lease, clid: seq<nat>) {
    clid != [] && l.clid == clid
  }

  predicate HwMatch(l: Lease, hw: Hw, clid: seq<nat>) {
    (l.clid == [] || clid == []) && hw.Hw? && hw.bytes != [] && l.hw == hw
  }

  function ByClid(ls: seq<Lease>, clid: seq<nat>): (r: nat)
    ensures r <= |ls|
    ensures r < |ls| ==> ClidMatch(ls[r], clid)
    ensures forall k :: 0 <= k < r ==> !ClidMatch(ls[k], clid)
  {
    if |ls| == 0 || ClidMatch(ls[0], clid) then 0 else 1 + ByClid(ls[1..], clid)
  }

  function ByHw(ls: seq<Lease>, hw: Hw, clid: seq<nat>): (r: nat)
    ensures r <= |ls|
    ensures r < |ls| ==> HwMatch(ls[r], hw, clid)
    ensures forall k :: 0 <= k < r ==> !HwMatch(ls[k], hw, clid)
  {
    if |ls| == 0 || HwMatch(ls[0], hw, clid) then 0 else 1 + ByHw(ls[1..], hw, clid)
  }

  // lease_find_by_client: the client-id decides if any lease has it, else the hardware
  // address among leases that cannot be told apart by client-id.
  function ByClient(ls: seq<Lease>, hw: Hw, clid: seq<nat>): (r: nat)
    ensures r <= |ls|
    ensures r < |ls| ==> ClidMatch(ls[r], clid) || HwMatch(ls[r], hw, clid)
    ensures r == |ls| ==> forall k :: 0 <= k < |ls| ==> !ClidMatch(ls[k], clid) && !HwMatch(ls[k], hw, clid)
  {
    var i := ByClid(ls, clid);
    if i < |ls| then i else ByHw(ls, hw, clid)
  }

  // The lease carries the client-id of the client.
  predicate CarriesClid(l: Lease, clid: seq<nat>) {
    |clid| > 0 && l.clid == clid
  }

  // The lease has the client's hardware address, and one of the two has no client-id.
  predicate SameHardware(l: Lease, hw: Hw, clid: seq<nat>) {
    hw.Hw? && |hw.bytes| > 0 && l.hw == hw && !(|l.clid| > 0 && |clid| > 0)
  }

  predicate FirstWith(ls: seq<Lease>, ok: Lease -> bool, i: nat) {
    i < |ls| && ok(ls[i]) && forall k :: 0 <= k < i ==> !ok(ls[k])
  }

  // A client is known by the first lease with its client-id; by the first one with its
  // hardware address only if no lease has the client-id.
  lemma ByClientIs(ls: seq<Lease>, hw: Hw, clid: seq<nat>)
    ensures var i := ByClient(ls, hw, clid);
      if exists l :: l in ls && CarriesClid(l, clid) then FirstWith(ls, l => CarriesClid(l, clid), i)
      else if exists l :: l in ls && SameHardware(l, hw, clid) then FirstWith(ls, l => SameHardware(l, hw, clid), i)
      else i == |ls|
  {
    assert forall l :: CarriesClid(l, clid) <==> ClidMatch(l, clid);
    assert forall l :: SameHardware(l, hw, clid) <==> HwMatch(l, hw, clid);
    var i, j := ByClid(ls, clid), ByHw(ls, hw, clid);
    assert i < |ls| ==> ls[i] in ls;
    assert j < |ls| ==> ls[j] in ls;
  }

  function NameHolder(ls: seq<Lease>, name: string): (r: nat)
    ensures r <= |ls|
    ensures r < |ls| ==> SameName(ls[r].hostname, Some(name))
    ensures forall k :: 0 <= k < r ==> !SameName(ls[k].hostname, Some(name))
  {
    if |ls| == 0 || SameName(ls[0].hostname, Some(name)) then 0 else 1 + NameHolder(ls[1..], name)
  }

  function LostName(ls: seq<Lease>): (r: nat)
    ensures r <= |ls|
    ensures r < |ls| ==> ls[r].oldHostname.Some?
    ensures forall k :: 0 <= k < r ==> ls[k].oldHostname.None?
  {
    if |ls| == 0 || ls[0].oldHostname.Some? then 0 else 1 + LostName(ls[1..])
  }

  // The script must hear of the lease; ro is the leasefile-ro option.
  predicate Untold(l: Lease, ro: bool) {
    l.isNew || l.changed || (l.auxChanged && ro)
  }

  function FirstUntold(ls: seq<Lease>, ro: bool): (r: nat)
    ensures r <= |ls|
    ensures r < |ls| ==> Untold(ls[r], ro)
    ensures forall k :: 0 <= k < r ==> !Untold(ls[k], ro)
  {
    if |ls| == 0 || Untold(ls[0], ro) then 0 else 1 + FirstUntold(ls[1..], ro)
  }

  // ---------- changes ----------

  function NewLease(a: nat): Lease {
    Lease(a, Unset, [], 1, None, None, false, true, false, false, 0)
  }

  // lease_allocate; room is false when memory runs out.
  function Allocate(s: Leases, a: nat, room: bool): Leases {
    if s.left == 0 || !room then s
    else s.(live := [NewLease(a)] + s.live, left := s.left - 1, fileDirty := true)
  }

  function SetExpires(s: Leases, i: nat, len: nat, now: nat): Leases
    requires i < |s.live|
  {
    var exp := if len == FOREVER then 0 else now + len;
    if exp == s.live[i].expires then s
    else s.(live := s.live[i := s.live[i].(expires := exp, auxChanged := true)], fileDirty := true, dnsDirty := true)
  }

  function WithHw(l: Lease, hw: Hw): Lease {
    if hw == l.hw then l else l.(hw := hw, changed := true)
  }

  // A client-id of another length needs new memory; without it the lease has none.
  function WithClid(l: Lease, clid: seq<nat>, room: bool): Lease {
    if clid == [] || clid == l.clid then l
    else if |clid| != |l.clid| && !room then l.(clid := [], auxChanged := true)
    else l.(clid := clid, auxChanged := true)
  }

  function SetHwaddr(s: Leases, i: nat, hw: Hw, clid: seq<nat>, room: bool): Leases
    requires i < |s.live|
  {
    var l := WithClid(WithHw(s.live[i], hw), clid, room);
    s.(live := s.live[i := l],
       fileDirty := s.fileDirty || hw != s.live[i].hw || (clid != [] && clid != s.live[i].clid))
  }

  // The holder of a name loses it to another lease.
  function Robbed(l: Lease): Lease {
    l.(oldHostname := l.hostname, hostname := None)
  }

  function Renamed(l: Lease, name: Option<string>, auth: bool, room: bool): Lease {
    l.(oldHostname := if l.hostname.Some? then l.hostname else l.oldHostname,
       hostname := if room then name else None, authName := auth, changed := true)
  }

  function Rob(ls: seq<Lease>, name: Option<string>): seq<Lease> {
    if name.None? then ls
    else
      var j := NameHolder(ls, name.v);
      if j == |ls| then ls else ls[j := Robbed(ls[j])]
  }

  // A name from configuration is not given up to one from a client.
  predicate Refused(ls: seq<Lease>, name: Option<string>, auth: bool) {
    name.Some? && var j := NameHolder(ls, name.v); j < |ls| && ls[j].authName && !auth
  }

  function SetHostname(s: Leases, i: nat, name: Option<string>, auth: bool, room: bool): Leases
    requires i < |s.live|
  {
    var l := s.live[i];
    if SameName(l.hostname, name) then s.(live := s.live[i := l.(authName := auth)])
    else if l.hostname.None? && name.None? then s
    else if Refused(s.live, name, auth) then s
    else
      var r := Rob(s.live, name);
      s.(live := r[i := Renamed(r[i], name, auth, room)], fileDirty := true, dnsDirty := true)
  }

  function SetInterface(s: Leases, i: nat, n: int): Leases
    requires i < |s.live|
  {
    if s.live[i].lastInterface == n then s
    else s.(live := s.live[i := s.live[i].(lastInterface := n, changed := true)])
  }

  predicate Expired(l: Lease, now: nat) {
    l.expires != 0 && now > l.expires
  }

  // The target of lease_prune, a lease of the table, is given by its address.
  predicate Goes(l: Lease, target: Option<nat>, now: nat) {
    Expired(l, now) || target == Some(l.addr)
  }

  function Kept(ls: seq<Lease>, target: Option<nat>, now: nat): seq<Lease> {
    if ls == [] then []
    else (if Goes(ls[0], target, now) then [] else [ls[0]]) + Kept(ls[1..], target, now)
  }

  // The pruned leases, the last one first, as they end up in old_leases.
  function Gone(ls: seq<Lease>, target: Option<nat>, now: nat): seq<Lease> {
    if ls == [] then []
    else Gone(ls[1..], target, now) + (if Goes(ls[0], target, now) then [ls[0]] else [])
  }

  predicate LosesName(ls: seq<Lease>) {
    exists i :: 0 <= i < |ls| && ls[i].hostname.Some?
  }

  function Prune(s: Leases, target: Option<nat>, now: nat): Leases {
    var gone := Gone(s.live, target, now);
    s.(live := Kept(s.live, target, now), dead := gone + s.dead, left := s.left + |gone|,
       fileDirty := s.fileDirty || gone != [], dnsDirty := s.dnsDirty || LosesName(gone))
  }

  function AllChanged(ls: seq<Lease>): (r: seq<Lease>)
    ensures |r| == |ls|
    ensures forall i :: 0 <= i < |ls| ==> r[i] == ls[i].(changed := true)
  {
    seq(|ls|, i requires 0 <= i < |ls| => ls[i].(changed := true))
  }

  // ---------- telling the script ----------

  datatype Event =
    | Add(addr: nat, hw: Hw, name: Option<string>)
    | Old(addr: nat, hw: Hw, name: Option<string>)
    | OldHostname(addr: nat, lost: string)
    | Del(addr: nat, hw: Hw, name: Option<string>)

  function Unnamed(l: Lease): Lease {
    l.(oldHostname := None)
  }

  function Told(l: Lease): Lease {
    l.(isNew := false, changed := false, auxChanged := false)
  }

  function Announcement(l: Lease): Event {
    if l.isNew then Add(l.addr, l.hw, l.hostname) else Old(l.addr, l.hw, l.hostname)
  }

  // One call of do_script_run: the new table and the event queued, if any.
  function Script(s: Leases, ro: bool): (Leases, Option<Event>) {
    if s.dead != [] then
      var l := s.dead[0];
      if l.oldHostname.Some? then (s.(dead := s.dead[0 := Unnamed(l)]), Some(OldHostname(l.addr, l.oldHostname.v)))
      else (s.(dead := s.dead[1..]), Some(Del(l.addr, l.hw, l.hostname)))
    else
      var i := LostName(s.live);
      if i < |s.live| then
        (s.(live := s.live[i := Unnamed(s.live[i])]), Some(OldHostname(s.live[i].addr, s.live[i].oldHostname.v)))
      else
        var k := FirstUntold(s.live, ro);
        if k < |s.live| then (s.(live := s.live[k := Told(s.live[k])]), Some(Announcement(s.live[k])))
        else (s, None)
  }
}
