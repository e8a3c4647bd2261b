// The table of forwarded queries of forward.c: forward records, newest first, and the
// pool of random sockets they share.
module ForwardTable {
  import opened Optional

  datatype Family = V4 | V6

  // A socket of the pool. The family of a closed one is left over from its last use.
  datatype Sock = Sock(refcount: nat, family: Option<Family>, open: bool)

  // sentto is the server last sent to, by its identity; without one the record is free.
  // serial numbers the uses of records: it is there to talk about runs.
  datatype Frec = Frec(source: nat, fd: int, origId: nat, newId: nat, crc: nat, sentto: Option<nat>,
                       rfd4: Option<nat>, rfd6: Option<nat>, forwardall: nat, time: nat, serial: nat)

  datatype Srv = Srv(id: nat, kind: nat, domain: string, literal: bool, family: Family, ownSocket: bool)

  datatype Fwd = Fwd(frecs: seq<Frec>, socks: seq<Sock>, servers: seq<Srv>, lastServer: Option<nat>,
                     finger: nat, nextSerial: nat)

  const TIMEOUT: nat := 10

  const RANDOM_SOCKS: nat := 64

  const REF_MAX: nat := 0xffff

  const CRC_UNKNOWN: nat := 0xffffffff

  predicate Active(f: Frec) {
    f.sentto.Some?
  }

  function Rfd(f: Frec, fam: Family): Option<nat> {
    if fam == V4 then f.rfd4 else f.rfd6
  }

  function SetRfd(f: Frec, fam: Family, r: Option<nat>): Frec {
    if fam == V4 then f.(rfd4 := r) else f.(rfd6 := r)
  }

  // ---------- sockets ----------

  // One reference fewer; the last one closes the socket.
  function Release(socks: seq<Sock>, r: Option<nat>): (s: seq<Sock>)
    ensures |s| == |socks|
  {
    if r.None? || r.v >= |socks| || socks[r.v].refcount == 0 then socks
    else
      var n := socks[r.v].refcount - 1;
      socks[r.v := socks[r.v].(refcount := n, open := socks[r.v].open && n > 0)]
  }

  function FreeFrec(st: Fwd, i: nat): (r: Fwd)
    requires i < |st.frecs|
    ensures |r.frecs| == |st.frecs| && |r.socks| == |st.socks|
  {
    var f := st.frecs[i];
    st.(frecs := st.frecs[i := f.(rfd4 := None, rfd6 := None, sentto := None)],
        socks := Release(Release(st.socks, f.rfd4), f.rfd6))
  }

  // The first unused socket that can be opened; opens says which attempts succeed.
  function FirstOpening(socks: seq<Sock>, opens: seq<bool>): (r: nat)
    requires |opens| == |socks|
    ensures r <= |socks|
    ensures r < |socks| ==> socks[r].refcount == 0 && opens[r]
    ensures forall k :: 0 <= k < r ==> !(socks[k].refcount == 0 && opens[k])
  {
    if |socks| == 0 || (socks[0].refcount == 0 && opens[0]) then 0 else 1 + FirstOpening(socks[1..], opens[1..])
  }

  predicate Shareable(s: Sock, fam: Family) {
    s.family == Some(fam) && s.refcount != REF_MAX
  }

  // The k-th socket from the finger on.
  function Slot(n: nat, finger: nat, k: nat): (j: nat)
    requires n > 0
    ensures j < n
  {
    (k + finger) % n
  }

  // The first socket to share, counted from the finger round.
  function FirstShared(socks: seq<Sock>, fam: Family, finger: nat, i: nat): (r: nat)
    requires i <= |socks|
    ensures i <= r <= |socks|
    ensures r < |socks| ==> Shareable(socks[Slot(|socks|, finger, r)], fam)
    ensures forall k :: i <= k < r ==> !Shareable(socks[Slot(|socks|, finger, k)], fam)
    decreases |socks| - i
  {
    if i == |socks| || Shareable(socks[Slot(|socks|, finger, i)], fam) then i
        else FirstShared(socks, fam, finger, i + 1)
  }

  datatype Got = Got(socks: seq<Sock>, finger: nat, sock: Option<nat>)

  function AllocateRfd(socks: seq<Sock>, finger: nat, fam: Family, opens: seq<bool>): (g: Got)
    requires |opens| == |socks|
    ensures |g.socks| == |socks| && (g.sock.Some? ==> g.sock.v < |socks|)
  {
    var i := FirstOpening(socks, opens);
    if i < |socks| then Got(socks[i := Sock(1, Some(fam), true)], finger, Some(i))
    else
      var k := FirstShared(socks, fam, finger, 0);
      if k == |socks| then Got(socks, finger, None)
      else
        var j := Slot(|socks|, finger, k);
        Got(socks[j := socks[j].(refcount := socks[j].refcount + 1)], j, Some(j))
  }

  // ---------- finding records ----------

  predicate IdFits(f: Frec, id: nat, crc: nat) {
    Active(f) && f.newId == id && (f.crc == crc || crc == CRC_UNKNOWN)
  }

  function LookupFrec(fs: seq<Frec>, id: nat, crc: nat): (r: nat)
    ensures r <= |fs|
    ensures r < |fs| ==> IdFits(fs[r], id, crc)
    ensures forall k :: 0 <= k < r ==> !IdFits(fs[k], id, crc)
  {
    if |fs| == 0 || IdFits(fs[0], id, crc) then 0 else 1 + LookupFrec(fs[1..], id, crc)
  }

  predicate SenderFits(f: Frec, id: nat, source: nat, crc: nat) {
    Active(f) && f.origId == id && f.crc == crc && f.source == source
  }

  function LookupBySender(fs: seq<Frec>, id: nat, source: nat, crc: nat): (r: nat)
    ensures r <= |fs|
    ensures r < |fs| ==> SenderFits(fs[r], id, source, crc)
    ensures forall k :: 0 <= k < r ==> !SenderFits(fs[k], id, source, crc)
  {
    if |fs| == 0 || SenderFits(fs[0], id, source, crc) then 0 else 1 + LookupBySender(fs[1..], id, source, crc)
  }

  // ---------- a record for a new query ----------

  predicate Stale(f: Frec, now: nat) {
    Active(f) && now >= f.time + 4 * TIMEOUT
  }

  // The sweep frees the stale records up to n.
  function Sweep(st: Fwd, now: nat, n: nat): (r: Fwd)
    requires n <= |st.frecs|
    ensures |r.frecs| == |st.frecs| && |r.socks| == |st.socks|
  {
    if n == 0 then st
    else
      var r := Sweep(st, now, n - 1);
      if Stale(st.frecs[n - 1], now) then FreeFrec(r, n - 1) else r
  }

  // The last record that is free, or stale, before n.
  function Target(fs: seq<Frec>, now: nat, n: nat): (r: Option<nat>)
    requires n <= |fs|
    ensures r.Some? ==> r.v < n && (!Active(fs[r.v]) || Stale(fs[r.v], now))
    ensures r.None? ==> forall k :: 0 <= k < n ==> Active(fs[k]) && !Stale(fs[k], now)
  {
    if n == 0 then None
    else if !Active(fs[n - 1]) || Stale(fs[n - 1], now) then Some(n - 1)
    else Target(fs, now, n - 1)
  }

  // The last of the oldest active records before n.
  function Oldest(fs: seq<Frec>, n: nat): (r: Option<nat>)
    requires n <= |fs|
    ensures r.Some? ==> r.v < n && Active(fs[r.v]) && forall k :: 0 <= k < n && Active(fs[k]) ==>
        fs[r.v].time <= fs[k].time
    ensures r.None? ==> forall k :: 0 <= k < n ==> !Active(fs[k])
  {
    if n == 0 then None
    else
      var r := Oldest(fs, n - 1);
      if Active(fs[n - 1]) && (r.None? || fs[n - 1].time <= fs[r.v].time) then Some(n - 1) else r
  }

  const BLANK: Frec := Frec(0, 0, 0, 0, 0, None, None, None, 0, 0, 0)

  function AllocateFrec(st: Fwd, now: nat): Fwd {
    st.(frecs := [BLANK.(time := now)] + st.frecs)
  }

  function Touch(st: Fwd, i: nat, now: nat): Fwd
    requires i < |st.frecs|
  {
    st.(frecs := st.frecs[i := st.frecs[i].(time := now)])
  }

  // What get_new_frec does: the table, the record, and how long to wait without one.
  datatype NewFrec = NewFrec(st: Fwd, frec: Option<nat>, wait: int)

  function GetNewFrec(st: Fwd, now: nat, wait: bool, ftabsize: nat, room: bool): (r: NewFrec)
    ensures r.frec.Some? ==> r.frec.v < |r.st.frecs|
  {
    var n := |st.frecs|;
    var swept := Sweep(st, now, n);
    var target := Target(st.frecs, now, n);
    if target.Some? then NewFrec(Touch(swept, target.v, now), target, 0)
    else
      var oldest := Oldest(st.frecs, n);
      if oldest.Some? && now >= st.frecs[oldest.v].time + TIMEOUT then
        if now < st.frecs[oldest.v].time + 2 * TIMEOUT && n <= ftabsize && room then NewFrec(AllocateFrec(swept, now),
            Some(0), 0)
        else if wait then NewFrec(swept, oldest, 0)
        else NewFrec(Touch(FreeFrec(swept, oldest.v), oldest.v, now), oldest, 0)
      else if n > ftabsize then
        NewFrec(swept, None, if oldest.Some? && wait then st.frecs[oldest.v].time + TIMEOUT - now else 0)
      else if room then NewFrec(AllocateFrec(swept, now), Some(0), 0)
      else NewFrec(swept, None, if wait then 1 else 0)
  }

  // ---------- ids and servers ----------

  // An id that may be kept for a signed packet ends the record that has it; otherwise
  // the id is a random one that no active record answers to.
  function GetId(st: Fwd, force: bool, forceId: nat, crc: nat, random: nat): (Fwd, nat) {
    if force then
      var i := LookupFrec(st.frecs, forceId, crc);
      (if i < |st.frecs| then FreeFrec(st, i) else st, forceId)
    else (st, random)
  }

  function FreeSentTo(st: Fwd, server: nat, n: nat): (r: Fwd)
    requires n <= |st.frecs|
    ensures |r.frecs| == |st.frecs| && |r.socks| == |st.socks|
  {
    if n == 0 then st
    else
      var r := FreeSentTo(st, server, n - 1);
      if st.frecs[n - 1].sentto == Some(server) then FreeFrec(r, n - 1) else r
  }

  function ServerGone(st: Fwd, server: nat): Fwd {
    var r := FreeSentTo(st, server, |st.frecs|);
    r.(lastServer := if st.lastServer == Some(server) then None else st.lastServer)
  }
}
