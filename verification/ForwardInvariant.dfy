// What holds between packets of the forwarding table and its sockets.
module ForwardInvariant {
  import opened Optional
  import opened ForwardTable

  function RefsOf(f: Frec, j: nat): nat {
    (if f.rfd4 == Some(j) then 1 else 0) + (if f.rfd6 == Some(j) then 1 else 0)
  }

  function Refs(fs: seq<Frec>, j: nat): nat {
    if fs == [] then 0 else RefsOf(fs[0], j) + Refs(fs[1..], j)
  }

  // Every socket counts the records that use it.
  predicate RefsOk(fs: seq<Frec>, socks: seq<Sock>) {
    forall j :: 0 <= j < |socks| ==> socks[j].refcount == Refs(fs, j) && socks[j].refcount <= REF_MAX
  }

  predicate RfdOk(r: Option<nat>, socks: seq<Sock>, fam: Family) {
    r.Some? ==> r.v < |socks| && socks[r.v].family == Some(fam) && socks[r.v].refcount > 0
  }

  // A record uses sockets of the right family, and a socket is open only while used.
  predicate SocksOk(fs: seq<Frec>, socks: seq<Sock>) {
    && (forall i :: 0 <= i < |fs| ==> RfdOk(fs[i].rfd4, socks, V4) && RfdOk(fs[i].rfd6, socks, V6))
    && (forall j :: 0 <= j < |socks| && socks[j].open ==> socks[j].refcount > 0)
  }

  predicate SameKey(f: Frec, g: Frec) {
    Active(f) && Active(g) && f.newId == g.newId && f.crc == g.crc
  }

  // A reply with a known crc fits one record at most.
  predicate KeysOk(fs: seq<Frec>) {
    forall i, j :: 0 <= i < j < |fs| ==> !SameKey(fs[i], fs[j])
  }

  predicate SerialsOk(fs: seq<Frec>, next: nat) {
    && (forall i :: 0 <= i < |fs| && Active(fs[i]) ==> fs[i].serial < next)
    && (forall i, j :: 0 <= i < j < |fs| && Active(fs[i]) && Active(fs[j]) ==> fs[i].serial != fs[j].serial)
  }

  // A free record holds no socket; an active one either went to one server, or counts
  // one more than the answers still to come.
  predicate FrecOk(f: Frec) {
    if Active(f) then f.forwardall != 1 else f.rfd4.None? && f.rfd6.None?
  }

  predicate HasServer(servers: seq<Srv>, id: nat) {
    exists k :: 0 <= k < |servers| && servers[k].id == id
  }

  predicate DistinctIds(servers: seq<Srv>) {
    forall i, j :: 0 <= i < j < |servers| ==> servers[i].id != servers[j].id
  }

  predicate ServersOk(st: Fwd) {
    && DistinctIds(st.servers)
    && (forall i :: 0 <= i < |st.frecs| && Active(st.frecs[i]) ==> HasServer(st.servers, st.frecs[i].sentto.v))
    && (st.lastServer.Some? ==> HasServer(st.servers, st.lastServer.v))
  }

  // Sockets and references; holds in the middle of a packet as well.
  predicate SockInv(st: Fwd) {
    && |st.socks| == RANDOM_SOCKS && st.finger < RANDOM_SOCKS
    && RefsOk(st.frecs, st.socks) && SocksOk(st.frecs, st.socks)
  }

  predicate RecordInv(st: Fwd, ftabsize: nat) {
    && |st.frecs| <= ftabsize + 1
    && KeysOk(st.frecs) && SerialsOk(st.frecs, st.nextSerial) && ServersOk(st)
  }

  predicate Inv(st: Fwd, ftabsize: nat) {
    SockInv(st) && RecordInv(st, ftabsize) && forall i :: 0 <= i < |st.frecs| ==> FrecOk(st.frecs[i])
  }

  // ---------- references ----------

  lemma {:induction false} RefsAt(fs: seq<Frec>, i: nat, f: Frec, j: nat)
    requires i < |fs|
    ensures Refs(fs[i := f], j) == Refs(fs, j) - RefsOf(fs[i], j) + RefsOf(f, j)
    ensures Refs(fs, j) >= RefsOf(fs[i], j)
  {
    if i == 0 {
      assert fs[i := f][1..] == fs[1..];
    } else {
      RefsAt(fs[1..], i - 1, f, j);
      assert fs[i := f][1..] == fs[1..][i - 1 := f];
    }
  }

  lemma ReleaseAt(socks: seq<Sock>, r: Option<nat>, j: nat)
    requires j < |socks| && (r.Some? ==> r.v < |socks| && socks[r.v].refcount > 0)
    ensures Release(socks, r)[j].refcount == socks[j].refcount - (if r == Some(j) then 1 else 0)
    ensures Release(socks, r)[j].family == socks[j].family
    ensures Release(socks, r)[j].open <==> socks[j].open && (r == Some(j) ==> Release(socks, r)[j].refcount > 0)
  {
  }

  // Giving up a record's sockets.
  lemma FreeFrecSocks(st: Fwd, i: nat)
    requires i < |st.frecs| && SockInv(st)
    ensures SockInv(FreeFrec(st, i))
  {
    hide RefsOk, SocksOk, Release;
    var f := st.frecs[i];
    var r := FreeFrec(st, i);
    forall j | 0 <= j < |st.socks|
      ensures r.socks[j].refcount == Refs(r.frecs, j) && r.socks[j].refcount <= REF_MAX
      ensures r.socks[j].family == st.socks[j].family
      ensures r.socks[j].open ==> r.socks[j].refcount > 0
    {
      FreeFrecAt(st, i, j);
    }
    FreedRecords(st, i);
    SocksRefs(r);
  }

  // A socket stays open exactly as long as some other record uses it.
  lemma FreeFrecAt(st: Fwd, i: nat, j: nat)
    requires i < |st.frecs| && SockInv(st) && j < |st.socks|
    ensures var r := FreeFrec(st, i);
      && r.socks[j].refcount == Refs(r.frecs, j) && r.socks[j].refcount <= REF_MAX
      && r.socks[j].family == st.socks[j].family
      && (r.socks[j].open <==> st.socks[j].open && r.socks[j].refcount > 0)
  {
    var f := st.frecs[i];
    RefsAt(st.frecs, i, f.(rfd4 := None, rfd6 := None, sentto := None), j);
    ReleaseAt(st.socks, f.rfd4, j);
    var mid := Release(st.socks, f.rfd4);
    if f.rfd6.Some? {
      RefsAt(st.frecs, i, f, f.rfd6.v);
      ReleaseAt(st.socks, f.rfd4, f.rfd6.v);
    }
    ReleaseAt(mid, f.rfd6, j);
  }

  // The records keep sockets of the right family; that these are in use follows from
  // the reference counts.
  predicate Families(fs: seq<Frec>, socks: seq<Sock>) {
    && (forall i :: 0 <= i < |fs| && fs[i].rfd4.Some? ==>
        fs[i].rfd4.v < |socks| && socks[fs[i].rfd4.v].family == Some(V4))
    && (forall i :: 0 <= i < |fs| && fs[i].rfd6.Some? ==>
        fs[i].rfd6.v < |socks| && socks[fs[i].rfd6.v].family == Some(V6))
  }

  lemma FreedRecords(st: Fwd, i: nat)
    requires i < |st.frecs| && SocksOk(st.frecs, st.socks)
    requires forall j :: 0 <= j < |st.socks| ==> FreeFrec(st, i).socks[j].family == st.socks[j].family
    ensures Families(FreeFrec(st, i).frecs, FreeFrec(st, i).socks)
  {
    hide Release;
    var r := FreeFrec(st, i);
    assert forall k :: 0 <= k < |st.frecs| ==>
        RfdOk(st.frecs[k].rfd4, st.socks, V4) && RfdOk(st.frecs[k].rfd6, st.socks, V6);
  }

  lemma SocksRefs(st: Fwd)
    requires |st.socks| == RANDOM_SOCKS && st.finger < RANDOM_SOCKS && Families(st.frecs, st.socks)
    requires forall j :: 0 <= j < |st.socks| ==>
        st.socks[j].refcount == Refs(st.frecs, j) && st.socks[j].refcount <= REF_MAX
    requires forall j :: 0 <= j < |st.socks| && st.socks[j].open ==> st.socks[j].refcount > 0
    ensures SockInv(st)
  {
    hide Refs;
    forall i | 0 <= i < |st.frecs|
      ensures RfdOk(st.frecs[i].rfd4, st.socks, V4) && RfdOk(st.frecs[i].rfd6, st.socks, V6)
    {
      if st.frecs[i].rfd4.Some? {
        RefsAt(st.frecs, i, st.frecs[i], st.frecs[i].rfd4.v);
      }
      if st.frecs[i].rfd6.Some? {
        RefsAt(st.frecs, i, st.frecs[i], st.frecs[i].rfd6.v);
      }
    }
  }

  // ---------- changes of a record that has no socket in them ----------

  // A field other than the sockets changes.
  lemma SetFrecSocks(st: Fwd, i: nat, f: Frec)
    requires i < |st.frecs| && SockInv(st) && f.rfd4 == st.frecs[i].rfd4 && f.rfd6 == st.frecs[i].rfd6
    ensures SockInv(st.(frecs := st.frecs[i := f]))
  {
    forall j | 0 <= j < |st.socks|
      ensures Refs(st.frecs[i := f], j) == Refs(st.frecs, j)
    {
      RefsAt(st.frecs, i, f, j);
    }
  }

  lemma AllocateFrecSocks(st: Fwd, now: nat)
    requires SockInv(st)
    ensures SockInv(AllocateFrec(st, now))
  {
    var r := AllocateFrec(st, now);
    assert r.frecs[1..] == st.frecs;
    assert forall i :: 0 < i < |r.frecs| ==> r.frecs[i] == st.frecs[i - 1];
  }

  // ---------- taking a socket ----------

  // An unused socket can be opened.
  predicate CanOpen(socks: seq<Sock>, opens: seq<bool>)
    requires |opens| == |socks|
  {
    exists j :: 0 <= j < |socks| && socks[j].refcount == 0 && opens[j]
  }

  // A socket handed out has one more user, of the right family; every other socket
  // keeps family, users and state. It is the first unused one that can be opened, or else
  // a shared one, from which the next search starts.
  lemma AllocateRfdAt(socks: seq<Sock>, finger: nat, fam: Family, opens: seq<bool>)
    requires |opens| == |socks|
    requires forall j :: 0 <= j < |socks| ==> socks[j].refcount <= REF_MAX
    ensures var g := AllocateRfd(socks, finger, fam, opens);
      && (g.sock.None? ==> g.socks == socks)
      && (g.sock.Some? ==>
            && g.socks[g.sock.v].family == Some(fam)
            && (socks[g.sock.v].family == Some(fam) || socks[g.sock.v].refcount == 0)
            && g.socks[g.sock.v].refcount == socks[g.sock.v].refcount + 1 <= REF_MAX
            && forall j :: 0 <= j < |socks| && j != g.sock.v ==> g.socks[j] == socks[j])
      && (CanOpen(socks, opens) ==>
            && g.sock.Some? && socks[g.sock.v].refcount == 0 && opens[g.sock.v] && g.finger == finger
            && forall j :: 0 <= j < g.sock.v ==> !(socks[j].refcount == 0 && opens[j]))
      && (!CanOpen(socks, opens) && g.sock.Some? ==> g.finger == g.sock.v)
      && (g.sock.None? ==> g.finger == finger)
  {
  }

  // Going round from the finger, the first socket of the family that has room for one
  // more user is open.
  predicate NextShareableIsOpen(socks: seq<Sock>, finger: nat, fam: Family) {
    exists k :: 0 <= k < |socks|
      && Shareable(socks[Slot(|socks|, finger, k)], fam) && socks[Slot(|socks|, finger, k)].open
      && forall m :: 0 <= m < k ==> !Shareable(socks[Slot(|socks|, finger, m)], fam)
  }

  // The socket handed out is usable exactly if an unused one can be opened, or the next one
  // to be shared is open: sockets of the family that were closed again count as shareable.
  lemma AllocateRfdOpen(socks: seq<Sock>, finger: nat, fam: Family, opens: seq<bool>)
    requires |opens| == |socks|
    ensures var g := AllocateRfd(socks, finger, fam, opens);
      g.sock.Some? && g.socks[g.sock.v].open <==> CanOpen(socks, opens) || NextShareableIsOpen(socks, finger, fam)
  {
    var i := FirstOpening(socks, opens);
    if i < |socks| {
      assert socks[i].refcount == 0 && opens[i];
    } else {
      var r := FirstShared(socks, fam, finger, 0);
      if NextShareableIsOpen(socks, finger, fam) {
        var k :| 0 <= k < |socks|
          && Shareable(socks[Slot(|socks|, finger, k)], fam) && socks[Slot(|socks|, finger, k)].open
          && forall m :: 0 <= m < k ==> !Shareable(socks[Slot(|socks|, finger, m)], fam);
        assert r == k;
      }
    }
  }

  // Such a case: the first query takes a socket of the empty table, its answer closes the
  // socket, and no socket can be opened for the next query.
  lemma ClosedSocketHandedOut()
    ensures var empty := seq(RANDOM_SOCKS, _ => Sock(0, None, false));
      var first := AllocateRfd(empty, 0, V4, seq(RANDOM_SOCKS, _ => true));
      var back := Release(first.socks, first.sock);
      var g := AllocateRfd(back, first.finger, V4, seq(RANDOM_SOCKS, _ => false));
      first.sock == Some(0) && first.socks[0].open && g.sock == Some(0) && !g.socks[0].open
  {
    var empty := seq(RANDOM_SOCKS, _ => Sock(0, None, false));
    var yes, no := seq(RANDOM_SOCKS, _ => true), seq(RANDOM_SOCKS, _ => false);
    assert FirstOpening(empty, yes) == 0;
    var first := AllocateRfd(empty, 0, V4, yes);
    var back := Release(first.socks, first.sock);
    assert back[0] == Sock(0, Some(V4), false);
    assert FirstOpening(back, no) == |back|;
    assert Slot(|back|, 0, 0) == 0;
    assert FirstShared(back, V4, 0, 0) == 0;
  }

  // Nothing is handed out only if no socket opens and none can be shared.
  lemma AllocateRfdNone(socks: seq<Sock>, finger: nat, fam: Family, opens: seq<bool>)
    requires |opens| == |socks| && finger < |socks| && AllocateRfd(socks, finger, fam, opens).sock.None?
    ensures forall j :: 0 <= j < |socks| ==> !(socks[j].refcount == 0 && opens[j]) && !Shareable(socks[j], fam)
  {
    forall j | 0 <= j < |socks|
      ensures !Shareable(socks[j], fam)
    {
      var k := if j >= finger then j - finger else j + |socks| - finger;
      assert Slot(|socks|, finger, k) == j by {
        SlotBack(|socks|, finger, j);
      }
    }
  }

  lemma SlotBack(n: nat, finger: nat, j: nat)
    requires j < n && finger < n
    ensures Slot(n, finger, if j >= finger then j - finger else j + n - finger) == j
  {
    if j < finger {
      assert (j + n - finger) + finger == j + n;
      assert (j + n) % n == j;
    }
  }

  // A record without a socket of the family gets one.
  lemma TakeRfdSocks(st: Fwd, i: nat, fam: Family, opens: seq<bool>)
    requires i < |st.frecs| && SockInv(st) && |opens| == |st.socks| && Rfd(st.frecs[i], fam).None?
    ensures var g := AllocateRfd(st.socks, st.finger, fam, opens);
      SockInv(st.(socks := g.socks, finger := g.finger, frecs := st.frecs[i := SetRfd(st.frecs[i], fam, g.sock)]))
  {
    hide AllocateRfd, Refs;
    AllocateRfdAt(st.socks, st.finger, fam, opens);
    var g := AllocateRfd(st.socks, st.finger, fam, opens);
    var r := st.(socks := g.socks, finger := g.finger, frecs := st.frecs[i := SetRfd(st.frecs[i], fam, g.sock)]);
    forall j | 0 <= j < |st.socks|
      ensures Refs(r.frecs, j) == Refs(st.frecs, j) + (if g.sock == Some(j) then 1 else 0)
      ensures st.socks[j].refcount == 0 ==> Refs(st.frecs, j) == 0
    {
      RefsAt(st.frecs, i, SetRfd(st.frecs[i], fam, g.sock), j);
    }
    assert Families(r.frecs, r.socks) by {
      TakeFamilies(st, i, fam, g.socks, g.sock);
    }
    SocksRefs(r);
  }

  lemma TakeFamilies(st: Fwd, i: nat, fam: Family, socks: seq<Sock>, sock: Option<nat>)
    requires i < |st.frecs| && SockInv(st) && |socks| == |st.socks|
    requires sock.None? ==> socks == st.socks
    requires sock.Some? ==> sock.v < |socks| && socks[sock.v].family == Some(fam)
    requires sock.Some? ==> st.socks[sock.v].family == Some(fam) || st.socks[sock.v].refcount == 0
    requires sock.Some? ==> forall j :: 0 <= j < |socks| && j != sock.v ==> socks[j] == st.socks[j]
    ensures Families(st.frecs[i := SetRfd(st.frecs[i], fam, sock)], socks)
  {
    assert forall k :: 0 <= k < |st.frecs| ==>
        RfdOk(st.frecs[k].rfd4, st.socks, V4) && RfdOk(st.frecs[k].rfd6, st.socks, V6);
  }
}
