// The forwarding table as forward.c works on it: loops over the list of records and the
// array of sockets, each method proved to do what its function in ForwardTable or
// ForwardQuery says.
module ForwardStore {
  import opened Optional
  import opened HostNames
  import opened ForwardTable
  import opened ForwardQuery
  import opened Slices

  class Forwarder {
    var frecs: seq<Frec>
    var servers: seq<Srv>
    var lastServer: Option<nat>
    var finger: nat
    var nextSerial: nat
    const socks: array<Sock>

    ghost function St(): Fwd
      reads this, socks
    {
      Fwd(frecs, socks[..], servers, lastServer, finger, nextSerial)
    }

    constructor (list: seq<Srv>)
      ensures fresh(socks) && socks.Length == RANDOM_SOCKS
      ensures St() == Fwd([], seq(RANDOM_SOCKS, _ => Sock(0, None, false)), list, None, 0, 0)
    {
      frecs, servers, lastServer, finger, nextSerial := [], list, None, 0, 0;
      socks := new Sock[RANDOM_SOCKS](_ => Sock(0, None, false));
      new;
      assert socks[..] == seq(RANDOM_SOCKS, _ => Sock(0, None, false));
    }

    // One user fewer of a socket.
    method ReleaseSock(r: Option<nat>)
      modifies socks
      ensures socks[..] == Release(old(socks[..]), r)
    {
      if r.Some? && r.v < socks.Length && socks[r.v].refcount > 0 {
        var s := socks[r.v];
        s := s.(refcount := s.refcount - 1);
        if s.refcount == 0 {
          s := s.(open := false);
        }
        socks[r.v] := s;
      }
    }

    method FreeFrecAt(i: nat)
      requires i < |frecs|
      modifies this`frecs, socks
      ensures St() == FreeFrec(old(St()), i)
    {
      hide Release;
      ReleaseSock(frecs[i].rfd4);
      ReleaseSock(frecs[i].rfd6);
      frecs := frecs[i := frecs[i].(rfd4 := None, rfd6 := None, sentto := None)];
    }

    method AllocateRandomSock(fam: Family, opens: seq<bool>) returns (sock: Option<nat>)
      requires |opens| == socks.Length
      modifies this`finger, socks
      ensures AllocateRfd(old(socks[..]), old(finger), fam, opens) == Got(socks[..], finger, sock)
    {
      var i := 0;
      while i < socks.Length
        invariant 0 <= i <= socks.Length
        invariant socks[..] == old(socks[..])
        invariant forall k :: 0 <= k < i ==> !(socks[k].refcount == 0 && opens[k])
      {
        if socks[i].refcount == 0 && opens[i] {
          assert FirstOpening(old(socks[..]), opens) == i;
          socks[i] := Sock(1, Some(fam), true);
          return Some(i);
        }
        i := i + 1;
      }
      assert FirstOpening(old(socks[..]), opens) == socks.Length;
      i := 0;
      while i < socks.Length
        invariant 0 <= i <= socks.Length
        invariant socks[..] == old(socks[..]) && finger == old(finger)
        invariant FirstShared(old(socks[..]), fam, finger, 0) == FirstShared(old(socks[..]), fam, finger, i)
      {
        var j := (i + finger) % socks.Length;
        assert j == Slot(socks.Length, finger, i);
        if socks[j].family == Some(fam) && socks[j].refcount != REF_MAX {
          finger := j;
          socks[j] := socks[j].(refcount := socks[j].refcount + 1);
          return Some(j);
        }
        i := i + 1;
      }
      sock := None;
    }

    method FindById(id: nat, crc: nat) returns (i: nat)
      ensures i == LookupFrec(frecs, id, crc)
    {
      i := 0;
      while i < |frecs| && !(frecs[i].sentto.Some? && frecs[i].newId == id &&
          (frecs[i].crc == crc || crc == CRC_UNKNOWN))
        invariant i <= |frecs|
        invariant forall k :: 0 <= k < i ==> !IdFits(frecs[k], id, crc)
      {
        i := i + 1;
      }
    }

    method FindBySender(id: nat, source: nat, crc: nat) returns (i: nat)
      ensures i == LookupBySender(frecs, id, source, crc)
    {
      i := 0;
      while i < |frecs| && !(frecs[i].sentto.Some? && frecs[i].origId == id && frecs[i].crc == crc &&
          frecs[i].source == source)
        invariant i <= |frecs|
        invariant forall k :: 0 <= k < i ==> !SenderFits(frecs[k], id, source, crc)
      {
        i := i + 1;
      }
    }

    // The search of get_new_frec: stale records are freed on the way.
    method Search(now: nat) returns (target: Option<nat>, oldest: Option<nat>)
      modifies this`frecs, socks
      ensures St() == Sweep(old(St()), now, |old(frecs)|)
      ensures target == Target(old(frecs), now, |old(frecs)|)
      ensures target.None? ==> oldest == Oldest(old(frecs), |old(frecs)|)
    {
      hide Release, FreeFrec;
      ghost var before := St();
      target, oldest := None, None;
      var i := 0;
      while i < |frecs|
        invariant 0 <= i <= |frecs| == |before.frecs|
        invariant St() == Sweep(before, now, i)
        invariant target == Target(before.frecs, now, i)
        invariant oldest == Oldest(before.frecs, i)
        invariant forall k :: i <= k < |frecs| ==> frecs[k] == before.frecs[k]
        invariant forall k :: 0 <= k < i ==> frecs[k].time == before.frecs[k].time
      {
        var f := frecs[i];
        if f.sentto.None? {
          target := Some(i);
        } else {
          if now >= f.time + 4 * TIMEOUT {
            FreedAt(St(), i);
            FreeFrecAt(i);
            target := Some(i);
          }
          if oldest.None? || f.time <= frecs[oldest.v].time {
            oldest := Some(i);
          }
        }
        i := i + 1;
      }
    }

    static lemma FreedAt(st: Fwd, i: nat)
      requires i < |st.frecs|
      ensures forall k :: 0 <= k < |st.frecs| ==> FreeFrec(st, i).frecs[k].time == st.frecs[k].time
      ensures forall k :: 0 <= k < |st.frecs| && k != i ==> FreeFrec(st, i).frecs[k] == st.frecs[k]
    {
    }

    method NewRecord(now: nat, wait: bool, ftabsize: nat, room: bool) returns (frec: Option<nat>, delay: int)
      modifies this`frecs, socks
      ensures GetNewFrec(old(St()), now, wait, ftabsize, room) == NewFrec(St(), frec, delay)
    {
      hide Release, FreeFrec, Sweep, Target, Oldest;
      ghost var before := St();
      SweepSame(before, now, |frecs|);
      var target, oldest := Search(now);
      delay := 0;
      if target.Some? {
        frecs := frecs[target.v := frecs[target.v].(time := now)];
        return target, delay;
      }
      if oldest.Some? && now >= frecs[oldest.v].time + TIMEOUT {
        if now < frecs[oldest.v].time + 2 * TIMEOUT && |frecs| <= ftabsize && room {
          frecs := [BLANK.(time := now)] + frecs;
          return Some(0), delay;
        }
        if !wait {
          FreedAt(St(), oldest.v);
          FreeFrecAt(oldest.v);
          frecs := frecs[oldest.v := frecs[oldest.v].(time := now)];
        }
        return oldest, delay;
      }
      if |frecs| > ftabsize {
        if oldest.Some? && wait {
          delay := frecs[oldest.v].time + TIMEOUT - now;
        }
        return None, delay;
      }
      if room {
        frecs := [BLANK.(time := now)] + frecs;
        return Some(0), delay;
      }
      frec := None;
      delay := if wait then 1 else 0;
    }

    static lemma {:induction false} SweepSame(st: Fwd, now: nat, n: nat)
      requires n <= |st.frecs|
      ensures forall k :: 0 <= k < |st.frecs| ==> Sweep(st, now, n).frecs[k].time == st.frecs[k].time
    {
      if n > 0 {
        SweepSame(st, now, n - 1);
      }
    }

    // Random ids are drawn until one is unused; there must be one among them.
    method NewId(force: bool, forceId: nat, crc: nat, randoms: seq<nat>) returns (id: nat, ghost drawn: nat)
      requires !force ==> exists k :: 0 <= k < |randoms| && LookupFrec(frecs, randoms[k], crc) == |frecs|
      modifies this`frecs, socks
      ensures (St(), id) == GetId(old(St()), force, forceId, crc, drawn)
      ensures !force ==> drawn in randoms && LookupFrec(frecs, drawn, crc) == |frecs|
    {
      drawn := 0;
      if force {
        var i := FindById(forceId, crc);
        if i < |frecs| {
          FreeFrecAt(i);
        }
        id := forceId;
      } else {
        var n := 0;
        id := randoms[0];
        var i := FindById(id, crc);
        while i < |frecs|
          invariant St() == old(St())
          invariant 0 <= n < |randoms| && id == randoms[n] && i == LookupFrec(frecs, id, crc)
          invariant exists k :: n <= k < |randoms| && LookupFrec(frecs, randoms[k], crc) == |frecs|
          decreases |randoms| - n
        {
          n := n + 1;
          id := randoms[n];
          i := FindById(id, crc);
        }
        drawn := id;
      }
    }

    method ForgetServer(server: nat)
      modifies this`frecs, this`lastServer, socks
      ensures St() == ServerGone(old(St()), server)
    {
      hide Release, FreeFrec;
      ghost var before := St();
      var i := 0;
      while i < |frecs|
        invariant 0 <= i <= |frecs| == |before.frecs|
        invariant St() == FreeSentTo(before, server, i) && lastServer == before.lastServer
        invariant forall k :: i <= k < |frecs| ==> frecs[k] == before.frecs[k]
      {
        if frecs[i].sentto == Some(server) {
          FreedAt(St(), i);
          FreeFrecAt(i);
        }
        i := i + 1;
      }
      if lastServer == Some(server) {
        lastServer := None;
      }
    }

    // A socket for sending to the server, taken from the pool if need be.
    method SocketFor(i: nat, s: Srv, net: Net) returns (ok: bool)
      requires i < |frecs| && |net.opens4| == |net.opens6| == socks.Length
      modifies this`frecs, this`finger, socks
      ensures FindSocket(old(St()), i, s, net) == WithSocket(St(), ok)
    {
      hide AllocateRfd;
      ok := true;
      if !s.ownSocket {
        if s.family == V6 {
          if frecs[i].rfd6.None? {
            var r := AllocateRandomSock(V6, net.opens6);
            frecs := frecs[i := frecs[i].(rfd6 := r)];
            ok := r.Some?;
          }
        } else if frecs[i].rfd4.None? {
          var r := AllocateRandomSock(V4, net.opens4);
          frecs := frecs[i := frecs[i].(rfd4 := r)];
          ok := r.Some?;
        }
      }
    }

    // The send loop of forward_query: round the list of servers once, from the first one.
    method SendLoop(i: nat, first: nat, kind: nat, domain: string, net: Net) returns (to: seq<nat>)
      requires i < |frecs| && first < |servers| && |net.opens4| == |net.opens6| == socks.Length
      modifies this`frecs, this`finger, socks
      ensures SendOn(old(St()), i, first, |servers|, kind, domain, net) == Sent(St(), to)
    {
      hide FindSocket, Suitable, SendOn;
      to := [];
      var idx: nat, steps: nat := first, |servers|;
      ghost var whole := SendOn(St(), i, first, steps, kind, domain, net);
      while steps > 0
        invariant i < |frecs| && idx < |servers| && |frecs| == |old(frecs)|
        invariant servers == old(servers) && lastServer == old(lastServer) && nextSerial == old(nextSerial)
        invariant var rest := SendOn(St(), i, idx, steps, kind, domain, net); whole == Sent(rest.st, to + rest.to)
        decreases steps
      {
        var s := servers[idx];
        var next: nat := if idx + 1 == |servers| then 0 else idx + 1;
        SendUnroll(St(), i, idx, steps, kind, domain, net);
        var fits := HostnameFits(s, kind, domain);
        if fits {
          var ok := SocketFor(i, s, net);
          if !ok {
            return;
          }
          if s.id in net.reach {
            Regroup(to, [idx], SendOn(Marked(St(), i, s), i, next, steps - 1, kind, domain, net).to);
            to := to + [idx];
            ghost var found := frecs;
            frecs := frecs[i := frecs[i].(sentto := Some(s.id))];
            if frecs[i].forwardall == 0 {
              return;
            }
            frecs := frecs[i := frecs[i].(forwardall := frecs[i].forwardall + 1)];
            assert frecs == found[i := MarkSent(found[i], s)];
          }
        }
        idx, steps := next, steps - 1;
      }
      SendNone(St(), i, idx, kind, domain, net);
    }

    static method HostnameFits(s: Srv, kind: nat, domain: string) returns (fits: bool)
      ensures fits == Suitable(s, kind, domain)
    {
      fits := kind == s.kind && !s.literal;
      if fits && kind == HAS_DOMAIN {
        fits := HostnameIsEqual(domain, s.domain);
      }
    }
  }
}
