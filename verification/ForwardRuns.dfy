// The forwarding table over whole runs.
module ForwardRuns {
  import opened Optional
  import opened ForwardTable
  import opened ForwardInvariant
  import opened ForwardQuery

  // ---------- freeing records ----------

  lemma FreeFrecKeeps(st: Fwd, i: nat, ftabsize: nat)
    requires i < |st.frecs| && Inv(st, ftabsize)
    ensures Inv(FreeFrec(st, i), ftabsize)
  {
    hide SockInv, Release;
    FreeFrecSocks(st, i);
    FreeFrecRecords(st, i, ftabsize);
  }

  lemma FreeFrecRecords(st: Fwd, i: nat, ftabsize: nat)
    requires i < |st.frecs| && RecordInv(st, ftabsize)
    ensures RecordInv(FreeFrec(st, i), ftabsize)
  {
    hide Release;
  }

  lemma {:induction false} SweepKeeps(st: Fwd, now: nat, n: nat, ftabsize: nat)
    requires n <= |st.frecs| && Inv(st, ftabsize)
    ensures Inv(Sweep(st, now, n), ftabsize)
  {
    hide Inv, FreeFrec, Stale;
    if n > 0 {
      SweepKeeps(st, now, n - 1, ftabsize);
      if Stale(st.frecs[n - 1], now) {
        FreeFrecKeeps(Sweep(st, now, n - 1), n - 1, ftabsize);
      }
    }
  }

  // What the sweep does to each record.
  lemma {:induction false} SweepIs(st: Fwd, now: nat, n: nat, k: nat)
    requires n <= |st.frecs| && k < |st.frecs|
    ensures var f := Sweep(st, now, n).frecs[k];
      if k < n && Stale(st.frecs[k], now) then !Active(f) && f.time == st.frecs[k].time else f == st.frecs[k]
  {
    if n > 0 {
      SweepIs(st, now, n - 1, k);
    }
  }

  lemma {:induction false} FreeSentToKeeps(st: Fwd, server: nat, n: nat, ftabsize: nat)
    requires n <= |st.frecs| && Inv(st, ftabsize)
    ensures Inv(FreeSentTo(st, server, n), ftabsize)
  {
    hide Inv, FreeFrec;
    if n > 0 {
      FreeSentToKeeps(st, server, n - 1, ftabsize);
      if st.frecs[n - 1].sentto == Some(server) {
        FreeFrecKeeps(FreeSentTo(st, server, n - 1), n - 1, ftabsize);
      }
    }
  }

  // ---------- get_new_frec ----------

  lemma TouchKeeps(st: Fwd, i: nat, now: nat, ftabsize: nat)
    requires i < |st.frecs| && Inv(st, ftabsize)
    ensures Inv(Touch(st, i, now), ftabsize)
  {
    hide SockInv;
    SetFrecSocks(st, i, st.frecs[i].(time := now));
  }

  lemma AllocateFrecKeeps(st: Fwd, now: nat, ftabsize: nat)
    requires Inv(st, ftabsize) && |st.frecs| <= ftabsize
    ensures Inv(AllocateFrec(st, now), ftabsize)
  {
    AllocateFrecSocks(st, now);
    var r := AllocateFrec(st, now);
    assert forall i :: 0 < i < |r.frecs| ==> r.frecs[i] == st.frecs[i - 1];
  }

  // The table never has more than ftabsize + 1 records. Without "wait" the record handed
  // out is free, and its use ends no other that is younger than TIMEOUT.
  lemma GetNewFrecSafe(st: Fwd, now: nat, wait: bool, ftabsize: nat, room: bool)
    requires Inv(st, ftabsize)
    ensures Inv(GetNewFrec(st, now, wait, ftabsize, room).st, ftabsize)
    ensures var g := GetNewFrec(st, now, wait, ftabsize, room);
      !wait && g.frec.Some? ==> !Active(g.st.frecs[g.frec.v]) && g.st.frecs[g.frec.v].time == now
  {
    hide Inv, FreeFrec;
    var n := |st.frecs|;
    SweepKeeps(st, now, n, ftabsize);
    var swept := Sweep(st, now, n);
    var target := Target(st.frecs, now, n);
    if target.Some? {
      SweepIs(st, now, n, target.v);
      TouchKeeps(swept, target.v, now, ftabsize);
    } else {
      var oldest := Oldest(st.frecs, n);
      if n <= ftabsize {
        AllocateFrecKeeps(swept, now, ftabsize);
      }
      if oldest.Some? {
        FreeFrecKeeps(swept, oldest.v, ftabsize);
        assert !Active(FreeFrec(swept, oldest.v).frecs[oldest.v]) by {
          FreeFrecFrees(swept, oldest.v);
        }
        TouchKeeps(FreeFrec(swept, oldest.v), oldest.v, now, ftabsize);
      }
    }
  }

  lemma FreeFrecFrees(st: Fwd, i: nat)
    requires i < |st.frecs|
    ensures !Active(FreeFrec(st, i).frecs[i])
    ensures FreeFrec(st, i).nextSerial == st.nextSerial && FreeFrec(st, i).servers == st.servers
    ensures FreeFrec(st, i).lastServer == st.lastServer
    ensures forall k :: 0 <= k < |st.frecs| && k != i ==> FreeFrec(st, i).frecs[k] == st.frecs[k]
  {
  }

  // Where the k-th record is afterwards.
  function MovedTo(st: Fwd, g: NewFrec, k: nat): nat {
    if |g.st.frecs| > |st.frecs| then k + 1 else k
  }

  lemma EvictsOnlyOld(st: Fwd, now: nat, wait: bool, ftabsize: nat, room: bool, k: nat)
    requires k < |st.frecs| && Active(st.frecs[k]) && now < st.frecs[k].time + TIMEOUT
    ensures var g := GetNewFrec(st, now, wait, ftabsize, room);
      MovedTo(st, g, k) < |g.st.frecs| && g.st.frecs[MovedTo(st, g, k)] == st.frecs[k]
  {
    hide FreeFrec, Sweep;
    SweepIs(st, now, |st.frecs|, k);
    var oldest := Oldest(st.frecs, |st.frecs|);
    if oldest.Some? {
      FreeFrecFrees(Sweep(st, now, |st.frecs|), oldest.v);
    }
  }

  // The record has waited longest; of several, the last in the list.
  predicate LongestWaiting(fs: seq<Frec>, k: nat) {
    && k < |fs| && Active(fs[k])
    && (forall j :: 0 <= j < |fs| && Active(fs[j]) ==> fs[k].time <= fs[j].time && (j > k ==> fs[k].time < fs[j].time))
  }

  // The one that waited longest gives way if none is free: after ten seconds, or after
  // twenty if the table may still grow.
  predicate GivesWay(st: Fwd, now: nat, wait: bool, ftabsize: nat, room: bool, k: nat) {
    && LongestWaiting(st.frecs, k) && !wait && now >= st.frecs[k].time + 10
    && (forall j :: 0 <= j < |st.frecs| ==> Active(st.frecs[j]) && now < st.frecs[j].time + 40)
    && !(now < st.frecs[k].time + 20 && |st.frecs| <= ftabsize && room)
  }

  lemma {:induction false} OldestIs(fs: seq<Frec>, n: nat)
    requires n <= |fs|
    ensures Oldest(fs, n).Some? ==> LongestWaiting(fs[..n], Oldest(fs, n).v)
    ensures forall k: nat :: LongestWaiting(fs[..n], k) ==> Oldest(fs, n) == Some(k)
  {
    if n > 0 {
      OldestIs(fs, n - 1);
      assert forall j :: 0 <= j < n - 1 ==> fs[..n][j] == fs[..n - 1][j];
      assert fs[..n][n - 1] == fs[n - 1];
      forall k: nat | LongestWaiting(fs[..n], k)
        ensures Oldest(fs, n) == Some(k)
      {
        if k < n - 1 {
          assert LongestWaiting(fs[..n - 1], k);
        }
      }
    }
  }

  ghost predicate Survives(st: Fwd, g: NewFrec, k: nat)
    requires k < |st.frecs|
  {
    MovedTo(st, g, k) < |g.st.frecs| && g.st.frecs[MovedTo(st, g, k)] == st.frecs[k]
  }

  // With a record that is free or stale.
  lemma EndsWithTarget(st: Fwd, now: nat, wait: bool, ftabsize: nat, room: bool, k: nat)
    requires k < |st.frecs| && Active(st.frecs[k]) && Target(st.frecs, now, |st.frecs|).Some?
    ensures Survives(st, GetNewFrec(st, now, wait, ftabsize, room), k) <==> now < st.frecs[k].time + 40
    ensures !GivesWay(st, now, wait, ftabsize, room, k)
  {
    hide Sweep, LongestWaiting, Oldest;
    var n := |st.frecs|;
    SweepIs(st, now, n, k);
    SweepIs(st, now, n, Target(st.frecs, now, n).v);
  }

  // With none, where all are in use.
  lemma EndsWithout(st: Fwd, now: nat, wait: bool, ftabsize: nat, room: bool, k: nat)
    requires k < |st.frecs| && Active(st.frecs[k]) && Target(st.frecs, now, |st.frecs|).None?
    requires forall i: nat :: LongestWaiting(st.frecs, i) <==> Oldest(st.frecs, |st.frecs|) == Some(i)
    ensures now < st.frecs[k].time + 40
    ensures Survives(st, GetNewFrec(st, now, wait, ftabsize, room), k) <==> !GivesWay(st, now, wait, ftabsize, room, k)
  {
    hide FreeFrec, Sweep, LongestWaiting, Target, Oldest;
    var n := |st.frecs|;
    SweepIs(st, now, n, k);
    var oldest := Oldest(st.frecs, n);
    if oldest.Some? {
      FreeFrecFrees(Sweep(st, now, n), oldest.v);
    }
  }

  // A record stays as it is unless it has waited for forty seconds or gives way.
  lemma EndsExactly(st: Fwd, now: nat, wait: bool, ftabsize: nat, room: bool, k: nat)
    requires k < |st.frecs| && Active(st.frecs[k])
    ensures Survives(st, GetNewFrec(st, now, wait, ftabsize, room), k)
      <==> now < st.frecs[k].time + 40 && !GivesWay(st, now, wait, ftabsize, room, k)
  {
    hide GetNewFrec, Survives, GivesWay, LongestWaiting;
    var n := |st.frecs|;
    OldestIs(st.frecs, n);
    assert st.frecs[..n] == st.frecs;
    if Target(st.frecs, now, n).Some? {
      EndsWithTarget(st, now, wait, ftabsize, room, k);
    } else {
      EndsWithout(st, now, wait, ftabsize, room, k);
    }
  }

  // How long to wait when there is no record: until the one that waited longest has done so
  // for ten seconds, or a second if only memory is short.
  lemma WaitIs(st: Fwd, now: nat, wait: bool, ftabsize: nat, room: bool)
    ensures var g := GetNewFrec(st, now, wait, ftabsize, room);
      if g.frec.Some? || !wait then g.wait == 0
      else if |st.frecs| <= ftabsize then g.wait == 1
      else exists k: nat :: LongestWaiting(st.frecs, k) && g.wait == st.frecs[k].time + 10 - now > 0
  {
    var n := |st.frecs|;
    OldestIs(st.frecs, n);
    assert st.frecs[..n] == st.frecs;
  }

  // No record at all only if every record is in use and young, and the table full or
  // memory short.
  lemma NoRecordMeansBusy(st: Fwd, now: nat, ftabsize: nat, room: bool)
    requires GetNewFrec(st, now, false, ftabsize, room).frec.None?
    ensures forall k :: 0 <= k < |st.frecs| ==> Active(st.frecs[k]) && now < st.frecs[k].time + TIMEOUT
    ensures |st.frecs| > ftabsize || !room
  {
  }

  // ---------- ids ----------

  // Nobody else has the key or the serial of record i, or would have them were it sent.
  predicate Apart(st: Fwd, i: nat)
    requires i < |st.frecs|
  {
    && st.frecs[i].serial < st.nextSerial
    && forall k :: 0 <= k < |st.frecs| && k != i && Active(st.frecs[k]) ==>
         (st.frecs[k].newId != st.frecs[i].newId || st.frecs[k].crc != st.frecs[i].crc) &&
             st.frecs[k].serial != st.frecs[i].serial
  }

  // The id is one that a reply with this crc finds no record by.
  predicate IdTaken(fs: seq<Frec>, id: nat, crc: nat) {
    exists k :: 0 <= k < |fs| && Active(fs[k]) && fs[k].newId == id && fs[k].crc == crc
  }

  // What the random loop of get_id waits for.
  predicate GoodRandom(fs: seq<Frec>, q: Query) {
    LookupFrec(fs, q.random, q.crc) == |fs|
  }

  lemma FreeFrecTakesId(st: Fwd, i: nat, id: nat, crc: nat)
    requires i < |st.frecs| && KeysOk(st.frecs) && IdFits(st.frecs[i], id, crc) && st.frecs[i].crc == crc
    ensures !IdTaken(FreeFrec(st, i).frecs, id, crc)
  {
    FreeFrecFrees(st, i);
    forall k | 0 <= k < |st.frecs| && k != i
      ensures !SameKey(st.frecs[i], st.frecs[k])
    {
      assert i < k ==> !SameKey(st.frecs[i], st.frecs[k]);
      assert k < i ==> !SameKey(st.frecs[k], st.frecs[i]);
    }
  }

  // After get_id the id is free for the crc, exactly unless it was forced while the crc
  // is unknown and a record other than the first one with the id has that crc as well.
  lemma GetIdFrees(st: Fwd, q: Query)
    requires KeysOk(st.frecs) && (!q.sign ==> GoodRandom(st.frecs, q))
    requires q.sign ==> q.crc != CRC_UNKNOWN
    ensures var (r, id) := GetId(st, q.sign, q.id, q.crc, q.random); !IdTaken(r.frecs, id, q.crc)
  {
    hide FreeFrec;
    var i := LookupFrec(st.frecs, q.id, q.crc);
    if q.sign && i < |st.frecs| {
      FreeFrecTakesId(st, i, q.id, q.crc);
    }
  }

  predicate SecondHolder(fs: seq<Frec>, id: nat, crc: nat) {
    var i := LookupFrec(fs, id, crc);
    exists k :: 0 <= k < |fs| && k != i && Active(fs[k]) && fs[k].newId == id && fs[k].crc == crc
  }

  lemma GetIdExact(st: Fwd, q: Query)
    requires KeysOk(st.frecs) && q.sign
    ensures var (r, id) := GetId(st, q.sign, q.id, q.crc, q.random);
      IdTaken(r.frecs, id, q.crc) <==> SecondHolder(st.frecs, q.id, q.crc)
    ensures SecondHolder(st.frecs, q.id, q.crc) ==> q.crc == CRC_UNKNOWN
  {
    hide FreeFrec;
    var i := LookupFrec(st.frecs, q.id, q.crc);
    var r := GetId(st, q.sign, q.id, q.crc, q.random).0;
    if i < |st.frecs| {
      FreeFrecFrees(st, i);
      if q.crc != CRC_UNKNOWN {
        FreeFrecTakesId(st, i, q.id, q.crc);
      }
    }
    if SecondHolder(st.frecs, q.id, q.crc) {
      var k :| 0 <= k < |st.frecs| && k != i && Active(st.frecs[k]) && st.frecs[k].newId == q.id &&
          st.frecs[k].crc == q.crc;
      assert IdFits(st.frecs[k], q.id, q.crc);
      assert r.frecs[k] == st.frecs[k];
    }
    if IdTaken(r.frecs, q.id, q.crc) {
      var k :| 0 <= k < |r.frecs| && Active(r.frecs[k]) && r.frecs[k].newId == q.id && r.frecs[k].crc == q.crc;
      assert IdFits(r.frecs[k], q.id, q.crc);
      assert k != i && st.frecs[k] == r.frecs[k];
    }
  }

  // A record made for query 7, with the checksum of its questions.
  function Forced(crc: nat, serial: nat): Frec {
    Frec(serial, 0, 7, 7, crc, Some(0), None, None, 0, 0, serial)
  }

  // Such a case: of the records of two signed queries the first found is freed, and the
  // other still answers to the id and the checksum.
  lemma ForcedIdStays(servers: seq<Srv>, q: Query)
    requires DistinctIds(servers) && HasServer(servers, 0) && q.sign && q.id == 7 && q.crc == CRC_UNKNOWN
    ensures var socks := seq(RANDOM_SOCKS, _ => Sock(0, None, false));
      var st := Fwd([Forced(1, 1), Forced(CRC_UNKNOWN, 0)], socks, servers, None, 0, 2);
      var (r, id) := GetId(st, true, q.id, q.crc, q.random);
      Inv(st, 150) && id == 7 && IdTaken(r.frecs, id, q.crc)
  {
    var fs := [Forced(1, 1), Forced(CRC_UNKNOWN, 0)];
    assert fs[1..] == [Forced(CRC_UNKNOWN, 0)];
    assert [Forced(CRC_UNKNOWN, 0)][1..] == [];
    forall j: nat
      ensures Refs(fs, j) == 0
    {
      assert Refs(fs[1..], j) == RefsOf(Forced(CRC_UNKNOWN, 0), j) + Refs([], j);
    }
    assert LookupFrec(fs, 7, CRC_UNKNOWN) == 0;
    assert fs[0 := Forced(1, 1).(sentto := None)][1] == fs[1];
  }

  lemma GetIdKeeps(st: Fwd, q: Query, ftabsize: nat)
    requires Inv(st, ftabsize)
    ensures Inv(GetId(st, q.sign, q.id, q.crc, q.random).0, ftabsize)
  {
    hide Inv, FreeFrec;
    var i := LookupFrec(st.frecs, q.id, q.crc);
    if q.sign && i < |st.frecs| {
      FreeFrecKeeps(st, i, ftabsize);
    }
  }

  // ---------- the send loop ----------

  // Only sockets, the server and the countdown of record i change.
  predicate OnlySent(st: Fwd, r: Fwd, i: nat) {
    && i < |st.frecs| && |r.frecs| == |st.frecs| && |r.socks| == |st.socks|
    && r.servers == st.servers && r.lastServer == st.lastServer && r.nextSerial == st.nextSerial
    && (forall k :: 0 <= k < |st.frecs| && k != i ==> r.frecs[k] == st.frecs[k])
    && r.frecs[i] == st.frecs[i].(rfd4 := r.frecs[i].rfd4, rfd6 := r.frecs[i].rfd6, sentto := r.frecs[i].sentto,
        forwardall := r.frecs[i].forwardall)
  }

  // Sending to n servers counts n, or stops after one.
  predicate Counted(f: Frec, r: Frec, count: nat, servers: seq<Srv>) {
    && (if f.forwardall == 0 then count <= 1 && r.forwardall == 0 else r.forwardall == f.forwardall + count)
    && (count == 0 ==> r.sentto == f.sentto)
    && (count > 0 ==> Active(r) && HasServer(servers, r.sentto.v))
  }

  lemma FindSocketEffect(st: Fwd, i: nat, s: Srv, net: Net)
    requires i < |st.frecs| && SockInv(st) && |net.opens4| == |net.opens6| == |st.socks|
    ensures var w := FindSocket(st, i, s, net);
      SockInv(w.st) && OnlySent(st, w.st,
          i) && w.st.frecs[i].sentto == st.frecs[i].sentto && w.st.frecs[i].forwardall == st.frecs[i].forwardall
  {
    hide SockInv;
    if NeedsSocket(st.frecs[i], s) {
      TakeRfdSocks(st, i, s.family, Opens(net, s.family));
    }
  }

  lemma {:induction false} SendOnEffect(st: Fwd, i: nat, idx: nat, steps: nat, kind: nat, domain: string, net: Net)
    requires i < |st.frecs| && idx < |st.servers| && SockInv(st) && |net.opens4| == |net.opens6| == |st.socks|
    ensures var r := SendOn(st, i, idx, steps, kind, domain, net);
      SockInv(r.st) && OnlySent(st, r.st, i) && Counted(st.frecs[i], r.st.frecs[i], |r.to|, st.servers)
    decreases steps
  {
    hide SockInv, FindSocket, Suitable;
    if steps > 0 {
      var s := st.servers[idx];
      var next := NextServer(|st.servers|, idx);
      if !Suitable(s, kind, domain) {
        SendOnEffect(st, i, next, steps - 1, kind, domain, net);
      } else {
        var w := FindSocket(st, i, s, net);
        FindSocketEffect(st, i, s, net);
        if w.ok {
          if s.id !in net.reach {
            SendOnEffect(w.st, i, next, steps - 1, kind, domain, net);
          } else {
            var f := MarkSent(w.st.frecs[i], s);
            var st' := w.st.(frecs := w.st.frecs[i := f]);
            SetFrecSocks(w.st, i, f);
            if f.forwardall > 0 {
              SendOnEffect(st', i, next, steps - 1, kind, domain, net);
            }
          }
        }
      }
    }
  }

  // All but record i are in order, and i is fit to be sent.
  predicate Ready(st: Fwd, i: nat, ftabsize: nat) {
    && i < |st.frecs| && SockInv(st) && RecordInv(st, ftabsize) && Apart(st, i)
    && forall k :: 0 <= k < |st.frecs| && k != i ==> FrecOk(st.frecs[k])
  }

  lemma OnlySentRecords(st: Fwd, r: Fwd, i: nat, ftabsize: nat)
    requires OnlySent(st, r, i) && Ready(st, i, ftabsize) && SockInv(r)
    requires Active(r.frecs[i]) ==> HasServer(r.servers, r.frecs[i].sentto.v)
    ensures Ready(r, i, ftabsize)
  {
    hide SockInv, HasServer;
  }

  lemma FinishKeeps(st: Fwd, r: Sent, i: nat, ftabsize: nat)
    requires Ready(st, i, ftabsize) && OnlySent(st, r.st, i) && SockInv(r.st)
    requires Counted(st.frecs[i], r.st.frecs[i], |r.to|, st.servers)
    ensures Inv(Finish(r, i).0, ftabsize)
    ensures Finish(r, i).1 <==> Active(Finish(r, i).0.frecs[i])
  {
    hide SockInv, HasServer, KeysOk, SerialsOk;
    OnlySentServer(st, r.st, i, ftabsize);
    OnlySentRecords(st, r.st, i, ftabsize);
    if |r.to| == 0 {
      FreeFrecSocks(r.st, i);
      FreeFrecRecords(r.st, i, ftabsize);
      FreeFrecFrees(r.st, i);
    }
  }

  lemma OnlySentServer(st: Fwd, r: Fwd, i: nat, ftabsize: nat)
    requires Ready(st, i, ftabsize) && OnlySent(st, r, i)
    ensures r.frecs[i].sentto == st.frecs[i].sentto && Active(r.frecs[i]) ==> HasServer(r.servers, r.frecs[i].sentto.v)
  {
    hide SockInv;
  }

  lemma SendKeeps(st: Fwd, i: nat, idx: nat, kind: nat, domain: string, net: Net, ftabsize: nat)
    requires Ready(st, i, ftabsize) && idx < |st.servers| && |net.opens4| == |net.opens6| == |st.socks|
    ensures var r := SendOn(st, i, idx, |st.servers|, kind, domain, net);
      && Inv(Finish(r, i).0, ftabsize)
      && (Finish(r, i).1 <==> Active(Finish(r, i).0.frecs[i]))
      && (Finish(r, i).1 ==>
          Counted(st.frecs[i], Finish(r, i).0.frecs[i], |r.to|, st.servers) && OnlySent(st, Finish(r, i).0, i) &&
              |r.to| > 0)
      && (!Finish(r, i).1 ==> forall k :: 0 <= k < |st.frecs| && k != i ==> Finish(r, i).0.frecs[k] == st.frecs[k])
      && |Finish(r, i).0.frecs| == |st.frecs| && Finish(r, i).0.nextSerial == st.nextSerial && |Finish(r,
          i).0.socks| == |st.socks|
  {
    hide Inv, Ready, SockInv, Counted;
    ReadySocks(st, i, ftabsize);
    SendOnEffect(st, i, idx, |st.servers|, kind, domain, net);
    FinishKeeps(st, SendOn(st, i, idx, |st.servers|, kind, domain, net), i, ftabsize);
    if SendOn(st, i, idx, |st.servers|, kind, domain, net).to == [] {
      FreeFrecFrees(SendOn(st, i, idx, |st.servers|, kind, domain, net).st, i);
    }
  }

  lemma ReadySocks(st: Fwd, i: nat, ftabsize: nat)
    requires Ready(st, i, ftabsize)
    ensures SockInv(st) && i < |st.frecs|
  {
  }

  // ---------- queries ----------

  lemma ServerToStart(st: Fwd, q: Query, ftabsize: nat)
    requires Inv(st, ftabsize)
    ensures st.servers != [] ==> FirstServer(st, q) < |st.servers|
  {
    hide Inv;
    KnownServers(st, ftabsize);
  }

  lemma KnownServers(st: Fwd, ftabsize: nat)
    requires Inv(st, ftabsize)
    ensures forall i :: 0 <= i < |st.frecs| && Active(st.frecs[i]) ==>
        IndexOfServer(st.servers, st.frecs[i].sentto.v) < |st.servers|
    ensures st.lastServer.Some? ==> IndexOfServer(st.servers, st.lastServer.v) < |st.servers|
  {
    hide SockInv, KeysOk, SerialsOk;
    forall id | HasServer(st.servers, id)
      ensures IndexOfServer(st.servers, id) < |st.servers|
    {
      var k :| 0 <= k < |st.servers| && st.servers[k].id == id;
    }
  }

  lemma ActiveIsApart(st: Fwd, i: nat, ftabsize: nat)
    requires Inv(st, ftabsize) && i < |st.frecs| && Active(st.frecs[i])
    ensures Apart(st, i)
  {
    forall k | 0 <= k < |st.frecs| && k != i && Active(st.frecs[k])
      ensures (st.frecs[k].newId != st.frecs[i].newId || st.frecs[k].crc != st.frecs[i].crc)
      ensures st.frecs[k].serial != st.frecs[i].serial
    {
      assert i < k ==> !SameKey(st.frecs[i], st.frecs[k]);
      assert k < i ==> !SameKey(st.frecs[k], st.frecs[i]);
    }
  }

  // A retry keeps the record's key, client and serial.
  lemma RetryKeeps(st: Fwd, i: nat, order: bool, net: Net, ftabsize: nat)
    requires Inv(st, ftabsize) && i < |st.frecs| && Active(st.frecs[i]) && |net.opens4| == |net.opens6| == |st.socks|
    requires IndexOfServer(st.servers, st.frecs[i].sentto.v) < |st.servers|
    ensures Inv(Retry(st, i, order, net).0, ftabsize)
    ensures Retry(st, i, order, net).0.nextSerial == st.nextSerial && |Retry(st, i, order, net).0.frecs| == |st.frecs|
    ensures |Retry(st, i, order, net).0.socks| == |st.socks|
    ensures forall k :: 0 <= k < |st.frecs| && Active(Retry(st, i, order, net).0.frecs[k]) ==>
        SameUse(st.frecs[k], Retry(st, i, order, net).0.frecs[k])
  {
    hide SockInv, SendOn, Suitable, FreeFrec, KeysOk, SerialsOk, HasServer, Counted;
    ActiveIsApart(st, i, ftabsize);
    var st1 := if order then st
               else st.(frecs := st.frecs[i := st.frecs[i].(forwardall := 1)], lastServer := None);
    if !order {
      SetFrecSocks(st, i, st.frecs[i].(forwardall := 1));
      SockInvOther(st.(frecs := st.frecs[i := st.frecs[i].(forwardall := 1)]), st1);
      SameRecords(st, st1, i, ftabsize);
    }
    var k := IndexOfServer(st.servers, st.frecs[i].sentto.v);
    SendKeeps(st1, i, NextServer(|st.servers|, k), st.servers[k].kind, st.servers[k].domain, net, ftabsize);
  }

  // The use of a record that starts with the query.
  predicate UseOf(f: Frec, serial: nat, q: Query) {
    f.serial == serial && f.source == q.source && f.fd == q.fd && f.origId == q.id
  }

  // The same use of a record: its client, key and serial.
  predicate SameUse(f: Frec, g: Frec) {
    Active(f) && g.source == f.source && g.fd == f.fd && g.origId == f.origId && g.newId == f.newId && g.crc == f.crc &&
        g.serial == f.serial
  }

  lemma SockInvOther(a: Fwd, b: Fwd)
    requires SockInv(a) && b.socks == a.socks && b.frecs == a.frecs && b.finger == a.finger
    ensures SockInv(b)
  {
  }

  lemma SameRecords(st: Fwd, st1: Fwd, i: nat, ftabsize: nat)
    requires RecordInv(st, ftabsize) && i < |st.frecs| && Apart(st, i)
    requires st1 == st.(frecs := st.frecs[i := st.frecs[i].(forwardall := 1)], lastServer := None)
    ensures RecordInv(st1, ftabsize) && Apart(st1, i)
  {
    hide HasServer;
  }

  // A query the table can take: its random id is unused, and a forced id comes with a
  // crc that is known.
  predicate LegalQuery(st: Fwd, q: Query, ftabsize: nat) {
    && |q.net.opens4| == |q.net.opens6| == |st.socks|
    && (q.sign ==> q.crc != CRC_UNKNOWN)
    && (!q.sign ==> GoodRandom(GetNewFrec(st, q.now, false, ftabsize, q.room).st.frecs, q))
  }

  lemma FillReady(st: Fwd, i: nat, q: Query, newId: nat, ftabsize: nat)
    requires Inv(st, ftabsize) && i < |st.frecs| && !Active(st.frecs[i]) && !IdTaken(st.frecs, newId, q.crc)
    ensures Ready(Fill(st, i, q, newId), i, ftabsize)
  {
    hide SockInv, HasServer;
    var r := Fill(st, i, q, newId);
    assert SockInv(st.(frecs := r.frecs)) by {
      SetFrecSocks(st, i, r.frecs[i]);
    }
    SockInvOther(st.(frecs := r.frecs), r);
    assert forall k :: 0 <= k < |st.frecs| && k != i ==> r.frecs[k] == st.frecs[k];
    assert !Active(r.frecs[i]);
  }

  lemma NewQueryKeeps(st: Fwd, q: Query, ftabsize: nat)
    requires Inv(st, ftabsize) && LegalQuery(st, q, ftabsize) && |q.net.opens4| == |q.net.opens6| == |st.socks|
    requires st.servers != [] && FirstServer(st, q) < |st.servers|
    ensures Inv(NewQuery(st, q, ftabsize).0, ftabsize)
    ensures var r := NewQuery(st, q, ftabsize).0;
        st.nextSerial <= r.nextSerial <= st.nextSerial + 1 && |r.socks| == |st.socks|
    ensures var r := NewQuery(st, q, ftabsize).0;
      forall f :: f in r.frecs && Active(f) ==> UseOf(f, st.nextSerial, q) || exists g :: g in st.frecs && SameUse(g, f)
  {
    hide Inv, GetNewFrec, SendOn, FreeFrec, GetId, Fill, Counted, SameUse, Ready, FirstServer, IdTaken, LegalQuery;
    GetNewFrecSafe(st, q.now, false, ftabsize, q.room);
    Shapes(st, q, ftabsize);
    var g := GetNewFrec(st, q.now, false, ftabsize, q.room);
    GetNewFrecUses(st, q.now, ftabsize, q.room);
    if g.frec.Some? {
      var i := g.frec.v;
      var (st1, newId) := WithId(g, q);
      InvKeys(g.st, ftabsize);
      LegalIds(st, q, ftabsize);
      GetIdKeeps(g.st, q, ftabsize);
      GetIdLeaves(g.st, q, i);
      FillReady(st1, i, q, newId, ftabsize);
      var st2 := Fill(st1, i, q, newId);
      FillUses(st1, i, q, newId);
      SendKeeps(st2, i, FirstServer(st, q), q.kind, q.domain, q.net, ftabsize);
      var r := NewQuery(st, q, ftabsize).0;
      forall f | f in r.frecs && Active(f)
        ensures UseOf(f, st.nextSerial, q) || exists h :: h in st.frecs && SameUse(h, f)
      {
        var k :| 0 <= k < |r.frecs| && r.frecs[k] == f;
        if k != i {
          assert f == st1.frecs[k] && f == g.st.frecs[k];
        }
      }
    }
  }

  lemma InvKeys(st: Fwd, ftabsize: nat)
    requires Inv(st, ftabsize)
    ensures KeysOk(st.frecs)
  {
  }

  lemma FillUses(st: Fwd, i: nat, q: Query, newId: nat)
    requires i < |st.frecs|
    ensures var r := Fill(st, i, q, newId);
      && UseOf(r.frecs[i], st.nextSerial, q) && r.nextSerial == st.nextSerial + 1
      && r.servers == st.servers && r.socks == st.socks
      && forall k :: 0 <= k < |st.frecs| && k != i ==> r.frecs[k] == st.frecs[k]
  {
  }

  lemma LegalIds(st: Fwd, q: Query, ftabsize: nat)
    requires LegalQuery(st, q, ftabsize) && KeysOk(GetNewFrec(st, q.now, false, ftabsize, q.room).st.frecs)
    ensures var (r, id) := WithId(GetNewFrec(st, q.now, false, ftabsize, q.room), q); !IdTaken(r.frecs, id, q.crc)
  {
    hide GetNewFrec, GetId, GoodRandom, IdTaken, KeysOk;
    GetIdFrees(GetNewFrec(st, q.now, false, ftabsize, q.room).st, q);
  }

  lemma GetIdLeaves(st: Fwd, q: Query, i: nat)
    requires i < |st.frecs| && !Active(st.frecs[i])
    ensures var r := GetId(st, q.sign, q.id, q.crc, q.random).0;
      && |r.frecs| == |st.frecs| && !Active(r.frecs[i])
      && forall k :: 0 <= k < |r.frecs| && Active(r.frecs[k]) ==> r.frecs[k] == st.frecs[k]
  {
    hide FreeFrec;
    var j := LookupFrec(st.frecs, q.id, q.crc);
    if q.sign && j < |st.frecs| {
      FreeFrecFrees(st, j);
    }
  }

  // Records in use after get_new_frec were in use before.
  lemma GetNewFrecUses(st: Fwd, now: nat, ftabsize: nat, room: bool)
    ensures var g := GetNewFrec(st, now, false, ftabsize, room);
      forall f :: f in g.st.frecs && Active(f) ==> f in st.frecs && SameUse(f, f)
  {
    hide FreeFrec, Sweep;
    var g := GetNewFrec(st, now, false, ftabsize, room);
    var n := |st.frecs|;
    var swept := Sweep(st, now, n);
    forall k | 0 <= k < n
      ensures Active(swept.frecs[k]) ==> swept.frecs[k] == st.frecs[k]
    {
      SweepIs(st, now, n, k);
    }
    var target := Target(st.frecs, now, n);
    var oldest := Oldest(st.frecs, n);
    if target.Some? {
      SweepIs(st, now, n, target.v);
    } else if oldest.Some? {
      FreeFrecFrees(swept, oldest.v);
    }
    forall f | f in g.st.frecs && Active(f)
      ensures f in st.frecs
    {
      var k :| 0 <= k < |g.st.frecs| && g.st.frecs[k] == f;
      var j := if |g.st.frecs| > n then k as int - 1 else k;
      assert j >= 0 && swept.frecs[j] == f;
    }
  }

  // ---------- steps ----------

  lemma NoteServerKeeps(st: Fwd, i: nat, a: Answer, ftabsize: nat)
    requires Inv(st, ftabsize) && i < |st.frecs| && Active(st.frecs[i])
    requires IndexOfServer(st.servers, st.frecs[i].sentto.v) < |st.servers|
    ensures Inv(NoteServer(st, i, a), ftabsize)
    ensures NoteServer(st, i, a).frecs == st.frecs && NoteServer(st, i, a).nextSerial == st.nextSerial
    ensures NoteServer(st, i, a).socks == st.socks
  {
    hide SockInv;
    var r := NoteServer(st, i, a);
    SockInvOther(st, r);
    if r.lastServer.Some? && r.lastServer != st.lastServer {
      var k := IndexOfServer(st.servers, r.lastServer.v);
      assert st.servers[k].id == r.lastServer.v;
    }
  }

  lemma CountdownKeeps(st: Fwd, i: nat, ftabsize: nat)
    requires Inv(st, ftabsize) && i < |st.frecs| && Active(st.frecs[i]) && st.frecs[i].forwardall != 2
    ensures Inv(st.(frecs := st.frecs[i := Countdown(st.frecs[i])]), ftabsize)
  {
    hide SockInv;
    SetFrecSocks(st, i, Countdown(st.frecs[i]));
  }

  // A reply changes the table, and relays at most one answer: to the client of the
  // record it fits, which is then free.
  lemma OnReplyKeeps(st: Fwd, a: Answer, ftabsize: nat)
    requires Inv(st, ftabsize) && |a.net.opens4| == |a.net.opens6| == |st.socks|
    requires forall i :: 0 <= i < |st.frecs| && Active(st.frecs[i]) ==>
        IndexOfServer(st.servers, st.frecs[i].sentto.v) < |st.servers|
    ensures Inv(OnReply(st, a).0, ftabsize)
    ensures var r := OnReply(st, a).0;
      && r.nextSerial == st.nextSerial && |r.socks| == |st.socks| && |r.frecs| == |st.frecs|
      && forall k :: 0 <= k < |st.frecs| && Active(r.frecs[k]) ==> SameUse(st.frecs[k], r.frecs[k])
    ensures var (r, relay) := OnReply(st, a);
      relay.Some? ==>
        var i := LookupFrec(st.frecs, a.id, a.crc);
        && i < |st.frecs| && !Active(r.frecs[i])
        && relay.v == Relay(st.frecs[i].serial, st.frecs[i].source, st.frecs[i].fd, st.frecs[i].origId)
  {
    hide Inv, Retry, FreeFrec, NoteServer;
    var i := LookupFrec(st.frecs, a.id, a.crc);
    if i < |st.frecs| {
      if a.error && !a.order && st.frecs[i].forwardall == 0 && a.retriable {
        RetryKeeps(st, i, a.order, a.net, ftabsize);
      } else {
        var f := st.frecs[i];
        NoteServerKeeps(st, i, a, ftabsize);
        var st1 := NoteServer(st, i, a);
        var st2 := st1.(frecs := st1.frecs[i := Countdown(f)]);
        if Final(f, a.error) {
          FreeFrecKeeps(st1, i, ftabsize);
          FreeFrecFrees(st2, i);
          FreeAnyway(st1, i, Countdown(f));
        } else {
          CountdownKeeps(st1, i, ftabsize);
        }
      }
    }
  }

  // The countdown of a freed record does not matter to the invariant.
  lemma FreeAnyway(st: Fwd, i: nat, f: Frec)
    requires i < |st.frecs| && f == st.frecs[i].(forwardall := f.forwardall)
    ensures FreeFrec(st.(frecs := st.frecs[i := f]), i) == FreeFrec(st, i).(frecs := FreeFrec(st,
        i).frecs[i := FreeFrec(st, i).frecs[i].(forwardall := f.forwardall)])
    ensures forall ftabsize :: Inv(FreeFrec(st, i), ftabsize) ==>
        Inv(FreeFrec(st.(frecs := st.frecs[i := f]), i), ftabsize)
  {
    hide Release, SockInv;
    var a, b := FreeFrec(st.(frecs := st.frecs[i := f]), i), FreeFrec(st, i);
    assert a.frecs == b.frecs[i := b.frecs[i].(forwardall := f.forwardall)];
    if SockInv(b) {
      SetFrecSocks(b, i, a.frecs[i]);
    }
  }

  lemma OnQueryKeeps(st: Fwd, q: Query, ftabsize: nat)
    requires Inv(st, ftabsize) && LegalQuery(st, q, ftabsize) && |q.net.opens4| == |q.net.opens6| == |st.socks|
    requires forall i :: 0 <= i < |st.frecs| && Active(st.frecs[i]) ==>
        IndexOfServer(st.servers, st.frecs[i].sentto.v) < |st.servers|
    requires st.servers != [] ==> FirstServer(st, q) < |st.servers|
    ensures var r := OnQuery(st, q, ftabsize).0;
      && Inv(r, ftabsize) && st.nextSerial <= r.nextSerial <= st.nextSerial + 1 && |r.socks| == |st.socks|
      && forall f :: f in r.frecs && Active(f) ==> UseOf(f, st.nextSerial, q) || exists g ::
          g in st.frecs && SameUse(g, f)
  {
    hide Inv, Retry, NewQuery, LegalQuery, SameUse, FirstServer;
    var i := LookupBySender(st.frecs, q.id, q.source, q.crc);
    if st.servers != [] && i < |st.frecs| {
      RetryKeeps(st, i, q.order, q.net, ftabsize);
      FromIndices(st.frecs, Retry(st, i, q.order, q.net).0.frecs);
    } else if st.servers != [] && !q.local {
      NewQueryKeeps(st, q, ftabsize);
    } else {
      SelfUses(st.frecs);
    }
  }

  lemma SelfUses(fs: seq<Frec>)
    ensures forall f :: f in fs && Active(f) ==> SameUse(f, f)
  {
  }

  lemma FromIndices(fs: seq<Frec>, gs: seq<Frec>)
    requires |fs| == |gs| && forall k :: 0 <= k < |fs| && Active(gs[k]) ==> SameUse(fs[k], gs[k])
    ensures forall g :: g in gs && Active(g) ==> exists f :: f in fs && SameUse(f, g)
  {
    hide SameUse;
    forall g | g in gs && Active(g)
      ensures exists f :: f in fs && SameUse(f, g)
    {
      var k :| 0 <= k < |gs| && gs[k] == g;
      assert fs[k] in fs && SameUse(fs[k], g);
    }
  }

  // ---------- servers that come and go ----------

  lemma {:induction false} FreeSentToIs(st: Fwd, server: nat, n: nat)
    requires n <= |st.frecs|
    ensures var r := FreeSentTo(st, server, n);
      && r.servers == st.servers && r.nextSerial == st.nextSerial
      && forall k :: 0 <= k < |st.frecs| && Active(r.frecs[k]) ==> r.frecs[k] == st.frecs[k] && (k < n ==>
          st.frecs[k].sentto != Some(server))
  {
    hide FreeFrec;
    if n > 0 {
      FreeSentToIs(st, server, n - 1);
      FreeFrecFrees(FreeSentTo(st, server, n - 1), n - 1);
    }
  }

  function WithoutServer(servers: seq<Srv>, id: nat): seq<Srv> {
    if servers == [] then []
    else (if servers[0].id == id then [] else [servers[0]]) + WithoutServer(servers[1..], id)
  }

  lemma {:induction false} WithoutServerIs(servers: seq<Srv>, id: nat)
    ensures forall s :: s in WithoutServer(servers, id) <==> s in servers && s.id != id
  {
    if servers != [] {
      WithoutServerIs(servers[1..], id);
      assert servers == [servers[0]] + servers[1..];
    }
  }

  lemma {:induction false} WithoutServerDistinct(servers: seq<Srv>, id: nat)
    requires DistinctIds(servers)
    ensures DistinctIds(WithoutServer(servers, id))
  {
    if servers != [] {
      var rest := WithoutServer(servers[1..], id);
      WithoutServerDistinct(servers[1..], id);
      WithoutServerIs(servers[1..], id);
      forall k | 0 <= k < |rest|
        ensures rest[k].id != servers[0].id
      {
        assert rest[k] in servers[1..];
        var m :| 0 <= m < |servers[1..]| && servers[1..][m] == rest[k];
        assert servers[m + 1] == rest[k];
      }
    }
  }

  // server_gone, and the server leaves the list.
  function RemoveServer(st: Fwd, id: nat): Fwd {
    ServerGone(st, id).(servers := WithoutServer(st.servers, id))
  }

  lemma StillThere(servers: seq<Srv>, id: nat, x: nat)
    requires HasServer(servers, x) && x != id
    ensures HasServer(WithoutServer(servers, id), x)
  {
    var k :| 0 <= k < |servers| && servers[k].id == x;
    WithoutServerIs(servers, id);
    assert servers[k] in WithoutServer(servers, id);
  }

  // The server is gone, and only it, and no record waits for it.
  lemma RemovedIsGone(st: Fwd, id: nat)
    ensures var r := RemoveServer(st, id);
      && (forall s :: s in r.servers <==> s in st.servers && s.id != id)
      && (forall k :: 0 <= k < |st.frecs| && k < |r.frecs| && Active(r.frecs[k]) ==> r.frecs[k].sentto != Some(id))
      && r.lastServer == (if st.lastServer == Some(id) then None else st.lastServer)
  {
    hide FreeSentTo;
    FreeSentToIs(st, id, |st.frecs|);
    FreeSentToLast(st, id, |st.frecs|);
    WithoutServerIs(st.servers, id);
  }

  lemma {:induction false} FreeSentToLast(st: Fwd, server: nat, n: nat)
    requires n <= |st.frecs|
    ensures FreeSentTo(st, server, n).lastServer == st.lastServer
  {
    if n > 0 {
      FreeSentToLast(st, server, n - 1);
    }
  }

  lemma RemoveServerKeeps(st: Fwd, id: nat, ftabsize: nat)
    requires Inv(st, ftabsize)
    ensures var r := RemoveServer(st, id);
      && Inv(r, ftabsize) && r.nextSerial == st.nextSerial && |r.socks| == |st.socks|
      && forall k :: 0 <= k < |r.frecs| && Active(r.frecs[k]) ==> k < |st.frecs| && r.frecs[k] == st.frecs[k]
  {
    hide SockInv, FreeSentTo, HasServer, KeysOk, SerialsOk, FrecOk, DistinctIds;
    FreeSentToKeeps(st, id, |st.frecs|, ftabsize);
    FreeSentToIs(st, id, |st.frecs|);
    WithoutServerDistinct(st.servers, id);
    SockInvOther(FreeSentTo(st, id, |st.frecs|), RemoveServer(st, id));
    forall x | HasServer(st.servers, x) && x != id
      ensures HasServer(WithoutServer(st.servers, id), x)
    {
      StillThere(st.servers, id, x);
    }
  }

  // ---------- runs ----------

  datatype Event =
    | ClientQuery(q: Query)
    | ServerReply(a: Answer)
    | Removed(id: nat)
    | Added(s: Srv)

  // asked[n] is the client and id of the query that started use n of a record; relays
  // are the answers sent to clients.
  datatype World = World(st: Fwd, asked: seq<(nat, int, nat)>, relays: seq<Relay>)

  predicate Legal(w: World, e: Event, ftabsize: nat) {
    match e
    case ClientQuery(q) =>
      LegalQuery(w.st, q, ftabsize)
    case ServerReply(a) =>
      |a.net.opens4| == |a.net.opens6| == |w.st.socks|
    case Removed(_) => true
    case Added(s) => !HasServer(w.st.servers, s.id)
  }

  // Uses in progress know their client; uses that have been answered are over.
  predicate AskedOk(st: Fwd, asked: seq<(nat, int, nat)>, relays: seq<Relay>) {
    && |asked| == st.nextSerial
    && (forall f :: f in st.frecs && Active(f) ==> f.serial < |asked| && asked[f.serial] == (f.source, f.fd, f.origId))
    && (forall f, n :: f in st.frecs && Active(f) && 0 <= n < |relays| ==> relays[n].serial != f.serial)
  }

  // Each answer went to the client whose query it answers, under the id the client used,
  // and no query was answered twice.
  predicate RelaysOk(asked: seq<(nat, int, nat)>, relays: seq<Relay>) {
    && (forall n :: 0 <= n < |relays| ==>
        relays[n].serial < |asked| && asked[relays[n].serial] == (relays[n].source, relays[n].fd, relays[n].origId))
    && (forall m, n :: 0 <= m < n < |relays| ==> relays[m].serial != relays[n].serial)
  }

  predicate WorldInv(w: World, ftabsize: nat) {
    Inv(w.st, ftabsize) && AskedOk(w.st, w.asked, w.relays) && RelaysOk(w.asked, w.relays)
  }

  ghost function Apply(w: World, e: Event, ftabsize: nat): World
    requires WorldInv(w, ftabsize) && Legal(w, e, ftabsize)
  {
    KnownServers(w.st, ftabsize);
    match e
    case ClientQuery(q) =>
      ServerToStart(w.st, q, ftabsize);
      var st := OnQuery(w.st, q, ftabsize).0;
      World(st, if st.nextSerial > w.st.nextSerial then w.asked + [(q.source, q.fd, q.id)] else w.asked, w.relays)
    case ServerReply(a) =>
      var (st, relay) := OnReply(w.st, a);
      World(st, w.asked, if relay.Some? then w.relays + [relay.v] else w.relays)
    case Removed(id) => w.(st := RemoveServer(w.st, id))
    case Added(s) => w.(st := w.st.(servers := w.st.servers + [s]))
  }

  lemma QueryStep(w: World, q: Query, ftabsize: nat)
    requires WorldInv(w, ftabsize) && Legal(w, ClientQuery(q), ftabsize)
    ensures WorldInv(Apply(w, ClientQuery(q), ftabsize), ftabsize)
  {
    hide Inv, OnQuery, FirstServer;
    KnownServers(w.st, ftabsize);
    ServerToStart(w.st, q, ftabsize);
    OnQueryKeeps(w.st, q, ftabsize);
    var w' := Apply(w, ClientQuery(q), ftabsize);
    SerialBound(w'.st, ftabsize);
    assert forall f, g :: SameUse(g, f) ==>
        Active(g) && g.serial == f.serial && g.source == f.source && g.fd == f.fd && g.origId == f.origId;
  }

  lemma SerialBound(st: Fwd, ftabsize: nat)
    requires Inv(st, ftabsize)
    ensures forall f :: f in st.frecs && Active(f) ==> f.serial < st.nextSerial
    ensures forall i, k ::
        0 <= i < |st.frecs| && 0 <= k < |st.frecs| && i != k && Active(st.frecs[i]) && Active(st.frecs[k]) ==>
            st.frecs[i].serial != st.frecs[k].serial
  {
    hide SockInv;
  }

  lemma ReplyStep(w: World, a: Answer, ftabsize: nat)
    requires WorldInv(w, ftabsize) && Legal(w, ServerReply(a), ftabsize)
    ensures WorldInv(Apply(w, ServerReply(a), ftabsize), ftabsize)
  {
    hide Inv, OnReply;
    KnownServers(w.st, ftabsize);
    OnReplyKeeps(w.st, a, ftabsize);
    SerialBound(w.st, ftabsize);
    var w' := Apply(w, ServerReply(a), ftabsize);
    var i := LookupFrec(w.st.frecs, a.id, a.crc);
    forall f | f in w'.st.frecs && Active(f)
      ensures exists k :: 0 <= k < |w.st.frecs| && SameUse(w.st.frecs[k], f) && w'.st.frecs[k] == f
    {
      var k :| 0 <= k < |w'.st.frecs| && w'.st.frecs[k] == f;
    }
    assert OnReply(w.st, a).1.Some? ==> w.st.frecs[i] in w.st.frecs;
  }

  lemma AddedStep(w: World, s: Srv, ftabsize: nat)
    requires WorldInv(w, ftabsize) && !HasServer(w.st.servers, s.id)
    ensures WorldInv(w.(st := w.st.(servers := w.st.servers + [s])), ftabsize)
  {
    hide SockInv, AskedOk;
    var st' := w.st.(servers := w.st.servers + [s]);
    SockInvOther(w.st, st');
    forall x | HasServer(w.st.servers, x)
      ensures HasServer(st'.servers, x)
    {
      var k :| 0 <= k < |w.st.servers| && w.st.servers[k].id == x;
      assert st'.servers[k].id == x;
    }
    assert AskedOk(st', w.asked, w.relays) by {
      AskedOther(w.st, st', w.asked, w.relays);
    }
  }

  lemma AskedOther(a: Fwd, b: Fwd, asked: seq<(nat, int, nat)>, relays: seq<Relay>)
    requires AskedOk(a, asked, relays) && b.nextSerial == a.nextSerial
    requires forall f :: f in b.frecs && Active(f) ==> f in a.frecs
    ensures AskedOk(b, asked, relays)
  {
  }

  lemma StepKeeps(w: World, e: Event, ftabsize: nat)
    requires WorldInv(w, ftabsize) && Legal(w, e, ftabsize)
    ensures WorldInv(Apply(w, e, ftabsize), ftabsize)
  {
    hide WorldInv, Legal, OnQuery, OnReply, RemoveServer;
    match e
    case ClientQuery(q) => QueryStep(w, q, ftabsize);
    case ServerReply(a) => ReplyStep(w, a, ftabsize);
    case Removed(id) => RemovedStep(w, id, ftabsize);
    case Added(s) =>
      assert !HasServer(w.st.servers, s.id) by {
        LegalAdded(w, s, ftabsize);
      }
      AddedStep(w, s, ftabsize);
  }

  lemma LegalAdded(w: World, s: Srv, ftabsize: nat)
    requires Legal(w, Added(s), ftabsize)
    ensures !HasServer(w.st.servers, s.id)
  {
  }

  lemma RemovedStep(w: World, id: nat, ftabsize: nat)
    requires WorldInv(w, ftabsize)
    ensures WorldInv(w.(st := RemoveServer(w.st, id)), ftabsize)
  {
    hide Inv, RemoveServer, AskedOk;
    RemoveServerKeeps(w.st, id, ftabsize);
    AskedOther(w.st, RemoveServer(w.st, id), w.asked, w.relays);
  }

  ghost predicate LegalRun(w: World, es: seq<Event>, ftabsize: nat)
    requires WorldInv(w, ftabsize)
    decreases |es|
  {
    es == [] || (Legal(w, es[0], ftabsize) && (StepKeeps(w, es[0], ftabsize); LegalRun(Apply(w, es[0], ftabsize),
        es[1..], ftabsize)))
  }

  ghost function Run(w: World, es: seq<Event>, ftabsize: nat): World
    requires WorldInv(w, ftabsize) && LegalRun(w, es, ftabsize)
    decreases |es|
  {
    if es == [] then w
    else
      StepKeeps(w, es[0], ftabsize);
      Run(Apply(w, es[0], ftabsize), es[1..], ftabsize)
  }

  function Start(servers: seq<Srv>): World {
    World(Fwd([], seq(RANDOM_SOCKS, _ => Sock(0, None, false)), servers, None, 0, 0), [], [])
  }

  lemma StartInv(servers: seq<Srv>, ftabsize: nat)
    requires DistinctIds(servers)
    ensures WorldInv(Start(servers), ftabsize)
  {
  }

  lemma {:induction false} RunKeeps(w: World, es: seq<Event>, ftabsize: nat)
    requires WorldInv(w, ftabsize) && LegalRun(w, es, ftabsize)
    ensures WorldInv(Run(w, es, ftabsize), ftabsize)
    decreases |es|
  {
    hide WorldInv, Legal, Apply;
    if es != [] {
      StepKeeps(w, es[0], ftabsize);
      RunKeeps(Apply(w, es[0], ftabsize), es[1..], ftabsize);
    }
  }

  // Every run: no two active records with the same id and crc, every socket's users
  // counted, at most ftabsize + 1 records, each answer to the client that asked and at
  // most one to each query.
  lemma EveryRun(servers: seq<Srv>, es: seq<Event>, ftabsize: nat)
    requires DistinctIds(servers)
    ensures WorldInv(Start(servers), ftabsize)
    ensures LegalRun(Start(servers), es, ftabsize) ==> WorldInv(Run(Start(servers), es, ftabsize), ftabsize)
  {
    StartInv(servers, ftabsize);
    hide WorldInv, LegalRun;
    if LegalRun(Start(servers), es, ftabsize) {
      RunKeeps(Start(servers), es, ftabsize);
    }
  }

  // A reply with a known crc fits the one record its query made.
  lemma ReplyFitsOne(st: Fwd, ftabsize: nat, id: nat, crc: nat, i: nat)
    requires Inv(st, ftabsize) && i < |st.frecs| && crc != CRC_UNKNOWN && IdFits(st.frecs[i], id, crc)
    ensures LookupFrec(st.frecs, id, crc) == i
  {
    hide SockInv, SerialsOk, ServersOk, FrecOk;
    forall k | 0 <= k < i
      ensures !IdFits(st.frecs[k], id, crc)
    {
      assert !SameKey(st.frecs[k], st.frecs[i]);
    }
  }

  // ---------- bursts ----------

  // All servers are tried at once: the record expects one answer more than it counts.
  lemma BurstCounts(st: Fwd, q: Query, ftabsize: nat)
    requires Inv(st, ftabsize) && LegalQuery(st, q, ftabsize) && |q.net.opens4| == |q.net.opens6| == |st.socks|
    requires st.servers != [] && q.kind == 0 && !q.order && st.lastServer.None?
    requires NewQuery(st, q, ftabsize).1
    ensures BurstSize(st, q, ftabsize) >= 1
    ensures exists f :: f in NewQuery(st, q, ftabsize).0.frecs && Active(f)
              && UseOf(f, st.nextSerial, q) && f.forwardall == BurstSize(st, q, ftabsize) + 1
  {
    hide Inv, GetNewFrec, SendOn, FreeFrec, GetId, Fill, Counted, Ready, IdTaken, LegalQuery;
    GetNewFrecSafe(st, q.now, false, ftabsize, q.room);
    Shapes(st, q, ftabsize);
    var g := GetNewFrec(st, q.now, false, ftabsize, q.room);
    var i := g.frec.v;
    var (st1, newId) := WithId(g, q);
    InvKeys(g.st, ftabsize);
    LegalIds(st, q, ftabsize);
    GetIdKeeps(g.st, q, ftabsize);
    GetIdLeaves(g.st, q, i);
    FillReady(st1, i, q, newId, ftabsize);
    FillUses(st1, i, q, newId);
    FillBurst(st1, i, q, newId);
    SendKeeps(Fill(st1, i, q, newId), i, 0, q.kind, q.domain, q.net, ftabsize);
    assert NewQuery(st, q, ftabsize).0.frecs[i] in NewQuery(st, q, ftabsize).0.frecs;
    CountedBurst(Fill(st1, i, q, newId).frecs[i], NewQuery(st, q, ftabsize).0.frecs[i], BurstSize(st, q, ftabsize),
        st.servers);
  }

  // The number of servers the query went to.
  function BurstSize(st: Fwd, q: Query, ftabsize: nat): nat
    requires |q.net.opens4| == |q.net.opens6| == |st.socks| && st.servers != []
  {
    var g := GetNewFrec(st, q.now, false, ftabsize, q.room);
    if g.frec.None? then 0
    else
      var (st1, newId) := WithId(g, q);
      Shapes(st, q, ftabsize);
      |SendOn(Fill(st1, g.frec.v, q, newId), g.frec.v, 0, |st.servers|, q.kind, q.domain, q.net).to|
  }

  lemma FillBurst(st: Fwd, i: nat, q: Query, newId: nat)
    requires i < |st.frecs| && q.kind == 0 && !q.order && st.lastServer.None?
    ensures Fill(st, i, q, newId).frecs[i].forwardall == 1
  {
  }

  lemma CountedBurst(f: Frec, r: Frec, count: nat, servers: seq<Srv>)
    requires Counted(f, r, count, servers) && f.forwardall == 1 && count > 0
    ensures r.forwardall == count + 1 && Active(r)
  {
  }

  // An error answer to a burst that still awaits others only counts down; the last one
  // is passed on, and ends the use.
  lemma ErrorAnswer(st: Fwd, a: Answer, i: nat)
    requires i < |st.frecs| && LookupFrec(st.frecs, a.id, a.crc) == i && a.error && st.frecs[i].forwardall >= 2
    requires |a.net.opens4| == |a.net.opens6| == |st.socks|
    requires forall i :: 0 <= i < |st.frecs| && Active(st.frecs[i]) ==>
        IndexOfServer(st.servers, st.frecs[i].sentto.v) < |st.servers|
    ensures |OnReply(st, a).0.frecs| == |st.frecs|
    ensures var (r, relay) := OnReply(st, a);
      if st.frecs[i].forwardall > 2
      then relay.None? && r.frecs == st.frecs[i := st.frecs[i].(forwardall := st.frecs[i].forwardall - 1)] &&
          r.servers == st.servers && |r.socks| == |st.socks|
      else !Active(r.frecs[i]) && (a.usable ==>
          relay == Some(Relay(st.frecs[i].serial, st.frecs[i].source, st.frecs[i].fd, st.frecs[i].origId)))
  {
    hide FreeFrec;
    var st1 := NoteServer(st, i, a);
    FreeFrecFrees(st1.(frecs := st1.frecs[i := Countdown(st.frecs[i])]), i);
  }

  predicate Answerable(st: Fwd, a: Answer) {
    && |a.net.opens4| == |a.net.opens6| == |st.socks|
    && forall i :: 0 <= i < |st.frecs| && Active(st.frecs[i]) ==>
        IndexOfServer(st.servers, st.frecs[i].sentto.v) < |st.servers|
  }

  // Error answers that fit one query.
  predicate Errors(answers: seq<Answer>, id: nat, crc: nat, socks: nat) {
    forall k :: 0 <= k < |answers| ==>
      answers[k].error && answers[k].id == id && answers[k].crc == crc &&
          |answers[k].net.opens4| == |answers[k].net.opens6| == socks
  }

  // The table after the answers.
  function Replies(st: Fwd, answers: seq<Answer>): Fwd
    decreases |answers|
  {
    if answers == [] || !Answerable(st, answers[0]) then st else Replies(OnReply(st, answers[0]).0, answers[1..])
  }

  function Relayed(st: Fwd, answers: seq<Answer>): seq<Relay>
    decreases |answers|
  {
    if answers == [] || !Answerable(st, answers[0]) then []
    else
      var (r, relay) := OnReply(st, answers[0]);
      (if relay.Some? then [relay.v] else []) + Relayed(r, answers[1..])
  }

  predicate ServersKnown(st: Fwd) {
    forall i :: 0 <= i < |st.frecs| && Active(st.frecs[i]) ==>
        IndexOfServer(st.servers, st.frecs[i].sentto.v) < |st.servers|
  }

  // After a burst to m servers with no retry, the errors before the m-th are kept back
  // and the m-th is passed on, once.
  lemma {:induction false} ErrorsKeptBack(st: Fwd, answers: seq<Answer>, id: nat, crc: nat, i: nat, m: nat)
    requires i < |st.frecs| && LookupFrec(st.frecs, id, crc) == i && Errors(answers, id, crc, |st.socks|)
    requires ServersKnown(st)
    requires st.frecs[i].forwardall == m + 1 && 1 <= |answers| <= m && answers[|answers| - 1].usable
    ensures Relayed(st, answers) == if |answers| < m then []
        else [Relay(st.frecs[i].serial, st.frecs[i].source, st.frecs[i].fd, st.frecs[i].origId)]
    ensures |Replies(st, answers).frecs| == |st.frecs| && (Active(Replies(st, answers).frecs[i]) <==> |answers| < m)
    decreases |answers|
  {
    hide OnReply;
    var a := answers[0];
    ErrorAnswer(st, a, i);
    var r := OnReply(st, a).0;
    if m > 1 && |answers| > 1 {
      SameLookup(st, r, id, crc, i);
      assert Errors(answers[1..], id, crc, |r.socks|) && ServersKnown(r);
      ErrorsKeptBack(r, answers[1..], id, crc, i, m - 1);
    }
  }

  // Counting an error does not change which record a reply fits.
  lemma SameLookup(st: Fwd, r: Fwd, id: nat, crc: nat, i: nat)
    requires i < |st.frecs| == |r.frecs| && LookupFrec(st.frecs, id, crc) == i && IdFits(r.frecs[i], id, crc)
    requires forall k :: 0 <= k < i ==> r.frecs[k] == st.frecs[k]
    ensures LookupFrec(r.frecs, id, crc) == i
  {
    forall k | 0 <= k < i
      ensures !IdFits(r.frecs[k], id, crc)
    {
      assert r.frecs[k] == st.frecs[k];
    }
  }

  // ---------- an id can always be found ----------

  function UsedIds(fs: seq<Frec>): (s: set<nat>)
    ensures |s| <= |fs|
    ensures forall k :: 0 <= k < |fs| ==> fs[k].newId in s
  {
    if fs == [] then {} else {fs[0].newId} + UsedIds(fs[1..])
  }

  function Below(n: nat): (s: set<nat>)
    ensures |s| == n && forall x :: x in s <==> 0 <= x < n
  {
    if n == 0 then {} else Below(n - 1) + {n - 1}
  }

  lemma {:induction false} SmallerSet(a: set<nat>, b: set<nat>)
    requires a <= b
    ensures |a| <= |b|
  {
    if a != {} {
      var x :| x in a;
      SmallerSet(a - {x}, b - {x});
    }
  }

  // The random loop of get_id has something to find while the table is smaller than the
  // number of ids.
  lemma FreeIdExists(fs: seq<Frec>, crc: nat)
    requires |fs| < 0x10000
    ensures exists id :: 0 <= id < 0x10000 && LookupFrec(fs, id, crc) == |fs|
  {
    if Below(0x10000) <= UsedIds(fs) {
      SmallerSet(Below(0x10000), UsedIds(fs));
    }
    var id :| id in Below(0x10000) && id !in UsedIds(fs);
    assert LookupFrec(fs, id, crc) == |fs|;
  }
}
