// Which servers a query goes to.
module ForwardServers {
  import opened Optional
  import opened HostNames
  import opened ForwardTable
  import opened ForwardInvariant
  import opened ForwardQuery
  import opened ForwardRuns

  // ---------- the servers that may get a query ----------

  // The server is of the kind asked for and has an address; one for a domain is for the
  // domain asked for, letter case aside.
  predicate MayGet(s: Srv, kind: nat, domain: string) {
    && s.kind == kind && !s.literal
    && (kind == 8 ==> |s.domain| == |domain| && forall k :: 0 <= k < |domain| ==> SameLetter(s.domain[k], domain[k]))
  }

  // A packet can be sent to it, too.
  predicate Takes(s: Srv, kind: nat, domain: string, net: Net) {
    MayGet(s, kind, domain) && s.id in net.reach
  }

  // The p-th server from idx on, round the list.
  function Around(n: nat, idx: nat, p: nat): (k: nat)
    requires idx < n && p < n
    ensures k < n
  {
    if idx + p < n then idx + p else idx + p - n
  }

  // Of the first m servers from idx on those that take the query.
  function Takers(servers: seq<Srv>, idx: nat, m: nat, kind: nat, domain: string, net: Net): seq<nat>
    requires idx < |servers|
    decreases m
  {
    if m == 0 then []
    else
      (if Takes(servers[idx], kind, domain, net) then [idx] else [])
      + Takers(servers, if idx + 1 == |servers| then 0 else idx + 1, m - 1, kind, domain, net)
  }

  function Following(n: nat, idx: nat): (r: nat)
    requires idx < n
    ensures r < n
  {
    if idx + 1 == n then 0 else idx + 1
  }

  lemma AroundNext(n: nat, idx: nat, p: nat)
    requires idx < n && p < n
    ensures Around(n, idx, 0) == idx
    ensures p > 0 ==> Around(n, Following(n, idx), p - 1) == Around(n, idx, p)
  {
  }

  lemma AroundApart(n: nat, idx: nat, p: nat, q: nat)
    requires idx < n && p < q < n
    ensures Around(n, idx, p) != Around(n, idx, q)
  {
  }

  // They are the servers that take it, in their order, each once.
  lemma {:induction false} TakersAre(servers: seq<Srv>, idx: nat, m: nat, kind: nat, domain: string, net: Net)
    requires idx < |servers| && m <= |servers|
    ensures var to := Takers(servers, idx, m, kind, domain, net);
      && (forall p: nat :: p < m && Takes(servers[Around(|servers|, idx, p)], kind, domain, net) ==>
            Around(|servers|, idx, p) in to)
      && (forall k :: k in to ==>
            exists p: nat :: p < m && Around(|servers|, idx, p) == k && Takes(servers[k], kind, domain, net))
    decreases m
  {
    hide Takes;
    if m > 0 {
      var n, next := |servers|, Following(|servers|, idx);
      var to, rest := Takers(servers, idx, m, kind, domain, net), Takers(servers, next, m - 1, kind, domain, net);
      TakersAre(servers, next, m - 1, kind, domain, net);
      forall p: nat | p < m && Takes(servers[Around(n, idx, p)], kind, domain, net)
        ensures Around(n, idx, p) in to
      {
        AroundNext(n, idx, p);
      }
      forall k | k in to
        ensures exists p: nat :: p < m && Around(n, idx, p) == k && Takes(servers[k], kind, domain, net)
      {
        AroundNext(n, idx, 0);
        if k in rest {
          var p: nat :| p < m - 1 && Around(n, next, p) == k && Takes(servers[k], kind, domain, net);
          AroundNext(n, idx, p + 1);
          assert p + 1 < m && Around(n, idx, p + 1) == k;
        } else {
          assert 0 < m && Around(n, idx, 0) == k;
        }
      }
    }
  }

  // ---------- the send loop ----------

  lemma SuitableMeans(s: Srv, kind: nat, domain: string)
    ensures Suitable(s, kind, domain) <==> MayGet(s, kind, domain)
  {
    NameEqMeans(domain, s.domain);
  }

  // The server may get the query, but needs a socket of its family and there is none to be
  // had: none to open, and none to share.
  predicate Lacks(st: Fwd, i: nat, s: Srv, kind: nat, domain: string, net: Net)
    requires i < |st.frecs| && |net.opens4| == |net.opens6| == |st.socks|
  {
    && MayGet(s, kind, domain) && !s.ownSocket
    && (if s.family == V4 then st.frecs[i].rfd4.None? else st.frecs[i].rfd6.None?)
    && forall j :: 0 <= j < |st.socks| ==>
      && !(st.socks[j].refcount == 0 && (if s.family == V4 then net.opens4[j] else net.opens6[j]))
      && !(st.socks[j].family == Some(s.family) && st.socks[j].refcount != 0xffff)
  }

  lemma SocketLacks(st: Fwd, i: nat, s: Srv, kind: nat, domain: string, net: Net)
    requires i < |st.frecs| && |net.opens4| == |net.opens6| == |st.socks| && st.finger < |st.socks|
    requires Suitable(s, kind, domain) && !FindSocket(st, i, s, net).ok
    ensures Lacks(FindSocket(st, i, s, net).st, i, s, kind, domain, net)
  {
    SuitableMeans(s, kind, domain);
    AllocateRfdNone(st.socks, st.finger, s.family, Opens(net, s.family));
  }

  // Where the loop stopped: at the end of the list, at a server it has no socket for, or
  // when the query is to go to one server only, behind that.
  predicate Stops(st: Fwd, r: Sent, i: nat, idx: nat, m: nat, steps: nat, kind: nat, domain: string, net: Net)
    requires i < |st.frecs| && i < |r.st.frecs| && idx < |st.servers| && steps <= |st.servers|
    requires |net.opens4| == |net.opens6| == |r.st.socks|
  {
    && m <= steps
    && r.to == Takers(st.servers, idx, m, kind, domain, net)
    && if st.frecs[i].forwardall == 0 && r.to != [] then m > 0 && r.to == [Around(|st.servers|, idx, m - 1)]
       else m == steps || Lacks(r.st, i, st.servers[Around(|st.servers|, idx, m)], kind, domain, net)
  }

  lemma FindSocketKeeps(st: Fwd, i: nat, s: Srv, net: Net)
    requires i < |st.frecs| && |net.opens4| == |net.opens6| == |st.socks| && st.finger < |st.socks|
    ensures var w := FindSocket(st, i, s, net);
      && w.st.servers == st.servers && w.st.frecs[i].forwardall == st.frecs[i].forwardall
      && w.st.finger < |w.st.socks|
  {
  }

  // A server that is passed over, or in a burst sent to, only shifts where the loop stops.
  lemma StopsLater(st: Fwd, st': Fwd, r: Sent, r': Sent, i: nat, idx: nat, m: nat, steps: nat, kind: nat,
                   domain: string, net: Net)
    requires i < |st.frecs| && i < |st'.frecs| && i < |r.st.frecs| && idx < |st.servers| && 0 < steps <= |st.servers|
    requires |net.opens4| == |net.opens6| == |r.st.socks| && r.st == r'.st && st'.servers == st.servers
    requires st.frecs[i].forwardall == 0 <==> st'.frecs[i].forwardall == 0
    requires Stops(st', r', i, Following(|st.servers|, idx), m, steps - 1, kind, domain, net)
    requires if Takes(st.servers[idx], kind, domain, net) then r.to == [idx] + r'.to && st.frecs[i].forwardall != 0
             else r.to == r'.to
    ensures Stops(st, r, i, idx, m + 1, steps, kind, domain, net)
  {
    hide Takes, Lacks;
    var n := |st.servers|;
    if m < n { AroundNext(n, idx, m); }
    if m + 1 < n { AroundNext(n, idx, m + 1); }
    assert Takers(st.servers, idx, m + 1, kind, domain, net)
        == (if Takes(st.servers[idx], kind, domain, net) then [idx] else [])
           + Takers(st.servers, Following(n, idx), m, kind, domain, net);
  }

  // What SendOn does, told without its own test of servers.
  lemma {:induction false} SendExact(st: Fwd, i: nat, idx: nat, steps: nat, kind: nat, domain: string, net: Net)
    returns (m: nat)
    requires i < |st.frecs| && idx < |st.servers| && |net.opens4| == |net.opens6| == |st.socks|
    requires st.finger < |st.socks| && steps <= |st.servers|
    ensures Stops(st, SendOn(st, i, idx, steps, kind, domain, net), i, idx, m, steps, kind, domain, net)
    decreases steps
  {
    hide FindSocket, Suitable, MayGet, Lacks, SendOn, Stops;
    if steps == 0 {
      SendNone(st, i, idx, kind, domain, net);
      StopsAtOnce(st, Sent(st, []), i, idx, 0, kind, domain, net);
      return 0;
    }
    var n, s := |st.servers|, st.servers[idx];
    var next := NextServer(n, idx);
    var r := SendOn(st, i, idx, steps, kind, domain, net);
    SendUnroll(st, i, idx, steps, kind, domain, net);
    SuitableMeans(s, kind, domain);
    FindSocketKeeps(st, i, s, net);
    var w := FindSocket(st, i, s, net);
    if !Suitable(s, kind, domain) {
      m := SendExact(st, i, next, steps - 1, kind, domain, net);
      StopsLater(st, st, r, r, i, idx, m, steps, kind, domain, net);
      m := m + 1;
    } else if !w.ok {
      SocketLacks(st, i, s, kind, domain, net);
      StopsAtOnce(st, r, i, idx, steps, kind, domain, net);
      m := 0;
    } else if s.id !in net.reach {
      m := SendExact(w.st, i, next, steps - 1, kind, domain, net);
      StopsLater(st, w.st, r, r, i, idx, m, steps, kind, domain, net);
      m := m + 1;
    } else if w.st.frecs[i].forwardall == 0 {
      StopsAtFirst(st, r, i, idx, steps, kind, domain, net);
      m := 1;
    } else {
      var t := Marked(w.st, i, s);
      m := SendExact(t, i, next, steps - 1, kind, domain, net);
      StopsLater(st, t, r, SendOn(t, i, next, steps - 1, kind, domain, net), i, idx, m, steps, kind, domain, net);
      m := m + 1;
    }
  }

  lemma StopsAtOnce(st: Fwd, r: Sent, i: nat, idx: nat, steps: nat, kind: nat, domain: string, net: Net)
    requires i < |st.frecs| && i < |r.st.frecs| && idx < |st.servers| && steps <= |st.servers|
    requires |net.opens4| == |net.opens6| == |r.st.socks| && r.to == []
    requires steps == 0 || Lacks(r.st, i, st.servers[idx], kind, domain, net)
    ensures Stops(st, r, i, idx, 0, steps, kind, domain, net)
  {
    hide Lacks, Takes;
    AroundNext(|st.servers|, idx, 0);
  }

  lemma StopsAtFirst(st: Fwd, r: Sent, i: nat, idx: nat, steps: nat, kind: nat, domain: string, net: Net)
    requires i < |st.frecs| && i < |r.st.frecs| && idx < |st.servers| && 0 < steps <= |st.servers|
    requires |net.opens4| == |net.opens6| == |r.st.socks| && r.to == [idx]
    requires st.frecs[i].forwardall == 0 && Takes(st.servers[idx], kind, domain, net)
    ensures Stops(st, r, i, idx, 1, steps, kind, domain, net)
  {
    hide Lacks, Takes;
    AroundNext(|st.servers|, idx, 0);
    assert Takers(st.servers, idx, 1, kind, domain, net)
        == [idx] + Takers(st.servers, Following(|st.servers|, idx), 0, kind, domain, net);
  }

  // ---------- where queries go ----------

  // The record's server takes the query. A query for one server goes to the first that
  // takes it, counted round from server idx; then sentto is that one.
  ghost predicate GoesTo(servers: seq<Srv>, f: Frec, idx: nat, kind: nat, domain: string, net: Net)
    requires idx < |servers|
  {
    exists p: nat :: p < |servers| && GoesToAt(servers, f, idx, p, kind, domain, net)
  }

  predicate GoesToAt(servers: seq<Srv>, f: Frec, idx: nat, p: nat, kind: nat, domain: string, net: Net)
    requires idx < |servers| && p < |servers|
  {
    var s := servers[Around(|servers|, idx, p)];
    && f.sentto == Some(s.id) && Takes(s, kind, domain, net)
    && (f.forwardall == 0 ==> forall o: nat :: o < p ==> !Takes(servers[Around(|servers|, idx, o)], kind, domain, net))
  }

  // Where the record's server stands in the list of those sent to.
  lemma {:induction false} LastSentTo(st: Fwd, i: nat, idx: nat, steps: nat, kind: nat, domain: string, net: Net)
    requires i < |st.frecs| && idx < |st.servers| && |net.opens4| == |net.opens6| == |st.socks|
    ensures var r := SendOn(st, i, idx, steps, kind, domain, net);
      && (r.to == [] ==> r.st.frecs[i].sentto == st.frecs[i].sentto)
      && (r.to != [] ==> var k := r.to[|r.to| - 1];
            k < |st.servers| && r.st.frecs[i].sentto == Some(st.servers[k].id))
      && (r.st.frecs[i].forwardall == 0 <==> st.frecs[i].forwardall == 0)
    decreases steps
  {
    hide FindSocket, Suitable, SendOn;
    if steps == 0 {
      SendNone(st, i, idx, kind, domain, net);
    } else {
      var s, next := st.servers[idx], NextServer(|st.servers|, idx);
      SendUnroll(st, i, idx, steps, kind, domain, net);
      SocketKeepsServer(st, i, s, net);
      var w := FindSocket(st, i, s, net);
      LastSentTo(st, i, next, steps - 1, kind, domain, net);
      LastSentTo(w.st, i, next, steps - 1, kind, domain, net);
      LastSentTo(Marked(w.st, i, s), i, next, steps - 1, kind, domain, net);
    }
  }

  lemma SocketKeepsServer(st: Fwd, i: nat, s: Srv, net: Net)
    requires i < |st.frecs| && |net.opens4| == |net.opens6| == |st.socks|
    ensures var w := FindSocket(st, i, s, net);
      && w.st.servers == st.servers && w.st.frecs[i].forwardall == st.frecs[i].forwardall
      && w.st.frecs[i].sentto == st.frecs[i].sentto
  {
  }

  lemma SentGoes(st: Fwd, i: nat, idx: nat, kind: nat, domain: string, net: Net)
    requires i < |st.frecs| && idx < |st.servers| && |net.opens4| == |net.opens6| == |st.socks|
    requires st.finger < |st.socks|
    ensures var (r, ok) := Finish(SendOn(st, i, idx, |st.servers|, kind, domain, net), i);
      ok ==> GoesTo(st.servers, r.frecs[i], idx, kind, domain, net)
  {
    hide SendOn, Takes, MayGet, Lacks, FreeFrec;
    var n := |st.servers|;
    var r := SendOn(st, i, idx, n, kind, domain, net);
    var m := SendExact(st, i, idx, n, kind, domain, net);
    LastSentTo(st, i, idx, n, kind, domain, net);
    TakersAre(st.servers, idx, m, kind, domain, net);
    if r.to != [] {
      var k := r.to[|r.to| - 1];
      assert k in r.to;
      var p: nat :| p < m && Around(n, idx, p) == k && Takes(st.servers[k], kind, domain, net);
      forall o: nat | o < p && st.frecs[i].forwardall == 0
        ensures !Takes(st.servers[Around(n, idx, o)], kind, domain, net)
      {
        if Takes(st.servers[Around(n, idx, o)], kind, domain, net) {
          AroundApart(n, idx, o, p);
        }
      }
      assert GoesToAt(st.servers, r.st.frecs[i], idx, p, kind, domain, net);
    }
  }

  lemma InvFinger(st: Fwd, ftabsize: nat)
    requires Inv(st, ftabsize)
    ensures st.finger < |st.socks| && DistinctIds(st.servers)
  {
  }

  // The same question again goes on behind the server it went to last, to all servers that
  // take it, or to the next one only if they are to be used in their order.
  lemma RetryGoes(st: Fwd, i: nat, order: bool, net: Net, ftabsize: nat)
    requires Inv(st, ftabsize) && i < |st.frecs| && Active(st.frecs[i]) && |net.opens4| == |net.opens6| == |st.socks|
    requires IndexOfServer(st.servers, st.frecs[i].sentto.v) < |st.servers|
    ensures var k := IndexOfServer(st.servers, st.frecs[i].sentto.v);
      var (r, ok) := Retry(st, i, order, net);
      && st.servers[k].id == st.frecs[i].sentto.v
      && (ok ==>
            && GoesTo(st.servers, r.frecs[i], Following(|st.servers|, k), st.servers[k].kind, st.servers[k].domain, net)
            && (r.frecs[i].forwardall == 0 <==> order && st.frecs[i].forwardall == 0))
  {
    hide Inv, SendOn, GoesTo, FreeFrec;
    InvFinger(st, ftabsize);
    var k := IndexOfServer(st.servers, st.frecs[i].sentto.v);
    var st1 := if order then st
               else st.(frecs := st.frecs[i := st.frecs[i].(forwardall := 1)], lastServer := None);
    var next := NextServer(|st.servers|, k);
    SentGoes(st1, i, next, st.servers[k].kind, st.servers[k].domain, net);
    LastSentTo(st1, i, next, |st.servers|, st.servers[k].kind, st.servers[k].domain, net);
  }

  // A new query starts at the server known to work, or at the first one when it has to keep
  // to the order or is for particular servers, or none is known.
  predicate StartsAt(st: Fwd, q: Query, idx: nat) {
    && idx < |st.servers|
    && if q.kind != 0 || q.order || st.lastServer.None? then idx == 0 else st.servers[idx].id == st.lastServer.v
  }

  lemma NewQueryGoes(st: Fwd, q: Query, ftabsize: nat)
    requires Inv(st, ftabsize) && LegalQuery(st, q, ftabsize) && |q.net.opens4| == |q.net.opens6| == |st.socks|
    requires st.servers != [] && FirstServer(st, q) < |st.servers| && NewQuery(st, q, ftabsize).1
    ensures var r := NewQuery(st, q, ftabsize).0; var idx := FirstServer(st, q);
      && StartsAt(st, q, idx)
      && exists f :: f in r.frecs && UseOf(f, st.nextSerial, q)
           && GoesTo(st.servers, f, idx, q.kind, q.domain, q.net)
           && (f.forwardall != 0 <==> q.kind == 0 && !q.order && st.lastServer.None?)
  {
    hide Inv, GetNewFrec, SendOn, FreeFrec, GetId, Ready, IdTaken, LegalQuery, GoesTo;
    GetNewFrecSafe(st, q.now, false, ftabsize, q.room);
    Shapes(st, q, ftabsize);
    var g := GetNewFrec(st, q.now, false, ftabsize, q.room);
    var i := g.frec.v;
    var (st1, newId) := WithId(g, q);
    GetIdKeeps(g.st, q, ftabsize);
    InvFinger(st1, ftabsize);
    var st2 := Fill(st1, i, q, newId);
    var idx := FirstServer(st, q);
    SentGoes(st2, i, idx, q.kind, q.domain, q.net);
    LastSentTo(st2, i, idx, |st.servers|, q.kind, q.domain, q.net);
    SendKeepsUse(st2, i, idx, |st.servers|, q.kind, q.domain, q.net);
    assert NewQuery(st, q, ftabsize).0.frecs[i] in NewQuery(st, q, ftabsize).0.frecs;
  }

  lemma {:induction false} SendKeepsUse(st: Fwd, i: nat, idx: nat, steps: nat, kind: nat, domain: string, net: Net)
    requires i < |st.frecs| && idx < |st.servers| && |net.opens4| == |net.opens6| == |st.socks|
    ensures var f, g := st.frecs[i], SendOn(st, i, idx, steps, kind, domain, net).st.frecs[i];
      g.serial == f.serial && g.source == f.source && g.fd == f.fd && g.origId == f.origId && g.crc == f.crc
    decreases steps
  {
    hide Suitable, SendOn;
    if steps == 0 {
      SendNone(st, i, idx, kind, domain, net);
    } else {
      var s, next := st.servers[idx], NextServer(|st.servers|, idx);
      SendUnroll(st, i, idx, steps, kind, domain, net);
      var w := FindSocket(st, i, s, net);
      SendKeepsUse(st, i, next, steps - 1, kind, domain, net);
      SendKeepsUse(w.st, i, next, steps - 1, kind, domain, net);
      SendKeepsUse(Marked(w.st, i, s), i, next, steps - 1, kind, domain, net);
    }
  }

  // The same, and what is left when nothing could be sent.
  lemma FinishLeaves(r: Sent, i: nat)
    requires i < |r.st.frecs|
    ensures var (t, ok) := Finish(r, i);
      && |t.frecs| == |r.st.frecs| && (ok <==> r.to != [])
      && (ok ==> t == r.st)
      && (!ok ==> !Active(t.frecs[i]) && forall k :: 0 <= k < |t.frecs| && k != i ==> t.frecs[k] == r.st.frecs[k])
  {
    hide FreeFrec;
    FreeFrecFrees(r.st, i);
  }

  lemma {:induction false} SendElsewhere(st: Fwd, i: nat, idx: nat, steps: nat, kind: nat, domain: string, net: Net)
    requires i < |st.frecs| && idx < |st.servers| && |net.opens4| == |net.opens6| == |st.socks|
    ensures forall k :: 0 <= k < |st.frecs| && k != i ==>
      SendOn(st, i, idx, steps, kind, domain, net).st.frecs[k] == st.frecs[k]
    decreases steps
  {
    hide Suitable, SendOn;
    if steps == 0 {
      SendNone(st, i, idx, kind, domain, net);
    } else {
      var s, next := st.servers[idx], NextServer(|st.servers|, idx);
      SendUnroll(st, i, idx, steps, kind, domain, net);
      var w := FindSocket(st, i, s, net);
      SendElsewhere(st, i, next, steps - 1, kind, domain, net);
      SendElsewhere(w.st, i, next, steps - 1, kind, domain, net);
      SendElsewhere(Marked(w.st, i, s), i, next, steps - 1, kind, domain, net);
    }
  }

  // The table has a record that waits for an answer to the question of the client.
  predicate Awaited(st: Fwd, q: Query) {
    exists i :: (0 <= i < |st.frecs| && Active(st.frecs[i]) && st.frecs[i].source == q.source
      && st.frecs[i].origId == q.id && st.frecs[i].crc == q.crc)
  }

  // forward_query says whether the question has gone to a server, so that an answer is
  // awaited; if it says no, no use of a record has begun. What is answered here, or cannot be
  // sent anywhere, leaves the table as it was.
  lemma QueryTaken(st: Fwd, q: Query, ftabsize: nat)
    requires Inv(st, ftabsize) && LegalQuery(st, q, ftabsize) && |q.net.opens4| == |q.net.opens6| == |st.socks|
    requires forall i :: 0 <= i < |st.frecs| && Active(st.frecs[i]) ==>
      IndexOfServer(st.servers, st.frecs[i].sentto.v) < |st.servers|
    requires st.servers != [] ==> FirstServer(st, q) < |st.servers|
    ensures var (r, ok) := OnQuery(st, q, ftabsize);
      && (ok ==> Awaited(r, q))
      && (!ok ==> forall f :: f in r.frecs && Active(f) ==> exists g :: g in st.frecs && SameUse(g, f))
      && (st.servers == [] || (q.local && !Awaited(st, q)) ==> r == st && !ok)
  {
    hide Inv, Retry, NewQuery, LegalQuery, SameUse, FirstServer;
    var i := LookupBySender(st.frecs, q.id, q.source, q.crc);
    SelfUses(st.frecs);
    if st.servers != [] && i < |st.frecs| {
      RetryKeeps(st, i, q.order, q.net, ftabsize);
      FromIndices(st.frecs, Retry(st, i, q.order, q.net).0.frecs);
      RetryAwaits(st, i, q.order, q.net, ftabsize);
      var (r, ok) := OnQuery(st, q, ftabsize);
      if ok {
        AwaitedAt(st.frecs[i], r, i, q);
      }
    } else if st.servers != [] && !q.local {
      NewQueryAwaits(st, q, ftabsize);
    }
  }

  lemma AwaitedAt(f: Frec, r: Fwd, i: nat, q: Query)
    requires i < |r.frecs| && Active(r.frecs[i]) && SameUse(f, r.frecs[i]) && SenderFits(f, q.id, q.source, q.crc)
    ensures Awaited(r, q)
  {
  }

  lemma RetryAwaits(st: Fwd, i: nat, order: bool, net: Net, ftabsize: nat)
    requires Inv(st, ftabsize) && i < |st.frecs| && Active(st.frecs[i]) && |net.opens4| == |net.opens6| == |st.socks|
    requires IndexOfServer(st.servers, st.frecs[i].sentto.v) < |st.servers|
    requires |Retry(st, i, order, net).0.frecs| == |st.frecs|
    requires Active(Retry(st, i, order, net).0.frecs[i]) ==> SameUse(st.frecs[i], Retry(st, i, order, net).0.frecs[i])
    ensures var (r, ok) := Retry(st, i, order, net);
      ok <==> Active(r.frecs[i]) && SameUse(st.frecs[i], r.frecs[i])
  {
    hide Inv, SendOn, GoesTo, FreeFrec;
    InvFinger(st, ftabsize);
    var k := IndexOfServer(st.servers, st.frecs[i].sentto.v);
    var st1 := if order then st
               else st.(frecs := st.frecs[i := st.frecs[i].(forwardall := 1)], lastServer := None);
    var next := NextServer(|st.servers|, k);
    LastSentTo(st1, i, next, |st.servers|, st.servers[k].kind, st.servers[k].domain, net);
    FinishLeaves(SendOn(st1, i, next, |st.servers|, st.servers[k].kind, st.servers[k].domain, net), i);
  }

  lemma NewQueryAwaits(st: Fwd, q: Query, ftabsize: nat)
    requires Inv(st, ftabsize) && LegalQuery(st, q, ftabsize) && |q.net.opens4| == |q.net.opens6| == |st.socks|
    requires st.servers != [] && FirstServer(st, q) < |st.servers|
    ensures var (r, ok) := NewQuery(st, q, ftabsize);
      && (ok ==> Awaited(r, q))
      && (!ok ==> forall f :: f in r.frecs && Active(f) ==> exists g :: g in st.frecs && SameUse(g, f))
  {
    hide Inv, GetNewFrec, SendOn, FreeFrec, GetId, LegalQuery, SameUse, FirstServer, Finish;
    GetNewFrecSafe(st, q.now, false, ftabsize, q.room);
    GetNewFrecUses(st, q.now, ftabsize, q.room);
    Shapes(st, q, ftabsize);
    var g := GetNewFrec(st, q.now, false, ftabsize, q.room);
    if g.frec.Some? {
      var i := g.frec.v;
      var (st1, newId) := WithId(g, q);
      GetIdLeaves(g.st, q, i);
      var st2 := Fill(st1, i, q, newId);
      var idx := FirstServer(st, q);
      LastSentTo(st2, i, idx, |st.servers|, q.kind, q.domain, q.net);
      SendElsewhere(st2, i, idx, |st.servers|, q.kind, q.domain, q.net);
      SendKeepsUse(st2, i, idx, |st.servers|, q.kind, q.domain, q.net);
      FinishLeaves(SendOn(st2, i, idx, |st.servers|, q.kind, q.domain, q.net), i);
      var (r, ok) := NewQuery(st, q, ftabsize);
      forall f | f in r.frecs && Active(f) && !ok
        ensures exists h :: h in st.frecs && SameUse(h, f)
      {
        var k :| 0 <= k < |r.frecs| && r.frecs[k] == f;
        assert f == st1.frecs[k] == g.st.frecs[k];
      }
      if ok {
        assert Active(r.frecs[i]) && r.frecs[i].source == q.source && r.frecs[i].crc == q.crc;
      }
    }
  }

  // ---------- the server known to work ----------

  // What is remembered of the server that answered: an error means that all are asked next
  // time. Servers for particular domains are not remembered.
  predicate Remembers(st: Fwd, f: Frec, a: Answer, lastServer: Option<nat>) {
    exists k :: 0 <= k < |st.servers| && RemembersAt(st, f, a, lastServer, k)
  }

  predicate RemembersAt(st: Fwd, f: Frec, a: Answer, lastServer: Option<nat>, k: nat)
    requires k < |st.servers|
  {
    && f.sentto == Some(st.servers[k].id)
    && if st.servers[k].kind == 0 && !a.allServers then
         if a.error then lastServer == None
         else if a.good.Some? && HasServer(st.servers, a.good.v) then lastServer == a.good
         else lastServer == f.sentto
       else lastServer == st.lastServer
  }

  // A reply to record i is the occasion to remember its server; one that is sent on to other
  // servers forgets it.
  lemma ReplyRemembers(st: Fwd, a: Answer, ftabsize: nat)
    requires Inv(st, ftabsize) && |a.net.opens4| == |a.net.opens6| == |st.socks|
    requires forall i :: 0 <= i < |st.frecs| && Active(st.frecs[i]) ==>
      IndexOfServer(st.servers, st.frecs[i].sentto.v) < |st.servers|
    ensures var r := OnReply(st, a).0;
      var i := LookupFrec(st.frecs, a.id, a.crc);
      if i == |st.frecs| then r == st
      else if a.error && !a.order && a.retriable && st.frecs[i].forwardall == 0 then r.lastServer == None
      else Remembers(st, st.frecs[i], a, r.lastServer)
  {
    hide Inv, FreeFrec, SendOn;
    var i := LookupFrec(st.frecs, a.id, a.crc);
    if i < |st.frecs| {
      var k := IndexOfServer(st.servers, st.frecs[i].sentto.v);
      if a.error && !a.order && a.retriable && st.frecs[i].forwardall == 0 {
        var st1 := st.(frecs := st.frecs[i := st.frecs[i].(forwardall := 1)], lastServer := None);
        var next := NextServer(|st.servers|, k);
        SendKeepsList(st1, i, next, |st.servers|, st.servers[k].kind, st.servers[k].domain, a.net);
        var r := SendOn(st1, i, next, |st.servers|, st.servers[k].kind, st.servers[k].domain, a.net);
        FreeKeepsList(r.st, i);
      } else {
        var st2 := NoteServer(st, i, a).(frecs := st.frecs[i := Countdown(st.frecs[i])]);
        FreeKeepsList(st2, i);
        if a.good.Some? {
          HasIndex(st.servers, a.good.v);
        }
        assert RemembersAt(st, st.frecs[i], a, NoteServer(st, i, a).lastServer, k);
      }
    }
  }

  lemma HasIndex(servers: seq<Srv>, id: nat)
    ensures HasServer(servers, id) <==> IndexOfServer(servers, id) < |servers|
  {
  }

  lemma FreeKeepsList(st: Fwd, i: nat)
    requires i < |st.frecs|
    ensures FreeFrec(st, i).lastServer == st.lastServer && FreeFrec(st, i).servers == st.servers
  {
  }

  lemma {:induction false} SendKeepsList(st: Fwd, i: nat, idx: nat, steps: nat, kind: nat, domain: string, net: Net)
    requires i < |st.frecs| && idx < |st.servers| && |net.opens4| == |net.opens6| == |st.socks|
    ensures SendOn(st, i, idx, steps, kind, domain, net).st.lastServer == st.lastServer
    decreases steps
  {
    hide Suitable, SendOn;
    if steps == 0 {
      SendNone(st, i, idx, kind, domain, net);
    } else {
      var s, next := st.servers[idx], NextServer(|st.servers|, idx);
      SendUnroll(st, i, idx, steps, kind, domain, net);
      var w := FindSocket(st, i, s, net);
      SendKeepsList(st, i, next, steps - 1, kind, domain, net);
      SendKeepsList(w.st, i, next, steps - 1, kind, domain, net);
      SendKeepsList(Marked(w.st, i, s), i, next, steps - 1, kind, domain, net);
    }
  }

  // ---------- the client gets its answer ----------

  // A good answer ends the wait for the record it fits, and goes to the client if anything
  // is left of it; an error does so too where only one server was asked. An error that can be
  // asked again elsewhere is not passed on.
  lemma ReplyEnds(st: Fwd, a: Answer, i: nat)
    requires Answerable(st, a) && i < |st.frecs| && LookupFrec(st.frecs, a.id, a.crc) == i
    requires a.error ==> st.frecs[i].forwardall == 0
    ensures var (r, relay) := OnReply(st, a);
      if a.error && a.retriable && !a.order then relay.None?
      else
        && |r.frecs| == |st.frecs| && !Active(r.frecs[i])
        && (if a.usable then
              relay == Some(Relay(st.frecs[i].serial, st.frecs[i].source, st.frecs[i].fd, st.frecs[i].origId))
            else relay.None?)
  {
    hide FreeFrec, SendOn;
    var st1 := NoteServer(st, i, a);
    FreeFrecFrees(st1.(frecs := st1.frecs[i := Countdown(st.frecs[i])]), i);
  }
}
