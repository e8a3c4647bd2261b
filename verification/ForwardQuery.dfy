// Queries and replies: what forward_query and reply_query of forward.c do to the table.
// What the network, the options and the classification of the packet decide is part of
// the query or reply.
module ForwardQuery {
  import opened Optional
  import opened HostNames
  import opened ForwardTable

  // Servers for a domain have this kind.
  const HAS_DOMAIN: nat := 8

  // local: the query is answered here; kind and domain select the servers; reach is the
  // set of servers a packet can be sent to; opens4 and opens6 say which random sockets
  // could be opened.
  datatype Net = Net(reach: set<nat>, opens4: seq<bool>, opens6: seq<bool>)

  datatype Query = Query(source: nat, fd: int, id: nat, crc: nat, sign: bool, local: bool, kind: nat, domain: string,
                         order: bool, now: nat, room: bool, random: nat, net: Net)

  // error: SERVFAIL or REFUSED; retriable: the query can be made again from the reply;
  // good: the server at the sender's address; usable: process_reply left an answer.
  datatype Answer = Answer(id: nat, crc: nat, error: bool, order: bool, allServers: bool, retriable: bool,
                           good: Option<nat>, usable: bool, net: Net)

  datatype Relay = Relay(serial: nat, source: nat, fd: int, origId: nat)

  predicate Suitable(s: Srv, kind: nat, domain: string) {
    s.kind == kind && (kind == HAS_DOMAIN ==> NameEq(domain, s.domain)) && !s.literal
  }

  function IndexOfServer(servers: seq<Srv>, id: nat): (r: nat)
    ensures r <= |servers|
    ensures r < |servers| ==> servers[r].id == id
    ensures forall k :: 0 <= k < r ==> servers[k].id != id
  {
    if |servers| == 0 || servers[0].id == id then 0 else 1 + IndexOfServer(servers[1..], id)
  }

  function NextServer(n: nat, idx: nat): (r: nat)
    requires idx < n
    ensures r < n
  {
    if idx + 1 == n then 0 else idx + 1
  }

  // ---------- the send loop ----------

  predicate NeedsSocket(f: Frec, s: Srv) {
    !s.ownSocket && Rfd(f, s.family).None?
  }

  // A socket for the record, where it needs one; ok is false when there is none to get.
  datatype WithSocket = WithSocket(st: Fwd, ok: bool)

  function Opens(net: Net, fam: Family): seq<bool> {
    if fam == V4 then net.opens4 else net.opens6
  }

  function FindSocket(st: Fwd, i: nat, s: Srv, net: Net): (w: WithSocket)
    requires i < |st.frecs| && |net.opens4| == |net.opens6| == |st.socks|
    ensures |w.st.frecs| == |st.frecs| && |w.st.socks| == |st.socks| && w.st.servers == st.servers
  {
    if !NeedsSocket(st.frecs[i], s) then WithSocket(st, true)
    else
      var g := AllocateRfd(st.socks, st.finger, s.family, Opens(net, s.family));
      WithSocket(st.(socks := g.socks, finger := g.finger, frecs := st.frecs[i := SetRfd(st.frecs[i], s.family,
          g.sock)]), g.sock.Some?)
  }

  // A packet has gone to the server; a burst counts it.
  function MarkSent(f: Frec, s: Srv): Frec {
    f.(sentto := Some(s.id), forwardall := if f.forwardall == 0 then 0 else f.forwardall + 1)
  }

  // The state, and the servers sent to, in their order.
  datatype Sent = Sent(st: Fwd, to: seq<nat>)

  // From server idx on, at most "steps" servers, until one has been sent to or, in a
  // burst, to the end.
  function SendOn(st: Fwd, i: nat, idx: nat, steps: nat, kind: nat, domain: string, net: Net): (r: Sent)
    requires i < |st.frecs| && idx < |st.servers| && |net.opens4| == |net.opens6| == |st.socks|
    ensures |r.st.frecs| == |st.frecs| && |r.st.socks| == |st.socks|
    decreases steps
  {
    if steps == 0 then Sent(st, [])
    else
      var s := st.servers[idx];
      var next := NextServer(|st.servers|, idx);
      if !Suitable(s, kind, domain) then SendOn(st, i, next, steps - 1, kind, domain, net)
      else
        var w := FindSocket(st, i, s, net);
        if !w.ok then Sent(w.st, [])
        else if s.id !in net.reach then SendOn(w.st, i, next, steps - 1, kind, domain, net)
        else
          var f := MarkSent(w.st.frecs[i], s);
          var st' := w.st.(frecs := w.st.frecs[i := f]);
          if f.forwardall == 0 then Sent(st', [idx])
          else
            var r := SendOn(st', i, next, steps - 1, kind, domain, net);
            Sent(r.st, [idx] + r.to)
  }

  // The table when a packet has gone to the server.
  function Marked(st: Fwd, i: nat, s: Srv): (r: Fwd)
    requires i < |st.frecs|
    ensures |r.frecs| == |st.frecs| && |r.socks| == |st.socks| && r.servers == st.servers
  {
    st.(frecs := st.frecs[i := MarkSent(st.frecs[i], s)])
  }

  // One server of the loop.
  lemma SendUnroll(st: Fwd, i: nat, idx: nat, steps: nat, kind: nat, domain: string, net: Net)
    requires i < |st.frecs| && idx < |st.servers| && |net.opens4| == |net.opens6| == |st.socks| && steps > 0
    ensures var s, next, w := st.servers[idx], NextServer(|st.servers|, idx), FindSocket(st, i, st.servers[idx], net);
      SendOn(st, i, idx, steps, kind, domain, net)
      == if !Suitable(s, kind, domain) then SendOn(st, i, next, steps - 1, kind, domain, net)
         else if !w.ok then Sent(w.st, [])
         else if s.id !in net.reach then SendOn(w.st, i, next, steps - 1, kind, domain, net)
         else if w.st.frecs[i].forwardall == 0 then Sent(Marked(w.st, i, s), [idx])
         else
           var r := SendOn(Marked(w.st, i, s), i, next, steps - 1, kind, domain, net);
           Sent(r.st, [idx] + r.to)
  {
    hide FindSocket, Suitable;
  }

  lemma SendNone(st: Fwd, i: nat, idx: nat, kind: nat, domain: string, net: Net)
    requires i < |st.frecs| && idx < |st.servers| && |net.opens4| == |net.opens6| == |st.socks|
    ensures SendOn(st, i, idx, 0, kind, domain, net) == Sent(st, [])
  {
  }

  // Nothing sent means the record is given up.
  function Finish(r: Sent, i: nat): (Fwd, bool)
    requires i < |r.st.frecs|
  {
    if r.to != [] then (r.st, true) else (FreeFrec(r.st, i), false)
  }

  // ---------- forward_query ----------

  // The same question again: on to the next server, or to all of them.
  function Retry(st: Fwd, i: nat, order: bool, net: Net): (Fwd, bool)
    requires i < |st.frecs| && Active(st.frecs[i]) && |net.opens4| == |net.opens6| == |st.socks|
    requires IndexOfServer(st.servers, st.frecs[i].sentto.v) < |st.servers|
  {
    var k := IndexOfServer(st.servers, st.frecs[i].sentto.v);
    var st1 := if order then st
               else st.(frecs := st.frecs[i := st.frecs[i].(forwardall := 1)], lastServer := None);
    Finish(SendOn(st1, i, NextServer(|st.servers|, k), |st.servers|, st.servers[k].kind, st.servers[k].domain, net), i)
  }

  // The record of a new query, before it is sent.
  function Fill(st: Fwd, i: nat, q: Query, newId: nat): (r: Fwd)
    requires i < |st.frecs|
    ensures |r.frecs| == |st.frecs| && r.socks == st.socks && r.servers == st.servers
  {
    var burst := q.kind == 0 && !q.order && st.lastServer.None?;
    var f := st.frecs[i].(source := q.source, fd := q.fd, origId := q.id, newId := newId, crc := q.crc,
                          forwardall := if burst then 1 else 0, serial := st.nextSerial);
    st.(frecs := st.frecs[i := f], nextSerial := st.nextSerial + 1)
  }

  function FirstServer(st: Fwd, q: Query): nat {
    if q.kind != 0 || q.order || st.lastServer.None? then 0 else IndexOfServer(st.servers, st.lastServer.v)
  }

  // get_id for a query whose record has just been found.
  function WithId(g: NewFrec, q: Query): (Fwd, nat) {
    GetId(g.st, q.sign, q.id, q.crc, q.random)
  }

  function NewQuery(st: Fwd, q: Query, ftabsize: nat): (Fwd, bool)
    requires |q.net.opens4| == |q.net.opens6| == |st.socks|
    requires st.servers != [] && FirstServer(st, q) < |st.servers|
  {
    var g := GetNewFrec(st, q.now, false, ftabsize, q.room);
    if g.frec.None? then (g.st, false)
    else
      var (st1, newId) := WithId(g, q);
      Shapes(st, q, ftabsize);
      var st2 := Fill(st1, g.frec.v, q, newId);
      Finish(SendOn(st2, g.frec.v, FirstServer(st, q), |st.servers|, q.kind, q.domain, q.net), g.frec.v)
  }

  lemma {:induction false} SweepShape(st: Fwd, now: nat, n: nat)
    requires n <= |st.frecs|
    ensures var r := Sweep(st, now, n);
        r.servers == st.servers && r.lastServer == st.lastServer && r.nextSerial == st.nextSerial
  {
    if n > 0 {
      SweepShape(st, now, n - 1);
    }
  }

  lemma Shapes(st: Fwd, q: Query, ftabsize: nat)
    ensures var g := GetNewFrec(st, q.now, false, ftabsize, q.room);
      && |g.st.socks| == |st.socks| && g.st.servers == st.servers && g.st.lastServer == st.lastServer &&
          g.st.nextSerial == st.nextSerial
      && |WithId(g, q).0.frecs| == |g.st.frecs| && |WithId(g, q).0.socks| == |st.socks| && WithId(g,
          q).0.servers == st.servers
      && WithId(g, q).0.lastServer == st.lastServer && WithId(g, q).0.nextSerial == st.nextSerial
  {
    SweepShape(st, q.now, |st.frecs|);
  }

  // A query of a client: forwarded, or answered with an error or from here.
  function OnQuery(st: Fwd, q: Query, ftabsize: nat): (Fwd, bool)
    requires |q.net.opens4| == |q.net.opens6| == |st.socks|
    requires forall i :: 0 <= i < |st.frecs| && Active(st.frecs[i]) ==>
        IndexOfServer(st.servers, st.frecs[i].sentto.v) < |st.servers|
    requires st.servers != [] ==> FirstServer(st, q) < |st.servers|
  {
    var i := LookupBySender(st.frecs, q.id, q.source, q.crc);
    if st.servers == [] then (st, false)
    else if i < |st.frecs| then Retry(st, i, q.order, q.net)
    else if q.local then (st, false)
    else NewQuery(st, q, ftabsize)
  }

  // ---------- reply_query ----------

  // The last good server is remembered, unless all are used anyway.
  function NoteServer(st: Fwd, i: nat, a: Answer): Fwd
    requires i < |st.frecs| && Active(st.frecs[i]) && IndexOfServer(st.servers, st.frecs[i].sentto.v) < |st.servers|
  {
    var sent := st.frecs[i].sentto.v;
    if st.servers[IndexOfServer(st.servers, sent)].kind != 0 || a.allServers then st
    else st.(lastServer := if a.error then None
        else if a.good.Some? && IndexOfServer(st.servers, a.good.v) < |st.servers| then a.good else Some(sent))
  }

  function Countdown(f: Frec): Frec {
    if f.forwardall == 0 then f else f.(forwardall := f.forwardall - 1)
  }

  // The answer goes to the client if it is good, or if no other is awaited.
  predicate Final(f: Frec, error: bool) {
    f.forwardall == 0 || f.forwardall - 1 == 1 || !error
  }

  function OnReply(st: Fwd, a: Answer): (Fwd, Option<Relay>)
    requires |a.net.opens4| == |a.net.opens6| == |st.socks|
    requires forall i :: 0 <= i < |st.frecs| && Active(st.frecs[i]) ==>
        IndexOfServer(st.servers, st.frecs[i].sentto.v) < |st.servers|
  {
    var i := LookupFrec(st.frecs, a.id, a.crc);
    if i == |st.frecs| then (st, None)
    else if a.error && !a.order && st.frecs[i].forwardall == 0 && a.retriable then (Retry(st, i, a.order, a.net).0,
        None)
    else
      var f := st.frecs[i];
      var st1 := NoteServer(st, i, a);
      var st2 := st1.(frecs := st1.frecs[i := Countdown(f)]);
      if Final(f, a.error) then
        (FreeFrec(st2, i), if a.usable then Some(Relay(f.serial, f.source, f.fd, f.origId)) else None)
      else (st2, None)
  }
}
