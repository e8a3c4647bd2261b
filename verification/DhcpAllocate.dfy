// address_allocate of dhcp.c: the search for a free address, with its pings.
module DhcpAllocate {
  import opened Optional
  import opened LeaseTable
  import opened DhcpConfig

  const WORD: nat := 0x1_0000_0000

  const PING_WAIT: nat := 3

  const PING_CACHE_TIME: nat := 30

  // Six tenths of the pings that fit into the cache time.
  const MAX_PINGS: nat := 6 * (PING_CACHE_TIME / PING_WAIT) / 10

  datatype Ping = Ping(addr: nat, time: nat)

  // ---------- which addresses may be given out ----------

  predicate IsRouter(chain: seq<Context>, a: nat) {
    exists i :: 0 <= i < |chain| && chain[i].router == a
  }

  predicate Excluded(chain: seq<Context>, live: seq<Lease>, configs: seq<Config>, a: nat) {
    IsRouter(chain, a) || HasAddr(live, a) || exists i :: 0 <= i < |configs| && configs[i].addr == Some(a)
  }

  // The range may be used; a range for tagged clients only, or also one for all.
  predicate Eligible(c: Context, tags: set<string>, forAll: bool) {
    !c.isStatic && MatchNetid(c.filter, tags, forAll)
  }

  // What an address given out has to satisfy.
  predicate Free(chain: seq<Context>, live: seq<Lease>, configs: seq<Config>, tags: set<string>, a: nat) {
    !Excluded(chain, live, configs, a) && exists i :: 0 <= i < |chain| && Serves(chain[i], a, tags)
  }

  predicate Sane(c: Context) {
    c.start <= c.end < WORD && c.end - c.start + 1 < WORD
  }

  predicate SameRanges(a: seq<Context>, b: seq<Context>) {
    |a| == |b| && forall i :: 0 <= i < |a| ==> b[i] == a[i].(epoch := b[i].epoch)
  }

  lemma SameRangesExclude(a: seq<Context>, b: seq<Context>, live: seq<Lease>, configs: seq<Config>, x: nat)
    requires SameRanges(a, b)
    ensures Excluded(a, live, configs, x) <==> Excluded(b, live, configs, x)
  {
    if IsRouter(a, x) {
      var i :| 0 <= i < |a| && a[i].router == x;
      assert b[i].router == x;
    }
    if IsRouter(b, x) {
      var i :| 0 <= i < |b| && b[i].router == x;
      assert a[i].router == x;
    }
  }

  // ---------- the hash of the hardware address ----------

  function Sum(bytes: seq<nat>): nat {
    if bytes == [] then 0 else Sum(bytes[..|bytes| - 1]) + bytes[|bytes| - 1]
  }

  // The order of the bytes does not matter.
  lemma {:induction false} SumJoin(a: seq<nat>, b: seq<nat>)
    ensures Sum(a + b) == Sum(a) + Sum(b)
    ensures forall x: nat :: Sum([x]) == x
  {
    if b == [] {
      assert a + b == a;
    } else {
      var n := |b| - 1;
      assert (a + b)[..|a| + n] == a + b[..n];
      SumJoin(a, b[..n]);
    }
    assert forall x: nat :: [x][..0] == [];
  }

  lemma SumStep(s: nat, x: nat)
    ensures (s * 0x10101 % WORD + x + x * 0x100 + x * 0x10000) % WORD == (s + x) * 0x10101 % WORD
  {
    var a := s * 0x10101;
    WordShift(a / WORD, a % WORD + x * 0x10101);
    assert (s + x) * 0x10101 == a / WORD * WORD + (a % WORD + x * 0x10101);
  }

  lemma {:induction false} WordShift(q: nat, r: nat)
    ensures (q * WORD + r) % WORD == r % WORD
  {
    if q > 0 {
      WordShift(q - 1, r);
      var y := (q - 1) * WORD + r;
      assert (y + WORD) % WORD == y % WORD;
    }
  }

  method HashHwaddr(bytes: seq<nat>) returns (j: nat)
    ensures j == Sum(bytes) * 0x10101 % WORD
  {
    j := 0;
    for i := 0 to |bytes|
      invariant j == Sum(bytes[..i]) * 0x10101 % WORD
    {
      assert bytes[..i + 1][..i] == bytes[..i];
      SumStep(Sum(bytes[..i]), bytes[i]);
      j := (j + bytes[i] + bytes[i] * 0x100 + bytes[i] * 0x10000) % WORD;
    }
    assert bytes[..|bytes|] == bytes;
  }

  // ---------- pings ----------

  predicate Recent(p: Ping, now: nat) {
    now <= p.time + PING_CACHE_TIME
  }

  function RecentCount(ps: seq<Ping>, now: nat): nat {
    if ps == [] then 0 else (if Recent(ps[|ps| - 1], now) then 1 else 0) + RecentCount(ps[..|ps| - 1], now)
  }

  function RecentPlaces(ps: seq<Ping>, now: nat): set<nat> {
    set i: nat | i < |ps| && Recent(ps[i], now)
  }

  // The pings that count are those of the last 30 seconds.
  lemma {:induction false} CountIs(ps: seq<Ping>, now: nat)
    ensures RecentCount(ps, now) == |RecentPlaces(ps, now)|
  {
    if ps != [] {
      var n := |ps| - 1;
      CountIs(ps[..n], now);
      var before := RecentPlaces(ps[..n], now);
      assert RecentPlaces(ps, now) == if Recent(ps[n], now) then before + {n} else before;
    }
  }

  predicate KnownSilent(ps: seq<Ping>, now: nat, a: nat) {
    exists i :: 0 <= i < |ps| && Recent(ps[i], now) && ps[i].addr == a
  }

  lemma {:induction false} RecentCountPrefix(ps: seq<Ping>, now: nat, n: nat)
    requires n <= |ps|
    ensures RecentCount(ps[..n], now) <= RecentCount(ps, now)
  {
    if n < |ps| {
      RecentCountPrefix(ps[..|ps| - 1], now, n);
      assert ps[..|ps| - 1][..n] == ps[..n];
    } else {
      assert ps[..n] == ps;
    }
  }

  // The address is noted as silent if there is room, and counted; what is known of other
  // addresses is not forgotten.
  predicate Noted(ps: seq<Ping>, qs: seq<Ping>, now: nat, a: nat, room: bool) {
    && (room ==> KnownSilent(qs, now, a) && RecentCount(qs, now) == RecentCount(ps, now) + 1)
    && (forall p :: p in ps && Recent(p, now) ==> p in qs)
    && (forall p :: p in qs && p !in ps ==> p == Ping(a, now))
  }

  lemma {:induction false} CountFront(ps: seq<Ping>, now: nat, p: Ping)
    requires Recent(p, now)
    ensures RecentCount([p] + ps, now) == RecentCount(ps, now) + 1
  {
    var qs := [p] + ps;
    if ps == [] {
      assert qs[..|qs| - 1] == [];
    } else {
      assert qs[..|qs| - 1] == [p] + ps[..|ps| - 1];
      CountFront(ps[..|ps| - 1], now, p);
    }
  }

  lemma {:induction false} CountInPlace(ps: seq<Ping>, v: nat, now: nat, p: Ping)
    requires v < |ps| && !Recent(ps[v], now) && Recent(p, now)
    ensures RecentCount(ps[v := p], now) == RecentCount(ps, now) + 1
  {
    var n := |ps| - 1;
    if v == n {
      assert ps[v := p][..n] == ps[..n];
    } else {
      assert ps[v := p][..n] == ps[..n][v := p];
      CountInPlace(ps[..n], v, now, p);
    }
  }

  lemma NotedInPlace(ps: seq<Ping>, v: nat, now: nat, a: nat, room: bool)
    requires v < |ps| && !Recent(ps[v], now)
    ensures Noted(ps, ps[v := Ping(a, now)], now, a, room)
  {
    var p := Ping(a, now);
    CountInPlace(ps, v, now, p);
    assert Recent(ps[v := p][v], now);
    forall q | q in ps && Recent(q, now)
      ensures q in ps[v := p]
    {
      var k :| 0 <= k < |ps| && ps[k] == q;
      assert ps[v := p][k] == q;
    }
  }

  lemma NotedInFront(ps: seq<Ping>, now: nat, a: nat, room: bool)
    ensures Noted(ps, [Ping(a, now)] + ps, now, a, room)
  {
    CountFront(ps, now, Ping(a, now));
    assert Recent(([Ping(a, now)] + ps)[0], now);
  }

  // What is not excluded is passed over only because it answered one of the first n pings.
  ghost predicate Tried(before: seq<Context>, live: seq<Lease>, configs: seq<Config>, answers: (nat, nat) -> bool,
                        n: nat, a: nat) {
    Excluded(before, live, configs, a) || exists k :: 0 <= k < n && answers(k, a)
  }

  ghost predicate TriedFrom(before: seq<Context>, live: seq<Lease>, configs: seq<Config>, answers: (nat, nat) -> bool,
                            n: nat, lo: nat, hi: nat) {
    forall a :: lo <= a < hi ==> Tried(before, live, configs, answers, n, a)
  }

  lemma TriedNothing(before: seq<Context>, live: seq<Lease>, configs: seq<Config>, answers: (nat, nat) -> bool, n: nat,
                     a: nat)
    ensures TriedFrom(before, live, configs, answers, n, a, a)
  {
  }

  lemma TriedNext(before: seq<Context>, live: seq<Lease>, configs: seq<Config>, answers: (nat, nat) -> bool, n: nat,
                  lo: nat, a: nat)
    requires TriedFrom(before, live, configs, answers, n, lo, a) && Tried(before, live, configs, answers, n, a)
    ensures TriedFrom(before, live, configs, answers, n, lo, a + 1)
  {
    hide Tried;
  }

  lemma TriedJoin(before: seq<Context>, live: seq<Lease>, configs: seq<Config>, answers: (nat, nat) -> bool, n: nat,
                  lo: nat, mid: nat, hi: nat)
    requires TriedFrom(before, live, configs, answers, n, lo, mid)
    requires TriedFrom(before, live, configs, answers, n, mid, hi)
    ensures TriedFrom(before, live, configs, answers, n, lo, hi)
  {
    hide Tried;
  }

  // Every address of the first m ranges, as far as they are eligible.
  ghost predicate TriedRanges(before: seq<Context>, live: seq<Lease>, configs: seq<Config>, answers: (nat, nat) -> bool,
                              n: nat, tags: set<string>, forAll: bool, m: nat)
    requires m <= |before|
  {
    forall i :: 0 <= i < m && Eligible(before[i], tags, forAll) ==>
      TriedFrom(before, live, configs, answers, n, before[i].start, before[i].end + 1)
  }

  lemma TriedMore(before: seq<Context>, live: seq<Lease>, configs: seq<Config>, answers: (nat, nat) -> bool, n: nat,
                  n': nat, lo: nat, hi: nat)
    requires n <= n' && TriedFrom(before, live, configs, answers, n, lo, hi)
    ensures TriedFrom(before, live, configs, answers, n', lo, hi)
  {
    hide Excluded;
    forall a | lo <= a < hi
      ensures Tried(before, live, configs, answers, n', a)
    {
      assert Tried(before, live, configs, answers, n, a);
      if !Excluded(before, live, configs, a) {
        var k :| 0 <= k < n && answers(k, a);
        assert 0 <= k < n' && answers(k, a);
      }
    }
  }

  lemma TriedRangesMore(before: seq<Context>, live: seq<Lease>, configs: seq<Config>, answers: (nat, nat) -> bool,
                        n: nat, n': nat, tags: set<string>, forAll: bool, m: nat)
    requires m <= |before| && n <= n' && TriedRanges(before, live, configs, answers, n, tags, forAll, m)
    ensures TriedRanges(before, live, configs, answers, n', tags, forAll, m)
  {
    hide TriedFrom, Eligible;
    forall i | 0 <= i < m && Eligible(before[i], tags, forAll)
      ensures TriedFrom(before, live, configs, answers, n', before[i].start, before[i].end + 1)
    {
      TriedMore(before, live, configs, answers, n, n', before[i].start, before[i].end + 1);
    }
  }

  // Range k comes before range i: those for tagged clients first, then all ranges, each
  // time in their order.
  predicate Earlier(before: seq<Context>, tags: set<string>, k: nat, i: nat)
    requires k < |before| && i < |before|
  {
    && Eligible(before[k], tags, true)
    && if Eligible(before[i], tags, false) then Eligible(before[k], tags, false) && k < i
       else Eligible(before[k], tags, false) || k < i
  }

  ghost predicate Preferred(before: seq<Context>, live: seq<Lease>, configs: seq<Config>, answers: (nat, nat) -> bool,
                            n: nat, tags: set<string>, i: nat)
    requires i < |before|
  {
    forall k :: 0 <= k < |before| && Earlier(before, tags, k, i) ==>
      TriedFrom(before, live, configs, answers, n, before[k].start, before[k].end + 1)
  }

  // What comes before address a on the way round a range from address s.
  ghost predicate RoundTried(before: seq<Context>, live: seq<Lease>, configs: seq<Config>, answers: (nat, nat) -> bool,
                             n: nat, i: nat, s: nat, a: nat)
    requires i < |before|
  {
    && before[i].start <= s <= before[i].end && before[i].start <= a <= before[i].end
    && if s <= a then TriedFrom(before, live, configs, answers, n, s, a)
       else TriedFrom(before, live, configs, answers, n, s, before[i].end + 1)
            && TriedFrom(before, live, configs, answers, n, before[i].start, a)
  }

  // Where a client with hash j starts in a range.
  function SeedOf(c: Context, j: nat): nat
    requires c.start <= c.end
  {
    c.start + (j + c.epoch) % WORD % (c.end - c.start + 1)
  }

  // The address is taken without a ping: pings are switched off, it was silent within the
  // last 30 seconds, or there were too many pings in that time.
  predicate Unpinged(noPing: bool, ps: seq<Ping>, now: nat, a: nat) {
    noPing || KnownSilent(ps, now, a) || RecentCount(ps, now) >= MAX_PINGS
  }

  // The client address would be the same the next time, but for the answered pings.
  function Bumped(c: Context): Context {
    c.(epoch := (c.epoch + 1) % WORD)
  }

  class Allocator {
    var chain: seq<Context>
    var pings: seq<Ping>
    var sent: nat            // the pings sent so far

    constructor (chain: seq<Context>, pings: seq<Ping>)
      ensures this.chain == chain && this.pings == pings && sent == 0
    {
      this.chain, this.pings, sent := chain, pings, 0;
    }

    // The walk over the ping cache: skip says that no ping is needed, victim is the last
    // record too old to count.
    method SearchPings(a: nat, now: nat) returns (skip: bool, victim: Option<nat>)
      ensures skip <==> KnownSilent(pings, now, a) || RecentCount(pings, now) >= MAX_PINGS
      ensures victim.Some? ==> victim.v < |pings| && !Recent(pings[victim.v], now)
      ensures !skip && victim.None? ==> forall i :: 0 <= i < |pings| ==> Recent(pings[i], now)
    {
      var count := 0;
      victim := None;
      var i := 0;
      while i < |pings|
        invariant 0 <= i <= |pings|
        invariant count == RecentCount(pings[..i], now) < MAX_PINGS
        invariant forall k :: 0 <= k < i ==> !(Recent(pings[k], now) && pings[k].addr == a)
        invariant victim.Some? ==> victim.v < |pings| && !Recent(pings[victim.v], now)
        invariant victim.None? ==> forall k :: 0 <= k < i ==> Recent(pings[k], now)
      {
        assert pings[..i + 1][..i] == pings[..i];
        if now > pings[i].time + PING_CACHE_TIME {
          victim := Some(i);
        } else {
          count := count + 1;
          if count == MAX_PINGS || pings[i].addr == a {
            RecentCountPrefix(pings, now, i + 1);
            return true, victim;
          }
        }
        i := i + 1;
      }
      assert pings[..|pings|] == pings;
      skip := false;
    }

    // A free address is taken unless something answers a ping to it. answers(n, a) says
    // whether the n-th ping is answered when it goes to a.
    method Take(i: nat, a: nat, noPing: bool, now: nat, answers: (nat, nat) -> bool, room: bool) returns (taken: bool)
      requires i < |chain|
      modifies this
      ensures !taken ==> answers(old(sent), a) && sent == old(sent) + 1 && pings == old(pings)
      ensures !taken ==> chain == old(chain)[i := Bumped(old(chain)[i])]
      ensures taken ==> chain == old(chain)
      ensures taken && Unpinged(noPing, old(pings), now, a) ==> sent == old(sent) && pings == old(pings)
      ensures taken && !Unpinged(noPing, old(pings), now, a) ==>
        sent == old(sent) + 1 && !answers(old(sent), a) && Noted(old(pings), pings, now, a, room)
    {
      if noPing {
        return true;
      }
      var skip, victim := SearchPings(a, now);
      if skip {
        return true;
      }
      sent := sent + 1;
      if answers(sent - 1, a) {
        chain := chain[i := Bumped(chain[i])];
        return false;
      }
      if victim.Some? {
        NotedInPlace(pings, victim.v, now, a, room);
        pings := pings[victim.v := Ping(a, now)];
      } else if room {
        NotedInFront(pings, now, a, room);
        pings := [Ping(a, now)] + pings;
      }
      taken := true;
    }

    // An address given out was not just found in use: it needed no ping, or the last ping
    // went to it and nothing answered. Answered pings before that leave the ping cache
    // alone and change the order of addresses for the next time.
    twostate predicate Silent(noPing: bool, now: nat, answers: (nat, nat) -> bool, room: bool, a: nat)
      reads this
    {
      if Unpinged(noPing, old(pings), now, a) then pings == old(pings)
      else sent > old(sent) && !answers(sent - 1, a) && Noted(old(pings), pings, now, a, room)
    }

    // One address of a range: taken, or tried in vain.
    method Visit(i: nat, a: nat, live: seq<Lease>, configs: seq<Config>, noPing: bool, now: nat,
                 answers: (nat, nat) -> bool, room: bool, ghost before: seq<Context>) returns (taken: bool)
      requires i < |chain| && SameRanges(before, chain)
      modifies this
      ensures SameRanges(before, chain) && old(sent) <= sent
      ensures taken ==> !Excluded(before, live, configs, a) && Silent(noPing, now, answers, room, a)
      ensures taken ==> chain == old(chain)
      ensures !taken ==> Tried(before, live, configs, answers, sent, a) && pings == old(pings)
      ensures !taken && sent == old(sent) ==> chain == old(chain)
      ensures !taken && sent != old(sent) ==> sent == old(sent) + 1 && chain == old(chain)[i := Bumped(old(chain)[i])]
    {
      var free := AddressFree(a, live, configs);
      SameRangesExclude(before, chain, live, configs, a);
      taken := false;
      if free {
        taken := Take(i, a, noPing, now, answers, room);
      }
    }

    // The loop over one range, from a start that depends on the client round to it again.
    method ScanRange(i: nat, j: nat, live: seq<Lease>, configs: seq<Config>, noPing: bool, now: nat,
                     answers: (nat, nat) -> bool, room: bool, ghost before: seq<Context>) returns (r: Option<nat>)
      requires i < |chain| && Sane(chain[i]) && SameRanges(before, chain)
      modifies this
      ensures SameRanges(before, chain) && old(sent) <= sent
      ensures r.Some? ==> before[i].start <= r.v <= before[i].end && !Excluded(before, live, configs, r.v)
      ensures r.Some? ==> Silent(noPing, now, answers, room, r.v)
      ensures r.Some? ==> RoundTried(before, live, configs, answers, sent, i, SeedOf(old(chain)[i], j), r.v)
      ensures r.None? ==> TriedFrom(before, live, configs, answers, sent, before[i].start, before[i].end + 1)
      ensures r.None? ==> pings == old(pings)
      ensures sent == old(sent) ==> chain == old(chain)
    {
      hide Tried, TriedFrom, Excluded, SameRanges, Unpinged, Noted;
      SameRangesAt(before, chain, i);
      var lo, hi := chain[i].start, chain[i].end;
      Seed(lo, hi, (j + chain[i].epoch) % WORD);
      var size := (1 + hi + WORD - lo) % WORD;
      var start := (lo + ((j + chain[i].epoch) % WORD) % size) % WORD;
      var a := start;
      TriedNothing(before, live, configs, answers, sent, start);
      TriedNothing(before, live, configs, answers, sent, lo);
      ghost var wrapped := false;
      var going := true;
      while going
        invariant SameRanges(before, chain) && old(sent) <= sent && i < |chain|
        invariant lo <= start <= hi && lo <= a <= hi
        invariant if wrapped then a <= start else start <= a
        invariant going && wrapped ==> a < start
        invariant !going ==> wrapped && a == start
        invariant TriedFrom(before, live, configs, answers, sent, start, if wrapped then hi + 1 else a)
        invariant wrapped ==> TriedFrom(before, live, configs, answers, sent, lo, a)
        invariant pings == old(pings) && (sent == old(sent) ==> chain == old(chain))
        decreases if !going then 0 else if wrapped then 1 + start - a else 2 + (hi - a) + (start - lo)
      {
        ghost var n := sent;
        var taken := Visit(i, a, live, configs, noPing, now, answers, room, before);
        SameRangesAt(before, chain, i);
        TriedMore(before, live, configs, answers, n, sent, start, if wrapped then hi + 1 else a);
        if wrapped {
          TriedMore(before, live, configs, answers, n, sent, lo, a);
        }
        if taken {
          return Some(a);
        }
        if wrapped {
          TriedNext(before, live, configs, answers, sent, lo, a);
        } else {
          TriedNothing(before, live, configs, answers, sent, lo);
          TriedNext(before, live, configs, answers, sent, start, a);
        }
        Next(a, hi);
        a := (a + 1) % WORD;
        if a == (hi + 1) % WORD {
          a := lo;
          wrapped := true;
        }
        going := a != start;
      }
      TriedJoin(before, live, configs, answers, sent, lo, start, hi + 1);
      r := None;
    }

    // The start lies in the range, and the successor leaves it only at its end, even if
    // the end is the last address there is.
    static lemma Seed(lo: nat, hi: nat, seed: nat)
      requires lo <= hi < WORD && hi - lo + 1 < WORD
      ensures (1 + hi + WORD - lo) % WORD == 1 + hi - lo
      ensures (lo + seed % (1 + hi - lo)) % WORD == lo + seed % (1 + hi - lo) <= hi
    {
    }

    static lemma Next(a: nat, hi: nat)
      requires a <= hi < WORD
      ensures (a + 1) % WORD == (hi + 1) % WORD <==> a == hi
      ensures a < hi ==> (a + 1) % WORD == a + 1
    {
    }

    static lemma SameRangesAt(before: seq<Context>, chain: seq<Context>, i: nat)
      requires SameRanges(before, chain) && i < |chain|
      ensures |before| == |chain| && before[i].start == chain[i].start && before[i].end == chain[i].end
      ensures before[i].filter == chain[i].filter && before[i].isStatic == chain[i].isStatic
    {
    }

    method AddressFree(a: nat, live: seq<Lease>, configs: seq<Config>) returns (free: bool)
      ensures free == !Excluded(chain, live, configs, a)
    {
      var d := 0;
      while d < |chain| && a != chain[d].router
        invariant 0 <= d <= |chain|
        invariant forall k :: 0 <= k < d ==> chain[k].router != a
      {
        d := d + 1;
      }
      var l := ByAddr(live, a);
      var c := ConfigFindByAddress(configs, a);
      free := d == |chain| && l == |live| && c == |configs|;
    }

    // Every address of an eligible range is tried before giving up, and an address given
    // out is the first that is left: in the ranges for tagged clients and then in all, and
    // within its range round from a place that depends on the client. As long as no ping is
    // sent that place depends on nothing else that changes.
    method AddressAllocate(hwaddr: seq<nat>, tags: set<string>, live: seq<Lease>, configs: seq<Config>,
                           noPing: bool, now: nat, answers: (nat, nat) -> bool, room: bool) returns (r: Option<nat>)
      requires forall i :: 0 <= i < |chain| ==> Sane(chain[i])
      modifies this
      ensures SameRanges(old(chain), chain) && (sent == old(sent) ==> chain == old(chain))
      ensures r.Some? ==> Free(old(chain), live, configs, tags, r.v)
      ensures r.Some? ==> Silent(noPing, now, answers, room, r.v)
      ensures r.Some? ==> exists i, s ::
        (0 <= i < |old(chain)| && Eligible(old(chain)[i], tags, true)
         && Preferred(old(chain), live, configs, answers, sent, tags, i)
         && RoundTried(old(chain), live, configs, answers, sent, i, s, r.v)
         && (sent == old(sent) ==> s == SeedOf(old(chain)[i], Sum(hwaddr) * 0x10101 % WORD)))
      ensures r.None? ==> TriedRanges(old(chain), live, configs, answers, sent, tags, true, |old(chain)|)
      ensures r.None? ==> pings == old(pings)
    {
      hide Tried, TriedFrom, Excluded, MatchNetid, Unpinged, RoundTried, Noted;
      var j := HashHwaddr(hwaddr);
      ghost var before := chain;
      var pass := 0;
      while pass <= 1
        invariant 0 <= pass <= 2 && old(sent) <= sent
        invariant SameRanges(before, chain) && pings == old(pings) && (sent == old(sent) ==> chain == before)
        invariant pass >= 1 ==> TriedRanges(before, live, configs, answers, sent, tags, false, |before|)
        invariant pass == 2 ==> TriedRanges(before, live, configs, answers, sent, tags, true, |before|)
      {
        var i := 0;
        while i < |chain|
          invariant 0 <= i <= |chain| == |before| && old(sent) <= sent
          invariant SameRanges(before, chain) && pings == old(pings) && (sent == old(sent) ==> chain == before)
          invariant TriedRanges(before, live, configs, answers, sent, tags, pass == 1, i)
          invariant pass == 1 ==> TriedRanges(before, live, configs, answers, sent, tags, false, |before|)
        {
          ghost var n := sent;
          var ok := MatchNetidLoop(chain[i].filter, tags, pass == 1);
          ghost var s := SeedOf(chain[i], j);
          if !chain[i].isStatic && ok {
            assert Sane(before[i]);
            r := ScanRange(i, j, live, configs, noPing, now, answers, room, before);
            TriedRangesMore(before, live, configs, answers, n, sent, tags, pass == 1, i);
            if pass == 1 {
              TriedRangesMore(before, live, configs, answers, n, sent, tags, false, |before|);
            }
            if r.Some? {
              TagsAllow(before[i].filter, tags, pass == 1);
              assert Serves(before[i], r.v, tags) by { RoundInside(before, live, configs, answers, sent, i, s, r.v); }
              FirstLeft(before, live, configs, answers, sent, tags, pass == 1, i);
              return;
            }
          }
          i := i + 1;
        }
        pass := pass + 1;
      }
      r := None;
    }

    static lemma RoundInside(before: seq<Context>, live: seq<Lease>, configs: seq<Config>,
                             answers: (nat, nat) -> bool, n: nat, i: nat, s: nat, a: nat)
      requires i < |before| && RoundTried(before, live, configs, answers, n, i, s, a)
      ensures before[i].start <= a <= before[i].end
    {
    }

    // What has been tried when range i is reached is what comes before it.
    static lemma FirstLeft(before: seq<Context>, live: seq<Lease>, configs: seq<Config>, answers: (nat, nat) -> bool,
                           n: nat, tags: set<string>, forAll: bool, i: nat)
      requires i < |before| && Eligible(before[i], tags, forAll)
      requires TriedRanges(before, live, configs, answers, n, tags, forAll, i)
      requires forAll ==> TriedRanges(before, live, configs, answers, n, tags, false, |before|)
      ensures Preferred(before, live, configs, answers, n, tags, i)
    {
      hide TriedFrom;
    }

    static lemma TagsAllow(check: seq<string>, tags: set<string>, needed: bool)
      requires MatchNetid(check, tags, needed)
      ensures MatchNetid(check, tags, true)
    {
    }
  }
}
