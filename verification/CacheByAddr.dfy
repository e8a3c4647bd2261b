// cache_find_by_addr: the same lookup for reverse records, over every bucket.
module CacheByAddr {
  import opened CacheState
  import opened CacheInvariant
  import opened CacheSweep
  import opened CacheLookup
  import opened CacheAnswers

  predicate AddrMatching(r: Rec, addr: Addr, prot: Flags) {
    r.flags.reverse && r.flags.Meets(prot) && r.addr == addr
  }

  // The state, the hosts and DHCP answers so far, and the promoted records, latest last.
  datatype AddrLook = AddrLook(st: State, hosts: seq<Crec>, done: seq<Crec>)

  // A live reverse record: answer with it if it matches.
  ghost function AddrVisit(a: AddrLook, c: Crec, addr: Addr, prot: Flags): AddrLook
    requires Wf(a.st) && c in a.st.recs && (Cached(a.st.recs[c]) ==> c in a.st.lru)
  {
    if !AddrMatching(a.st.recs[c], addr, prot) then a
    else if Cached(a.st.recs[c]) then AddrLook(Promote(a.st, c), a.hosts, a.done + [c])
    else a.(hosts := a.hosts + [c])
  }

  ghost function AddrChain(a: AddrLook, b: nat, i: nat, addr: Addr, now: int, prot: Flags): (r: AddrLook)
    requires Wf(a.st) && b < |a.st.chains| && i <= |a.st.chains[b]|
    ensures Wf(r.st) && |r.st.chains| == |a.st.chains|
    decreases |a.st.chains[b]| - i
  {
    if i == |a.st.chains[b]| then a
    else
      var c := a.st.chains[b][i];
      assert ChainOk(a.st, b) && c in a.st.chains[b];
      if !a.st.recs[c].flags.reverse then a
      else if Expired(a.st.recs[c], now) then
        DropChain(a.st, b, i);
        AddrChain(a.(st := Drop(a.st, b, i)), b, i, addr, now, prot)
      else
        VisitWf(a, c, addr, prot);
        AddrChain(AddrVisit(a, c, addr, prot), b, i + 1, addr, now, prot)
  }

  ghost function AddrAll(a: AddrLook, b: nat, addr: Addr, now: int, prot: Flags): (r: AddrLook)
    requires Wf(a.st) && b <= |a.st.chains|
    ensures Wf(r.st) && |r.st.chains| == |a.st.chains|
    decreases |a.st.chains| - b
  {
    if b == |a.st.chains| then a else AddrAll(AddrChain(a, b, 0, addr, now, prot), b + 1, addr, now, prot)
  }

  ghost function FindByAddr(st: State, addr: Addr, now: int, prot: Flags): AddrLook
    requires Wf(st)
  {
    AddrAll(AddrLook(st, [], []), 0, addr, now, prot)
  }

  lemma VisitWf(a: AddrLook, c: Crec, addr: Addr, prot: Flags)
    requires Wf(a.st) && c in a.st.recs && (Cached(a.st.recs[c]) ==> c in a.st.lru)
    ensures var n := AddrVisit(a, c, addr, prot);
            Wf(n.st) && Rearranged(a.st, n.st) && n.st.chains == a.st.chains
  {
    if AddrMatching(a.st.recs[c], addr, prot) && Cached(a.st.recs[c]) { PromoteWf(a.st, c); }
  }

  // ---------- what the loops establish ----------

  // x stands before entry i of chain b, or in an earlier chain.
  ghost predicate Seen(st: State, b: nat, i: nat, x: Crec)
    requires |st.chains| > 0 && b <= |st.chains| && (b < |st.chains| ==> i <= |st.chains[b]|)
  {
    && Hashed(st, x)
    && (|| Bucket(st, st.recs[x].name) < b
        || (b < |st.chains| && Bucket(st, st.recs[x].name) == b && x in st.chains[b][..i]))
  }

  ghost predicate AnsweredOk(a: AddrLook, b: nat, i: nat, addr: Addr, prot: Flags)
    requires |a.st.chains| > 0 && b <= |a.st.chains| && (b < |a.st.chains| ==> i <= |a.st.chains[b]|)
  {
    && Distinct(a.hosts) && Distinct(a.done) && HeadIs(a.st.lru, a.done)
    && (forall x :: x in a.hosts ==>
        x in a.st.recs && !Cached(a.st.recs[x]) && AddrMatching(a.st.recs[x], addr, prot) && Seen(a.st, b, i, x))
    && (forall x :: x in a.done ==>
        x in a.st.recs && Cached(a.st.recs[x]) && AddrMatching(a.st.recs[x], addr, prot) && Seen(a.st, b, i, x))
    && (forall x :: x in a.st.recs && AddrMatching(a.st.recs[x], addr, prot) && Seen(a.st, b, i, x) ==>
          if Cached(a.st.recs[x]) then x in a.done else x in a.hosts)
  }

  // Only expired records leave the hash table.
  ghost predicate OnlyExpiredLeft(st: State, t: State, now: int)
    requires Wf(st) && Wf(t)
  {
    && t.recs.Keys == st.recs.Keys && |t.chains| == |st.chains| && t.hash == st.hash
    && (forall x :: x in st.recs && Hashed(t, x) ==> Hashed(st, x) && t.recs[x] == st.recs[x])
    && (forall x :: x in st.recs && Hashed(st, x) && !Hashed(t, x) ==> Expired(st.recs[x], now))
  }

  ghost predicate SeenFresh(st: State, b: nat, i: nat, now: int)
    requires |st.chains| > 0 && b <= |st.chains| && (b < |st.chains| ==> i <= |st.chains[b]|)
  {
    forall x :: x in st.recs && st.recs[x].flags.reverse && Seen(st, b, i, x) ==> !Expired(st.recs[x], now)
  }

  lemma DropSeen(st: State, b: nat, i: nat, x: Crec)
    requires Wf(st) && b < |st.chains| && i < |st.chains[b]| && x in st.recs
    ensures var t := Drop(st, b, i);
            && Wf(t) && |t.chains| == |st.chains| && i <= |t.chains[b]| && x in t.recs
            && (Seen(t, b, i, x) <==> Seen(st, b, i, x))
            && (Seen(st, b, i, x) ==> x != st.chains[b][i] && t.recs[x] == st.recs[x])
  {
    DropIsDropped(st, b, i);
    DropChain(st, b, i);
    assert ChainOk(st, b);
    var c := st.chains[b][i];
    hide Drop;
    if x == c {
      assert c !in st.chains[b][..i];
      assert Bucket(st, st.recs[c].name) == b;
    }
  }

  lemma DropAnswered(a: AddrLook, b: nat, i: nat, addr: Addr, now: int, prot: Flags)
    requires Wf(a.st) && b < |a.st.chains| && i < |a.st.chains[b]|
    requires AnsweredOk(a, b, i, addr, prot) && SeenFresh(a.st, b, i, now)
    ensures var t := Drop(a.st, b, i);
            && Wf(t) && |t.chains| == |a.st.chains| && i <= |t.chains[b]|
            && AnsweredOk(a.(st := t), b, i, addr, prot) && SeenFresh(t, b, i, now)
  {
    hide Drop, Seen, Distinct, ChainOk, HeadIs, IndexOf, Hashed, AddrMatching, Expired, RemoveAt;
    var t := Drop(a.st, b, i);
    var c := a.st.chains[b][i];
    DropChain(a.st, b, i);
    DropLru(a.st, b, i);
    DropKeys(a.st, b, i);
    forall x | x in a.st.recs
      ensures Seen(t, b, i, x) <==> Seen(a.st, b, i, x)
      ensures Seen(a.st, b, i, x) ==> x != c && t.recs[x] == a.st.recs[x]
    {
      DropSeen(a.st, b, i, x);
    }
    if Cached(a.st.recs[c]) { HeadDrop(a.st.lru, a.done, c); }
  }

  lemma DropKeys(st: State, b: nat, i: nat)
    requires Wf(st) && b < |st.chains| && i < |st.chains[b]|
    ensures Drop(st, b, i).recs.Keys == st.recs.Keys
  {
    DropIsDropped(st, b, i);
  }

  lemma DropLru(st: State, b: nat, i: nat)
    requires Wf(st) && b < |st.chains| && i < |st.chains[b]|
    ensures st.chains[b][i] in st.recs
    ensures var c := st.chains[b][i];
            if Cached(st.recs[c]) then c in st.lru && Drop(st, b, i).lru == RemoveAt(st.lru, IndexOf(st.lru, c)) + [c]
            else Drop(st, b, i).lru == st.lru
  {
    assert ChainOk(st, b) && st.chains[b][i] in st.chains[b];
  }

  lemma VisitSeen(st: State, t: State, b: nat, i: nat, x: Crec)
    requires Wf(st) && Wf(t) && Rearranged(st, t) && t.chains == st.chains && b < |st.chains| && i < |st.chains[b]|
    requires x in st.recs
    ensures Seen(t, b, i + 1, x) <==> Seen(st, b, i, x) || x == st.chains[b][i]
    ensures !Seen(st, b, i, st.chains[b][i])
  {
    assert ChainOk(st, b);
    assert st.chains[b][..i + 1] == st.chains[b][..i] + [st.chains[b][i]];
    assert st.chains[b][i] in st.chains[b];
  }

  lemma VisitAnswered(a: AddrLook, b: nat, i: nat, addr: Addr, now: int, prot: Flags)
    requires Wf(a.st) && b < |a.st.chains| && i < |a.st.chains[b]| && a.st.chains[b][i] in a.st.recs
    requires !Expired(a.st.recs[a.st.chains[b][i]], now)
    requires AnsweredOk(a, b, i, addr, prot) && SeenFresh(a.st, b, i, now)
    ensures var c := a.st.chains[b][i]; Cached(a.st.recs[c]) ==> c in a.st.lru
    ensures var n := AddrVisit(a, a.st.chains[b][i], addr, prot);
            && Wf(n.st) && n.st.chains == a.st.chains
            && AnsweredOk(n, b, i + 1, addr, prot) && SeenFresh(n.st, b, i + 1, now)
  {
    hide AnsweredOk, SeenFresh, HeadIs, Distinct, IndexOf, Seen, Promote, AddrVisit, Expired, AddrMatching, Wf;
    hide Rearranged;
    var c := a.st.chains[b][i];
    EntryRec(a.st, b, i);
    VisitWf(a, c, addr, prot);
    var n := AddrVisit(a, c, addr, prot);
    VisitRecs(a, c, addr, prot);
    forall x | x in a.st.recs
      ensures Seen(n.st, b, i + 1, x) <==> Seen(a.st, b, i, x) || x == c
      ensures !Seen(a.st, b, i, c)
    {
      VisitSeen(a.st, n.st, b, i, x);
    }
    NotAnswered(a, b, i, addr, prot, c);
    if AddrMatching(a.st.recs[c], addr, prot) && Cached(a.st.recs[c]) {
      LruOfAnswers(a, b, i, addr, prot);
      HeadPromote(a.st.lru, a.done, c);
    }
    VisitKeeps(a, n, b, i, addr, now, prot);
  }

  lemma NotAnswered(a: AddrLook, b: nat, i: nat, addr: Addr, prot: Flags, c: Crec)
    requires |a.st.chains| > 0 && b < |a.st.chains| && i <= |a.st.chains[b]| && AnsweredOk(a, b, i, addr, prot)
    requires c in a.st.recs && !Seen(a.st, b, i, c)
    ensures c !in a.done && c !in a.hosts
  {
    hide Seen;
  }

  lemma LruOfAnswers(a: AddrLook, b: nat, i: nat, addr: Addr, prot: Flags)
    requires |a.st.chains| > 0 && b < |a.st.chains| && i <= |a.st.chains[b]| && AnsweredOk(a, b, i, addr, prot)
    ensures HeadIs(a.st.lru, a.done)
  {
    hide Seen;
  }

  lemma VisitRecs(a: AddrLook, c: Crec, addr: Addr, prot: Flags)
    requires Wf(a.st) && c in a.st.recs && (Cached(a.st.recs[c]) ==> c in a.st.lru)
    ensures var n := AddrVisit(a, c, addr, prot);
      && n.st.recs == a.st.recs
      && (AddrMatching(a.st.recs[c], addr, prot) && Cached(a.st.recs[c]) ==>
            n.st.lru == [c] + RemoveAt(a.st.lru, IndexOf(a.st.lru, c)) && n.hosts == a.hosts && n.done == a.done + [c])
      && (AddrMatching(a.st.recs[c], addr, prot) && !Cached(a.st.recs[c]) ==>
          n.st == a.st && n.hosts == a.hosts + [c] && n.done == a.done)
      && (!AddrMatching(a.st.recs[c], addr, prot) ==> n == a)
  {
  }

  lemma VisitKeeps(a: AddrLook, n: AddrLook, b: nat, i: nat, addr: Addr, now: int, prot: Flags)
    requires |a.st.chains| > 0 && b < |a.st.chains| && i < |a.st.chains[b]| && n.st.chains == a.st.chains
    requires n.st.recs == a.st.recs
    requires AnsweredOk(a, b, i, addr, prot) && SeenFresh(a.st, b, i, now)
    requires var c := a.st.chains[b][i];
      && c in a.st.recs && !Expired(a.st.recs[c], now) && c !in a.done && c !in a.hosts
      && (forall x :: x in a.st.recs ==> (Seen(n.st, b, i + 1, x) <==> Seen(a.st, b, i, x) || x == c))
      && (if !AddrMatching(a.st.recs[c], addr, prot) then n == a
          else if Cached(a.st.recs[c]) then n.hosts == a.hosts && n.done == a.done + [c] && HeadIs(n.st.lru, n.done)
          else n.st == a.st && n.hosts == a.hosts + [c] && n.done == a.done)
    ensures AnsweredOk(n, b, i + 1, addr, prot) && SeenFresh(n.st, b, i + 1, now)
  {
    hide Seen, HeadIs, AddrMatching, Expired;
  }

  // The rest of a chain from its first record without F_REVERSE holds no reverse record.
  lemma SeenToEnd(st: State, b: nat, i: nat, x: Crec)
    requires Wf(st) && ChainsOrdered(st) && b < |st.chains| && i <= |st.chains[b]| && x in st.recs
    requires i < |st.chains[b]| ==> st.chains[b][i] in st.recs && !st.recs[st.chains[b][i]].flags.reverse
    ensures Seen(st, b, i, x) ==> Seen(st, b + 1, 0, x)
    ensures Seen(st, b + 1, 0, x) && st.recs[x].flags.reverse ==> Seen(st, b, i, x)
  {
    var ch := st.chains[b];
    assert Ordered(st.recs, ch);
    if Seen(st, b + 1, 0, x) && st.recs[x].flags.reverse && Bucket(st, st.recs[x].name) == b {
      var k :| 0 <= k < |ch| && ch[k] == x;
      assert k < i;
      assert ch[..i][k] == x;
    }
  }

  ghost predicate AddrOk(a: AddrLook, b: nat, i: nat, addr: Addr, now: int, prot: Flags)
    requires Wf(a.st) && b <= |a.st.chains| && (b < |a.st.chains| ==> i <= |a.st.chains[b]|)
  {
    AnsweredOk(a, b, i, addr, prot) && SeenFresh(a.st, b, i, now)
  }

  lemma AddrOkToEnd(a: AddrLook, b: nat, i: nat, addr: Addr, now: int, prot: Flags)
    requires Inv(a.st) && b < |a.st.chains| && i <= |a.st.chains[b]| && AddrOk(a, b, i, addr, now, prot)
    requires i < |a.st.chains[b]| ==> a.st.chains[b][i] in a.st.recs && !a.st.recs[a.st.chains[b][i]].flags.reverse
    ensures AddrOk(a, b + 1, 0, addr, now, prot)
  {
    hide Seen, Distinct, ChainOk, HeadIs, PoolOk, FreeSuffix, FlagsOk, NoClash, CnamesOk, BigInPool;
    forall x | x in a.st.recs
      ensures Seen(a.st, b, i, x) ==> Seen(a.st, b + 1, 0, x)
      ensures Seen(a.st, b + 1, 0, x) && a.st.recs[x].flags.reverse ==> Seen(a.st, b, i, x)
    {
      SeenToEnd(a.st, b, i, x);
    }
  }

  lemma VisitInv(a: AddrLook, c: Crec, addr: Addr, now: int, prot: Flags)
    requires Inv(a.st) && c in a.st.recs && (Cached(a.st.recs[c]) ==> c in a.st.lru) && a.st.recs[c].flags.reverse
    ensures var n := AddrVisit(a, c, addr, prot);
            Inv(n.st) && BigNames(n.st) == BigNames(a.st) && OnlyExpiredLeft(a.st, n.st, now)
  {
    hide ChainsOrdered, FreeSuffix, FlagsOk, NoClash, CnamesOk, BigInPool, BigNames, PoolOk, Distinct, ChainOk;
    VisitWf(a, c, addr, prot);
    if AddrMatching(a.st.recs[c], addr, prot) && Cached(a.st.recs[c]) { PromoteInv(a.st, c); }
  }

  lemma DropOnlyExpired(st: State, b: nat, i: nat, now: int)
    requires Wf(st) && b < |st.chains| && i < |st.chains[b]| && st.chains[b][i] in st.recs
    requires Expired(st.recs[st.chains[b][i]], now)
    ensures Wf(Drop(st, b, i)) && OnlyExpiredLeft(st, Drop(st, b, i), now)
  {
    DropIsDropped(st, b, i);
    DropRecs(st, b, i);
  }

  lemma OnlyExpiredTransitive(s: State, t: State, u: State, now: int)
    requires Wf(s) && Wf(t) && Wf(u) && OnlyExpiredLeft(s, t, now) && OnlyExpiredLeft(t, u, now)
    ensures OnlyExpiredLeft(s, u, now)
  {
  }

  lemma {:induction false} AddrChainOk(a: AddrLook, b: nat, i: nat, addr: Addr, now: int, prot: Flags)
    requires Inv(a.st) && b < |a.st.chains| && i <= |a.st.chains[b]| && AddrOk(a, b, i, addr, now, prot)
    ensures var r := AddrChain(a, b, i, addr, now, prot);
            && Inv(r.st) && BigNames(r.st) == BigNames(a.st) && |r.st.chains| == |a.st.chains|
            && AddrOk(r, b + 1, 0, addr, now, prot) && OnlyExpiredLeft(a.st, r.st, now)
    decreases |a.st.chains[b]| - i
  {
    hide ChainsOrdered, FreeSuffix, FlagsOk, NoClash, CnamesOk, BigInPool, BigNames, PoolOk, Distinct, AddrVisit;
    hide Drop, AddrMatching, OnlyExpiredLeft, AnsweredOk, SeenFresh;
    OnlyExpiredReflexive(a.st, now);
    if i == |a.st.chains[b]| {
      AddrOkToEnd(a, b, i, addr, now, prot);
    } else {
      var c := a.st.chains[b][i];
      assert ChainOk(a.st, b) && c in a.st.chains[b];
      if !a.st.recs[c].flags.reverse {
        AddrOkToEnd(a, b, i, addr, now, prot);
      } else if Expired(a.st.recs[c], now) {
        var t := Drop(a.st, b, i);
        DropInv(a.st, b, i);
        DropAnswered(a, b, i, addr, now, prot);
        DropOnlyExpired(a.st, b, i, now);
        DropChain(a.st, b, i);
        AddrChainOk(a.(st := t), b, i, addr, now, prot);
        OnlyExpiredTransitive(a.st, t, AddrChain(a.(st := t), b, i, addr, now, prot).st, now);
      } else {
        var n := AddrVisit(a, c, addr, prot);
        VisitInv(a, c, addr, now, prot);
        VisitAnswered(a, b, i, addr, now, prot);
        AddrChainOk(n, b, i + 1, addr, now, prot);
        OnlyExpiredTransitive(a.st, n.st, AddrChain(n, b, i + 1, addr, now, prot).st, now);
      }
    }
  }

  lemma OnlyExpiredReflexive(st: State, now: int)
    requires Wf(st)
    ensures OnlyExpiredLeft(st, st, now)
  {
  }

  lemma {:induction false} AddrAllOk(a: AddrLook, b: nat, addr: Addr, now: int, prot: Flags)
    requires Inv(a.st) && b <= |a.st.chains| && AddrOk(a, b, 0, addr, now, prot)
    ensures var r := AddrAll(a, b, addr, now, prot);
            && Inv(r.st) && BigNames(r.st) == BigNames(a.st) && |r.st.chains| == |a.st.chains|
            && AddrOk(r, |r.st.chains|, 0, addr, now, prot) && OnlyExpiredLeft(a.st, r.st, now)
    decreases |a.st.chains| - b
  {
    hide ChainsOrdered, FreeSuffix, FlagsOk, NoClash, CnamesOk, BigInPool, BigNames, PoolOk, Distinct, ChainOk;
    hide AddrChain, OnlyExpiredLeft, AnsweredOk, SeenFresh;
    if b == |a.st.chains| {
      OnlyExpiredReflexive(a.st, now);
    } else {
      var n := AddrChain(a, b, 0, addr, now, prot);
      AddrChainOk(a, b, 0, addr, now, prot);
      AddrAllOk(n, b + 1, addr, now, prot);
      OnlyExpiredTransitive(a.st, n.st, AddrAll(n, b + 1, addr, now, prot).st, now);
    }
  }

  // The answers to a lookup by address, in the order they are returned.
  ghost function AddrAnswers(r: AddrLook): seq<Crec> {
    r.hosts + Reverse(r.done)
  }

  // A lookup by address returns exactly the hashed reverse records with that address
  // that have not expired, each once, hosts and DHCP records first; the cached ones are
  // the head of the LRU list, and the record after them does not match.
  lemma AddrLookupIsFilter(st: State, addr: Addr, now: int, prot: Flags)
    requires Inv(st)
    ensures var r := FindByAddr(st, addr, now, prot);
            var a := AddrAnswers(r);
            && Inv(r.st) && BigNames(r.st) == BigNames(st)
            && Distinct(a)
            && (forall x :: x in a ==>
                x in st.recs && Hashed(st, x) && AddrMatching(st.recs[x], addr, prot) && !Expired(st.recs[x], now))
            && (forall x ::
                  x in st.recs && Hashed(st, x) && AddrMatching(st.recs[x], addr, prot) && !Expired(st.recs[x], now) ==>
                    x in a)
            && (forall x :: x in a ==> x in r.st.recs && r.st.recs[x] == st.recs[x])
            && (forall i :: 0 <= i < |a| ==> (Cached(st.recs[a[i]]) <==> i >= |r.hosts|))
            && |r.done| <= |r.st.lru| && r.st.lru[..|r.done|] == Reverse(r.done)
            && (|r.done| < |r.st.lru| ==> !AddrMatching(r.st.recs[r.st.lru[|r.done|]], addr, prot))
  {
    hide ChainsOrdered, FreeSuffix, FlagsOk, PoolOk, NoClash, CnamesOk, BigInPool, BigNames, ChainOk, AddrAll;
    hide Distinct, Reverse, OnlyExpiredLeft, AddrOk, AddrMatching;
    var r := FindByAddr(st, addr, now, prot);
    StartAddrOk(st, addr, now, prot);
    AddrAllOk(AddrLook(st, [], []), 0, addr, now, prot);
    AddrFinal(st, r, addr, now, prot);
    ReverseMembers(r.done);
    AddrDistinct(r);
    AddrStops(r, addr, now, prot);
    var a := AddrAnswers(r);
    assert forall x :: x in a ==> x in r.st.recs && x in st.recs && r.st.recs[x] == st.recs[x];
    forall i | 0 <= i < |a|
      ensures a[i] in st.recs && (Cached(st.recs[a[i]]) <==> i >= |r.hosts|)
    {
      assert a[i] in a;
    }
  }

  lemma StartAddrOk(st: State, addr: Addr, now: int, prot: Flags)
    requires Wf(st)
    ensures AddrOk(AddrLook(st, [], []), 0, 0, addr, now, prot)
  {
    assert HeadIs(st.lru, []);
  }

  // The final answers in terms of the state the lookup started from.
  lemma AddrFinal(st: State, r: AddrLook, addr: Addr, now: int, prot: Flags)
    requires Wf(st) && Wf(r.st) && OnlyExpiredLeft(st, r.st, now) && AddrOk(r, |r.st.chains|, 0, addr, now, prot)
    ensures Distinct(r.hosts) && Distinct(r.done) && HeadIs(r.st.lru, r.done)
    ensures forall x :: x in r.hosts || x in r.done ==>
              && x in st.recs && x in r.st.recs && r.st.recs[x] == st.recs[x]
              && Hashed(st, x) && AddrMatching(st.recs[x], addr, prot) && !Expired(st.recs[x], now)
    ensures forall x :: x in r.hosts ==> x in r.st.recs && !Cached(r.st.recs[x])
    ensures forall x :: x in r.done ==> x in r.st.recs && Cached(r.st.recs[x])
    ensures forall x ::
      x in st.recs && Hashed(st, x) && AddrMatching(st.recs[x], addr, prot) && !Expired(st.recs[x], now) ==>
        x in r.hosts || x in r.done
  {
    hide Distinct, ChainOk, HeadIs;
    SeenAll(r.st);
  }

  lemma AddrStops(r: AddrLook, addr: Addr, now: int, prot: Flags)
    requires Inv(r.st) && AddrOk(r, |r.st.chains|, 0, addr, now, prot)
    ensures |r.done| < |r.st.lru| ==>
        r.st.lru[|r.done|] in r.st.recs && !AddrMatching(r.st.recs[r.st.lru[|r.done|]], addr, prot)
    ensures |r.done| <= |r.st.lru| && r.st.lru[..|r.done|] == Reverse(r.done)
  {
    hide ChainsOrdered, FreeSuffix, FlagsOk, NoClash, CnamesOk, BigInPool, ChainOk, Reverse;
    SeenAll(r.st);
    if |r.done| < |r.st.lru| {
      LruNext(r.st.lru, r.done);
      assert r.st.lru[|r.done|] in r.st.lru;
    }
  }

  lemma SeenAll(st: State)
    requires Wf(st)
    ensures forall x :: x in st.recs && Hashed(st, x) ==> Seen(st, |st.chains|, 0, x)
    ensures forall x :: x in st.recs && Seen(st, |st.chains|, 0, x) ==> Hashed(st, x)
  {
  }

  lemma AddrDistinct(r: AddrLook)
    requires Distinct(r.hosts) && Distinct(r.done)
    requires forall x :: x in r.hosts ==> x in r.st.recs && !Cached(r.st.recs[x])
    requires forall x :: x in r.done ==> x in r.st.recs && Cached(r.st.recs[x])
    ensures var a := AddrAnswers(r);
            && Distinct(a) && (forall x :: x in a ==> x in r.hosts || x in r.done)
            && (forall x :: x in r.hosts ==> x in a) && (forall x :: x in r.done ==> x in a)
            && (forall i :: 0 <= i < |a| ==> a[i] in r.st.recs && (Cached(r.st.recs[a[i]]) <==> i >= |r.hosts|))
  {
    ReverseMembers(r.done);
    var a, c := AddrAnswers(r), Reverse(r.done);
    forall i | 0 <= i < |a|
      ensures a[i] in r.st.recs && (Cached(r.st.recs[a[i]]) <==> i >= |r.hosts|)
    {
      if i < |r.hosts| { assert a[i] in r.hosts; } else { assert a[i] == c[i - |r.hosts|] && a[i] in c; }
    }
  }

  lemma LruNext(lru: seq<Crec>, done: seq<Crec>)
    requires HeadIs(lru, done) && Distinct(lru) && |done| < |lru|
    ensures lru[|done|] !in done
  {
    ReverseMembers(done);
    assert forall j :: 0 <= j < |done| ==> lru[..|done|][j] == lru[j];
  }
}
