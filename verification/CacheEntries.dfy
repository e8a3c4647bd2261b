// What lookups answer once an entry of a lease or of a hosts file is in the cache.
module CacheEntries {
  import opened HostNames
  import opened CacheState
  import opened CacheInvariant
  import opened CacheStays
  import opened CacheLookup
  import opened CacheLookupTheorems
  import opened CacheByAddr
  import opened CacheFixed
  import opened CacheDhcp

  // A hashed hosts or DHCP record of the name is answered until it expires.
  lemma FixedAnswers(st: State, c: Crec, name: string, now: int, prot: Flags)
    requires Inv(st) && c in st.recs && Hashed(st, c) && !Cached(st.recs[c])
    requires NameEq(st.recs[c].name, name) && st.recs[c].flags.Meets(prot) && !Expired(st.recs[c], now)
    ensures c in AnswerList(st, name, now, prot)
  {
    FixedNoCname(st, c);
    hide ChainsOrdered, PoolOk, FreeSuffix, FlagsOk, NoClash, CnamesOk, BigInPool, ChainOk;
    hide Distinct, AnswerList, Live, HostCount, Front, Hashed;
    LookupIsFilter(st, name, now, prot);
    LiveUnlessExpired(st, name, now, c);
  }

  // From when its entry is added until the lease ends, lookups of the name, whatever its
  // letter case, answer with the address of the lease.
  lemma LeaseIsAnswered(st: State, name: string, addr: Addr, ttd: int, c: Crec, old_: Rec, malloc: bool,
                        asked: string, now: int, prot: Flags)
    requires Idle(st) && c !in st.recs && AddDhcp(st, name, addr, ttd, c, old_, malloc).1
    requires NameEq(name, asked) && prot.ipv4 && (ttd == 0 || now < ttd)
    ensures var t := AddDhcp(st, name, addr, ttd, c, old_, malloc).0;
      Inv(t) && c in t.recs && t.recs[c].addr == addr && c in AnswerList(t, asked, now, prot)
  {
    hide ChainsOrdered, PoolOk, FreeSuffix, FlagsOk, NoClash, CnamesOk, BigInPool, ChainOk;
    hide Distinct, AddDhcp, AnswerList, Hashed, NameCleared, MapsBack, HostsHave, PendingLocal, BigNames, AddrMatching;
    AddDhcpInv(st, name, addr, ttd, c, old_, malloc);
    FixedAnswers(AddDhcp(st, name, addr, ttd, c, old_, malloc).0, c, asked, now, prot);
  }

  // If it got the reverse mapping, it is the one answer to lookups of the address.
  lemma LeaseIsOnlyName(st: State, name: string, addr: Addr, ttd: int, c: Crec, old_: Rec, malloc: bool, now: int)
    requires Idle(st) && c !in st.recs && AddDhcp(st, name, addr, ttd, c, old_, malloc).1
    requires ttd == 0 || now < ttd
    ensures var t := AddDhcp(st, name, addr, ttd, c, old_, malloc).0;
      Inv(t) && c in t.recs && (t.recs[c].flags.reverse ==> AddrAnswers(FindByAddr(t, addr, now, IPV4)) == [c])
  {
    hide ChainsOrdered, PoolOk, FreeSuffix, FlagsOk, NoClash, CnamesOk, BigInPool, ChainOk;
    hide Distinct, AddDhcp, FindByAddr, AddrAnswers, Hashed, NameCleared, MapsBack, HostsHave, PendingLocal, BigNames;
    AddDhcpInv(st, name, addr, ttd, c, old_, malloc);
    var t := AddDhcp(st, name, addr, ttd, c, old_, malloc).0;
    AddrLookupIsFilter(t, addr, now, IPV4);
    if t.recs[c].flags.reverse {
      OnlyAnswer(AddrAnswers(FindByAddr(t, addr, now, IPV4)), c);
    }
  }

  lemma OnlyAnswer(a: seq<Crec>, c: Crec)
    requires Distinct(a) && c in a && forall x :: x in a ==> x == c
    ensures a == [c]
  {
    assert a[0] in a && a[|a| - 1] in a;
  }

  // From when a line of a hosts file is read, lookups of the name answer with its address.
  lemma HostIsAnswered(st: State, c: Crec, old_: Rec, name: string, addr: Addr, ipv4: bool, index: int, addrDup: bool,
                       asked: string, now: int, prot: Flags)
    requires Idle(st) && AllFree(st) && OneReverse(st) && c !in st.recs
    requires AddHosts(st, c, old_, name, addr, ipv4, index, addrDup).1
    requires NameEq(name, asked) && (if ipv4 then prot.ipv4 else prot.ipv6)
    ensures var t := AddHosts(st, c, old_, name, addr, ipv4, index, addrDup).0;
      Inv(t) && c in t.recs && t.recs[c].addr == addr && c in AnswerList(t, asked, now, prot)
  {
    hide ChainsOrdered, PoolOk, FreeSuffix, FlagsOk, NoClash, CnamesOk, BigInPool, ChainOk;
    hide Distinct, AddHosts, AnswerList, Hashed, OtherHosts, HostsKnow, PendingLocal, BigNames, AllFree, OneReverse;
    AddHostsInv(st, c, old_, name, addr, ipv4, index, addrDup);
    FixedAnswers(AddHosts(st, c, old_, name, addr, ipv4, index, addrDup).0, c, asked, now, prot);
  }

  // No hosts or DHCP record has the name in the family with another address.
  ghost predicate OnlyAddress(st: State, name: string, addr: Addr, ipv4: bool)
    requires Wf(st)
  {
    forall x :: x in st.recs && Hashed(st, x) && NameEq(st.recs[x].name, name) && st.recs[x].flags.forward
        && (if ipv4 then st.recs[x].flags.ipv4 else st.recs[x].flags.ipv6)
      ==> st.recs[x].flags.hosts && st.recs[x].addr == addr
  }

  // The same line again is left out, as long as the name has only that address.
  lemma KnownIsLeftOut(st: State, c: Crec, old_: Rec, name: string, addr: Addr, ipv4: bool, index: int, addrDup: bool)
    requires Idle(st) && AllFree(st) && c !in st.recs
    requires HostsKnow(st, name, addr, ipv4) && OnlyAddress(st, name, addr, ipv4)
    ensures !AddHosts(st, c, old_, name, addr, ipv4, index, addrDup).1
  {
    hide ChainsOrdered, PoolOk, FreeSuffix, NoClash, CnamesOk, BigInPool, ChainOk, BigNames, PendingLocal;
    hide Distinct, AnswerList, Live, HostCount, Front, Hashed, FindByName, AllFree, AddFixed;
    var prot := NO_FLAGS.(ipv4 := ipv4, ipv6 := !ipv4);
    var a := AnswerList(st, name, 0, prot);
    var x :| x in st.recs && Hashed(st, x) && st.recs[x].flags.hosts && st.recs[x].addr == addr
      && NameEq(st.recs[x].name, name) && (if ipv4 then st.recs[x].flags.ipv4 else st.recs[x].flags.ipv6);
    HostsLive(st, x);
    FixedAnswers(st, x, name, 0, prot);
    LookupIsFilter(st, name, 0, prot);
    LookupState(st, name, 0, prot);
    assert a[0] in a;
  }

  lemma HostsLive(st: State, x: Crec)
    requires Inv(st) && x in st.recs && Hashed(st, x) && st.recs[x].flags.hosts
    ensures !Cached(st.recs[x]) && !Expired(st.recs[x], 0) && st.recs[x].flags.forward
  {
  }
}
