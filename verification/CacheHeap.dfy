// The cache as cache.c keeps it: records linked by next and prev in the LRU list, by
// hash_next in the chains, and by next in new_chain. The ghost field st is the
// abstract state, links the value of all link fields; every method is proved to do to
// st what the corresponding function of the other cache modules does.
module CacheHeap {
  import opened HostNames
  import opened CacheState
  import opened CacheInvariant
  import opened CacheSweep
  import opened CacheInsert
  import opened CacheCommit
  import opened CacheLookup
  import opened CacheAnswers
  import opened CacheLookupTheorems
  import opened CacheByAddr
  import opened CacheTables
  import opened CacheFixed
  import opened CacheRun
  import opened CacheLinks
  import opened CacheStays
  import opened CacheSteps

  class Cache {
    var head: Crec?
    var tail: Crec?
    var newChain: Crec?
    var table: array<Crec?>
    const hash: string -> nat
    var uid: int
    var insertError: bool
    var bigFree: nat
    var bigLeft: nat
    ghost var st: State
    ghost var links: Links
    ghost var nodes: set<Crec>  // all records known to the cache

    // f holds what the next fields hold; likewise for the other link fields.
    ghost predicate NextIs(f: Field)
      reads this`nodes, nodes`next
    {
      forall c :: c in nodes ==> c in f && f[c] == c.next
    }

    ghost predicate PrevIs(f: Field)
      reads this`nodes, nodes`prev
    {
      forall c :: c in nodes ==> c in f && f[c] == c.prev
    }

    ghost predicate HashIs(f: Field)
      reads this`nodes, nodes`hashNext
    {
      forall c :: c in nodes ==> c in f && f[c] == c.hashNext
    }

    ghost predicate Mirror()
      reads this`head, this`tail, this`newChain, this`links, this`nodes, this`table, table
      reads nodes`next, nodes`prev, nodes`hashNext
    {
      && links.head == head && links.tail == tail && links.newChain == newChain && table[..] == links.buckets
      && NextIs(links.next) && PrevIs(links.prev) && HashIs(links.hashNext)
    }

    // The other fields hold what the abstract state says.
    ghost predicate Vals(recs: map<Crec, Rec>)
      reads this`nodes, nodes`flags, nodes`name, nodes`addr, nodes`ttd, nodes`uid, nodes`target, nodes`targetUid
    {
      nodes == recs.Keys && forall c :: c in nodes ==> c.Val() == recs[c]
    }

    ghost predicate Contents()
      reads this`uid, this`insertError, this`bigFree, this`bigLeft, this`st
      reads this`nodes, nodes`flags, nodes`name, nodes`addr, nodes`ttd, nodes`uid, nodes`target, nodes`targetUid
    {
      && uid == st.uid && insertError == st.insertError && bigFree == st.bigFree && bigLeft == st.bigLeft &&
          hash == st.hash
      && Vals(st.recs)
    }

    // The pointers and fields agree with the abstract state.
    ghost predicate Valid()
      reads this, table, nodes
    {
      Mirror() && Contents() && Sep(st) && Targets(st.recs) && Agree(links, st)
    }

    lemma NodesAre()
      requires Vals(st.recs)
      ensures nodes == st.recs.Keys
    {
    }

    lemma FlagsAre(c: Crec)
      requires Vals(st.recs) && c in nodes
      ensures c in st.recs && c.flags == st.recs[c].flags && c.Val() == st.recs[c]
    {
    }

    // ---------- pointer writes ----------

    // The next field of c, or the list head.
    method SetNext(c: Crec?, v: Crec?)
      requires Mirror() && (c != null ==> c in nodes)
      modifies this`head, this`links, nodes`next
      ensures Mirror()
      ensures links == old(links).(next := Set(old(links.next), c, v), head := if c == null then v else old(links.head))
    {
      hide PrevIs, HashIs;
      if c != null {
        c.next := v;
      } else {
        head := v;
      }
      links := links.(next := Set(links.next, c, v), head := head);
    }

    // The prev field of c, or the list tail.
    method SetPrev(c: Crec?, v: Crec?)
      requires Mirror() && (c != null ==> c in nodes)
      modifies this`tail, this`links, nodes`prev
      ensures Mirror()
      ensures links == old(links).(prev := Set(old(links.prev), c, v), tail := if c == null then v else old(links.tail))
    {
      hide NextIs, HashIs;
      if c != null {
        c.prev := v;
      } else {
        tail := v;
      }
      links := links.(prev := Set(links.prev, c, v), tail := tail);
    }

    // The hash_next field of c, or the head of bucket b.
    method SetHash(b: nat, c: Crec?, v: Crec?)
      requires Mirror() && b < table.Length && (c != null ==> c in nodes)
      modifies this`links, table, nodes`hashNext
      ensures Mirror()
      ensures links == old(links).(hashNext := Set(old(links.hashNext), c, v), buckets := if c == null then
          old(links.buckets)[b := v] else old(links.buckets))
    {
      hide NextIs, PrevIs;
      if c != null {
        c.hashNext := v;
      } else {
        table[b] := v;
      }
      links := links.(hashNext := Set(links.hashNext, c, v), buckets := table[..]);
    }

    // ---------- the LRU list ----------

    method UnlinkPointers(c: Crec)
      requires Mirror() && c in nodes && c in links.prev && c in links.next
      requires links.prev[c] != null ==> links.prev[c] in nodes
      requires links.next[c] != null ==> links.next[c] in nodes
      modifies this`head, this`tail, this`links, nodes`next, nodes`prev
      ensures Mirror() && links == UnlinkLinks(old(links), c)
    {
      hide Set, HashIs;
      var p, n := c.prev, c.next;
      SetNext(p, n);
      SetPrev(n, p);
    }

    // cache_unlink
    method Unlink(c: Crec)
      requires Valid() && c in st.lru
      modifies this`head, this`tail, this`st, this`links, nodes`next, nodes`prev
      ensures Valid() && st == CacheState.Unlink(old(st), c) && links == UnlinkLinks(old(links), c) && c !in st.lru
    {
      hide Sep, Agree, Targets, CacheState.Unlink, UnlinkLinks, Mirror, Vals;
      UnlinkAgrees(links, st, c);
      LruMember(links, st, c);
      UnlinkRecs(st, c);
      NodesAre();
      UnlinkPointers(c);
      st := CacheState.Unlink(st, c);
    }

    lemma EndsAre()
      requires Mirror()
      ensures links.head == head && links.tail == tail
    {
    }

    method LinkPointers(c: Crec)
      requires Mirror() && c in nodes && (links.head != null ==> links.head in nodes && links.head != c)
      modifies this`head, this`tail, this`links, nodes`next, nodes`prev
      ensures Mirror() && links == LinkLinks(old(links), c)
    {
      hide HashIs, NextIs, PrevIs, Mirror, Set, LinkLinks;
      ghost var l := links;
      EndsAre();
      if head != null {
        SetPrev(head, c);
      }
      EndsAre();
      ghost var l1 := links;
      SetNext(c, head);
      SetPrev(c, null);
      SetNext(null, c);
      EndsAre();
      ghost var l2 := links;
      if tail == null {
        SetPrev(null, c);
      }
      LinkWrites(l, l1, l2, c);
    }

    // cache_link
    method Link(c: Crec)
      requires Valid() && c in st.recs && c !in st.lru && c !in st.pending
      modifies this`head, this`tail, this`st, this`links, nodes`next, nodes`prev
      ensures Valid() && st == CacheState.Link(old(st), c) && links == LinkLinks(old(links), c)
    {
      hide Sep, Agree, Targets, CacheState.Link, LinkLinks, Mirror, Vals;
      LinkAgrees(links, st, c);
      EndsKnown(links, st);
      LinkRecs(st, c);
      NodesAre();
      LinkPointers(c);
      st := CacheState.Link(st, c);
    }

    method AppendPointers(c: Crec)
      requires Mirror() && c in nodes && (links.tail != null ==> links.tail in nodes && links.tail != c)
      modifies this`head, this`tail, this`links, nodes`next, nodes`prev
      ensures Mirror() && links == AppendLinks(old(links), c)
    {
      hide HashIs, NextIs, PrevIs, Mirror, Set, AppendLinks;
      EndsAre();
      var last := tail;
      SetNext(last, c);
      SetPrev(c, last);
      SetNext(c, null);
      SetPrev(null, c);
      AppendWrites(old(links), c);
    }

    // The list part of cache_free.
    method Append(c: Crec)
      requires Valid() && c in st.recs && c !in st.lru && c !in st.pending
      modifies this`head, this`tail, this`st, this`links, nodes`next, nodes`prev
      ensures Valid() && st == old(st).(lru := old(st).lru + [c]) && links == AppendLinks(old(links), c)
    {
      hide Sep, Agree, Targets, AppendLinks, Mirror, Vals;
      AppendAgrees(links, st, c);
      EndsKnown(links, st);
      NodesAre();
      AppendPointers(c);
      st := st.(lru := st.lru + [c]);
    }

    method SetFlagsUid(c: Crec, f: Flags, u: int, ghost recs: map<Crec, Rec>)
      requires Vals(recs) && c in nodes
      modifies c`flags, c`uid
      ensures Vals(recs[c := recs[c].(flags := f, uid := u)])
    {
      c.flags := f;
      c.uid := u;
    }

    // The field part of cache_free: no longer in use, and a fresh uid so that CNAMES
    // pointing to the record become outdated.
    method Retire(c: Crec)
      requires Valid() && c in st.recs && Cached(st.recs[c])
      modifies this`uid, this`bigFree, this`st, nodes`flags, nodes`uid
      ensures Valid() && links == old(links)
      ensures st == old(st).(recs := old(st).recs[c := Freed(old(st).recs[c], old(st).uid)], uid := old(st).uid + 1,
                             bigFree := old(st).bigFree + if old(st).recs[c].flags.bigname then 1 else 0)
    {
      hide Sep, Agree, Targets, Mirror, Vals;
      NodesAre();
      FlagsAre(c);
      ghost var r := st.recs[c];
      RetireSep(links, st, c, st.(recs := st.recs[c := Freed(r, st.uid)], uid := st.uid + 1,
          bigFree := st.bigFree + if r.flags.bigname then 1 else 0));
      var big := c.flags.bigname;
      SetFlagsUid(c, c.flags.(forward := false, reverse := false, bigname := false), uid, st.recs);
      uid := uid + 1;
      if big {
        bigFree := bigFree + 1;
      }
      st := st.(recs := st.recs[c := Freed(r, st.uid)], uid := uid, bigFree := bigFree);
    }

    // cache_free
    method Free(c: Crec)
      requires Valid() && c in st.recs && Cached(st.recs[c]) && c !in st.lru && c !in st.pending
      modifies this`head, this`tail, this`uid, this`bigFree, this`st, this`links, nodes`next, nodes`prev
      modifies nodes`flags, nodes`uid
      ensures Valid() && st == CacheState.Free(old(st), c) && links == AppendLinks(old(links), c)
    {
      hide Sep, Agree, Targets, Mirror, Vals;
      NodesAre();
      Retire(c);
      Append(c);
    }

    // cache_unlink and cache_link: c moves to the head of the list.
    method Promote(c: Crec)
      requires Valid() && c in st.lru
      modifies this`head, this`tail, this`st, this`links, nodes`next, nodes`prev
      ensures Valid() && st == CacheState.Promote(old(st), c)
      ensures OutsideNext(old(links), links, old(st))
    {
      hide Agree, Targets, Mirror, Vals, OutsideNext;
      NextKnown();
      UnlinkLinkOutside(links, st, c);
      assert c in st.recs && c !in st.pending;
      UnlinkRecs(st, c);
      Unlink(c);
      Link(c);
    }

    // ---------- the hash chains ----------

    // *up = c->hash_next, where c is entry i of chain b and up the entry before it.
    method UnhashAt(b: nat, up: Crec?, c: Crec, ghost i: nat)
      requires Valid() && b < |st.chains| && i < |st.chains[b]| && st.chains[b][i] == c
      requires up == At(st.chains[b], i as int - 1)
      modifies this`st, this`links, table, nodes`hashNext
      ensures Valid() && st == Unhash(old(st), b, i)
      ensures links.next == old(links).next
    {
      hide Sep, Agree, Targets, Vals, NextIs, PrevIs, HashIs, RemoveAt;
      UnhashAgrees(links, st, b, i);
      ChainMember(st, b, i);
      AgreeSize(links, st);
      NodesAre();
      HashFieldAre(c);
      SetHash(b, up, c.hashNext);
      st := Unhash(st, b, i);
    }

    lemma HashFieldAre(c: Crec)
      requires Mirror() && c in nodes
      ensures c in links.hashNext && links.hashNext[c] == c.hashNext
    {
    }

    // cache_unlink and cache_free
    method GiveBack(c: Crec)
      requires Valid() && c in st.lru && Cached(st.recs[c])
      modifies this`head, this`tail, this`uid, this`bigFree, this`st, this`links
      modifies nodes`next, nodes`prev, nodes`flags, nodes`uid
      ensures Valid() && st == CacheState.Free(CacheState.Unlink(old(st), c), c)
      ensures OutsideNext(old(links), links, old(st))
    {
      hide Sep, Agree, Targets, Vals, Mirror, OutsideNext, CacheState.Unlink, CacheState.Free;
      NextKnown();
      GiveBackOk(links, st, c);
      UnlinkAppendOutside(links, st, c);
      Unlink(c);
      Free(c);
    }

    // The removal every sweep makes: unhash the record, and give it back to the pool
    // unless it came from a hosts file or a lease.
    method DropAt(b: nat, up: Crec?, c: Crec, ghost i: nat)
      requires Valid() && Wf(st) && b < |st.chains| && i < |st.chains[b]| && st.chains[b][i] == c
      requires up == At(st.chains[b], i as int - 1)
      modifies this`head, this`tail, this`uid, this`bigFree, this`st, this`links, table
      modifies nodes`next, nodes`prev, nodes`hashNext, nodes`flags, nodes`uid
      ensures Valid() && Wf(st) && st == Drop(old(st), b, i)
      ensures OutsideNext(old(links), links, old(st))
    {
      hide Valid, Wf, OutsideNext, CacheState.Unlink, CacheState.Free, Unhash, Drop;
      DropIs(st, b, i);
      RecordKnown(c);
      FieldsAre(c);
      NextKnown();
      OutsideSame(links, st);
      ghost var links0, st0 := links, st;
      UnhashAt(b, up, c, i);
      if !(c.flags.hosts || c.flags.dhcp) {
        ghost var links1, st1 := links, st;
        GiveBack(c);
        OutsideSwap(links0, links1, links, st0, st1);
      } else {
        OutsideSwap(links0, links0, links, st0, st0);
      }
    }

    // x is put into chain b as entry k, behind up.
    method RehangAt(b: nat, up: Crec?, x: Crec, ghost k: nat)
      requires Valid() && b < |st.chains| && k <= |st.chains[b]| && up == At(st.chains[b], k as int - 1)
      requires x in st.recs && Bucket(st, st.recs[x].name) == b && x !in st.chains[b]
      modifies this`st, this`links, table, nodes`hashNext
      ensures Valid() && st == old(st).(chains := old(st).chains[b := InsertAt(old(st).chains[b], k, x)])
      ensures links.next == old(links).next
      ensures forall y :: y in old(links).hashNext && y != x && y != up ==>
          y in links.hashNext && links.hashNext[y] == old(links).hashNext[y]
    {
      hide Sep, Agree, Targets, Vals, NextIs, PrevIs, HashIs, InsertAt;
      RehangAgrees(links, st, b, k, x);
      UpMember(st, b, k);
      AgreeSize(links, st);
      NodesAre();
      if up != null { HashFieldAre(up); }
      var n := if up == null then table[b] else up.hashNext;
      assert n == if up == null then links.buckets[b] else links.hashNext[up];
      SetHash(b, x, n);
      SetHash(b, up, x);
      st := st.(chains := st.chains[b := InsertAt(st.chains[b], k, x)]);
    }

    // ---------- walking a chain ----------

    // hash_bucket
    method BucketOf(name: string) returns (b: nat)
      requires Valid()
      ensures b < |st.chains| && b < table.Length && b == Bucket(st, name)
    {
      hide Sep, Targets, Vals, NextIs, PrevIs, HashIs;
      AgreeSize(links, st);
      assert |st.chains| > 0 by {
        SepSize(st);
      }
      b := hash(Fold(name)) % table.Length;
    }

    // The pointers spell out the chain.
    lemma ChainNext(b: nat, i: nat)
      requires Valid() && b < |st.chains| && i <= |st.chains[b]|
      ensures b < table.Length && table[b] == At(st.chains[b], 0)
      ensures i < |st.chains[b]| ==> st.chains[b][i] in nodes && st.chains[b][i].hashNext == At(st.chains[b], i + 1)
    {
      hide Sep, Targets, NextIs, PrevIs;
      AgreeSize(links, st);
      AgreeChain(links, st, b);
      if i < |st.chains[b]| {
        ChainMember(st, b, i);
        NodesAre();
      }
    }

    lemma TableFits()
      requires Valid()
      ensures table.Length == |st.chains|
    {
      hide Sep, Targets, NextIs, PrevIs, HashIs;
      AgreeSize(links, st);
    }

    // is_expired
    predicate IsExpired(now: int, c: Crec)
      reads c
    {
      !c.flags.immortal && now >= c.ttd
    }

    // is_outdated_cname_pointer
    predicate IsOutdated(c: Crec)
      reads c, c.target
    {
      c.flags.cname && !(c.target != null && c.targetUid == c.target.uid)
    }

    lemma ExpiredIs(now: int, c: Crec)
      requires Valid() && c in nodes
      ensures c in st.recs && IsExpired(now, c) == Expired(st.recs[c], now)
    {
      hide Sep, Agree, Targets, Mirror;
      FlagsAre(c);
    }

    lemma OutdatedIs(c: Crec)
      requires Valid() && c in nodes
      ensures c in st.recs && IsOutdated(c) == Outdated(st.recs, st.recs[c])
    {
      hide Sep, Agree, Mirror;
      FlagsAre(c);
      if c.flags.cname && c.target != null {
        NodesAre();
        assert c.target in nodes;
        FlagsAre(c.target);
      }
    }

    lemma DeadIs(now: int, c: Crec)
      requires Valid() && c in nodes
      ensures c in st.recs && (IsExpired(now, c) || IsOutdated(c)) == Dead(st.recs, st.recs[c], now)
    {
      hide Valid, Expired, Outdated, IsExpired, IsOutdated;
      ExpiredIs(now, c);
      OutdatedIs(c);
    }

    // The flags and the name of a record are those of the abstract state.
    lemma FieldsAre(c: Crec)
      requires Valid() && c in nodes
      ensures c in st.recs && c.flags == st.recs[c].flags && c.name == st.recs[c].name && c.addr == st.recs[c].addr
      ensures c.uid == st.recs[c].uid
    {
      FlagsAre(c);
    }

    // ---------- cache_scan_free ----------

    // Whether the sweep of a bucket removes a record, or must give up because of it.
    method IsSuperseded(c: Crec, name: string, now: int, flags: Flags) returns (gone: bool, blocked: bool)
      requires Valid() && c in nodes
      ensures c in st.recs
      ensures var r := st.recs[c];
        && gone == (Dead(st.recs, r, now) || (Supersedes(r, name, flags) && Cached(r)))
        && blocked == (!Dead(st.recs, r, now) && Supersedes(r, name, flags) && !Cached(r))
    {
      hide Valid, Dead, NameEq, IsExpired, IsOutdated;
      FieldsAre(c);
      DeadIs(now, c);
      var same := HostnameIsEqual(c.name, name);
      var dead := IsExpired(now, c) || IsOutdated(c);
      var match_ := c.flags.forward && (flags.SameFamily(c.flags) || c.flags.cname || flags.cname) && same;
      var fixed_ := c.flags.hosts || c.flags.dhcp;
      gone := dead || (match_ && !fixed_);
      blocked := !dead && match_ && fixed_;
    }

    // The F_FORWARD case.
    method ScanBucket(name: string, now: int, flags: Flags) returns (ok: bool)
      requires Valid() && Wf(st)
      modifies this`head, this`tail, this`uid, this`bigFree, this`st, this`links, table
      modifies nodes`next, nodes`prev, nodes`hashNext, nodes`flags, nodes`uid
      ensures Valid() && Wf(st) && (st, ok) == ScanForward(old(st), Bucket(old(st), name), 0, name, now, flags)
    {
      hide Valid, Wf, Drop, ScanForward, Dead, NameEq, IsExpired, IsOutdated;
      var b := BucketOf(name);
      var up: Crec? := null;
      ghost var i: nat := 0;
      ChainNext(b, 0);
      var c := table[b];
      while c != null
        invariant Valid() && Wf(st) && b < |st.chains| && i <= |st.chains[b]|
        invariant c == At(st.chains[b], i) && up == At(st.chains[b], i as int - 1)
        invariant ScanForward(st, b, i, name, now, flags) == ScanForward(old(st), b, 0, name, now, flags)
        decreases |st.chains[b]| - i
      {
        ChainNext(b, i);
        var next := c.hashNext;
        ScanForwardStep(st, b, i, name, now, flags);
        DropChainIs(st, b, i);
        var gone, blocked := IsSuperseded(c, name, now, flags);
        if blocked {
          return false;
        }
        if gone {
          DropAt(b, up, c, i);
        } else {
          up := c;
          i := i + 1;
        }
        c := next;
      }
      ScanForwardEnd(st, b, name, now, flags);
      ok := true;
    }

    // An expired record, or a cached one with the address.
    predicate IsSwept(c: Crec, addr: Addr, now: int, flags: Flags)
      reads c
    {
      || IsExpired(now, c)
      || (&& !(c.flags.hosts || c.flags.dhcp) && flags.reverse && c.flags.reverse
          && flags.SameFamily(c.flags) && c.addr == addr)
    }

    lemma SweptIs(c: Crec, addr: Addr, now: int, flags: Flags)
      requires Valid() && c in nodes
      ensures c in st.recs && IsSwept(c, addr, now, flags) == Swept(st.recs[c], addr, now, flags)
    {
      hide Valid, Expired, IsExpired;
      FieldsAre(c);
      ExpiredIs(now, c);
    }

    // One chain of the other case: up to the first immortal record that is not reverse.
    method ScanOneChain(b: nat, addr: Addr, now: int, flags: Flags)
      requires Valid() && Wf(st) && b < |st.chains|
      modifies this`head, this`tail, this`uid, this`bigFree, this`st, this`links, table
      modifies nodes`next, nodes`prev, nodes`hashNext, nodes`flags, nodes`uid
      ensures Valid() && Wf(st) && st == ScanChain(old(st), b, 0, addr, now, flags)
    {
      hide Valid, Wf, Drop, ScanChain, Swept, IsSwept;
      var up: Crec? := null;
      ghost var i: nat := 0;
      ChainNext(b, 0);
      var c := table[b];
      while c != null && (c.flags.reverse || !c.flags.immortal)
        invariant Valid() && Wf(st) && b < |st.chains| && i <= |st.chains[b]|
        invariant c == At(st.chains[b], i) && up == At(st.chains[b], i as int - 1)
        invariant ScanChain(st, b, i, addr, now, flags) == ScanChain(old(st), b, 0, addr, now, flags)
        decreases |st.chains[b]| - i
      {
        ChainNext(b, i);
        var next := c.hashNext;
        ScanChainStep(st, b, i, addr, now, flags);
        FieldsAre(c);
        SweptIs(c, addr, now, flags);
        DropChainIs(st, b, i);
        if IsSwept(c, addr, now, flags) {
          DropAt(b, up, c, i);
        } else {
          up := c;
          i := i + 1;
        }
        c := next;
      }
      if c != null {
        ChainNext(b, i);
        FieldsAre(c);
      }
      ScanChainEnds(st, b, i, addr, now, flags);
    }

    method ScanTable(addr: Addr, now: int, flags: Flags)
      requires Valid() && Wf(st)
      modifies this`head, this`tail, this`uid, this`bigFree, this`st, this`links, table
      modifies nodes`next, nodes`prev, nodes`hashNext, nodes`flags, nodes`uid
      ensures Valid() && Wf(st) && st == ScanAll(old(st), 0, addr, now, flags)
    {
      hide Wf, ScanAll, ScanChain, Valid;
      TableFits();
      var i := 0;
      while i < table.Length
        invariant Valid() && Wf(st) && 0 <= i <= table.Length == |st.chains|
        invariant ScanAll(st, i, addr, now, flags) == ScanAll(old(st), 0, addr, now, flags)
      {
        ScanAllStep(st, i, addr, now, flags);
        ScanOneChain(i, addr, now, flags);
        TableFits();
        i := i + 1;
      }
      ScanAllEnd(st, addr, now, flags);
    }

    // cache_scan_free
    method CacheScanFree(name: string, addr: Addr, now: int, flags: Flags) returns (ok: bool)
      requires Valid() && Wf(st)
      modifies this`head, this`tail, this`uid, this`bigFree, this`st, this`links, table
      modifies nodes`next, nodes`prev, nodes`hashNext, nodes`flags, nodes`uid
      ensures Valid() && Wf(st) && (st, ok) == ScanFree(old(st), name, addr, now, flags)
    {
      hide Valid, ScanForward, ScanAll;
      if flags.forward {
        ok := ScanBucket(name, now, flags);
      } else {
        ScanTable(addr, now, flags);
        ok := true;
      }
    }

    // ---------- cache_hash ----------

    // Past the reverse records at the start of the chain.
    method PastReverse(b: nat) returns (up: Crec?, n: Crec?, ghost k: nat)
      requires Valid() && b < |st.chains| && forall c :: c in st.chains[b] ==> c in st.recs
      ensures k == SkipReverse(st.recs, st.chains[b], 0) && n == At(st.chains[b], k)
      ensures up == At(st.chains[b], k as int - 1)
    {
      hide Valid, SkipReverse;
      ghost var ch := st.chains[b];
      up, k := null, 0;
      ChainNext(b, 0);
      n := table[b];
      while n != null && n.flags.reverse
        invariant k <= |ch| && n == At(ch, k) && up == At(ch, k as int - 1)
        invariant SkipReverse(st.recs, ch, k) == SkipReverse(st.recs, ch, 0)
        decreases |ch| - k
      {
        ChainNext(b, k);
        FieldsAre(n);
        SkipReverseStep(st.recs, ch, k);
        up, n, k := n, n.hashNext, k + 1;
      }
      if n != null {
        ChainNext(b, k);
        FieldsAre(n);
      }
      SkipReverseStep(st.recs, ch, k);
    }

    // From entry i on, up to the immortal records at the end.
    method PastMortal(b: nat, up0: Crec?, n0: Crec?, ghost i: nat) returns (up: Crec?, ghost k: nat)
      requires Valid() && b < |st.chains| && i <= |st.chains[b]| && forall c :: c in st.chains[b] ==> c in st.recs
      requires n0 == At(st.chains[b], i) && up0 == At(st.chains[b], i as int - 1)
      ensures k == SkipMortal(st.recs, st.chains[b], i) && up == At(st.chains[b], k as int - 1)
    {
      hide Valid, SkipMortal;
      ghost var ch := st.chains[b];
      var n := n0;
      up, k := up0, i;
      while n != null && !n.flags.immortal
        invariant k <= |ch| && n == At(ch, k) && up == At(ch, k as int - 1)
        invariant SkipMortal(st.recs, ch, k) == SkipMortal(st.recs, ch, i)
        decreases |ch| - k
      {
        ChainNext(b, k);
        FieldsAre(n);
        SkipMortalStep(st.recs, ch, k);
        up, n, k := n, n.hashNext, k + 1;
      }
      if n != null {
        ChainNext(b, k);
        FieldsAre(n);
      }
      SkipMortalStep(st.recs, ch, k);
    }

    method HashRec(c: Crec)
      requires Valid() && Wf(st) && c in st.recs && c !in st.chains[Bucket(st, st.recs[c].name)]
      modifies this`st, this`links, table, nodes`hashNext
      ensures Valid() && st == HashIn(old(st), c)
      ensures forall y :: y in old(links).hashNext && y != c && !Hashed(old(st), y) ==>
          y in links.hashNext && links.hashNext[y] == old(links).hashNext[y]
    {
      hide Valid, Wf, SkipReverse, SkipMortal, InsertAt;
      ghost var st0 := st;
      TableThere(st);
      RecordKnown(c);
      FieldsAre(c);
      var b := BucketOf(c.name);
      ChainRecs(st, b);
      var up: Crec? := null;
      ghost var k: nat := 0;
      if !c.flags.reverse {
        var n;
        up, n, k := PastReverse(b);
        if c.flags.immortal {
          up, k := PastMortal(b, up, n, k);
        }
      }
      if up != null {
        EntryHashed(st, b, k - 1);
      }
      RehangAt(b, up, c, k);
    }

    lemma RecordKnown(c: Crec)
      requires Valid()
      ensures c in st.recs <==> c in nodes
    {
    }

    // ---------- new_chain ----------

    // new_chain = new_chain->next
    method PopPending() returns (c: Crec)
      requires Valid() && newChain != null
      modifies this`newChain, this`st, this`links
      ensures old(st).pending != [] && c == old(st).pending[0]
      ensures Valid() && st == old(st).(pending := old(st).pending[1..])
      ensures c in st.recs && c !in st.lru && c !in st.pending
    {
      hide Sep, Targets, Vals, PrevIs, HashIs, Leads, LeadsBack;
      PendingHead(links, st);
      PopPendingAgrees(links, st);
      NodesAre();
      NextFieldIs(newChain);
      c := newChain;
      newChain := c.next;
      links := links.(newChain := newChain);
      st := st.(pending := st.pending[1..]);
    }

    lemma NextFieldIs(c: Crec)
      requires Mirror() && c in nodes
      ensures c in links.next && links.next[c] == c.next
    {
    }

    lemma NothingPending()
      requires Valid()
      ensures newChain == null <==> st.pending == []
      ensures newChain != null ==> newChain == st.pending[0]
    {
      hide Sep, Targets, Vals, NextIs, PrevIs, HashIs;
      PendingHead(links, st);
    }

    // cache_start_insert
    method CacheStartInsert()
      requires Valid() && Wf(st)
      modifies this`head, this`tail, this`newChain, this`uid, this`bigFree, this`insertError, this`st, this`links
      modifies nodes`next, nodes`prev, nodes`flags, nodes`uid
      ensures Valid() && Wf(st) && st == StartInsert(old(st))
    {
      hide Valid, Wf, ReleaseAll, ReleaseFirst;
      NothingPending();
      while newChain != null
        invariant Valid() && Wf(st) && (newChain == null <==> st.pending == [])
        invariant ReleaseAll(st) == ReleaseAll(old(st))
        decreases |st.pending|
      {
        ReleaseStep(st);
        var c := PopPending();
        Free(c);
        NothingPending();
      }
      ReleaseEnd(st);
      SetInsertError(false);
    }

    method SetInsertError(v: bool)
      requires Valid() && Wf(st)
      modifies this`insertError, this`st
      ensures Valid() && Wf(st) && st == old(st).(insertError := v)
    {
      hide Mirror, Vals, NextIs, PrevIs, HashIs, Leads, LeadsBack, Targets, Distinct;
      ErrorOnly(links, st, v);
      insertError := v;
      st := st.(insertError := v);
    }

    // cache_end_insert
    method CacheEndInsert()
      requires Valid() && Wf(st)
      modifies this`head, this`tail, this`newChain, this`uid, this`bigFree, this`st, this`links, table
      modifies nodes`next, nodes`prev, nodes`hashNext, nodes`flags, nodes`uid
      ensures Valid() && Wf(st) && st == EndInsert(old(st))
    {
      hide Valid, Wf, CommitAll, ReleaseFirst, CommitFirst;
      ErrorFlag();
      if insertError {
        return;
      }
      NothingPending();
      while newChain != null
        invariant Valid() && Wf(st) && (newChain == null <==> st.pending == [])
        invariant CommitAll(st) == CommitAll(old(st))
        decreases |st.pending|
      {
        NothingPending();
        CommitOne(st);
        RecordKnown(newChain);
        OutdatedIs(newChain);
        var outdated := IsOutdated(newChain);
        var c := PopPending();
        if outdated {
          Free(c);
        } else {
          HashRec(c);
          Link(c);
        }
        NothingPending();
      }
      CommitEnd(st);
    }

    lemma ErrorFlag()
      requires Valid()
      ensures insertError == st.insertError && bigFree == st.bigFree && bigLeft == st.bigLeft && uid == st.uid
    {
      hide Mirror, Vals, Sep, Targets, Agree;
    }

    // The tail of the LRU list.
    lemma TailIs()
      requires Valid()
      ensures tail == null <==> st.lru == []
      ensures tail != null ==> tail in nodes && tail == st.lru[|st.lru| - 1]
    {
      hide Vals, NextIs, PrevIs, HashIs, Targets;
      EndsKnown(links, st);
      NodesAre();
    }

    // The loop of cache_insert that brings a free record to the tail.
    method GrabFree(now: int, reverse: bool) returns (g: Grab)
      requires Valid() && Wf(st)
      modifies this`head, this`tail, this`uid, this`bigFree, this`st, this`links, table
      modifies nodes`next, nodes`prev, nodes`hashNext, nodes`flags, nodes`uid
      ensures Valid() && Wf(st)
      ensures var r := GrabTail(old(st), now, reverse, false, 0); st == r.0 && g == r.1
      ensures g.Ready? ==> tail != null
    {
      hide Valid, Wf, GrabTail, ScanFree;
      var freedAll, freeAvail := reverse, false;
      ghost var tries: nat := 0;
      while true
        invariant Valid() && Wf(st)
        invariant GrabTail(st, now, freedAll, freeAvail, tries) == GrabTail(old(st), now, reverse, false, 0)
        decreases if freedAll then 0 else 1, if freeAvail then 0 else 1
      {
        GrabStep(st, now, freedAll, freeAvail, tries);
        TailIs();
        if tail == null {
          return Empty;
        }
        FieldsAre(tail);
        if !(tail.flags.forward || tail.flags.reverse) {
          return Ready;
        }
        if freeAvail {
          return Loop;
        }
        if freedAll {
          freeAvail := true;
          var ok := CacheScanFree(tail.name, tail.addr, now, tail.flags);
        } else {
          var ok := CacheScanFree("", [], now, NO_FLAGS);
          freedAll := true;
        }
        tries := tries + 1;
      }
    }

    method SetAll(c: Crec, f: Flags, nm: string, addr: Addr, ttd: int, ghost recs: map<Crec, Rec>)
      requires Vals(recs) && c in nodes
      modifies c`flags, c`name, c`addr, c`ttd, c`target, c`targetUid
      ensures Vals(recs[c := Rec(f, nm, addr, ttd, recs[c].uid, null, 0)])
    {
      c.flags, c.name, c.addr, c.ttd := f, nm, addr, ttd;
      c.target, c.targetUid := null, 0;
    }

    // The fields of a record that goes onto new_chain.
    method FillRecord(c: Crec, nm: string, addr: Addr, ttd: int, f: Flags)
      requires Valid() && c in st.recs && Cached(st.recs[c]) && !(f.hosts || f.dhcp)
      requires Unchained(st, c)
      modifies this`st, nodes`flags, nodes`name, nodes`addr, nodes`ttd, nodes`target, nodes`targetUid
      ensures Valid() && st == old(st).(recs := old(st).recs[c := Rec(f, nm, addr, ttd, old(st).recs[c].uid, null, 0)])
    {
      hide Mirror, Sep, Agree, Targets, Vals;
      NodesAre();
      ghost var r := Rec(f, nm, addr, ttd, st.recs[c].uid, null, 0);
      FillSep(links, st, c, r);
      SetAll(c, f, nm, addr, ttd, st.recs);
      st := st.(recs := st.recs[c := r]);
    }

    // new->next = new_chain
    method PushPointers(c: Crec)
      requires Mirror() && c in nodes
      modifies this`head, this`newChain, this`links, nodes`next
      ensures Mirror() && links == old(links).(next := old(links.next)[c := old(links.newChain)], newChain := c)
    {
      hide PrevIs, HashIs;
      SetNext(c, newChain);
      newChain := c;
      links := links.(newChain := c);
    }

    method PushPending(c: Crec)
      requires Valid() && c in st.recs && c !in st.lru && c !in st.pending
      modifies this`head, this`newChain, this`st, this`links, nodes`next
      ensures Valid() && st == old(st).(pending := [c] + old(st).pending)
    {
      hide Sep, Targets, Vals, Mirror, Agree;
      PushPendingAgrees(links, st, c);
      NodesAre();
      PushPointers(c);
      st := st.(pending := [c] + st.pending);
    }

    // The ghost numbering of insertions.
    method Number(c: Crec)
      requires Valid()
      modifies this`st
      ensures Valid() && st == old(st).(born := old(st).born[c := old(st).clock], clock := old(st).clock + 1)
    {
      hide Targets, Vals, Mirror;
      NumberOnly(links, st, c);
      st := st.(born := st.born[c := st.clock], clock := st.clock + 1);
    }

    // cache_unlink for the free record at the tail.
    method TakeTail() returns (c: Crec)
      requires Valid() && Wf(st) && PoolOk(st) && FreeTail(st) && tail != null
      modifies this`head, this`tail, this`st, this`links, nodes`next, nodes`prev
      ensures Valid() && st == old(st).(lru := old(st).lru[..|old(st).lru| - 1]) && c == old(st).lru[|old(st).lru| - 1]
      ensures c in st.recs && c !in st.lru && c !in st.pending && Cached(st.recs[c]) && Unchained(st, c)
    {
      hide Valid, Wf, PoolOk, FreeTail, CacheState.Unlink, Unchained;
      TailIs();
      TailFree(st);
      c := tail;
      Unlink(c);
    }

    method PendRecord(c: Crec, nm: string, addr: Addr, ttd: int, f: Flags)
      requires Valid() && c in st.recs && c !in st.lru && c !in st.pending && Cached(st.recs[c]) && Unchained(st, c)
      requires !(f.hosts || f.dhcp)
      modifies this`head, this`newChain, this`st, this`links
      modifies nodes`next, nodes`flags, nodes`name, nodes`addr, nodes`ttd, nodes`target, nodes`targetUid
      ensures Valid()
      ensures var s := old(st);
        st == s.(recs := s.recs[c := Rec(f, nm, addr, ttd, s.recs[c].uid, null, 0)], pending := [c] + s.pending,
                 born := s.born[c := s.clock], clock := s.clock + 1)
    {
      hide Valid, Unchained;
      FillRecord(c, nm, addr, ttd, f);
      PushPending(c);
      Number(c);
    }

    // A buffer for a long name: one that was used before, or a new one.
    method TakeName(nm: string, malloc: bool) returns (ok: bool)
      requires Valid() && Wf(st)
      modifies this`bigFree, this`bigLeft, this`st
      ensures Valid() && Wf(st)
      ensures ok == !NoBuffer(old(st), nm, malloc)
      ensures st == if ok then Buffered(old(st), nm) else old(st)
    {
      hide Mirror, Vals, Leads, LeadsBack, Targets, Distinct;
      if |nm| > SMALLDNAME - 1 {
        if bigFree > 0 {
          BigOnly(links, st, bigFree - 1, bigLeft);
          bigFree := bigFree - 1;
          st := st.(bigFree := bigFree);
        } else if bigLeft == 0 || !malloc {
          return false;
        } else {
          BigOnly(links, st, bigFree, bigLeft - 1);
          bigLeft := bigLeft - 1;
          st := st.(bigLeft := bigLeft);
        }
      }
      ok := true;
    }

    method PlaceFree(nm: string, addr: Addr, ttd: int, f: Flags) returns (c: Crec)
      requires Valid() && Wf(st) && PoolOk(st) && FreeTail(st) && tail != null && !(f.hosts || f.dhcp)
      modifies this`head, this`tail, this`newChain, this`st, this`links
      modifies nodes`next, nodes`prev, nodes`flags, nodes`name, nodes`addr, nodes`ttd, nodes`target, nodes`targetUid
      ensures var s := old(st);
        && s.lru != [] && c == s.lru[|s.lru| - 1] && c in s.recs
        && Valid() && st == Pend(s, Rec(f, nm, addr, ttd, s.recs[c].uid, null, 0))
    {
      hide Valid, Wf, PoolOk, FreeTail, Pend, Unchained;
      TailIs();
      c := TakeTail();
      PendRecord(c, nm, addr, ttd, f);
      PendIs(old(st), st.recs[c]);
    }

    // The end of cache_insert: a free record is at the tail.
    method PlaceRecord(nm: string, addr: Addr, now: int, ttl: nat, flags: Flags, malloc: bool)
      returns (r: Crec?, ghost why: InsertResult)
      requires Valid() && Wf(st) && PoolOk(st) && FreeTail(st) && tail != null && InsertFlags(flags)
      modifies this`head, this`tail, this`newChain, this`bigFree, this`bigLeft, this`insertError, this`st, this`links
      modifies nodes`next, nodes`prev, nodes`flags, nodes`name, nodes`addr, nodes`ttd, nodes`target, nodes`targetUid
      ensures Valid() && (st, why) == Place(old(st), nm, addr, now, ttl, flags, malloc)
      ensures r == if why.Inserted? then why.c else null
    {
      hide Valid, Wf, PoolOk, FreeTail, Place, Pend, LongName, NoBuffer, Buffered;
      BigKeeps(st, nm);
      TailIs();
      PlaceIs(st, nm, addr, now, ttl, flags, malloc);
      var ok := TakeName(nm, malloc);
      r, why := null, Refused(NoLongName);
      if ok {
        var c := PlaceFree(nm, addr, now + ttl, flags.(bigname := LongName(nm)));
        r, why := c, Inserted(c);
      } else {
        SetInsertError(true);
      }
    }

    // cache_insert: the new record, or null and insert_error set.
    method CacheInsertRecord(nm: string, addr: Addr, now: int, ttl: nat, flags: Flags, malloc: bool)
      returns (r: Crec?, ghost why: InsertResult)
      requires Valid() && Wf(st) && Inv(st) && InsertFlags(flags)
      modifies this`head, this`tail, this`newChain, this`uid, this`bigFree, this`bigLeft, this`insertError, this`st
      modifies this`links, table
      modifies nodes`next, nodes`prev, nodes`hashNext, nodes`flags, nodes`uid, nodes`name, nodes`addr, nodes`ttd
      modifies nodes`target, nodes`targetUid
      ensures Valid() && (st, why) == Insert(old(st), nm, addr, now, ttl, flags, malloc)
      ensures r == if why.Inserted? then why.c else null
    {
      hide Valid, Wf, ScanFree, GrabTail, PoolOk, FreeTail, Place, Insert, Inv;
      ErrorFlag();
      InsertIs(st, nm, addr, now, ttl, flags, malloc);
      if insertError {
        return null, Refused(EarlierError);
      }
      InsertPlan(st, nm, addr, now, flags);
      var ok := CacheScanFree(nm, addr, now, flags);
      if !ok {
        SetInsertError(true);
        return null, Refused(HostsOrDhcp);
      }
      var g := GrabFree(now, flags.reverse);
      if !g.Ready? {
        SetInsertError(true);
        return null, Refused(NoEntries);
      }
      TailIs();
      r, why := PlaceRecord(nm, addr, now, ttl, flags, malloc);
    }

    // Every record has a next field.
    lemma NextKnown()
      requires Valid()
      ensures forall x :: x in st.recs ==> x in links.next
    {
      hide Sep, Agree, Targets;
    }

    // ---------- cache_find_by_name ----------

    // Entry i of chain b is moved up to position ins.
    method MoveUpAt(b: nat, up: Crec?, c: Crec, insUp: Crec?, ghost i: nat, ghost ins: nat)
      requires Valid() && Wf(st) && b < |st.chains| && ins <= i < |st.chains[b]| && st.chains[b][i] == c
      requires up == At(st.chains[b], i as int - 1) && insUp == At(st.chains[b], ins as int - 1)
      modifies this`st, this`links, table, nodes`hashNext
      ensures Valid() && st == MoveUp(old(st), b, i, ins) && links.next == old(links).next
    {
      hide Valid, Wf, InsertAt, RemoveAt;
      MoveUpSteps(st, b, i, ins);
      UnhashAt(b, up, c, i);
      RehangAt(b, insUp, c, ins);
    }

    // The next hosts or DHCP answer: chained behind the last one, if there is one.
    method ChainAnswer(k: Cursor, v: Crec?) returns (ans: Crec?)
      requires Valid() && (k.last != null ==> k.last in st.recs && k.last !in st.lru && k.last !in st.pending)
      modifies this`head, this`links, nodes`next
      ensures Valid() && head == old(head) && ans == (if k.last == null then v else k.ans)
      ensures links == old(links).(next := Set(old(links).next, k.last, v))
    {
      hide Sep, Targets, Vals, NextIs, PrevIs, HashIs, Agree;
      ans := k.ans;
      if k.last == null {
        ans := v;
      } else {
        NextOutside(links, st, k.last, v);
        NodesAre();
        SetNext(k.last, v);
      }
    }

    // A hosts or DHCP record is chained, another one promoted.
    method TakeAnswer(b: nat, c: Crec, k: Cursor, ghost l: Look) returns (m: Cursor)
      requires Valid() && LookOk(l, b) && st == l.st && CursorOk(links, k, l, b) && l.i < |st.chains[b]|
      requires c == st.chains[b][l.i]
      modifies this`head, this`tail, this`st, this`links, nodes`next, nodes`prev
      ensures Valid() && Wf(st) && st == Answered(l, b) && |st.chains| == |l.st.chains|
      ensures st.chains[b] == l.st.chains[b]
      ensures m == k.(ans := m.ans, last := m.last)
      ensures Chained(links, m.ans, m.last, HostsAfter(l, b)) && HostsOk(st, HostsAfter(l, b))
    {
      hide Valid, Wf, LookOk, CacheState.Promote, At, OutsideNext, Set, Chained, HostsOk, Distinct;
      AnswerFacts(l, b);
      CursorParts(links, k, l, b);
      RecordKnown(c);
      FieldsAre(c);
      m := k;
      ghost var links0 := links;
      if c.flags.hosts || c.flags.dhcp {
        NextKnown();
        ChainGrows(links, st, k, l.hosts, c);
        LastIsHost(links, st, k, l.hosts);
        var ans := ChainAnswer(k, c);
        m := m.(ans := ans, last := c);
      } else {
        Promote(c);
        ChainStays(links0, links, l.st, st, k, l.hosts);
      }
    }

    // What the loop does with a live match.
    method TakeMatch(b: nat, c: Crec, k: Cursor, ghost l: Look) returns (m: Cursor, ghost n: Look)
      requires Valid() && LookOk(l, b) && st == l.st && CursorOk(links, k, l, b) && l.i < |st.chains[b]|
      requires c == st.chains[b][l.i]
      modifies this`head, this`tail, this`st, this`links, table, nodes`next, nodes`prev, nodes`hashNext
      ensures Valid() && LookOk(n, b) && n == LookMatch(l, b) && st == n.st && CursorOk(links, m, n, b)
    {
      hide Valid, Wf, LookOk, Answered, HostsAfter, At, MoveUp, Chained, HostsOk, LookMatch, CursorOk;
      LookMatchOk(l, b);
      MatchIs(l, b);
      StartedPlace(links, k, l, b);
      RecordKnown(c);
      FieldsAre(c);
      m := TakeAnswer(b, c, k, l);
      ghost var links1 := links;
      if k.started && c.flags.reverse == k.rev && c.flags.immortal == k.imm {
        MoveUpAt(b, k.up, c, k.insUp, l.i, l.ins);
        m := m.(insUp := c);
      } else {
        if !k.started {
          m := m.(insUp := k.up, started := true, rev := c.flags.reverse, imm := c.flags.immortal);
        }
        m := m.(up := c);
      }
      n := LookMatch(l, b);
      MatchCursor(links1, links, k, m, l, b);
    }

    // The loop of the first search.
    method LookThrough(b: nat, name: string, now: int, prot: Flags) returns (k: Cursor, ghost l: Look)
      requires Valid() && Wf(st) && b < |st.chains|
      modifies this`head, this`tail, this`uid, this`bigFree, this`st, this`links, table
      modifies nodes`next, nodes`prev, nodes`hashNext, nodes`flags, nodes`uid
      ensures Valid() && LookOk(l, b) && l == LookLoop(StartLook(old(st)), b, name, now, prot) && st == l.st
      ensures CursorOk(links, k, l, b)
    {
      hide Valid, Wf, LookOk, LookLoop, LookStep, LookMatch, CursorOk, Dead, Drop, NameEq;
      k, l := Cursor(null, null, false, false, false, null, null), StartLook(st);
      StartCursor(links, st, b);
      ChainNext(b, 0);
      var c := table[b];
      while c != null
        invariant Valid() && LookOk(l, b) && st == l.st && b < |st.chains| && l.i <= |st.chains[b]|
        invariant CursorOk(links, k, l, b)
        invariant c == At(st.chains[b], l.i)
        invariant LookLoop(l, b, name, now, prot) == LookLoop(StartLook(old(st)), b, name, now, prot)
        decreases |st.chains[b]| - l.i
      {
        ChainNext(b, l.i);
        LoopUnroll(l, b, name, now, prot);
        var next := c.hashNext;
        var same := HostnameIsEqual(c.name, name);
        k, l := LookOne(b, c, k, same, name, now, prot, l);
        c := next;
      }
      LoopEnd(l, b, name, now, prot);
    }

    // One entry of the chain; same: it has the name asked for.
    method LookOne(b: nat, c: Crec, k: Cursor, same: bool, ghost name: string, now: int, prot: Flags, ghost l: Look)
      returns (m: Cursor, ghost n: Look)
      requires Valid() && LookOk(l, b) && st == l.st && b < |st.chains| && l.i < |st.chains[b]|
      requires c == st.chains[b][l.i] && c in nodes && CursorOk(links, k, l, b) && same == NameEq(c.name, name)
      modifies this`head, this`tail, this`uid, this`bigFree, this`st, this`links, table
      modifies nodes`next, nodes`prev, nodes`hashNext, nodes`flags, nodes`uid
      ensures Valid() && n == LookStep(l, b, name, now, prot) && LookOk(n, b) && st == n.st && CursorOk(links, m, n, b)
      ensures Advanced(l, n, b)
    {
      hide Valid, Wf, LookOk, LookLoop, LookStep, LookMatch, CursorOk, Dead, Drop, NameEq, IsExpired, IsOutdated;
      hide Advanced;
      StepIs(l, b, name, now, prot);
      OthersNext(l, b);
      UpIs(links, k, l, b);
      FieldsAre(c);
      DeadIs(now, c);
      if !(IsExpired(now, c) || IsOutdated(c)) {
        if c.flags.forward && c.flags.Meets(prot) && same {
          MatchNext(l, b);
          m, n := TakeMatch(b, c, k, l);
        } else {
          PassCursor(links, k, l, b);
          m, n := k.(up := c), l.(i := l.i + 1);
        }
      } else {
        DropDead(b, c, k, l);
        m, n := k, l.(st := st);
      }
    }

    // An expired entry, or a CNAME that is outdated.
    method DropDead(b: nat, c: Crec, k: Cursor, ghost l: Look)
      requires Valid() && LookOk(l, b) && st == l.st && b < |st.chains| && l.i < |st.chains[b]| &&
          c == st.chains[b][l.i]
      requires CursorOk(links, k, l, b) && Wf(st)
      modifies this`head, this`tail, this`uid, this`bigFree, this`st, this`links, table
      modifies nodes`next, nodes`prev, nodes`hashNext, nodes`flags, nodes`uid
      ensures Valid() && st == Drop(l.st, b, l.i) && LookOk(l.(st := st), b) && CursorOk(links, k, l.(st := st), b)
    {
      hide Valid, Wf, LookOk, CursorOk, Drop, OutsideNext;
      UpIs(links, k, l, b);
      ghost var links0 := links;
      DropAt(b, k.up, c, l.i);
      DropCursor(links0, links, k, l, b);
    }

    // A first call of cache_find_by_name. What it leaves behind leads through the
    // answers: the hosts and DHCP records on their next fields, then the LRU list.
    method FindFirst(name: string, now: int, prot: Flags) returns (r: Crec?, ghost a: seq<Crec>)
      requires Valid() && Inv(st)
      modifies this`head, this`tail, this`uid, this`bigFree, this`st, this`links, table
      modifies nodes`next, nodes`prev, nodes`hashNext, nodes`flags, nodes`uid
      ensures Valid() && st == FindByName(old(st), name, now, prot).st && Inv(st)
      ensures a == AnswerList(old(st), name, now, prot) && r == At(a, 0)
      ensures Trail(links, st, a, ByName(name, prot))
    {
      hide Valid, Inv, LookLoop, LookOk, CursorOk, Chained, HostsOk, AnswerList, Trail, Leads, Wf;
      InvIsWf(st);
      ghost var st0 := st;
      var b := BucketOf(name);
      var k;
      ghost var l;
      k, l := LookThrough(b, name, now, prot);
      a := AnswerList(st0, name, now, prot);
      EndParts(links, k, l, b);
      LastIsHost(links, st, k, l.hosts);
      LruLeads();
      NextKnown();
      AnswersLead(links, st, k, l.hosts);
      var ans := ChainAnswer(k, head);
      LookupTrail(links, st0, ans, l, name, now, prot);
      if ans != null { RecordKnown(ans); }
      r := Answer(ans, name, prot);
    }

    // The test at the end of cache_find_by_name.
    method Answer(ans: Crec?, name: string, prot: Flags) returns (r: Crec?)
      requires Valid() && (ans != null ==> ans in st.recs)
      ensures r == if ans != null && Matching(st.recs[ans], name, prot) then ans else null
    {
      hide Valid, NameEq;
      if ans != null {
        RecordKnown(ans);
        FieldsAre(ans);
        var same := HostnameIsEqual(ans.name, name);
        if ans.flags.forward && ans.flags.Meets(prot) && same {
          return ans;
        }
      }
      r := null;
    }

    // A call of cache_find_by_name that goes on from answer j.
    method FindNext(c: Crec, name: string, prot: Flags, ghost a: seq<Crec>, ghost j: nat) returns (r: Crec?)
      requires Valid() && Trail(links, st, a, ByName(name, prot)) && j < |a| && c == a[j]
      ensures r == At(a, j + 1)
    {
      hide Valid;
      TrailNext(links, st, a, ByName(name, prot), j);
      RecordKnown(c);
      NextIsLink(c);
      r := Answer(c.next, name, prot);
    }

    // What a caller of cache_find_by_name does: it asks, and asks again until null.
    method FindAll(name: string, now: int, prot: Flags) returns (found: seq<Crec>)
      requires Valid() && Inv(st)
      modifies this`head, this`tail, this`uid, this`bigFree, this`st, this`links, table
      modifies nodes`next, nodes`prev, nodes`hashNext, nodes`flags, nodes`uid
      ensures Valid() && Inv(st) && st == FindByName(old(st), name, now, prot).st
      ensures found == AnswerList(old(st), name, now, prot)
    {
      hide Valid, Inv, FindByName, AnswerList, Trail;
      found := [];
      var c;
      ghost var a;
      c, a := FindFirst(name, now, prot);
      while c != null
        invariant |found| <= |a| && found == a[..|found|] && c == At(a, |found|)
        modifies {}
        decreases |a| - |found|
      {
        var last := c;
        c := FindNext(last, name, prot, a, |found|);
        found := found + [last];
      }
    }

    lemma LruLeads()
      requires Valid()
      ensures Leads(links.next, links.head, st.lru) && links.head == head
    {
      hide Sep, Targets, Vals, NextIs, PrevIs, HashIs, LeadsBack;
      AgreeFacts(links, st);
    }

    lemma NextIsLink(c: Crec)
      requires Valid() && c in nodes
      ensures c in links.next && links.next[c] == c.next
    {
      hide Sep, Agree, Targets, Vals;
      NextFieldIs(c);
    }

    // ---------- cache_find_by_addr ----------

    // One chain, up to its first record without F_REVERSE.
    method AddrThrough(b: nat, k0: Cursor, addr: Addr, now: int, prot: Flags, ghost a0: AddrLook)
      returns (k: Cursor, ghost a: AddrLook)
      requires Valid() && Wf(st) && st == a0.st && b < |st.chains| && AddrCursor(links, k0, a0, b, 0)
      modifies this`head, this`tail, this`uid, this`bigFree, this`st, this`links, table
      modifies nodes`next, nodes`prev, nodes`hashNext, nodes`flags, nodes`uid
      ensures Valid() && Wf(st) && a == AddrChain(a0, b, 0, addr, now, prot) && st == a.st
      ensures |st.chains| == |a0.st.chains|
      ensures AddrCursor(links, k, a, b + 1, 0)
    {
      hide Valid, Wf, AddrChain, AddrVisit, AddrCursor, Expired, Drop;
      k, a := k0.(up := null), a0;
      UpAside(links, k0, a0, b, 0, null);
      ghost var i: nat := 0;
      ChainNext(b, 0);
      var c := table[b];
      while c != null && c.flags.reverse
        invariant Valid() && Wf(st) && st == a.st && b < |st.chains| == |a0.st.chains| && i <= |st.chains[b]|
        invariant c == At(st.chains[b], i) && k.up == At(st.chains[b], i as int - 1) && AddrCursor(links, k, a, b, i)
        invariant AddrChain(a, b, i, addr, now, prot) == AddrChain(a0, b, 0, addr, now, prot)
        decreases |st.chains[b]| - i
      {
        ChainNext(b, i);
        FieldsAre(c);
        var next := c.hashNext;
        k, a, i := AddrStep(b, c, k, addr, now, prot, a, i);
        c := next;
      }
      if c != null {
        ChainNext(b, i);
        FieldsAre(c);
      }
      AddrEnds(a, b, i, addr, now, prot);
      LaterAhead(links, k, a, b, i);
    }

    // One reverse record: dropped if it has expired, else looked at.
    method AddrStep(b: nat, c: Crec, k: Cursor, addr: Addr, now: int, prot: Flags, ghost a: AddrLook, ghost i: nat)
      returns (m: Cursor, ghost n: AddrLook, ghost j: nat)
      requires Valid() && Wf(st) && st == a.st && b < |st.chains| && i < |st.chains[b]| && c == st.chains[b][i]
      requires c in nodes && c.flags.reverse && k.up == At(st.chains[b], i as int - 1) && AddrCursor(links, k, a, b, i)
      modifies this`head, this`tail, this`uid, this`bigFree, this`st, this`links, table
      modifies nodes`next, nodes`prev, nodes`hashNext, nodes`flags, nodes`uid
      ensures Valid() && Wf(st) && st == n.st && |st.chains| == |a.st.chains|
      ensures j <= |st.chains[b]| && |st.chains[b]| - j == |a.st.chains[b]| - i - 1
      ensures At(st.chains[b], j) == At(a.st.chains[b], i + 1) && m.up == At(st.chains[b], j as int - 1)
      ensures AddrCursor(links, m, n, b, j)
      ensures AddrChain(n, b, j, addr, now, prot) == AddrChain(a, b, i, addr, now, prot)
    {
      hide Valid, Wf, AddrChain, AddrVisit, AddrCursor, Expired, Drop, At;
      AtIs(st.chains[b], i);
      FieldsAre(c);
      m, n, j := k, a, i;
      ExpiredIs(now, c);
      var expired := IsExpired(now, c);
      if !expired {
        AddrVisits(a, b, i, addr, now, prot);
        m, n := TakeAddr(b, c, k, addr, prot, a, i);
        j := i + 1;
      } else {
        AddrDrops(a, b, i, addr, now, prot);
        DropChainIs(st, b, i);
        DropExpired(b, c, k, a, i);
        n := a.(st := st);
      }
    }

    // An expired reverse record.
    method DropExpired(b: nat, c: Crec, k: Cursor, ghost a: AddrLook, ghost i: nat)
      requires Valid() && Wf(st) && st == a.st && b < |st.chains| && i < |st.chains[b]| && c == st.chains[b][i]
      requires k.up == At(st.chains[b], i as int - 1) && AddrCursor(links, k, a, b, i)
      modifies this`head, this`tail, this`uid, this`bigFree, this`st, this`links, table
      modifies nodes`next, nodes`prev, nodes`hashNext, nodes`flags, nodes`uid
      ensures Valid() && Wf(st) && st == Drop(a.st, b, i) && AddrCursor(links, k, a.(st := st), b, i)
    {
      hide Valid, Wf, AddrCursor, Drop, At, OutsideNext;
      ghost var links0 := links;
      DropAt(b, k.up, c, i);
      AddrDropCursor(links0, links, k, a, b, i);
    }

    // A live reverse record: chained or promoted if it matches.
    method TakeAddr(b: nat, c: Crec, k: Cursor, addr: Addr, prot: Flags, ghost a: AddrLook, ghost i: nat)
      returns (m: Cursor, ghost n: AddrLook)
      requires Valid() && Wf(st) && st == a.st && b < |st.chains| && i < |st.chains[b]| && c == st.chains[b][i]
      requires c in st.recs
      requires (Cached(st.recs[c]) <==> c in st.lru) && st.recs[c].flags.reverse && AddrCursor(links, k, a, b, i)
      modifies this`head, this`tail, this`st, this`links, nodes`next, nodes`prev
      ensures Valid() && Wf(st) && n == AddrVisit(a, c, addr, prot) && st == n.st && st.chains == a.st.chains
      ensures AddrCursor(links, m, n, b, i + 1) && m.up == c
    {
      hide Valid, Wf, CacheState.Promote, At, OutsideNext, Set, Chained, HostsOk, Distinct, Ahead;
      RecordKnown(c);
      FieldsAre(c);
      EntryAhead(a.st, a.hosts, b, i);
      m := k.(up := c);
      ghost var links0 := links;
      if c.flags.Meets(prot) && c.addr == addr {
        if c.flags.hosts || c.flags.dhcp {
          NextKnown();
          ChainGrows(links, st, k, a.hosts, c);
          LastIsHost(links, st, k, a.hosts);
          var ans := ChainAnswer(k, c);
          m := m.(ans := ans, last := c);
        } else {
          PromoteWf(st, c);
          Promote(c);
          ChainStays(links0, links, a.st, st, k, a.hosts);
        }
      }
      n := AddrVisit(a, c, addr, prot);
      AheadSame(a.st, st, n.hosts, b, i + 1);
    }

    // A first call of cache_find_by_addr.
    method FindFirstAddr(addr: Addr, now: int, prot: Flags) returns (r: Crec?, ghost a: seq<Crec>)
      requires Valid() && Inv(st)
      modifies this`head, this`tail, this`uid, this`bigFree, this`st, this`links, table
      modifies nodes`next, nodes`prev, nodes`hashNext, nodes`flags, nodes`uid
      ensures Valid() && st == FindByAddr(old(st), addr, now, prot).st && Inv(st)
      ensures a == AddrAnswers(FindByAddr(old(st), addr, now, prot)) && r == At(a, 0)
      ensures Trail(links, st, a, ByAddr(addr, prot))
    {
      hide Valid, Inv, AddrAll, AddrChain, AddrCursor, Chained, HostsOk, AddrAnswers, Trail, Leads, Wf;
      InvIsWf(st);
      ghost var st0 := st;
      TableFits();
      var k := Cursor(null, null, false, false, false, null, null);
      ghost var l := AddrLook(st, [], []);
      StartAddr(links, st);
      var i := 0;
      while i < table.Length
        invariant Valid() && Wf(st) && st == l.st && 0 <= i <= table.Length == |st.chains|
        invariant AddrCursor(links, k, l, i, 0)
        invariant AddrAll(l, i, addr, now, prot) == AddrAll(AddrLook(st0, [], []), 0, addr, now, prot)
      {
        AddrAllStep(l, i, addr, now, prot);
        k, l := AddrThrough(i, k, addr, now, prot, l);
        TableFits();
        i := i + 1;
      }
      AddrAllEnd(l, addr, now, prot);
      AddrParts(links, k, l, i);
      a := AddrAnswers(l);
      LastIsHost(links, st, k, l.hosts);
      LruLeads();
      NextKnown();
      AnswersLead(links, st, k, l.hosts);
      var ans := ChainAnswer(k, head);
      AddrTrail(links, st0, ans, addr, now, prot);
      if ans != null { RecordKnown(ans); }
      r := AddrAnswer(ans, addr, prot);
    }

    // The test at the end of cache_find_by_addr.
    method AddrAnswer(ans: Crec?, addr: Addr, prot: Flags) returns (r: Crec?)
      requires Valid() && (ans != null ==> ans in st.recs)
      ensures r == if ans != null && AddrMatching(st.recs[ans], addr, prot) then ans else null
    {
      hide Valid;
      if ans != null {
        RecordKnown(ans);
        FieldsAre(ans);
        if ans.flags.reverse && ans.flags.Meets(prot) && ans.addr == addr {
          return ans;
        }
      }
      r := null;
    }

    // A call of cache_find_by_addr that goes on from answer j.
    method FindNextAddr(c: Crec, addr: Addr, prot: Flags, ghost a: seq<Crec>, ghost j: nat) returns (r: Crec?)
      requires Valid() && Trail(links, st, a, ByAddr(addr, prot)) && j < |a| && c == a[j]
      ensures r == At(a, j + 1)
    {
      hide Valid;
      TrailNext(links, st, a, ByAddr(addr, prot), j);
      RecordKnown(c);
      NextIsLink(c);
      r := AddrAnswer(c.next, addr, prot);
    }

    // ---------- rehash ----------

    // The inner loop of rehash: one old chain.
    method RehashChain(first: Crec?, ghost ch: seq<Crec>)
      requires Valid() && Wf(st) && Distinct(ch) && (forall c :: c in ch ==> Hashable(st, c))
      requires Leads(links.hashNext, first, ch)
      modifies this`st, this`links, table, nodes`hashNext
      ensures Valid() && Wf(st) && st == HashChain(old(st), ch)
      ensures UnhashedStay(old(links), links, st)
    {
      hide Valid, Wf, HashIn, HashChain, Hashable, Distinct, UnhashedStay, Leads;
      var p := first;
      ghost var rest := ch;
      StaySame(links, st);
      while p != null
        invariant Valid() && Wf(st) && Distinct(rest) && (forall c :: c in rest ==> Hashable(st, c))
        invariant Leads(links.hashNext, p, rest)
        invariant HashChain(st, rest) == HashChain(old(st), ch)
        invariant UnhashedStay(old(links), links, st)
        decreases |rest|
      {
        LeadsOn(links.hashNext, p, rest);
        ChainUnroll(st, rest);
        HashableParts(st, p);
        RecordKnown(p);
        NextHash(p);
        HashKnown();
        var tmp := p.hashNext;
        ghost var links1, st1 := links, st;
        HashRec(p);
        HashInWf(st1, rest[0]);
        Unhashed(links1, links, st1, p, rest);
        StayOn(old(links), links1, links, st1, st, p);
        rest := rest[1..];
        p := tmp;
      }
      ChainDone(links.hashNext, st, rest);
    }

    // rehash: a larger table if one is needed and can be had.
    method Rehash(size: nat, malloc: bool)
      requires Valid() && Inv(st)
      modifies this`table, this`st, this`links, nodes`hashNext
      ensures Valid() && Inv(st) && st == CacheTables.Rehash(old(st), size, malloc)
      ensures table == old(table) || fresh(table)
    {
      hide Valid, Inv, Wf, HashTable, HashChain, AllHashable, EmptyTable, TableSize, UnhashedStay, OldChains;
      hide ChainsOrdered, Rearranged;
      InvIsWf(st);
      RehashInv(st, size, malloc);
      RehashIs(st, size, malloc);
      TableFits();
      var n := NewSize(size);
      if n <= table.Length || !malloc {
        return;
      }
      EmptyWf(st, n);
      ghost var st0, links0 := st, links;
      TableIs();
      var was := table;
      NewTable(n);
      OldStart(links0, st0, links);
      RehashAll(was, st0.chains);
    }

    // The loop of rehash over the old table.
    method RehashAll(was: array<Crec?>, ghost chains: seq<seq<Crec>>)
      requires Valid() && Wf(st) && ChainsOrdered(st) && was != table && was.Length == |chains|
      requires AllHashable(st, chains) && OldChains(links, was[..], chains, 0)
      modifies this`st, this`links, table, nodes`hashNext
      ensures Valid() && st == HashTable(old(st), chains)
    {
      hide Valid, Wf, HashTable, HashChain, AllHashable, UnhashedStay, OldChains, ChainsOrdered;
      ghost var heads := was[..];
      assert chains[0..] == chains;
      var i := 0;
      while i < was.Length
        invariant Valid() && Wf(st) && ChainsOrdered(st) && 0 <= i <= was.Length && was[..] == heads
        invariant AllHashable(st, chains[i..]) && HashTable(st, chains[i..]) == HashTable(old(st), chains)
        invariant OldChains(links, heads, chains, i)
      {
        OldHead(links, heads, chains, i);
        TableUnroll(st, chains, i);
        ghost var links1 := links;
        RehashChain(was[i], chains[i]);
        OldRest(links1, links, st, heads, chains, i);
        i := i + 1;
      }
      TableDone(st, chains);
    }

    // new: all buckets empty.
    method NewTable(n: nat)
      requires Valid() && Wf(st) && n > 0
      modifies this`table, this`st, this`links
      ensures Valid() && st == EmptyTable(old(st), n) && fresh(table) && table.Length == n
      ensures links.hashNext == old(links).hashNext
    {
      hide Targets, Vals, NextIs, PrevIs, HashIs;
      EmptyAgrees(links, st, n);
      table := new Crec?[n](_ => null);
      links := links.(buckets := table[..]);
      assert table[..] == seq(n, i => null);
      st := EmptyTable(st, n);
    }

    lemma TableIs()
      requires Valid()
      ensures Agree(links, st) && table[..] == links.buckets && |links.buckets| == |st.chains|
    {
      hide Sep, Targets, Vals, NextIs, PrevIs, HashIs;
      AgreeSize(links, st);
    }

    lemma NextHash(c: Crec)
      requires Valid() && c in nodes
      ensures c in links.hashNext && links.hashNext[c] == c.hashNext
    {
      hide Sep, Agree, Targets, Vals;
      HashFieldAre(c);
    }

    lemma HashKnown()
      requires Valid()
      ensures forall x :: x in st.recs ==> x in links.hashNext
    {
      hide Sep, Agree, Targets;
    }

    // ---------- cache_init, and the pointers between CNAMEs ----------

    constructor (size: nat, h: string -> nat)
      ensures Valid() && Idle(st) && fresh(nodes) && fresh(table) && |st.lru| == size
      ensures Distinct(Reverse(st.lru)) && st == Init(Reverse(st.lru), BLANK, h)
    {
      var n := NewSize(size);
      head, tail, newChain := null, null, null;
      table := new Crec?[n](_ => null);
      hash, uid, insertError, bigFree, bigLeft := h, 0, false, 0, size / 10;
      nodes := {};
      st := PoolOf([], h, size);
      links := Links(map[], map[], map[], null, null, null, seq(n, i => null));
      new;
      hide Valid, Distinct, Idle, Init, PoolOf, Reverse;
      EmptyValid(size);
      FillPool(size);
    }

    // The loop of cache_init.
    method FillPool(size: nat)
      requires Valid() && nodes == {} && st == PoolOf([], hash, size)
      modifies this`nodes, this`st, this`links, this`uid, this`head, this`tail
      ensures Valid() && Idle(st) && fresh(nodes) && |st.lru| == size
      ensures Distinct(Reverse(st.lru)) && st == Init(Reverse(st.lru), BLANK, hash)
    {
      hide Valid, Distinct, Idle, Init, PoolOf, Reverse;
      ghost var pool: seq<Crec> := [];
      assert Distinct(pool) by { NoneTwice(); }
      var i := 0;
      while i < size
        invariant Valid() && 0 <= i <= size && |pool| == i && Distinct(pool) && st == PoolOf(pool, hash, size)
        invariant fresh(nodes)
      {
        var c := new Crec();
        NotInPool(c, pool, hash, size);
        Admit(c);
        Link(c);
        PoolSnoc(pool, c, hash, size);
        pool := pool + [c];
        i := i + 1;
      }
      PoolIsInit(pool, hash, size);
    }

    static method NewSize(size: nat) returns (n: nat)
      ensures n == TableSize(64, size)
    {
      hide TableSize;
      n := 64;
      TableGrows(n, size);
      while n < size / 10
        invariant n > 0 && TableSize(n, size) == TableSize(64, size)
        decreases size - n
      {
        TableGrows(n, size);
        n := 2 * n;
      }
      TableGrows(n, size);
    }

    lemma EmptyValid(size: nat)
      requires nodes == {} && st == PoolOf([], hash, size) && table[..] == seq(TableSize(64, size), i => null)
      requires head == null && tail == null && newChain == null && uid == 0 && !insertError && bigFree == 0
      requires bigLeft == size / 10
      requires links == Links(map[], map[], map[], null, null, null, seq(TableSize(64, size), i => null))
      ensures Valid()
    {
      hide TableSize;
    }

    lemma NotInPool(c: Crec, pool: seq<Crec>, h: string -> nat, size: nat)
      requires Valid() && c !in nodes && st == PoolOf(pool, h, size)
      ensures c !in pool && c !in st.recs
    {
      hide Sep, Agree, Targets, Mirror;
    }

    // A record the cache did not have before gets the next uid.
    method Admit(c: Crec)
      requires Valid() && c !in nodes && c.Val() == BLANK
      modifies this`nodes, this`st, this`links, this`uid, c`uid
      ensures Valid() && nodes == old(nodes) + {c}
      ensures st == old(st).(recs := old(st).recs[c := BLANK.(uid := old(st).uid)], uid := old(st).uid + 1)
      ensures c !in st.lru && c !in st.pending
    {
      hide Sep, Agree, Targets, Mirror, Vals, LinksIn, ValsIn;
      MirrorParts();
      AdmitOk(links, st, c, BLANK.(uid := uid), c.next, c.prev, c.hashNext);
      GiveUid(c, nodes, links, st.recs);
      Adopt(c, BLANK.(uid := st.uid));
    }

    // The records known are those before, and c.
    ghost method Adopt(c: Crec, r: Rec)
      requires c !in nodes && c.Val() == r && LinksIn(nodes, links) && ValsIn(nodes, st.recs) && nodes == st.recs.Keys
      requires links.head == head && links.tail == tail && links.newChain == newChain && table[..] == links.buckets
      requires uid == st.uid + 1 && insertError == st.insertError && bigFree == st.bigFree && bigLeft == st.bigLeft
      requires hash == st.hash
      modifies this`nodes, this`st, this`links
      ensures Mirror() && Contents() && nodes == old(nodes) + {c}
      ensures st == old(st).(recs := old(st).recs[c := r], uid := uid)
      ensures links == old(links).(next := old(links).next[c := c.next], prev := old(links).prev[c := c.prev],
          hashNext := old(links).hashNext[c := c.hashNext])
    {
      hide Mirror, Vals, LinksIn, ValsIn;
      ghost var nodes0, recs0, links0 := nodes, st.recs, links;
      nodes := nodes + {c};
      st := st.(recs := st.recs[c := r], uid := uid);
      links := links.(next := links.next[c := c.next], prev := links.prev[c := c.prev],
          hashNext := links.hashNext[c := c.hashNext]);
      AdmitMirror(nodes0, c, links0);
      AdmitVals(nodes0, c, recs0, r);
    }

    method GiveUid(c: Crec, ghost ns: set<Crec>, ghost l: Links, ghost recs: map<Crec, Rec>)
      requires c.Val() == BLANK && c !in ns && LinksIn(ns, l) && ValsIn(ns, recs)
      modifies this`uid, c`uid
      ensures uid == old(uid) + 1 && c.Val() == BLANK.(uid := old(uid))
      ensures LinksIn(ns, l) && ValsIn(ns, recs)
    {
      hide LinksIn, ValsIn;
      c.uid := uid;
      uid := uid + 1;
    }

    // The pointers of some records are those of the links, and their fields those of recs.
    static ghost predicate LinksIn(ns: set<Crec>, l: Links)
      reads ns`next, ns`prev, ns`hashNext
    {
      && (forall x :: x in ns ==> x in l.next && l.next[x] == x.next)
      && (forall x :: x in ns ==> x in l.prev && l.prev[x] == x.prev)
      && (forall x :: x in ns ==> x in l.hashNext && l.hashNext[x] == x.hashNext)
    }

    static ghost predicate ValsIn(ns: set<Crec>, recs: map<Crec, Rec>)
      reads ns`flags, ns`name, ns`addr, ns`ttd, ns`uid, ns`target, ns`targetUid
    {
      forall x :: x in ns ==> x in recs && x.Val() == recs[x]
    }

    lemma MirrorParts()
      requires Mirror() && Vals(st.recs)
      ensures links.head == head && links.tail == tail && links.newChain == newChain && table[..] == links.buckets
      ensures LinksIn(nodes, links) && ValsIn(nodes, st.recs) && nodes == st.recs.Keys
    {
    }

    // Mirror and Vals for the records known before, and c.
    lemma AdmitMirror(before: set<Crec>, c: Crec, l: Links)
      requires nodes == before + {c} && l.head == head && l.tail == tail && l.newChain == newChain
      requires table[..] == l.buckets && LinksIn(before, l)
      requires links == l.(next := l.next[c := c.next], prev := l.prev[c := c.prev],
          hashNext := l.hashNext[c := c.hashNext])
      ensures Mirror()
    {
    }

    lemma AdmitVals(before: set<Crec>, c: Crec, recs: map<Crec, Rec>, r: Rec)
      requires c !in recs && before == recs.Keys && nodes == before + {c} && c.Val() == r && ValsIn(before, recs)
      ensures Vals(recs[c := r])
    {
    }

    // cpp->addr.cname.cache = newc
    method LinkCname(cpp: Crec, newc: Crec)
      requires Valid() && cpp in st.recs && newc in st.recs && Cached(st.recs[cpp]) && Cached(st.recs[newc])
      modifies this`st, nodes`target, nodes`targetUid
      ensures Valid() && links == old(links) && st == CacheCommit.LinkCname(old(st), cpp, newc)
    {
      hide Sep, Agree, Targets, Mirror, Vals;
      NodesAre();
      FlagsAre(newc);
      PointSep(links, st, cpp, newc);
      SetTarget(cpp, newc, st.recs);
      st := CacheCommit.LinkCname(st, cpp, newc);
    }

    method SetTarget(cpp: Crec, newc: Crec, ghost recs: map<Crec, Rec>)
      requires Vals(recs) && cpp in nodes && newc in nodes
      modifies cpp`target, cpp`targetUid
      ensures Vals(recs[cpp := recs[cpp].(target := newc, targetUid := recs[newc].uid)])
    {
      cpp.target := newc;
      cpp.targetUid := newc.uid;
    }

    // One record found in a reply; cpp is the CNAME that waits for its target.
    method InsertOne(it: Item, now: int, cpp: Crec?) returns (next: Crec?)
      requires Valid() && Wf(st) && TxnInv(st) && PendingLocal(st) && InsertFlags(it.flags)
      requires cpp != null ==> cpp in st.pending
      modifies this`head, this`tail, this`newChain, this`uid, this`bigFree, this`bigLeft, this`insertError, this`st
      modifies this`links, table, nodes`next, nodes`prev, nodes`hashNext, nodes`flags, nodes`uid, nodes`name
      modifies nodes`addr, nodes`ttd, nodes`target, nodes`targetUid
      ensures Valid() && (st, next) == InsertItem(old(st), it, now, cpp)
    {
      hide Valid, Wf, Inv, TxnInv, PendingLocal, InsertItem, Insert, CacheCommit.LinkCname;
      ItemIs(st, it, now, cpp);
      TxnIsInv(st);
      var newc;
      ghost var why;
      newc, why := CacheInsertRecord(it.name, it.addr, now, it.ttl, it.flags, it.malloc);
      if newc != null && cpp != null {
        LinkCname(cpp, newc);
      }
      next := if it.flags.cname then newc else null;
    }

    // One transaction of the caller in rfc1035.c: cache_start_insert, cache_insert for each
    // record found, with the pointers between CNAMEs, and cache_end_insert.
    method Transact(items: seq<Item>, now: int, commit: bool)
      requires Valid() && Idle(st) && forall i :: 0 <= i < |items| ==> InsertFlags(items[i].flags)
      modifies this`head, this`tail, this`newChain, this`uid, this`bigFree, this`bigLeft, this`insertError, this`st
      modifies this`links, table
      modifies nodes`next, nodes`prev, nodes`hashNext, nodes`flags, nodes`uid, nodes`name, nodes`addr, nodes`ttd
      modifies nodes`target, nodes`targetUid
      ensures Valid() && Idle(st) && st == Transaction(old(st), items, now, commit)
    {
      hide Valid, Inv, TxnInv, PendingLocal, StartInsert, InsertAll, InsertFrom, InsertItem, EndInsert, BigNames;
      IdleStart(st, items, now, commit);
      TransactionIdle(st, items, now, commit);
      CacheStartInsert();
      var cpp: Crec? := null;
      var i := 0;
      InsertNone(st, items, now, null);
      while i < |items|
        invariant Valid() && 0 <= i <= |items| && Wf(st) && TxnInv(st) && PendingLocal(st)
        invariant (cpp != null ==> cpp in st.pending)
        invariant InsertFrom(st, items, i, now, cpp) == InsertAll(StartInsert(old(st)), items, now, null)
      {
        InsertUnroll(st, items, i, now, cpp);
        cpp := InsertOne(items[i], now, if items[i].first then null else cpp);
        i := i + 1;
      }
      InsertDone(st, items, now, cpp);
      TxnIsInv(st);
      if commit {
        CacheEndInsert();
      }
    }
  }
}
