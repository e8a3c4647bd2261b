// Operations on the whole table: rehash, cache_reload, and the records that come
// from hosts files and DHCP leases.
module CacheTables {
  import opened CacheState
  import opened CacheInvariant
  import opened CacheSweep
  import opened CacheCommit
  import opened CacheLookup
  import opened CacheAnswers

  // ---------- hashing one more record ----------

  // A record that HashIn can take: known, not hashed, and a pool record exactly if cached.
  ghost predicate Hashable(st: State, c: Crec)
    requires Wf(st)
  {
    c in st.recs && !Hashed(st, c) && c !in st.pending && (Cached(st.recs[c]) <==> c in st.lru)
  }

  lemma HashInWf(st: State, c: Crec)
    requires Wf(st) && Hashable(st, c)
    ensures var t := HashIn(st, c);
            && Wf(t) && t == st.(chains := t.chains) && |t.chains| == |st.chains|
            && (forall x :: x in st.recs && Hashed(t, x) ==> Hashed(st, x) || x == c)
            && (forall x :: x in st.recs && Hashed(st, x) ==> Hashed(t, x))
            && Hashed(t, c)
  {
    var t := HashIn(st, c);
    var b := Bucket(st, st.recs[c].name);
    ChainRecs(st, b);
    assert ChainOk(st, b);
    InsertAtDistinct(st.chains[b], HashPos(st.recs, st.chains[b], st.recs[c].flags), c);
    forall d | 0 <= d < |t.chains|
      ensures ChainOk(t, d)
    {
      assert ChainOk(st, d);
    }
  }

  lemma HashInOrdered(st: State, c: Crec)
    requires Wf(st) && c in st.recs && ChainsOrdered(st)
    ensures ChainsOrdered(HashIn(st, c))
  {
    var t := HashIn(st, c);
    var b := Bucket(st, st.recs[c].name);
    ChainRecs(st, b);
    OrderedInsert(st.recs, st.chains[b], c);
    forall d | 0 <= d < |t.chains|
      ensures Ordered(t.recs, t.chains[d])
    {
      assert Ordered(st.recs, st.chains[d]);
    }
  }

  // ---------- rehash ----------

  // The loop over one old chain.
  ghost function HashChain(st: State, ch: seq<Crec>): State
    requires Wf(st) && Distinct(ch) && forall c :: c in ch ==> Hashable(st, c)
    decreases |ch|
  {
    if ch == [] then st
    else
      HashChainStep(st, ch);
      HashChain(HashIn(st, ch[0]), ch[1..])
  }

  lemma HashChainStep(st: State, ch: seq<Crec>)
    requires Wf(st) && Distinct(ch) && ch != [] && forall c :: c in ch ==> Hashable(st, c)
    ensures Hashable(st, ch[0]) && Wf(HashIn(st, ch[0])) && Distinct(ch[1..])
    ensures forall c :: c in ch[1..] ==> Hashable(HashIn(st, ch[0]), c)
  {
    assert ch[0] in ch;
    HashInWf(st, ch[0]);
    HeadNotInTail(ch);
    forall c | c in ch[1..]
      ensures Hashable(HashIn(st, ch[0]), c)
    {
      assert c in ch && Hashable(st, c);
    }
  }

  lemma {:induction false} HashChainOk(st: State, ch: seq<Crec>)
    requires Wf(st) && Distinct(ch) && ChainsOrdered(st) && forall c :: c in ch ==> Hashable(st, c)
    ensures var t := HashChain(st, ch);
            && Wf(t) && ChainsOrdered(t) && t == st.(chains := t.chains) && |t.chains| == |st.chains|
            && (forall x :: x in st.recs && Hashed(t, x) ==> Hashed(st, x) || x in ch)
            && (forall x :: x in st.recs && (Hashed(st, x) || x in ch) ==> Hashed(t, x))
    decreases |ch|
  {
    if ch != [] {
      HashChainStep(st, ch);
      HashInWf(st, ch[0]);
      HashInOrdered(st, ch[0]);
      hide HashIn, Ordered, ChainOk;
      HashChainOk(HashIn(st, ch[0]), ch[1..]);
      assert ch == [ch[0]] + ch[1..];
    }
  }

  ghost predicate AllHashable(st: State, chains: seq<seq<Crec>>)
    requires Wf(st)
  {
    && (forall b :: 0 <= b < |chains| ==> Distinct(chains[b]) && forall c :: c in chains[b] ==> Hashable(st, c))
    && (forall b, d, c :: 0 <= b < d < |chains| && c in chains[b] ==> c !in chains[d])
  }

  ghost function HashTable(st: State, chains: seq<seq<Crec>>): State
    requires Wf(st) && ChainsOrdered(st) && AllHashable(st, chains)
    decreases |chains|
  {
    if chains == [] then st
    else
      HashTableStep(st, chains);
      HashTable(HashChain(st, chains[0]), chains[1..])
  }

  lemma HashTableStep(st: State, chains: seq<seq<Crec>>)
    requires Wf(st) && ChainsOrdered(st) && AllHashable(st, chains) && chains != []
    ensures var t := HashChain(st, chains[0]);
            && Wf(t) && ChainsOrdered(t) && AllHashable(t,
                chains[1..]) && t == st.(chains := t.chains) && |t.chains| == |st.chains|
            && (forall x :: x in st.recs && Hashed(t, x) ==> Hashed(st, x) || x in chains[0])
            && (forall x :: x in st.recs && (Hashed(st, x) || x in chains[0]) ==> Hashed(t, x))
  {
    HashChainOk(st, chains[0]);
    hide HashChain, Ordered, ChainOk, Distinct;
    var t, r := HashChain(st, chains[0]), chains[1..];
    forall b | 0 <= b < |r|
      ensures Distinct(r[b]) && forall c :: c in r[b] ==> Hashable(t, c)
    {
      assert r[b] == chains[b + 1];
    }
  }

  ghost predicate InSome(chains: seq<seq<Crec>>, x: Crec) {
    exists b :: 0 <= b < |chains| && x in chains[b]
  }

  lemma {:induction false} HashTableOk(st: State, chains: seq<seq<Crec>>)
    requires Wf(st) && ChainsOrdered(st) && AllHashable(st, chains)
    ensures var t := HashTable(st, chains);
            && Wf(t) && ChainsOrdered(t) && t == st.(chains := t.chains) && |t.chains| == |st.chains|
            && (forall x :: x in st.recs && Hashed(t, x) ==> Hashed(st, x) || InSome(chains, x))
            && (forall x :: x in st.recs && (Hashed(st, x) || InSome(chains, x)) ==> Hashed(t, x))
    decreases |chains|
  {
    if chains != [] {
      HashTableStep(st, chains);
      hide HashChain, ChainsOrdered, ChainOk, Distinct, AllHashable;
      HashTableOk(HashChain(st, chains[0]), chains[1..]);
      forall x | x in st.recs
        ensures InSome(chains, x) ==> x in chains[0] || InSome(chains[1..], x)
        ensures x in chains[0] || InSome(chains[1..], x) ==> InSome(chains, x)
      {
        if InSome(chains, x) && x !in chains[0] {
          var b :| 0 <= b < |chains| && x in chains[b];
          assert x in chains[1..][b - 1];
        }
        if InSome(chains[1..], x) {
          var b :| 0 <= b < |chains[1..]| && x in chains[1..][b];
          assert x in chains[b + 1];
        }
      }
    }
  }

  // new_size: the least 64 * 2^k that is not below size / 10.
  function TableSize(n: nat, size: nat): (r: nat)
    requires n > 0
    ensures r >= n && r * 10 + 10 > size
    decreases size - n
  {
    if n < size / 10 then TableSize(2 * n, size) else n
  }

  function Doubled(n: nat, k: nat): nat {
    if k == 0 then n else 2 * Doubled(n, k - 1)
  }

  // It is doubled just as often as needed.
  lemma {:induction false} TableSizeIs(n: nat, size: nat)
    requires n > 0
    ensures TableSize(n, size) >= size / 10
    ensures exists k: nat :: TableSize(n, size) == Doubled(n, k) && (k > 0 ==> Doubled(n, k - 1) < size / 10)
    decreases size - n
  {
    if n < size / 10 {
      TableSizeIs(2 * n, size);
      var k: nat :| TableSize(2 * n, size) == Doubled(2 * n, k) && (k > 0 ==> Doubled(2 * n, k - 1) < size / 10);
      DoubledFirst(n, k);
      if k > 0 {
        DoubledFirst(n, k - 1);
      }
      assert TableSize(n, size) == Doubled(n, k + 1) && Doubled(n, k + 1 - 1) < size / 10;
    } else {
      assert TableSize(n, size) == Doubled(n, 0);
    }
  }

  lemma {:induction false} DoubledFirst(n: nat, k: nat)
    ensures Doubled(2 * n, k) == Doubled(n, k + 1)
  {
    if k > 0 {
      DoubledFirst(n, k - 1);
    }
  }

  ghost function EmptyTable(st: State, n: nat): State {
    st.(chains := seq(n, i => []))
  }

  lemma EmptyWf(st: State, n: nat)
    requires Wf(st) && n > 0
    ensures Wf(EmptyTable(st, n)) && ChainsOrdered(EmptyTable(st, n)) && AllHashable(EmptyTable(st, n), st.chains)
    ensures forall x :: x in st.recs ==> !Hashed(EmptyTable(st, n), x)
  {
    var t := EmptyTable(st, n);
    forall b | 0 <= b < |t.chains|
      ensures ChainOk(t, b)
    {
    }
    forall b | 0 <= b < |st.chains|
      ensures Distinct(st.chains[b]) && forall c :: c in st.chains[b] ==> Hashable(t, c)
    {
      assert ChainOk(st, b);
    }
    forall b, d, c | 0 <= b < d < |st.chains| && c in st.chains[b]
      ensures c !in st.chains[d]
    {
      ChainsDisjoint(st, b, d);
    }
  }

  ghost function Rehash(st: State, size: nat, malloc: bool): State
    requires Wf(st)
  {
    var n := TableSize(64, size);
    if n <= |st.chains| || !malloc then st
    else
      EmptyWf(st, n);
      HashTable(EmptyTable(st, n), st.chains)
  }

  // Rehashing moves every record to the bucket of its name in the new table, in class
  // order, and neither loses nor adds one.
  lemma RehashInv(st: State, size: nat, malloc: bool)
    requires Inv(st)
    ensures var t := Rehash(st, size, malloc);
            && Inv(t) && BigNames(t) == BigNames(st) && Rearranged(st, t) && |st.chains| <= |t.chains|
  {
    hide ChainsOrdered, FreeSuffix, FlagsOk, PoolOk, NoClash, CnamesOk, BigInPool, BigNames, ChainOk, Distinct;
    hide HashTable, EmptyTable, AllHashable, Ordered, TableSize;
    var n := TableSize(64, size);
    if n > |st.chains| && malloc {
      EmptyWf(st, n);
      var e := EmptyTable(st, n);
      HashTableOk(e, st.chains);
      var t := HashTable(e, st.chains);
      assert e == st.(chains := e.chains) && |e.chains| == n by { EmptyShape(st, n); }
      assert Rearranged(st, t) by {
        forall x | x in st.recs
          ensures InSome(st.chains, x) ==> Hashed(st, x)
          ensures Hashed(st, x) ==> InSome(st.chains, x)
        {
          InSomeIsHashed(st, x);
        }
      }
      hide Rearranged, Hashed, InSome;
      RearrangedInv(st, t);
    }
  }

  lemma EmptyShape(st: State, n: nat)
    ensures EmptyTable(st, n) == st.(chains := EmptyTable(st, n).chains) && |EmptyTable(st, n).chains| == n
  {
  }

  lemma InSomeIsHashed(st: State, x: Crec)
    requires Wf(st) && x in st.recs
    ensures InSome(st.chains, x) ==> Hashed(st, x)
    ensures Hashed(st, x) ==> InSome(st.chains, x)
  {
    if InSome(st.chains, x) {
      var b :| 0 <= b < |st.chains| && x in st.chains[b];
      assert ChainOk(st, b);
    }
  }
}
