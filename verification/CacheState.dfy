// The abstract state of the DNS cache: which records exist, the order of the
// LRU list, the contents of every hash chain, and the records of a transaction
// that is not committed yet.
module CacheState {
  import opened HostNames

  // The bits of crec.flags that decide anything in cache.c.
  datatype Flags = Flags(immortal: bool, reverse: bool, forward: bool, dhcp: bool, neg: bool,
                         hosts: bool, ipv4: bool, ipv6: bool, bigname: bool, cname: bool, nxdomain: bool)
  {
    // (this & other) != 0
    predicate Meets(other: Flags) {
      || (immortal && other.immortal) || (reverse && other.reverse) || (forward && other.forward)
      || (dhcp && other.dhcp) || (neg && other.neg) || (hosts && other.hosts)
      || (ipv4 && other.ipv4) || (ipv6 && other.ipv6) || (bigname && other.bigname)
      || (cname && other.cname) || (nxdomain && other.nxdomain)
    }

    // (this & other & (F_IPV4 | F_IPV6)) != 0
    predicate SameFamily(other: Flags) {
      (ipv4 && other.ipv4) || (ipv6 && other.ipv6)
    }

    // Position of the record's class in a hash chain.
    function Class(): nat {
      if reverse then 0 else if immortal then 2 else 1
    }
  }

  const NO_FLAGS := Flags(false, false, false, false, false, false, false, false, false, false, false)

  type Addr = seq<bv8>

  class Crec {
    var next: Crec?
    var prev: Crec?
    var hashNext: Crec?
    var ttd: int
    var uid: int
    var addr: Addr
    var target: Crec?
    var targetUid: int
    var flags: Flags
    var name: string

    constructor ()
      ensures next == null && prev == null && hashNext == null && Val() == Rec(NO_FLAGS, "", [], 0, 0, null, 0)
    {
      next, prev, hashNext, target := null, null, null, null;
      ttd, uid, targetUid := 0, 0, 0;
      addr, name, flags := [], "", NO_FLAGS;
    }

    ghost function Val(): Rec
      reads this`flags, this`name, this`addr, this`ttd, this`uid, this`target, this`targetUid
    {
      Rec(flags, name, addr, ttd, uid, target, targetUid)
    }
  }

  // The value of a record; the link fields are accounted for by the sequences.
  datatype Rec = Rec(flags: Flags, name: string, addr: Addr, ttd: int, uid: int, target: Crec?, targetUid: int)

  // born numbers the insertions: it is not in the C program, and only serves to
  // show that CNAME pointers cannot form a cycle.
  datatype State = State(recs: map<Crec, Rec>, lru: seq<Crec>, chains: seq<seq<Crec>>, pending: seq<Crec>,
                         uid: int, insertError: bool, hash: string -> nat,
                         bigFree: nat, bigLeft: nat,
                         born: map<Crec, int>, clock: int)

  // ---------- sequences ----------

  ghost predicate Distinct<T>(s: seq<T>) {
    forall i, j :: 0 <= i < j < |s| ==> s[i] != s[j]
  }

  function RemoveAt<T>(s: seq<T>, i: nat): (r: seq<T>)
    requires i < |s|
    ensures |r| == |s| - 1
  {
    s[..i] + s[i + 1..]
  }

  function InsertAt<T>(s: seq<T>, i: nat, x: T): (r: seq<T>)
    requires i <= |s|
    ensures |r| == |s| + 1
  {
    s[..i] + [x] + s[i..]
  }

  function IndexOf<T(==)>(s: seq<T>, x: T): (i: nat)
    requires x in s
    ensures i < |s| && s[i] == x
  {
    if s[0] == x then 0 else 1 + IndexOf(s[1..], x)
  }

  lemma RemoveAtDistinct<T>(s: seq<T>, i: nat)
    requires Distinct(s) && i < |s|
    ensures Distinct(RemoveAt(s, i))
    ensures forall x :: x in RemoveAt(s, i) ==> x in s && x != s[i]
    ensures forall x :: x in s && x != s[i] ==> x in RemoveAt(s, i)
  {
    var r := RemoveAt(s, i);
    assert forall k :: 0 <= k < |r| ==> r[k] == if k < i then s[k] else s[k + 1];
    forall x | x in s && x != s[i]
      ensures x in r
    {
      var k :| 0 <= k < |s| && s[k] == x;
      assert r[if k < i then k else k - 1] == x;
    }
  }

  lemma InsertAtDistinct<T>(s: seq<T>, i: nat, x: T)
    requires Distinct(s) && i <= |s| && x !in s
    ensures Distinct(InsertAt(s, i, x))
    ensures forall y :: y in InsertAt(s, i, x) ==> y in s || y == x
    ensures forall y :: y in s || y == x ==> y in InsertAt(s, i, x)
  {
    var r := InsertAt(s, i, x);
    assert forall k :: 0 <= k < |r| ==> r[k] == if k < i then s[k] else if k == i then x else s[k - 1];
    forall y | y in s
      ensures y in r
    {
      var k :| 0 <= k < |s| && s[k] == y;
      assert r[if k < i then k else k + 1] == y;
    }
    assert r[i] == x;
  }

  // ---------- records ----------

  predicate Cached(r: Rec) { !(r.flags.hosts || r.flags.dhcp) }

  predicate InUse(r: Rec) { r.flags.forward || r.flags.reverse }

  predicate Expired(r: Rec, now: int) { !r.flags.immortal && now >= r.ttd }

  // A CNAME whose target has been freed since the pointer was stored.
  predicate Outdated(recs: map<Crec, Rec>, r: Rec) {
    r.flags.cname && !(r.target != null && r.target in recs && recs[r.target].uid == r.targetUid)
  }

  // hash_size is |chains|; the hash value only depends on the folded name.
  function Bucket(st: State, name: string): (b: nat)
    requires |st.chains| > 0
    ensures b < |st.chains|
  {
    st.hash(Fold(name)) % |st.chains|
  }

  // ---------- well-formedness of the three structures ----------

  ghost predicate ChainOk(st: State, b: nat)
    requires b < |st.chains|
  {
    && Distinct(st.chains[b])
    && forall c :: c in st.chains[b] ==>
         && c in st.recs && c !in st.pending
         && Bucket(st, st.recs[c].name) == b
         && (Cached(st.recs[c]) <==> c in st.lru)
  }

  ghost predicate Wf(st: State) {
    && |st.chains| > 0
    && Distinct(st.lru) && Distinct(st.pending)
    && (forall c :: c in st.lru ==> c in st.recs && c !in st.pending && Cached(st.recs[c]))
    && (forall c :: c in st.pending ==> c in st.recs && Cached(st.recs[c]))
    && (forall b :: 0 <= b < |st.chains| ==> ChainOk(st, b))
  }

  ghost predicate Hashed(st: State, c: Crec)
    requires |st.chains| > 0
  {
    c in st.recs && c in st.chains[Bucket(st, st.recs[c].name)]
  }

  // ---------- the primitive steps ----------

  // cache_unlink
  function Unlink(st: State, c: Crec): State
    requires c in st.lru
  {
    st.(lru := RemoveAt(st.lru, IndexOf(st.lru, c)))
  }

  // cache_link
  function Link(st: State, c: Crec): State {
    st.(lru := [c] + st.lru)
  }

  // cache_free
  function Freed(r: Rec, uid: int): Rec {
    r.(flags := r.flags.(forward := false, reverse := false, bigname := false), uid := uid)
  }

  function Free(st: State, c: Crec): State
    requires c in st.recs
  {
    st.(recs := st.recs[c := Freed(st.recs[c], st.uid)], uid := st.uid + 1, lru := st.lru + [c],
        bigFree := st.bigFree + if st.recs[c].flags.bigname then 1 else 0)
  }

  function Promote(st: State, c: Crec): State
    requires c in st.lru
  {
    Link(Unlink(st, c), c)
  }

  // Take entry i out of chain b.
  function Unhash(st: State, b: nat, i: nat): State
    requires b < |st.chains| && i < |st.chains[b]|
  {
    st.(chains := st.chains[b := RemoveAt(st.chains[b], i)])
  }

  // The removal step shared by every sweep: unhash, and give a pool record back.
  function Drop(st: State, b: nat, i: nat): State
    requires Wf(st) && b < |st.chains| && i < |st.chains[b]|
  {
    var c := st.chains[b][i];
    assert ChainOk(st, b) && c in st.chains[b];
    if Cached(st.recs[c]) then Free(Unlink(Unhash(st, b, i), c), c) else Unhash(st, b, i)
  }

  lemma UnlinkWf(st: State, c: Crec)
    requires Wf(st) && c in st.lru && !Hashed(st, c)
    ensures Wf(Unlink(st, c))
    ensures forall x :: x in Unlink(st, c).lru <==> x in st.lru && x != c
  {
    var t := Unlink(st, c);
    RemoveAtDistinct(st.lru, IndexOf(st.lru, c));
    forall b | 0 <= b < |t.chains|
      ensures ChainOk(t, b)
    {
      assert ChainOk(st, b);
    }
  }

  lemma FreeWf(st: State, c: Crec)
    requires Wf(st) && c in st.recs && c !in st.lru && c !in st.pending && !Hashed(st, c) && Cached(st.recs[c])
    ensures Wf(Free(st, c))
    ensures forall x :: x in Free(st, c).lru <==> x in st.lru || x == c
  {
    var t := Free(st, c);
    forall b | 0 <= b < |t.chains|
      ensures ChainOk(t, b)
    {
      assert ChainOk(st, b);
    }
  }

  lemma UnhashWf(st: State, b: nat, i: nat)
    requires Wf(st) && b < |st.chains| && i < |st.chains[b]|
    ensures Wf(Unhash(st, b, i)) && !Hashed(Unhash(st, b, i), st.chains[b][i])
    ensures forall c :: c != st.chains[b][i] ==> (Hashed(Unhash(st, b, i), c) <==> Hashed(st, c))
  {
    var t := Unhash(st, b, i);
    assert ChainOk(st, b);
    RemoveAtDistinct(st.chains[b], i);
    assert st.chains[b][i] in st.chains[b];
    forall d | 0 <= d < |t.chains|
      ensures ChainOk(t, d)
    {
      assert ChainOk(st, d);
    }
  }

  lemma DropWf(st: State, b: nat, i: nat)
    requires Wf(st) && b < |st.chains| && i < |st.chains[b]|
    ensures Wf(Drop(st, b, i))
    ensures forall c :: c in st.recs ==> (Hashed(Drop(st, b, i), c) <==> Hashed(st, c) && c != st.chains[b][i])
    ensures forall c :: c in Drop(st, b, i).lru <==> c in st.lru
  {
    var c := st.chains[b][i];
    assert ChainOk(st, b) && c in st.chains[b];
    UnhashWf(st, b, i);
    if Cached(st.recs[c]) {
      UnlinkWf(Unhash(st, b, i), c);
      FreeWf(Unlink(Unhash(st, b, i), c), c);
    }
  }
}
