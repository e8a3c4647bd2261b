// The link fields of the records as values: where next, prev and hash_next of every
// record point, and the list heads. Agree says that they spell out the sequences of
// the abstract state; each lemma is about the writes of one pointer operation.
module CacheLinks {
  import opened CacheState

  type Field = map<Crec, Crec?>

  datatype Links = Links(next: Field, prev: Field, hashNext: Field, head: Crec?, tail: Crec?, newChain: Crec?,
      buckets: seq<Crec?>)

  function At(s: seq<Crec>, i: int): Crec? {
    if 0 <= i < |s| then s[i] else null
  }

  lemma AtIs(s: seq<Crec>, i: nat)
    requires i < |s|
    ensures At(s, i) == s[i]
  {
  }

  // The field leads from first through all of s.
  ghost predicate Leads(f: Field, first: Crec?, s: seq<Crec>) {
    first == At(s, 0) && forall i :: 0 <= i < |s| ==> s[i] in f && f[s[i]] == At(s, i + 1)
  }

  // The field leads from last backwards through all of s.
  ghost predicate LeadsBack(f: Field, last: Crec?, s: seq<Crec>) {
    last == At(s, |s| - 1) && forall i :: 0 <= i < |s| ==> s[i] in f && f[s[i]] == At(s, i - 1)
  }

  // Write v to the field of p, or to the list head when p is null.
  function Set(f: Field, p: Crec?, v: Crec?): Field {
    if p == null then f else f[p := v]
  }

  // ---------- one list ----------

  lemma LeadsFrame(f: Field, first: Crec?, s: seq<Crec>, p: Crec?, v: Crec?)
    requires Leads(f, first, s) && (p != null ==> p !in s)
    ensures Leads(Set(f, p, v), first, s)
  {
  }

  // RemoveAt by index.
  lemma RemoveAtIndex<T>(s: seq<T>, k: nat)
    requires k < |s|
    ensures |RemoveAt(s, k)| == |s| - 1
    ensures forall i :: 0 <= i < |s| - 1 ==> RemoveAt(s, k)[i] == s[if i < k then i else i + 1]
  {
  }

  lemma LeadsRemove(f: Field, first: Crec?, s: seq<Crec>, k: nat)
    requires Leads(f, first, s) && Distinct(s) && k < |s|
    ensures var p := At(s, k as int - 1);
            Leads(Set(f, p, At(s, k + 1)), if p == null then At(s, k + 1) else first, RemoveAt(s, k))
  {
    hide RemoveAt;
    var r, p := RemoveAt(s, k), At(s, k as int - 1);
    var g := Set(f, p, At(s, k + 1));
    RemoveAtIndex(s, k);
    forall i | 0 <= i < |r|
      ensures r[i] in g && g[r[i]] == At(r, i + 1)
    {
      if i != k as int - 1 { assert p != r[i]; }
    }
  }

  lemma LeadsBackRemove(f: Field, last: Crec?, s: seq<Crec>, k: nat)
    requires LeadsBack(f, last, s) && Distinct(s) && k < |s|
    ensures var n := At(s, k + 1);
            LeadsBack(Set(f, n, At(s, k as int - 1)), if n == null then At(s, k as int - 1) else last, RemoveAt(s, k))
  {
    hide RemoveAt;
    var r, n := RemoveAt(s, k), At(s, k + 1);
    RemoveAtIndex(s, k);
    forall i | 0 <= i < |r|
      ensures r[i] in Set(f, n, At(s, k as int - 1)) && Set(f, n, At(s, k as int - 1))[r[i]] == At(r, i - 1)
    {
      LeadsBackAt(f, last, s, k, r, i);
    }
  }

  // The field of entry i of r, which is s without entry k.
  lemma LeadsBackAt(f: Field, last: Crec?, s: seq<Crec>, k: nat, r: seq<Crec>, i: nat)
    requires LeadsBack(f, last, s) && Distinct(s) && k < |s| && i < |r| == |s| - 1
    requires forall j :: 0 <= j < |r| ==> r[j] == s[if j < k then j else j + 1]
    ensures var g := Set(f, At(s, k + 1), At(s, k as int - 1)); r[i] in g && g[r[i]] == At(r, i - 1)
  {
    if i == k {
      assert r[i] == s[k + 1] && At(r, i - 1) == At(s, k as int - 1);
    } else {
      var j := if i < k then i else i + 1;
      assert r[i] == s[j] && At(s, k + 1) != s[j] && At(r, i - 1) == At(s, j - 1);
    }
  }

  // Insert x at position k: x leads on to entry k, and its predecessor leads to x.
  lemma LeadsInsert(f: Field, first: Crec?, s: seq<Crec>, k: nat, x: Crec)
    requires Leads(f, first, s) && Distinct(s) && x !in s && k <= |s|
    ensures var p := At(s, k - 1);
            Leads(Set(f[x := At(s, k)], p, x), if p == null then x else first, InsertAt(s, k, x))
  {
    var r, p := InsertAt(s, k, x), At(s, k - 1);
    var g := Set(f[x := At(s, k)], p, x);
    forall i | 0 <= i < |r|
      ensures r[i] in g && g[r[i]] == At(r, i + 1)
    {
      assert r[i] == if i < k then s[i] else if i == k then x else s[i - 1];
    }
  }

  lemma LeadsBackInsert(f: Field, last: Crec?, s: seq<Crec>, k: nat, x: Crec)
    requires LeadsBack(f, last, s) && Distinct(s) && x !in s && k <= |s|
    ensures var n := At(s, k);
            LeadsBack(Set(f[x := At(s, k - 1)], n, x), if n == null then x else last, InsertAt(s, k, x))
  {
    var r, n := InsertAt(s, k, x), At(s, k);
    var g := Set(f[x := At(s, k - 1)], n, x);
    forall i | 0 <= i < |r|
      ensures r[i] in g && g[r[i]] == At(r, i - 1)
    {
      assert r[i] == if i < k then s[i] else if i == k then x else s[i - 1];
    }
  }

  // ---------- all lists ----------

  // What keeps the links of one structure apart from those of another.
  ghost predicate Sep(st: State) {
    && |st.chains| > 0
    && Distinct(st.lru) && Distinct(st.pending)
    && (forall c :: c in st.lru ==> c in st.recs && c !in st.pending)
    && (forall c :: c in st.pending ==> c in st.recs)
    && (forall b :: 0 <= b < |st.chains| ==> Distinct(st.chains[b]))
    && (forall b, c :: 0 <= b < |st.chains| && c in st.chains[b] ==> c in st.recs && Bucket(st, st.recs[c].name) == b)
  }

  // CNAME pointers only ever point at pool records.
  ghost predicate Targets(recs: map<Crec, Rec>) {
    forall c :: c in recs && recs[c].target != null ==> recs[c].target in recs && Cached(recs[recs[c].target])
  }

  lemma TargetsUpdate(recs: map<Crec, Rec>, c: Crec, r: Rec)
    requires Targets(recs) && c in recs && Cached(recs[c]) && Cached(r)
    requires r.target != null ==> r.target in recs && Cached(recs[r.target])
    ensures Targets(recs[c := r])
  {
  }

  ghost predicate Agree(l: Links, st: State) {
    && Leads(l.next, l.head, st.lru) && LeadsBack(l.prev, l.tail, st.lru)
    && Leads(l.next, l.newChain, st.pending)
    && |l.buckets| == |st.chains|
    && (forall b :: 0 <= b < |st.chains| ==> Leads(l.hashNext, l.buckets[b], st.chains[b]))
  }

  // Sep survives a change of the lists that keeps or drops their members.
  lemma SepLists(st: State, t: State)
    requires Sep(st) && t == st.(lru := t.lru, pending := t.pending)
    requires Distinct(t.lru) && Distinct(t.pending)
    requires forall c :: c in t.lru ==> c in st.recs && c !in t.pending
    requires forall c :: c in t.pending ==> c in st.recs
    ensures Sep(t)
  {
  }

  lemma SepFacts(st: State)
    requires Sep(st)
    ensures Distinct(st.lru) && Distinct(st.pending)
    ensures forall c :: c in st.lru ==> c in st.recs && c !in st.pending
    ensures forall c :: c in st.pending ==> c in st.recs
  {
  }

  lemma AgreeFacts(l: Links, st: State)
    requires Agree(l, st)
    ensures Leads(l.next, l.head, st.lru) && LeadsBack(l.prev, l.tail, st.lru) && Leads(l.next, l.newChain, st.pending)
  {
  }

  lemma AgreeLists(l: Links, st: State, m: Links, t: State)
    requires Agree(l, st) && m.hashNext == l.hashNext && m.buckets == l.buckets && t.chains == st.chains
    requires Leads(m.next, m.head, t.lru) && LeadsBack(m.prev, m.tail, t.lru) && Leads(m.next, m.newChain, t.pending)
    ensures Agree(m, t)
  {
  }

  // cache_unlink: c.prev.next (or the head), then c.next.prev (or the tail).
  function UnlinkLinks(l: Links, c: Crec): Links
    requires c in l.next && c in l.prev
  {
    var p, n := l.prev[c], l.next[c];
    l.(next := Set(l.next, p, n), head := if p == null then n else l.head,
       prev := Set(l.prev, n, p), tail := if n == null then p else l.tail)
  }

  lemma Neighbours(l: Links, s: seq<Crec>, c: Crec)
    requires Leads(l.next, l.head, s) && LeadsBack(l.prev, l.tail, s) && c in s
    ensures c in l.next && c in l.prev
    ensures l.prev[c] == At(s, IndexOf(s, c) as int - 1) && l.next[c] == At(s, IndexOf(s, c) + 1)
    ensures forall i :: At(s, i) != null ==> At(s, i) in s
  {
  }

  lemma UnlinkAgrees(l: Links, st: State, c: Crec)
    requires Sep(st) && Agree(l, st) && c in st.lru
    ensures c in l.next && c in l.prev
    ensures Sep(Unlink(st, c)) && Agree(UnlinkLinks(l, c), Unlink(st, c)) && c !in Unlink(st, c).lru
  {
    hide Sep, Agree, Leads, LeadsBack, Distinct, RemoveAt, IndexOf, At;
    SepFacts(st);
    AgreeFacts(l, st);
    var k: int := IndexOf(st.lru, c);
    Neighbours(l, st.lru, c);
    LeadsRemove(l.next, l.head, st.lru, k);
    LeadsBackRemove(l.prev, l.tail, st.lru, k);
    LeadsFrame(l.next, l.newChain, st.pending, l.prev[c], l.next[c]);
    RemoveAtDistinct(st.lru, k);
    SepLists(st, Unlink(st, c));
    AgreeLists(l, st, UnlinkLinks(l, c), Unlink(st, c));
  }

  // cache_link: c becomes the head.
  function LinkLinks(l: Links, c: Crec): Links {
    l.(prev := Set(l.prev[c := null], l.head, c), next := l.next[c := l.head], head := c,
       tail := if l.tail == null then c else l.tail)
  }

  lemma InsertFirst<T>(s: seq<T>, x: T)
    ensures InsertAt(s, 0, x) == [x] + s
  {
  }

  lemma InsertLast<T>(s: seq<T>, x: T)
    ensures InsertAt(s, |s|, x) == s + [x]
  {
  }

  lemma LinkAgrees(l: Links, st: State, c: Crec)
    requires Sep(st) && Agree(l, st) && c !in st.lru && c in st.recs && c !in st.pending
    ensures Sep(Link(st, c)) && Agree(LinkLinks(l, c), Link(st, c))
  {
    hide Sep, Agree, Distinct, InsertAt;
    SepFacts(st);
    AgreeFacts(l, st);
    LeadsInsert(l.next, l.head, st.lru, 0, c);
    LeadsBackInsert(l.prev, l.tail, st.lru, 0, c);
    InsertFirst(st.lru, c);
    InsertAtDistinct(st.lru, 0, c);
    LeadsFrame(l.next, l.newChain, st.pending, c, l.head);
    SepLists(st, Link(st, c));
    hide Leads, LeadsBack;
    AgreeLists(l, st, LinkLinks(l, c), Link(st, c));
  }

  // The list part of cache_free: c becomes the tail.
  function AppendLinks(l: Links, c: Crec): Links {
    l.(next := Set(l.next[c := null], l.tail, c), prev := l.prev[c := l.tail], tail := c,
       head := if l.tail == null then c else l.head)
  }

  lemma AppendAgrees(l: Links, st: State, c: Crec)
    requires Sep(st) && Agree(l, st) && c !in st.lru && c in st.recs && c !in st.pending
    ensures Sep(st.(lru := st.lru + [c])) && Agree(AppendLinks(l, c), st.(lru := st.lru + [c]))
  {
    hide Sep, Agree, Distinct, InsertAt;
    SepFacts(st);
    AgreeFacts(l, st);
    var n := |st.lru|;
    LeadsInsert(l.next, l.head, st.lru, n, c);
    LeadsBackInsert(l.prev, l.tail, st.lru, n, c);
    InsertLast(st.lru, c);
    InsertAtDistinct(st.lru, n, c);
    LeadsFrame(l.next, l.newChain, st.pending, c, null);
    assert l.tail != null ==> l.tail in st.lru;
    LeadsFrame(l.next[c := null], l.newChain, st.pending, l.tail, c);
    SepLists(st, st.(lru := st.lru + [c]));
    AgreeLists(l, st, AppendLinks(l, c), st.(lru := st.lru + [c]));
  }

  // Entry i of chain b is bypassed.
  function UnhashLinks(l: Links, b: nat, up: Crec?, c: Crec): Links
    requires b < |l.buckets| && c in l.hashNext
  {
    l.(hashNext := Set(l.hashNext, up, l.hashNext[c]),
       buckets := if up == null then l.buckets[b := l.hashNext[c]] else l.buckets)
  }

  // Chain b, and that no other chain shares a record with it.
  lemma SepChain(st: State, b: nat)
    requires Sep(st) && b < |st.chains|
    ensures Distinct(st.chains[b]) && (forall c :: c in st.chains[b] ==> c in st.recs)
    ensures forall d, c :: 0 <= d < |st.chains| && d != b && c in st.chains[d] ==> c !in st.chains[b] && c in st.recs
  {
  }

  lemma AgreeChain(l: Links, st: State, b: nat)
    requires Agree(l, st) && b < |st.chains|
    ensures b < |l.buckets| && Leads(l.hashNext, l.buckets[b], st.chains[b])
  {
  }

  // A write to the hash_next of p, which is in chain b or in none.
  lemma AgreeChains(l: Links, st: State, m: Links, t: State, b: nat)
    requires Agree(l, st) && b < |st.chains| && t.lru == st.lru && t.pending == st.pending
    requires m == l.(hashNext := m.hashNext, buckets := m.buckets) && |m.buckets| == |l.buckets|
    requires |t.chains| == |st.chains|
    requires forall d :: 0 <= d < |st.chains| && d != b ==> m.buckets[d] == l.buckets[d] && t.chains[d] == st.chains[d]
    requires Leads(m.hashNext, m.buckets[b], t.chains[b])
    requires forall d, c :: 0 <= d < |st.chains| && d != b && c in st.chains[d] && c in l.hashNext ==>
        c in m.hashNext && m.hashNext[c] == l.hashNext[c]
    ensures Agree(m, t)
  {
    forall d | 0 <= d < |t.chains|
      ensures Leads(m.hashNext, m.buckets[d], t.chains[d])
    {
      if d != b {
        assert Leads(l.hashNext, l.buckets[d], st.chains[d]);
        forall i | 0 <= i < |st.chains[d]|
          ensures st.chains[d][i] in m.hashNext && m.hashNext[st.chains[d][i]] == l.hashNext[st.chains[d][i]]
        {
          assert st.chains[d][i] in st.chains[d];
        }
      }
    }
  }

  lemma SepChains(st: State, t: State, b: nat)
    requires Sep(st) && b < |st.chains| && |t.chains| == |st.chains| && t == st.(chains := st.chains[b := t.chains[b]])
    requires Distinct(t.chains[b]) && forall c :: c in t.chains[b] ==> c in st.recs && Bucket(st, st.recs[c].name) == b
    ensures Sep(t)
  {
  }

  lemma SepBucket(st: State, b: nat)
    requires Sep(st) && b < |st.chains|
    ensures forall c :: c in st.chains[b] ==> c in st.recs && Bucket(st, st.recs[c].name) == b
  {
  }

  lemma UnhashAgrees(l: Links, st: State, b: nat, i: nat)
    requires Sep(st) && Agree(l, st) && b < |st.chains| && i < |st.chains[b]|
    ensures b < |l.buckets|
    ensures var c := st.chains[b][i]; c in l.hashNext && l.hashNext[c] == At(st.chains[b], i + 1)
    ensures Sep(Unhash(st, b, i))
    ensures Agree(UnhashLinks(l, b, At(st.chains[b], i as int - 1), st.chains[b][i]), Unhash(st, b, i))
  {
    hide Sep, Agree, Distinct, RemoveAt, Bucket;
    var ch := st.chains[b];
    var up, c := At(ch, i as int - 1), ch[i];
    SepChain(st, b);
    SepBucket(st, b);
    AgreeChain(l, st, b);
    LeadsRemove(l.hashNext, l.buckets[b], ch, i);
    RemoveAtDistinct(ch, i);
    SepChains(st, Unhash(st, b, i), b);
    assert up != null ==> up in ch;
    hide Leads;
    AgreeSize(l, st);
    AgreeChains(l, st, UnhashLinks(l, b, up, c), Unhash(st, b, i), b);
  }

  lemma AgreeSize(l: Links, st: State)
    requires Agree(l, st)
    ensures |l.buckets| == |st.chains|
  {
  }

  // x is put into chain b behind up.
  function RehangLinks(l: Links, b: nat, up: Crec?, x: Crec): Links
    requires b < |l.buckets| && (up != null ==> up in l.hashNext)
  {
    var n := if up == null then l.buckets[b] else l.hashNext[up];
    l.(hashNext := Set(l.hashNext[x := n], up, x), buckets := if up == null then l.buckets[b := x] else l.buckets)
  }

  lemma RehangAgrees(l: Links, st: State, b: nat, k: nat, x: Crec)
    requires Sep(st) && Agree(l, st) && b < |st.chains| && k <= |st.chains[b]|
    requires x in st.recs && Bucket(st, st.recs[x].name) == b && x !in st.chains[b]
    ensures b < |l.buckets|
    ensures var up := At(st.chains[b], k as int - 1);
            && (up != null ==> up in l.hashNext)
            && Sep(st.(chains := st.chains[b := InsertAt(st.chains[b], k, x)]))
            && Agree(RehangLinks(l, b, up, x), st.(chains := st.chains[b := InsertAt(st.chains[b], k, x)]))
  {
    hide Sep, Agree, Distinct, InsertAt;
    var ch := st.chains[b];
    var up := At(ch, k as int - 1);
    var t := st.(chains := st.chains[b := InsertAt(ch, k, x)]);
    SepChain(st, b);
    SepBucket(st, b);
    SepElsewhere(st, b, x);
    AgreeChain(l, st, b);
    AgreeSize(l, st);
    assert up != null ==> up in ch;
    assert (if up == null then l.buckets[b] else l.hashNext[up]) == At(ch, k);
    LeadsInsert(l.hashNext, l.buckets[b], ch, k, x);
    InsertAtDistinct(ch, k, x);
    SepChains(st, t, b);
    hide Leads, Bucket;
    AgreeChains(l, st, RehangLinks(l, b, up, x), t, b);
  }

  lemma SepElsewhere(st: State, b: nat, x: Crec)
    requires Sep(st) && x in st.recs && Bucket(st, st.recs[x].name) == b
    ensures forall d :: 0 <= d < |st.chains| && d != b ==> x !in st.chains[d]
  {
  }

  // c leaves or enters new_chain at its head.
  lemma PopPendingAgrees(l: Links, st: State)
    requires Sep(st) && Agree(l, st) && st.pending != []
    ensures st.pending[0] in l.next
    ensures var t := st.(pending := st.pending[1..]);
            && Sep(t) && Agree(l.(newChain := l.next[st.pending[0]]), t)
            && st.pending[0] !in t.lru && st.pending[0] !in t.pending && st.pending[0] in t.recs
  {
    hide Sep, Agree, LeadsBack;
    SepFacts(st);
    AgreeFacts(l, st);
    var t := st.(pending := st.pending[1..]);
    assert st.pending == [st.pending[0]] + t.pending;
    assert forall i :: 0 <= i < |t.pending| ==> t.pending[i] == st.pending[i + 1];
    SepLists(st, t);
    AgreeLists(l, st, l.(newChain := l.next[st.pending[0]]), t);
  }

  lemma PushPendingAgrees(l: Links, st: State, c: Crec)
    requires Sep(st) && Agree(l, st) && c in st.recs && c !in st.lru && c !in st.pending
    ensures var t := st.(pending := [c] + st.pending);
            Sep(t) && Agree(l.(next := l.next[c := l.newChain], newChain := c), t)
  {
    hide Sep, Agree, LeadsBack, Distinct, InsertAt;
    SepFacts(st);
    AgreeFacts(l, st);
    var t := st.(pending := [c] + st.pending);
    LeadsInsert(l.next, l.newChain, st.pending, 0, c);
    InsertAtDistinct(st.pending, 0, c);
    InsertFirst(st.pending, c);
    LeadsFrame(l.next, l.head, st.lru, c, l.newChain);
    SepLists(st, t);
    AgreeLists(l, st, l.(next := l.next[c := l.newChain], newChain := c), t);
  }
}
