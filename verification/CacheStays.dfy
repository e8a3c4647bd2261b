// Which entries of a chain a sweep leaves there, told from the state before it.
module CacheStays {
  import opened CacheState
  import opened CacheInvariant
  import opened CacheSweep
  import opened CacheLookup

  // The part of a chain in front of an entry.
  function Front(ch: seq<Crec>, x: Crec): (r: seq<Crec>)
    ensures x in ch ==> |r| < |ch|
  {
    if x in ch then ch[..IndexOf(ch, x)] else ch
  }

  // A record, with the entries in front of it in its chain, stays: it is not one of those
  // to go, has not expired, and if it is a CNAME its target has not been freed since. A
  // CNAME also goes with a target in front of it, which the sweep frees on the way.
  ghost predicate Stays(recs: map<Crec, Rec>, front: seq<Crec>, x: Crec, now: int, goes: Rec -> bool)
    requires x in recs
    decreases |front|
  {
    var r := recs[x];
    && !Dead(recs, r, now) && !goes(r)
    && (r.flags.cname && r.target in front && r.target in recs && Cached(recs[r.target]) ==>
          Stays(recs, Front(front, r.target), r.target, now, goes))
  }

  predicate UidBelow(r: Rec, uid: int) {
    r.flags.cname && r.target != null ==> r.targetUid < uid
  }

  ghost predicate UidsBelow(recs: map<Crec, Rec>, ch: seq<Crec>, uid: int) {
    forall c :: c in ch ==> c in recs && UidBelow(recs[c], uid)
  }

  lemma ChainUids(st: State, b: nat)
    requires Inv(st) && b < |st.chains|
    ensures UidsBelow(st.recs, st.chains[b], st.uid)
  {
    assert ChainOk(st, b);
    forall c | c in st.chains[b] && st.recs[c].flags.cname && st.recs[c].target != null
      ensures st.recs[c].targetUid < st.uid
    {
      assert Hashed(st, c);
      assert Cached(st.recs[c]) && c in st.lru && InUse(st.recs[c]);
      assert InsertFlags(st.recs[c].flags.(bigname := false));
      assert CnamePointer(st, c);
    }
  }

  lemma FrontCons(c: Crec, s: seq<Crec>, x: Crec)
    ensures x in s && x != c ==> Front([c] + s, x) == [c] + Front(s, x)
    ensures Front([c] + s, c) == []
  {
    if x in s && x != c {
      assert ([c] + s)[1..] == s;
      assert IndexOf([c] + s, x) == 1 + IndexOf(s, x);
    }
  }

  lemma FrontMembers(s: seq<Crec>, x: Crec)
    ensures forall y :: y in Front(s, x) ==> y in s
  {
  }

  // What the head of a chain leaves behind when it goes.
  ghost function Without(recs: map<Crec, Rec>, c: Crec, uid: int): map<Crec, Rec>
    requires c in recs
  {
    if Cached(recs[c]) then recs[c := Freed(recs[c], uid)] else recs
  }

  lemma {:induction false} StaysAfterDrop(recs: map<Crec, Rec>, uid: int, c: Crec, front: seq<Crec>, x: Crec, now: int,
                                          goes: Rec -> bool)
    requires c in recs && x in recs && x != c && c !in front && (Dead(recs, recs[c], now) || goes(recs[c]))
    requires UidsBelow(recs, front, uid) && UidBelow(recs[x], uid)
    ensures Stays(recs, [c] + front, x, now, goes) <==> Stays(Without(recs, c, uid), front, x, now, goes)
    decreases |front|
  {
    var t := recs[x].target;
    if recs[x].flags.cname && t != null {
      FrontCons(c, front, t);
      if t in front {
        FrontMembers(front, t);
        StaysAfterDrop(recs, uid, c, Front(front, t), t, now, goes);
      }
    }
  }

  lemma {:induction false} StaysAfterKeep(recs: map<Crec, Rec>, c: Crec, front: seq<Crec>, x: Crec, now: int,
                                          goes: Rec -> bool)
    requires c in recs && x in recs && x != c && c !in front && !Dead(recs, recs[c], now) && !goes(recs[c])
    ensures Stays(recs, [c] + front, x, now, goes) <==> Stays(recs, front, x, now, goes)
    decreases |front|
  {
    var t := recs[x].target;
    if recs[x].flags.cname && t != null {
      FrontCons(c, front, t);
      if t in front {
        FrontMembers(front, t);
        if t in recs {
          StaysAfterKeep(recs, c, Front(front, t), t, now, goes);
        }
      }
    }
  }

  // ---------- the sweep of one bucket ----------

  ghost function Superseded(name: string, flags: Flags): Rec -> bool {
    (r: Rec) => Supersedes(r, name, flags)
  }

  // One step of the sweep.
  lemma ScanForwardStep(st: State, b: nat, i: nat, name: string, now: int, flags: Flags)
    requires Wf(st) && b < |st.chains| && i < |st.chains[b]|
    ensures var c := st.chains[b][i];
      && c in st.recs
      && ScanForward(st, b, i, name, now, flags) ==
           if Dead(st.recs, st.recs[c], now) || (Supersedes(st.recs[c], name, flags) && Cached(st.recs[c])) then
             DropChain(st, b, i); ScanForward(Drop(st, b, i), b, i, name, now, flags)
           else if Supersedes(st.recs[c], name, flags) then (st, false)
           else ScanForward(st, b, i + 1, name, now, flags)
  {
    hide Drop, Dead, Supersedes;
    EntryRec(st, b, i);
    DropWf(st, b, i);
    DropChain(st, b, i);
  }

  lemma {:induction false} ScanForwardPrefix(st: State, b: nat, i: nat, name: string, now: int, flags: Flags)
    requires Wf(st) && b < |st.chains| && i <= |st.chains[b]|
    ensures var t := ScanForward(st, b, i, name, now, flags).0;
      |t.chains| == |st.chains| && i <= |t.chains[b]| && t.chains[b][..i] == st.chains[b][..i]
    decreases |st.chains[b]| - i
  {
    if i < |st.chains[b]| {
      ScanForwardStep(st, b, i, name, now, flags);
      DropChain(st, b, i);
      hide Wf, Drop, Dead, Supersedes, ScanForward;
      var c := st.chains[b][i];
      if Dead(st.recs, st.recs[c], now) || (Supersedes(st.recs[c], name, flags) && Cached(st.recs[c])) {
        ScanForwardPrefix(Drop(st, b, i), b, i, name, now, flags);
      } else if !Supersedes(st.recs[c], name, flags) {
        ScanForwardPrefix(st, b, i + 1, name, now, flags);
        ShorterPrefix(st.chains[b], ScanForward(st, b, i + 1, name, now, flags).0.chains[b], i);
      }
    }
  }

  lemma ShorterPrefix(s: seq<Crec>, t: seq<Crec>, i: nat)
    requires i < |s| && i < |t| && t[..i + 1] == s[..i + 1]
    ensures t[..i] == s[..i]
  {
    assert t[..i + 1][..i] == s[..i + 1][..i];
  }

  lemma PartOf(ch: seq<Crec>, i: nat)
    requires Distinct(ch) && i < |ch|
    ensures ch[i..] == [ch[i]] + ch[i + 1..] && ch[i] !in ch[i + 1..] && ch[i] in ch[..i + 1]
    ensures forall x :: x in ch[i..] ==> x in ch
  {
  }

  lemma PrefixIn(s: seq<Crec>, t: seq<Crec>, i: nat, x: Crec)
    requires i <= |s| && i <= |t| && t[..i] == s[..i] && x in s[..i]
    ensures x in t
  {
    assert x in t[..i];
  }

  lemma InChainHashed(st: State, b: nat, x: Crec)
    requires Wf(st) && b < |st.chains| && x in st.chains[b]
    ensures x in st.recs && Hashed(st, x)
  {
    assert ChainOk(st, b);
  }

  // What is not hashed is not in the chain after the sweep either.
  lemma StillOut(st: State, b: nat, i: nat, x: Crec, name: string, now: int, flags: Flags)
    requires Inv(st) && b < |st.chains| && i <= |st.chains[b]| && x in st.recs && !Hashed(st, x)
    ensures var t := ScanForward(st, b, i, name, now, flags).0; |t.chains| == |st.chains| && x !in t.chains[b]
  {
    hide ChainsOrdered, PoolOk, FreeSuffix, FlagsOk, NoClash, CnamesOk, BigInPool, BigNames, PendingNoClash, Hashed,
        Drop;
    hide ScanForward, Distinct, ChainOk;
    ScanForwardInv(st, b, i, name, now, flags);
    var t := ScanForward(st, b, i, name, now, flags).0;
    if x in t.chains[b] {
      InChainHashed(t, b, x);
    }
  }

  lemma DroppedGone(st: State, b: nat, i: nat, name: string, now: int, flags: Flags)
    requires Inv(st) && b < |st.chains| && i < |st.chains[b]|
    ensures var t, c := Drop(st, b, i), st.chains[b][i];
      && Inv(t) && c in st.recs && t.recs == Without(st.recs, c, st.uid) && t.recs.Keys == st.recs.Keys
      && |t.chains| == |st.chains| && t.chains[b][i..] == st.chains[b][i + 1..] && i <= |t.chains[b]|
      && |ScanForward(t, b, i, name, now, flags).0.chains| == |st.chains|
      && c !in ScanForward(t, b, i, name, now, flags).0.chains[b]
  {
    hide ChainsOrdered, PoolOk, FreeSuffix, FlagsOk, NoClash, CnamesOk, BigInPool, BigNames, PendingNoClash, Hashed,
        Drop;
    hide ScanForward, Distinct, ChainOk;
    DropInv(st, b, i);
    DropRecs(st, b, i);
    DropWf(st, b, i);
    DropChain(st, b, i);
    StillOut(Drop(st, b, i), b, i, st.chains[b][i], name, now, flags);
  }

  lemma ChainDistinct(st: State, b: nat)
    requires Wf(st) && b < |st.chains|
    ensures Distinct(st.chains[b]) && forall x :: x in st.chains[b] ==> x in st.recs
  {
    assert ChainOk(st, b);
  }

  lemma StaysHead(recs: map<Crec, Rec>, x: Crec, s: seq<Crec>, now: int, goes: Rec -> bool)
    requires x in recs
    ensures Stays(recs, Front([x] + s, x), x, now, goes) <==> !Dead(recs, recs[x], now) && !goes(recs[x])
  {
    FrontCons(x, s, x);
  }

  lemma UidsOfTail(recs: map<Crec, Rec>, ch: seq<Crec>, i: nat, x: Crec, uid: int)
    requires UidsBelow(recs, ch, uid) && i < |ch| && x in ch[i + 1..]
    ensures UidsBelow(recs, Front(ch[i + 1..], x), uid) && x in recs && UidBelow(recs[x], uid)
  {
    FrontMembers(ch[i + 1..], x);
  }

  lemma FrontApart(ch: seq<Crec>, i: nat, x: Crec)
    requires Distinct(ch) && i < |ch| && x in ch[i + 1..]
    ensures x != ch[i] && ch[i] !in Front(ch[i + 1..], x)
  {
    FrontMembers(ch[i + 1..], x);
  }

  // When the sweep of a bucket succeeds, an entry is left exactly if it stays, with the
  // superseded ones to go.
  lemma {:induction false} ScanForwardStays(st: State, b: nat, i: nat, x: Crec, name: string, now: int, flags: Flags)
    requires Inv(st) && b < |st.chains| && i <= |st.chains[b]| && x in st.chains[b][i..] && x in st.recs
    ensures var (t, ok) := ScanForward(st, b, i, name, now, flags);
      && |t.chains| == |st.chains|
      && (ok ==> (x in t.chains[b]
                  <==> Stays(st.recs, Front(st.chains[b][i..], x), x, now, Superseded(name, flags))))
    decreases |st.chains[b]| - i
  {
    hide ChainsOrdered, PoolOk, FreeSuffix, FlagsOk, NoClash, CnamesOk, BigInPool, Hashed, Drop, Dead, Supersedes;
    hide Distinct, ChainOk, Stays, Front, UidsBelow, UidBelow, Without, ScanForward, BigNames, PendingNoClash;
    var ch := st.chains[b];
    ScanForwardPrefix(st, b, i, name, now, flags);
    if i < |ch| {
      var c, goes := ch[i], Superseded(name, flags);
      ChainDistinct(st, b);
      ChainUids(st, b);
      PartOf(ch, i);
      DroppedGone(st, b, i, name, now, flags);
      ScanForwardStep(st, b, i, name, now, flags);
      hide Wf, Inv;
      var rest := ch[i + 1..];
      var dropped := Dead(st.recs, st.recs[c], now) || (Supersedes(st.recs[c], name, flags) && Cached(st.recs[c]));
      if x == c {
        StaysHead(st.recs, x, rest, now, goes);
        if !dropped && !Supersedes(st.recs[c], name, flags) {
          ScanForwardPrefix(st, b, i + 1, name, now, flags);
          PrefixIn(ch, ScanForward(st, b, i + 1, name, now, flags).0.chains[b], i + 1, x);
        }
      } else {
        UidsOfTail(st.recs, ch, i, x, st.uid);
        FrontApart(ch, i, x);
        FrontCons(c, rest, x);
        if dropped {
          ScanForwardStays(Drop(st, b, i), b, i, x, name, now, flags);
          StaysAfterDrop(st.recs, st.uid, c, Front(rest, x), x, now, goes);
        } else if !Supersedes(st.recs[c], name, flags) {
          ScanForwardStays(st, b, i + 1, x, name, now, flags);
          StaysAfterKeep(st.recs, c, Front(rest, x), x, now, goes);
        }
      }
    }
  }

  // Told from the state before, for the bucket of a name.
  lemma ScanForwardExact(st: State, name: string, now: int, flags: Flags)
    requires Inv(st)
    ensures var b := Bucket(st, name);
      var (t, ok) := ScanForward(st, b, 0, name, now, flags);
      && |t.chains| == |st.chains|
      && (ok ==> forall x :: x in st.recs ==>
            (x in t.chains[b] <==>
              && x in st.chains[b]
              && Stays(st.recs, Front(st.chains[b], x), x, now, Superseded(name, flags))))
  {
    hide ChainsOrdered, PoolOk, FreeSuffix, FlagsOk, NoClash, CnamesOk, BigInPool, BigNames, Hashed, ScanForward, Stays;
    hide Distinct, ChainOk, Front, PendingNoClash;
    var b := Bucket(st, name);
    var t := ScanForward(st, b, 0, name, now, flags).0;
    ScanForwardInv(st, b, 0, name, now, flags);
    assert st.chains[b][0..] == st.chains[b];
    forall x | x in st.recs
      ensures x in t.chains[b] ==> x in st.chains[b]
    {
      if x in t.chains[b] {
        StillIn(st, t, b, x);
      }
    }
    forall x | x in st.recs && x in st.chains[b]
      ensures ScanForward(st, b, 0, name, now, flags).1 ==>
        (x in t.chains[b] <==> Stays(st.recs, Front(st.chains[b], x), x, now, Superseded(name, flags)))
    {
      ScanForwardStays(st, b, 0, x, name, now, flags);
    }
  }

  lemma StillIn(st: State, t: State, b: nat, x: Crec)
    requires Wf(st) && Wf(t) && Shrunk(st, t) && b < |t.chains| && x in t.chains[b] && x in st.recs
    ensures x in st.chains[b]
  {
    assert ChainOk(t, b);
    assert Hashed(t, x);
  }
}
