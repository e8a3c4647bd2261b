// The main results about lookups by name.
module CacheLookupTheorems {
  import opened CacheState
  import opened CacheInvariant
  import opened CacheSweep
  import opened CacheStays
  import opened CacheLookup
  import opened CacheAnswers

  function Nothing(): Rec -> bool {
    (r: Rec) => false
  }

  // A lookup frees expired records, CNAMEs whose target has been freed, and nothing else.
  ghost predicate Live(recs: map<Crec, Rec>, front: seq<Crec>, x: Crec, now: int)
    requires x in recs
  {
    Stays(recs, front, x, now, Nothing())
  }

  lemma KeptCons(recs: map<Crec, Rec>, uid: int, ch: seq<Crec>, now: int)
    requires (forall c :: c in ch ==> c in recs) && ch != []
    ensures var c := ch[0]; var dead := Dead(recs, recs[c], now);
      var uid' := if dead && Cached(recs[c]) then uid + 1 else uid;
      Kept(recs, uid, ch, now)
      == if dead then Kept(Without(recs, c, uid), uid', ch[1..], now) else [c] + Kept(recs, uid, ch[1..], now)
  {
  }

  lemma TailOk(recs: map<Crec, Rec>, uid: int, ch: seq<Crec>)
    requires Distinct(ch) && UidsBelow(recs, ch, uid) && ch != []
    ensures ch[0] in recs && ch[0] !in ch[1..] && Distinct(ch[1..]) && UidsBelow(recs, ch[1..], uid)
    ensures UidsBelow(Without(recs, ch[0], uid), ch[1..], uid)
    ensures UidsBelow(Without(recs, ch[0], uid), ch[1..], uid + 1)
    ensures forall x :: x in ch[1..] ==> x in recs && x in Without(recs, ch[0], uid)
  {
    assert forall x :: x in ch[1..] ==> x in ch;
    assert ch[0] !in ch[1..];
  }

  // The sweep of a lookup keeps exactly the live entries.
  lemma {:induction false} KeptExact(recs: map<Crec, Rec>, uid: int, ch: seq<Crec>, now: int, x: Crec)
    requires Distinct(ch) && UidsBelow(recs, ch, uid) && x in ch
    ensures x in Kept(recs, uid, ch, now) <==> Live(recs, Front(ch, x), x, now)
    decreases |ch|
  {
    hide Kept, Stays, Dead, Front, UidsBelow, UidBelow, Without, Distinct;
    TailOk(recs, uid, ch);
    var c, rest := ch[0], ch[1..];
    var dead := Dead(recs, recs[c], now);
    var recs', uid' := Without(recs, c, uid), if dead && Cached(recs[c]) then uid + 1 else uid;
    assert ch == [c] + rest;
    KeptCons(recs, uid, ch, now);
    if x == c {
      StaysHead(recs, x, rest, now, Nothing());
      if dead { KeptSubset(recs', uid', rest, now); }
    } else {
      UidsOfTail(recs, ch, 0, x, uid);
      FrontApart(ch, 0, x);
      FrontCons(c, rest, x);
      if dead {
        KeptExact(recs', uid', rest, now, x);
        StaysAfterDrop(recs, uid, c, Front(rest, x), x, now, Nothing());
      } else {
        KeptExact(recs, uid, rest, now, x);
        StaysAfterKeep(recs, c, Front(rest, x), x, now, Nothing());
      }
    }
  }

  // ---------- lookups by name ----------

  ghost function StartLook(st: State): Look {
    Look(st, 0, 0, false, false, false, [])
  }

  // The entries of the bucket that survive the lookup.
  ghost function Survivors(st: State, name: string, now: int): seq<Crec>
    requires Wf(st)
  {
    Rest(StartLook(st), Bucket(st, name), now)
  }

  // The answers to a lookup: the hosts and DHCP records it chained, then the head of
  // the LRU list as far as it matches.
  ghost function AnswerList(st: State, name: string, now: int, prot: Flags): seq<Crec>
    requires Wf(st)
  {
    RestMembers(StartLook(st), Bucket(st, name), now);
    Answers(st.recs, Survivors(st, name, now), name, prot)
  }

  // How many of the answers are hosts or DHCP records.
  ghost function HostCount(st: State, name: string, now: int, prot: Flags): (n: nat)
    requires Wf(st)
    ensures n <= |AnswerList(st, name, now, prot)|
  {
    RestMembers(StartLook(st), Bucket(st, name), now);
    |Select(st.recs, Survivors(st, name, now), HostAnswer(name, prot))|
  }

  lemma SurvivorsExact(st: State, name: string, now: int, x: Crec)
    requires Inv(st) && x in st.recs
    ensures x in Survivors(st, name, now) <==>
              x in st.chains[Bucket(st, name)] && Live(st.recs, Front(st.chains[Bucket(st, name)], x), x, now)
  {
    var b := Bucket(st, name);
    RestMembers(StartLook(st), b, now);
    RestRecs(StartLook(st), b);
    assert st.chains[b][0..] == st.chains[b];
    if x in st.chains[b] {
      ChainUids(st, b);
      KeptExact(st.recs, st.uid, st.chains[b], now, x);
    }
  }

  // A lookup returns every live hashed record that matches the name (whatever its
  // letter case), F_FORWARD and the protocol, exactly once; hosts and DHCP records
  // come first; nothing else is returned; and their records are untouched. This is a
  // filter over the plain set of hashed records.
  lemma LookupIsFilter(st: State, name: string, now: int, prot: Flags)
    requires Inv(st)
    ensures var a := AnswerList(st, name, now, prot);
            && Distinct(a)
            && (forall x :: x in a ==> x in st.recs)
            && (forall x :: x in st.recs ==>
                  (x in a <==> && Hashed(st, x) && Matching(st.recs[x], name, prot)
                               && Live(st.recs, Front(st.chains[Bucket(st, name)], x), x, now)))
            && (forall i :: 0 <= i < |a| ==> (Cached(st.recs[a[i]]) <==> i >= HostCount(st, name, now, prot)))
  {
    hide ChainsOrdered, PoolOk, FreeSuffix, FlagsOk, NoClash, CnamesOk, BigInPool, Rest, AnswerList, HostCount;
    hide Survivors, Live, Front, Distinct, ChainOk, Matching;
    AnswerMembers(st, name, now, prot);
    forall x | x in st.recs
      ensures x in AnswerList(st, name, now, prot)
              <==> && Hashed(st, x) && Matching(st.recs[x], name, prot)
                   && Live(st.recs, Front(st.chains[Bucket(st, name)], x), x, now)
    {
      AnswerIff(st, name, now, prot, x);
    }
  }

  lemma AnswerIff(st: State, name: string, now: int, prot: Flags, x: Crec)
    requires Inv(st) && x in st.recs
    ensures x in AnswerList(st, name, now, prot)
            <==> && Hashed(st, x) && Matching(st.recs[x], name, prot)
                 && Live(st.recs, Front(st.chains[Bucket(st, name)], x), x, now)
  {
    AnswerMembers(st, name, now, prot);
    SurvivorsExact(st, name, now, x);
    hide ChainsOrdered, PoolOk, FreeSuffix, FlagsOk, NoClash, CnamesOk, BigInPool, Rest, AnswerList, HostCount;
    hide Survivors, Live, Front, Distinct;
    var b := Bucket(st, name);
    if x in st.chains[b] { assert ChainOk(st, b); }
  }

  lemma AnswerMembers(st: State, name: string, now: int, prot: Flags)
    requires Wf(st)
    ensures var a, k := AnswerList(st, name, now, prot), Survivors(st, name, now);
            && Distinct(a)
            && (forall x :: x in a ==> x in k && x in st.recs && Matching(st.recs[x], name, prot))
            && (forall x :: x in k && x in st.recs && Matching(st.recs[x], name, prot) ==> x in a)
            && (forall i :: 0 <= i < |a| ==> (Cached(st.recs[a[i]]) <==> i >= HostCount(st, name, now, prot)))
  {
    hide Select, Reverse, Rest;
    var k := Survivors(st, name, now);
    RestMembers(StartLook(st), Bucket(st, name), now);
    var h, c := Select(st.recs, k, HostAnswer(name, prot)), Select(st.recs, k, CachedAnswer(name, prot));
    SelectMembers(st.recs, k, HostAnswer(name, prot));
    SelectMembers(st.recs, k, CachedAnswer(name, prot));
    ReverseMembers(c);
    SelectKind(st.recs, k, name, prot);
    AnswersDistinct(st.recs, h, Reverse(c));
  }

  lemma SelectKind(recs: map<Crec, Rec>, k: seq<Crec>, name: string, prot: Flags)
    requires forall c :: c in k ==> c in recs
    ensures forall x :: x in Select(recs, k, HostAnswer(name, prot)) ==>
        x in k && Matching(recs[x], name, prot) && !Cached(recs[x])
    ensures forall x :: x in k && Matching(recs[x], name, prot) && !Cached(recs[x]) ==>
        x in Select(recs, k, HostAnswer(name, prot))
    ensures forall x :: x in Select(recs, k, CachedAnswer(name, prot)) ==>
        x in k && Matching(recs[x], name, prot) && Cached(recs[x])
    ensures forall x :: x in k && Matching(recs[x], name, prot) && Cached(recs[x]) ==>
        x in Select(recs, k, CachedAnswer(name, prot))
  {
    SelectMembers(recs, k, HostAnswer(name, prot));
    SelectMembers(recs, k, CachedAnswer(name, prot));
    hide Select;
    assert forall r: Rec :: HostAnswer(name, prot)(r) == (Matching(r, name, prot) && !Cached(r));
    assert forall r: Rec :: CachedAnswer(name, prot)(r) == (Matching(r, name, prot) && Cached(r));
  }

  lemma AnswersDistinct(recs: map<Crec, Rec>, h: seq<Crec>, c: seq<Crec>)
    requires forall x :: x in h ==> x in recs && !Cached(recs[x])
    requires forall x :: x in c ==> x in recs && Cached(recs[x])
    requires Distinct(h) && Distinct(c)
    ensures Distinct(h + c)
    ensures forall i :: 0 <= i < |h + c| ==> (Cached(recs[(h + c)[i]]) <==> i >= |h|)
  {
    var a := h + c;
    assert forall i :: 0 <= i < |a| ==> a[i] == if i < |h| then h[i] else c[i - |h|];
    forall i, j | 0 <= i < |h| && 0 <= j < |c|
      ensures h[i] != c[j] && !Cached(recs[h[i]]) && Cached(recs[c[j]])
    {
      assert h[i] in h && c[j] in c;
    }
    forall i | 0 <= i < |a|
      ensures Cached(recs[a[i]]) <==> i >= |h|
    {
      if i < |h| { assert h[i] in h; } else { assert c[i - |h|] in c; }
    }
  }

  // For a record that is not a CNAME, live means not expired.
  lemma LiveUnlessExpired(st: State, name: string, now: int, x: Crec)
    requires Inv(st) && x in st.recs && !st.recs[x].flags.cname
    ensures Live(st.recs, Front(st.chains[Bucket(st, name)], x), x, now) <==> !Expired(st.recs[x], now)
  {
  }

  // What the lookup leaves behind: the answers are the chained hosts records followed
  // by the head of the LRU list, the record after the last answer does not match, and
  // in the chain the matches of the first match's class have rotated left by one.
  lemma LookupState(st: State, name: string, now: int, prot: Flags)
    requires Inv(st)
    ensures forall x :: x in Survivors(st, name, now) ==> x in st.recs
    ensures var m := FindByName(st, name, now, prot);
            var a := AnswerList(st, name, now, prot);
            var n := |a| - HostCount(st, name, now, prot);
            && Inv(m.st) && BigNames(m.st) == BigNames(st)
            && n <= |m.st.lru| && a == m.hosts + m.st.lru[..n] && |m.hosts| == HostCount(st, name, now, prot)
            && (forall x :: x in a ==> x in st.recs && x in m.st.recs && m.st.recs[x] == st.recs[x])
            && (n < |m.st.lru| ==> m.st.lru[n] in m.st.recs && !Matching(m.st.recs[m.st.lru[n]], name, prot))
            && m.st.chains[Bucket(st, name)] == RotateLeft(st.recs, Survivors(st, name, now), name, prot)
  {
    hide ChainsOrdered, PoolOk, FreeSuffix, FlagsOk, NoClash, CnamesOk, BigInPool, BigNames, Distinct, LookLoop;
    hide Rest, Select, RotateLeft, Answers, HostAnswer, CachedAnswer, ChainOk;
    var l, b := StartLook(st), Bucket(st, name);
    RestMembers(l, b, now);
    LookLoopInv(l, b, name, now, prot);
    LookRecs(l, b, name, now, prot);
    AnswerShape(st, name, now, prot);
    AnswerMembers(st, name, now, prot);
    LookupStops(st, name, now, prot);
  }

  lemma AnswerShape(st: State, name: string, now: int, prot: Flags)
    requires Wf(st)
    ensures forall x :: x in Survivors(st, name, now) ==> x in st.recs
    ensures var m := FindByName(st, name, now, prot);
            var k := Survivors(st, name, now);
            var c := Select(st.recs, k, CachedAnswer(name, prot));
            && m.hosts == Select(st.recs, k, HostAnswer(name, prot))
            && |c| <= |m.st.lru| && m.st.lru[..|c|] == Reverse(c)
            && |c| == |AnswerList(st, name, now, prot)| - HostCount(st, name, now, prot)
            && AnswerList(st, name, now, prot) == m.hosts + m.st.lru[..|c|]
            && m.st.chains[Bucket(st, name)] == RotateLeft(st.recs, k, name, prot)
  {
    var l, b := StartLook(st), Bucket(st, name);
    RestMembers(l, b, now);
    LookHosts(l, b, name, now, prot);
    LookLru(l, b, name, now, prot, []);
    LookChain(l, b, name, now, prot);
    hide Distinct, Wf, LookLoop, Rest, Select, RotateLeft, HostAnswer, CachedAnswer;
    var k := Survivors(st, name, now);
    var c, h := Select(st.recs, k, CachedAnswer(name, prot)), Select(st.recs, k, HostAnswer(name, prot));
    assert [] + c == c && [] + h == h;
    assert st.chains[b][..0] == [] && [] + RotateLeft(st.recs, k, name, prot) == RotateLeft(st.recs, k, name, prot);
  }

  // After the promoted matches, the LRU list holds no further match.
  lemma LookupStops(st: State, name: string, now: int, prot: Flags)
    requires Inv(st)
    ensures forall x :: x in Survivors(st, name, now) ==> x in st.recs
    ensures var m := FindByName(st, name, now, prot);
            var c := Select(st.recs, Survivors(st, name, now), CachedAnswer(name, prot));
            |c| < |m.st.lru| ==> m.st.lru[|c|] in m.st.recs && !Matching(m.st.recs[m.st.lru[|c|]], name, prot)
  {
    var l, b := StartLook(st), Bucket(st, name);
    var m := FindByName(st, name, now, prot);
    var k := Survivors(st, name, now);
    RestMembers(l, b, now);
    LookLoopInv(l, b, name, now, prot);
    LookRecs(l, b, name, now, prot);
    AnswerShape(st, name, now, prot);
    var c := Select(st.recs, k, CachedAnswer(name, prot));
    SelectMembers(st.recs, k, CachedAnswer(name, prot));
    ReverseMembers(c);
    RotateMembers(st.recs, k, name, prot);
    if |c| < |m.st.lru| {
      LruHeadDistinct(m.st.lru, c);
      var x := m.st.lru[|c|];
      LookSameBuckets(l, b, name, now, prot);
      assert InUse(m.st.recs[x]) ==> Hashed(m.st, x);
    }
  }

  lemma LruHeadDistinct(lru: seq<Crec>, c: seq<Crec>)
    requires HeadIs(lru, c) && Distinct(lru) && |c| < |lru|
    ensures lru[|c|] !in c
  {
    ReverseMembers(c);
    assert forall j :: 0 <= j < |c| ==> lru[..|c|][j] == lru[j];
  }

  lemma {:induction false} RotateMembers(recs: map<Crec, Rec>, s: seq<Crec>, name: string, prot: Flags)
    requires forall c :: c in s ==> c in recs
    ensures forall x :: x in RotateLeft(recs, s, name, prot) <==> x in s
  {
    if s != [] {
      var f := recs[s[0]].flags;
      RotateMembers(recs, s[1..], name, prot);
      SelectMembers(recs, s[1..], Rotated(name, prot, f.reverse, f.immortal));
      SelectMembers(recs, s[1..], NotRotated(name, prot, f.reverse, f.immortal));
      assert s == [s[0]] + s[1..];
    }
  }

  // The loop does not change the table size or the hash function.
  lemma {:induction false} LookSameBuckets(l: Look, b: nat, name: string, now: int, prot: Flags)
    requires LookOk(l, b)
    ensures var m := LookLoop(l, b, name, now, prot); |m.st.chains| == |l.st.chains| && m.st.hash == l.st.hash
    decreases |l.st.chains[b]| - l.i
  {
    if l.i < |l.st.chains[b]| {
      LoopUnroll(l, b, name, now, prot);
      StepSameBuckets(l, b, name, now, prot);
      hide LookLoop, LookStep, LookOk;
      LookSameBuckets(LookStep(l, b, name, now, prot), b, name, now, prot);
    }
  }

  lemma StepSameBuckets(l: Look, b: nat, name: string, now: int, prot: Flags)
    requires LookOk(l, b) && l.i < |l.st.chains[b]|
    ensures var n := LookStep(l, b, name, now, prot); |n.st.chains| == |l.st.chains| && n.st.hash == l.st.hash
  {
    RestRecs(l, b);
    DropRecs(l.st, b, l.i);
    hide Drop, Wf;
  }
}
