// What a lookup by name answers, and what it does to the chain it searched.
module CacheAnswers {
  import opened CacheState
  import opened CacheInvariant
  import opened CacheSweep
  import opened CacheLookup

  // The entries of a chain that a lookup sweep keeps. A CNAME can become outdated
  // during the sweep, when its target is an expired entry met earlier in the chain.
  ghost function Kept(recs: map<Crec, Rec>, uid: int, ch: seq<Crec>, now: int): seq<Crec>
    requires forall c :: c in ch ==> c in recs
    decreases |ch|
  {
    if ch == [] then []
    else
      var c := ch[0];
      if Dead(recs, recs[c], now) then
        if Cached(recs[c]) then Kept(recs[c := Freed(recs[c], uid)], uid + 1, ch[1..], now)
        else Kept(recs, uid, ch[1..], now)
      else [c] + Kept(recs, uid, ch[1..], now)
  }

  // Entries of s whose record satisfies p, in order.
  ghost function Select(recs: map<Crec, Rec>, s: seq<Crec>, p: Rec -> bool): seq<Crec>
    requires forall c :: c in s ==> c in recs
  {
    if s == [] then []
    else (if p(recs[s[0]]) then [s[0]] else []) + Select(recs, s[1..], p)
  }

  ghost function Reverse<T>(s: seq<T>): (r: seq<T>)
    ensures |r| == |s|
  {
    if s == [] then [] else Reverse(s[1..]) + [s[0]]
  }

  // ---------- facts about these functions ----------

  lemma {:induction false} KeptSubset(recs: map<Crec, Rec>, uid: int, ch: seq<Crec>, now: int)
    requires (forall c :: c in ch ==> c in recs) && Distinct(ch)
    ensures forall c :: c in Kept(recs, uid, ch, now) ==> c in ch
    ensures Distinct(Kept(recs, uid, ch, now))
    decreases |ch|
  {
    if ch != [] {
      var c := ch[0];
      assert c !in ch[1..];
      KeptSubset(if Dead(recs, recs[c], now) && Cached(recs[c]) then recs[c := Freed(recs[c], uid)] else recs,
                 if Dead(recs, recs[c], now) && Cached(recs[c]) then uid + 1 else uid, ch[1..], now);
    }
  }

  lemma {:induction false} SelectMembers(recs: map<Crec, Rec>, s: seq<Crec>, p: Rec -> bool)
    requires forall c :: c in s ==> c in recs
    ensures forall c :: c in Select(recs, s, p) ==> c in s && p(recs[c])
    ensures forall c :: c in s && p(recs[c]) ==> c in Select(recs, s, p)
    ensures Distinct(s) ==> Distinct(Select(recs, s, p))
  {
    if s != [] {
      SelectMembers(recs, s[1..], p);
      assert s == [s[0]] + s[1..];
    }
  }

  lemma {:induction false} ReverseMembers<T>(s: seq<T>)
    ensures forall x :: x in Reverse(s) ==> x in s
    ensures forall x :: x in s ==> x in Reverse(s)
    ensures Distinct(s) ==> Distinct(Reverse(s))
  {
    if s != [] {
      ReverseMembers(s[1..]);
      assert s == [s[0]] + s[1..];
      assert Distinct(s) ==> s[0] !in Reverse(s[1..]);
    }
  }

  lemma {:induction false} ReverseSnoc<T>(s: seq<T>, x: T)
    ensures Reverse(s + [x]) == [x] + Reverse(s)
  {
    if s == [] {
      assert s + [x] == [x];
    } else {
      ReverseSnoc(s[1..], x);
      assert (s + [x])[1..] == s[1..] + [x];
    }
  }

  // ---------- the answer list ----------

  ghost function HostAnswer(name: string, prot: Flags): Rec -> bool {
    (r: Rec) => Matching(r, name, prot) && !Cached(r)
  }

  ghost function CachedAnswer(name: string, prot: Flags): Rec -> bool {
    (r: Rec) => Matching(r, name, prot) && Cached(r)
  }

  // The hosts and DHCP matches in chain order, then the cached ones, last first.
  ghost function Answers(recs: map<Crec, Rec>, kept: seq<Crec>, name: string, prot: Flags): seq<Crec>
    requires forall c :: c in kept ==> c in recs
  {
    Select(recs, kept, HostAnswer(name, prot)) + Reverse(Select(recs, kept, CachedAnswer(name, prot)))
  }

  lemma {:induction false} SelectFrame(recs: map<Crec, Rec>, recs': map<Crec, Rec>, s: seq<Crec>, p: Rec -> bool)
    requires forall c :: c in s ==> c in recs && c in recs' && recs[c] == recs'[c]
    ensures Select(recs, s, p) == Select(recs', s, p)
  {
    if s != [] { SelectFrame(recs, recs', s[1..], p); }
  }

  // ---------- one step of the loop ----------

  ghost function Rest(l: Look, b: nat, now: int): seq<Crec>
    requires LookOk(l, b)
  {
    RestRecs(l, b);
    Kept(l.st.recs, l.st.uid, l.st.chains[b][l.i..], now)
  }

  lemma RestRecs(l: Look, b: nat)
    requires LookOk(l, b)
    ensures forall c :: c in l.st.chains[b][l.i..] ==> c in l.st.recs
    ensures forall c :: c in l.st.chains[b] ==> c in l.st.recs
    ensures Distinct(l.st.chains[b][l.i..])
  {
    assert ChainOk(l.st, b);
  }

  lemma RestMembers(l: Look, b: nat, now: int)
    requires LookOk(l, b)
    ensures Distinct(Rest(l, b, now))
    ensures forall c :: c in Rest(l, b, now) ==> c in l.st.recs && c in l.st.chains[b][l.i..] && c in l.st.chains[b]
  {
    RestRecs(l, b);
    KeptSubset(l.st.recs, l.st.uid, l.st.chains[b][l.i..], now);
  }

  // The effect of a step on the entries still to be scanned.
  lemma StepRest(l: Look, b: nat, name: string, now: int, prot: Flags)
    requires LookOk(l, b) && l.i < |l.st.chains[b]|
    ensures var m := LookStep(l, b, name, now, prot);
            var c := l.st.chains[b][l.i];
            && LookOk(m, b) && c in l.st.recs
            && Rest(l, b, now) == (if Dead(l.st.recs, l.st.recs[c], now) then [] else [c]) + Rest(m, b, now)
            && c !in Rest(m, b, now)
            && (forall x :: x in l.st.recs && x != c ==> x in m.st.recs && m.st.recs[x] == l.st.recs[x])
            && (!Dead(l.st.recs, l.st.recs[c], now) ==> m.st.recs == l.st.recs)
  {
    var m := LookStep(l, b, name, now, prot);
    var c := l.st.chains[b][l.i];
    LookStepOk(l, b, name, now, prot);
    RestRecs(l, b);
    RestMembers(m, b, now);
    assert l.st.chains[b][l.i..][0] == c;
    StepTail(l, b, name, now, prot);
    assert c !in l.st.chains[b][l.i + 1..];
  }

  lemma MoveTail<T>(ch: seq<T>, i: nat, ins: nat)
    requires ins <= i < |ch|
    ensures InsertAt(RemoveAt(ch, i), ins, ch[i])[i + 1..] == ch[i + 1..] == ch[i..][1..]
  {
    var r := InsertAt(RemoveAt(ch, i), ins, ch[i]);
    assert forall k :: i < k < |r| ==> r[k] == ch[k];
  }

  lemma MatchTail(l: Look, b: nat)
    requires LookOk(l, b) && l.i < |l.st.chains[b]|
    ensures LookMatch(l, b).st.chains[b][l.i + 1..] == l.st.chains[b][l.i + 1..]
    ensures LookMatch(l, b).st.recs == l.st.recs && LookMatch(l, b).st.uid == l.st.uid
  {
    hide LookMatch, Wf, Distinct, SameClass, InsertAt, RemoveAt;
    MatchShape(l, b);
    if l.started { MoveTail(l.st.chains[b], l.i, l.ins); }
  }

  lemma StepTail(l: Look, b: nat, name: string, now: int, prot: Flags)
    requires LookOk(l, b) && l.i < |l.st.chains[b]|
    ensures var m := LookStep(l, b, name, now, prot);
            var c := l.st.chains[b][l.i];
            && LookOk(m, b) && c in l.st.recs
            && m.st.chains[b][m.i..] == l.st.chains[b][l.i + 1..] == l.st.chains[b][l.i..][1..]
            && (Dead(l.st.recs, l.st.recs[c], now) && Cached(l.st.recs[c]) ==>
                m.st.recs == l.st.recs[c := Freed(l.st.recs[c], l.st.uid)] && m.st.uid == l.st.uid + 1)
            && (!(Dead(l.st.recs, l.st.recs[c], now) && Cached(l.st.recs[c])) ==>
                m.st.recs == l.st.recs && m.st.uid == l.st.uid)
  {
    hide Wf, Drop, LookMatch, Distinct;
    RestRecs(l, b);
    var c := l.st.chains[b][l.i];
    LookStepOk(l, b, name, now, prot);
    DropChain(l.st, b, l.i);
    DropRecs(l.st, b, l.i);
    MatchTail(l, b);
    LookMatchOk(l, b);
    assert l.st.chains[b][l.i..][1..] == l.st.chains[b][l.i + 1..];
  }

  // The records of entries that survive, or are not in the rest of the chain, stay the
  // same over one step and the remaining ones.
  lemma RecsThrough(r0: map<Crec, Rec>, r1: map<Crec, Rec>, r2: map<Crec, Rec>, c: Crec, kept: seq<Crec>,
                    kept1: seq<Crec>, ch: seq<Crec>, ch1: seq<Crec>, dead: bool)
    requires c in r0 && ch == [c] + ch1 && c !in ch1 && c !in kept1
    requires kept == (if dead then [] else [c]) + kept1
    requires forall x :: x in r0 && x != c ==> x in r1 && r1[x] == r0[x]
    requires !dead ==> r1 == r0
    requires forall x :: x in r1 && (x in kept1 || x !in ch1) ==> x in r2 && r2[x] == r1[x]
    ensures forall x :: x in r0 && (x in kept || x !in ch) ==> x in r2 && r2[x] == r0[x]
  {
    assert c in ch;
  }

  lemma TailAt(ch: seq<Crec>, i: nat, tail: seq<Crec>)
    requires i < |ch| && tail == ch[i + 1..]
    ensures ch[i..] == [ch[i]] + tail
  {
  }

  lemma ChainApart(st: State, b: nat, i: nat)
    requires Wf(st) && b < |st.chains| && i < |st.chains[b]|
    ensures st.chains[b][i] !in st.chains[b][i + 1..]
  {
    assert ChainOk(st, b);
  }

  // The records that are kept, and those outside the part of the chain still to be
  // scanned, are left as they are.
  lemma {:induction false} LookRecs(l: Look, b: nat, name: string, now: int, prot: Flags)
    requires LookOk(l, b)
    ensures forall c :: c in Rest(l, b, now) ==> c in l.st.recs
    ensures var m := LookLoop(l, b, name, now, prot);
            && (forall x :: x in l.st.recs && (x in Rest(l, b, now) || x !in l.st.chains[b][l.i..]) ==>
                  x in m.st.recs && m.st.recs[x] == l.st.recs[x])
    decreases |l.st.chains[b]| - l.i
  {
    hide LookStep, LookLoop, Rest, Wf, Distinct, Select, Dead, SameClass, HostAnswer;
    RestMembers(l, b, now);
    if l.i == |l.st.chains[b]| {
      RestEnd(l, b, name, now, prot, HostAnswer(name, prot));
    } else {
      var n := LookStep(l, b, name, now, prot);
      LoopUnroll(l, b, name, now, prot);
      LookRecs(n, b, name, now, prot);
      StepTail(l, b, name, now, prot);
      StepRest(l, b, name, now, prot);
      var c, ch := l.st.chains[b][l.i], l.st.chains[b];
      TailAt(ch, l.i, n.st.chains[b][n.i..]);
      ChainApart(l.st, b, l.i);
      hide LookOk;
      RecsThrough(l.st.recs, n.st.recs, LookLoop(n, b, name, now, prot).st.recs, c, Rest(l, b, now), Rest(n, b, now),
        ch[l.i..], n.st.chains[b][n.i..], Dead(l.st.recs, l.st.recs[c], now));
    }
  }

  lemma HeadNotInTail<T>(s: seq<T>)
    requires Distinct(s) && s != []
    ensures s[0] !in s[1..]
  {
  }

  // ---------- the hosts answers ----------

  lemma {:induction false} LookHosts(l: Look, b: nat, name: string, now: int, prot: Flags)
    requires LookOk(l, b)
    ensures forall c :: c in Rest(l, b, now) ==> c in l.st.recs
    ensures var m := LookLoop(l, b, name, now, prot);
            m.hosts == l.hosts + Select(l.st.recs, Rest(l, b, now), HostAnswer(name, prot))
    decreases |l.st.chains[b]| - l.i
  {
    hide LookStep, LookLoop, Rest, HostAnswer, Wf, Distinct, Select;
    RestMembers(l, b, now);
    if l.i == |l.st.chains[b]| {
      RestEnd(l, b, name, now, prot, HostAnswer(name, prot));
    } else {
      var n := LookStep(l, b, name, now, prot);
      LoopUnroll(l, b, name, now, prot);
      StepRest(l, b, name, now, prot);
      RestMembers(n, b, now);
      StepHosts(l, b, name, now, prot);
      LookHosts(n, b, name, now, prot);
      SelectFrame(l.st.recs, n.st.recs, Rest(n, b, now), HostAnswer(name, prot));
      SelectCons(l.st.recs, l.st.chains[b][l.i], Rest(n, b, now), HostAnswer(name, prot));
      var c := l.st.chains[b][l.i];
      if Dead(l.st.recs, l.st.recs[c], now) {
        assert Rest(l, b, now) == Rest(n, b, now);
      } else {
        assert l.hosts + ([c] + Select(l.st.recs, Rest(n, b, now), HostAnswer(name, prot)))
            == (l.hosts + [c]) + Select(l.st.recs, Rest(n, b, now), HostAnswer(name, prot));
        assert l.hosts + [] == l.hosts;
      }
    }
  }

  lemma LoopUnroll(l: Look, b: nat, name: string, now: int, prot: Flags)
    requires LookOk(l, b) && l.i < |l.st.chains[b]|
    ensures var n := LookStep(l, b, name, now, prot);
            && LookOk(n, b) && |n.st.chains[b]| - n.i == |l.st.chains[b]| - l.i - 1
            && LookLoop(l, b, name, now, prot) == LookLoop(n, b, name, now, prot)
  {
    LookStepOk(l, b, name, now, prot);
  }

  lemma SelectCons(recs: map<Crec, Rec>, c: Crec, s: seq<Crec>, p: Rec -> bool)
    requires c in recs && forall x :: x in s ==> x in recs
    ensures Select(recs, [c] + s, p) == (if p(recs[c]) then [c] else []) + Select(recs, s, p)
  {
    assert ([c] + s)[1..] == s;
  }

  lemma RestEnd(l: Look, b: nat, name: string, now: int, prot: Flags, p: Rec -> bool)
    requires LookOk(l, b) && l.i == |l.st.chains[b]|
    ensures Rest(l, b, now) == [] && LookLoop(l, b, name, now, prot) == l && Select(l.st.recs, [], p) == []
  {
  }

  lemma StepHosts(l: Look, b: nat, name: string, now: int, prot: Flags)
    requires LookOk(l, b) && l.i < |l.st.chains[b]|
    ensures var c := l.st.chains[b][l.i];
            && c in l.st.recs
            && LookStep(l, b, name, now, prot).hosts == l.hosts
               + (if !Dead(l.st.recs, l.st.recs[c], now) && HostAnswer(name, prot)(l.st.recs[c]) then [c] else [])
  {
    RestRecs(l, b);
  }

  // ---------- the cached answers ----------

  // The LRU list begins with the reverse of done.
  ghost predicate HeadIs(lru: seq<Crec>, done: seq<Crec>) {
    |done| <= |lru| && lru[..|done|] == Reverse(done)
  }

  lemma HeadIndex(lru: seq<Crec>, done: seq<Crec>, c: Crec)
    requires HeadIs(lru, done) && c in lru && c !in done
    ensures |done| <= IndexOf(lru, c) < |lru|
  {
    ReverseMembers(done);
    assert forall m :: 0 <= m < |done| ==> lru[m] == lru[..|done|][m];
  }

  lemma HeadDrop(lru: seq<Crec>, done: seq<Crec>, c: Crec)
    requires HeadIs(lru, done) && c in lru && c !in done
    ensures HeadIs(RemoveAt(lru, IndexOf(lru, c)) + [c], done)
  {
    HeadIndex(lru, done, c);
    var k := IndexOf(lru, c);
    assert (lru[..k] + lru[k + 1..] + [c])[..|done|] == lru[..|done|];
  }

  lemma HeadPromote(lru: seq<Crec>, done: seq<Crec>, c: Crec)
    requires HeadIs(lru, done) && c in lru && c !in done
    ensures HeadIs([c] + RemoveAt(lru, IndexOf(lru, c)), done + [c])
  {
    HeadIndex(lru, done, c);
    var k := IndexOf(lru, c);
    ReverseSnoc(done, c);
    assert ([c] + (lru[..k] + lru[k + 1..]))[..|done| + 1] == [c] + lru[..|done|];
  }

  lemma StepLru(l: Look, b: nat, name: string, now: int, prot: Flags, done: seq<Crec>)
    requires LookOk(l, b) && l.i < |l.st.chains[b]| && HeadIs(l.st.lru, done)
    requires forall c :: c in l.st.chains[b][l.i..] ==> c !in done
    ensures var c := l.st.chains[b][l.i];
            && c in l.st.recs
            && HeadIs(LookStep(l, b, name, now, prot).st.lru,
                      done + if !Dead(l.st.recs, l.st.recs[c], now) && CachedAnswer(name, prot)(l.st.recs[c]) then [c]
                          else [])
  {
    hide LookStep, LookMatch, Wf, Dead, Distinct, SameClass, HeadIs, Matching;
    RestRecs(l, b);
    EntryRec(l.st, b, l.i);
    StepLruIs(l, b, name, now, prot);
    var c := l.st.chains[b][l.i];
    assert l.st.chains[b][l.i..][0] == c;
    assert done + [] == done;
    if Cached(l.st.recs[c]) {
      HeadDrop(l.st.lru, done, c);
      HeadPromote(l.st.lru, done, c);
    }
  }

  // What one step does to the LRU list.
  lemma StepLruIs(l: Look, b: nat, name: string, now: int, prot: Flags)
    requires LookOk(l, b) && l.i < |l.st.chains[b]|
    ensures var c, lru := l.st.chains[b][l.i], l.st.lru;
      && c in l.st.recs
      && LookStep(l, b, name, now, prot).st.lru ==
           if !Cached(l.st.recs[c]) || c !in lru then lru
           else if Dead(l.st.recs, l.st.recs[c], now) then RemoveAt(lru, IndexOf(lru, c)) + [c]
           else if Matching(l.st.recs[c], name, prot) then [c] + RemoveAt(lru, IndexOf(lru, c))
           else lru
  {
    hide Dead, Distinct, SameClass, Matching, RemoveAt, InsertAt;
    EntryRec(l.st, b, l.i);
  }

  lemma {:induction false} LookLru(l: Look, b: nat, name: string, now: int, prot: Flags, done: seq<Crec>)
    requires LookOk(l, b) && HeadIs(l.st.lru, done)
    requires forall c :: c in l.st.chains[b][l.i..] ==> c !in done
    ensures forall c :: c in Rest(l, b, now) ==> c in l.st.recs
    ensures HeadIs(LookLoop(l, b, name, now, prot).st.lru, done + Select(l.st.recs, Rest(l, b, now), CachedAnswer(name,
        prot)))
    decreases |l.st.chains[b]| - l.i
  {
    hide LookStep, LookLoop, Rest, CachedAnswer, Wf, Distinct, Select, HeadIs, Dead, SameClass;
    RestMembers(l, b, now);
    if l.i == |l.st.chains[b]| {
      RestEnd(l, b, name, now, prot, CachedAnswer(name, prot));
      assert done + [] == done;
    } else {
      var n := LookStep(l, b, name, now, prot);
      var c := l.st.chains[b][l.i];
      LoopUnroll(l, b, name, now, prot);
      StepRest(l, b, name, now, prot);
      RestMembers(n, b, now);
      StepLru(l, b, name, now, prot, done);
      StepTail(l, b, name, now, prot);
      RestRecs(l, b);
      assert c !in n.st.chains[b][n.i..] by { HeadNotInTail(l.st.chains[b][l.i..]); }
      assert l.st.chains[b][l.i..] == [c] + n.st.chains[b][n.i..];
      var hit := !Dead(l.st.recs, l.st.recs[c], now) && CachedAnswer(name, prot)(l.st.recs[c]);
      var done' := done + if hit then [c] else [];
      LookLru(n, b, name, now, prot, done');
      SelectFrame(l.st.recs, n.st.recs, Rest(n, b, now), CachedAnswer(name, prot));
      SelectCons(l.st.recs, c, Rest(n, b, now), CachedAnswer(name, prot));
      var tail := Select(l.st.recs, Rest(n, b, now), CachedAnswer(name, prot));
      assert done + ([c] + tail) == (done + [c]) + tail && done + [] == done && [] + tail == tail;
      assert [] + Rest(n, b, now) == Rest(n, b, now);
    }
  }

  // ---------- the order of the chain ----------

  ghost function Rotated(name: string, prot: Flags, rev: bool, imm: bool): Rec -> bool {
    (r: Rec) => Matching(r, name, prot) && r.flags.reverse == rev && r.flags.immortal == imm
  }

  ghost function NotRotated(name: string, prot: Flags, rev: bool, imm: bool): Rec -> bool {
    (r: Rec) => !(Matching(r, name, prot) && r.flags.reverse == rev && r.flags.immortal == imm)
  }

  // The matching entries with the class bits of the first match rotate left by one;
  // every other entry keeps its place in the order.
  ghost function RotateLeft(recs: map<Crec, Rec>, s: seq<Crec>, name: string, prot: Flags): seq<Crec>
    requires forall c :: c in s ==> c in recs
  {
    if s == [] then []
    else
      var f := recs[s[0]].flags;
      if Matching(recs[s[0]], name, prot) then
        Select(recs, s[1..], Rotated(name, prot, f.reverse, f.immortal))
        + [s[0]] + Select(recs, s[1..], NotRotated(name, prot, f.reverse, f.immortal))
      else [s[0]] + RotateLeft(recs, s[1..], name, prot)
  }

  // The chain that results from scanning the entries rest (all of them kept).
  ghost function FinalChain(l: Look, b: nat, rest: seq<Crec>, name: string, prot: Flags): seq<Crec>
    requires LookOk(l, b) && forall c :: c in rest ==> c in l.st.recs
  {
    var ch := l.st.chains[b];
    if l.started then
      ch[..l.ins] + Select(l.st.recs, rest, Rotated(name, prot, l.rev, l.imm))
      + ch[l.ins..l.i] + Select(l.st.recs, rest, NotRotated(name, prot, l.rev, l.imm))
    else ch[..l.i] + RotateLeft(l.st.recs, rest, name, prot)
  }

  lemma {:induction false} RotateFrame(recs: map<Crec, Rec>, recs': map<Crec, Rec>, s: seq<Crec>, name: string,
                                       prot: Flags)
    requires forall c :: c in s ==> c in recs && c in recs' && recs[c] == recs'[c]
    ensures RotateLeft(recs, s, name, prot) == RotateLeft(recs', s, name, prot)
  {
    if s != [] {
      RotateFrame(recs, recs', s[1..], name, prot);
      var f := recs[s[0]].flags;
      SelectFrame(recs, recs', s[1..], Rotated(name, prot, f.reverse, f.immortal));
      SelectFrame(recs, recs', s[1..], NotRotated(name, prot, f.reverse, f.immortal));
    }
  }

  lemma FinalChainDrop(l: Look, b: nat, rest: seq<Crec>, name: string, prot: Flags)
    requires LookOk(l, b) && l.i < |l.st.chains[b]| && LookOk(l.(st := Drop(l.st, b, l.i)), b)
    requires forall c :: c in rest ==>
        c in l.st.recs && c in Drop(l.st, b, l.i).recs && Drop(l.st, b, l.i).recs[c] == l.st.recs[c]
    ensures FinalChain(l.(st := Drop(l.st, b, l.i)), b, rest, name, prot) == FinalChain(l, b, rest, name, prot)
  {
    DropChain(l.st, b, l.i);
    var t, ch := Drop(l.st, b, l.i), l.st.chains[b];
    hide Wf, Drop, Distinct, Select, RotateLeft;
    RotateFrame(l.st.recs, t.recs, rest, name, prot);
    SelectFrame(l.st.recs, t.recs, rest, Rotated(name, prot, l.rev, l.imm));
    SelectFrame(l.st.recs, t.recs, rest, NotRotated(name, prot, l.rev, l.imm));
    if l.started {
      assert t.chains[b][..l.ins] == t.chains[b][..l.i][..l.ins] == ch[..l.ins];
      assert t.chains[b][l.ins..l.i] == t.chains[b][..l.i][l.ins..] == ch[l.ins..l.i];
    }
  }

  lemma FinalChainSkip(l: Look, b: nat, rest: seq<Crec>, name: string, prot: Flags)
    requires LookOk(l, b) && l.i < |l.st.chains[b]| && l.st.chains[b][l.i] in l.st.recs
    requires forall c :: c in rest ==> c in l.st.recs
    requires !Matching(l.st.recs[l.st.chains[b][l.i]], name, prot)
    ensures FinalChain(l.(i := l.i + 1), b, rest, name, prot) == FinalChain(l, b, [l.st.chains[b][l.i]] + rest, name,
        prot)
  {
    hide Wf, Select, InsertAt, RemoveAt, Matching, Rotated, NotRotated, SameClass;
    var ch, c := l.st.chains[b], l.st.chains[b][l.i];
    assert ch[..l.i + 1] == ch[..l.i] + [c];
    if l.started {
      SelectLeft(l, c, rest, name, prot);
      assert ch[l.ins..l.i + 1] == ch[l.ins..l.i] + [c];
      var s := Select(l.st.recs, rest, Rotated(name, prot, l.rev, l.imm));
      var u := Select(l.st.recs, rest, NotRotated(name, prot, l.rev, l.imm));
      assert ch[..l.ins] + s + (ch[l.ins..l.i] + [c]) + u == ch[..l.ins] + s + ch[l.ins..l.i] + ([c] + u);
    } else {
      var u := RotateLeft(l.st.recs, rest, name, prot);
      assert ([c] + rest)[1..] == rest;
      assert (ch[..l.i] + [c]) + u == ch[..l.i] + ([c] + u);
    }
  }

  lemma MoveUpParts<T>(ch: seq<T>, i: nat, ins: nat)
    requires ins <= i < |ch|
    ensures var r := InsertAt(RemoveAt(ch, i), ins, ch[i]);
            r[..ins + 1] == ch[..ins] + [ch[i]] && r[ins + 1..i + 1] == ch[ins..i]
  {
    var r := InsertAt(RemoveAt(ch, i), ins, ch[i]);
    assert forall k :: 0 <= k < |r| ==> r[k] == if k < ins then ch[k] else if k == ins then ch[i]
        else if k <= i then ch[k - 1] else ch[k];
  }

  lemma MatchShape(l: Look, b: nat)
    requires LookOk(l, b) && l.i < |l.st.chains[b]|
    ensures l.st.chains[b][l.i] in l.st.recs
    ensures var m := LookMatch(l, b); var c := l.st.chains[b][l.i]; var f := l.st.recs[c].flags;
            && m.st.recs == l.st.recs && m.st.uid == l.st.uid && |m.st.chains| == |l.st.chains|
            && m.i == l.i + 1 && m.started
            && (l.started && SameClass(l, l.st.recs[c]) ==>
                  m.ins == l.ins + 1 && m.rev == l.rev && m.imm == l.imm &&
                      m.st.chains[b] == InsertAt(RemoveAt(l.st.chains[b], l.i), l.ins, c))
            && (l.started && !SameClass(l, l.st.recs[c]) ==>
                  m.ins == l.ins && m.rev == l.rev && m.imm == l.imm && m.st.chains[b] == l.st.chains[b])
            && (!l.started ==>
                  && m.ins == l.i && m.rev == f.reverse && m.imm == f.immortal
                  && m.st.chains[b] == l.st.chains[b])
  {
    RestRecs(l, b);
  }

  // The three ways a match can be placed, on sequences alone.
  lemma PlaceMoved<T>(ch: seq<T>, i: nat, ins: nat, s: seq<T>, u: seq<T>)
    requires ins <= i < |ch|
    ensures var r := InsertAt(RemoveAt(ch, i), ins, ch[i]);
            r[..ins + 1] + s + r[ins + 1..i + 1] + u == ch[..ins] + ([ch[i]] + s) + ch[ins..i] + u
  {
    MoveUpParts(ch, i, ins);
    hide InsertAt, RemoveAt;
    var c := ch[i];
    assert (ch[..ins] + [c]) + s + ch[ins..i] + u == ch[..ins] + ([c] + s) + ch[ins..i] + u;
  }

  lemma PlaceStaying<T>(ch: seq<T>, i: nat, ins: nat, s: seq<T>, u: seq<T>)
    requires ins <= i < |ch|
    ensures ch[..ins] + s + ch[ins..i + 1] + u == ch[..ins] + s + ch[ins..i] + ([ch[i]] + u)
  {
    assert ch[ins..i + 1] == ch[ins..i] + [ch[i]];
  }

  lemma PlaceFirst<T>(ch: seq<T>, i: nat, s: seq<T>, u: seq<T>)
    requires i < |ch|
    ensures ch[..i] + s + ch[i..i + 1] + u == ch[..i] + (s + [ch[i]] + u)
  {
    assert ch[i..i + 1] == [ch[i]];
  }

  lemma MatchMoved(l: Look, b: nat, rest: seq<Crec>, name: string, prot: Flags)
    requires LookOk(l, b) && l.i < |l.st.chains[b]| && l.st.chains[b][l.i] in l.st.recs && LookOk(LookMatch(l, b), b)
    requires forall c :: c in rest ==> c in l.st.recs
    requires Matching(l.st.recs[l.st.chains[b][l.i]], name, prot)
    requires l.started && SameClass(l, l.st.recs[l.st.chains[b][l.i]])
    ensures LookMatch(l, b).st.recs == l.st.recs
    ensures FinalChain(LookMatch(l, b), b, rest, name, prot) == FinalChain(l, b, [l.st.chains[b][l.i]] + rest, name,
        prot)
  {
    hide LookMatch, Wf, Distinct, Select, InsertAt, RemoveAt, Matching, FinalChain, Rotated, NotRotated, SameClass;
    var ch, c := l.st.chains[b], l.st.chains[b][l.i];
    MatchShape(l, b);
    SelectMoved(l, c, rest, name, prot);
    StartedChain(l, b, [c] + rest, name, prot);
    StartedChain(LookMatch(l, b), b, rest, name, prot);
    assert l.ins <= l.i < |ch|;
    hide LookOk;
    PlaceMoved(ch, l.i, l.ins, Select(l.st.recs, rest, Rotated(name, prot, l.rev, l.imm)),
      Select(l.st.recs, rest, NotRotated(name, prot, l.rev, l.imm)));
  }

  lemma StartedChain(l: Look, b: nat, rest: seq<Crec>, name: string, prot: Flags)
    requires LookOk(l, b) && l.started && forall c :: c in rest ==> c in l.st.recs
    ensures var ch := l.st.chains[b];
      FinalChain(l, b, rest, name, prot)
      == ch[..l.ins] + Select(l.st.recs, rest, Rotated(name, prot, l.rev, l.imm))
         + ch[l.ins..l.i] + Select(l.st.recs, rest, NotRotated(name, prot, l.rev, l.imm))
  {
    hide Wf, Distinct, Select, Matching, Rotated, NotRotated, SameClass;
  }

  lemma SelectMoved(l: Look, c: Crec, rest: seq<Crec>, name: string, prot: Flags)
    requires c in l.st.recs && forall x :: x in rest ==> x in l.st.recs
    requires Matching(l.st.recs[c], name, prot) && SameClass(l, l.st.recs[c])
    ensures Select(l.st.recs, [c] + rest, Rotated(name, prot, l.rev, l.imm))
         == [c] + Select(l.st.recs, rest, Rotated(name, prot, l.rev, l.imm))
    ensures Select(l.st.recs, [c] + rest, NotRotated(name, prot, l.rev, l.imm))
         == Select(l.st.recs, rest, NotRotated(name, prot, l.rev, l.imm))
  {
    hide Select, Matching;
    SelectCons(l.st.recs, c, rest, Rotated(name, prot, l.rev, l.imm));
    SelectCons(l.st.recs, c, rest, NotRotated(name, prot, l.rev, l.imm));
  }

  // The same for an entry that stays where it is.
  lemma SelectLeft(l: Look, c: Crec, rest: seq<Crec>, name: string, prot: Flags)
    requires c in l.st.recs && forall x :: x in rest ==> x in l.st.recs
    requires !Matching(l.st.recs[c], name, prot) || !SameClass(l, l.st.recs[c])
    ensures Select(l.st.recs, [c] + rest, Rotated(name, prot, l.rev, l.imm))
         == Select(l.st.recs, rest, Rotated(name, prot, l.rev, l.imm))
    ensures Select(l.st.recs, [c] + rest, NotRotated(name, prot, l.rev, l.imm))
         == [c] + Select(l.st.recs, rest, NotRotated(name, prot, l.rev, l.imm))
  {
    hide Select, Matching;
    SelectCons(l.st.recs, c, rest, Rotated(name, prot, l.rev, l.imm));
    SelectCons(l.st.recs, c, rest, NotRotated(name, prot, l.rev, l.imm));
  }

  lemma MatchStaying(l: Look, b: nat, rest: seq<Crec>, name: string, prot: Flags)
    requires LookOk(l, b) && l.i < |l.st.chains[b]| && l.st.chains[b][l.i] in l.st.recs && LookOk(LookMatch(l, b), b)
    requires forall c :: c in rest ==> c in l.st.recs
    requires Matching(l.st.recs[l.st.chains[b][l.i]], name, prot)
    requires l.started && !SameClass(l, l.st.recs[l.st.chains[b][l.i]])
    ensures LookMatch(l, b).st.recs == l.st.recs
    ensures FinalChain(LookMatch(l, b), b, rest, name, prot) == FinalChain(l, b, [l.st.chains[b][l.i]] + rest, name,
        prot)
  {
    hide LookMatch, Wf, Distinct, Select, InsertAt, RemoveAt, Matching, FinalChain, Rotated, NotRotated, SameClass;
    var ch, c := l.st.chains[b], l.st.chains[b][l.i];
    MatchShape(l, b);
    SelectLeft(l, c, rest, name, prot);
    StartedChain(l, b, [c] + rest, name, prot);
    StartedChain(LookMatch(l, b), b, rest, name, prot);
    assert l.ins <= l.i < |ch|;
    hide LookOk;
    PlaceStaying(ch, l.i, l.ins, Select(l.st.recs, rest, Rotated(name, prot, l.rev, l.imm)),
      Select(l.st.recs, rest, NotRotated(name, prot, l.rev, l.imm)));
  }

  lemma MatchFirst(l: Look, b: nat, rest: seq<Crec>, name: string, prot: Flags)
    requires LookOk(l, b) && l.i < |l.st.chains[b]| && l.st.chains[b][l.i] in l.st.recs && LookOk(LookMatch(l, b), b)
    requires forall c :: c in rest ==> c in l.st.recs
    requires Matching(l.st.recs[l.st.chains[b][l.i]], name, prot)
    requires !l.started
    ensures LookMatch(l, b).st.recs == l.st.recs
    ensures FinalChain(LookMatch(l, b), b, rest, name, prot) == FinalChain(l, b, [l.st.chains[b][l.i]] + rest, name,
        prot)
  {
    var ch, c := l.st.chains[b], l.st.chains[b][l.i];
    MatchShape(l, b);
    hide LookMatch, Wf, LookOk, Distinct, Select, InsertAt, RemoveAt;
    var f := l.st.recs[c].flags;
    assert ([c] + rest)[1..] == rest;
    PlaceFirst(ch, l.i, Select(l.st.recs, rest, Rotated(name, prot, f.reverse, f.immortal)),
               Select(l.st.recs, rest, NotRotated(name, prot, f.reverse, f.immortal)));
  }

  lemma FinalChainMatch(l: Look, b: nat, rest: seq<Crec>, name: string, prot: Flags)
    requires LookOk(l, b) && l.i < |l.st.chains[b]| && l.st.chains[b][l.i] in l.st.recs && LookOk(LookMatch(l, b), b)
    requires forall c :: c in rest ==> c in l.st.recs
    requires Matching(l.st.recs[l.st.chains[b][l.i]], name, prot)
    ensures LookMatch(l, b).st.recs == l.st.recs
    ensures FinalChain(LookMatch(l, b), b, rest, name, prot) == FinalChain(l, b, [l.st.chains[b][l.i]] + rest, name,
        prot)
  {
    hide LookMatch, FinalChain;
    if !l.started {
      MatchFirst(l, b, rest, name, prot);
    } else if SameClass(l, l.st.recs[l.st.chains[b][l.i]]) {
      MatchMoved(l, b, rest, name, prot);
    } else {
      MatchStaying(l, b, rest, name, prot);
    }
  }

  lemma {:induction false} LookChain(l: Look, b: nat, name: string, now: int, prot: Flags)
    requires LookOk(l, b)
    ensures forall c :: c in Rest(l, b, now) ==> c in l.st.recs
    ensures LookLoop(l, b, name, now, prot).st.chains[b] == FinalChain(l, b, Rest(l, b, now), name, prot)
    decreases |l.st.chains[b]| - l.i
  {
    hide LookLoop, Rest, Wf, Distinct, Select, FinalChain, LookMatch, Drop;
    RestMembers(l, b, now);
    if l.i == |l.st.chains[b]| {
      RestEnd(l, b, name, now, prot, Rotated(name, prot, l.rev, l.imm));
      FinalChainEnd(l, b, name, prot);
    } else {
      var n := LookStep(l, b, name, now, prot);
      var c := l.st.chains[b][l.i];
      LoopUnroll(l, b, name, now, prot);
      StepRest(l, b, name, now, prot);
      RestMembers(n, b, now);
      LookChain(n, b, name, now, prot);
      if Dead(l.st.recs, l.st.recs[c], now) {
        assert [] + Rest(n, b, now) == Rest(n, b, now);
        FinalChainDrop(l, b, Rest(n, b, now), name, prot);
      } else if Matching(l.st.recs[c], name, prot) {
        FinalChainMatch(l, b, Rest(n, b, now), name, prot);
      } else {
        FinalChainSkip(l, b, Rest(n, b, now), name, prot);
      }
    }
  }

  lemma FinalChainEnd(l: Look, b: nat, name: string, prot: Flags)
    requires LookOk(l, b) && l.i == |l.st.chains[b]|
    ensures FinalChain(l, b, [], name, prot) == l.st.chains[b]
  {
    var ch := l.st.chains[b];
    if l.started { assert ch[..l.ins] + [] + ch[l.ins..l.i] + [] == ch; }
  }
}
