// cache_scan_free: the two sweeps that remove expired and superseded records.
module CacheSweep {
  import opened HostNames
  import opened CacheState
  import opened CacheInvariant

  // A forward record that an insertion of name with these flags supersedes.
  predicate Supersedes(r: Rec, name: string, flags: Flags) {
    r.flags.forward && (flags.SameFamily(r.flags) || r.flags.cname || flags.cname) && NameEq(r.name, name)
  }

  predicate Dead(recs: map<Crec, Rec>, r: Rec, now: int) {
    Expired(r, now) || Outdated(recs, r)
  }

  // The F_FORWARD case: one bucket, from entry i on. The flag is false when a
  // live hosts or DHCP record holds the name.
  ghost function ScanForward(st: State, b: nat, i: nat, name: string, now: int, flags: Flags): (r: (State, bool))
    requires Wf(st) && b < |st.chains| && i <= |st.chains[b]|
    ensures Wf(r.0)
    decreases |st.chains[b]| - i
  {
    if i == |st.chains[b]| then (st, true)
    else
      var c := st.chains[b][i];
      assert ChainOk(st, b) && c in st.chains[b];
      if Dead(st.recs, st.recs[c], now) then
        DropWf(st, b, i);
        ScanForward(Drop(st, b, i), b, i, name, now, flags)
      else if Supersedes(st.recs[c], name, flags) then
        if !Cached(st.recs[c]) then (st, false)
        else
          DropWf(st, b, i);
          ScanForward(Drop(st, b, i), b, i, name, now, flags)
      else ScanForward(st, b, i + 1, name, now, flags)
  }

  // The record the other case looks for besides expired ones.
  predicate ReverseMatch(r: Rec, addr: Addr, flags: Flags) {
    Cached(r) && flags.reverse && r.flags.reverse && flags.SameFamily(r.flags) && r.addr == addr
  }

  predicate Swept(r: Rec, addr: Addr, now: int, flags: Flags) {
    Expired(r, now) || ReverseMatch(r, addr, flags)
  }

  // One chain of the whole-cache case, stopping at the first non-reverse immortal.
  ghost function ScanChain(st: State, b: nat, i: nat, addr: Addr, now: int, flags: Flags): (t: State)
    requires Wf(st) && b < |st.chains| && i <= |st.chains[b]|
    ensures Wf(t) && |t.chains| == |st.chains|
    decreases |st.chains[b]| - i
  {
    if i == |st.chains[b]| then st
    else
      var c := st.chains[b][i];
      assert ChainOk(st, b) && c in st.chains[b];
      if st.recs[c].flags.Class() == 2 then st
      else if Swept(st.recs[c], addr, now, flags) then
        DropWf(st, b, i);
        ScanChain(Drop(st, b, i), b, i, addr, now, flags)
      else ScanChain(st, b, i + 1, addr, now, flags)
  }

  ghost function ScanAll(st: State, b: nat, addr: Addr, now: int, flags: Flags): (t: State)
    requires Wf(st) && b <= |st.chains|
    ensures Wf(t) && |t.chains| == |st.chains|
    decreases |st.chains| - b
  {
    if b == |st.chains| then st
    else ScanAll(ScanChain(st, b, 0, addr, now, flags), b + 1, addr, now, flags)
  }

  ghost function ScanFree(st: State, name: string, addr: Addr, now: int, flags: Flags): (r: (State, bool))
    requires Wf(st)
    ensures Wf(r.0)
  {
    if flags.forward then ScanForward(st, Bucket(st, name), 0, name, now, flags)
    else (ScanAll(st, 0, addr, now, flags), true)
  }

  // ---------- both sweeps keep the invariant ----------

  // Sweeps only ever drop records.
  ghost predicate Shrunk(st: State, t: State)
    requires Wf(st) && Wf(t)
  {
    && t.pending == st.pending && t.born == st.born && t.clock == st.clock
    && t.hash == st.hash && t.insertError == st.insertError && t.bigLeft == st.bigLeft
    && |t.chains| == |st.chains| && t.recs.Keys == st.recs.Keys && st.uid <= t.uid
    && (forall x :: x in st.recs ==> t.recs[x].name == st.recs[x].name)
    && (forall x :: x in st.recs ==> t.recs[x].uid == st.recs[x].uid || st.uid <= t.recs[x].uid)
    && (forall x :: x in st.recs ==> (x in t.lru <==> x in st.lru))
    && (forall x :: x in st.recs && Hashed(t, x) ==> Hashed(st, x) && t.recs[x] == st.recs[x])
    && (forall x :: x in st.recs && Hashed(st, x) && !Hashed(t, x) && x in st.lru ==> !InUse(t.recs[x]))
    && (forall x :: x in st.recs && !Hashed(st, x) ==> t.recs[x] == st.recs[x])
  }

  lemma DropShrinks(st: State, b: nat, i: nat)
    requires Wf(st) && b < |st.chains| && i < |st.chains[b]|
    ensures Wf(Drop(st, b, i)) && Shrunk(st, Drop(st, b, i))
  {
    hide Drop, ChainOk, Distinct;
    DropIsDropped(st, b, i);
    DropRecs(st, b, i);
    EntryHashed(st, b, i);
  }

  lemma EntryHashed(st: State, b: nat, i: nat)
    requires Wf(st) && b < |st.chains| && i < |st.chains[b]|
    ensures Hashed(st, st.chains[b][i])
  {
    assert ChainOk(st, b) && st.chains[b][i] in st.chains[b];
  }

  lemma ShrunkReflexive(st: State)
    requires Wf(st)
    ensures Shrunk(st, st)
  {
  }

  lemma ShrunkTransitive(s: State, t: State, u: State)
    requires Wf(s) && Wf(t) && Wf(u) && Shrunk(s, t) && Shrunk(t, u)
    ensures Shrunk(s, u)
  {
    forall x | x in s.recs && Hashed(s, x) && !Hashed(u, x) && x in s.lru
      ensures !InUse(u.recs[x])
    {
      if !Hashed(t, x) { assert u.recs[x] == t.recs[x]; }
    }
  }

  lemma {:induction false} ScanForwardInv(st: State, b: nat, i: nat, name: string, now: int, flags: Flags)
    requires Inv(st) && b < |st.chains| && i <= |st.chains[b]|
    ensures var t := ScanForward(st, b, i, name, now, flags).0; Inv(t) && Shrunk(st, t) && BigNames(t) == BigNames(st)
    ensures PendingNoClash(st) ==> PendingNoClash(ScanForward(st, b, i, name, now, flags).0)
    decreases |st.chains[b]| - i
  {
    hide ChainsOrdered, PoolOk, FreeSuffix, FlagsOk, NoClash, CnamesOk, BigInPool, BigNames, PendingNoClash, Shrunk;
    ShrunkReflexive(st);
    if i < |st.chains[b]| {
      var c := st.chains[b][i];
      assert ChainOk(st, b) && c in st.chains[b];
      if Dead(st.recs, st.recs[c], now) || (Supersedes(st.recs[c], name, flags) && Cached(st.recs[c])) {
        DropInv(st, b, i);
        DropShrinks(st, b, i);
        ScanForwardInv(Drop(st, b, i), b, i, name, now, flags);
        ShrunkTransitive(st, Drop(st, b, i), ScanForward(st, b, i, name, now, flags).0);
      } else if !Supersedes(st.recs[c], name, flags) {
        ScanForwardInv(st, b, i + 1, name, now, flags);
      }
    }
  }

  lemma {:induction false} ScanChainInv(st: State, b: nat, i: nat, addr: Addr, now: int, flags: Flags)
    requires Inv(st) && b < |st.chains| && i <= |st.chains[b]|
    ensures var t := ScanChain(st, b, i, addr, now, flags); Inv(t) && Shrunk(st, t) && BigNames(t) == BigNames(st)
    ensures PendingNoClash(st) ==> PendingNoClash(ScanChain(st, b, i, addr, now, flags))
    decreases |st.chains[b]| - i
  {
    hide ChainsOrdered, PoolOk, FreeSuffix, FlagsOk, NoClash, CnamesOk, BigInPool, BigNames, PendingNoClash, Shrunk;
    ShrunkReflexive(st);
    if i < |st.chains[b]| {
      var c := st.chains[b][i];
      assert ChainOk(st, b) && c in st.chains[b];
      if st.recs[c].flags.Class() == 2 {
      } else if Swept(st.recs[c], addr, now, flags) {
        DropInv(st, b, i);
        DropShrinks(st, b, i);
        ScanChainInv(Drop(st, b, i), b, i, addr, now, flags);
        ShrunkTransitive(st, Drop(st, b, i), ScanChain(st, b, i, addr, now, flags));
      } else {
        ScanChainInv(st, b, i + 1, addr, now, flags);
      }
    }
  }

  lemma {:induction false} ScanAllInv(st: State, b: nat, addr: Addr, now: int, flags: Flags)
    requires Inv(st) && b <= |st.chains|
    ensures var t := ScanAll(st, b, addr, now, flags); Inv(t) && Shrunk(st, t) && BigNames(t) == BigNames(st)
    ensures PendingNoClash(st) ==> PendingNoClash(ScanAll(st, b, addr, now, flags))
    decreases |st.chains| - b
  {
    if b < |st.chains| {
      ScanChainInv(st, b, 0, addr, now, flags);
      var t := ScanChain(st, b, 0, addr, now, flags);
      ScanAllInv(t, b + 1, addr, now, flags);
      ShrunkTransitive(st, t, ScanAll(t, b + 1, addr, now, flags));
    }
  }

  lemma ScanFreeInv(st: State, name: string, addr: Addr, now: int, flags: Flags)
    requires Inv(st)
    ensures var t := ScanFree(st, name, addr, now, flags).0; Inv(t) && Shrunk(st, t) && BigNames(t) == BigNames(st)
    ensures PendingNoClash(st) ==> PendingNoClash(ScanFree(st, name, addr, now, flags).0)
  {
    if flags.forward {
      ScanForwardInv(st, Bucket(st, name), 0, name, now, flags);
    } else {
      ScanAllInv(st, 0, addr, now, flags);
    }
  }

  // ---------- what the sweeps achieve ----------

  // The effect of a drop on the chains and on the other records.
  lemma DropChain(st: State, b: nat, i: nat)
    requires Wf(st) && b < |st.chains| && i < |st.chains[b]|
    ensures var t := Drop(st, b, i);
            && Wf(t) && t.chains == st.chains[b := RemoveAt(st.chains[b], i)]
            && t.chains[b][..i] == st.chains[b][..i] && t.chains[b][i..] == st.chains[b][i + 1..]
            && t.hash == st.hash
            && (forall x :: x in st.recs && x != st.chains[b][i] ==> x in t.recs && t.recs[x] == st.recs[x])
            && st.chains[b][i] !in t.chains[b]
            && (forall x :: x in t.chains[b] ==> x in st.chains[b])
  {
    DropIsDropped(st, b, i);
    DropRecs(st, b, i);
    assert ChainOk(st, b);
    RemoveAtDistinct(st.chains[b], i);
  }

  // A hosts or DHCP record that stops an insertion.
  ghost predicate Blocks(st: State, h: Crec, name: string, now: int, flags: Flags)
    requires Wf(st)
  {
    Hashed(st, h) && !Cached(st.recs[h]) && !Expired(st.recs[h], now) && Supersedes(st.recs[h], name, flags)
  }

  ghost predicate SomeBlocks(st: State, name: string, now: int, flags: Flags)
    requires Wf(st)
  {
    exists h :: h in st.recs && Blocks(st, h, name, now, flags)
  }

  // Nothing before entry i of the bucket is expired or superseded.
  ghost predicate CleanBefore(st: State, b: nat, i: nat, name: string, now: int, flags: Flags)
    requires b < |st.chains| && i <= |st.chains[b]|
  {
    forall k :: 0 <= k < i ==> st.chains[b][k] in st.recs
                               && !Expired(st.recs[st.chains[b][k]], now) && !Supersedes(st.recs[st.chains[b][k]], name,
                                   flags)
  }

  lemma DropKeepsBlocks(st: State, b: nat, i: nat, name: string, now: int, flags: Flags)
    requires Inv(st) && b < |st.chains| && i < |st.chains[b]|
    requires var r := st.recs[st.chains[b][i]]; Cached(r) || Dead(st.recs, r, now)
    ensures Wf(Drop(st, b, i)) && (SomeBlocks(st, name, now, flags) <==> SomeBlocks(Drop(st, b, i), name, now, flags))
  {
    DropIsDropped(st, b, i);
    assert ChainOk(st, b);
    var t, c := Drop(st, b, i), st.chains[b][i];
    assert Hashed(st, c);
    forall h | h in st.recs
      ensures Blocks(st, h, name, now, flags) <==> Blocks(t, h, name, now, flags)
    {
    }
  }

  lemma CleanHasNoBlocks(st: State, name: string, now: int, flags: Flags)
    requires Wf(st)
    requires var b := Bucket(st, name); CleanBefore(st, b, |st.chains[b]|, name, now, flags)
    ensures !SomeBlocks(st, name, now, flags)
  {
    forall h | h in st.recs && Hashed(st, h) && NameEq(st.recs[h].name, name)
      ensures !Blocks(st, h, name, now, flags)
    {
      assert h in st.chains[Bucket(st, name)];
    }
  }

  lemma BlocksHere(st: State, b: nat, i: nat, name: string, now: int, flags: Flags)
    requires Wf(st) && b < |st.chains| && i < |st.chains[b]| && st.chains[b][i] in st.recs
    requires var r := st.recs[st.chains[b][i]]; !Cached(r) && !Dead(st.recs, r, now) && Supersedes(r, name, flags)
    ensures SomeBlocks(st, name, now, flags)
  {
    assert ChainOk(st, b);
    assert Blocks(st, st.chains[b][i], name, now, flags);
  }

  // The result is false exactly when a live hosts or DHCP record holds the name;
  // otherwise the bucket is left without expired or superseded records.
  lemma {:induction false} ScanForwardResult(st: State, i: nat, name: string, now: int, flags: Flags)
    requires Inv(st) && i <= |st.chains[Bucket(st, name)]|
    requires CleanBefore(st, Bucket(st, name), i, name, now, flags)
    ensures var b := Bucket(st, name); var (t, ok) := ScanForward(st, b, i, name, now, flags);
            && (!ok <==> SomeBlocks(st, name, now, flags))
            && |t.chains| == |st.chains|
            && (ok ==> CleanBefore(t, b, |t.chains[b]|, name, now, flags))
    decreases |st.chains[Bucket(st, name)]| - i
  {
    hide ChainsOrdered, PoolOk, FreeSuffix, FlagsOk, NoClash, CnamesOk, BigInPool, BigNames, PendingNoClash, Drop;
    hide SomeBlocks;
    var b := Bucket(st, name);
    if i == |st.chains[b]| {
      CleanHasNoBlocks(st, name, now, flags);
    } else {
      var c := st.chains[b][i];
      assert ChainOk(st, b) && c in st.chains[b];
      if Dead(st.recs, st.recs[c], now) || (Supersedes(st.recs[c], name, flags) && Cached(st.recs[c])) {
        DropInv(st, b, i);
        DropKeepsBlocks(st, b, i, name, now, flags);
        DropChain(st, b, i);
        var t := Drop(st, b, i);
        assert Bucket(t, name) == b;
        forall k | 0 <= k < i
          ensures t.chains[b][k] == st.chains[b][k]
        {
          assert t.chains[b][k] == t.chains[b][..i][k] == st.chains[b][..i][k];
        }
        assert CleanBefore(t, b, i, name, now, flags) by {
          forall k | 0 <= k < i
            ensures t.recs[t.chains[b][k]] == st.recs[st.chains[b][k]]
          {
            assert t.chains[b][k] in t.chains[b];
          }
        }
        ScanForwardResult(t, i, name, now, flags);
      } else if Supersedes(st.recs[c], name, flags) {
        BlocksHere(st, b, i, name, now, flags);
      } else {
        ScanForwardResult(st, i + 1, name, now, flags);
      }
    }
  }

  // What a complete scan of a chain, without early stop, would keep.
  ghost function KeepAll(recs: map<Crec, Rec>, ch: seq<Crec>, addr: Addr, now: int, flags: Flags): seq<Crec>
    requires forall c :: c in ch ==> c in recs
  {
    if ch == [] then []
    else (if Swept(recs[ch[0]], addr, now, flags) then [] else [ch[0]]) + KeepAll(recs, ch[1..], addr, now, flags)
  }

  lemma {:induction false} KeepAllFrame(recs: map<Crec, Rec>, recs': map<Crec, Rec>, ch: seq<Crec>, addr: Addr,
                                        now: int, flags: Flags)
    requires forall c :: c in ch ==> c in recs && c in recs' && recs[c] == recs'[c]
    ensures KeepAll(recs, ch, addr, now, flags) == KeepAll(recs', ch, addr, now, flags)
  {
    if ch != [] { KeepAllFrame(recs, recs', ch[1..], addr, now, flags); }
  }

  lemma KeepAllEnd(recs: map<Crec, Rec>, ch: seq<Crec>, addr: Addr, now: int, flags: Flags)
    requires forall c :: c in ch ==> c in recs
    ensures ch[..|ch|] + KeepAll(recs, ch[|ch|..], addr, now, flags) == ch
  {
  }

  lemma KeepAllStep(recs: map<Crec, Rec>, ch: seq<Crec>, i: nat, addr: Addr, now: int, flags: Flags)
    requires forall c :: c in ch ==> c in recs
    requires i < |ch|
    ensures Swept(recs[ch[i]], addr, now, flags) ==>
              KeepAll(recs, ch[i..], addr, now, flags) == KeepAll(recs, ch[i + 1..], addr, now, flags)
    ensures !Swept(recs[ch[i]], addr, now, flags) ==>
              ch[..i] + KeepAll(recs, ch[i..], addr, now, flags) == ch[..i + 1] + KeepAll(recs, ch[i + 1..], addr, now,
                  flags)
  {
    assert ch[i..][1..] == ch[i + 1..];
    assert ch[..i + 1] == ch[..i] + [ch[i]];
  }

  lemma {:induction false} KeepAllImmortals(recs: map<Crec, Rec>, ch: seq<Crec>, addr: Addr, now: int, flags: Flags)
    requires Ordered(recs, ch) && (ch != [] ==> recs[ch[0]].flags.Class() == 2)
    ensures KeepAll(recs, ch, addr, now, flags) == ch
  {
    if ch != [] {
      assert ch[1..] != [] ==> ch[1..][0] == ch[1];
      KeepAllImmortals(recs, ch[1..], addr, now, flags);
    }
  }

  lemma ChainRecs(st: State, b: nat)
    requires Wf(st) && b < |st.chains|
    ensures forall c :: c in st.chains[b] ==> c in st.recs
  {
    assert ChainOk(st, b);
  }

  lemma ImmortalTail(st: State, b: nat, i: nat, addr: Addr, now: int, flags: Flags)
    requires Wf(st) && ChainsOrdered(st) && b < |st.chains| && i < |st.chains[b]|
    requires st.chains[b][i] in st.recs && st.recs[st.chains[b][i]].flags.Class() == 2
    ensures forall c :: c in st.chains[b][i..] ==> c in st.recs
    ensures KeepAll(st.recs, st.chains[b][i..], addr, now, flags) == st.chains[b][i..]
  {
    ChainRecs(st, b);
    assert Ordered(st.recs, st.chains[b]);
    assert Ordered(st.recs, st.chains[b][i..]);
    KeepAllImmortals(st.recs, st.chains[b][i..], addr, now, flags);
  }

  lemma SweptEntry(st: State, b: nat, i: nat, addr: Addr, now: int, flags: Flags)
    requires Wf(st) && ChainsOrdered(st) && b < |st.chains| && i < |st.chains[b]| && forall c :: c in st.chains[b] ==>
        c in st.recs
    requires Swept(st.recs[st.chains[b][i]], addr, now, flags)
    ensures var t, ch := Drop(st, b, i), st.chains[b];
      && Wf(t) && ChainsOrdered(t) && |t.chains| == |st.chains| && |t.chains[b]| == |ch| - 1
      && t.chains == st.chains[b := t.chains[b]] && t.chains[b][..i] == ch[..i]
      && (forall x :: x in t.chains[b] ==> x in t.recs && x in ch)
      && (forall x :: x in st.recs && x !in ch ==> x in t.recs && t.recs[x] == st.recs[x])
      && KeepAll(t.recs, t.chains[b][i..], addr, now, flags) == KeepAll(st.recs, ch[i..], addr, now, flags)
  {
    DropChain(st, b, i);
    DropOrdered(st, b, i);
    hide Drop, Wf, ChainsOrdered, Distinct, KeepAll, Swept;
    var t, ch := Drop(st, b, i), st.chains[b];
    assert ch[i] in ch;
    KeepAllStep(st.recs, ch, i, addr, now, flags);
    assert forall x :: x in ch[i + 1..] ==> x in t.chains[b] by { assert t.chains[b][i..] == ch[i + 1..]; }
    KeepAllFrame(st.recs, t.recs, ch[i + 1..], addr, now, flags);
  }

  // Stopping at the first non-reverse immortal loses nothing: the chain is left
  // as a complete scan would leave it.
  lemma {:induction false} EarlyStopIsExact(st: State, b: nat, i: nat, addr: Addr, now: int, flags: Flags)
    requires Wf(st) && ChainsOrdered(st) && b < |st.chains| && i <= |st.chains[b]|
    ensures forall c :: c in st.chains[b] ==> c in st.recs
    ensures var t := ScanChain(st, b, i, addr, now, flags);
            && t.chains == st.chains[b := st.chains[b][..i] + KeepAll(st.recs, st.chains[b][i..], addr, now, flags)]
            && (forall x :: x in st.recs && x !in st.chains[b] ==> x in t.recs && t.recs[x] == st.recs[x])
    decreases |st.chains[b]| - i
  {
    var ch := st.chains[b];
    ChainRecs(st, b);
    hide Drop, Wf, ChainsOrdered, Ordered, ChainOk, Distinct, FreeSuffix, KeepAll, Swept;
    if i == |ch| {
      KeepAllEnd(st.recs, ch, addr, now, flags);
    } else {
      var c := ch[i];
      assert c in ch;
      if st.recs[c].flags.Class() == 2 {
        ImmortalTail(st, b, i, addr, now, flags);
        assert ch[..i] + ch[i..] == ch;
      } else if Swept(st.recs[c], addr, now, flags) {
        SweptEntry(st, b, i, addr, now, flags);
        var t := Drop(st, b, i);
        assert ScanChain(st, b, i, addr, now, flags) == ScanChain(t, b, i, addr, now, flags);
        hide ScanChain, RemoveAt;
        EarlyStopIsExact(t, b, i, addr, now, flags);
      } else {
        assert ScanChain(st, b, i, addr, now, flags) == ScanChain(st, b, i + 1, addr, now, flags);
        hide ScanChain;
        EarlyStopIsExact(st, b, i + 1, addr, now, flags);
        KeepAllStep(st.recs, ch, i, addr, now, flags);
      }
    }
  }

  lemma {:induction false} KeepAllMembers(recs: map<Crec, Rec>, ch: seq<Crec>, addr: Addr, now: int, flags: Flags)
    requires forall c :: c in ch ==> c in recs
    ensures forall c :: c in ch ==> (c in KeepAll(recs, ch, addr, now, flags) <==> !Swept(recs[c], addr, now, flags))
    ensures forall c :: c in KeepAll(recs, ch, addr, now, flags) ==> c in ch
  {
    if ch != [] {
      KeepAllMembers(recs, ch[1..], addr, now, flags);
      assert ch == [ch[0]] + ch[1..];
    }
  }

  lemma ChainsDisjoint(st: State, b: nat, d: nat)
    requires Wf(st) && b < |st.chains| && d < |st.chains| && b != d
    ensures forall c :: c in st.chains[b] ==> c !in st.chains[d]
  {
    assert ChainOk(st, b) && ChainOk(st, d);
  }

  // The whole sweep leaves every chain as complete scans would.
  lemma ScanAllIsExact(st: State, b: nat, addr: Addr, now: int, flags: Flags)
    requires Inv(st) && b <= |st.chains|
    ensures forall d :: 0 <= d < |st.chains| ==> forall c :: c in st.chains[d] ==> c in st.recs
    ensures var t := ScanAll(st, b, addr, now, flags);
            |t.chains| == |st.chains| &&
            forall d :: 0 <= d < |st.chains| ==>
              t.chains[d] == if d < b then st.chains[d] else KeepAll(st.recs, st.chains[d], addr, now, flags)
  {
    ScanAllKept(st, b, addr, now, flags);
    hide Inv, ScanAll, KeepAll;
  }

  ghost predicate AllKept(recs: map<Crec, Rec>, before: seq<seq<Crec>>, after: seq<seq<Crec>>, b: nat, addr: Addr,
                          now: int, flags: Flags) {
    && |after| == |before|
    && forall d :: 0 <= d < |before| ==>
         && (forall c :: c in before[d] ==> c in recs)
         && after[d] == if d < b then before[d] else KeepAll(recs, before[d], addr, now, flags)
  }

  lemma {:induction false} ScanAllKept(st: State, b: nat, addr: Addr, now: int, flags: Flags)
    requires Inv(st) && b <= |st.chains|
    ensures AllKept(st.recs, st.chains, ScanAll(st, b, addr, now, flags).chains, b, addr, now, flags)
    decreases |st.chains| - b
  {
    AllChainRecs(st);
    hide ChainsOrdered, PoolOk, FreeSuffix, FlagsOk, NoClash, CnamesOk, BigInPool, BigNames, PendingNoClash;
    hide ChainOk, KeepAll, Distinct;
    if b < |st.chains| {
      var t := ScanChain(st, b, 0, addr, now, flags);
      FirstChain(st, b, addr, now, flags);
      ScanChainInv(st, b, 0, addr, now, flags);
      assert ScanAll(st, b, addr, now, flags) == ScanAll(t, b + 1, addr, now, flags);
      hide ScanAll, ScanChain, Inv, AllKept;
      ScanAllKept(t, b + 1, addr, now, flags);
      KeptStep(st, t, ScanAll(t, b + 1, addr, now, flags), b, addr, now, flags);
    }
  }

  lemma KeptStep(st: State, t: State, u: State, b: nat, addr: Addr, now: int, flags: Flags)
    requires b < |st.chains| == |t.chains| && AllKept(t.recs, t.chains, u.chains, b + 1, addr, now, flags)
    requires forall d :: 0 <= d < |st.chains| ==> forall c :: c in st.chains[d] ==> c in st.recs
    requires t.chains[b] == KeepAll(st.recs, st.chains[b], addr, now, flags)
    requires forall d :: 0 <= d < |st.chains| && d != b ==>
               && t.chains[d] == st.chains[d] && (forall c :: c in st.chains[d] ==> c in t.recs)
               && KeepAll(t.recs, st.chains[d], addr, now, flags) == KeepAll(st.recs, st.chains[d], addr, now, flags)
    ensures AllKept(st.recs, st.chains, u.chains, b, addr, now, flags)
  {
    hide KeepAll;
  }

  lemma AllChainRecs(st: State)
    requires Wf(st)
    ensures forall d :: 0 <= d < |st.chains| ==> forall c :: c in st.chains[d] ==> c in st.recs
  {
    forall d | 0 <= d < |st.chains|
      ensures forall c :: c in st.chains[d] ==> c in st.recs
    {
      ChainRecs(st, d);
    }
  }

  lemma FirstChain(st: State, b: nat, addr: Addr, now: int, flags: Flags)
    requires Inv(st) && b < |st.chains|
    ensures forall d :: 0 <= d < |st.chains| ==> forall c :: c in st.chains[d] ==> c in st.recs
    ensures var t := ScanChain(st, b, 0, addr, now, flags);
            && t.chains[b] == KeepAll(st.recs, st.chains[b], addr, now, flags)
            && (forall d :: 0 <= d < |st.chains| && d != b ==>
                  && t.chains[d] == st.chains[d]
                  && (forall c :: c in st.chains[d] ==> c in t.recs)
                  && KeepAll(t.recs, st.chains[d], addr, now, flags) == KeepAll(st.recs, st.chains[d], addr, now,
                      flags))
  {
    AllChainRecs(st);
    hide PoolOk, FreeSuffix, FlagsOk, NoClash, CnamesOk, BigInPool, BigNames, ChainOk, KeepAll, Distinct;
    var t := ScanChain(st, b, 0, addr, now, flags);
    EarlyStopIsExact(st, b, 0, addr, now, flags);
    assert st.chains[b][0..] == st.chains[b];
    forall d | 0 <= d < |st.chains| && d != b
      ensures forall c :: c in st.chains[d] ==> c in t.recs && t.recs[c] == st.recs[c]
      ensures (forall c :: c in st.chains[d] ==> c in t.recs)
      ensures KeepAll(t.recs, st.chains[d], addr, now, flags) == KeepAll(st.recs, st.chains[d], addr, now, flags)
    {
      ChainsDisjoint(st, d, b);
      KeepAllFrame(st.recs, t.recs, st.chains[d], addr, now, flags);
    }
  }

  // Evicting the record at the tail of the LRU always frees it: the scan cannot be
  // stopped by a hosts or DHCP record, and its own record matches itself.
  lemma EvictionFreesTail(st: State, now: int)
    requires Inv(st) && st.lru != [] && InUse(st.recs[st.lru[|st.lru| - 1]])
    ensures var r := st.recs[st.lru[|st.lru| - 1]]; var t := ScanFree(st, r.name, r.addr, now, r.flags).0;
            && Inv(t) && t.lru != [] && t.lru[|t.lru| - 1] in t.recs && !InUse(t.recs[t.lru[|t.lru| - 1]])
  {
    var c := st.lru[|st.lru| - 1];
    var r := st.recs[c];
    var t := ScanFree(st, r.name, r.addr, now, r.flags).0;
    ScanFreeInv(st, r.name, r.addr, now, r.flags);
    assert InsertFlags(r.flags.(bigname := false));
    if r.flags.forward {
      TailForwardUnhashed(st, c, now);
    } else {
      TailReverseUnhashed(st, c, now);
    }
    assert c in t.lru && !InUse(t.recs[c]);
    var k :| 0 <= k < |t.lru| && t.lru[k] == c;
    assert !InUse(t.recs[t.lru[|t.lru| - 1]]);
  }

  lemma TailForwardUnhashed(st: State, c: Crec, now: int)
    requires Inv(st) && c in st.lru && st.recs[c].flags.forward
    ensures var r := st.recs[c]; !Hashed(ScanForward(st, Bucket(st, r.name), 0, r.name, now, r.flags).0, c)
  {
    var r := st.recs[c];
    var b := Bucket(st, r.name);
    var t := ScanForward(st, b, 0, r.name, now, r.flags).0;
    ScanForwardResult(st, 0, r.name, now, r.flags);
    ScanForwardInv(st, b, 0, r.name, now, r.flags);
    forall h | h in st.recs && Blocks(st, h, r.name, now, r.flags)
      ensures Fixed(st, h) && Clash(r, st.recs[h])
    {
    }
    assert !SomeBlocks(st, r.name, now, r.flags);
    assert InsertFlags(r.flags.(bigname := false));
    assert Supersedes(r, r.name, r.flags);
  }

  lemma TailReverseUnhashed(st: State, c: Crec, now: int)
    requires Inv(st) && c in st.lru && st.recs[c].flags.reverse
    ensures var r := st.recs[c]; !Hashed(ScanAll(st, 0, r.addr, now, r.flags), c)
  {
    var r := st.recs[c];
    var t := ScanAll(st, 0, r.addr, now, r.flags);
    ScanAllIsExact(st, 0, r.addr, now, r.flags);
    ScanAllInv(st, 0, r.addr, now, r.flags);
    assert InsertFlags(r.flags.(bigname := false));
    var b := Bucket(st, r.name);
    KeepAllMembers(st.recs, st.chains[b], r.addr, now, r.flags);
    assert Hashed(st, c) && Swept(r, r.addr, now, r.flags);
    assert Bucket(t, t.recs[c].name) == b;
  }
}
