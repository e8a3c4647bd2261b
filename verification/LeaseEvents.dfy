// What a lease-change script learns from the events of lease.c: a script that keeps a
// table by following them has, whenever nothing is left to tell, exactly the leases.
module LeaseEvents {
  import opened Optional
  import opened LeaseTable

  datatype Entry = Entry(hw: Hw, name: Option<string>)

  type Table = map<nat, Entry>

  // The script's own book-keeping. A lost hostname of an unknown address is ignored.
  function Follow(t: Table, e: Event): Table {
    match e
    case Add(a, hw, n) => t[a := Entry(hw, n)]
    case Old(a, hw, n) => t[a := Entry(hw, n)]
    case OldHostname(a, _) => if a in t then t[a := t[a].(name := None)] else t
    case Del(a, _, _) => t - {a}
  }

  function Replay(t: Table, log: seq<Event>): Table {
    if log == [] then t else Follow(Replay(t, log[..|log| - 1]), log[|log| - 1])
  }

  ghost function TableOf(ls: seq<Lease>): Table
    requires DistinctAddrs(ls)
  {
    map i | 0 <= i < |ls| :: ls[i].addr := Entry(ls[i].hw, ls[i].hostname)
  }

  // ---------- invariants ----------

  // A live lease on the address of a pruned one that is still to be announced is new.
  predicate Reborn(s: Leases) {
    forall i, k :: 0 <= i < |s.live| && 0 <= k < |s.dead| && s.live[i].addr == s.dead[k].addr ==> s.live[i].isNew
  }

  // Every entry of the script's table has a lease, live or waiting to be deleted.
  predicate Covered(s: Leases, t: Table) {
    forall a :: a in t ==> HasAddr(s.live, a) || HasAddr(s.dead, a)
  }

  predicate Settled(l: Lease) {
    !l.isNew && !l.changed
  }

  // The table is right about a lease that has nothing to tell; a lost hostname leaves
  // the lease without one until someone sets "changed".
  predicate RightAbout(l: Lease, t: Table) {
    && l.addr in t && t[l.addr].hw == l.hw
    && (if l.oldHostname.Some? then l.hostname == None else t[l.addr].name == l.hostname)
  }

  predicate Mirrored(s: Leases, t: Table) {
    forall i :: 0 <= i < |s.live| && Settled(s.live[i]) ==> RightAbout(s.live[i], t)
  }

  // Unless a loss is still to be told, the table never gives a lease a name it lacks.
  predicate NoStaleName(l: Lease, t: Table) {
    l.oldHostname.None? && l.addr in t ==> t[l.addr].name.None? || t[l.addr].name == l.hostname
  }

  predicate NamesKnown(s: Leases, t: Table) {
    forall i :: 0 <= i < |s.live| && !HasAddr(s.dead, s.live[i].addr) ==> NoStaleName(s.live[i], t)
  }

  // A new lease is not in the table, once the previous lease of the address is deleted.
  predicate NewUnknown(s: Leases, t: Table) {
    forall i :: 0 <= i < |s.live| && s.live[i].isNew && !HasAddr(s.dead, s.live[i].addr) ==> s.live[i].addr !in t
  }

  predicate UniqueNames(t: Table) {
    forall a, b :: a in t && b in t && a != b ==> !SameName(t[a].name, t[b].name)
  }

  predicate TableInv(s: Leases, max: nat) {
    DistinctAddrs(s.live) && DistinctNames(s.live) && s.left + |s.live| == max
  }

  predicate EventInv(s: Leases, t: Table, synced: bool) {
    Reborn(s) && Covered(s, t) && NewUnknown(s, t) && NamesKnown(s, t) && UniqueNames(t) && (synced ==> Mirrored(s, t))
  }

  // ---------- one lease changed in place ----------

  // The changes a setter may make to a lease without breaking what the table says.
  predicate Quiet(l: Lease, m: Lease) {
    && m.addr == l.addr && m.isNew == l.isNew && (l.changed ==> m.changed)
    && (m.hw == l.hw || m.changed)
    && (|| (m.hostname == l.hostname && m.oldHostname == l.oldHostname)
        || (m.oldHostname.Some? && (m.hostname.None? || m.changed))
        || (l.hostname.None? && m.changed && m.oldHostname == l.oldHostname))
  }

  predicate QuietAll(a: seq<Lease>, b: seq<Lease>) {
    |a| == |b| && forall i :: 0 <= i < |a| ==> Quiet(a[i], b[i])
  }

  lemma QuietOne(l: Lease, m: Lease, t: Table)
    requires Quiet(l, m)
    ensures NoStaleName(l, t) ==> NoStaleName(m, t)
    ensures Settled(m) ==> Settled(l) && (RightAbout(l, t) ==> RightAbout(m, t))
  {
  }

  lemma QuietKeeps(s: Leases, s': Leases, t: Table, synced: bool)
    requires QuietAll(s.live, s'.live) && s'.dead == s.dead && EventInv(s, t, synced)
    ensures EventInv(s', t, synced)
  {
    hide NoStaleName, RightAbout, Settled, UniqueNames;
    forall i | 0 <= i < |s.live|
      ensures NoStaleName(s.live[i], t) ==> NoStaleName(s'.live[i], t)
      ensures Settled(s'.live[i]) ==> Settled(s.live[i]) && (RightAbout(s.live[i], t) ==> RightAbout(s'.live[i], t))
    {
      QuietOne(s.live[i], s'.live[i], t);
    }
    forall a | a in t
      ensures HasAddr(s'.live, a) || HasAddr(s'.dead, a)
    {
      if HasAddr(s.live, a) {
        var i :| 0 <= i < |s.live| && s.live[i].addr == a;
        assert s'.live[i].addr == a;
      }
    }
  }

  lemma SetHostnameQuiet(s: Leases, i: nat, name: Option<string>, auth: bool, room: bool)
    requires i < |s.live|
    ensures QuietAll(s.live, SetHostname(s, i, name, auth, room).live)
    ensures SetHostname(s, i, name, auth, room).dead == s.dead
  {
  }

  // ---------- each operation keeps the table invariant ----------

  lemma SetHostnameTable(s: Leases, i: nat, name: Option<string>, auth: bool, room: bool, max: nat)
    requires i < |s.live| && TableInv(s, max)
    ensures TableInv(SetHostname(s, i, name, auth, room), max)
  {
    var s' := SetHostname(s, i, name, auth, room);
    SetHostnameQuiet(s, i, name, auth, room);
    if name.Some? {
      RobAll(s.live, name.v);
    }
  }

  // Names are distinct, so after robbing the first holder nobody has the name.
  lemma RobAll(ls: seq<Lease>, name: string)
    requires DistinctNames(ls)
    ensures |Rob(ls, Some(name))| == |ls|
    ensures forall k :: 0 <= k < |ls| ==> !SameName(Rob(ls, Some(name))[k].hostname, Some(name))
  {
    var j := NameHolder(ls, name);
    forall k | j < k < |ls|
      ensures !SameName(ls[k].hostname, Some(name))
    {
      assert !SameName(ls[j].hostname, ls[k].hostname);
    }
  }

  lemma AllocateKeeps(s: Leases, a: nat, room: bool, t: Table, synced: bool, max: nat)
    requires TableInv(s, max) && EventInv(s, t, synced) && !HasAddr(s.live, a)
    ensures TableInv(Allocate(s, a, room), max) && EventInv(Allocate(s, a, room), t, synced)
  {
    var s' := Allocate(s, a, room);
    if s' != s {
      assert forall i :: 0 < i < |s'.live| ==> s'.live[i] == s.live[i - 1];
      assert s'.live[0] == NewLease(a);
      assert a in t ==> HasAddr(s.dead, a);
      forall b | HasAddr(s.live, b)
        ensures HasAddr(s'.live, b)
      {
        var i :| 0 <= i < |s.live| && s.live[i].addr == b;
        assert s'.live[i + 1].addr == b;
      }
    }
  }

  // ---------- pruning ----------

  lemma {:induction false} KeptIsFilter(ls: seq<Lease>, target: Option<nat>, now: nat)
    ensures forall l :: l in Kept(ls, target, now) <==> l in ls && !Goes(l, target, now)
    ensures forall l :: l in Gone(ls, target, now) <==> l in ls && Goes(l, target, now)
    ensures |Kept(ls, target, now)| + |Gone(ls, target, now)| == |ls|
  {
    if ls != [] {
      KeptIsFilter(ls[1..], target, now);
      assert ls == [ls[0]] + ls[1..];
    }
  }

  // Kept leases in their old order: the k-th one was at some index.
  // What is kept stands further down in the list.
  lemma KeptFrom(ls: seq<Lease>, target: Option<nat>, now: nat, k: nat) returns (i: nat)
    requires ls != [] && k < |Kept(ls[1..], target, now)|
    ensures 0 < i < |ls| && ls[i] == Kept(ls[1..], target, now)[k]
  {
    KeptIsFilter(ls[1..], target, now);
    assert Kept(ls[1..], target, now)[k] in ls[1..];
    var j :| 0 <= j < |ls[1..]| && ls[1..][j] == Kept(ls[1..], target, now)[k];
    i := j + 1;
  }

  lemma {:induction false} KeptDistinctAddrs(ls: seq<Lease>, target: Option<nat>, now: nat)
    requires DistinctAddrs(ls)
    ensures DistinctAddrs(Kept(ls, target, now))
  {
    hide Goes;
    if ls != [] {
      var rest := Kept(ls[1..], target, now);
      KeptDistinctAddrs(ls[1..], target, now);
      forall k | 0 <= k < |rest|
        ensures rest[k].addr != ls[0].addr
      {
        var i := KeptFrom(ls, target, now, k);
      }
    }
  }

  lemma {:induction false} KeptDistinctNames(ls: seq<Lease>, target: Option<nat>, now: nat)
    requires DistinctNames(ls)
    ensures DistinctNames(Kept(ls, target, now))
  {
    hide Goes, SameName;
    if ls != [] {
      var rest := Kept(ls[1..], target, now);
      KeptDistinctNames(ls[1..], target, now);
      forall k | 0 <= k < |rest|
        ensures !SameName(ls[0].hostname, rest[k].hostname)
      {
        var i := KeptFrom(ls, target, now, k);
      }
    }
  }

  lemma KeptDistinct(ls: seq<Lease>, target: Option<nat>, now: nat)
    requires DistinctAddrs(ls) && DistinctNames(ls)
    ensures DistinctAddrs(Kept(ls, target, now)) && DistinctNames(Kept(ls, target, now))
  {
    KeptDistinctAddrs(ls, target, now);
    KeptDistinctNames(ls, target, now);
  }

  lemma HasAddrMembers(ls: seq<Lease>, a: nat)
    ensures HasAddr(ls, a) <==> exists l :: l in ls && l.addr == a
  {
    if HasAddr(ls, a) {
      var i :| 0 <= i < |ls| && ls[i].addr == a;
      assert ls[i] in ls;
    }
  }

  lemma PruneTable(s: Leases, target: Option<nat>, now: nat, max: nat)
    requires TableInv(s, max)
    ensures TableInv(Prune(s, target, now), max)
  {
    KeptIsFilter(s.live, target, now);
    KeptDistinct(s.live, target, now);
  }

  lemma PruneAddrs(s: Leases, target: Option<nat>, now: nat, a: nat)
    ensures var s' := Prune(s, target, now);
      HasAddr(s'.live, a) || HasAddr(s'.dead, a) <==> HasAddr(s.live, a) || HasAddr(s.dead, a)
    ensures HasAddr(s.dead, a) ==> HasAddr(Prune(s, target, now).dead, a)
  {
    var s' := Prune(s, target, now);
    KeptIsFilter(s.live, target, now);
    HasAddrMembers(s.live, a);
    HasAddrMembers(s.dead, a);
    HasAddrMembers(s'.live, a);
    HasAddrMembers(s'.dead, a);
  }

  lemma GoneApart(ls: seq<Lease>, target: Option<nat>, now: nat, g: Lease, l: Lease)
    requires DistinctAddrs(ls) && g in Gone(ls, target, now) && l in Kept(ls, target, now)
    ensures g.addr != l.addr
  {
    KeptIsFilter(ls, target, now);
    var m :| 0 <= m < |ls| && ls[m] == g;
    var n :| 0 <= n < |ls| && ls[n] == l;
    assert m < n || n < m;
  }

  lemma PruneReborn(s: Leases, target: Option<nat>, now: nat)
    requires Reborn(s) && DistinctAddrs(s.live)
    ensures Reborn(Prune(s, target, now))
  {
    var s' := Prune(s, target, now);
    KeptIsFilter(s.live, target, now);
    forall i, k | 0 <= i < |s'.live| && 0 <= k < |s'.dead| && s'.live[i].addr == s'.dead[k].addr
      ensures s'.live[i].isNew
    {
      assert s'.live[i] in s'.live;
      var gone := Gone(s.live, target, now);
      forall g | g in gone
        ensures g.addr != s'.live[i].addr
      {
        GoneApart(s.live, target, now, g, s'.live[i]);
      }
      assert s'.dead[k] !in gone;
      assert s'.dead[k] == s.dead[k - |gone|];
    }
  }

  lemma PruneKeeps(s: Leases, target: Option<nat>, now: nat, t: Table, synced: bool)
    requires EventInv(s, t, synced) && DistinctAddrs(s.live)
    ensures EventInv(Prune(s, target, now), t, synced)
  {
    hide UniqueNames, NoStaleName, Settled, RightAbout, Goes;
    var s' := Prune(s, target, now);
    PruneReborn(s, target, now);
    forall a
      ensures HasAddr(s'.live, a) || HasAddr(s'.dead, a) <==> HasAddr(s.live, a) || HasAddr(s.dead, a)
      ensures HasAddr(s.dead, a) ==> HasAddr(s'.dead, a)
    {
      PruneAddrs(s, target, now, a);
    }
    KeptIsFilter(s.live, target, now);
    forall i | 0 <= i < |s'.live|
      ensures exists n :: 0 <= n < |s.live| && s.live[n] == s'.live[i]
    {
      assert s'.live[i] in s'.live;
    }
  }

  // ---------- the script ----------

  // Both forms of the "old hostname" event, and the deletion of a pruned lease.
  lemma ScriptKeepsDead(s: Leases, ro: bool, t: Table, synced: bool)
    requires EventInv(s, t, synced) && s.dead != []
    ensures EventInv(Script(s, ro).0, Follow(t, Script(s, ro).1.v), synced)
  {
    var (s', e) := Script(s, ro);
    var t' := Follow(t, e.v);
    DeadAddrs(s, ro);
    hide Script;
    assert Reborn(s') by { hide Covered, NewUnknown, NamesKnown, UniqueNames, Mirrored; }
    assert Covered(s', t') by { hide Reborn, NewUnknown, NamesKnown, UniqueNames, Mirrored; }
    assert NewUnknown(s', t') by { hide Reborn, Covered, NamesKnown, UniqueNames, Mirrored; }
    assert NamesKnown(s', t') by { hide Covered, UniqueNames, Mirrored; }
    assert UniqueNames(t') by { hide Reborn, Covered, NamesKnown, NewUnknown, Mirrored; }
    assert synced ==> Mirrored(s', t') by { hide Covered, NamesKnown, NewUnknown, UniqueNames; }
  }

  lemma DeadAddrs(s: Leases, ro: bool)
    requires s.dead != []
    ensures var (s', e) := Script(s, ro);
      && e.Some? && s'.live == s.live
      && (forall b :: HasAddr(s'.dead, b) ==> HasAddr(s.dead, b))
      && (forall k :: 0 <= k < |s'.dead| ==> HasAddr(s.dead, s'.dead[k].addr))
      && (e.v.OldHostname? || e.v.Del?) && e.v.addr == s.dead[0].addr
      && (e.v.OldHostname? ==> forall b :: HasAddr(s.dead, b) ==> HasAddr(s'.dead, b))
      && (e.v.Del? ==> forall b :: HasAddr(s.dead, b) && b != e.v.addr ==> HasAddr(s'.dead, b))
  {
    var s' := Script(s, ro).0;
    forall b | HasAddr(s.dead, b) && (s.dead[0].oldHostname.Some? || b != s.dead[0].addr)
      ensures HasAddr(s'.dead, b)
    {
      var k :| 0 <= k < |s.dead| && s.dead[k].addr == b;
      assert if s.dead[0].oldHostname.Some? then s'.dead[k].addr == b else k > 0 && s'.dead[k - 1] == s.dead[k];
    }
    forall k | 0 <= k < |s'.dead|
      ensures HasAddr(s.dead, s'.dead[k].addr)
    {
      var j := if s.dead[0].oldHostname.Some? then k else k + 1;
      assert s.dead[j].addr == s'.dead[k].addr;
    }
  }

  function Nameless(t: Table, a: nat): Table {
    if a in t then t[a := t[a].(name := None)] else t
  }

  lemma LostCovered(s: Leases, t: Table, i: nat)
    requires i < |s.live| && s.dead == [] && Covered(s, t) && NewUnknown(s, t) && UniqueNames(t)
    ensures var s', t' := s.(live := s.live[i := Unnamed(s.live[i])]), Nameless(t, s.live[i].addr);
      Covered(s', t') && NewUnknown(s', t') && UniqueNames(t')
  {
    SameAddrs(s.live, s.live[i := Unnamed(s.live[i])]);
  }

  lemma LostRight(s: Leases, t: Table, synced: bool, i: nat)
    requires i < |s.live| && s.dead == [] && DistinctAddrs(s.live) && s.live[i].oldHostname.Some?
    requires NamesKnown(s, t) && (synced ==> Mirrored(s, t))
    ensures var s', t' := s.(live := s.live[i := Unnamed(s.live[i])]), Nameless(t, s.live[i].addr);
      NamesKnown(s', t') && (synced ==> Mirrored(s', t'))
  {
    var s', t' := s.(live := s.live[i := Unnamed(s.live[i])]), Nameless(t, s.live[i].addr);
    forall k | 0 <= k < |s.live|
      ensures NoStaleName(s'.live[k], t')
      ensures synced && Settled(s'.live[k]) ==> RightAbout(s'.live[k], t')
    {
      assert !HasAddr(s.dead, s.live[k].addr);
      assert k == i || s.live[k].addr != s.live[i].addr;
    }
  }

  lemma ScriptKeepsLost(s: Leases, ro: bool, t: Table, synced: bool)
    requires EventInv(s, t, synced) && s.dead == [] && LostName(s.live) < |s.live| && DistinctAddrs(s.live)
    ensures EventInv(Script(s, ro).0, Follow(t, Script(s, ro).1.v), synced)
  {
    var i := LostName(s.live);
    var s' := Script(s, ro).0;
    assert s' == s.(live := s.live[i := Unnamed(s.live[i])]);
    assert Script(s, ro).1 == Some(OldHostname(s.live[i].addr, s.live[i].oldHostname.v));
    hide Script, LostName, Covered, NamesKnown, NewUnknown, UniqueNames, Mirrored, DistinctAddrs;
    LostCovered(s, t, i);
    LostRight(s, t, synced, i);
  }

  lemma SameAddrs(ls: seq<Lease>, ms: seq<Lease>)
    requires |ms| == |ls| && forall k :: 0 <= k < |ls| ==> ms[k].addr == ls[k].addr
    ensures forall a :: HasAddr(ls, a) ==> HasAddr(ms, a)
  {
    forall a | HasAddr(ls, a)
      ensures HasAddr(ms, a)
    {
      var k :| 0 <= k < |ls| && ls[k].addr == a;
      assert ms[k].addr == a;
    }
  }

  lemma ScriptKeepsTold(s: Leases, ro: bool, t: Table, synced: bool)
    requires EventInv(s, t, synced) && s.dead == [] && LostName(s.live) == |s.live|
    requires DistinctAddrs(s.live) && DistinctNames(s.live) && FirstUntold(s.live, ro) < |s.live|
    ensures EventInv(Script(s, ro).0, Follow(t, Script(s, ro).1.v), synced)
  {
    hide Covered, NamesKnown, NewUnknown, UniqueNames, Mirrored, DistinctAddrs, DistinctNames;
    var i := FirstUntold(s.live, ro);
    var s', t' := Script(s, ro).0, Follow(t, Script(s, ro).1.v);
    assert t' == t[s.live[i].addr := Entry(s.live[i].hw, s.live[i].hostname)];
    assert s' == s.(live := s.live[i := Told(s.live[i])]);
    hide Script, LostName, FirstUntold;
    ToldCovered(s, t, i);
    ToldUnique(s, t, i);
    ToldRight(s, t, synced, i);
  }

  lemma ToldCovered(s: Leases, t: Table, i: nat)
    requires i < |s.live| && s.dead == [] && DistinctAddrs(s.live) && Covered(s, t) && NewUnknown(s, t)
    ensures var l := s.live[i]; var s', t' := s.(live := s.live[i := Told(l)]), t[l.addr := Entry(l.hw, l.hostname)];
      Covered(s', t') && NewUnknown(s', t')
  {
    SameAddrs(s.live, s.live[i := Told(s.live[i])]);
    assert HasAddr(s.live, s.live[i].addr);
  }

  lemma ToldUnique(s: Leases, t: Table, i: nat)
    requires i < |s.live| && s.dead == [] && DistinctNames(s.live) && Covered(s, t) && NamesKnown(s, t)
    requires UniqueNames(t)
    requires forall k :: 0 <= k < |s.live| ==> s.live[k].oldHostname.None?
    ensures var l := s.live[i]; UniqueNames(t[l.addr := Entry(l.hw, l.hostname)])
  {
    var l := s.live[i];
    forall a | a in t && a != l.addr
      ensures !SameName(t[a].name, l.hostname) && !SameName(l.hostname, t[a].name)
    {
      var k :| 0 <= k < |s.live| && s.live[k].addr == a;
      assert NoStaleName(s.live[k], t);
      assert k < i ==> !SameName(s.live[k].hostname, l.hostname);
      assert k > i ==> !SameName(l.hostname, s.live[k].hostname);
    }
  }

  lemma ToldRight(s: Leases, t: Table, synced: bool, i: nat)
    requires i < |s.live| && s.dead == [] && DistinctAddrs(s.live) && NamesKnown(s, t) && (synced ==> Mirrored(s, t))
    requires forall k :: 0 <= k < |s.live| ==> s.live[k].oldHostname.None?
    ensures var l := s.live[i]; var s', t' := s.(live := s.live[i := Told(l)]), t[l.addr := Entry(l.hw, l.hostname)];
      NamesKnown(s', t') && (synced ==> Mirrored(s', t'))
  {
    var l := s.live[i];
    var s', t' := s.(live := s.live[i := Told(l)]), t[l.addr := Entry(l.hw, l.hostname)];
    forall k | 0 <= k < |s.live|
      ensures NoStaleName(s'.live[k], t')
      ensures synced && Settled(s'.live[k]) ==> RightAbout(s'.live[k], t')
    {
      assert NoStaleName(s.live[k], t);
      assert k != i ==> s.live[k].addr != l.addr;
    }
  }

  lemma ScriptTable(s: Leases, ro: bool, max: nat)
    requires TableInv(s, max)
    ensures TableInv(Script(s, ro).0, max)
  {
    var s' := Script(s, ro).0;
    assert |s'.live| == |s.live| && s'.left == s.left;
    assert forall k :: 0 <= k < |s.live| ==>
        s'.live[k].addr == s.live[k].addr && s'.live[k].hostname == s.live[k].hostname;
    hide Script, SameName;
  }
}
