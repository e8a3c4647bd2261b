// The flags file_dirty and dns_dirty: a table that has neither is the one last written to
// the lease file, and the one whose names were last given to the DNS cache.
module LeaseDirty {
  import opened Optional
  import opened LeaseTable
  import opened LeaseRuns
  import LeaseFile

  // What the cache is told of a lease with a name.
  datatype Named = Named(name: string, addr: nat, expires: nat)

  function NamesOf(ls: seq<Lease>): seq<Named> {
    if ls == [] then []
    else (if ls[0].hostname.Some? then [Named(ls[0].hostname.v, ls[0].addr, ls[0].expires)] else []) + NamesOf(ls[1..])
  }

  // written has the lines of the lease file, in the order of the table they were written
  // from; told has the names the cache was given.
  datatype Books = Books(w: World, written: seq<LeaseFile.Entry>, told: seq<Named>)

  // A write may fail and leave anything in the file.
  datatype Act = Change(op: Op) | UpdateFile(ok: bool, junk: seq<LeaseFile.Entry>) | UpdateDns

  function Perform(b: Books, a: Act): Books {
    match a
    case Change(op) => if Enabled(b.w, op) then b.(w := Apply(b.w, op)) else b
    case UpdateFile(ok, junk) =>
      if !b.w.s.fileDirty then b
      else if !ok then b.(written := junk)
      else b.(w := b.w.(s := b.w.s.(fileDirty := false)), written := LeaseFile.EntriesOf(b.w.s.live))
    case UpdateDns =>
      if !b.w.s.dnsDirty then b
      else b.(w := b.w.(s := b.w.s.(dnsDirty := false)), told := NamesOf(b.w.s.live))
  }

  function PerformAll(b: Books, acts: seq<Act>): Books
    decreases |acts|
  {
    if acts == [] then b else PerformAll(Perform(b, acts[0]), acts[1..])
  }

  // File and cache are up to date, as far as the flags say so.
  predicate UpToDate(b: Books) {
    && (!b.w.s.fileDirty ==> b.written == LeaseFile.EntriesOf(b.w.s.live))
    && (!b.w.s.dnsDirty ==> b.told == NamesOf(b.w.s.live))
  }

  // A change that leaves a flag clear leaves what that flag is about.
  predicate Honest(s: Leases, t: Leases) {
    && (!t.fileDirty ==> !s.fileDirty && LeaseFile.EntriesOf(t.live) == LeaseFile.EntriesOf(s.live))
    && (!t.dnsDirty ==> !s.dnsDirty && NamesOf(t.live) == NamesOf(s.live))
  }

  lemma {:induction false} SameNames(ls: seq<Lease>, ms: seq<Lease>)
    requires |ms| == |ls|
    requires forall k :: 0 <= k < |ls| ==>
      ms[k].addr == ls[k].addr && ms[k].hostname == ls[k].hostname && ms[k].expires == ls[k].expires
    ensures NamesOf(ms) == NamesOf(ls)
  {
    if ls != [] {
      SameNames(ls[1..], ms[1..]);
    }
  }

  // A change to other fields than those that are written or told.
  lemma OtherFields(s: Leases, t: Leases)
    requires |t.live| == |s.live| && t.dnsDirty == s.dnsDirty && (t.fileDirty || !s.fileDirty)
    requires forall k :: 0 <= k < |s.live| ==>
      && t.live[k].addr == s.live[k].addr && t.live[k].hostname == s.live[k].hostname
      && t.live[k].expires == s.live[k].expires
    requires !t.fileDirty ==> forall k :: 0 <= k < |s.live| ==>
      LeaseFile.EntryOf(t.live[k]) == LeaseFile.EntryOf(s.live[k])
    ensures Honest(s, t)
  {
    SameNames(s.live, t.live);
  }

  lemma {:induction false} PruneNames(ls: seq<Lease>, target: Option<nat>, now: nat)
    ensures !LosesName(Gone(ls, target, now)) ==> NamesOf(Kept(ls, target, now)) == NamesOf(ls)
    ensures Gone(ls, target, now) == [] ==> Kept(ls, target, now) == ls
  {
    hide Goes;
    if ls != [] {
      PruneNames(ls[1..], target, now);
      var gone, rest, kept := Gone(ls, target, now), Gone(ls[1..], target, now), Kept(ls[1..], target, now);
      if LosesName(rest) {
        var i :| 0 <= i < |rest| && rest[i].hostname.Some?;
        assert gone[i] == rest[i];
      }
      if Goes(ls[0], target, now) {
        assert gone[|rest|] == ls[0] && [] + kept == kept;
        assert ls[0].hostname.Some? ==> 0 <= |rest| < |gone| && gone[|rest|].hostname.Some?;
      } else {
        assert Kept(ls, target, now) == [ls[0]] + kept && ([ls[0]] + kept)[1..] == kept;
      }
    }
  }

  lemma PruneHonest(s: Leases, target: Option<nat>, now: nat)
    ensures Honest(s, Prune(s, target, now))
  {
    PruneNames(s.live, target, now);
  }

  lemma AllocateHonest(s: Leases, a: nat, room: bool)
    ensures Honest(s, Allocate(s, a, room))
  {
    if s.left > 0 && room {
      assert Allocate(s, a, room).live[1..] == s.live;
    }
  }

  lemma HwaddrHonest(s: Leases, i: nat, hw: Hw, clid: seq<nat>, room: bool)
    requires i < |s.live|
    ensures Honest(s, SetHwaddr(s, i, hw, clid, room))
  {
    OtherFields(s, SetHwaddr(s, i, hw, clid, room));
  }

  lemma ExpiresHonest(s: Leases, i: nat, len: nat, now: nat)
    requires i < |s.live|
    ensures Honest(s, SetExpires(s, i, len, now))
  {
  }

  lemma HostnameHonest(s: Leases, i: nat, name: Option<string>, auth: bool, room: bool)
    requires i < |s.live|
    ensures Honest(s, SetHostname(s, i, name, auth, room))
  {
    hide SameName, Refused, Rob, NameHolder;
    if SameName(s.live[i].hostname, name) {
      OtherFields(s, SetHostname(s, i, name, auth, room));
    }
  }

  lemma InterfaceHonest(s: Leases, i: nat, n: int)
    requires i < |s.live|
    ensures Honest(s, SetInterface(s, i, n))
  {
    OtherFields(s, SetInterface(s, i, n));
  }

  lemma ScriptHonest(s: Leases, ro: bool)
    ensures Honest(s, Script(s, ro).0)
  {
    OtherFields(s, Script(s, ro).0);
  }

  // A lease that is read, before it gets its name.
  lemma LoadedUnnamed(s: Leases, a: nat, hw: Hw, clid: seq<nat>, expires: nat)
    requires s.left > 0
    ensures var s1 := Allocate(s, a, true);
      var s2 := s1.(live := s1.live[0 := s1.live[0].(expires := expires)]);
      var s3 := SetHwaddr(s2, 0, hw, clid, true);
      s3.fileDirty && s3.dnsDirty == s.dnsDirty && NamesOf(s3.live) == NamesOf(s.live)
  {
    var s1 := Allocate(s, a, true);
    var s2 := s1.(live := s1.live[0 := s1.live[0].(expires := expires)]);
    var s3 := SetHwaddr(s2, 0, hw, clid, true);
    assert s1.live[1..] == s.live && s2.live[1..] == s.live && s3.live[1..] == s.live;
    assert s3.live[0].hostname.None?;
  }

  // A lease that is read from the file is a change, too, until lease_init is through.
  lemma LoadHonest(s: Leases, a: nat, hw: Hw, clid: seq<nat>, expires: nat, name: Option<string>)
    requires s.left > 0
    ensures Honest(s, LoadLease(s, a, hw, clid, expires, name))
  {
    hide NamesOf, SetHwaddr, Rob, Refused;
    LoadedUnnamed(s, a, hw, clid, expires);
    var s1 := Allocate(s, a, true);
    var s2 := s1.(live := s1.live[0 := s1.live[0].(expires := expires)]);
    var s3 := SetHwaddr(s2, 0, hw, clid, true);
    HwSize(s2, hw, clid);
    if name.Some? {
      HostnameHonest(s3, 0, name, false, true);
      NameSize(s3, name.v);
    }
    var s4 := if name.Some? then SetHostname(s3, 0, name, false, true) else s3;
    OtherFields(s4, LoadLease(s, a, hw, clid, expires, name));
  }

  lemma HwSize(s: Leases, hw: Hw, clid: seq<nat>)
    requires s.live != []
    ensures |SetHwaddr(s, 0, hw, clid, true).live| == |s.live|
  {
  }

  lemma NameSize(s: Leases, name: string)
    requires s.live != []
    ensures |SetHostname(s, 0, Some(name), false, true).live| == |s.live|
    ensures s.fileDirty ==> SetHostname(s, 0, Some(name), false, true).fileDirty
  {
  }

  lemma ApplyHonest(w: World, op: Op)
    requires Enabled(w, op)
    ensures Honest(w.s, Apply(w, op).s)
  {
    hide Honest, Prune, SetHwaddr, SetHostname, SetExpires, SetInterface, Script, LoadLease, Allocate;
    match op
    case Load(a, hw, clid, exp, name) => LoadHonest(w.s, a, hw, clid, exp, name);
    case RerunScripts => OtherFields(w.s, Apply(w, op).s);
    case LeaseAllocate(a, room) => AllocateHonest(w.s, a, room);
    case LeaseSetExpires(i, len, now) => ExpiresHonest(w.s, i, len, now);
    case LeaseSetHwaddr(i, hw, clid, room) => HwaddrHonest(w.s, i, hw, clid, room);
    case LeaseSetHostname(i, name, auth, room) => HostnameHonest(w.s, i, name, auth, room);
    case LeaseSetInterface(i, n) => InterfaceHonest(w.s, i, n);
    case LeasePrune(target, now) => PruneHonest(w.s, target, now);
    case DoScriptRun(ro) => ScriptHonest(w.s, ro);
  }

  // A write that succeeds, or was not needed, leaves the lines of the table in the file and
  // nothing more to write; one that fails is due again, whatever it leaves. The same goes
  // for the names in the cache, where nothing can fail. Neither changes a lease.
  lemma UpdateDoesIt(b: Books, junk: seq<LeaseFile.Entry>)
    requires UpToDate(b)
    ensures var f, g, d := Perform(b, UpdateFile(true, junk)), Perform(b, UpdateFile(false, junk)),
        Perform(b, UpdateDns);
      && f == b.(w := b.w.(s := b.w.s.(fileDirty := false)), written := LeaseFile.EntriesOf(b.w.s.live))
      && g == (if b.w.s.fileDirty then b.(written := junk) else b)
      && d == b.(w := b.w.(s := b.w.s.(dnsDirty := false)), told := NamesOf(b.w.s.live))
  {
  }

  // Over any run of changes, writes that may fail, and updates of the cache: a clear flag
  // means that file or cache is up to date.
  lemma {:induction false} EveryRunUpToDate(b: Books, acts: seq<Act>)
    requires UpToDate(b)
    ensures UpToDate(PerformAll(b, acts))
    decreases |acts|
  {
    hide Apply, Enabled, NamesOf;
    if acts != [] {
      if acts[0].Change? && Enabled(b.w, acts[0].op) {
        ApplyHonest(b.w, acts[0].op);
      }
      EveryRunUpToDate(Perform(b, acts[0]), acts[1..]);
    }
  }
}
