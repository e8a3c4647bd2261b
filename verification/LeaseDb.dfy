// The lease table as lease.c changes it: lists updated in place by loops, each method
// proved to do what its function in LeaseTable says.
module LeaseDb {
  import opened HostNames
  import opened Optional
  import opened LeaseTable
  import opened LeaseRuns

  class LeaseStore {
    var leases: seq<Lease>
    var oldLeases: seq<Lease>
    var leasesLeft: nat
    var fileDirty: bool
    var dnsDirty: bool

    ghost function St(): Leases
      reads this
    {
      Leases(leases, oldLeases, leasesLeft, fileDirty, dnsDirty)
    }

    constructor (dhcpMax: nat)
      ensures St() == Start(dhcpMax).s
    {
      leases, oldLeases, leasesLeft, fileDirty, dnsDirty := [], [], dhcpMax, false, false;
    }

    // A lease leaves the table for old_leases, where the script will hear of it.
    method MoveToOld(i: nat)
      requires i < |leases|
      modifies this
      ensures leases == old(leases)[..i] + old(leases)[i + 1..] && oldLeases == [old(leases)[i]] + old(oldLeases)
      ensures leasesLeft == old(leasesLeft) + 1 && fileDirty
      ensures dnsDirty == (old(dnsDirty) || old(leases)[i].hostname.Some?)
    {
      var lease := leases[i];
      fileDirty := true;
      if lease.hostname.Some? {
        dnsDirty := true;
      }
      leases := leases[..i] + leases[i + 1..];
      oldLeases := [lease] + oldLeases;
      leasesLeft := leasesLeft + 1;
    }

    method LeasePrune(target: Option<nat>, now: nat)
      modifies this
      ensures St() == Prune(old(St()), target, now)
    {
      hide LosesName, Goes, Kept, Gone;
      ghost var done: seq<Lease>, rest, gone: seq<Lease> := [], leases, [];
      LosesNothing();
      Walked(leases, target, now);
      var i := 0;
      while i < |leases|
        invariant 0 <= i <= |leases| && leases == done + rest && |done| == i
        invariant Kept(old(leases), target, now) == done + Kept(rest, target, now)
        invariant Gone(old(leases), target, now) == Gone(rest, target, now) + gone
        invariant oldLeases == gone + old(oldLeases) && leasesLeft == old(leasesLeft) + |gone|
        invariant fileDirty == (old(fileDirty) || gone != [])
        invariant dnsDirty == (old(dnsDirty) || LosesName(gone))
        decreases |leases| - i
      {
        var lease := leases[i];
        SplitAt(done, rest);
        PruneOne(done, rest, gone, target, now);
        if (lease.expires != 0 && now > lease.expires) || target == Some(lease.addr) {
          MoveToOld(i);
          LosesNameCons(lease, gone);
          gone := [lease] + gone;
        } else {
          i := i + 1;
          done := done + [lease];
        }
        rest := rest[1..];
      }
      Walked(rest, target, now);
      assert done + [] == done && [] + gone == gone;
      assert leases == Kept(old(leases), target, now) && gone == Gone(old(leases), target, now);
    }

    static lemma Walked(ls: seq<Lease>, target: Option<nat>, now: nat)
      ensures ls == [] ==> Kept(ls, target, now) == [] && Gone(ls, target, now) == []
      ensures Kept(ls, target, now) == [] + Kept(ls, target, now) && Gone(ls, target, now) == Gone(ls, target, now) + []
    {
    }

    static lemma LosesNothing()
      ensures !LosesName([])
    {
    }

    static lemma SplitAt(done: seq<Lease>, rest: seq<Lease>)
      requires rest != []
      ensures (done + rest)[|done|] == rest[0]
      ensures (done + rest)[..|done|] + (done + rest)[|done| + 1..] == done + rest[1..]
      ensures done + rest == (done + [rest[0]]) + rest[1..]
    {
    }

    static lemma PruneOne(done: seq<Lease>, rest: seq<Lease>, gone: seq<Lease>, target: Option<nat>, now: nat)
      requires rest != []
      ensures Goes(rest[0], target, now) <==>
          (rest[0].expires != 0 && now > rest[0].expires) || target == Some(rest[0].addr)
      ensures Goes(rest[0], target, now) ==> Kept(rest, target, now) == Kept(rest[1..], target, now)
      ensures Goes(rest[0], target, now) ==>
          Gone(rest, target, now) + gone == Gone(rest[1..], target, now) + ([rest[0]] + gone)
      ensures !Goes(rest[0], target, now) ==>
          done + Kept(rest, target, now) == (done + [rest[0]]) + Kept(rest[1..], target, now)
      ensures !Goes(rest[0], target, now) ==> Gone(rest, target, now) == Gone(rest[1..], target, now)
    {
      hide Kept, Gone, Goes;
      GoesOrStays(rest, target, now);
      Regroup(Gone(rest[1..], target, now), rest[0], gone);
      Regroup(done, rest[0], Kept(rest[1..], target, now));
    }

    static lemma Regroup(a: seq<Lease>, l: Lease, b: seq<Lease>)
      ensures (a + [l]) + b == a + ([l] + b)
    {
    }

    static lemma GoesOrStays(ls: seq<Lease>, target: Option<nat>, now: nat)
      requires ls != []
      ensures Goes(ls[0], target, now) <==> (ls[0].expires != 0 && now > ls[0].expires) || target == Some(ls[0].addr)
      ensures Kept(ls, target, now) == if Goes(ls[0], target, now) then Kept(ls[1..], target, now)
          else [ls[0]] + Kept(ls[1..], target, now)
      ensures Gone(ls, target, now) == if Goes(ls[0], target, now) then Gone(ls[1..], target, now) + [ls[0]]
          else Gone(ls[1..], target, now)
    {
    }

    static lemma LosesNameCons(l: Lease, ls: seq<Lease>)
      ensures LosesName([l] + ls) == (l.hostname.Some? || LosesName(ls))
    {
      if l.hostname.Some? {
        assert ([l] + ls)[0].hostname.Some?;
      } else if LosesName(ls) {
        var i :| 0 <= i < |ls| && ls[i].hostname.Some?;
        assert ([l] + ls)[i + 1].hostname.Some?;
      }
    }

    // The index of the lease, or the number of leases when there is none.
    method LeaseFindByClient(hw: Hw, clid: seq<nat>) returns (i: nat)
      ensures i == ByClient(leases, hw, clid)
    {
      if clid != [] {
        i := 0;
        while i < |leases|
          invariant i <= |leases|
          invariant forall k :: 0 <= k < i ==> !ClidMatch(leases[k], clid)
        {
          if leases[i].clid == clid {
            return;
          }
          i := i + 1;
        }
      }
      i := 0;
      while i < |leases|
        invariant i <= |leases|
        invariant forall k :: 0 <= k < i ==> !HwMatch(leases[k], hw, clid)
      {
        if (leases[i].clid == [] || clid == []) && hw.Hw? && hw.bytes != [] && leases[i].hw == hw {
          return;
        }
        i := i + 1;
      }
    }

    method LeaseFindByAddr(a: nat) returns (i: nat)
      ensures i == ByAddr(leases, a)
    {
      i := 0;
      while i < |leases|
        invariant i <= |leases|
        invariant forall k :: 0 <= k < i ==> leases[k].addr != a
      {
        if leases[i].addr == a {
          return;
        }
        i := i + 1;
      }
    }

    method LeaseAllocate(a: nat, room: bool) returns (ok: bool)
      modifies this
      ensures St() == Allocate(old(St()), a, room)
      ensures ok ==> |leases| > 0 && leases[0] == NewLease(a)
      ensures ok <==> old(leasesLeft) > 0 && room
    {
      if leasesLeft == 0 || !room {
        return false;
      }
      leases := [NewLease(a)] + leases;
      fileDirty := true;
      leasesLeft := leasesLeft - 1;
      ok := true;
    }

    method LeaseSetExpires(i: nat, len: nat, now: nat)
      requires i < |leases|
      modifies this
      ensures St() == SetExpires(old(St()), i, len, now)
    {
      var exp := now + len;
      if len == FOREVER {
        exp := 0;
      }
      if exp != leases[i].expires {
        dnsDirty := true;
        leases := leases[i := leases[i].(expires := exp, auxChanged := true)];
        fileDirty := true;
      }
    }

    method LeaseSetHwaddr(i: nat, hw: Hw, clid: seq<nat>, room: bool)
      requires i < |leases|
      modifies this
      ensures St() == SetHwaddr(old(St()), i, hw, clid, room)
    {
      if hw != leases[i].hw {
        leases := leases[i := leases[i].(hw := hw, changed := true)];
        fileDirty := true;
      }
      if clid != [] {
        SetClid(i, clid, room);
      }
    }

    // A client-id of another length needs memory for it.
    method SetClid(i: nat, clid: seq<nat>, room: bool)
      requires i < |leases|
      modifies this
      ensures var l := old(leases)[i];
        St() == old(St()).(fileDirty := old(fileDirty) || l.clid != clid,
          live := old(leases)[i := if |l.clid| != |clid| && !room then l.(auxChanged := true, clid := [])
                                   else l.(auxChanged := l.auxChanged || l.clid != clid, clid := clid)])
    {
      var lease := leases[i];
      if |lease.clid| != |clid| {
        lease := lease.(auxChanged := true, clid := []);
        fileDirty := true;
        if !room {
          leases := leases[i := lease];
          return;
        }
      } else if lease.clid != clid {
        lease := lease.(auxChanged := true);
        fileDirty := true;
      }
      leases := leases[i := lease.(clid := clid)];
    }

    // The lease that has the name gives it up, unless it may keep it.
    method TakeName(name: string, auth: bool) returns (refused: bool)
      modifies this`leases
      ensures refused == Refused(old(leases), Some(name), auth)
      ensures leases == if refused then old(leases) else Rob(old(leases), Some(name))
    {
      var j := 0;
      while j < |leases|
        invariant 0 <= j <= |leases| && leases == old(leases)
        invariant forall k :: 0 <= k < j ==> !SameName(leases[k].hostname, Some(name))
      {
        if leases[j].hostname.Some? {
          var eq := HostnameIsEqual(leases[j].hostname.v, name);
          if eq {
            if leases[j].authName && !auth {
              return true;
            }
            leases := leases[j := leases[j].(oldHostname := leases[j].hostname, hostname := None)];
            return false;
          }
        }
        j := j + 1;
      }
      refused := false;
    }

    method LeaseSetHostname(i: nat, name: Option<string>, auth: bool, room: bool)
      requires i < |leases|
      modifies this
      ensures St() == SetHostname(old(St()), i, name, auth, room)
    {
      hide Rob, Refused, NameEq;
      if leases[i].hostname.Some? && name.Some? {
        var eq := HostnameIsEqual(leases[i].hostname.v, name.v);
        if eq {
          leases := leases[i := leases[i].(authName := auth)];
          return;
        }
      }
      if name.None? && leases[i].hostname.None? {
        return;
      }
      RobNone(leases, auth);
      if name.Some? {
        RobLength(leases, name.v);
        var refused := TakeName(name.v, auth);
        if refused {
          return;
        }
      }
      var lease := leases[i];
      if lease.hostname.Some? {
        lease := lease.(oldHostname := lease.hostname);
      }
      leases := leases[i := lease.(hostname := if room then name else None, authName := auth, changed := true)];
      fileDirty := true;
      dnsDirty := true;
    }

    static lemma RobNone(ls: seq<Lease>, auth: bool)
      ensures Rob(ls, None) == ls && !Refused(ls, None, auth)
    {
    }

    static lemma RobLength(ls: seq<Lease>, name: string)
      ensures |Rob(ls, Some(name))| == |ls|
    {
    }

    method RerunScripts()
      modifies this
      ensures leases == AllChanged(old(leases))
      ensures oldLeases == old(oldLeases) && leasesLeft == old(leasesLeft) && fileDirty == old(fileDirty)
      ensures dnsDirty == old(dnsDirty)
    {
      var i := 0;
      while i < |leases|
        invariant 0 <= i <= |leases| == |old(leases)|
        invariant forall k :: 0 <= k < i ==> leases[k] == old(leases)[k].(changed := true)
        invariant forall k :: i <= k < |leases| ==> leases[k] == old(leases)[k]
        invariant oldLeases == old(oldLeases) && leasesLeft == old(leasesLeft) && fileDirty == old(fileDirty)
        invariant dnsDirty == old(dnsDirty)
      {
        leases := leases[i := leases[i].(changed := true)];
        i := i + 1;
      }
    }

    // One event queued for the script, or nothing to do.
    method DoScriptRun(ro: bool) returns (event: Option<Event>)
      modifies this
      ensures (St(), event) == Script(old(St()), ro)
    {
      if oldLeases != [] {
        var lease := oldLeases[0];
        if lease.oldHostname.Some? {
          oldLeases := oldLeases[0 := lease.(oldHostname := None)];
          return Some(OldHostname(lease.addr, lease.oldHostname.v));
        }
        oldLeases := oldLeases[1..];
        return Some(Del(lease.addr, lease.hw, lease.hostname));
      }
      var i := 0;
      while i < |leases|
        invariant 0 <= i <= |leases|
        invariant forall k :: 0 <= k < i ==> leases[k].oldHostname.None?
        invariant St() == old(St())
      {
        if leases[i].oldHostname.Some? {
          var lost := leases[i].oldHostname.v;
          leases := leases[i := leases[i].(oldHostname := None)];
          return Some(OldHostname(leases[i].addr, lost));
        }
        i := i + 1;
      }
      i := 0;
      while i < |leases|
        invariant 0 <= i <= |leases|
        invariant forall k :: 0 <= k < i ==> !Untold(leases[k], ro)
        invariant St() == old(St())
      {
        var l := leases[i];
        if l.isNew || l.changed || (l.auxChanged && ro) {
          leases := leases[i := l.(isNew := false, changed := false, auxChanged := false)];
          return Some(if l.isNew then Add(l.addr, l.hw, l.hostname) else Old(l.addr, l.hw, l.hostname));
        }
        i := i + 1;
      }
      event := None;
    }

    // The main loop's drain: it ends, with one event for each thing there was to tell.
    method RunScripts(ro: bool) returns (log: seq<Event>)
      modifies this
      ensures |log| == Backlog(old(St()), ro)
      ensures Script(St(), ro).1.None?
      ensures oldLeases == [] && leasesLeft == old(leasesLeft)
    {
      log := [];
      EachCallTellsOne(St(), ro);
      var event := DoScriptRun(ro);
      while event.Some?
        invariant event.Some? ==> |log| + 1 + Backlog(St(), ro) == Backlog(old(St()), ro)
        invariant event.None? ==> Script(St(), ro).1.None? && |log| == Backlog(old(St()), ro)
        invariant leasesLeft == old(leasesLeft)
        decreases if event.Some? then 1 + Backlog(St(), ro) else 0
      {
        log := log + [event.v];
        EachCallTellsOne(St(), ro);
        event := DoScriptRun(ro);
      }
    }
  }
}
