// Names of leases: who gets a name, who loses it, and which name an ACK gives a lease.
module DhcpNames {
  import opened Optional
  import opened LeaseTable
  import opened DhcpConfig
  import opened DhcpProtocol

  // A lease that has the name from configuration.
  predicate Guarded(ls: seq<Lease>, name: string) {
    exists k :: 0 <= k < |ls| && SameName(ls[k].hostname, Some(name)) && ls[k].authName
  }

  // Lease i is given the name: not if a lease has it from configuration and this is only
  // the client's wish; otherwise whoever had it loses it, and lease i gets it (or none, when
  // memory runs out), keeping the name lost to be told to the script.
  predicate Renames(s: Leases, t: Leases, i: nat, name: string, auth: bool, room: bool)
    requires i < |s.live|
  {
    var l := s.live[i];
    && |t.live| == |s.live|
    && if SameName(l.hostname, Some(name)) then
         t.live[i] == l.(authName := auth) && forall k :: 0 <= k < |s.live| && k != i ==> t.live[k] == s.live[k]
       else if Guarded(s.live, name) && !auth then t == s
       else
         && t.live[i].hostname == (if room then Some(name) else None) && t.live[i].authName == auth
         && t.live[i].oldHostname == (if l.hostname.Some? then l.hostname else l.oldHostname)
         && (t.live[i].changed && t.fileDirty && t.dnsDirty)
         && forall k :: 0 <= k < |s.live| && k != i ==>
           t.live[k] == if SameName(s.live[k].hostname, Some(name))
                        then s.live[k].(hostname := None, oldHostname := s.live[k].hostname) else s.live[k]
  }

  lemma HostnameRenames(s: Leases, i: nat, name: string, auth: bool, room: bool)
    requires i < |s.live| && DistinctNames(s.live)
    ensures Renames(s, SetHostname(s, i, Some(name), auth, room), i, name, auth, room)
  {
    var j := NameHolder(s.live, name);
    forall k | 0 <= k < |s.live| && SameName(s.live[k].hostname, Some(name))
      ensures k == j
    {
      HoldersSame(s.live, j, k, name);
    }
    hide SameName, DistinctNames;
  }

  lemma HoldersSame(ls: seq<Lease>, j: nat, k: nat, name: string)
    requires DistinctNames(ls) && j <= k < |ls|
    requires SameName(ls[j].hostname, Some(name)) && SameName(ls[k].hostname, Some(name))
    ensures j == k
  {
  }

  // ---------- which name ----------

  predicate IgnoresNames(set_: Settings, tags: set<string>) {
    exists i :: 0 <= i < |set_.ignoreNames|
      && (set_.ignoreNames[i] == [] || MatchNetid(set_.ignoreNames[i], tags, false))
  }

  // The host configuration's name, or the one the hosts file has for the address, or the
  // client's own, unless names of such clients are to be ignored.
  function NameFor(set_: Settings, p: Packet, c: Client, ctx: Context): Option<string> {
    if c.auth then c.name
    else if p.dnsName.Some? then p.dnsName
    else if IgnoresNames(set_, if ctx.netid.Some? then c.tags + {ctx.netid.v} else c.tags) then None
    else c.name
  }

  // Configuration gave the name.
  predicate FromConfiguration(p: Packet, c: Client) {
    c.auth || p.dnsName.Some?
  }

  predicate NamesAlike(a: Lease, b: Lease) {
    a.hostname == b.hostname && a.oldHostname == b.oldHostname && a.authName == b.authName
  }

  predicate AllAlike(ls: seq<Lease>, ms: seq<Lease>) {
    |ls| == |ms| && forall k :: 0 <= k < |ls| ==> NamesAlike(ls[k], ms[k])
  }

  // The leases before the name is set: with a new one in front that has none.
  function Before(s: Leases, lease: Option<nat>, a: nat): seq<Lease> {
    if lease.Some? then s.live else [NewLease(a)] + s.live
  }

  lemma AssignAlike(s: Leases, p: Packet, c: Client, lease: Option<nat>, a: nat)
    requires (lease.Some? ==> lease.v < |s.live|) && (lease.None? ==> s.left > 0)
    ensures AllAlike(Before(s, lease, a), Assign(s, p, c, lease, a).live)
  {
  }

  lemma FinishAlike(s: Leases, i: nat, time: nat, now: nat, iface: int)
    requires i < |s.live|
    ensures var r := SetInterface(SetExpires(s, i, time, now), i, iface);
      AllAlike(s.live, r.live) && r.live[i].lastInterface == iface
  {
  }

  lemma AlikeDistinct(ls: seq<Lease>, ms: seq<Lease>)
    requires AllAlike(ls, ms) && DistinctNames(ls)
    ensures DistinctNames(ms)
  {
    forall i, j | 0 <= i < j < |ms|
      ensures !SameName(ms[i].hostname, ms[j].hostname)
    {
      assert NamesAlike(ls[i], ms[i]) && NamesAlike(ls[j], ms[j]) && !SameName(ls[i].hostname, ls[j].hostname);
    }
  }

  lemma NewDistinct(ls: seq<Lease>, a: nat)
    requires DistinctNames(ls)
    ensures DistinctNames([NewLease(a)] + ls)
  {
    assert forall k :: 0 < k <= |ls| ==> ([NewLease(a)] + ls)[k] == ls[k - 1];
  }

  // An ACK gives the lease the name that is for it, if there is one, and takes it from
  // whoever has it; t is the table when only that is still to be done.
  lemma CommitNames(set_: Settings, s: Leases, p: Packet, c: Client, lease: Option<nat>, a: nat, time: nat,
                    ctx: Context)
    requires DistinctNames(s.live) && (lease.Some? ==> lease.v < |s.live|) && (lease.None? ==> s.left > 0)
    ensures var i := if lease.Some? then lease.v else 0;
      var t := Assign(s, p, c, lease, a);
      var r := Commit(set_, s, p, c, lease, a, time, ctx);
      var name := NameFor(set_, p, c, ctx);
      && AllAlike(Before(s, lease, a), t.live) && i < |t.live| && |r.live| == |t.live|
      && r.live[i].lastInterface == p.iface
      && if name.None? then AllAlike(t.live, r.live)
         else exists u :: Renames(t, u, i, name.v, FromConfiguration(p, c), p.room) && AllAlike(u.live, r.live)
  {
    hide Assign, SetHostname, SetExpires, SetInterface, AllAlike, Renames, DistinctNames;
    var i := if lease.Some? then lease.v else 0;
    var t := Assign(s, p, c, lease, a);
    var name := NameFor(set_, p, c, ctx);
    AssignAlike(s, p, c, lease, a);
    NewDistinct(s.live, a);
    AlikeDistinct(Before(s, lease, a), t.live);
    FinishAlike(t, i, time, p.now, p.iface);
    SameSize(t.live, Commit(set_, s, p, c, lease, a, time, ctx).live);
    if name.Some? {
      var u := SetHostname(t, i, name, FromConfiguration(p, c), p.room);
      HostnameRenames(t, i, name.v, FromConfiguration(p, c), p.room);
      RenamesSize(t, u, i, name.v, FromConfiguration(p, c), p.room);
      FinishAlike(u, i, time, p.now, p.iface);
      SameSize(u.live, Commit(set_, s, p, c, lease, a, time, ctx).live);
    }
  }

  lemma SameSize(ls: seq<Lease>, ms: seq<Lease>)
    ensures AllAlike(ls, ms) ==> |ls| == |ms|
  {
  }

  lemma RenamesSize(s: Leases, t: Leases, i: nat, name: string, auth: bool, room: bool)
    requires i < |s.live| && Renames(s, t, i, name, auth, room)
    ensures |t.live| == |s.live|
  {
  }
}
