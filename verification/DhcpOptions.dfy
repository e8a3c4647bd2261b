// Writing options into a DHCP reply and finding them again: free_space, option_put and
// dhcp_packet_size of rfc2131.c against option_find (section 9.3 of RFC 2132). The sname
// field is in use throughout; the file field may take options that do not fit elsewhere.
module DhcpOptions {
  import opened Optional
  import opened DnsName
  import opened Slices

  const PAD: Byte := 0

  const OVERLOAD: Byte := 52

  const END: Byte := 255

  const FILE_SIZE: nat := 128

  datatype Opt = Opt(code: Byte, data: seq<Byte>)

  predicate OptOk(o: Opt) {
    o.code != PAD && o.code != END && |o.data| <= 255
  }

  predicate OptsOk(os: seq<Opt>) {
    forall i :: 0 <= i < |os| ==> OptOk(os[i])
  }

  function EncOpt(o: Opt): (b: seq<Byte>)
    requires OptOk(o)
    ensures |b| == |o.data| + 2
  {
    [o.code, |o.data|] + o.data
  }

  function Enc(os: seq<Opt>): seq<Byte>
    requires OptsOk(os)
  {
    if os == [] then [] else EncOpt(os[0]) + Enc(os[1..])
  }

  lemma {:induction false} EncAppend(os: seq<Opt>, o: Opt)
    requires OptsOk(os) && OptOk(o)
    ensures OptsOk(os + [o]) && Enc(os + [o]) == Enc(os) + EncOpt(o)
  {
    if os == [] {
      assert os + [o] == [o];
      assert Enc([o][1..]) == [];
    } else {
      EncAppend(os[1..], o);
      assert (os + [o])[1..] == os[1..] + [o];
    }
  }

  function Zeros(n: nat): (z: seq<Byte>)
    ensures |z| == n
  {
    seq(n, _ => 0)
  }

  // ---------- what the writers do, seen as lists ----------

  // The options in the options area and in the file field. taken: the file field holds a
  // file name. size is the room from behind the cookie to the end of the area, limit what
  // free_space is told of it.
  datatype Area = Area(opts: seq<Opt>, file: seq<Opt>, taken: bool, size: nat, limit: int)

  predicate HasOverload(os: seq<Opt>) {
    exists i :: 0 <= i < |os| && os[i].code == OVERLOAD
  }

  predicate AreaOk(a: Area) {
    && OptsOk(a.opts) && OptsOk(a.file) && a.limit <= a.size
    && (a.file != [] ==> HasOverload(a.opts))
    && (a.taken ==> !HasOverload(a.opts))
    && (forall i :: 0 <= i < |a.opts| && a.opts[i].code == OVERLOAD ==> a.opts[i].data == [1])
  }

  // A cleared packet; the first options are put without a reserve.
  function Start(taken: bool, size: nat): (a: Area)
    ensures AreaOk(a)
  {
    Area([], [], taken, size, size)
  }

  // do_options: while the file field is free, three bytes are kept back for the overload
  // option.
  function Reserve(a: Area): (r: Area)
    requires AreaOk(a)
    ensures AreaOk(r)
  {
    if !a.taken && a.file == [] then a.(limit := a.limit - 3) else a
  }

  predicate FitsOptions(a: Area, len: nat)
    requires OptsOk(a.opts)
  {
    |Enc(a.opts)| + len + 3 < a.limit
  }

  predicate FitsFile(a: Area, len: nat)
    requires OptsOk(a.file)
  {
    |Enc(a.file)| + len + 3 < FILE_SIZE
  }

  // One option put into the packet, or left out for want of space.
  function Put(a: Area, o: Opt): Area
    requires AreaOk(a) && OptOk(o)
  {
    if FitsOptions(a, |o.data|) then a.(opts := a.opts + [o])
    else if a.taken then a
    else
      var opts := if HasOverload(a.opts) then a.opts else a.opts + [Opt(OVERLOAD, [1])];
      a.(opts := opts, file := if FitsFile(a, |o.data|) then a.file + [o] else a.file)
  }

  lemma PutOk(a: Area, o: Opt)
    requires AreaOk(a) && OptOk(o) && o.code != OVERLOAD
    ensures AreaOk(Put(a, o))
  {
    var r := Put(a, o);
    if r.opts != a.opts {
      var last := r.opts[|a.opts|];
      assert r.opts == a.opts + [last];
      if HasOverload(a.opts) {
        var i :| 0 <= i < |a.opts| && a.opts[i].code == OVERLOAD;
        assert r.opts[i].code == OVERLOAD;
      }
    }
  }

  // Options that can be put: the overload option is not asked for by name.
  predicate Putable(os: seq<Opt>) {
    OptsOk(os) && forall i :: 0 <= i < |os| ==> os[i].code != OVERLOAD
  }

  function PutAll(a: Area, os: seq<Opt>): (r: Area)
    requires AreaOk(a) && Putable(os)
    ensures AreaOk(r)
    decreases |os|
  {
    if os == [] then a
    else
      PutOk(a, os[0]);
      PutAll(Put(a, os[0]), os[1..])
  }

  // ---------- bounds ----------

  // The end markers, and all writes before them, are inside both regions.
  predicate Inside(a: Area)
    requires AreaOk(a)
  {
    |Enc(a.opts)| + 1 <= a.size && |Enc(a.file)| + 1 <= FILE_SIZE
  }

  // An overload option will not be needed, or is there, or has room.
  predicate Spare(a: Area)
    requires AreaOk(a)
  {
    a.taken || HasOverload(a.opts) || |Enc(a.opts)| + 4 <= a.size
  }

  // The room for an overload option is kept back.
  predicate Reserved(a: Area)
    requires AreaOk(a)
  {
    a.taken || HasOverload(a.opts) || a.limit + 3 <= a.size
  }

  // What a put does to the bounds.
  lemma PutBounds(a: Area, o: Opt)
    requires AreaOk(a) && OptOk(o) && o.code != OVERLOAD && Inside(a)
    ensures AreaOk(Put(a, o)) && (Inside(Put(a, o)) <==> FitsOptions(a, |o.data|) || Spare(a))
    ensures Reserved(a) && Inside(Put(a, o)) ==> Reserved(Put(a, o)) && Spare(Put(a, o))
  {
    PutOk(a, o);
    EncAppend(a.opts, o);
    EncAppend(a.opts, Opt(OVERLOAD, [1]));
    EncAppend(a.file, o);
    assert !FitsOptions(a, |o.data|) && !a.taken && !HasOverload(a.opts) ==> Put(a, o).opts[|a.opts|].code == OVERLOAD;
    if HasOverload(a.opts) {
      var i :| 0 <= i < |a.opts| && a.opts[i].code == OVERLOAD;
      assert Put(a, o).opts[i].code == OVERLOAD;
    }
  }

  // With the reserve in place every run of puts stays inside the bounds.
  lemma {:induction false} RunInside(a: Area, os: seq<Opt>)
    requires AreaOk(a) && Putable(os) && Inside(a) && Spare(a) && Reserved(a)
    ensures Inside(PutAll(a, os)) && Spare(PutAll(a, os)) && Reserved(PutAll(a, os))
    decreases |os|
  {
    hide Put, Inside, AreaOk, Spare, Reserved;
    if os != [] {
      PutBounds(a, os[0]);
      RunInside(Put(a, os[0]), os[1..]);
    }
  }

  // Nothing is ever taken back.
  lemma {:induction false} RunGrows(a: Area, os: seq<Opt>)
    requires AreaOk(a) && Putable(os)
    ensures !Inside(a) ==> !Inside(PutAll(a, os))
    decreases |os|
  {
    hide Put, Inside, AreaOk;
    if os != [] {
      PutGrows(a, os[0]);
      RunGrows(Put(a, os[0]), os[1..]);
    }
  }

  lemma PutGrows(a: Area, o: Opt)
    requires AreaOk(a) && OptOk(o) && o.code != OVERLOAD
    ensures AreaOk(Put(a, o)) && (!Inside(a) ==> !Inside(Put(a, o)))
  {
    PutOk(a, o);
    EncAppend(a.opts, o);
    EncAppend(a.opts, Opt(OVERLOAD, [1]));
    EncAppend(a.file, o);
  }

  // ---------- the options put before the reserve ----------

  // How many of them fit into the options area one after the other, p bytes being used.
  function FitCount(p: nat, os: seq<Opt>, size: nat): (k: nat)
    requires OptsOk(os)
    ensures k <= |os|
    decreases |os|
  {
    if os == [] || p + |os[0].data| + 3 >= size then 0 else 1 + FitCount(p + |os[0].data| + 2, os[1..], size)
  }

  // The options before the first one that does not fit leave room for an overload option.
  predicate LeaveRoom(p: nat, os: seq<Opt>, size: nat)
    requires OptsOk(os)
  {
    p + |Enc(os[..FitCount(p, os, size)])| + 4 <= size
  }

  lemma LeaveRoomStep(p: nat, os: seq<Opt>, size: nat)
    requires OptsOk(os) && os != []
    ensures p + |os[0].data| + 3 >= size ==> (LeaveRoom(p, os, size) <==> p + 4 <= size)
    ensures p + |os[0].data| + 3 < size ==> (LeaveRoom(p, os, size) <==> LeaveRoom(p + |os[0].data| + 2, os[1..], size))
  {
    if p + |os[0].data| + 3 < size {
      var k := FitCount(p + |os[0].data| + 2, os[1..], size);
      assert os[..k + 1][1..] == os[1..][..k];
    }
  }

  // Without the reserve: what was put is inside the bounds and can be added to, exactly if
  // the file field is in use or room was left.
  lemma {:induction false} EarlyBounds(a: Area, os: seq<Opt>)
    requires AreaOk(a) && Putable(os) && Inside(a) && a.limit == a.size && a.file == [] && !HasOverload(a.opts)
    ensures var r := PutAll(a, os); Inside(r) && Spare(r) <==> a.taken || LeaveRoom(|Enc(a.opts)|, os, a.size)
    decreases |os|
  {
    if os != [] {
      LeaveRoomStep(|Enc(a.opts)|, os, a.size);
      PutBounds(a, os[0]);
      EarlyPut(a, os[0]);
      hide Put, Inside, AreaOk, Spare, LeaveRoom, FitCount;
      var n := Put(a, os[0]);
      if a.taken {
        TakenInside(n, os[1..]);
      } else if FitsOptions(a, |os[0].data|) {
        EarlyBounds(n, os[1..]);
      } else if Spare(a) {
        OverloadedInside(n, os[1..]);
      } else {
        RunGrows(n, os[1..]);
      }
      EarlySpare(a);
    }
  }

  lemma EarlySpare(a: Area)
    requires AreaOk(a) && !HasOverload(a.opts)
    ensures Spare(a) <==> a.taken || |Enc(a.opts)| + 4 <= a.size
  {
  }

  lemma EarlyPut(a: Area, o: Opt)
    requires AreaOk(a) && OptOk(o) && o.code != OVERLOAD && a.file == [] && !HasOverload(a.opts)
    ensures var r := Put(a, o);
      && r.taken == a.taken && r.size == a.size && r.limit == a.limit
      && (FitsOptions(a, |o.data|) ==>
            OptsOk(r.opts) && r.file == [] && !HasOverload(r.opts) && |Enc(r.opts)| == |Enc(a.opts)| + |o.data| + 2)
      && (!FitsOptions(a, |o.data|) && !a.taken ==> HasOverload(r.opts))
  {
    EncAppend(a.opts, o);
    assert !FitsOptions(a, |o.data|) && !a.taken ==> Put(a, o).opts[|a.opts|].code == OVERLOAD;
  }

  lemma TakenInside(a: Area, os: seq<Opt>)
    requires AreaOk(a) && Putable(os) && Inside(a) && a.taken
    ensures Inside(PutAll(a, os)) && Spare(PutAll(a, os))
  {
    hide Put, PutAll, Inside;
    RunInside(a, os);
  }

  lemma OverloadedInside(a: Area, os: seq<Opt>)
    requires AreaOk(a) && Putable(os) && Inside(a) && HasOverload(a.opts)
    ensures Inside(PutAll(a, os)) && Spare(PutAll(a, os))
  {
    hide Put, PutAll, Inside;
    RunInside(a, os);
  }

  // A whole reply: some options, the reserve, and at least one more option. Everything
  // stays inside the bounds exactly if the file field is in use or the options before the
  // first early one that did not fit leave the four bytes of overload option and end marker.
  lemma ReplyInside(early: seq<Opt>, later: seq<Opt>, taken: bool, size: nat)
    requires Putable(early) && Putable(later) && later != [] && size > 0
    ensures Inside(PutAll(Reserve(PutAll(Start(taken, size), early)), later)) <==> taken || LeaveRoom(0, early, size)
  {
    var s := Start(taken, size);
    assert Inside(s) && !HasOverload(s.opts);
    EarlyBounds(s, early);
    var a := PutAll(s, early);
    EarlyKeeps(s, early);
    ReservedInside(a, later);
  }

  lemma {:induction false} EarlyKeeps(a: Area, os: seq<Opt>)
    requires AreaOk(a) && Putable(os)
    ensures PutAll(a, os).limit == a.limit && PutAll(a, os).size == a.size
    decreases |os|
  {
    hide AreaOk;
    if os != [] {
      PutOk(a, os[0]);
      EarlyKeeps(Put(a, os[0]), os[1..]);
    }
  }

  // From the reserve on: inside the bounds exactly if they held and there was room.
  lemma ReservedInside(a: Area, later: seq<Opt>)
    requires AreaOk(a) && Putable(later) && later != [] && a.limit == a.size
    ensures Inside(PutAll(Reserve(a), later)) <==> Inside(a) && Spare(a)
  {
    var r := Reserve(a);
    assert Inside(r) <==> Inside(a);
    assert Spare(r) <==> Spare(a);
    assert Reserved(r);
    hide PutAll, Put, AreaOk;
    if Inside(a) && Spare(a) {
      RunInside(r, later);
    } else if Inside(a) {
      PutBounds(r, later[0]);
      NoRoomLeft(r, later);
    } else {
      RunGrows(r, later);
    }
  }

  // The first put after a reserve that came too late needs the overload option.
  lemma NoRoomLeft(a: Area, later: seq<Opt>)
    requires AreaOk(a) && Putable(later) && later != [] && Reserved(a) && !Spare(a) && Inside(a)
    ensures !Inside(PutAll(a, later))
  {
    PutBounds(a, later[0]);
    hide AreaOk, Put, Inside;
    RunGrows(Put(a, later[0]), later[1..]);
  }

  // ---------- what the server puts before the reserve ----------

  const FILENAME: Byte := 67

  // Message type, server identifier, lease time and the two renewal times.
  function Numbers(kind: Byte, server: seq<Byte>, lease: seq<Byte>, t1: seq<Byte>, t2: seq<Byte>): seq<Opt> {
    [Opt(53, [kind]), Opt(54, server), Opt(51, lease), Opt(58, t1), Opt(59, t2)]
  }

  predicate Fours(server: seq<Byte>, lease: seq<Byte>, t1: seq<Byte>, t2: seq<Byte>) {
    |server| == 4 && |lease| == 4 && |t1| == 4 && |t2| == 4
  }

  lemma NumbersFit(kind: Byte, server: seq<Byte>, lease: seq<Byte>, t1: seq<Byte>, t2: seq<Byte>, rest: seq<Opt>,
                   size: nat)
    requires Fours(server, lease, t1, t2) && Putable(rest) && size >= 51
    ensures var early := Numbers(kind, server, lease, t1, t2) + rest;
      Putable(early) && (LeaveRoom(0, early, size) <==> LeaveRoom(27, rest, size))
  {
    var e := Numbers(kind, server, lease, t1, t2) + rest;
    assert e[5..] == rest;
    hide LeaveRoom;
    LeaveRoomStep(0, e, size);
    LeaveRoomStep(3, e[1..], size);
    assert e[1..][1..] == e[2..];
    LeaveRoomStep(9, e[2..], size);
    assert e[2..][1..] == e[3..];
    LeaveRoomStep(15, e[3..], size);
    assert e[3..][1..] == e[4..];
    LeaveRoomStep(21, e[4..], size);
    assert e[4..][1..] == e[5..];
  }

  // A reply to a client that asked for the boot file name as an option, with the file
  // field free: the reserve comes too late exactly for names of two lengths. (The area has
  // 308 bytes at least; a relay's agent option takes up to 257 of them.)
  lemma BootFileReply(kind: Byte, server: seq<Byte>, lease: seq<Byte>, t1: seq<Byte>, t2: seq<Byte>, name: seq<Byte>,
                      later: seq<Opt>, size: nat)
    requires Fours(server, lease, t1, t2) && |name| <= 255 && Putable(later) && later != [] && size >= 51
    ensures var early := Numbers(kind, server, lease, t1, t2) + [Opt(FILENAME, name)];
      && Putable(early)
      && (Inside(PutAll(Reserve(PutAll(Start(false, size), early)), later)) <==>
          |name| != size - 32 && |name| != size - 31)
  {
    var rest := [Opt(FILENAME, name)];
    NumbersFit(kind, server, lease, t1, t2, rest, size);
    hide PutAll, Reserve, Inside;
    LeaveRoomStep(27, rest, size);
    assert rest[1..] == [] && rest[1..][..0] == [];
    ReplyInside(Numbers(kind, server, lease, t1, t2) + rest, later, false, size);
  }

  // For instance a name of 175 characters and its final zero, behind a relay whose agent
  // option has 98 bytes, followed by the netmask.
  lemma BootFileTooLong(server: seq<Byte>, lease: seq<Byte>, t1: seq<Byte>, t2: seq<Byte>, name: seq<Byte>)
    requires Fours(server, lease, t1, t2) && |name| == 176
    ensures var early := Numbers(2, server, lease, t1, t2) + [Opt(FILENAME, name)];
      Putable(early) && !Inside(PutAll(Reserve(PutAll(Start(false, 308 - 100), early)), [Opt(1, [255, 255, 255, 0])]))
  {
    hide PutAll, Reserve, Inside;
    BootFileReply(2, server, lease, t1, t2, name, [Opt(1, [255, 255, 255, 0])], 208);
  }

  // ---------- the reader ----------

  // option_find1 for an option other than END.
  function Find1(b: seq<Byte>, p: nat, opt: Byte, minsize: nat): (r: Option<nat>)
    requires opt != END
    ensures r.Some? ==> r.v + 2 <= |b| && r.v + 2 + b[r.v + 1] <= |b| && b[r.v] == opt
    decreases |b| - p
  {
    if p >= |b| || b[p] == END then None
    else if b[p] == PAD then Find1(b, p + 1, opt, minsize)
    else if p + 2 > |b| then None
    else
      var len: nat := b[p + 1];
      if p + 2 + len > |b| then None
      else if b[p] == opt && len >= minsize then Some(p)
      else Find1(b, p + 2 + len, opt, minsize)
  }

  method OptionFind1(b: seq<Byte>, start: nat, opt: Byte, minsize: nat) returns (r: Option<nat>)
    requires opt != END
    ensures r == Find1(b, start, opt, minsize)
  {
    var p: nat := start;
    while true
      invariant Find1(b, start, opt, minsize) == Find1(b, p, opt, minsize)
      decreases |b| - p
    {
      if p >= |b| {
        return None;
      } else if b[p] == END {
        return None;
      } else if b[p] == PAD {
        p := p + 1;
      } else {
        if p + 2 > |b| {
          return None;
        }
        var len: nat := b[p + 1];
        if p + 2 + len > |b| {
          return None;
        }
        if b[p] == opt && len >= minsize {
          return Some(p);
        }
        p := p + len + 2;
      }
    }
  }

  function Value(b: seq<Byte>, p: nat): seq<Byte>
    requires p + 2 <= |b| && p + 2 + b[p + 1] <= |b|
  {
    b[p + 2..p + 2 + b[p + 1]]
  }

  // option_find: the options area, and what its overload option adds to it.
  function OptionFind(opts: seq<Byte>, file: seq<Byte>, sname: seq<Byte>, opt: Byte, minsize: nat): Option<seq<Byte>>
    requires opt != END
  {
    var r := Find1(opts, 0, opt, minsize);
    if r.Some? then Some(Value(opts, r.v))
    else
      var o := Find1(opts, 0, OVERLOAD, 1);
      if o.None? || |Value(opts, o.v)| == 0 then None
      else
        var bits: nat := Value(opts, o.v)[0];
        var f := if bits % 2 == 1 then Find1(file, 0, opt, minsize) else None;
        if f.Some? then Some(Value(file, f.v))
        else
          var s := if bits / 2 % 2 == 1 then Find1(sname, 0, opt, minsize) else None;
          if s.Some? then Some(Value(sname, s.v)) else None
  }

  // A finished region: options, the end marker, and anything behind it.
  predicate Region(b: seq<Byte>, p: nat, os: seq<Opt>)
    requires OptsOk(os)
  {
    p + |Enc(os)| < |b| && b[p..p + |Enc(os)|] == Enc(os) && b[p + |Enc(os)|] == END
  }

  predicate Qualifies(o: Opt, opt: Byte, minsize: nat) {
    o.code == opt && |o.data| >= minsize
  }

  function FirstOpt(os: seq<Opt>, opt: Byte, minsize: nat): (k: nat)
    ensures k <= |os|
    ensures k < |os| ==> Qualifies(os[k], opt, minsize)
    ensures forall i :: 0 <= i < k ==> !Qualifies(os[i], opt, minsize)
  {
    if os == [] || Qualifies(os[0], opt, minsize) then 0 else 1 + FirstOpt(os[1..], opt, minsize)
  }

  lemma RegionFirst(b: seq<Byte>, p: nat, os: seq<Opt>)
    requires OptsOk(os) && Region(b, p, os) && os != []
    ensures var n := |os[0].data|;
      && p + 2 + n < |b| && b[p] == os[0].code && b[p + 1] == n && b[p + 2..p + 2 + n] == os[0].data
      && OptsOk(os[1..]) && Region(b, p + 2 + n, os[1..])
  {
    var n, m := |os[0].data|, |Enc(os)|;
    assert Enc(os) == EncOpt(os[0]) + Enc(os[1..]);
    assert b[p] == b[p..p + m][0] && b[p + 1] == b[p..p + m][1];
    SubSlice(b, p, p + m, 2, 2 + n);
    SubSlice(b, p, p + m, 2 + n, m);
  }

  // The reader finds the first option that qualifies, with its value, and no other.
  lemma {:induction false} FindsFirst(b: seq<Byte>, p: nat, os: seq<Opt>, opt: Byte, minsize: nat)
    requires opt != END && OptsOk(os) && Region(b, p, os)
    ensures var k, r := FirstOpt(os, opt, minsize), Find1(b, p, opt, minsize);
      && (k == |os| ==> r.None?)
      && (k < |os| ==> r.Some? && Value(b, r.v) == os[k].data)
    decreases |os|
  {
    hide Region;
    if os == [] {
      RegionEmpty(b, p);
    } else {
      RegionFirst(b, p, os);
      if !Qualifies(os[0], opt, minsize) {
        FindsFirst(b, p + 2 + |os[0].data|, os[1..], opt, minsize);
      }
    }
  }

  lemma RegionEmpty(b: seq<Byte>, p: nat)
    requires Region(b, p, [])
    ensures p < |b| && b[p] == END
  {
  }

  // ---------- everything accepted is found ----------

  predicate DistinctCodes(os: seq<Opt>) {
    forall i, j :: 0 <= i < j < |os| ==> os[i].code != os[j].code
  }

  // What has been put is from the list, in two regions without a common code.
  predicate FromList(a: Area, os: seq<Opt>) {
    && (forall i :: 0 <= i < |a.opts| ==> a.opts[i].code == OVERLOAD || a.opts[i] in os)
    && (forall i :: 0 <= i < |a.file| ==> a.file[i] in os)
    && DistinctCodes(a.opts) && DistinctCodes(a.file)
    && (forall i, j :: 0 <= i < |a.opts| && 0 <= j < |a.file| ==> a.opts[i].code != a.file[j].code)
  }

  lemma PutFromList(a: Area, o: Opt, os: seq<Opt>)
    requires AreaOk(a) && OptOk(o) && o.code != OVERLOAD && FromList(a, os)
    requires forall i :: 0 <= i < |os| ==> os[i].code != o.code && os[i].code != OVERLOAD
    ensures FromList(Put(a, o), os + [o])
  {
    var r := Put(a, o);
    assert forall x :: x in os ==> x in os + [o];
    assert o in os + [o];
    assert forall i :: 0 <= i < |a.opts| ==> a.opts[i].code != o.code;
    assert forall i :: 0 <= i < |a.file| ==> a.file[i].code != o.code && a.file[i].code != OVERLOAD;
    hide FitsOptions, FitsFile, AreaOk, OptOk;
  }

  lemma {:induction false} PutAllFromList(a: Area, done: seq<Opt>, os: seq<Opt>)
    requires AreaOk(a) && Putable(os) && FromList(a, done)
    requires DistinctCodes(done + os) && forall i :: 0 <= i < |done| ==> done[i].code != OVERLOAD
    ensures FromList(PutAll(a, os), done + os) && AreaOk(PutAll(a, os))
    decreases |os|
  {
    hide Put, AreaOk, FromList;
    if os == [] {
      assert done + os == done;
    } else {
      PutOk(a, os[0]);
      forall i | 0 <= i < |done|
        ensures done[i].code != os[0].code
      {
        assert (done + os)[i].code != (done + os)[|done|].code;
      }
      PutFromList(a, os[0], done);
      assert (done + [os[0]]) + os[1..] == done + os;
      PutAllFromList(Put(a, os[0]), done + [os[0]], os[1..]);
    }
  }

  // An option that got a place, in the finished packet.
  predicate Finished(a: Area, opts: seq<Byte>, file: seq<Byte>)
    requires AreaOk(a)
  {
    Region(opts, 0, a.opts) && (HasOverload(a.opts) ==> Region(file, 0, a.file))
  }

  lemma AcceptedIsFound(a: Area, os: seq<Opt>, o: Opt, minsize: nat, opts: seq<Byte>, file: seq<Byte>, sname: seq<Byte>)
    requires AreaOk(a) && FromList(a, os) && Finished(a, opts, file)
    requires (o in a.opts || o in a.file) && o.code != OVERLOAD && minsize <= |o.data|
    ensures OptOk(o) && OptionFind(opts, file, sname, o.code, minsize) == Some(o.data)
  {
    hide Region;
    if o in a.opts {
      var i :| 0 <= i < |a.opts| && a.opts[i] == o;
      FindsFirst(opts, 0, a.opts, o.code, minsize);
      assert Qualifies(a.opts[i], o.code, minsize);
      assert FirstOpt(a.opts, o.code, minsize) == i;
    } else {
      var j :| 0 <= j < |a.file| && a.file[j] == o;
      FindsFirst(opts, 0, a.opts, o.code, minsize);
      assert FirstOpt(a.opts, o.code, minsize) == |a.opts|;
      FindsFirst(opts, 0, a.opts, OVERLOAD, 1);
      OverloadFound(a);
      FindsFirst(file, 0, a.file, o.code, minsize);
      assert Qualifies(a.file[j], o.code, minsize);
      assert FirstOpt(a.file, o.code, minsize) == j;
    }
  }

  lemma OverloadFound(a: Area)
    requires AreaOk(a) && a.file != []
    ensures var k := FirstOpt(a.opts, OVERLOAD, 1); k < |a.opts| && a.opts[k].data == [1]
  {
    var i :| 0 <= i < |a.opts| && a.opts[i].code == OVERLOAD;
    assert Qualifies(a.opts[i], OVERLOAD, 1);
  }

  // Any reply of options with different codes: all that were accepted, before or after the
  // reserve, are found in the finished packet, each with its own value.
  lemma AllAcceptedAreFound(early: seq<Opt>, later: seq<Opt>, taken: bool, size: nat, o: Opt, minsize: nat,
                            opts: seq<Byte>, file: seq<Byte>, sname: seq<Byte>)
    requires Putable(early) && Putable(later) && DistinctCodes(early + later)
    requires var a := PutAll(Reserve(PutAll(Start(taken, size), early)), later);
      (o in a.opts || o in a.file) && o.code != OVERLOAD && minsize <= |o.data| && Finished(a, opts, file)
    ensures o in early + later && OptOk(o) && OptionFind(opts, file, sname, o.code, minsize) == Some(o.data)
  {
    hide Region, PutAll;
    var s := Start(taken, size);
    assert [] + early == early && DistinctCodes(early) by { PrefixDistinct(early, later); }
    PutAllFromList(s, [], early);
    PutAllFromList(Reserve(PutAll(s, early)), early, later);
    AcceptedIsFound(PutAll(Reserve(PutAll(s, early)), later), early + later, o, minsize, opts, file, sname);
  }

  lemma PrefixDistinct(a: seq<Opt>, b: seq<Opt>)
    requires DistinctCodes(a + b)
    ensures DistinctCodes(a)
  {
    assert forall i :: 0 <= i < |a| ==> (a + b)[i] == a[i];
  }

  // ---------- numbers ----------

  function Pow256(n: nat): nat {
    if n == 0 then 1 else 256 * Pow256(n - 1)
  }

  // option_put writes the highest byte first, and option_uint reads it so.
  function BigEndian(v: nat, len: nat): (b: seq<Byte>)
    ensures |b| == len
  {
    if len == 0 then [] else BigEndian(v / 256, len - 1) + [v % 256]
  }

  function Uint(b: seq<Byte>): nat {
    if b == [] then 0 else Uint(b[..|b| - 1]) * 256 + b[|b| - 1]
  }

  lemma {:induction false} UintOfBigEndian(v: nat, len: nat)
    requires v < Pow256(len)
    ensures Uint(BigEndian(v, len)) == v
  {
    if len > 0 {
      UintOfBigEndian(v / 256, len - 1);
      var b := BigEndian(v, len);
      assert b[..|b| - 1] == BigEndian(v / 256, len - 1);
    }
  }
}
