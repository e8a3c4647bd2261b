// The reply packet as rfc2131.c fills it: byte arrays for the options area, behind the
// cookie, and for the file field. Each method does to the lists of options what the
// functions of DhcpOptions say.
module DhcpReplyPacket {
  import opened Optional
  import opened DnsName
  import opened Slices
  import opened DhcpOptions

  // The fixed fields of a packet and the cookie; no packet is shorter than the minimum.
  const HEADER: nat := 240

  const MIN_PACKETSZ: nat := 300

  // Where free_space found room.
  datatype Place = Nowhere | InOptions(p: nat) | InFile(p: nat)

  // A region with the options and nothing behind them.
  predicate Filled(b: seq<Byte>, os: seq<Opt>)
    requires OptsOk(os)
  {
    |Enc(os)| < |b| && b == Enc(os) + Zeros(|b| - |Enc(os)|)
  }

  lemma FilledFirst(b: seq<Byte>, p: nat, os: seq<Opt>)
    requires OptsOk(os) && os != [] && p + |Enc(os)| < |b|
    requires b[p..p + |Enc(os)|] == Enc(os)
    ensures b[p] == os[0].code && b[p + 1] == |os[0].data| && OptsOk(os[1..])
    ensures var q := p + 2 + |os[0].data|;
      q + |Enc(os[1..])| == p + |Enc(os)| && b[q..p + |Enc(os)|] == Enc(os[1..])
      && b[p + 2..q] == os[0].data
  {
    var n := |os[0].data|;
    assert Enc(os) == [os[0].code, n] + os[0].data + Enc(os[1..]);
    hide Enc;
    Parts(b, p, [os[0].code, n], os[0].data, Enc(os[1..]));
    assert b[p] == b[p..p + 2][0] && b[p + 1] == b[p..p + 2][1];
  }

  method SkipOpts(a: array<Byte>, ghost os: seq<Opt>) returns (p: nat)
    requires OptsOk(os) && Filled(a[..], os)
    ensures p == |Enc(os)|
  {
    ghost var rest := os;
    p := 0;
    FilledStart(a[..], os);
    while a[p] != 0
      invariant OptsOk(rest) && p + |Enc(rest)| == |Enc(os)| < a.Length && a[..][p..|Enc(os)|] == Enc(rest)
      invariant a[|Enc(os)|] == 0
      decreases |rest|
    {
      FilledFirst(a[..], p, rest);
      p := p + a[p + 1] + 2;
      rest := rest[1..];
    }
    EndOfOpts(a[..], p, rest);
  }

  // Where a zero byte stands the options are over.
  lemma EndOfOpts(b: seq<Byte>, p: nat, os: seq<Opt>)
    requires OptsOk(os) && p + |Enc(os)| < |b| && b[p..p + |Enc(os)|] == Enc(os) && b[p] == 0
    ensures os == []
  {
    if os != [] { FilledFirst(b, p, os); }
  }

  lemma FilledStart(b: seq<Byte>, os: seq<Opt>)
    requires OptsOk(os) && Filled(b, os)
    ensures b[0..|Enc(os)|] == Enc(os) && b[|Enc(os)|] == 0
  {
  }

  // The place of the overload option.
  method FindOverload(a: array<Byte>, ghost os: seq<Opt>) returns (r: Option<nat>)
    requires OptsOk(os) && Filled(a[..], os)
    requires forall i :: 0 <= i < |os| && os[i].code == OVERLOAD ==> os[i].data == [1]
    ensures r.Some? <==> HasOverload(os)
    ensures r.Some? ==> r.v + 2 < a.Length && a[r.v + 2] == 1
  {
    ghost var k := 0;
    var p: nat := 0;
    FilledStart(a[..], os);
    assert os[0..] == os;
    while a[p] != 0
      invariant k <= |os| && OptsOk(os[k..]) && p + |Enc(os[k..])| == |Enc(os)| < a.Length
      invariant a[..][p..|Enc(os)|] == Enc(os[k..]) && a[|Enc(os)|] == 0
      invariant forall i :: 0 <= i < k ==> os[i].code != OVERLOAD
      decreases |os| - k
    {
      FilledFirst(a[..], p, os[k..]);
      assert os[k..][0] == os[k] && os[k..][1..] == os[k + 1..];
      if a[p] == OVERLOAD {
        assert a[..][p + 2..p + 3][0] == 1;
        return Some(p);
      }
      p := p + a[p + 1] + 2;
      k := k + 1;
    }
    EndOfOpts(a[..], p, os[k..]);
    r := None;
  }

  // Code, length and data written behind the others.
  method Append(a: array<Byte>, ghost os: seq<Opt>, p: nat, o: Opt)
    requires OptsOk(os) && OptOk(o) && Filled(a[..], os) && p == |Enc(os)| && p + |o.data| + 2 < a.Length
    modifies a
    ensures OptsOk(os + [o]) && Filled(a[..], os + [o])
  {
    EncAppend(os, o);
    ghost var before := a[..];
    a[p] := o.code;
    a[p + 1] := |o.data|;
    var i := 0;
    while i < |o.data|
      invariant 0 <= i <= |o.data|
      invariant a[p] == o.code && a[p + 1] == |o.data|
      invariant forall k :: 0 <= k < i ==> a[p + 2 + k] == o.data[k]
      invariant forall k :: 0 <= k < a.Length && (k < p || k >= p + 2 + i) ==> a[k] == before[k]
    {
      a[p + 2 + i] := o.data[i];
      i := i + 1;
    }
    AppendedIs(before, a[..], os, o);
  }

  lemma AppendedIs(before: seq<Byte>, after: seq<Byte>, os: seq<Opt>, o: Opt)
    requires OptsOk(os) && OptOk(o) && Filled(before, os) && |after| == |before|
    requires var p, n := |Enc(os)|, |o.data|;
      && p + n + 2 < |after| && after[p] == o.code && after[p + 1] == n
      && (forall k :: 0 <= k < n ==> after[p + 2 + k] == o.data[k])
      && (forall k :: 0 <= k < |after| && (k < p || k >= p + 2 + n) ==> after[k] == before[k])
    ensures OptsOk(os + [o]) && Filled(after, os + [o])
  {
    EncAppend(os, o);
    var p, n := |Enc(os)|, |o.data|;
    var want := Enc(os) + EncOpt(o) + Zeros(|after| - p - n - 2);
    forall k | 0 <= k < |after|
      ensures after[k] == want[k]
    {
      if p + 2 <= k < p + 2 + n {
        assert after[p + 2 + (k - p - 2)] == o.data[k - p - 2];
      }
    }
    assert after == want;
  }

  class Reply {
    const options: array<Byte>
    const file: array<Byte>
    var limit: int  // end, as free_space is told of it

    constructor (size: nat, name: seq<Byte>)
      requires size > 0 && |name| < FILE_SIZE
      ensures fresh(options) && fresh(file) && options != file
      ensures options.Length == size && (name == [] || name[0] != 0 ==> Holds(Start(name != [], size)))
    {
      options := new Byte[size](_ => 0);
      file := new Byte[FILE_SIZE](i requires 0 <= i => if i < |name| then name[i] else 0);
      limit := size;
      new;
      assert options[..] == Enc([]) + Zeros(size);
      if name == [] {
        assert file[..] == Enc([]) + Zeros(FILE_SIZE);
      }
    }

    // The arrays hold the options of the lists.
    ghost predicate Holds(a: Area)
      reads this, options, file
    {
      && options != file && file.Length == FILE_SIZE && options.Length == a.size && limit == a.limit
      && AreaOk(a) && Filled(options[..], a.opts)
      && (if a.taken then file[0] != 0 else Filled(file[..], a.file))
    }

    // The reserve of do_options.
    method ReserveOverload(ghost a: Area)
      requires Holds(a)
      modifies this
      ensures Holds(Reserve(a)) && Reserved(Reserve(a))
    {
      hide Enc, OptsOk, HasOverload;
      FileTaken(a);
      if file[0] == 0 {
        limit := limit - 3;
      }
    }

    lemma FileTaken(a: Area)
      requires Holds(a)
      ensures OptsOk(a.file) && (file[0] == 0 <==> !a.taken && a.file == [])
    {
      if !a.taken {
        assert file[0] == file[..][0];
        if a.file != [] { FilledFirst(file[..], 0, a.file); }
      }
    }

    // free_space and the copying of the data.
    method PutOption(o: Opt, ghost a: Area) returns (where: Place)
      requires OptOk(o) && o.code != OVERLOAD && Holds(a) && Spare(a)
      modifies options, file
      ensures AreaOk(Put(a, o)) && Holds(Put(a, o)) && Inside(Put(a, o))
      ensures (Reserved(a) ==> Reserved(Put(a, o)) && Spare(Put(a, o)))
      ensures where.InOptions? ==> o in Put(a, o).opts
      ensures where.InFile? ==> o in Put(a, o).file
      ensures where.Nowhere? ==>
          Put(a, o).file == a.file && (Put(a, o).opts == a.opts || Put(a, o).opts == a.opts + [Opt(OVERLOAD, [1])])
    {
      hide Filled, Enc, AreaOk, OptsOk, HasOverload, Reserved;
      FilledInside(a);
      PutBounds(a, o);
      AreaParts(a);
      var len := |o.data|;
      var p := SkipOpts(options, a.opts);
      if p + len + 3 < limit {
        Append(options, a.opts, p, o);
        LastIn(a.opts, o);
        return InOptions(p);
      }
      // No room in the options area: use the file field, if it is not taken.
      var overload := FindOverload(options, a.opts);
      var first := file[0];
      if overload.None? && first != 0 {
        FileFirst(a, first);
        return Nowhere;
      }
      FileFirst(a, first);
      if overload.None? {
        Append(options, a.opts, p, Opt(OVERLOAD, [1]));
      }
      var q := SkipOpts(file, a.file);
      if q + len + 3 >= FILE_SIZE {
        return Nowhere;
      }
      Append(file, a.file, q, o);
      LastIn(a.file, o);
      where := InFile(q);
    }

    // All puts behind the reserve: whatever they are, they stay inside the bounds.
    method PutLater(os: seq<Opt>, ghost a: Area)
      requires Putable(os) && Holds(a) && Spare(a) && Reserved(a)
      modifies options, file
      ensures Holds(PutAll(a, os)) && Inside(PutAll(a, os))
    {
      hide Holds, Put, AreaOk, Spare, Reserved, Inside, PutAll;
      ghost var b := a;
      FilledInside(a);
      var i := 0;
      Whole(a, os);
      while i < |os|
        invariant 0 <= i <= |os| && AreaOk(b) && Holds(b) && Spare(b) && Reserved(b) && Inside(b)
        invariant Putable(os[i..]) && PutAll(b, os[i..]) == PutAll(a, os)
      {
        OneMore(b, os, i);
        var where := PutOption(os[i], b);
        b := Put(b, os[i]);
        i := i + 1;
      }
      Whole(b, os[|os|..]);
    }

    static lemma Whole(a: Area, os: seq<Opt>)
      requires AreaOk(a) && Putable(os)
      ensures os[0..] == os && PutAll(a, []) == a
    {
    }

    static lemma OneMore(a: Area, os: seq<Opt>, i: nat)
      requires AreaOk(a) && i < |os| && Putable(os[i..])
      ensures OptOk(os[i]) && os[i].code != OVERLOAD && AreaOk(Put(a, os[i])) && Putable(os[i + 1..])
      ensures PutAll(a, os[i..]) == PutAll(Put(a, os[i]), os[i + 1..])
    {
      assert os[i..][0] == os[i] && os[i..][1..] == os[i + 1..];
      PutOk(a, os[i]);
      hide Put, AreaOk;
    }

    lemma FilledInside(a: Area)
      requires Holds(a)
      ensures AreaOk(a) && Inside(a)
    {
    }

    static lemma LastIn(os: seq<Opt>, o: Opt)
      ensures o in os + [o]
    {
      assert (os + [o])[|os|] == o;
    }

    static lemma AreaParts(a: Area)
      requires AreaOk(a)
      ensures OptsOk(a.opts) && OptsOk(a.file) && (a.taken ==> !HasOverload(a.opts))
      ensures forall i :: 0 <= i < |a.opts| && a.opts[i].code == OVERLOAD ==> a.opts[i].data == [1]
      ensures a.file != [] ==> HasOverload(a.opts)
    {
    }

    // Without an overload option the first byte of the file field tells whether it is
    // taken.
    lemma FileFirst(a: Area, first: Byte)
      requires Holds(a) && first == file[0]
      ensures a.taken ==> first != 0
      ensures !a.taken && !HasOverload(a.opts) ==> first == 0
    {
      AreaParts(a);
      if !a.taken && !HasOverload(a.opts) {
        assert a.file == [];
        assert file[0] == file[..][0];
      }
    }

    // option_put: a number, highest byte first.
    method OptionPut(code: Byte, len: nat, val: nat, ghost a: Area) returns (where: Place)
      requires len <= 255 && code != PAD && code != END && code != OVERLOAD && val < Pow256(len)
      requires Holds(a) && Spare(a)
      modifies options, file
      ensures var o := Opt(code, BigEndian(val, len));
        && AreaOk(Put(a, o)) && Holds(Put(a, o)) && Inside(Put(a, o)) && Uint(o.data) == val
        && (Reserved(a) ==> Reserved(Put(a, o)) && Spare(Put(a, o)))
        && (where.InOptions? ==> o in Put(a, o).opts) && (where.InFile? ==> o in Put(a, o).file)
    {
      var data: seq<Byte> := [];
      var v: nat, i: nat := val, len;
      while i > 0
        invariant 0 <= i <= len
        invariant BigEndian(val, len) == BigEndian(v, i) + data
        invariant v < Pow256(i)
      {
        data := [v % 256] + data;
        v := v / 256;
        i := i - 1;
      }
      assert data == BigEndian(val, len);
      UintOfBigEndian(val, len);
      where := PutOption(Opt(code, data), a);
    }

    // dhcp_packet_size: the end markers, and the length of the packet.
    method PacketSize(ghost a: Area) returns (n: nat)
      requires Holds(a) && Inside(a)
      modifies options, file
      ensures |Enc(a.opts)| + 1 <= options.Length
      ensures n == if HEADER + |Enc(a.opts)| + 1 < MIN_PACKETSZ then MIN_PACKETSZ else HEADER + |Enc(a.opts)| + 1
      ensures Finished(a, options[..], file[..])
    {
      hide Enc, Filled, OptsOk, AreaOk, HasOverload;
      AreaParts(a);
      var overload := FindOverload(options, a.opts);
      var p := SkipOpts(options, a.opts);
      if overload.Some? {
        var q := SkipOpts(file, a.file);
        ghost var before := file[..];
        file[q] := END;
        Marked(before, file[..], a.file);
      }
      ghost var full := options[..];
      options[p] := END;
      Marked(full, options[..], a.opts);
      n := HEADER + p + 1;
      if n < MIN_PACKETSZ {
        n := MIN_PACKETSZ;
      }
    }

    static lemma Marked(before: seq<Byte>, after: seq<Byte>, os: seq<Opt>)
      requires OptsOk(os) && Filled(before, os) && after == before[|Enc(os)| := END]
      ensures Region(after, 0, os)
    {
    }
  }
}
