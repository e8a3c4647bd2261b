// A TFTP transfer: blocks, acknowledgements and timeouts of tftp.c.
module TftpTransfer {
  import opened Optional
  import opened DnsName
  import opened TftpBlocks

  // What does not change during a transfer.
  datatype Setup = Setup(file: seq<Byte>, blocksize: nat, netascii: bool)

  datatype Transfer = Transfer(block: nat, offset: nat, expansion: nat, carry: bool, timeout: nat, backoff: nat)

  // The block number on the wire has 16 bits.
  datatype Packet = Oack | Data(number: nat, data: seq<Byte>)

  datatype Fetched = Fetched(t: Transfer, p: Packet) | Finished | ReadError

  const MAX_BACKOFF: nat := 5

  predicate SetupOk(u: Setup) {
    u.blocksize > 0
  }

  // The bytes of the file read for a block.
  function Raw(u: Setup, t: Transfer): (s: seq<Byte>)
    requires t.offset <= |u.file|
    ensures |s| == Min(u.blocksize, |u.file| - t.offset)
  {
    u.file[t.offset..t.offset + Min(u.blocksize, |u.file| - t.offset)]
  }

  // get_block.
  function GetBlock(u: Setup, t: Transfer, readOk: bool): Fetched {
    if t.block == 0 then Fetched(t, Oack)
    else if t.offset > |u.file| then Finished
    else if !readOk then ReadError
    else
      var s := Raw(u, t);
      var number := t.block % 0x10000;
      if !u.netascii then Fetched(t.(expansion := 0), Data(number, s))
      else
        var e := Expand(s, t.carry);
        var c := Consume(s, t.carry, u.blocksize);
        Fetched(t.(expansion := |s| - c.raw, carry := c.carry), Data(number, e[..Min(u.blocksize, |e|)]))
  }

  // What comes from the client between two looks at the socket.
  datatype Input = Nothing | AckOf(number: nat) | ErrorPacket

  datatype Outcome = Idle | Sent(p: Packet) | Completed | GaveUp | Broken

  function Take(u: Setup, t: Transfer, now: nat, i: Input): Transfer
    requires t.expansion <= u.blocksize
  {
    match i
    case Nothing => t
    case AckOf(n) =>
      if n != t.block % 0x10000 then t
      else t.(timeout := now, backoff := 0, block := t.block + 1,
              offset := if t.block != 0 then t.offset + u.blocksize - t.expansion else t.offset)
    case ErrorPacket => t.(timeout := now, backoff := 100)
  }

  function Pow2(n: nat): nat {
    if n == 0 then 1 else 2 * Pow2(n - 1)
  }

  // One transfer's turn in check_tftp_listeners.
  function Turn(u: Setup, t0: Transfer, now: nat, i: Input, readOk: bool): (Transfer, Outcome)
    requires t0.expansion <= u.blocksize
  {
    var t := Take(u, t0, now, i);
    if now < t.timeout then (t, Idle)
    else
      var f := GetBlock(u, t, readOk);
      if f.ReadError? then (t, Broken)
      else if f.Finished? then (t, Completed)
      else
        var t' := f.t.(timeout := t.timeout + 1 + Pow2(t.backoff), backoff := t.backoff + 1);
        (t', if t'.backoff > MAX_BACKOFF then GaveUp else Sent(f.p))
  }

  // The state in which a transfer starts, after its first packet has been sent. Options
  // make it begin with an option acknowledgement, numbered 0.
  function Start(u: Setup, options: bool, now: nat): Transfer {
    var t := Transfer(if options then 0 else 1, 0, 0, false, now + 2, 1);
    var f := GetBlock(u, t, true);
    if f.Fetched? then f.t else t
  }

  // ---------- octet mode ----------

  // Where block k starts.
  function At(blocksize: nat, k: nat): nat {
    if k <= 1 then 0 else At(blocksize, k - 1) + blocksize
  }

  lemma {:induction false} AtIs(blocksize: nat, k: nat)
    requires k >= 1
    ensures At(blocksize, k) == (k - 1) * blocksize
  {
    if k > 1 {
      AtIs(blocksize, k - 1);
      assert (k - 1) * blocksize == (k - 2) * blocksize + blocksize;
    }
  }

  predicate OctetInv(u: Setup, t: Transfer) {
    && !u.netascii && SetupOk(u) && t.expansion == 0
    && (t.block == 0 ==> t.offset == 0)
    && (t.block >= 1 ==> t.offset == At(u.blocksize, t.block) <= |u.file|)
  }

  // The bytes of block k; the last block is a short one.
  function OctetBlock(u: Setup, k: nat): (b: seq<Byte>)
    requires k >= 1 && At(u.blocksize, k) <= |u.file|
    ensures |b| <= u.blocksize
  {
    var from := At(u.blocksize, k);
    u.file[from..from + Min(u.blocksize, |u.file| - from)]
  }

  // The block that is due: the next one only when the current one is acknowledged.
  function Due(t: Transfer, i: Input): nat {
    if i == AckOf(t.block % 0x10000) then t.block + 1 else t.block
  }

  // An outcome that the protocol allows: the transfer stands at the block that is due,
  // data are that block of the file, and the end comes with the acknowledgement of a
  // short block.
  predicate OctetOk(u: Setup, before: Transfer, i: Input, after: Transfer, o: Outcome) {
    && after.block == Due(before, i)
    && match o
       case Sent(Data(number, data)) => IsBlock(u, after.block, number, data)
       case Completed => i == AckOf(before.block % 0x10000) && ShortBlock(u, before.block)
       case _ => true
  }

  predicate IsBlock(u: Setup, k: nat, number: nat, data: seq<Byte>) {
    k >= 1 && At(u.blocksize, k) <= |u.file| && number == k % 0x10000 && data == OctetBlock(u, k)
  }

  predicate ShortBlock(u: Setup, k: nat) {
    k >= 1 && At(u.blocksize, k) <= |u.file| && |OctetBlock(u, k)| < u.blocksize
  }

  // After an acknowledgement the transfer may stand behind the end of the file.
  lemma OctetTake(u: Setup, t: Transfer, now: nat, i: Input)
    requires OctetInv(u, t)
    ensures var r := Take(u, t, now, i);
      && r.block == Due(t, i) && r.expansion == 0 && (r.block == 0 ==> r.offset == 0) &&
          (r.block >= 1 ==> r.offset == At(u.blocksize, r.block))
      && (r.offset > |u.file| ==>
          r.block >= 1 && r.timeout == now && i == AckOf(t.block % 0x10000) && ShortBlock(u, t.block))
  {
  }

  lemma OctetFetch(u: Setup, t: Transfer, readOk: bool)
    requires !u.netascii && t.expansion == 0 && (t.block >= 1 ==> t.offset == At(u.blocksize, t.block))
    ensures var f := GetBlock(u, t, readOk);
      && (f.Fetched? ==> f.t == t)
      && (f.Fetched? && f.p.Data? ==> IsBlock(u, t.block, f.p.number, f.p.data))
      && (f.Finished? ==> t.offset > |u.file|)
  {
    hide Expand, Consume, At;
  }

  lemma OctetTurn(u: Setup, t: Transfer, now: nat, i: Input, readOk: bool)
    requires OctetInv(u, t)
    ensures var (t', o) := Turn(u, t, now, i, readOk);
      OctetOk(u, t, i, t', o) && (o.Idle? || o.Sent? ==> OctetInv(u, t'))
  {
    hide Take, GetBlock, At, Pow2, IsBlock, ShortBlock;
    OctetTake(u, t, now, i);
    OctetFetch(u, Take(u, t, now, i), readOk);
    FetchedInside(u, Take(u, t, now, i), readOk);
  }

  lemma FetchedInside(u: Setup, t: Transfer, readOk: bool)
    ensures GetBlock(u, t, readOk).Fetched? && t.block >= 1 ==> t.offset <= |u.file|
  {
  }

  datatype Look = Look(now: nat, input: Input, readOk: bool)

  predicate OctetRunOk(u: Setup, t: Transfer, looks: seq<Look>)
    requires t.expansion <= u.blocksize
    decreases |looks|
  {
    looks == [] ||
    var l := looks[0];
    var (t', o) := Turn(u, t, l.now, l.input, l.readOk);
    && OctetOk(u, t, l.input, t', o)
    && (o.Idle? || o.Sent? ==> t'.expansion <= u.blocksize && OctetRunOk(u, t', looks[1..]))
  }

  // Any interleaving of acknowledgements, timeouts and read errors.
  lemma {:induction false} OctetRun(u: Setup, t: Transfer, looks: seq<Look>)
    requires OctetInv(u, t)
    ensures OctetRunOk(u, t, looks)
    decreases |looks|
  {
    hide Turn, OctetOk, OctetBlock;
    if looks != [] {
      var l := looks[0];
      OctetTurn(u, t, l.now, l.input, l.readOk);
      var (t', o) := Turn(u, t, l.now, l.input, l.readOk);
      if o.Idle? || o.Sent? {
        OctetRun(u, t', looks[1..]);
      }
    }
  }

  lemma OctetStarts(u: Setup, options: bool, now: nat)
    requires SetupOk(u) && !u.netascii
    ensures OctetInv(u, Start(u, options, now))
  {
  }

  function OctetBlocks(u: Setup, n: nat): seq<Byte>
    requires n >= 1 && At(u.blocksize, n) <= |u.file|
    decreases n
  {
    (if n == 1 then [] else OctetBlocks(u, n - 1)) + OctetBlock(u, n)
  }

  // The blocks up to a short one are the file.
  lemma {:induction false} OctetBlocksAreTheFile(u: Setup, n: nat)
    requires SetupOk(u) && n >= 1 && At(u.blocksize, n) <= |u.file|
    ensures OctetBlocks(u, n) == u.file[..At(u.blocksize, n) + |OctetBlock(u, n)|]
    ensures |OctetBlock(u, n)| < u.blocksize ==> OctetBlocks(u, n) == u.file
  {
    var from := At(u.blocksize, n);
    if n > 1 {
      OctetBlocksAreTheFile(u, n - 1);
      assert At(u.blocksize, n - 1) + |OctetBlock(u, n - 1)| == from;
      assert OctetBlocks(u, n) == u.file[..from] + OctetBlock(u, n);
    } else {
      assert [] + OctetBlock(u, 1) == OctetBlock(u, 1);
    }
  }

  // ---------- netascii mode ----------

  // The block is fetched once and acknowledged.
  function Advance(u: Setup, t: Transfer): Transfer
    requires t.block >= 1 && t.offset <= |u.file| && SetupOk(u)
  {
    var f := GetBlock(u, t, true).t;
    f.(block := f.block + 1, offset := f.offset + u.blocksize - f.expansion)
  }

  function BlockData(u: Setup, t: Transfer): seq<Byte>
    requires t.block >= 1 && t.offset <= |u.file|
  {
    GetBlock(u, t, true).p.data
  }

  lemma {:induction false} ConsumeAll(s: seq<Byte>, carry: bool, n: nat)
    requires n > 0 && Consume(s, carry, n).raw == |s|
    ensures !Consume(s, carry, n).carry
  {
    if s != [] && !(s[0] == LF && !carry && n == 1) {
      var k := if s[0] == LF && !carry then n - 2 else n - 1;
      if k > 0 {
        ConsumeAll(s[1..], false, k);
      }
    }
  }

  // While a whole block is left to read, the block goes on exactly where the last one
  // ended, and the next will where this one ends.
  lemma FullBlockResumes(u: Setup, t: Transfer)
    requires u.netascii && SetupOk(u) && t.block >= 1 && t.offset + u.blocksize <= |u.file|
    ensures var d, t' := BlockData(u, t), Advance(u, t);
      && |d| == u.blocksize && t'.offset <= |u.file| && t'.block == t.block + 1
      && Expand(u.file[t.offset..], t.carry) == d + Expand(u.file[t'.offset..], t'.carry)
  {
    hide Expand, Consume;
    var s, tail := Raw(u, t), u.file[t.offset + u.blocksize..];
    var c, e := Consume(s, t.carry, u.blocksize), Expand(s, t.carry);
    ConsumeResumes(s, t.carry, u.blocksize);
    assert u.file[t.offset..] == s + tail;
    ExpandConcat(s, tail, t.carry);
    var d := e[..u.blocksize];
    var rest := s[c.raw..];
    assert u.file[t.offset + c.raw..] == rest + tail;
    assert e + Expand(tail, false) == d + (Expand(rest, c.carry) + Expand(tail, false));
    if rest != [] {
      ExpandConcat(rest, tail, c.carry);
    } else {
      ConsumeAll(s, t.carry, u.blocksize);
      assert rest + tail == tail;
      ExpandNothing();
      assert Expand(rest, c.carry) + Expand(tail, false) == Expand(tail, false);
    }
  }

  lemma ExpandNothing()
    ensures Expand([], false) == [] && Expand([], true) == []
  {
  }

  // n blocks, each with a whole block of the file left before it.
  predicate Whole(u: Setup, t: Transfer, n: nat)
    requires t.block >= 1 && SetupOk(u)
    decreases n
  {
    n == 0 || (t.offset + u.blocksize <= |u.file| && Whole(u, Advance(u, t), n - 1))
  }

  function Blocks(u: Setup, t: Transfer, n: nat): seq<Byte>
    requires t.block >= 1 && SetupOk(u) && Whole(u, t, n)
    decreases n
  {
    if n == 0 then [] else BlockData(u, t) + Blocks(u, Advance(u, t), n - 1)
  }

  function After(u: Setup, t: Transfer, n: nat): (r: Transfer)
    requires t.block >= 1 && SetupOk(u) && Whole(u, t, n)
    ensures r.block >= 1
    decreases n
  {
    if n == 0 then t else After(u, Advance(u, t), n - 1)
  }

  // The blocks sent so far, one after the other, are the expanded file up to exactly the
  // place where the transfer stands.
  lemma {:induction false} BlocksArePrefix(u: Setup, t: Transfer, n: nat)
    requires u.netascii && SetupOk(u) && t.block >= 1 && t.offset <= |u.file| && Whole(u, t, n)
    ensures After(u, t, n).offset <= |u.file| && |Blocks(u, t, n)| == n * u.blocksize
    ensures Expand(u.file[t.offset..], t.carry) == Blocks(u, t, n) + Expand(u.file[After(u, t, n).offset..], After(u, t,
        n).carry)
    decreases n
  {
    hide Expand, BlockData, Advance;
    if n == 0 {
      assert [] + Expand(u.file[t.offset..], t.carry) == Expand(u.file[t.offset..], t.carry);
    } else {
      FullBlockResumes(u, t);
      BlocksArePrefix(u, Advance(u, t), n - 1);
      assert n * u.blocksize == (n - 1) * u.blocksize + u.blocksize;
      var last := After(u, t, n);
      assert BlockData(u, t) + (Blocks(u, Advance(u, t), n - 1) + Expand(u.file[last.offset..], last.carry))
          == Blocks(u, t, n) + Expand(u.file[last.offset..], last.carry);
    }
  }

  // A transfer from its start.
  lemma NetasciiRun(u: Setup, now: nat, n: nat)
    requires u.netascii && SetupOk(u) && Whole(u, Transfer(1, 0, 0, false, now, 1), n)
    ensures Blocks(u, Transfer(1, 0, 0, false, now, 1), n) <= Expand(u.file, false)
    ensures |Blocks(u, Transfer(1, 0, 0, false, now, 1), n)| == n * u.blocksize
  {
    var t := Transfer(1, 0, 0, false, now, 1);
    BlocksArePrefix(u, t, n);
    assert u.file[0..] == u.file;
  }

  // The last block: fewer raw bytes than a block are left. The client gets them all
  // exactly if they fit when expanded, and it sees that the file has ended exactly if
  // they leave room. Otherwise the next block would start too late, and bytes are lost.
  lemma LastBlock(u: Setup, t: Transfer)
    requires u.netascii && SetupOk(u) && t.block >= 1 && t.offset <= |u.file| < t.offset + u.blocksize
    ensures var e, d, t' := Expand(u.file[t.offset..], t.carry), BlockData(u, t), Advance(u, t);
      && (d == e <==> |e| <= u.blocksize)
      && (|d| < u.blocksize <==> |e| < u.blocksize)
      && (|e| <= u.blocksize ==> GetBlock(u, t', true).Finished?)
      && (|e| > u.blocksize ==>
            var raw := Consume(u.file[t.offset..], t.carry, u.blocksize).raw;
            t.offset + raw < |u.file| && t'.offset == t.offset + raw + (u.blocksize - (|u.file| - t.offset)))
  {
    hide Expand, Consume;
    var s := Raw(u, t);
    assert s == u.file[t.offset..];
    ConsumeResumes(s, t.carry, u.blocksize);
    var c := Consume(s, t.carry, u.blocksize);
    if |Expand(s, t.carry)| > u.blocksize && c.raw == |s| {
      ConsumeAll(s, t.carry, u.blocksize);
      ExpandNothing();
    }
  }

  // An LF of s that is to be expanded has its CR on the last of n bytes.
  predicate CutsPair(s: seq<Byte>, carry: bool, n: nat) {
    exists k :: 0 <= k < |s| && s[k] == LF && !(k == 0 && carry) && |Expand(s[..k], carry)| + 1 == n
  }

  lemma {:induction false} CarryMeansCut(s: seq<Byte>, carry: bool, n: nat)
    requires n > 0
    ensures Consume(s, carry, n).carry <==> CutsPair(s, carry, n)
  {
    if s != [] {
      CutFirst(s, carry, n);
      var w := if s[0] == LF && !carry then 2 else 1;
      if n > w {
        CarryMeansCut(s[1..], false, n - w);
      } else if n == w {
        NeverEarly(s[1..]);
      }
    }
  }

  // Nothing is expanded to less than it was.
  lemma NeverEarly(s: seq<Byte>)
    ensures !CutsPair(s, false, 0)
  {
  }

  lemma CutFirst(s: seq<Byte>, carry: bool, n: nat)
    requires s != [] && n > 0
    ensures var w := if s[0] == LF && !carry then 2 else 1;
      CutsPair(s, carry, n) <==> (w == 2 && n == 1) || (n >= w && CutsPair(s[1..], false, n - w))
  {
    var w := if s[0] == LF && !carry then 2 else 1;
    forall k | 0 < k <= |s|
      ensures |Expand(s[..k], carry)| == w + |Expand(s[1..][..k - 1], false)|
    {
      assert s[..k][1..] == s[1..][..k - 1];
    }
    assert |Expand(s[..0], carry)| == 0;
    if CutsPair(s, carry, n) {
      var k :| 0 <= k < |s| && s[k] == LF && !(k == 0 && carry) && |Expand(s[..k], carry)| + 1 == n;
      if k > 0 {
        assert s[1..][k - 1] == LF && |Expand(s[1..][..k - 1], false)| + 1 == n - w;
      }
    }
    if w == 2 && n == 1 {
      assert s[0] == LF && !(0 == 0 && carry) && |Expand(s[..0], carry)| + 1 == n;
    }
    if n >= w && CutsPair(s[1..], false, n - w) {
      var k :| 0 <= k < |s[1..]| && s[1..][k] == LF && |Expand(s[1..][..k], false)| + 1 == n - w;
      assert s[k + 1] == LF && |Expand(s[..k + 1], carry)| + 1 == n;
    }
  }

  // A block sent again is the same packet exactly if its bytes do not begin with an LF, or
  // a pair was cut before them exactly if one is cut at their end.
  lemma Retransmission(u: Setup, t: Transfer)
    requires u.netascii && SetupOk(u) && t.block >= 1 && t.offset <= |u.file|
    ensures var s := Raw(u, t);
      (GetBlock(u, GetBlock(u, t, true).t, true).p == GetBlock(u, t, true).p)
      == (s == [] || s[0] != LF || (t.carry <==> CutsPair(s, t.carry, u.blocksize)))
  {
    hide Consume, CutsPair;
    var s := Raw(u, t);
    CarryMeansCut(s, t.carry, u.blocksize);
    if s != [] && s[0] == LF {
      assert Expand(s, true)[0] == LF && Expand(s, false)[0] == CR;
    } else if s != [] {
      assert Expand(s, true) == Expand(s, false);
    }
  }

  // ---------- files for which this fails ----------

  const X: Byte := 120

  function Xs(n: nat): (s: seq<Byte>)
    ensures |s| == n && forall k :: 0 <= k < n ==> s[k] == X
  {
    seq(n, _ => X)
  }

  lemma XsCons(n: nat, tail: seq<Byte>)
    requires n > 0
    ensures Xs(n) + tail == [X] + (Xs(n - 1) + tail) && (Xs(n) + tail)[1..] == Xs(n - 1) + tail
  {
    assert Xs(n) == [X] + Xs(n - 1);
  }

  // Bytes that are no LF go out as they are.
  lemma {:induction false} PlainBytes(n: nat, tail: seq<Byte>, carry: bool, m: nat)
    ensures Expand(Xs(n) + tail, carry) == Xs(n) + Expand(tail, carry && n == 0)
    ensures m >= n ==>
      var t := Consume(tail, carry && n == 0, m - n);
      Consume(Xs(n) + tail, carry, m) == if m > n then Taken(n + t.raw, t.carry) else Taken(n, carry && n == 0)
  {
    if n == 0 {
      assert Xs(0) + tail == tail;
      assert Xs(0) + Expand(tail, carry) == Expand(tail, carry);
    } else {
      XsCons(n, tail);
      XsCons(n, Expand(tail, false));
      PlainBytes(n - 1, tail, false, if m > 0 then m - 1 else 0);
      hide Xs;
    }
  }

  // For every block size: the last byte of the file is an LF whose CR ends the first block.
  // The second block is the LF; sent again it is CR LF.
  lemma SentAgainDiffers(n: nat, now: nat)
    requires n > 0
    ensures var u := Setup(Xs(n - 1) + [LF], n, true);
      var t := Advance(u, Transfer(1, 0, 0, false, now, 1));
      && t.offset == n - 1 && t.carry && BlockData(u, t) == [LF]
      && GetBlock(u, GetBlock(u, t, true).t, true).p != GetBlock(u, t, true).p
  {
    var u := Setup(Xs(n - 1) + [LF], n, true);
    var t0 := Transfer(1, 0, 0, false, now, 1);
    assert Raw(u, t0) == u.file;
    PlainBytes(n - 1, [LF], false, n);
    assert Consume([LF], false, 1) == Taken(0, true);
    var t := Advance(u, t0);
    assert Raw(u, t) == [LF];
    assert [LF][1..] == [] && Expand([], false) == [];
    assert Expand([LF], true) == [LF] + Expand([], false);
    assert Consume([LF], true, n) == Taken(1, false) by { assert n > 1 ==>
        Consume([], false, n - 1) == Taken(0, false); }
    Retransmission(u, t);
    assert !CutsPair([LF], true, n);
  }

  // For every block size from 2 on: a file one byte shorter, with one LF, fills a block;
  // the transfer ends there, and the client waits for more.
  lemma NoShortBlock(n: nat, now: nat)
    requires n >= 2
    ensures var u := Setup([LF] + Xs(n - 2), n, true);
      var t := Transfer(1, 0, 0, false, now, 1);
      |u.file| == n - 1 && |BlockData(u, t)| == n && GetBlock(u, Advance(u, t), true).Finished?
  {
    var u := Setup([LF] + Xs(n - 2), n, true);
    var t := Transfer(1, 0, 0, false, now, 1);
    assert u.file[0..] == u.file && u.file[1..] == Xs(n - 2);
    PlainBytes(n - 2, [], false, n);
    assert Xs(n - 2) + [] == Xs(n - 2);
    LastBlock(u, t);
  }

  // For every block size from 3 on: with two of them the last byte of the file is never
  // sent.
  lemma LastByteLost(n: nat, now: nat)
    requires n >= 3
    ensures var u := Setup([LF, LF] + Xs(n - 3), n, true);
      var t := Transfer(1, 0, 0, false, now, 1);
      && |u.file| == n - 1 && |Expand(u.file, false)| == n + 1
      && BlockData(u, t) != Expand(u.file, false) && Advance(u, t).offset == |u.file|
  {
    var u := Setup([LF, LF] + Xs(n - 3), n, true);
    var t := Transfer(1, 0, 0, false, now, 1);
    assert u.file[0..] == u.file && u.file[1..] == [LF] + Xs(n - 3) && u.file[1..][1..] == Xs(n - 3);
    PlainBytes(n - 3, [], false, n);
    assert Xs(n - 3) + [] == Xs(n - 3);
    LastBlock(u, t);
    LostRaw(n);
  }

  lemma LostRaw(n: nat)
    requires n >= 3
    ensures Consume([LF, LF] + Xs(n - 3), false, n) == if n == 3 then Taken(1, true) else Taken(n - 2, false)
  {
    var s := [LF, LF] + Xs(n - 3);
    assert s[1..] == [LF] + Xs(n - 3) && s[1..][1..] == Xs(n - 3);
    if n > 3 {
      assert Xs(n - 3) == Xs(n - 4) + [X];
      PlainBytes(n - 4, [X], false, n - 4);
    }
  }

  // ---------- get_block as it works on the packet ----------

  class Sender {
    const u: Setup
    var block: nat
    var offset: nat
    var expansion: nat
    var carry: bool
    var timeout: nat
    var backoff: nat

    ghost function St(): Transfer
      reads this
    {
      Transfer(block, offset, expansion, carry, timeout, backoff)
    }

    constructor (setup: Setup, options: bool, now: nat)
      ensures u == setup && St() == Transfer(if options then 0 else 1, 0, 0, false, now + 2, 1)
    {
      u := setup;
      block, offset, expansion, carry, timeout, backoff := if options then 0 else 1, 0, 0, false, now + 2, 1;
    }

    // The length of the data, or the reason why there are none.
    method FetchBlock(data: array<Byte>, readOk: bool) returns (len: Option<nat>, done: bool)
      requires SetupOk(u) && data.Length >= u.blocksize
      modifies this`expansion, this`carry, data
      ensures match GetBlock(u, old(St()), readOk)
        case Fetched(t, Oack) => len == Some(0) && !done && St() == t && old(block) == 0
        case Fetched(t, Data(number, bytes)) =>
          old(block) > 0 && len == Some(|bytes|) && |bytes| <= data.Length && data[..|bytes|] == bytes && !done &&
              St() == t
        case Finished => len == None && done && St() == old(St())
        case ReadError => len == None && !done && St() == old(St())
    {
      hide Expand, Consume;
      ghost var t0 := St();
      if block == 0 {
        return Some(0), false;
      }
      if offset > |u.file| {
        return None, true;
      }
      var size := |u.file| - offset;
      if size > u.blocksize {
        size := u.blocksize;
      }
      if !readOk {
        return None, false;
      }
      for j := 0 to size
        invariant data[..j] == u.file[offset..offset + j] && St() == t0
      {
        data[j] := u.file[offset + j];
      }
      expansion := 0;
      assert data[..size] == Raw(u, old(St()));
      if u.netascii {
        ghost var raw := data[..size];
        ConsumeResumes(raw, carry, u.blocksize);
        ghost var before := carry;
        size, expansion, carry := ExpandInPlace(data, size, u.blocksize, carry);
        ExpandedIs(raw, before, u.blocksize, data[..size]);
        assert GetBlock(u, t0, true).p.data == data[..size];
      }
      assert GetBlock(u, t0, true).t == St();
      len, done := Some(size), false;
    }

    static lemma ExpandedIs(s: seq<Byte>, carry: bool, n: nat, d: seq<Byte>)
      requires var t := Consume(s, carry, n); Expand(s, carry) == d + Expand(s[t.raw..], t.carry)
      ensures d == Expand(s, carry)[..Min(n, |Expand(s, carry)|)]
    {
      ConsumeResumes(s, carry, n);
    }

    // A packet from the client: an acknowledgement counts only for the current block.
    method Receive(now: nat, i: Input)
      requires expansion <= u.blocksize
      modifies this
      ensures St() == Take(u, old(St()), now, i)
    {
      if i.AckOf? && i.number == block % 0x10000 {
        timeout := now;
        backoff := 0;
        if block != 0 {
          offset := offset + u.blocksize - expansion;
        }
        block := block + 1;
      } else if i.ErrorPacket? {
        timeout := now;
        backoff := 100;
      }
    }
  }
}
