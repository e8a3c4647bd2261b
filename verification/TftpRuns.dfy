// The turns of a transfer in time: how it starts, what an acknowledgement brings, and how
// long it waits for a client that does not answer.
module TftpRuns {
  import opened TftpBlocks
  import opened TftpTransfer

  // The state in which the packet for t leaves the server: the packet has gone, and if
  // nothing comes back it goes again after two seconds.
  predicate JustSent(u: Setup, t: Transfer, sent: Transfer, now: nat) {
    && sent.timeout == now + 2 && sent.backoff == 1
    && GetBlock(u, t, true).Fetched?
    && sent == GetBlock(u, t, true).t.(timeout := sent.timeout, backoff := sent.backoff)
  }

  // A transfer starts with the first block of the file, or with the option acknowledgement
  // before it.
  lemma StartSends(u: Setup, options: bool, now: nat)
    requires SetupOk(u)
    ensures var first := Transfer(if options then 0 else 1, 0, 0, false, now, 0);
      && JustSent(u, first, Start(u, options, now), now)
      && (GetBlock(u, first, true).p.Oack? <==> options)
      && (!options ==> GetBlock(u, first, true).p.number == 1)
  {
    hide Expand, Consume;
  }

  // An acknowledgement of the packet that went last is answered at once: with the next
  // block, or by ending the transfer if the file has no more. Then the client has two
  // seconds again.
  lemma AckedTurn(u: Setup, t: Transfer, sent: Transfer, before: nat, now: nat)
    requires SetupOk(u) && t.block >= 1 && t.offset <= |u.file| && sent.expansion <= u.blocksize
    requires sent == GetBlock(u, t, true).t.(timeout := sent.timeout, backoff := sent.backoff)
    ensures var (after, o) := Turn(u, sent, now, AckOf(t.block % 0x10000), true);
      var next := Advance(u, t);
      && next.block == t.block + 1
      && if next.offset > |u.file| then o == Completed
         else o == Sent(Data((t.block + 1) % 0x10000, BlockData(u, next))) && JustSent(u, next, after, now)
  {
    hide Expand, Consume;
    assert Pow2(0) == 1;
    var next := Advance(u, t);
    assert Take(u, sent, now, AckOf(t.block % 0x10000)) == next.(timeout := now, backoff := 0);
    SameFetch(u, next, next.(timeout := now, backoff := 0));
  }

  // When a packet goes does not matter to what is in it.
  lemma SameFetch(u: Setup, t: Transfer, t': Transfer)
    requires t' == t.(timeout := t'.timeout, backoff := t'.backoff)
    ensures var f, g := GetBlock(u, t, true), GetBlock(u, t', true);
      if f.Fetched? then g == Fetched(f.t.(timeout := t'.timeout, backoff := t'.backoff), f.p) else g == f
  {
    hide Expand, Consume;
  }

  // The option acknowledgement is acknowledged as block 0, and block 1 follows.
  lemma OptionsAcked(u: Setup, sent: Transfer, now: nat)
    requires SetupOk(u) && sent.block == 0 && sent.offset == 0 && sent.expansion == 0 && !sent.carry
    ensures var (after, o) := Turn(u, sent, now, AckOf(0), true);
      var first := Transfer(1, 0, 0, false, now, 0);
      o == Sent(Data(1, BlockData(u, first))) && JustSent(u, first, after, now)
  {
    hide Expand, Consume;
    assert Pow2(0) == 1;
  }

  // ---------- waiting ----------

  lemma PowersOfTwo()
    ensures [Pow2(0), Pow2(1), Pow2(2), Pow2(3), Pow2(4)] == [1, 2, 4, 8, 16]
  {
    assert Pow2(2) == 2 * Pow2(1) && Pow2(3) == 2 * Pow2(2) && Pow2(4) == 2 * Pow2(3);
  }

  // Nothing is sent before its time, unless something comes from the client.
  lemma NotBefore(u: Setup, t: Transfer, now: nat, n: nat, readOk: bool)
    requires t.expansion <= u.blocksize && now < t.timeout && n != t.block % 0x10000
    ensures Turn(u, t, now, Nothing, readOk) == (t, Idle) && Turn(u, t, now, AckOf(n), readOk) == (t, Idle)
  {
  }

  // The seconds after which the packet goes for the k-th time again, and after the last of
  // which it is given up.
  const WAITS: seq<nat> := [2, 5, 10, 19, 36]

  predicate Waiting(u: Setup, t: Transfer, now: nat, k: nat) {
    && k < 5 && t.timeout == now + WAITS[k] && t.backoff == k + 1
    && t.expansion <= u.blocksize && (t.block == 0 || t.offset <= |u.file|)
  }

  // A client that stays silent gets every packet five times: two, five, ten and nineteen
  // seconds after the first. After 36 seconds the server gives up.
  lemma SilentClient(u: Setup, t: Transfer, now: nat, k: nat)
    requires SetupOk(u) && Waiting(u, t, now, k)
    ensures var (t', o) := Turn(u, t, now + WAITS[k], Nothing, true);
      if k < 4 then
        && o == Sent(GetBlock(u, t, true).p) && Waiting(u, t', now, k + 1)
        && t'.block == t.block && t'.offset == t.offset
      else o == GaveUp
  {
    hide Expand;
    PowersOfTwo();
    hide Pow2;
    ConsumedWithin(u, t);
  }

  lemma ConsumedWithin(u: Setup, t: Transfer)
    requires SetupOk(u) && (t.block == 0 || t.offset <= |u.file|) && t.expansion <= u.blocksize
    ensures GetBlock(u, t, true).Fetched? && GetBlock(u, t, true).t.expansion <= u.blocksize
  {
    hide Expand;
  }

  lemma SentIsWaiting(u: Setup, t: Transfer, sent: Transfer, now: nat)
    requires SetupOk(u) && JustSent(u, t, sent, now) && t.expansion <= u.blocksize
    ensures Waiting(u, sent, now, 0)
  {
    hide Expand;
  }

  // An error from the client ends the transfer, and nothing more is sent to it.
  lemma ErrorEnds(u: Setup, t: Transfer, now: nat, readOk: bool)
    requires t.expansion <= u.blocksize
    ensures var o := Turn(u, t, now, ErrorPacket, readOk).1; o == GaveUp || o == Completed || o == Broken
  {
    hide Expand, Consume, Pow2;
  }
}
