// The text of the lease file: how lease_update_file writes a lease, and how lease_init
// and parse_hex read it back.
module LeaseText {
  import opened DnsName
  import opened DnsEncode

  const ETHER: int := 1

  const CHADDR_MAX: nat := 16

  const CLID_MAX: nat := 255

  const NAME_MAX: nat := 255

  // ---------- numbers ----------

  function Digit(n: nat): char
    requires n < 16
  {
    "0123456789abcdef"[n]
  }

  predicate IsHex(c: char) {
    '0' <= c <= '9' || 'a' <= c <= 'f' || 'A' <= c <= 'F'
  }

  function DigitValue(c: char): nat {
    if '0' <= c <= '9' then (c - '0') as nat
    else if 'a' <= c <= 'f' then (c - 'a') as nat + 10
    else if 'A' <= c <= 'F' then (c - 'A') as nat + 10
    else 0
  }

  // The sixteen digits, in small and in capital letters, have the values 0 to 15.
  lemma HexDigits(d: nat)
    requires d < 16
    ensures var c := "0123456789abcdef"[d]; IsHex(c) && DigitValue(c) == d
    ensures var c := "0123456789ABCDEF"[d]; IsHex(c) && DigitValue(c) == d
  {
  }

  function Dec(n: nat): (s: string)
    ensures s != "" && forall i :: 0 <= i < |s| ==> '0' <= s[i] <= '9'
  {
    if n < 10 then [Digit(n)] else Dec(n / 10) + [Digit(n % 10)]
  }

  function FromDec(s: string): nat {
    if s == "" then 0 else FromDec(s[..|s| - 1]) * 10 + DigitValue(s[|s| - 1])
  }

  lemma {:induction false} DecRoundTrip(n: nat)
    ensures FromDec(Dec(n)) == n
  {
    if n >= 10 {
      DecRoundTrip(n / 10);
      assert Dec(n)[..|Dec(n)| - 1] == Dec(n / 10);
      DigitRoundTrip(n % 10);
    } else {
      DigitRoundTrip(n);
      assert Dec(n)[..0] == "";
    }
  }

  lemma DigitRoundTrip(n: nat)
    requires n < 16
    ensures DigitValue(Digit(n)) == n && IsHex(Digit(n))
  {
  }

  function Hex2(n: nat): (s: string)
    requires n < 256
    ensures |s| == 2
  {
    [Digit(n / 16), Digit(n % 16)]
  }

  function FromHex(s: string): nat {
    if s == "" then 0 else FromHex(s[..|s| - 1]) * 16 + DigitValue(s[|s| - 1])
  }

  lemma HexRoundTrip(n: nat)
    requires n < 256
    ensures FromHex(Hex2(n)) == n && IsHex(Hex2(n)[0]) && IsHex(Hex2(n)[1])
  {
    DigitRoundTrip(n / 16);
    DigitRoundTrip(n % 16);
    assert Hex2(n)[..1] == [Digit(n / 16)] && [Digit(n / 16)][..0] == "";
    assert FromHex([Digit(n / 16)]) == n / 16;
  }

  // ---------- addresses ----------

  function Quad(a: nat): string {
    Dec(a / 0x1000000 % 256) + "." + (Dec(a / 0x10000 % 256) + "." + (Dec(a / 256 % 256) + "." + Dec(a % 256)))
  }

  function InetAddr(s: string): nat {
    var ls := SplitDots(s);
    if |ls| != 4 then 0
    else ((FromDec(ls[0]) * 256 + FromDec(ls[1])) * 256 + FromDec(ls[2])) * 256 + FromDec(ls[3])
  }

  lemma SplitFirst(w: string, rest: string)
    requires (forall i :: 0 <= i < |w| ==> w[i] != '.') && rest != ""
    ensures SplitDots(w + "." + rest) == [w] + SplitDots(rest)
  {
    var s := w + "." + rest;
    FirstDotIs(s, |w|);
    assert s[..|w|] == w && s[|w| + 1..] == rest;
  }

  lemma FirstDotIs(s: string, k: nat)
    requires k <= |s| && (forall i :: 0 <= i < k ==> s[i] != '.') && (k < |s| ==> s[k] == '.')
    ensures FirstDot(s) == k
  {
  }

  lemma SplitLast(w: string)
    requires w != "" && forall i :: 0 <= i < |w| ==> w[i] != '.'
    ensures SplitDots(w) == [w]
  {
    FirstDotIs(w, |w|);
    assert w[..|w|] == w;
  }

  lemma QuadRoundTrip(a: nat)
    requires a < 0x1_0000_0000
    ensures InetAddr(Quad(a)) == a
  {
    hide Dec, FromDec, SplitDots;
    var n0, n1, n2, n3 := a / 0x1000000 % 256, a / 0x10000 % 256, a / 256 % 256, a % 256;
    FourParts(n0, n1, n2, n3);
    DecRoundTrip(n0);
    DecRoundTrip(n1);
    DecRoundTrip(n2);
    DecRoundTrip(n3);
  }

  lemma FourParts(n0: nat, n1: nat, n2: nat, n3: nat)
    ensures SplitDots(Dec(n0) + "." + (Dec(n1) + "." + (Dec(n2) + "." + Dec(n3))))
         == [Dec(n0), Dec(n1), Dec(n2), Dec(n3)]
  {
    var w0, w1, w2, w3 := Dec(n0), Dec(n1), Dec(n2), Dec(n3);
    hide Dec, SplitDots;
    SplitFirst(w0, w1 + "." + (w2 + "." + w3));
    SplitFirst(w1, w2 + "." + w3);
    SplitFirst(w2, w3);
    SplitLast(w3);
    assert [w0] + ([w1] + ([w2] + [w3])) == [w0, w1, w2, w3];
  }

  // ---------- bytes in hex ----------

  predicate IsBytes(b: seq<nat>) {
    forall i :: 0 <= i < |b| ==> b[i] < 256
  }

  function HexBytes(b: seq<nat>): string
    requires IsBytes(b)
  {
    if b == [] then "" else if |b| == 1 then Hex2(b[0]) else Hex2(b[0]) + ":" + HexBytes(b[1..])
  }

  function HwText(kind: nat, bytes: seq<nat>): string
    requires kind < 256 && IsBytes(bytes)
  {
    (if kind != ETHER || bytes == [] then Hex2(kind) + "-" else "") + HexBytes(bytes)
  }

  predicate IsSep(c: char) {
    c == ':' || c == '-'
  }

  // The end of the piece at p.
  function PieceEnd(s: string, p: nat): (r: nat)
    requires p <= |s|
    ensures p <= r <= |s|
    ensures r < |s| ==> IsSep(s[r])
    ensures forall i :: p <= i < r ==> !IsSep(s[i])
    decreases |s| - p
  {
    if p == |s| || IsSep(s[p]) then p else PieceEnd(s, p + 1)
  }

  datatype Hex = Hex(kind: nat, bytes: seq<Byte>)

  // parse_hex on pieces of hex digits: h is what has been read, typed that a hardware
  // type may still come.
  function ParseFrom(s: string, p: nat, h: Hex, typed: bool, max: nat): Hex
    requires p <= |s|
    decreases |s| - p
  {
    if |h.bytes| >= max then h
    else
      var r := PieceEnd(s, p);
      var here := s[p..r];
      if r < |s| && s[r] == '-' && r != p && h.bytes == [] && typed then ParseFrom(s, r + 1, h.(kind := FromHex(here)),
          false, max)
      else
        var h' := if r == p then h else h.(bytes := h.bytes + [FromHex(here) % 256]);
        if r == |s| then h' else ParseFrom(s, r + 1, h', typed, max)
  }

  function ParseHex(s: string, typed: bool, max: nat): Hex {
    ParseFrom(s, 0, Hex(0, []), typed, max)
  }

  lemma HexPiece(s: string, p: nat, n: nat)
    requires n < 256 && p + 2 <= |s| && s[p..p + 2] == Hex2(n) && (p + 2 < |s| ==> IsSep(s[p + 2]))
    ensures PieceEnd(s, p) == p + 2 && FromHex(s[p..PieceEnd(s, p)]) == n
  {
    HexRoundTrip(n);
    assert s[p] == s[p..p + 2][0] && s[p + 1] == s[p..p + 2][1];
    assert !IsSep(s[p]) && !IsSep(s[p + 1]);
    assert PieceEnd(s, p + 2) == p + 2;
    assert PieceEnd(s, p + 1) == p + 2;
  }

  function ToBytes(b: seq<nat>): (r: seq<Byte>)
    requires IsBytes(b)
    ensures |r| == |b| && forall i :: 0 <= i < |b| ==> r[i] == b[i]
  {
    seq(|b|, i requires 0 <= i < |b| => b[i])
  }

  // One piece.
  lemma ParseStep(s: string, p: nat, h: Hex, typed: bool, max: nat, r: nat)
    requires p <= r <= |s| && |h.bytes| < max && r == PieceEnd(s, r) && PieceEnd(s, p) == PieceEnd(s, r)
    ensures var here := s[p..r];
      if r < |s| && s[r] == '-' && r != p && h.bytes == [] && typed
      then ParseFrom(s, p, h, typed, max) == ParseFrom(s, r + 1, h.(kind := FromHex(here)), false, max)
      else
        var h' := if r == p then h else h.(bytes := h.bytes + [FromHex(here) % 256]);
        ParseFrom(s, p, h, typed, max) == if r == |s| then h' else ParseFrom(s, r + 1, h', typed, max)
  {
    hide FromHex;
  }

  lemma ParseEnd(s: string, h: Hex, typed: bool, max: nat)
    ensures ParseFrom(s, |s|, h, typed, max) == h
  {
  }

  // One byte in the text.
  lemma ParseByte(s: string, p: nat, n: nat, h: Hex, typed: bool, max: nat)
    requires n < 256 && p + 2 <= |s| && s[p..p + 2] == Hex2(n) && (p + 2 < |s| ==> s[p + 2] == ':') && |h.bytes| < max
    ensures var h' := h.(bytes := h.bytes + [n]);
      ParseFrom(s, p, h, typed, max) == if p + 2 == |s| then h' else ParseFrom(s, p + 3, h', typed, max)
  {
    HexPiece(s, p, n);
    hide ParseFrom, FromHex, Hex2;
    ParseStep(s, p, h, typed, max, p + 2);
  }

  // The bytes written at p are read from p.
  lemma {:induction false} HexBytesParse(s: string, p: nat, b: seq<nat>, h: Hex, typed: bool, max: nat)
    requires IsBytes(b) && p <= |s| && s[p..] == HexBytes(b) && |h.bytes| + |b| <= max
    ensures ParseFrom(s, p, h, typed, max) == h.(bytes := h.bytes + ToBytes(b))
    decreases |b|
  {
    hide ParseFrom, Hex2;
    if b == [] {
      ParseEnd(s, h, typed, max);
      assert h.bytes + ToBytes(b) == h.bytes;
    } else {
      assert s[p..p + 2] == s[p..][..2] == Hex2(b[0]);
      if |b| == 1 {
        assert |s| == p + 2;
        ParseByte(s, p, b[0], h, typed, max);
        assert h.bytes + ToBytes(b) == h.bytes + [b[0]];
      } else {
        assert s[p + 2] == s[p..][2] == ':';
        ParseByte(s, p, b[0], h, typed, max);
        assert s[p + 3..] == s[p..][3..];
        HexBytesParse(s, p + 3, b[1..], h.(bytes := h.bytes + [b[0]]), typed, max);
        assert (h.bytes + [b[0]]) + ToBytes(b[1..]) == h.bytes + ToBytes(b);
      }
    }
  }

  lemma ParseType(s: string, n: nat, max: nat)
    requires n < 256 && |s| >= 3 && s[0..2] == Hex2(n) && s[2] == '-' && max > 0
    ensures ParseHex(s, true, max) == ParseFrom(s, 3, Hex(n, []), false, max)
  {
    HexPiece(s, 0, n);
    hide ParseFrom, FromHex, Hex2;
    ParseStep(s, 0, Hex(0, []), true, max, 2);
  }

  // A hardware address and its type come back, except that type 0 of an address is taken
  // for ethernet by the caller.
  lemma HwParses(kind: nat, b: seq<nat>)
    requires kind < 256 && IsBytes(b) && |b| <= CHADDR_MAX
    ensures ParseHex(HwText(kind, b), true, CHADDR_MAX).bytes == ToBytes(b)
    ensures ParseHex(HwText(kind, b), true, CHADDR_MAX).kind == if kind != ETHER || b == [] then kind else 0
  {
    hide ParseFrom, HexBytes, Hex2;
    var s := HwText(kind, b);
    if kind != ETHER || b == [] {
      assert s[0..2] == Hex2(kind) && s[2] == '-' && s[3..] == HexBytes(b);
      ParseType(s, kind, CHADDR_MAX);
      HexBytesParse(s, 3, b, Hex(kind, []), false, CHADDR_MAX);
      assert [] + ToBytes(b) == ToBytes(b);
    } else {
      assert s == HexBytes(b) && s[0..] == s;
      HexBytesParse(s, 0, b, Hex(0, []), true, CHADDR_MAX);
      assert [] + ToBytes(b) == ToBytes(b);
    }
  }

  // ---------- parse_hex in the buffer it reads from ----------

  function Chars(buf: seq<Byte>, n: nat): (s: string)
    requires n <= |buf|
    ensures |s| == n && forall i :: 0 <= i < n ==> s[i] == buf[i] as char
  {
    seq(n, i requires 0 <= i < n => buf[i] as char)
  }

  function StrToL(buf: seq<Byte>, p: nat, r: nat): nat
    requires p <= r <= |buf|
  {
    FromHex(Chars(buf[p..r], r - p))
  }

  // The bytes replace the text, which is always ahead of them.
  method ParseHexInPlace(buf: array<Byte>, n: nat, typed: bool, max: nat) returns (count: nat, kind: nat)
    requires n < buf.Length && buf[n] == 0 && forall i :: 0 <= i < n ==> buf[i] != 0
    modifies buf
    ensures var h := ParseHex(Chars(old(buf[..]), n), typed, max);
      count == |h.bytes| <= n && kind == h.kind && buf[..count] == h.bytes
  {
    hide ParseFrom, FromHex;
    ghost var s := Chars(buf[..], n);
    ghost var h := Hex(0, []);
    count, kind := 0, 0;
    var mayType, limit := typed, max;
    var p := 0;
    while count < limit
      invariant 0 <= p <= n + 1 && count <= n && count <= p
      invariant |h.bytes| == count && h.kind == kind && buf[..count] == h.bytes
      invariant forall i :: p <= i <= n ==> buf[i] == old(buf[i])
      invariant p <= n ==> limit == max && ParseHex(s, typed, max) == ParseFrom(s, p, h, mayType, max)
      invariant p == n + 1 ==> limit <= count && ParseHex(s, typed, max) == h
      decreases n + 1 - p
    {
      var r := p;
      while buf[r] != 0 && buf[r] != 58 && buf[r] != 45
        invariant p <= r <= n && forall i :: p <= i < r ==> !IsSep(s[i])
        invariant PieceEnd(s, p) == PieceEnd(s, r)
        decreases n - r
      {
        r := r + 1;
      }
      ParseStep(s, p, h, mayType, max, r);
      if r == n {
        limit := count;
      }
      if r != p {
        ghost var text := buf[..];
        PieceText(old(buf[..]), text, n, p, r);
        var value := StrToL(buf[..], p, r);
        if r < n && buf[r] == 45 && count == 0 && mayType {
          buf[r] := 0;
          kind := value;
          mayType := false;
          h := h.(kind := value);
        } else {
          buf[r] := 0;
          buf[count] := value % 256;
          h := h.(bytes := h.bytes + [value % 256]);
          assert buf[..count + 1] == buf[..count] + [buf[count]];
          count := count + 1;
        }
      }
      p := r + 1;
    }
    if p <= n {
      ParseFull(s, p, h, mayType, max);
    }
  }

  lemma ParseFull(s: string, p: nat, h: Hex, typed: bool, max: nat)
    requires p <= |s| && |h.bytes| >= max
    ensures ParseFrom(s, p, h, typed, max) == h
  {
  }

  lemma PieceText(before: seq<Byte>, now: seq<Byte>, n: nat, p: nat, r: nat)
    requires p <= r <= n < |before| == |now| && forall i :: p <= i <= n ==> now[i] == before[i]
    ensures StrToL(now, p, r) == FromHex(Chars(before, n)[p..r])
  {
    assert Chars(now[p..r], r - p) == Chars(before, n)[p..r];
  }
}
