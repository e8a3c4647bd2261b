// The bits of the checksum of questions: eight steps of a polynomial division for each byte.
module CrcBits {
  function CrcShift(crc: bv32, bits: nat): bv32
    decreases bits
  {
    if bits == 0 then crc
    else CrcShift(if crc & 0x80000000 != 0 then (crc << 1) ^ 0x04c11db7 else crc << 1, bits - 1)
  }

  function Shift1(crc: bv32): bv32 {
    if crc & 0x80000000 != 0 then (crc << 1) ^ 0x04c11db7 else crc << 1
  }

  lemma LowBit(x: bv32)
    ensures (x << 1) & 1 == 0 && ((x << 1) ^ 0x04c11db7) & 1 == 1
  {
  }

  lemma OtherBits(x: bv32)
    ensures ((x << 1) >> 1) | (x & 0x80000000) == x
    ensures x & 0x80000000 == 0 || x & 0x80000000 == 0x80000000
  {
  }

  lemma XorBack(x: bv32, y: bv32)
    ensures (x ^ y) ^ y == x && (y ^ x) ^ y == x
  {
  }

  // The polynomial is odd, so the lowest bit says whether the highest one was set.
  lemma Shift1Injective(a: bv32, b: bv32)
    requires Shift1(a) == Shift1(b)
    ensures a == b
  {
    LowBit(a);
    LowBit(b);
    OtherBits(a);
    OtherBits(b);
    XorBack(a << 1, 0x04c11db7);
    XorBack(b << 1, 0x04c11db7);
  }

  lemma {:induction false} ShiftInjective(a: bv32, b: bv32, bits: nat)
    requires CrcShift(a, bits) == CrcShift(b, bits)
    ensures a == b
    decreases bits
  {
    if bits > 0 {
      ShiftInjective(Shift1(a), Shift1(b), bits - 1);
      Shift1Injective(a, b);
    }
  }

  lemma XorSame(a: bv32, b: bv32, x: bv32)
    requires a ^ x == b ^ x
    ensures a == b
  {
    XorBack(a, x);
    XorBack(b, x);
  }

  lemma XorOther(a: bv32, x: bv32, y: bv32)
    requires a ^ x == a ^ y
    ensures x == y
  {
    XorBack(x, a);
    XorBack(y, a);
  }

  // One byte, at the top of the word.
  function CrcMix(crc: bv32, top: bv32): bv32 {
    CrcShift(crc ^ top, 8)
  }

  // Eight steps keep different checksums apart.
  lemma MixSame(crc: bv32, crc': bv32, x: bv32)
    requires CrcMix(crc, x) == CrcMix(crc', x)
    ensures crc == crc'
  {
    hide CrcShift;
    ShiftInjective(crc ^ x, crc' ^ x, 8);
    XorSame(crc, crc', x);
  }

  // And for one checksum they keep different additions apart.
  lemma MixOther(crc: bv32, x: bv32, y: bv32)
    requires CrcMix(crc, x) == CrcMix(crc, y)
    ensures x == y
  {
    hide CrcShift;
    ShiftInjective(crc ^ x, crc ^ y, 8);
    XorOther(crc, x, y);
  }

  // ---------- the bits of a byte ----------

  function LowestBit(n: nat): bv32 {
    if n % 2 == 1 then 1 else 0
  }

  function BitsOf(n: nat): bv32
    requires n < 256
  {
    if n == 0 then 0 else (BitsOf(n / 2) << 1) | LowestBit(n)
  }

  // Small numbers leave the high bits alone.
  lemma {:induction false} HighBits(n: nat)
    requires n < 256
    ensures BitsOf(n) & 0xffffff00 == 0
    ensures n < 128 ==> BitsOf(n) & 0xffffff80 == 0
    ensures n < 64 ==> BitsOf(n) & 0xffffffc0 == 0
    ensures n < 32 ==> BitsOf(n) & 0xffffffe0 == 0
    ensures n < 16 ==> BitsOf(n) & 0xfffffff0 == 0
    ensures n < 8 ==> BitsOf(n) & 0xfffffff8 == 0
    ensures n < 4 ==> BitsOf(n) & 0xfffffffc == 0
    ensures n < 2 ==> BitsOf(n) & 0xfffffffe == 0
    ensures n < 1 ==> BitsOf(n) == 0
    decreases n
  {
    if n > 0 {
      HighBits(n / 2);
      MoreBits(BitsOf(n / 2), LowestBit(n));
    }
  }

  lemma MoreBits(x: bv32, p: bv32)
    requires p == 0 || p == 1
    ensures var y := (x << 1) | p;
      && (x & 0xffffff80 == 0 ==> y & 0xffffff00 == 0) && (x & 0xffffffc0 == 0 ==> y & 0xffffff80 == 0)
      && (x & 0xffffffe0 == 0 ==> y & 0xffffffc0 == 0) && (x & 0xfffffff0 == 0 ==> y & 0xffffffe0 == 0)
      && (x & 0xfffffff8 == 0 ==> y & 0xfffffff0 == 0) && (x & 0xfffffffc == 0 ==> y & 0xfffffff8 == 0)
      && (x & 0xfffffffe == 0 ==> y & 0xfffffffc == 0) && (x == 0 ==> y & 0xfffffffe == 0)
  {
  }

  lemma BitBack(x: bv32, p: bv32)
    requires (p == 0 || p == 1) && x & 0xffffff00 == 0
    ensures var y := (x << 1) | p; y & 1 == p && y >> 1 == x
  {
  }

  // Different bytes have different bits.
  lemma {:induction false} BitsDiffer(a: nat, b: nat)
    requires a < 256 && b < 256 && BitsOf(a) == BitsOf(b)
    ensures a == b
    decreases a
  {
    HighBits(a / 2);
    HighBits(b / 2);
    BitBack(BitsOf(a / 2), LowestBit(a));
    BitBack(BitsOf(b / 2), LowestBit(b));
    BitBack(0, 0);
    if a > 0 || b > 0 {
      if a > 0 && b > 0 {
        BitsDiffer(a / 2, b / 2);
      } else {
        ZeroBits(a);
        ZeroBits(b);
      }
    }
  }

  lemma {:induction false} ZeroBits(n: nat)
    requires n < 256
    ensures BitsOf(n) == 0 ==> n == 0
    decreases n
  {
    if n > 0 {
      HighBits(n / 2);
      BitBack(BitsOf(n / 2), LowestBit(n));
      ZeroBits(n / 2);
    }
  }

  function TopBits(n: nat): bv32
    requires n < 256
  {
    BitsOf(n) << 24
  }

  lemma ShiftedApart(x: bv32, y: bv32)
    requires x & 0xffffff00 == 0 && y & 0xffffff00 == 0 && x << 24 == y << 24
    ensures x == y
  {
  }

  // They stay different at the top of the word.
  lemma TopBitsDiffer(a: nat, b: nat)
    requires a < 256 && b < 256 && TopBits(a) == TopBits(b)
    ensures a == b
  {
    HighBits(a);
    HighBits(b);
    ShiftedApart(BitsOf(a), BitsOf(b));
    BitsDiffer(a, b);
  }
}
