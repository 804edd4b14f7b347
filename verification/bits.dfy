/**
 * Unsigned machine integers and the bitwise operators the pixel code uses.
 *
 * The C++ code works on `Uint8`, `Uint16` and `Uint32`. Here they are
 * subset types of `int`; wrap-around is written out with `Wrap32`. The
 * operators `|` and `&` are defined byte by byte, and inside a byte bit by
 * bit, so that every proof about packed colours stays linear arithmetic
 * with constant divisors.
 */
module Bits {

  type uint8 = x: int | 0 <= x < 0x100
  type uint16 = x: int | 0 <= x < 0x1_0000
  type uint32 = x: int | 0 <= x < 0x1_0000_0000
  type int16 = x: int | -0x8000 <= x < 0x8000
  type int32 = x: int | -0x8000_0000 <= x < 0x8000_0000

  /** Unsigned 32-bit wrap-around of an exact integer result. */
  function Wrap32(x: int): uint32 {
    x % 0x1_0000_0000
  }

  /** Unsigned 16-bit wrap-around of an exact integer result. */
  function Wrap16(x: int): uint16 {
    x % 0x1_0000
  }

  function Pow2(n: nat): (r: nat)
    ensures r >= 1
  {
    if n == 0 then 1 else 2 * Pow2(n - 1)
  }

  /** Bitwise OR of the low `n` bits of `a` and `b`. */
  function OrLow(a: nat, b: nat, n: nat): (r: nat)
    ensures r < Pow2(n)
  {
    if n == 0 then 0
    else 2 * OrLow(a / 2, b / 2, n - 1) + (if a % 2 == 1 || b % 2 == 1 then 1 else 0)
  }

  /** Bitwise AND of the low `n` bits of `a` and `b`. */
  function AndLow(a: nat, b: nat, n: nat): (r: nat)
    ensures r < Pow2(n)
  {
    if n == 0 then 0
    else 2 * AndLow(a / 2, b / 2, n - 1) + (if a % 2 == 1 && b % 2 == 1 then 1 else 0)
  }

  lemma {:induction false} OrLowZero(a: nat, n: nat)
    requires a < Pow2(n)
    ensures OrLow(a, 0, n) == a && OrLow(0, a, n) == a
  {
    if n > 0 {
      OrLowZero(a / 2, n - 1);
    }
  }

  lemma {:induction false} OrLowOnes(b: nat, n: nat)
    ensures OrLow(Pow2(n) - 1, b, n) == Pow2(n) - 1
  {
    if n > 0 {
      var h := Pow2(n - 1);
      assert Pow2(n) - 1 == 2 * (h - 1) + 1;
      assert (Pow2(n) - 1) / 2 == h - 1 && (Pow2(n) - 1) % 2 == 1;
      OrLowOnes(b / 2, n - 1);
      assert OrLow(Pow2(n) - 1, b, n) == 2 * OrLow(h - 1, b / 2, n - 1) + 1;
    }
  }

  lemma {:induction false} AndLowZero(a: nat, n: nat)
    ensures AndLow(a, 0, n) == 0
  {
    if n > 0 {
      AndLowZero(a / 2, n - 1);
    }
  }

  lemma {:induction false} AndLowOnes(a: nat, n: nat)
    requires a < Pow2(n)
    ensures AndLow(a, Pow2(n) - 1, n) == a
  {
    if n > 0 {
      AndLowOnes(a / 2, n - 1);
    }
  }

  function OrByte(a: uint8, b: uint8): uint8 {
    OrLow(a, b, 8)
  }

  function AndByte(a: uint8, b: uint8): uint8 {
    AndLow(a, b, 8)
  }

  /** OR with a zero byte and AND with an all-ones byte are the identity. */
  lemma ByteIdentities(a: uint8)
    ensures OrByte(a, 0) == a && OrByte(0, a) == a
    ensures OrByte(0xff, a) == 0xff
    ensures AndByte(a, 0xff) == a && AndByte(a, 0) == 0
  {
    assert Pow2(8) == 0x100;
    OrLowZero(a, 8);
    OrLowOnes(a, 8);
    AndLowOnes(a, 8);
    AndLowZero(a, 8);
  }

  /** The little-endian packing of four bytes into one word (byte 0 is bits 0-7). */
  function Pack(b0: uint8, b1: uint8, b2: uint8, b3: uint8): uint32 {
    b0 + 0x100 * b1 + 0x1_0000 * b2 + 0x100_0000 * b3
  }

  /** Byte `i` of a word: bits 8*i to 8*i+7. */
  function Byte(x: uint32, i: nat): uint8
    requires i < 4
  {
    if i == 0 then x % 0x100
    else if i == 1 then x / 0x100 % 0x100
    else if i == 2 then x / 0x100 / 0x100 % 0x100
    else x / 0x100 / 0x100 / 0x100
  }

  lemma ByteOfPack(b0: uint8, b1: uint8, b2: uint8, b3: uint8)
    ensures Byte(Pack(b0, b1, b2, b3), 0) == b0
    ensures Byte(Pack(b0, b1, b2, b3), 1) == b1
    ensures Byte(Pack(b0, b1, b2, b3), 2) == b2
    ensures Byte(Pack(b0, b1, b2, b3), 3) == b3
  {
  }

  lemma PackOfBytes(x: uint32)
    ensures Pack(Byte(x, 0), Byte(x, 1), Byte(x, 2), Byte(x, 3)) == x
  {
    var q1 := x / 0x100;
    var q2 := q1 / 0x100;
    assert x == x % 0x100 + 0x100 * q1;
    assert q1 == q1 % 0x100 + 0x100 * q2;
    assert q2 == q2 % 0x100 + 0x100 * (q2 / 0x100);
  }

  function Pow256(n: nat): (r: nat)
    ensures r >= 1
  {
    if n == 0 then 1 else 0x100 * Pow256(n - 1)
  }

  /** Bitwise OR of the low `n` bytes of `x` and `y`, one byte at a time. */
  function OrBytes(x: nat, y: nat, n: nat): (r: nat)
    ensures r < Pow256(n)
  {
    if n == 0 then 0
    else OrByte(x % 0x100, y % 0x100) + 0x100 * OrBytes(x / 0x100, y / 0x100, n - 1)
  }

  /** Bitwise AND of the low `n` bytes of `x` and `y`, one byte at a time. */
  function AndBytes(x: nat, y: nat, n: nat): (r: nat)
    ensures r < Pow256(n)
  {
    if n == 0 then 0
    else AndByte(x % 0x100, y % 0x100) + 0x100 * AndBytes(x / 0x100, y / 0x100, n - 1)
  }

  /** `x | y` on 32-bit words. */
  function Or32(x: uint32, y: uint32): uint32 {
    assert Pow256(4) == 0x1_0000_0000;
    OrBytes(x, y, 4)
  }

  /** `x & y` on 32-bit words. */
  function And32(x: uint32, y: uint32): uint32 {
    assert Pow256(4) == 0x1_0000_0000;
    AndBytes(x, y, 4)
  }

  /** `Or32` is `Pack` of the four bytewise ORs. */
  lemma Or32Unfold(x: uint32, y: uint32)
    ensures Or32(x, y) == Pack(OrByte(Byte(x, 0), Byte(y, 0)), OrByte(Byte(x, 1), Byte(y, 1)),
                              OrByte(Byte(x, 2), Byte(y, 2)), OrByte(Byte(x, 3), Byte(y, 3)))
  {
    var x1, y1 := x / 0x100, y / 0x100;
    var x2, y2 := x1 / 0x100, y1 / 0x100;
    var x3, y3 := x2 / 0x100, y2 / 0x100;
    assert x3 < 0x100 && y3 < 0x100;
    assert x3 % 0x100 == x3 && y3 % 0x100 == y3;
    var o0, o1 := OrByte(Byte(x, 0), Byte(y, 0)), OrByte(Byte(x, 1), Byte(y, 1));
    var o2, o3 := OrByte(Byte(x, 2), Byte(y, 2)), OrByte(Byte(x, 3), Byte(y, 3));
    assert OrBytes(x3, y3, 1) == o3 + 0x100 * OrBytes(x3 / 0x100, y3 / 0x100, 0);
    assert OrBytes(x2, y2, 2) == o2 + 0x100 * o3;
    assert OrBytes(x1, y1, 3) == o1 + 0x100 * (o2 + 0x100 * o3);
    assert OrBytes(x, y, 4) == o0 + 0x100 * (o1 + 0x100 * (o2 + 0x100 * o3));
  }

  /** `And32` is `Pack` of the four bytewise ANDs. */
  lemma And32Unfold(x: uint32, y: uint32)
    ensures And32(x, y) == Pack(AndByte(Byte(x, 0), Byte(y, 0)), AndByte(Byte(x, 1), Byte(y, 1)),
                               AndByte(Byte(x, 2), Byte(y, 2)), AndByte(Byte(x, 3), Byte(y, 3)))
  {
    var x1, y1 := x / 0x100, y / 0x100;
    var x2, y2 := x1 / 0x100, y1 / 0x100;
    var x3, y3 := x2 / 0x100, y2 / 0x100;
    assert x3 < 0x100 && y3 < 0x100;
    assert x3 % 0x100 == x3 && y3 % 0x100 == y3;
    var o0, o1 := AndByte(Byte(x, 0), Byte(y, 0)), AndByte(Byte(x, 1), Byte(y, 1));
    var o2, o3 := AndByte(Byte(x, 2), Byte(y, 2)), AndByte(Byte(x, 3), Byte(y, 3));
    assert AndBytes(x3, y3, 1) == o3 + 0x100 * AndBytes(x3 / 0x100, y3 / 0x100, 0);
    assert AndBytes(x2, y2, 2) == o2 + 0x100 * o3;
    assert AndBytes(x1, y1, 3) == o1 + 0x100 * (o2 + 0x100 * o3);
    assert AndBytes(x, y, 4) == o0 + 0x100 * (o1 + 0x100 * (o2 + 0x100 * o3));
  }

  /** `x << k` on a 32-bit word: bits shifted past bit 31 are lost. */
  function Shl32(x: uint32, k: nat): uint32 {
    Wrap32(x * Pow2(k))
  }

  /** `x >> k` on a 32-bit word (logical shift). */
  function Shr32(x: uint32, k: nat): uint32 {
    DivShrinks(x, Pow2(k));
    x / Pow2(k)
  }

  /** Dividing by a positive number never increases a natural number. */
  lemma DivShrinks(x: nat, d: nat)
    requires d >= 1
    ensures 0 <= x / d <= x
  {
    var q := x / d;
    var r := x % d;
    assert x == d * q + r && 0 <= r;
    MulLe(q, d);
  }

  lemma MulLe(q: nat, d: nat)
    requires d >= 1
    ensures q <= d * q
  {
    assert d * q == q + (d - 1) * q;
  }

  /** Each byte of `x | y` is the OR of the operands' bytes. */
  lemma Or32Bytes(x: uint32, y: uint32, i: nat)
    requires i < 4
    ensures Byte(Or32(x, y), i) == OrByte(Byte(x, i), Byte(y, i))
  {
    Or32Unfold(x, y);
    ByteOfPack(OrByte(Byte(x, 0), Byte(y, 0)), OrByte(Byte(x, 1), Byte(y, 1)),
               OrByte(Byte(x, 2), Byte(y, 2)), OrByte(Byte(x, 3), Byte(y, 3)));
  }

  /**
   * OR of two words whose set bytes do not overlap is their sum: no
   * carry can arise, so packed channels may be assembled with `|`.
   */
  lemma {:induction false} Or32Disjoint(x: uint32, y: uint32)
    requires forall i :: 0 <= i < 4 ==> Byte(x, i) == 0 || Byte(y, i) == 0
    ensures Or32(x, y) == x + y
  {
    Or32Unfold(x, y);
    forall i | 0 <= i < 4
      ensures OrByte(Byte(x, i), Byte(y, i)) == Byte(x, i) + Byte(y, i)
    {
      ByteIdentities(Byte(x, i));
      ByteIdentities(Byte(y, i));
    }
    PackOfBytes(x);
    PackOfBytes(y);
  }

  /** `x & 0xff` keeps byte 0. */
  lemma MaskLow(x: uint32)
    ensures And32(x, 0xff) == Byte(x, 0)
  {
    And32Unfold(x, 0xff);
    ByteOfPack(0xff, 0, 0, 0);
    ByteIdentities(Byte(x, 0));
    ByteIdentities(Byte(x, 1));
    ByteIdentities(Byte(x, 2));
    ByteIdentities(Byte(x, 3));
  }

  /** `x & 0xff00` keeps byte 1 in place. */
  lemma MaskSecond(x: uint32)
    ensures And32(x, 0xff00) == 0x100 * Byte(x, 1)
  {
    And32Unfold(x, 0xff00);
    ByteOfPack(0, 0xff, 0, 0);
    ByteIdentities(Byte(x, 0));
    ByteIdentities(Byte(x, 1));
    ByteIdentities(Byte(x, 2));
    ByteIdentities(Byte(x, 3));
  }
}
