/**
 * Packed 32-bit ARGB pixels: `RGBA`, `RGB`, `blend` and `blendWrong`.
 *
 * Drawing.h, DrawingSurface.h and DrawingFloat.h carry identical copies of
 * `RGBA` and `RGB`; Drawing.h and DrawingSurface.h carry identical copies of
 * `blend` and `blendWrong`. They are defined once here.
 */
module Pixels {
  import opened Bits

  /** The constant `0xff << 24`: an int shift that the word conversion turns into the alpha byte. */
  const OPAQUE: uint32 := 0xFF00_0000

  function Blue(p: uint32): uint8 { Byte(p, 0) }
  function Green(p: uint32): uint8 { Byte(p, 1) }
  function Red(p: uint32): uint8 { Byte(p, 2) }
  function Alpha(p: uint32): uint8 { Byte(p, 3) }

  /** The pixel with the colour channels of `p` and a fully opaque alpha byte. */
  function Opaque(p: uint32): uint32 {
    Pack(Blue(p), Green(p), Red(p), 0xff)
  }

  function Dist(a: int, b: int): nat {
    if a < b then b - a else a - b
  }

  /** The clamp each of `RGBA`'s arguments goes through. */
  function Clamp255(v: int): (c: uint8)
    ensures forall d :: 0 <= d <= 0xff ==> Dist(c, v) <= Dist(d, v)
    ensures 0 <= v <= 0xff ==> c == v
  {
    if v < 0 then 0 else if v > 0xff then 0xff else v
  }

  function Between(c: int, lo: int, hi: int): bool {
    (lo <= c <= hi) || (hi <= c <= lo)
  }

  /** `(Uint8)a << 24 | (Uint8)r << 16 | (Uint8)g << 8 | (Uint8)b` after clamping. */
  function RGBA(r: int, g: int, b: int, a: int): (p: uint32)
    ensures p == Pack(Clamp255(b), Clamp255(g), Clamp255(r), Clamp255(a))
    ensures Red(p) == Clamp255(r) && Green(p) == Clamp255(g)
    ensures Blue(p) == Clamp255(b) && Alpha(p) == Clamp255(a)
  {
    var r', g', b', a' := Clamp255(r), Clamp255(g), Clamp255(b), Clamp255(a);
    PackedChannels(r', g', b', a');
    ByteOfPack(b', g', r', a');
    Or32(Or32(Or32(Shl32(a', 24), Shl32(r', 16)), Shl32(g', 8)), b')
  }

  /** Assembling four byte-sized, shifted channels with `|` is their packing. */
  lemma PackedChannels(r: uint8, g: uint8, b: uint8, a: uint8)
    ensures Or32(Or32(Or32(Shl32(a, 24), Shl32(r, 16)), Shl32(g, 8)), b) == Pack(b, g, r, a)
  {
    assert Pow2(8) == 0x100 && Pow2(16) == 0x1_0000 && Pow2(24) == 0x100_0000;
    assert Shl32(a, 24) == Pack(0, 0, 0, a);
    assert Shl32(r, 16) == Pack(0, 0, r, 0);
    assert Shl32(g, 8) == Pack(0, g, 0, 0);
    assert b == Pack(b, 0, 0, 0);
    Or32Pack(0, 0, 0, a, 0, 0, r, 0);
    Or32Pack(0, 0, r, a, 0, g, 0, 0);
    Or32Pack(0, g, r, a, b, 0, 0, 0);
  }

  /** `Or32` of two words that each carry a byte only where the other has zero. */
  lemma Or32Pack(a0: uint8, a1: uint8, a2: uint8, a3: uint8, b0: uint8, b1: uint8, b2: uint8, b3: uint8)
    requires a0 == 0 || b0 == 0
    requires a1 == 0 || b1 == 0
    requires a2 == 0 || b2 == 0
    requires a3 == 0 || b3 == 0
    ensures Or32(Pack(a0, a1, a2, a3), Pack(b0, b1, b2, b3)) == Pack(a0 + b0, a1 + b1, a2 + b2, a3 + b3)
  {
    Or32Unfold(Pack(a0, a1, a2, a3), Pack(b0, b1, b2, b3));
    ByteOfPack(a0, a1, a2, a3);
    ByteOfPack(b0, b1, b2, b3);
    ByteIdentities(a0); ByteIdentities(a1); ByteIdentities(a2); ByteIdentities(a3);
    ByteIdentities(b0); ByteIdentities(b1); ByteIdentities(b2); ByteIdentities(b3);
  }

  /** `RGB(r, g, b)` is `RGBA(r, g, b, 0xff)`. */
  function RGB(r: int, g: int, b: int): (p: uint32)
    ensures Alpha(p) == 0xff
    ensures Red(p) == Clamp255(r) && Green(p) == Clamp255(g) && Blue(p) == Clamp255(b)
  {
    RGBA(r, g, b, 0xff)
  }

  /** `alphaPixel1 = 256 - alphaPixel2`, computed in a `Uint16`. */
  function Complement(alpha: uint16): uint16 {
    Wrap16(0x100 - alpha)
  }

  /** Weighted sum of one channel of each pixel, in unsigned 32-bit arithmetic. */
  function ChannelSum(c1: uint32, c2: uint32, alpha: uint16): uint32 {
    Wrap32(c2 * alpha + c1 * Complement(alpha))
  }

  /** The intended mix of one 8-bit channel: floor((c2 * alpha + c1 * (256 - alpha)) / 256). */
  function MixChannel(c1: uint8, c2: uint8, alpha: uint16): uint8
    requires alpha <= 0x100
  {
    MixBounds(c1, c2, alpha);
    (c2 * alpha + c1 * (0x100 - alpha)) / 0x100
  }

  /**
   * `blend(pixel1, pixel2, alphaPixel2)`: each colour channel is mixed as
   * `(c2 * alpha + c1 * (256 - alpha)) >> 8` with the channel masks and
   * shifts of the source, and the alpha byte is forced to 0xff.
   */
  function Blend(p1: uint32, p2: uint32, alpha: uint16): (r: uint32)
    ensures Alpha(r) == 0xff
  {
    var blue := Shr32(ChannelSum(And32(p1, 0xff), And32(p2, 0xff), alpha), 8);
    var green := And32(ChannelSum(And32(Shr32(p1, 8), 0xff), And32(Shr32(p2, 8), 0xff), alpha), 0xff00);
    var red := Shl32(And32(ChannelSum(And32(Shr32(p1, 16), 0xff), And32(Shr32(p2, 16), 0xff), alpha), 0xff00), 8);
    var r := Or32(Or32(Or32(OPAQUE, blue), green), red);
    Or32Bytes(Or32(Or32(OPAQUE, blue), green), red, 3);
    Or32Bytes(Or32(OPAQUE, blue), green, 3);
    Or32Bytes(OPAQUE, blue, 3);
    ByteIdentities(Byte(blue, 3));
    ByteIdentities(Byte(green, 3));
    ByteIdentities(Byte(red, 3));
    r
  }

  lemma DivDiv(x: nat)
    ensures x / 0x1_0000 == x / 0x100 / 0x100
  {
    var q := x / 0x100;
    assert x == 0x100 * q + x % 0x100;
    assert q == 0x100 * (q / 0x100) + q % 0x100;
  }

  /** The three masked channels `p & 0xff`, `p >> 8 & 0xff`, `p >> 16 & 0xff`. */
  lemma ChannelMasks(p: uint32)
    ensures And32(p, 0xff) == Blue(p)
    ensures And32(Shr32(p, 8), 0xff) == Green(p)
    ensures And32(Shr32(p, 16), 0xff) == Red(p)
  {
    assert Pow2(8) == 0x100 && Pow2(16) == 0x1_0000;
    MaskLow(p);
    MaskLow(Shr32(p, 8));
    MaskLow(Shr32(p, 16));
    DivDiv(p);
  }

  lemma MulMono(a: nat, b: nat, c: nat)
    requires a <= b
    ensures a * c <= b * c
  {
  }

  /** The weighted sum of two channels lies between 256 times the smaller and 256 times the larger. */
  lemma MixRange(c1: uint8, c2: uint8, alpha: uint16)
    requires alpha <= 0x100
    ensures 0x100 * (if c1 <= c2 then c1 else c2) <= c2 * alpha + c1 * (0x100 - alpha)
    ensures c2 * alpha + c1 * (0x100 - alpha) <= 0x100 * (if c1 <= c2 then c2 else c1)
  {
    var lo := if c1 <= c2 then c1 else c2;
    var hi := if c1 <= c2 then c2 else c1;
    MulMono(lo, c2, alpha);
    MulMono(c2, hi, alpha);
    MulMono(lo, c1, 0x100 - alpha);
    MulMono(c1, hi, 0x100 - alpha);
    assert lo * alpha + lo * (0x100 - alpha) == 0x100 * lo;
    assert hi * alpha + hi * (0x100 - alpha) == 0x100 * hi;
  }

  /** For 8-bit channels and alpha <= 256 the mix stays inside one byte and between the inputs. */
  lemma MixBounds(c1: uint8, c2: uint8, alpha: uint16)
    requires alpha <= 0x100
    ensures ChannelSum(c1, c2, alpha) == c2 * alpha + c1 * (0x100 - alpha)
    ensures ChannelSum(c1, c2, alpha) < 0x1_0000
    ensures Between(ChannelSum(c1, c2, alpha) / 0x100, c1, c2)
  {
    var m := c2 * alpha + c1 * (0x100 - alpha);
    MixRange(c1, c2, alpha);
    assert 0 <= m < 0x1_0000;
    assert Complement(alpha) == 0x100 - alpha;
    assert ChannelSum(c1, c2, alpha) == Wrap32(m) == m;
  }

  /** `(p2 & 0xff) * alpha + (p1 & 0xff) * (256 - alpha) >> 8` lands in byte 0. */
  lemma BlueField(p1: uint32, p2: uint32, alpha: uint16)
    requires alpha <= 0x100
    ensures Shr32(ChannelSum(And32(p1, 0xff), And32(p2, 0xff), alpha), 8)
         == Pack(MixChannel(Blue(p1), Blue(p2), alpha), 0, 0, 0)
  {
    ChannelMasks(p1);
    ChannelMasks(p2);
    MixBounds(Blue(p1), Blue(p2), alpha);
    assert Pow2(8) == 0x100;
  }

  /** `(... p >> 8 & 0xff ...) & 0xff00` lands in byte 1. */
  lemma GreenField(p1: uint32, p2: uint32, alpha: uint16)
    requires alpha <= 0x100
    ensures And32(ChannelSum(And32(Shr32(p1, 8), 0xff), And32(Shr32(p2, 8), 0xff), alpha), 0xff00)
         == Pack(0, MixChannel(Green(p1), Green(p2), alpha), 0, 0)
  {
    var g1, g2 := Green(p1), Green(p2);
    ChannelMasks(p1);
    ChannelMasks(p2);
    var s := ChannelSum(g1, g2, alpha);
    var m := MixChannel(g1, g2, alpha);
    MixBounds(g1, g2, alpha);
    assert s / 0x100 == m;
    SecondByteField(s);
    PackSecond(m);
  }

  lemma PackSecond(q: uint8)
    ensures Pack(0, q, 0, 0) == 0x100 * q
  {
  }

  /** `((... p >> 16 & 0xff ...) & 0xff00) << 8` lands in byte 2. */
  lemma RedField(p1: uint32, p2: uint32, alpha: uint16)
    requires alpha <= 0x100
    ensures Shl32(And32(ChannelSum(And32(Shr32(p1, 16), 0xff), And32(Shr32(p2, 16), 0xff), alpha), 0xff00), 8)
         == Pack(0, 0, MixChannel(Red(p1), Red(p2), alpha), 0)
  {
    ChannelMasks(p1);
    ChannelMasks(p2);
    var s := ChannelSum(Red(p1), Red(p2), alpha);
    var m := MixChannel(Red(p1), Red(p2), alpha);
    MixBounds(Red(p1), Red(p2), alpha);
    assert s / 0x100 == m;
    SecondByteField(s);
    ShiftSecondToThird(m);
  }

  lemma ShiftSecondToThird(q: uint8)
    ensures Shl32(0x100 * q, 8) == Pack(0, 0, q, 0)
  {
    assert Pow2(8) == 0x100;
  }

  lemma SecondByteField(s: uint32)
    requires s < 0x1_0000
    ensures And32(s, 0xff00) == 0x100 * (s / 0x100)
  {
    MaskSecond(s);
    var q := s / 0x100;
    assert q < 0x100;
    assert Byte(s, 1) == q % 0x100 == q;
  }

  /** For alpha <= 256, `blend` is the packing of the three mixed channels under an opaque alpha byte. */
  lemma BlendPacked(p1: uint32, p2: uint32, alpha: uint16)
    requires alpha <= 0x100
    ensures Blend(p1, p2, alpha) == Pack(MixChannel(Blue(p1), Blue(p2), alpha),
                                         MixChannel(Green(p1), Green(p2), alpha),
                                         MixChannel(Red(p1), Red(p2), alpha), 0xff)
  {
    var b := MixChannel(Blue(p1), Blue(p2), alpha);
    var g := MixChannel(Green(p1), Green(p2), alpha);
    var r := MixChannel(Red(p1), Red(p2), alpha);
    BlueField(p1, p2, alpha);
    GreenField(p1, p2, alpha);
    RedField(p1, p2, alpha);
    assert OPAQUE == Pack(0, 0, 0, 0xff);
    Or32Pack(0, 0, 0, 0xff, b, 0, 0, 0);
    Or32Pack(b, 0, 0, 0xff, 0, g, 0, 0);
    Or32Pack(b, g, 0, 0xff, 0, 0, r, 0);
  }

  /**
   * For alpha in [0, 256] each colour channel of `blend` is
   * floor((c2 * alpha + c1 * (256 - alpha)) / 256): the mix never carries
   * into a neighbouring channel and lies between the two input channels.
   */
  lemma BlendChannels(p1: uint32, p2: uint32, alpha: uint16)
    requires alpha <= 0x100
    ensures Blue(Blend(p1, p2, alpha)) == (Blue(p2) * alpha + Blue(p1) * (0x100 - alpha)) / 0x100
    ensures Green(Blend(p1, p2, alpha)) == (Green(p2) * alpha + Green(p1) * (0x100 - alpha)) / 0x100
    ensures Red(Blend(p1, p2, alpha)) == (Red(p2) * alpha + Red(p1) * (0x100 - alpha)) / 0x100
    ensures Between(Blue(Blend(p1, p2, alpha)), Blue(p1), Blue(p2))
    ensures Between(Green(Blend(p1, p2, alpha)), Green(p1), Green(p2))
    ensures Between(Red(Blend(p1, p2, alpha)), Red(p1), Red(p2))
  {
    MixBounds(Blue(p1), Blue(p2), alpha);
    MixBounds(Green(p1), Green(p2), alpha);
    MixBounds(Red(p1), Red(p2), alpha);
    BlendPacked(p1, p2, alpha);
    ByteOfPack(MixChannel(Blue(p1), Blue(p2), alpha), MixChannel(Green(p1), Green(p2), alpha),
               MixChannel(Red(p1), Red(p2), alpha), 0xff);
  }

  lemma MixChannelEnds(c1: uint8, c2: uint8)
    ensures MixChannel(c1, c2, 0) == c1 && MixChannel(c1, c2, 0x100) == c2
  {
  }

  /** `blend` with alpha 0 keeps pixel1's colour; with alpha 256 it takes pixel2's. */
  lemma BlendEndpoints(p1: uint32, p2: uint32)
    ensures Blend(p1, p2, 0) == Opaque(p1)
    ensures Blend(p1, p2, 0x100) == Opaque(p2)
  {
    MixChannelEnds(Blue(p1), Blue(p2));
    MixChannelEnds(Green(p1), Green(p2));
    MixChannelEnds(Red(p1), Red(p2));
    BlendPacked(p1, p2, 0);
    BlendPacked(p1, p2, 0x100);
  }

  /** Blending a pixel with itself only makes it opaque, for any alpha in [0, 256]. */
  lemma BlendSelf(p: uint32, alpha: uint16)
    requires alpha <= 0x100
    ensures Blend(p, p, alpha) == Opaque(p)
  {
    MixSame(Blue(p), alpha);
    MixSame(Green(p), alpha);
    MixSame(Red(p), alpha);
    BlendPacked(p, p, alpha);
  }

  lemma MixSame(c: uint8, alpha: uint16)
    requires alpha <= 0x100
    ensures MixChannel(c, c, alpha) == c
  {
    assert c * alpha + c * (0x100 - alpha) == 0x100 * c;
  }

  /** The colour channels of a word are its low 24 bits. */
  lemma OpaqueLow(x: uint32)
    ensures Opaque(x) == OPAQUE + x % 0x100_0000
  {
    PackOfBytes(x);
  }

  /** Multiplying by 256 in 32 bits and shifting back keeps the low 24 bits. */
  lemma ShiftBackLow(x: uint32)
    ensures Wrap32(x * 0x100) / 0x100 == x % 0x100_0000
  {
    var low := x % 0x100_0000;
    assert x == 0x100_0000 * (x / 0x100_0000) + low;
    assert x * 0x100 == 0x1_0000_0000 * (x / 0x100_0000) + 0x100 * low;
  }

  /** A word below 2^24 is the packing of its three low bytes. */
  lemma Low24(m: uint32)
    requires m < 0x100_0000
    ensures m == Pack(Byte(m, 0), Byte(m, 1), Byte(m, 2), 0)
  {
    PackOfBytes(m);
    DivDiv(m);
    assert m / 0x1_0000 < 0x100;
  }

  /**
   * `blendWrong(pixel1, pixel2 = RGB(48, 48, 48), alphaPixel2 = 16)`: the
   * whole 32-bit words are mixed as one integer (wrapping at 2^32), shifted
   * right by 8, and the alpha byte is forced to 0xff.
   */
  function BlendWrong(p1: uint32, p2: uint32 := RGB(48, 48, 48), alpha: uint16 := 16): (r: uint32)
    ensures Alpha(r) == 0xff
    ensures r == OPAQUE + ChannelSum(p1, p2, alpha) / 0x100
  {
    var mixed := Shr32(ChannelSum(p1, p2, alpha), 8);
    assert Pow2(8) == 0x100;
    Low24(mixed);
    assert OPAQUE == Pack(0, 0, 0, 0xff);
    Or32Pack(0, 0, 0, 0xff, Byte(mixed, 0), Byte(mixed, 1), Byte(mixed, 2), 0);
    ByteOfPack(Byte(mixed, 0), Byte(mixed, 1), Byte(mixed, 2), 0xff);
    Or32(OPAQUE, mixed)
  }

  /** Like `blend`, `blendWrong` keeps pixel1 at alpha 0 and takes pixel2 at alpha 256. */
  lemma BlendWrongEndpoints(p1: uint32, p2: uint32)
    ensures BlendWrong(p1, p2, 0) == Opaque(p1)
    ensures BlendWrong(p1, p2, 0x100) == Opaque(p2)
  {
    assert ChannelSum(p1, p2, 0) == Wrap32(p1 * 0x100);
    assert ChannelSum(p1, p2, 0x100) == Wrap32(p2 * 0x100);
    ShiftBackLow(p1);
    ShiftBackLow(p2);
    OpaqueLow(p1);
    OpaqueLow(p2);
  }

  /**
   * A worked example of the bleed: unlike `blend`, `blendWrong` lets one
   * channel spill into the next. Mixing the pixel with blue level 1
   * (`0x01`) and the pixel with green level 1 (`0x100`) at alpha 128 gives a
   * blue level of 128, where `blend` gives 0.
   */
  lemma BlendWrongBleeds()
    ensures Blue(BlendWrong(0x01, 0x100, 128)) == 128
    ensures Blue(Blend(0x01, 0x100, 128)) == 0
  {
    var p1, p2 := 0x01, 0x100;
    assert Blue(p1) == 1 && Blue(p2) == 0;
    assert ChannelSum(p1, p2, 128) == 0x8080;
    var w := BlendWrong(p1, p2, 128);
    assert w == 0xFF00_0080;
    BlendChannels(p1, p2, 128);
  }
}
