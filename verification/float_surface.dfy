/**
 * The floating-point drawing surface of DrawingFloat.h and DrawingFloat.cpp.
 *
 * `DrawingSurface` keeps its own buffer of `h * pitch` floats, where `pitch`
 * is the SDL surface's pitch in bytes, used here as a count of floats:
 * pixel (x, y) occupies floats `y * pitch + 4 * x` to `y * pitch + 4 * x + 2`
 * (red, green, blue, or hue, saturation, lightness in HSL mode) and the
 * fourth float of each group is never written by a pixel store. Floats are
 * modelled as exact reals.
 */
module FloatSurface {
  import opened Bits
  import opened Pixels
  import opened Wrappers
  import Surface

  /** `Color`: three components, red, green and blue (or hue, saturation and lightness). */
  datatype Color = Color(c0: real, c1: real, c2: real)

  function RealBetween(v: real, a: real, b: real): bool {
    (a <= v <= b) || (b <= v <= a)
  }

  /** The point at fraction `t` of the way from `a` to `b`. */
  function Lerp(a: real, b: real, t: real): real {
    a + (b - a) * t
  }

  lemma MulNonneg(a: real, b: real)
    requires a >= 0.0 && b >= 0.0
    ensures a * b >= 0.0
  {
  }

  lemma LerpBetween(a: real, b: real, t: real)
    requires 0.0 <= t <= 1.0
    ensures RealBetween(Lerp(a, b, t), a, b)
  {
    if a <= b {
      MulNonneg(b - a, t);
      MulNonneg(b - a, 1.0 - t);
    } else {
      MulNonneg(a - b, t);
      MulNonneg(a - b, 1.0 - t);
    }
  }

  /**
   * `Color::blend(pixel2, alphaPixel2 = 128)`: each component is
   * `c2 * alpha / 256 + c1 * (1 - alpha / 256)`, the point at `alpha / 256`
   * of the way from pixel1's value towards pixel2's.
   */
  function BlendColor(p1: Color, p2: Color, alpha: real := 128.0): (r: Color)
    ensures r.c0 == Lerp(p1.c0, p2.c0, alpha / 256.0)
    ensures r.c1 == Lerp(p1.c1, p2.c1, alpha / 256.0)
    ensures r.c2 == Lerp(p1.c2, p2.c2, alpha / 256.0)
  {
    var a2 := alpha / 256.0;
    var a1 := 1.0 - a2;
    WeightedIsLerp(p1.c0, p2.c0, a2);
    WeightedIsLerp(p1.c1, p2.c1, a2);
    WeightedIsLerp(p1.c2, p2.c2, a2);
    Color(p2.c0 * a2 + p1.c0 * a1, p2.c1 * a2 + p1.c1 * a1, p2.c2 * a2 + p1.c2 * a1)
  }

  /** Weights `t` and `1 - t` on `b` and `a` place the result at fraction `t` from `a`. */
  lemma WeightedIsLerp(a: real, b: real, t: real)
    ensures b * t + a * (1.0 - t) == Lerp(a, b, t)
  {
    assert a * (1.0 - t) == a - a * t;
    assert (b - a) * t == b * t - a * t;
  }

  /** For alpha in [0, 256] every component of a blend lies between the inputs'. */
  lemma BlendColorBetween(p1: Color, p2: Color, alpha: real)
    requires 0.0 <= alpha <= 256.0
    ensures RealBetween(BlendColor(p1, p2, alpha).c0, p1.c0, p2.c0)
    ensures RealBetween(BlendColor(p1, p2, alpha).c1, p1.c1, p2.c1)
    ensures RealBetween(BlendColor(p1, p2, alpha).c2, p1.c2, p2.c2)
  {
    LerpBetween(p1.c0, p2.c0, alpha / 256.0);
    LerpBetween(p1.c1, p2.c1, alpha / 256.0);
    LerpBetween(p1.c2, p2.c2, alpha / 256.0);
  }

  lemma BlendColorEndpoints(p1: Color, p2: Color)
    ensures BlendColor(p1, p2, 0.0) == p1 && BlendColor(p1, p2, 256.0) == p2
  {
  }

  /**
   * `Color(Uint32 sdlColor)`: red from `sdlColor >> 16 & 0xff`, green from
   * `sdlColor >> 8 & 0xff`, blue from `sdlColor & 0xff`. It throws when the
   * drawing surface is in HSL mode.
   */
  function ColorOfWord(useHsl: bool, word: uint32): (r: Result<Color>)
    ensures r.Failure? <==> useHsl
    ensures r.Success? ==> r.value == Color(Red(word) as real, Green(word) as real, Blue(word) as real)
  {
    var red := And32(Shr32(word, 16), 0xff);
    var green := And32(Shr32(word, 8), 0xff);
    var blue := And32(word, 0xff);
    ChannelMasks(word);
    var c := Color(red as real, green as real, blue as real);
    if useHsl then Failure("Unsupported operation (conversion would be needed, but performance-wise it's probably shit)")
    else Success(c)
  }

  /** Every component of an unpacked word is in [0, 255]. */
  lemma ColorOfWordRange(word: uint32)
    ensures var c := ColorOfWord(false, word).value;
            0.0 <= c.c0 <= 255.0 && 0.0 <= c.c1 <= 255.0 && 0.0 <= c.c2 <= 255.0
  {
  }

  /** The alpha byte is ignored: words that differ only there unpack to the same colour. */
  lemma ColorOfWordIgnoresAlpha(w1: uint32, w2: uint32)
    requires w1 % 0x100_0000 == w2 % 0x100_0000
    ensures ColorOfWord(false, w1) == ColorOfWord(false, w2)
  {
    OpaqueLow(w1);
    OpaqueLow(w2);
    ByteOfPack(Blue(w1), Green(w1), Red(w1), 0xff);
    ByteOfPack(Blue(w2), Green(w2), Red(w2), 0xff);
  }

  /** Unpacking `RGB(r, g, b)` gives back (r, g, b) for channels already in [0, 255]. */
  lemma ColorOfRGB(r: uint8, g: uint8, b: uint8)
    ensures ColorOfWord(false, RGB(r, g, b)) == Success(Color(r as real, g as real, b as real))
  {
  }

  /**
   * `hue2rgb(p, q, t)`: `t` is brought into [0, 1] by one step of 1, then
   * the colour ramps from p up to q over [0, 1/6), stays at q up to 1/2,
   * ramps back to p up to 2/3 and stays at p. For t in [-1, 2] the result
   * lies between p and q.
   */
  function Hue2Rgb(p: real, q: real, t: real): (r: real)
    ensures -1.0 <= t <= 2.0 ==> RealBetween(r, p, q)
  {
    var t1 := if t < 0.0 then t + 1.0 else t;
    var t2 := if t1 > 1.0 then t1 - 1.0 else t1;
    HueRampsBetween(p, q, t2);
    if t2 < 1.0 / 6.0 then p + (q - p) * 6.0 * t2
    else if t2 < 1.0 / 2.0 then q
    else if t2 < 2.0 / 3.0 then p + (q - p) * (2.0 / 3.0 - t2) * 6.0
    else p
  }

  /** Both ramps of `Hue2Rgb` stay between p and q over their own part of [0, 1]. */
  lemma HueRampsBetween(p: real, q: real, t: real)
    ensures 0.0 <= t < 1.0 / 6.0 ==> RealBetween(p + (q - p) * 6.0 * t, p, q)
    ensures 1.0 / 2.0 <= t < 2.0 / 3.0 ==> RealBetween(p + (q - p) * (2.0 / 3.0 - t) * 6.0, p, q)
  {
    if 0.0 <= t < 1.0 / 6.0 {
      assert p + (q - p) * 6.0 * t == Lerp(p, q, 6.0 * t);
      LerpBetween(p, q, 6.0 * t);
    } else if 1.0 / 2.0 <= t < 2.0 / 3.0 {
      assert p + (q - p) * (2.0 / 3.0 - t) * 6.0 == Lerp(p, q, (2.0 / 3.0 - t) * 6.0);
      LerpBetween(p, q, (2.0 / 3.0 - t) * 6.0);
    }
  }

  /**
   * `computeSaturatedL(s, l)`: for an over-saturated colour (s > 1) the
   * lightness is scaled towards 0.5 (from below: `l * s`; from above:
   * `1 - (1 - l) * s`) and stopped at 0.5.
   */
  function ComputeSaturatedL(s: real, l: real): (r: real)
    ensures s <= 1.0 ==> r == l
    ensures s > 1.0 && l < 0.5 ==> r <= 0.5
    ensures s > 1.0 && l >= 0.5 ==> r >= 0.5
  {
    if s > 1.0 then
      if l < 0.5 then
        var l' := l * s;
        if l' >= 0.5 then 0.5 else l'
      else
        var l' := 1.0 - (1.0 - l) * s;
        if l' <= 0.5 then 0.5 else l'
    else
      l
  }

  /** For a lightness in [0, 1], over-saturation moves it towards 0.5 and never past it. */
  lemma SaturatedLTowardsHalf(s: real, l: real)
    requires s > 1.0 && 0.0 <= l <= 1.0
    ensures RealBetween(ComputeSaturatedL(s, l), l, 0.5)
  {
    if l < 0.5 {
      MulNonneg(l, s - 1.0);
    } else {
      MulNonneg(1.0 - l, s - 1.0);
    }
  }

  /** `clamp(v)`: v limited to [0, 1]. */
  function Clamp01(v: real): (r: real)
    ensures 0.0 <= r <= 1.0
    ensures 0.0 <= v <= 1.0 ==> r == v
  {
    if v < 0.0 then 0.0 else if v > 1.0 then 1.0 else v
  }

  /** `clamp` is monotone and idempotent. */
  lemma Clamp01Monotone(u: real, v: real)
    requires u <= v
    ensures Clamp01(u) <= Clamp01(v) && Clamp01(Clamp01(v)) == Clamp01(v)
  {
  }

  /** The `DrawingSurface` struct; `sdlSurface` is not modelled. */
  datatype DrawingSurface = DrawingSurface(w: nat, h: nat, pitch: nat, pixels: seq<real>,
                                           protectOverflow: bool, useHsl: bool)

  /** A surface whose buffer holds `h * pitch` floats and whose rows fit `w` groups of four. */
  predicate Valid(fs: DrawingSurface) {
    fs.w < 0x8000_0000 && fs.h < 0x8000_0000 && fs.pitch < 0x8000_0000
    && 4 * fs.w <= fs.pitch && fs.h * fs.pitch < 0x1_0000_0000 && |fs.pixels| == fs.h * fs.pitch
  }

  predicate SameShape(s: DrawingSurface, t: DrawingSurface) {
    s.w == t.w && s.h == t.h && s.pitch == t.pitch && |s.pixels| == |t.pixels|
    && s.protectOverflow == t.protectOverflow && s.useHsl == t.useHsl
  }

  /**
   * `DrawingSurface(surface)`: takes `w`, `h` and `pitch` from the SDL
   * surface (non-negative `int`s), throws when `pitch < w * 4` in unsigned
   * arithmetic, and allocates `h * pitch` floats whose initial values are
   * whatever `initial` says (`new float[]` leaves them indeterminate).
   */
  function Create(w: nat, h: nat, pitch: nat, initial: int -> real): (r: Result<DrawingSurface>)
    requires w < 0x8000_0000 && h < 0x8000_0000 && pitch < 0x8000_0000
    ensures r.Failure? <==> pitch < Wrap32(w * 4)
    ensures r.Success? ==> |r.value.pixels| == Wrap32(h * pitch)
    ensures r.Success? ==> !r.value.protectOverflow && !r.value.useHsl
  {
    if pitch < Wrap32(w * 4) then
      Failure("Error with pixel format, make sure that you use 32 bits")
    else
      Success(DrawingSurface(w, h, pitch, seq(Wrap32(h * pitch), initial), false, false))
  }

  /**
   * For any surface SDL can describe (so `4 * w` fits 32 bits) the
   * constructor throws exactly when a row cannot hold `w` groups of four, and
   * when the buffer size does not wrap the new surface is valid.
   */
  lemma CreateValid(w: nat, h: nat, pitch: nat, initial: int -> real)
    requires w < 0x4000_0000 && h < 0x8000_0000 && pitch < 0x8000_0000
    ensures Create(w, h, pitch, initial).Failure? <==> pitch < 4 * w
    ensures h * pitch < 0x1_0000_0000 && Create(w, h, pitch, initial).Success?
            ==> Valid(Create(w, h, pitch, initial).value)
  {
  }

  predicate InRange(fs: DrawingSurface, x: int, y: int) {
    0 <= x < fs.w && 0 <= y < fs.h
  }

  /** The first float of pixel (x, y): `y * pitch + x * 4`. */
  function Index(fs: DrawingSurface, x: nat, y: nat): nat {
    y * fs.pitch + 4 * x
  }

  /** All four floats of an in-range pixel's group lie inside the buffer. */
  lemma IndexInside(fs: DrawingSurface, x: nat, y: nat)
    requires Valid(fs) && x < fs.w && y < fs.h
    ensures Index(fs, x, y) + 3 < |fs.pixels|
  {
    Surface.MulMonoInt(y + 1, fs.h, fs.pitch);
    assert (y + 1) * fs.pitch == y * fs.pitch + fs.pitch;
  }

  /** The floats of distinct in-range pixels are at least four apart, so their groups never overlap. */
  lemma IndexApart(fs: DrawingSurface, x1: nat, y1: nat, x2: nat, y2: nat)
    requires Valid(fs) && x1 < fs.w && x2 < fs.w && (x1, y1) != (x2, y2)
    ensures Index(fs, x1, y1) + 4 <= Index(fs, x2, y2) || Index(fs, x2, y2) + 4 <= Index(fs, x1, y1)
  {
    if y1 < y2 {
      Surface.MulMonoInt(y1 + 1, y2, fs.pitch);
      assert (y1 + 1) * fs.pitch == y1 * fs.pitch + fs.pitch;
    } else if y2 < y1 {
      Surface.MulMonoInt(y2 + 1, y1, fs.pitch);
      assert (y2 + 1) * fs.pitch == y2 * fs.pitch + fs.pitch;
    }
  }

  /** Float `j` is one of the three stored floats of some in-range pixel. */
  predicate PixelFloat(fs: DrawingSurface, j: int) {
    fs.pitch > 0 && j % fs.pitch < 4 * fs.w && j % fs.pitch % 4 < 3
  }

  /** The three stored floats of a pixel are pixel floats. */
  lemma IndexSplit(fs: DrawingSurface, x: nat, y: nat, k: nat)
    requires Valid(fs) && x < fs.w && k < 3
    ensures PixelFloat(fs, Index(fs, x, y) + k)
  {
    Surface.DivUnique(Index(fs, x, y) + k, fs.pitch, y, 4 * x + k);
  }

  /**
   * `getPixel(x, y, defaultColor)`: the three floats of pixel (x, y), or the
   * default when an unsigned coordinate is out of range. (`Color()`, the
   * default default, has indeterminate components, so callers pass one.)
   */
  function GetPixel(fs: DrawingSurface, x: uint32, y: uint32, dflt: Color): (c: Color)
    requires Valid(fs)
    ensures !InRange(fs, x, y) ==> c == dflt
  {
    if x < fs.w && y < fs.h then
      IndexInside(fs, x, y);
      var i := Index(fs, x, y);
      Color(fs.pixels[i], fs.pixels[i + 1], fs.pixels[i + 2])
    else
      dflt
  }

  /**
   * `setPixel(x, y, color)`: out of range is a no-op; in range it stores the
   * three components at the pixel's first three floats and nothing else.
   */
  function SetPixel(fs: DrawingSurface, x: uint32, y: uint32, c: Color): (t: DrawingSurface)
    requires Valid(fs)
    ensures Valid(t) && SameShape(fs, t)
    ensures !InRange(fs, x, y) ==> t == fs
    ensures InRange(fs, x, y) ==> forall d :: GetPixel(t, x, y, d) == c
    ensures forall j :: 0 <= j < |t.pixels| && !(InRange(fs, x, y) && Index(fs, x, y) <= j < Index(fs, x, y) + 3)
              ==> t.pixels[j] == fs.pixels[j]
  {
    if x < fs.w && y < fs.h then
      IndexInside(fs, x, y);
      var i := Index(fs, x, y);
      fs.(pixels := fs.pixels[i := c.c0][i + 1 := c.c1][i + 2 := c.c2])
    else
      fs
  }

  /** `setPixel` changes no other pixel. */
  lemma SetPixelOther(fs: DrawingSurface, x: uint32, y: uint32, c: Color, x': uint32, y': uint32, d: Color)
    requires Valid(fs) && (x', y') != (x, y)
    ensures GetPixel(SetPixel(fs, x, y, c), x', y', d) == GetPixel(fs, x', y', d)
  {
    if InRange(fs, x, y) && InRange(fs, x', y') {
      IndexApart(fs, x, y, x', y');
      IndexInside(fs, x', y');
    }
  }

  /** `setPixel` changes pixel floats only: padding and every fourth float are never written. */
  lemma SetPixelFloats(fs: DrawingSurface, x: uint32, y: uint32, c: Color, j: nat)
    requires Valid(fs) && j < |fs.pixels| && !PixelFloat(fs, j)
    ensures SetPixel(fs, x, y, c).pixels[j] == fs.pixels[j]
  {
    if InRange(fs, x, y) {
      IndexSplit(fs, x, y, 0);
      IndexSplit(fs, x, y, 1);
      IndexSplit(fs, x, y, 2);
    }
  }

  /** Component `k` (0, 1 or 2) of a colour, as `components[k]`. */
  function Component(c: Color, k: nat): real
    requires k < 3
  {
    if k == 0 then c.c0 else if k == 1 then c.c1 else c.c2
  }

  /**
   * Float `j` after clearing the first `end` floats of `before` group by
   * group: the first three floats of each group take the colour, the fourth
   * and everything from `end` on keep their values.
   */
  function Cleared(before: seq<real>, c: Color, end: int, j: nat): real
    requires j < |before|
  {
    if j < end && j % 4 < 3 then Component(c, j % 4) else before[j]
  }

  /**
   * `clearScreen(color)`: for each of the `pitch * h / 4` groups of four
   * floats, stores the three components into the first three and skips the
   * fourth. Floats past the last whole group are not written.
   */
  method ClearScreen(fs: DrawingSurface, c: Color) returns (t: DrawingSurface)
    requires Valid(fs)
    ensures Valid(t) && SameShape(fs, t)
    ensures forall j :: 0 <= j < |t.pixels| ==> t.pixels[j] == Cleared(fs.pixels, c, |fs.pixels| / 4 * 4, j)
  {
    var size: nat := Wrap32(fs.pitch * fs.h) / 4;
    ghost var end := |fs.pixels| / 4 * 4;
    GroupCount(|fs.pixels|, fs.pitch * fs.h);
    var ptr := 0;
    var pixels := fs.pixels;
    while size > 0
      invariant |pixels| == |fs.pixels| && ptr % 4 == 0 && ptr + 4 * size == end
      invariant forall j :: 0 <= j < |pixels| ==> pixels[j] == Cleared(fs.pixels, c, ptr, j)
    {
      var after := pixels[ptr := c.c0][ptr + 1 := c.c1][ptr + 2 := c.c2];
      ClearGroup(fs.pixels, c, pixels, ptr, after);
      size := size - 1;
      pixels := after;
      ptr := ptr + 4;
    }
    t := fs.(pixels := pixels);
  }

  /** The `n / 4` groups of a buffer of `n < 2^32` floats cover its first `n / 4 * 4` floats, and no more than `n`. */
  lemma GroupCount(n: nat, product: nat)
    requires n == product < 0x1_0000_0000
    ensures 4 * (Wrap32(product) / 4) == n / 4 * 4 <= n
  {
    assert Wrap32(product) == n;
  }

  /** Clearing one more group extends the cleared prefix by four floats. */
  lemma ClearGroup(before: seq<real>, c: Color, pixels: seq<real>, ptr: nat, after: seq<real>)
    requires |pixels| == |before| && ptr % 4 == 0 && ptr + 4 <= |before|
    requires forall j :: 0 <= j < |pixels| ==> pixels[j] == Cleared(before, c, ptr, j)
    requires after == pixels[ptr := c.c0][ptr + 1 := c.c1][ptr + 2 := c.c2]
    ensures forall j :: 0 <= j < |after| ==> after[j] == Cleared(before, c, ptr + 4, j)
  {
    forall j | 0 <= j < |pixels|
      ensures after[j] == Cleared(before, c, ptr + 4, j)
    {
      if ptr <= j < ptr + 4 {
        assert j % 4 == j - ptr;
      }
    }
  }

  /** When the pitch is a multiple of 4 (as SDL makes it), every in-range pixel then reads back the colour. */
  lemma ClearScreenPixels(fs: DrawingSurface, t: DrawingSurface, c: Color, x: uint32, y: uint32, d: Color)
    requires Valid(fs) && Valid(t) && SameShape(fs, t) && fs.pitch % 4 == 0 && InRange(fs, x, y)
    requires forall j :: 0 <= j < |t.pixels| ==> t.pixels[j] == Cleared(fs.pixels, c, |fs.pixels| / 4 * 4, j)
    ensures GetPixel(t, x, y, d) == c
  {
    IndexInside(fs, x, y);
    var i := Index(fs, x, y);
    IndexAligned(fs, x, y);
    AlignedBelow(i, |fs.pixels|);
    var end := |fs.pixels| / 4 * 4;
    assert t.pixels[i] == Cleared(fs.pixels, c, end, i) == c.c0;
    assert t.pixels[i + 1] == Cleared(fs.pixels, c, end, i + 1) == c.c1;
    assert t.pixels[i + 2] == Cleared(fs.pixels, c, end, i + 2) == c.c2;
  }

  /** With a pitch that is a multiple of four, every pixel's group starts on a multiple of four. */
  lemma IndexAligned(fs: DrawingSurface, x: nat, y: nat)
    requires fs.pitch % 4 == 0
    ensures Index(fs, x, y) % 4 == 0
  {
    var q := fs.pitch / 4;
    assert y * fs.pitch == 4 * (y * q);
    assert Index(fs, x, y) == 4 * (y * q + x);
  }

  /** A group that starts on a multiple of four and fits in `n` floats lies below `n / 4 * 4`. */
  lemma AlignedBelow(i: nat, n: nat)
    requires i % 4 == 0 && i + 3 < n
    ensures i + 2 < n / 4 * 4 && (i + 1) % 4 == 1 && (i + 2) % 4 == 2
  {
    var a := i / 4;
    var b := n / 4;
    assert i == 4 * a;
    assert n == 4 * b + n % 4;
    assert a < b;
  }

  /** A pixel the sweep has not reached holds its original colour. */
  ghost predicate Unreached(s: DrawingSurface, cur: DrawingSurface, x: int, y: int) {
    Valid(cur) && SameShape(s, cur)
    && (forall x': uint32, y': uint32, d: Color :: InRange(s, x', y') && !Surface.Before(x', y', x, y)
          ==> GetPixel(cur, x', y', d) == GetPixel(s, x', y', d))
    && forall j :: 0 <= j < |cur.pixels| && !PixelFloat(s, j) ==> cur.pixels[j] == s.pixels[j]
  }

  /**
   * The neighbour the sweep reads for pixel (x, y): `(x - moveX, y - moveY)`
   * in unsigned arithmetic, `outside` when out of range, as already updated
   * by the sweep (from `t`) when the sweep has passed it, else original.
   */
  function Neighbour(s: DrawingSurface, t: DrawingSurface, outside: Color, dx: int32, dy: int32, x: uint32, y: uint32): Color
    requires Valid(s) && Valid(t)
  {
    var nx, ny := Wrap32(x - dx), Wrap32(y - dy);
    if Surface.Before(nx, ny, x, y) then GetPixel(t, nx, ny, outside)
    else GetPixel(s, nx, ny, outside)
  }

  /** Every pixel the sweep has passed holds `f` of its original colour and its neighbour as read. */
  ghost predicate Swept(s: DrawingSurface, cur: DrawingSurface, f: (Color, Color) -> Color, outside: Color,
                  dx: int32, dy: int32, x: int, y: int) {
    Valid(s) && Valid(cur) && SameShape(s, cur)
    && forall x': uint32, y': uint32, d: Color :: InRange(s, x', y') && Surface.Before(x', y', x, y)
         ==> GetPixel(cur, x', y', d) == f(GetPixel(s, x', y', d), Neighbour(s, cur, outside, dx, dy, x', y'))
  }

  /**
   * The double loop of `performMove`: for y in [0, h), x in [0, w), store
   * `f(pixel1, pixel2)` into pixel (x, y), where pixel1 is the pixel and
   * pixel2 its neighbour `(x - dx, y - dy)` (`outside` when out of range),
   * both read from the buffer being updated.
   */
  method Sweep(s: DrawingSurface, f: (Color, Color) -> Color, outside: Color, dx: int32, dy: int32)
    returns (t: DrawingSurface)
    requires Valid(s)
    ensures Valid(t) && SameShape(s, t)
    ensures forall x: uint32, y: uint32, d: Color :: InRange(s, x, y)
              ==> GetPixel(t, x, y, d) == f(GetPixel(s, x, y, d), Neighbour(s, t, outside, dx, dy, x, y))
    ensures forall j :: 0 <= j < |t.pixels| && !PixelFloat(s, j) ==> t.pixels[j] == s.pixels[j]
  {
    var cur := s;
    var y: uint32 := 0;
    while y < s.h
      invariant y <= s.h
      invariant Unreached(s, cur, 0, y) && Swept(s, cur, f, outside, dx, dy, 0, y)
    {
      var x: uint32 := 0;
      while x < s.w
        invariant x <= s.w
        invariant Unreached(s, cur, x, y) && Swept(s, cur, f, outside, dx, dy, x, y)
      {
        var pixel1 := GetPixel(cur, x, y, outside);
        var pixel2 := GetPixel(cur, Wrap32(x - dx), Wrap32(y - dy), outside);
        SweepStep(s, cur, f, outside, dx, dy, x, y, pixel1, pixel2);
        cur := SetPixel(cur, x, y, f(pixel1, pixel2));
        x := x + 1;
      }
      y := y + 1;
    }
    t := cur;
  }

  /** One step of the sweep keeps both sweep invariants. */
  lemma SweepStep(s: DrawingSurface, cur: DrawingSurface, f: (Color, Color) -> Color, outside: Color,
                  dx: int32, dy: int32, x: uint32, y: uint32, pixel1: Color, pixel2: Color)
    requires Valid(s) && x < s.w && y < s.h
    requires Unreached(s, cur, x, y) && Swept(s, cur, f, outside, dx, dy, x, y)
    requires pixel1 == GetPixel(cur, x, y, outside)
    requires pixel2 == GetPixel(cur, Wrap32(x - dx), Wrap32(y - dy), outside)
    ensures Unreached(s, SetPixel(cur, x, y, f(pixel1, pixel2)), x + 1, y)
    ensures Swept(s, SetPixel(cur, x, y, f(pixel1, pixel2)), f, outside, dx, dy, x + 1, y)
  {
    var v := f(pixel1, pixel2);
    var t := SetPixel(cur, x, y, v);
    forall x': uint32, y': uint32, d: Color | InRange(s, x', y') && !Surface.Before(x', y', x + 1, y)
      ensures GetPixel(t, x', y', d) == GetPixel(s, x', y', d)
    {
      SetPixelOther(cur, x, y, v, x', y', d);
    }
    forall j | 0 <= j < |t.pixels| && !PixelFloat(s, j)
      ensures t.pixels[j] == s.pixels[j]
    {
      SetPixelFloats(cur, x, y, v, j);
    }
    NewPixel(s, cur, f, outside, dx, dy, x, y, pixel1, pixel2);
    forall x': uint32, y': uint32, d: Color | InRange(s, x', y') && Surface.Before(x', y', x + 1, y)
      ensures GetPixel(t, x', y', d) == f(GetPixel(s, x', y', d), Neighbour(s, t, outside, dx, dy, x', y'))
    {
      if (x', y') != (x, y) {
        OldPixel(s, cur, f, outside, dx, dy, x, y, v, x', y', d);
      }
    }
  }

  /** The pixel a sweep step writes satisfies the sweep invariant. */
  lemma NewPixel(s: DrawingSurface, cur: DrawingSurface, f: (Color, Color) -> Color, outside: Color,
                 dx: int32, dy: int32, x: uint32, y: uint32, pixel1: Color, pixel2: Color)
    requires Valid(s) && x < s.w && y < s.h
    requires Unreached(s, cur, x, y) && Swept(s, cur, f, outside, dx, dy, x, y)
    requires pixel1 == GetPixel(cur, x, y, outside)
    requires pixel2 == GetPixel(cur, Wrap32(x - dx), Wrap32(y - dy), outside)
    ensures forall d :: (GetPixel(SetPixel(cur, x, y, f(pixel1, pixel2)), x, y, d)
                         == f(GetPixel(s, x, y, d), Neighbour(s, SetPixel(cur, x, y, f(pixel1, pixel2)), outside, dx, dy, x, y)))
  {
    var v := f(pixel1, pixel2);
    var nx, ny := Wrap32(x - dx), Wrap32(y - dy);
    if Surface.Before(nx, ny, x, y) {
      SetPixelOther(cur, x, y, v, nx, ny, outside);
    }
    forall d | true
      ensures GetPixel(s, x, y, d) == pixel1
    {
      assert GetPixel(cur, x, y, d) == GetPixel(s, x, y, d);
    }
  }

  /** A pixel the sweep passed earlier, and the neighbour it read, are not touched by a later step. */
  lemma OldPixel(s: DrawingSurface, cur: DrawingSurface, f: (Color, Color) -> Color, outside: Color,
                 dx: int32, dy: int32, x: uint32, y: uint32, v: Color, x': uint32, y': uint32, d: Color)
    requires Valid(s) && Valid(cur) && SameShape(s, cur)
    requires InRange(s, x', y') && Surface.Before(x', y', x, y) && (x', y') != (x, y)
    requires GetPixel(cur, x', y', d) == f(GetPixel(s, x', y', d), Neighbour(s, cur, outside, dx, dy, x', y'))
    ensures GetPixel(SetPixel(cur, x, y, v), x', y', d)
         == f(GetPixel(s, x', y', d), Neighbour(s, SetPixel(cur, x, y, v), outside, dx, dy, x', y'))
  {
    SetPixelOther(cur, x, y, v, x', y', d);
    var nx', ny' := Wrap32(x' - dx), Wrap32(y' - dy);
    if Surface.Before(nx', ny', x', y') {
      SetPixelOther(cur, x, y, v, nx', ny', outside);
    }
  }

  /** The `ScreenMover` position accumulators. */
  datatype Mover = Mover(positionX: real, positionY: real)

  /** `addMove(deltaX, deltaY)`. */
  function AddMove(m: Mover, deltaX: real, deltaY: real): Mover {
    Mover(m.positionX + deltaX, m.positionY + deltaY)
  }

  /** C++ `int(v)`: truncation towards zero. */
  function TruncToInt(v: real): int {
    if v >= 0.0 then v.Floor else -((-v).Floor)
  }

  /** `int(fmax(-1, fmin(+1, position)))`: a whole-pixel step of -1, 0 or 1. */
  function Step(position: real): (k: int)
    ensures k == -1 || k == 0 || k == 1
    ensures k != 0 <==> (position >= 1.0 || position <= -1.0)
    ensures k == 1 <==> position >= 1.0
  {
    var clamped := if position > 1.0 then 1.0 else if position < -1.0 then -1.0 else position;
    TruncToInt(clamped)
  }

  function Abs(v: real): real {
    if v < 0.0 then -v else v
  }

  /**
   * Taking the step moves the position exactly one pixel towards 0 when it
   * has at least one whole pixel of travel, and leaves it alone otherwise.
   */
  lemma StepShrinks(position: real)
    ensures Abs(position) >= 1.0 ==> Abs(position - Step(position) as real) == Abs(position) - 1.0
    ensures Abs(position) < 1.0 ==> position - Step(position) as real == position
  {
  }

  /**
   * The colour `ScreenMover::performMove` stores: `pixel1.blend(pixel2, alpha)`.
   * `ScreenMoverHSL::performMove` first copies hue and saturation from pixel1
   * into pixel2, then blends, then blends towards black at alpha 2.
   */
  /**
   * In HSL mode hue and saturation ignore the neighbour and decay by 254/256
   * per move, and the lightness is the plain blend's, decayed the same way.
   * In RGB mode with alpha in [0, 256] every component lies between pixel1's
   * and the neighbour's.
   */
  function MoveColor(hsl: bool, alpha: real, pixel1: Color, pixel2: Color): (r: Color)
    ensures hsl ==> r.c0 == pixel1.c0 * (254.0 / 256.0) && r.c1 == pixel1.c1 * (254.0 / 256.0)
    ensures hsl ==> r.c2 == Lerp(pixel1.c2, pixel2.c2, alpha / 256.0) * (254.0 / 256.0)
    ensures !hsl && 0.0 <= alpha <= 256.0 ==>
              RealBetween(r.c0, pixel1.c0, pixel2.c0) && RealBetween(r.c1, pixel1.c1, pixel2.c1)
              && RealBetween(r.c2, pixel1.c2, pixel2.c2)
  {
    if hsl then
      BlendColor(BlendColor(pixel1, Color(pixel1.c0, pixel1.c1, pixel2.c2), alpha), Color(0.0, 0.0, 0.0), 2.0)
    else if 0.0 <= alpha <= 256.0 then
      BlendColorBetween(pixel1, pixel2, alpha);
      BlendColor(pixel1, pixel2, alpha)
    else
      BlendColor(pixel1, pixel2, alpha)
  }

  /**
   * `ScreenMover::performMove(fillColor, alpha)` and its HSL twin: each axis
   * steps by `Step(position)` and the position is reduced by the step; when
   * both steps are 0 nothing else happens, otherwise every pixel is combined
   * with its neighbour `(x - moveX, y - moveY)` (`fillColor` outside the
   * surface) by an in-place row-major sweep.
   */
  method PerformMove(fs: DrawingSurface, m: Mover, hsl: bool, fill: Color, alpha: real := 16.0)
    returns (t: DrawingSurface, m': Mover)
    requires Valid(fs)
    ensures Valid(t) && SameShape(fs, t)
    ensures forall j :: 0 <= j < |t.pixels| && !PixelFloat(fs, j) ==> t.pixels[j] == fs.pixels[j]
    ensures m' == Mover(m.positionX - Step(m.positionX) as real, m.positionY - Step(m.positionY) as real)
    ensures Step(m.positionX) == 0 && Step(m.positionY) == 0 ==> t == fs
    ensures Step(m.positionX) != 0 || Step(m.positionY) != 0 ==>
              (forall x: uint32, y: uint32, d: Color :: InRange(fs, x, y)
                 ==> GetPixel(t, x, y, d)
                     == MoveColor(hsl, alpha, GetPixel(fs, x, y, d), Neighbour(fs, t, fill, Step(m.positionX), Step(m.positionY), x, y)))
  {
    var moveX, moveY := Step(m.positionX), Step(m.positionY);
    m' := Mover(m.positionX - moveX as real, m.positionY - moveY as real);
    if moveX != 0 || moveY != 0 {
      t := Sweep(fs, (pixel1, pixel2) => MoveColor(hsl, alpha, pixel1, pixel2), fill, moveX, moveY);
    } else {
      t := fs;
    }
  }
}
