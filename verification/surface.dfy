/**
 * The 32-bit framebuffer of Drawing.h and DrawingSurface.h.
 *
 * An SDL surface with 4 bytes per pixel is a flat buffer of `pitch * h`
 * bytes; pixel (x, y) is the word at byte address `y * pitch + 4 * x`.
 * Since `pitch` is a multiple of 4 for such a surface, the buffer is viewed
 * here as `pitch * h / 4` words and pixel (x, y) is word
 * `y * (pitch / 4) + x`. Words of a row past column `w - 1` are padding.
 */
module Surface {
  import opened Bits
  import opened Pixels

  datatype Surface = Surface(w: nat, h: nat, pitch: nat, words: seq<uint32>)

  /**
   * A well-formed 32-bit surface: rows hold at least `w` pixels, the byte
   * size `pitch * h` fits the `int` SDL computes it in, and the buffer is
   * exactly that size.
   */
  predicate Valid(s: Surface) {
    s.w < 0x8000_0000 && s.h < 0x8000_0000 && s.pitch < 0x8000_0000
    && s.pitch % 4 == 0 && 4 * s.w <= s.pitch && s.pitch * s.h < 0x8000_0000
    && 4 * |s.words| == s.pitch * s.h
  }

  predicate SameShape(s: Surface, t: Surface) {
    s.w == t.w && s.h == t.h && s.pitch == t.pitch && |s.words| == |t.words|
  }

  /** Words per row. */
  function Stride(s: Surface): nat {
    s.pitch / 4
  }

  /** The word holding pixel (x, y). */
  function Offset(s: Surface, x: nat, y: nat): nat {
    y * Stride(s) + x
  }

  predicate InRange(s: Surface, x: int, y: int) {
    0 <= x < s.w && 0 <= y < s.h
  }

  /** Row-major order: (x1, y1) is visited before (x2, y2) by a `for y { for x }` sweep. */
  predicate Before(x1: int, y1: int, x2: int, y2: int) {
    y1 < y2 || (y1 == y2 && x1 < x2)
  }

  /** Word `j` holds a pixel (and not row padding). */
  predicate PixelWord(s: Surface, j: int) {
    Stride(s) > 0 && j % Stride(s) < s.w
  }

  /** Word `j` holds a pixel that a row-major sweep has passed when it reaches (x, y). */
  predicate Written(s: Surface, j: int, x: int, y: int) {
    PixelWord(s, j) && Before(j % Stride(s), j / Stride(s), x, y)
  }

  lemma MulMonoInt(a: nat, b: nat, c: nat)
    requires a <= b
    ensures a * c <= b * c
  {
  }

  /** Quotient and remainder are determined by any decomposition with a remainder in range. */
  lemma DivUnique(a: nat, d: nat, q: nat, r: nat)
    requires 0 <= r < d && a == q * d + r
    ensures a / d == q && a % d == r
  {
    var q', r' := a / d, a % d;
    assert a == q' * d + r';
    if q' > q {
      MulMonoInt(q + 1, q', d);
      assert false;
    } else if q' < q {
      MulMonoInt(q' + 1, q, d);
      assert false;
    }
  }

  /** The byte address `y * pitch + x * BytesPerPixel` is 4 times the word offset. */
  lemma OffsetAddress(s: Surface, x: nat, y: nat)
    requires Valid(s)
    ensures y * s.pitch + 4 * x == 4 * Offset(s, x, y)
  {
    assert s.pitch == 4 * Stride(s);
  }

  /** Every in-range pixel lies inside the buffer. */
  lemma OffsetInside(s: Surface, x: nat, y: nat)
    requires Valid(s) && x < s.w && y < s.h
    ensures Offset(s, x, y) < |s.words|
  {
    var st := Stride(s);
    assert s.pitch == 4 * st;
    assert |s.words| == s.h * st;
    MulMonoInt(y + 1, s.h, st);
    assert (y + 1) * st == y * st + st;
  }

  /** The word offset of a pixel gives back its column and row. */
  lemma OffsetSplit(s: Surface, x: nat, y: nat)
    requires Valid(s) && x < s.w
    ensures Offset(s, x, y) / Stride(s) == y && Offset(s, x, y) % Stride(s) == x
    ensures PixelWord(s, Offset(s, x, y))
  {
    assert s.pitch == 4 * Stride(s);
    DivUnique(Offset(s, x, y), Stride(s), y, x);
  }

  /** Distinct in-range pixels occupy distinct words. */
  lemma OffsetInjective(s: Surface, x1: nat, y1: nat, x2: nat, y2: nat)
    requires Valid(s) && x1 < s.w && x2 < s.w
    ensures Offset(s, x1, y1) == Offset(s, x2, y2) <==> x1 == x2 && y1 == y2
  {
    OffsetSplit(s, x1, y1);
    OffsetSplit(s, x2, y2);
  }

  /** Every word of the buffer lies in one of the `h` rows. */
  lemma RowOfWord(s: Surface, j: nat)
    requires Valid(s) && j < |s.words| && Stride(s) > 0
    ensures j / Stride(s) < s.h
  {
    var st := Stride(s);
    assert s.pitch == 4 * st;
    assert |s.words| == s.h * st;
    var q := j / st;
    assert j == q * st + j % st;
    if q >= s.h {
      MulMonoInt(s.h, q, st);
      assert false;
    }
  }

  /** A pixel word is written by the sweep at (x, y) exactly when its pixel comes before (x, y). */
  lemma WrittenPixel(s: Surface, x: nat, y: nat, xs: int, ys: int)
    requires Valid(s) && x < s.w
    ensures Written(s, Offset(s, x, y), xs, ys) <==> Before(x, y, xs, ys)
  {
    OffsetSplit(s, x, y);
  }

  /**
   * `getPixel(x, y, colorToReturn)`: the word of pixel (x, y), or the default
   * when either unsigned coordinate is out of range. Drawing.h's version has
   * no parameter and returns 0, which is the default here.
   */
  function GetPixel(s: Surface, x: uint32, y: uint32, dflt: uint32 := 0): (p: uint32)
    requires Valid(s)
    ensures !InRange(s, x, y) ==> p == dflt
  {
    if x < s.w && y < s.h then
      OffsetInside(s, x, y);
      s.words[Offset(s, x, y)]
    else
      dflt
  }

  /** `setPixel(x, y, pixel)`: out of range is a no-op; in range it stores the word of pixel (x, y). */
  function SetPixel(s: Surface, x: uint32, y: uint32, p: uint32): (t: Surface)
    requires Valid(s)
    ensures Valid(t) && SameShape(s, t)
    ensures !InRange(s, x, y) ==> t == s
    ensures InRange(s, x, y) ==> GetPixel(t, x, y) == p
  {
    if x < s.w && y < s.h then
      OffsetInside(s, x, y);
      s.(words := s.words[Offset(s, x, y) := p])
    else
      s
  }

  /** `setPixel` changes no other pixel: every other read, with any default, is as before. */
  lemma SetPixelOther(s: Surface, x: uint32, y: uint32, p: uint32, x': uint32, y': uint32, d: uint32)
    requires Valid(s) && (x', y') != (x, y)
    ensures GetPixel(SetPixel(s, x, y, p), x', y', d) == GetPixel(s, x', y', d)
  {
    var t := SetPixel(s, x, y, p);
    if InRange(s, x, y) && InRange(s, x', y') {
      OffsetInjective(s, x, y, x', y');
      OffsetInside(s, x, y);
      OffsetInside(s, x', y');
      assert t.words == s.words[Offset(s, x, y) := p];
      assert GetPixel(t, x', y', d) == t.words[Offset(s, x', y')];
    }
  }

  /** `setPixel` changes one word at most, and never a padding word. */
  lemma SetPixelWords(s: Surface, x: uint32, y: uint32, p: uint32, j: nat)
    requires Valid(s) && j < |s.words|
    requires !InRange(s, x, y) || j != Offset(s, x, y)
    ensures SetPixel(s, x, y, p).words[j] == s.words[j]
  {
  }

  /** Reading back a pixel just set gives the stored word; setting the word already there changes nothing. */
  lemma GetSetRoundTrip(s: Surface, x: uint32, y: uint32)
    requires Valid(s)
    ensures SetPixel(s, x, y, GetPixel(s, x, y)) == s
  {
    if InRange(s, x, y) {
      OffsetInside(s, x, y);
      assert s.words[Offset(s, x, y) := s.words[Offset(s, x, y)]] == s.words;
    }
  }

  /**
   * Drawing.h `clearScreen`: `memset` of the `pitch * h` bytes with the
   * colour, which `memset` converts to its low byte, so every byte of every
   * word (padding included) becomes that byte.
   */
  function ClearScreenMemset(s: Surface, color: uint32): (t: Surface)
    requires Valid(s)
    ensures Valid(t) && SameShape(s, t)
    ensures forall j, k :: 0 <= j < |t.words| && 0 <= k < 4 ==> Byte(t.words[j], k) == Byte(color, 0)
  {
    var b := Byte(color, 0);
    ByteOfPack(b, b, b, b);
    s.(words := seq(|s.words|, _ => Pack(b, b, b, b)))
  }

  /**
   * `memset` agrees with a word fill exactly for colours whose four bytes
   * are equal (0x00000000 and 0xffffffff among them); for any other colour
   * it stores a different word.
   */
  lemma MemsetIsFill(s: Surface, color: uint32)
    requires Valid(s) && |s.words| > 0
    ensures (forall j :: 0 <= j < |s.words| ==> ClearScreenMemset(s, color).words[j] == color)
        <==> Byte(color, 1) == Byte(color, 0) && Byte(color, 2) == Byte(color, 0) && Byte(color, 3) == Byte(color, 0)
  {
    var t := ClearScreenMemset(s, color);
    if Byte(color, 1) == Byte(color, 0) && Byte(color, 2) == Byte(color, 0) && Byte(color, 3) == Byte(color, 0) {
      PackOfBytes(color);
    } else {
      assert Byte(t.words[0], 1) == Byte(color, 0);
      assert Byte(t.words[0], 2) == Byte(color, 0);
      assert Byte(t.words[0], 3) == Byte(color, 0);
    }
  }

  /**
   * DrawingSurface.h `clearScreen`: stores the full colour word into each of
   * the `pitch * h / 4` words, padding included.
   */
  method ClearScreenWords(s: Surface, color: uint32) returns (t: Surface)
    requires Valid(s)
    ensures Valid(t) && SameShape(s, t)
    ensures forall j :: 0 <= j < |t.words| ==> t.words[j] == color
  {
    var size := s.pitch * s.h / 4;
    var ptr := 0;
    var words := s.words;
    while ptr < size
      invariant 0 <= ptr <= size == |words| == |s.words|
      invariant forall j :: 0 <= j < ptr ==> words[j] == color
    {
      words := words[ptr := color];
      ptr := ptr + 1;
    }
    t := s.(words := words);
  }

  /** After the word fill, every in-range pixel reads back as the colour. */
  lemma ClearScreenPixels(s: Surface, color: uint32, x: uint32, y: uint32, d: uint32)
    requires Valid(s) && InRange(s, x, y)
    requires forall j :: 0 <= j < |s.words| ==> s.words[j] == color
    ensures GetPixel(s, x, y, d) == color
  {
    OffsetInside(s, x, y);
  }

  /** Words the sweep has not reached still hold their original values. */
  predicate Unreached(s: Surface, cur: Surface, x: int, y: int) {
    Valid(cur) && SameShape(s, cur)
    && forall j :: 0 <= j < |cur.words| && !Written(s, j, x, y) ==> cur.words[j] == s.words[j]
  }

  /**
   * Writing pixel (x, y) moves the sweep one step on: every word the sweep at
   * (x + 1, y) has not reached is still original, and pixel (x, y) itself
   * still held its original word when it was read.
   */
  lemma WriteStep(s: Surface, cur: Surface, x: uint32, y: uint32, v: uint32)
    requires Valid(s) && Unreached(s, cur, x, y) && x < s.w && y < s.h
    ensures Unreached(s, SetPixel(cur, x, y, v), x + 1, y)
    ensures GetPixel(cur, x, y) == GetPixel(s, x, y)
  {
    var t := SetPixel(cur, x, y, v);
    WrittenPixel(s, x, y, x + 1, y);
    WrittenPixel(s, x, y, x, y);
    OffsetInside(s, x, y);
    forall j | 0 <= j < |t.words| && !Written(s, j, x + 1, y)
      ensures t.words[j] == s.words[j]
    {
      assert !Written(s, j, x, y);
      SetPixelWords(cur, x, y, v, j);
    }
  }

  /** A pixel the sweep has not reached reads as in the original surface, with any default. */
  lemma ReadUnreached(s: Surface, cur: Surface, x: int, y: int, nx: uint32, ny: uint32, d: uint32)
    requires Valid(s) && Unreached(s, cur, x, y)
    requires !(InRange(s, nx, ny) && Before(nx, ny, x, y))
    ensures GetPixel(cur, nx, ny, d) == GetPixel(s, nx, ny, d)
  {
    if InRange(s, nx, ny) {
      WrittenPixel(s, nx, ny, x, y);
      OffsetInside(s, nx, ny);
    }
  }

  /** At the end of a row the sweep continues at the start of the next one. */
  lemma NextRow(s: Surface, cur: Surface, y: int)
    requires Valid(s) && Unreached(s, cur, s.w, y)
    ensures Unreached(s, cur, 0, y + 1)
  {
    forall j | 0 <= j < |cur.words| && !Written(s, j, 0, y + 1)
      ensures cur.words[j] == s.words[j]
    {
      assert !Written(s, j, s.w, y);
    }
  }

  /** Once the sweep has passed the last row, only padding words are still original. */
  lemma SweepDone(s: Surface, cur: Surface)
    requires Valid(s) && Unreached(s, cur, 0, s.h)
    ensures forall j :: 0 <= j < |cur.words| && !PixelWord(s, j) ==> cur.words[j] == s.words[j]
  {
  }

  /**
   * The neighbour an in-place sweep reads for pixel (x, y): `(x - moveX,
   * y - moveY)` in unsigned 32-bit arithmetic, so a negative coordinate
   * wraps past `w`/`h` and reads as `outside`. The buffer is updated in
   * place, so a neighbour that the row-major sweep has already passed reads
   * as its new value (from `t`), any other as its original one (from `s`).
   */
  function Neighbour(s: Surface, t: Surface, outside: uint32, dx: int32, dy: int32, x: uint32, y: uint32): uint32
    requires Valid(s) && Valid(t)
  {
    var nx, ny := Wrap32(x - dx), Wrap32(y - dy);
    if Before(nx, ny, x, y) then GetPixel(t, nx, ny, outside)
    else GetPixel(s, nx, ny, outside)
  }

  /** Every pixel the sweep has passed holds `f` of its original word and of its neighbour as read. */
  predicate Swept(s: Surface, cur: Surface, f: (uint32, uint32) -> uint32, outside: uint32,
                  dx: int32, dy: int32, x: int, y: int) {
    Valid(s) && Valid(cur) && SameShape(s, cur)
    && forall x': uint32, y': uint32 :: InRange(s, x', y') && Before(x', y', x, y)
         ==> GetPixel(cur, x', y') == f(GetPixel(s, x', y'), Neighbour(s, cur, outside, dx, dy, x', y'))
  }

  /**
   * The loop shared by `moveScreen` and `dimScreenWeirdly`: for y in [0, h),
   * for x in [0, w), read pixel (x, y) and its neighbour
   * `(x - dx, y - dy)` (`outside` when out of range) and store `f` of the two
   * into pixel (x, y), in place. Padding words are left alone.
   */
  method Sweep(s: Surface, f: (uint32, uint32) -> uint32, outside: uint32, dx: int32, dy: int32)
    returns (t: Surface)
    requires Valid(s)
    ensures Valid(t) && SameShape(s, t)
    ensures forall x: uint32, y: uint32 :: InRange(s, x, y)
              ==> GetPixel(t, x, y) == f(GetPixel(s, x, y), Neighbour(s, t, outside, dx, dy, x, y))
    ensures forall j :: 0 <= j < |t.words| && !PixelWord(s, j) ==> t.words[j] == s.words[j]
  {
    var cur := s;
    var y: uint32 := 0;
    while y < s.h
      invariant y <= s.h
      invariant Unreached(s, cur, 0, y) && Swept(s, cur, f, outside, dx, dy, 0, y)
    {
      var x: uint32 := 0;
      while x < s.w
        invariant x <= s.w
        invariant Unreached(s, cur, x, y) && Swept(s, cur, f, outside, dx, dy, x, y)
      {
        var pixel1 := GetPixel(cur, x, y);
        var pixel2 := GetPixel(cur, Wrap32(x - dx), Wrap32(y - dy), outside);
        SweepStep(s, cur, f, outside, dx, dy, x, y, pixel1, pixel2);
        cur := SetPixel(cur, x, y, f(pixel1, pixel2));
        x := x + 1;
      }
      NextRow(s, cur, y);
      y := y + 1;
    }
    SweepDone(s, cur);
    t := cur;
  }

  /** One step of the sweep keeps both sweep invariants. */
  lemma SweepStep(s: Surface, cur: Surface, f: (uint32, uint32) -> uint32, outside: uint32,
                  dx: int32, dy: int32, x: uint32, y: uint32, pixel1: uint32, pixel2: uint32)
    requires Valid(s) && x < s.w && y < s.h
    requires Unreached(s, cur, x, y) && Swept(s, cur, f, outside, dx, dy, x, y)
    requires pixel1 == GetPixel(cur, x, y)
    requires pixel2 == GetPixel(cur, Wrap32(x - dx), Wrap32(y - dy), outside)
    ensures Unreached(s, SetPixel(cur, x, y, f(pixel1, pixel2)), x + 1, y)
    ensures Swept(s, SetPixel(cur, x, y, f(pixel1, pixel2)), f, outside, dx, dy, x + 1, y)
  {
    var v := f(pixel1, pixel2);
    var t := SetPixel(cur, x, y, v);
    WriteStep(s, cur, x, y, v);
    NewPixel(s, cur, f, outside, dx, dy, x, y, pixel1, pixel2);
    forall x': uint32, y': uint32 | InRange(s, x', y') && Before(x', y', x, y)
      ensures GetPixel(t, x', y') == f(GetPixel(s, x', y'), Neighbour(s, t, outside, dx, dy, x', y'))
    {
      OldPixel(s, cur, f, outside, dx, dy, x, y, v, x', y');
    }
  }

  /** The pixel a sweep step writes satisfies the sweep invariant. */
  lemma NewPixel(s: Surface, cur: Surface, f: (uint32, uint32) -> uint32, outside: uint32,
                 dx: int32, dy: int32, x: uint32, y: uint32, pixel1: uint32, pixel2: uint32)
    requires Valid(s) && x < s.w && y < s.h
    requires Unreached(s, cur, x, y) && Swept(s, cur, f, outside, dx, dy, x, y)
    requires pixel1 == GetPixel(cur, x, y)
    requires pixel2 == GetPixel(cur, Wrap32(x - dx), Wrap32(y - dy), outside)
    ensures GetPixel(SetPixel(cur, x, y, f(pixel1, pixel2)), x, y)
         == f(GetPixel(s, x, y), Neighbour(s, SetPixel(cur, x, y, f(pixel1, pixel2)), outside, dx, dy, x, y))
  {
    var v := f(pixel1, pixel2);
    WriteStep(s, cur, x, y, v);
    var nx, ny := Wrap32(x - dx), Wrap32(y - dy);
    if Before(nx, ny, x, y) {
      SetPixelOther(cur, x, y, v, nx, ny, outside);
    } else {
      ReadUnreached(s, cur, x, y, nx, ny, outside);
    }
  }

  /** A pixel the sweep passed earlier, and the neighbour it read, are not touched by a later step. */
  lemma OldPixel(s: Surface, cur: Surface, f: (uint32, uint32) -> uint32, outside: uint32,
                 dx: int32, dy: int32, x: uint32, y: uint32, v: uint32, x': uint32, y': uint32)
    requires Valid(s) && Swept(s, cur, f, outside, dx, dy, x, y)
    requires InRange(s, x', y') && Before(x', y', x, y)
    ensures GetPixel(SetPixel(cur, x, y, v), x', y')
         == f(GetPixel(s, x', y'), Neighbour(s, SetPixel(cur, x, y, v), outside, dx, dy, x', y'))
  {
    SetPixelOther(cur, x, y, v, x', y', 0);
    var nx', ny' := Wrap32(x' - dx), Wrap32(y' - dy);
    if Before(nx', ny', x', y') {
      SetPixelOther(cur, x, y, v, nx', ny', outside);
    }
  }

  /**
   * `dimScreenWeirdly`: every pixel is replaced by `blendWrong(pixel)` with
   * its default arguments, row by row. Padding words are left alone.
   */
  method DimScreen(s: Surface) returns (t: Surface)
    requires Valid(s)
    ensures Valid(t) && SameShape(s, t)
    ensures forall x: uint32, y: uint32 :: InRange(s, x, y) ==> GetPixel(t, x, y) == BlendWrong(GetPixel(s, x, y))
    ensures forall j :: 0 <= j < |t.words| && !PixelWord(s, j) ==> t.words[j] == s.words[j]
  {
    t := Sweep(s, (pixel, _) => BlendWrong(pixel), 0, 0, 0);
  }

  /**
   * The two `moveScreen` variants. Drawing.h blends each pixel with its
   * neighbour at `alpha`, reading 0 outside the surface. DrawingSurface.h
   * reads `fill` outside the surface and blends the result again towards
   * `fill` at alpha 1. Both default `alpha` to 16, as the C++ signatures do.
   */
  datatype MoveStyle = Plain(alpha: uint16 := 16) | Faded(fill: uint32, alpha: uint16 := 16)

  /** What `getPixel` returns for a neighbour outside the surface. */
  function Outside(style: MoveStyle): uint32 {
    match style
    case Plain(_) => 0
    case Faded(fill, _) => fill
  }

  /** The word `moveScreen` stores for a pixel `p1` whose neighbour reads `p2`. */
  function Combine(style: MoveStyle, p1: uint32, p2: uint32): (r: uint32)
    ensures Alpha(r) == 0xff
  {
    match style
    case Plain(alpha) => Blend(p1, p2, alpha)
    case Faded(fill, alpha) => Blend(Blend(p1, p2, alpha), fill, 1)
  }

  /**
   * `moveScreen(moveX, moveY, ...)`: a row-major, in-place sweep that stores
   * into each pixel the combination of its original word with its
   * neighbour's word as the sweep finds it. Padding words are left alone.
   */
  method MoveScreen(s: Surface, dx: int32, dy: int32, style: MoveStyle) returns (t: Surface)
    requires Valid(s)
    ensures Valid(t) && SameShape(s, t)
    ensures forall x: uint32, y: uint32 :: InRange(s, x, y)
              ==> GetPixel(t, x, y) == Combine(style, GetPixel(s, x, y), Neighbour(s, t, Outside(style), dx, dy, x, y))
    ensures forall j :: 0 <= j < |t.words| && !PixelWord(s, j) ==> t.words[j] == s.words[j]
  {
    t := Sweep(s, (pixel1, pixel2) => Combine(style, pixel1, pixel2), Outside(style), dx, dy);
  }

  /** A neighbour coordinate below a bound of at most 2^31 is the plain difference: negative ones wrap past it. */
  lemma NeighbourCoordinate(bound: nat, x: uint32, d: int32)
    requires bound <= 0x8000_0000 && x < bound && Wrap32(x - d) < bound
    ensures Wrap32(x - d) == x - d
  {
  }

  /**
   * For a move with `moveX, moveY >= 0`, not both 0, every neighbour inside
   * the surface is one the sweep has already updated.
   */
  lemma ForwardMoveReadsUpdated(s: Surface, dx: int32, dy: int32, x: uint32, y: uint32)
    requires Valid(s) && InRange(s, x, y)
    requires dx >= 0 && dy >= 0 && (dx, dy) != (0, 0)
    requires InRange(s, Wrap32(x - dx), Wrap32(y - dy))
    ensures Before(Wrap32(x - dx), Wrap32(y - dy), x, y)
  {
    NeighbourCoordinate(s.w, x, dx);
    NeighbourCoordinate(s.h, y, dy);
  }

  /** With no displacement the neighbour is the pixel itself, read before it is written. */
  lemma NoShift(s: Surface, t: Surface, x: uint32, y: uint32)
    requires Valid(s) && Valid(t) && InRange(s, x, y)
    ensures Neighbour(s, t, 0, 0, 0, x, y) == GetPixel(s, x, y)
  {
    NeighbourCoordinate(s.w, x, 0);
    NeighbourCoordinate(s.h, y, 0);
  }

  /**
   * With no displacement, Drawing.h's `moveScreen` only makes each pixel
   * opaque: the neighbour is the pixel itself, still unchanged when read.
   */
  lemma MoveInPlaceIsOpaque(s: Surface, t: Surface, alpha: uint16, x: uint32, y: uint32)
    requires Valid(s) && Valid(t) && InRange(s, x, y) && alpha <= 0x100
    requires GetPixel(t, x, y) == Combine(Plain(alpha), GetPixel(s, x, y), Neighbour(s, t, 0, 0, 0, x, y))
    ensures GetPixel(t, x, y) == Opaque(GetPixel(s, x, y))
  {
    var p := GetPixel(s, x, y);
    NoShift(s, t, x, y);
    BlendSelf(p, alpha);
  }
}
