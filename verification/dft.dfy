/**
 * `DftProcessor`: the per-window spectrum of a stereo 16-bit PCM buffer and
 * the small helpers that post-process it.
 *
 * Doubles are modelled as reals. The transcendental functions the C++ code
 * calls (`cos`, `sin`, `sqrt`, `log`) are not defined here: they are fields
 * of a `Maths` record the caller supplies, so every statement below holds for
 * whatever those functions return, except where a lemma names the one fact
 * about them it needs.
 */
module Dft {
  import opened Bits

  /** The transcendental functions of `<math.h>` the processor calls. */
  datatype Maths = Maths(cos: real -> real, sin: real -> real, sqrt: real -> real, ln: real -> real)

  /** `M_PI`. */
  const PI: real := 3.141592653589793

  /** `DECIBEL_CUTOFF`: the floor of every level the processor reports. */
  const DECIBEL_CUTOFF: real := -100.0

  function Max(a: real, b: real): real { if a >= b then a else b }
  function Min(a: real, b: real): real { if a <= b then a else b }

  /** `TWENTY_OVER_LOG_10`. */
  function TwentyOverLog10(m: Maths): real
    requires m.ln(10.0) != 0.0
  {
    20.0 / m.ln(10.0)
  }

  /**
   * `toDecibels(sample)`: `fmax(-100, log(sample) * 20 / log(10))`. For
   * `sample <= 0` the logarithm is minus infinity or NaN and `fmax` returns
   * the cutoff.
   */
  function ToDecibels(m: Maths, sample: real): (r: real)
    requires m.ln(10.0) != 0.0
    ensures r >= DECIBEL_CUTOFF
    ensures sample <= 0.0 ==> r == DECIBEL_CUTOFF
    ensures sample > 0.0 ==> r == Max(DECIBEL_CUTOFF, m.ln(sample) * TwentyOverLog10(m))
  {
    if sample <= 0.0 then DECIBEL_CUTOFF
    else Max(DECIBEL_CUTOFF, m.ln(sample) * TwentyOverLog10(m))
  }

  /** The logarithm is non-decreasing on the positive reals and `log(10) > 0`. */
  ghost predicate LogMonotone(m: Maths) {
    m.ln(10.0) > 0.0 && forall a: real, b: real :: 0.0 < a <= b ==> m.ln(a) <= m.ln(b)
  }

  /** With a monotone logarithm, louder samples never read as fewer decibels. */
  lemma ToDecibelsMonotone(m: Maths, a: real, b: real)
    requires LogMonotone(m) && a <= b
    ensures ToDecibels(m, a) <= ToDecibels(m, b)
  {
    if a > 0.0 {
      assert m.ln(a) <= m.ln(b);
      var t := TwentyOverLog10(m);
      assert t > 0.0;
      MulMonoReal(m.ln(a), m.ln(b), t);
    }
  }

  lemma MulMonoReal(x: real, y: real, t: real)
    requires x <= y && t >= 0.0
    ensures x * t <= y * t
  {
    assert y * t - x * t == (y - x) * t;
  }

  /**
   * The processor: `inSamplesPerIteration` frames per window,
   * `outSamplesPerIteration = in / 2 + 1` bins, and the scratch vectors
   * `REX`, `IMX` (one entry per bin) and `samples` (one per frame). The two
   * sizes are `const`: no operation below changes them.
   */
  datatype Processor = Processor(inSamples: uint32, outSamples: uint32,
                                 rex: seq<real>, imx: seq<real>, samples: seq<real>)

  function OutSamples(n: uint32): uint32 {
    n / 2 + 1
  }

  predicate Valid(p: Processor) {
    p.outSamples == OutSamples(p.inSamples)
    && |p.rex| == p.outSamples && |p.imx| == p.outSamples && |p.samples| == p.inSamples
  }

  /** `DftProcessor(samplesPerIteration)`: the vectors start zero-filled. */
  function NewProcessor(n: uint32): (p: Processor)
    ensures Valid(p) && p.inSamples == n
    ensures 2 * (p.outSamples - 1) <= n <= 2 * (p.outSamples - 1) + 1
    ensures forall k :: 0 <= k < p.outSamples ==> p.rex[k] == 0.0 && p.imx[k] == 0.0
  {
    Processor(n, OutSamples(n), seq(OutSamples(n), _ => 0.0), seq(OutSamples(n), _ => 0.0), seq(n, _ => 0.0))
  }

  /**
   * The mono sample of one stereo frame: `L / 65536 + R / 65536`. Every
   * frame mixes to a value in [-1, 1).
   */
  function Mix(left: int16, right: int16): (s: real)
    ensures -1.0 <= s < 1.0
    ensures left == right ==> s == left as real / 32768.0
  {
    left as real / 65536.0 + right as real / 65536.0
  }

  /** The flat-top window coefficient for frame `k` of `n`. */
  function Window(m: Maths, k: nat, n: nat): real
    requires n > 0
  {
    var angle := 2.0 * PI * k as real / n as real;
    0.3635819 - 0.4891775 * m.cos(angle) + 0.1365995 * m.cos(angle * 2.0) - 0.0106411 * m.cos(angle * 3.0)
  }

  /** `samples[k]`: frame `k` of the interleaved input, mixed and optionally windowed. */
  function SampleAt(m: Maths, data: seq<int16>, n: nat, k: nat, useWindow: bool): real
    requires k < n && 2 * n <= |data|
  {
    var sample := Mix(data[2 * k], data[2 * k + 1]);
    if useWindow then sample * Window(m, k, n) else sample
  }

  /** `2 * M_PI * k * i / n`, the phase of frame `i` for bin `k`. */
  function Angle(k: nat, i: nat, n: nat): real
    requires n > 0
  {
    2.0 * PI * k as real * i as real / n as real
  }

  /** The real part of bin `k` accumulated over the first `i` samples, summed in index order. */
  function CorrRe(m: Maths, samples: seq<real>, k: nat, i: nat): real
    requires i <= |samples|
  {
    if i == 0 then 0.0
    else CorrRe(m, samples, k, i - 1) + samples[i - 1] * m.cos(Angle(k, i - 1, |samples|))
  }

  /** The imaginary part of bin `k` accumulated over the first `i` samples, summed in index order. */
  function CorrIm(m: Maths, samples: seq<real>, k: nat, i: nat): real
    requires i <= |samples|
  {
    if i == 0 then 0.0
    else CorrIm(m, samples, k, i - 1) + samples[i - 1] * m.sin(Angle(k, i - 1, |samples|))
  }

  /**
   * The optional conversion to frequency-domain amplitudes: the real part of
   * the first and last bins divided by `n`, the others by the integer `n / 2`;
   * the imaginary part negated and divided by `n / 2`.
   */
  function NormRe(re: real, n: nat, outN: nat, k: nat, normalize: bool): real
    requires normalize ==> n >= 2
  {
    if !normalize then re
    else if k == 0 || k == outN - 1 then re / n as real
    else re / (n / 2) as real
  }

  function NormIm(im: real, n: nat, normalize: bool): real
    requires normalize ==> n >= 2
  {
    if normalize then -im / (n / 2) as real else im
  }

  /** The modulus of bin `k` before the decibel conversion. */
  function Magnitude(m: Maths, samples: seq<real>, outN: nat, k: nat, normalize: bool): real
    requires normalize ==> |samples| >= 2
  {
    var n := |samples|;
    var re := NormRe(CorrRe(m, samples, k, n), n, outN, k, normalize);
    var im := NormIm(CorrIm(m, samples, k, n), n, normalize);
    m.sqrt(Square(re) + Square(im))
  }

  /**
   * The mixed (and optionally windowed) samples of the first `n` frames of
   * `data`: sample `k` comes from words `2k` and `2k + 1` alone, and without
   * the window every sample lies in [-1, 1).
   */
  function Samples(m: Maths, data: seq<int16>, n: nat, useWindow: bool): (s: seq<real>)
    requires 2 * n <= |data|
    ensures |s| == n
    ensures forall k :: 0 <= k < n ==> s[k] == (if useWindow then Window(m, k, n) else 1.0) * Mix(data[2 * k], data[2 * k + 1])
    ensures !useWindow ==> forall k :: 0 <= k < n ==> -1.0 <= s[k] < 1.0
  {
    seq(n, k requires 0 <= k < n => SampleAt(m, data, n, k, useWindow))
  }

  /** Only the first `2n` words of the buffer are read: the rest may be anything. */
  lemma SamplesReadPrefix(m: Maths, data: seq<int16>, rest: seq<int16>, n: nat, useWindow: bool)
    requires 2 * n <= |data|
    ensures Samples(m, data, n, useWindow) == Samples(m, data[..2 * n] + rest, n, useWindow)
  {
    var s, t := Samples(m, data, n, useWindow), Samples(m, data[..2 * n] + rest, n, useWindow);
    forall k | 0 <= k < n
      ensures s[k] == t[k]
    {
      assert (data[..2 * n] + rest)[2 * k] == data[2 * k];
      assert (data[..2 * n] + rest)[2 * k + 1] == data[2 * k + 1];
    }
  }

  /**
   * What `processDFT(inData, outData, normalize, useWindow)` writes into
   * `outData`: one decibel level per bin, computed from the first `n` frames
   * of `data` alone. Every level is at least the -100 dB cutoff.
   */
  function Spectrum(m: Maths, data: seq<int16>, n: uint32, normalize: bool, useWindow: bool): (r: seq<real>)
    requires m.ln(10.0) != 0.0 && 2 * n <= |data| && (normalize ==> n >= 2)
    ensures |r| == OutSamples(n)
    ensures forall k :: 0 <= k < |r| ==> r[k] >= DECIBEL_CUTOFF
  {
    var s := Samples(m, data, n, useWindow);
    seq(OutSamples(n), k requires 0 <= k < OutSamples(n) => ToDecibels(m, Magnitude(m, s, OutSamples(n), k, normalize)))
  }

  /**
   * `processDFT`: zero `REX`/`IMX`, fill `samples`, correlate every bin with
   * a cosine and a sine, optionally normalise, take the modulus, then convert
   * every bin to decibels. Because the accumulators are re-zeroed first, the
   * output is `Spectrum` of the input whatever the scratch vectors held, and
   * whatever `outData` held before.
   */
  method ProcessDft(m: Maths, p: Processor, data: seq<int16>, outData: seq<real>,
                    normalize: bool := false, useWindow: bool := false)
    returns (p': Processor, out: seq<real>)
    requires Valid(p) && m.ln(10.0) != 0.0 && 2 * p.inSamples <= |data| && |outData| == p.outSamples
    requires normalize ==> p.inSamples >= 2
    ensures Valid(p') && p'.inSamples == p.inSamples && p'.outSamples == p.outSamples
    ensures out == Spectrum(m, data, p.inSamples, normalize, useWindow)
  {
    var rex := ZeroFill(p.rex);
    var imx := ZeroFill(p.imx);
    var samples := FillSamples(m, data, p.samples, useWindow);
    var mags;
    rex, imx, mags := Correlate(m, samples, rex, imx, outData, normalize);
    out := ToDecibelsAll(m, samples, mags, normalize);
    p' := Processor(p.inSamples, p.outSamples, rex, imx, samples);
  }

  /** The opening loop of `processDFT`: every accumulator is set to 0. */
  method ZeroFill(acc: seq<real>) returns (r: seq<real>)
    ensures |r| == |acc| && forall j :: 0 <= j < |r| ==> r[j] == 0.0
  {
    r := acc;
    var k := 0;
    while k < |r|
      invariant 0 <= k <= |r| == |acc|
      invariant forall j :: 0 <= j < k ==> r[j] == 0.0
    {
      r := r[k := 0.0];
      k := k + 1;
    }
  }

  /** The second loop of `processDFT`: `samples[k]` becomes frame `k` mixed, windowed when asked. */
  method FillSamples(m: Maths, data: seq<int16>, samples: seq<real>, useWindow: bool) returns (r: seq<real>)
    requires 2 * |samples| <= |data|
    ensures r == Samples(m, data, |samples|, useWindow)
  {
    var n := |samples|;
    r := samples;
    var k := 0;
    while k < n
      invariant 0 <= k <= n == |r|
      invariant forall j :: 0 <= j < k ==> r[j] == SampleAt(m, data, n, j, useWindow)
    {
      r := r[k := SampleAt(m, data, n, k, useWindow)];
      k := k + 1;
    }
  }

  /**
   * The correlation loop of `processDFT`: bin `k` accumulates into
   * `REX[k]`/`IMX[k]`, is optionally normalised, and its modulus is written
   * to `outData[k]`. Accumulators that start at 0 give each bin's
   * `Magnitude`.
   */
  method Correlate(m: Maths, samples: seq<real>, rex: seq<real>, imx: seq<real>, outData: seq<real>, normalize: bool)
    returns (rex': seq<real>, imx': seq<real>, out: seq<real>)
    requires |rex| == |imx| == |outData| && (normalize ==> |samples| >= 2)
    requires forall j :: 0 <= j < |rex| ==> rex[j] == 0.0 && imx[j] == 0.0
    ensures |rex'| == |imx'| == |out| == |rex|
    ensures forall j :: 0 <= j < |out| ==> out[j] == Magnitude(m, samples, |rex|, j, normalize)
  {
    var outN := |rex|;
    rex', imx', out := rex, imx, outData;
    var k := 0;
    while k < outN
      invariant 0 <= k <= outN && |rex'| == outN && |imx'| == outN && |out| == outN
      invariant forall j :: k <= j < outN ==> rex'[j] == 0.0 && imx'[j] == 0.0
      invariant forall j :: 0 <= j < k ==> out[j] == Magnitude(m, samples, outN, j, normalize)
    {
      var re, im := Accumulate(m, samples, k, rex'[k], imx'[k]);
      var n := |samples|;
      if normalize {
        if k == 0 || k == outN - 1 {
          re := re / n as real;
        } else {
          re := re / (n / 2) as real;
        }
        im := -im / (n / 2) as real;
      }
      rex' := rex'[k := re];
      imx' := imx'[k := im];
      out := out[k := m.sqrt(Square(re) + Square(im))];
      k := k + 1;
    }
  }

  function Square(x: real): real { x * x }

  /**
   * The inner loop of `processDFT` for bin `k`: `REX[k] += samples[i] *
   * cos(...)` and `IMX[k] += samples[i] * sin(...)` over every sample. The
   * sums start from whatever the accumulators held, which is why they are
   * zeroed first.
   */
  method Accumulate(m: Maths, samples: seq<real>, k: nat, re0: real, im0: real) returns (re: real, im: real)
    ensures re == re0 + CorrRe(m, samples, k, |samples|)
    ensures im == im0 + CorrIm(m, samples, k, |samples|)
  {
    var n := |samples|;
    re, im := re0, im0;
    var i := 0;
    while i < n
      invariant 0 <= i <= n
      invariant re == re0 + CorrRe(m, samples, k, i) && im == im0 + CorrIm(m, samples, k, i)
    {
      re := re + samples[i] * m.cos(Angle(k, i, n));
      im := im + samples[i] * m.sin(Angle(k, i, n));
      i := i + 1;
    }
  }

  /** The last loop of `processDFT`: every bin's modulus becomes a level in decibels. */
  method ToDecibelsAll(m: Maths, samples: seq<real>, mags: seq<real>, normalize: bool) returns (out: seq<real>)
    requires m.ln(10.0) != 0.0 && (normalize ==> |samples| >= 2)
    requires forall j :: 0 <= j < |mags| ==> mags[j] == Magnitude(m, samples, |mags|, j, normalize)
    ensures |out| == |mags|
    ensures forall j :: 0 <= j < |out| ==> out[j] == ToDecibels(m, Magnitude(m, samples, |mags|, j, normalize))
  {
    out := mags;
    var k := 0;
    while k < |mags|
      invariant 0 <= k <= |mags| == |out|
      invariant forall j :: 0 <= j < k ==> out[j] == ToDecibels(m, Magnitude(m, samples, |mags|, j, normalize))
      invariant forall j :: k <= j < |mags| ==> out[j] == mags[j]
    {
      out := out[k := ToDecibels(m, out[k])];
      k := k + 1;
    }
  }

  /**
   * `processVolume(inData)`: the decibel level of the root mean square of
   * `inSamplesPerIteration` samples. The loop reads `inData[0]` and
   * `inData[1]` on every iteration, so the result is the level of the first
   * frame alone; the rest of the window is never read. With an empty
   * window the mean is `0 / 0`, a NaN that `sqrt` and `log` pass on and
   * `fmax` drops, so the result is the cutoff.
   */
  method ProcessVolume(m: Maths, p: Processor, data: seq<int16>) returns (r: real)
    requires Valid(p) && m.ln(10.0) != 0.0 && 2 * p.inSamples <= |data|
    ensures r >= DECIBEL_CUTOFF
    ensures p.inSamples == 0 ==> r == DECIBEL_CUTOFF
    ensures p.inSamples >= 1 ==> r == FirstFrameLevel(m, data)
  {
    var samples := p.inSamples;
    if samples == 0 {
      return DECIBEL_CUTOFF;
    }
    var sum := 0.0;
    var k := 0;
    ghost var s := Mix(data[0], data[1]);
    while k < samples
      invariant 0 <= k <= samples
      invariant sum == k as real * Square(s)
    {
      var sample := Mix(data[0], data[1]);
      sum := sum + Square(sample);
      k := k + 1;
    }
    var mean := sum / samples as real;
    DivCancel(Square(s), samples as real);
    assert mean == Square(s);
    var linearVolume := m.sqrt(mean);
    r := ToDecibels(m, linearVolume);
  }

  lemma DivCancel(x: real, n: real)
    requires n > 0.0
    ensures (n * x) / n == x
  {
    assert (n * x) / n * n == n * x;
  }

  /** The decibel level of the first frame's mixed sample, `20 log10 |s|` floored at -100 dB. */
  function FirstFrameLevel(m: Maths, data: seq<int16>): real
    requires m.ln(10.0) != 0.0 && |data| >= 2
  {
    ToDecibels(m, m.sqrt(Square(Mix(data[0], data[1]))))
  }

  /** Two windows that agree on their first frame have the same volume, whatever follows. */
  lemma VolumeReadsFirstFrameOnly(m: Maths, a: seq<int16>, b: seq<int16>)
    requires m.ln(10.0) != 0.0 && |a| >= 2 && |b| >= 2 && a[0] == b[0] && a[1] == b[1]
    ensures FirstFrameLevel(m, a) == FirstFrameLevel(m, b)
  {
  }

  /**
   * The table index of `getDftPointInterpolated` in linear mode:
   * `unsigned(position * (out - 1))`, which lies in [0, out - 1] for a
   * position in [0, 1].
   */
  function InterpolationIndex(outN: nat, position: real): (i: nat)
    requires outN >= 1 && 0.0 <= position <= 1.0
    ensures i <= outN - 1
    ensures i as real <= FractionalIndex(outN, position) < i as real + 1.0
  {
    FractionalIndex(outN, position).Floor
  }

  /** `frequencyEquivalentInFft` in linear mode: `position * (out - 1)`, from bin 0 to bin `out - 1`. */
  function FractionalIndex(outN: nat, position: real): (f: real)
    requires outN >= 1 && 0.0 <= position <= 1.0
    ensures 0.0 <= f <= (outN - 1) as real
    ensures position == 0.0 ==> f == 0.0
    ensures position == 1.0 ==> f == (outN - 1) as real
  {
    MulAtMostOne(position, (outN - 1) as real);
    position * (outN - 1) as real
  }

  lemma MulAtMostOne(p: real, x: real)
    requires 0.0 <= p <= 1.0 && x >= 0.0
    ensures 0.0 <= p * x <= x
  {
    assert x - p * x == (1.0 - p) * x;
    MulNonnegReal(1.0 - p, x);
    MulNonnegReal(p, x);
  }

  lemma MulNonnegReal(a: real, b: real)
    requires a >= 0.0 && b >= 0.0
    ensures a * b >= 0.0
  {
  }

  /**
   * `getDftPointInterpolated(data, position, ..., false)`: the table read at
   * fractional index `position * (out - 1)`, interpolated linearly between
   * the two neighbouring bins; the last bin is returned as is.
   */
  function Interpolate(p: Processor, data: seq<real>, position: real): (r: real)
    requires Valid(p) && |data| == p.outSamples && 0.0 <= position <= 1.0
    ensures position == 0.0 ==> r == data[0]
    ensures position == 1.0 ==> r == data[p.outSamples - 1]
  {
    var f := FractionalIndex(p.outSamples, position);
    var i := InterpolationIndex(p.outSamples, position);
    if i >= p.outSamples - 1 then data[i]
    else
      var frac := f - f.Floor as real;
      data[i] * (1.0 - frac) + data[i + 1] * frac
  }

  /**
   * Between two bins the interpolated value is a convex combination of them,
   * so it lies between the two; on a bin's exact position it is that bin.
   */
  lemma InterpolateBetween(p: Processor, data: seq<real>, position: real)
    requires Valid(p) && |data| == p.outSamples && 0.0 <= position <= 1.0
    ensures var i := InterpolationIndex(p.outSamples, position);
            var r := Interpolate(p, data, position);
            (i < p.outSamples - 1 ==> Min(data[i], data[i + 1]) <= r <= Max(data[i], data[i + 1]))
            && (FractionalIndex(p.outSamples, position) == i as real ==> r == data[i])
  {
    var f := FractionalIndex(p.outSamples, position);
    var i := InterpolationIndex(p.outSamples, position);
    if i < p.outSamples - 1 {
      var frac := f - f.Floor as real;
      assert 0.0 <= frac < 1.0;
      ConvexBetween(data[i], data[i + 1], frac);
    }
  }

  lemma {:induction false} ConvexBetween(a: real, b: real, t: real)
    requires 0.0 <= t <= 1.0
    ensures Min(a, b) <= a * (1.0 - t) + b * t <= Max(a, b)
  {
    var r := a * (1.0 - t) + b * t;
    assert r == a + (b - a) * t;
    if a <= b {
      MulAtMostOne(t, b - a);
    } else {
      MulAtMostOne(t, a - b);
      assert (b - a) * t == -((a - b) * t);
    }
  }

  /**
   * `convertPointToDecibels(sample, cutoff)`: `1 - fmin(cutoff, -sample) / cutoff`,
   * the level `sample` (in dB, at most 0) mapped onto [0, 1] with `-cutoff`
   * at 0 and 0 dB at 1. It depends on its two arguments only. For a
   * positive cutoff the result is never negative, it is 0 exactly for levels
   * at or below `-cutoff`, in [0, 1] exactly for levels at most 0 dB and
   * above 1 exactly above it.
   */
  function PointToUnit(sample: real, cutoff: real): (r: real)
    requires cutoff != 0.0
    ensures cutoff > 0.0 ==> r >= 0.0
    ensures cutoff > 0.0 ==> (r == 0.0 <==> sample <= -cutoff)
    ensures cutoff > 0.0 ==> (r <= 1.0 <==> sample <= 0.0)
    ensures cutoff > 0.0 && sample == 0.0 ==> r == 1.0
  {
    if cutoff > 0.0 then UnitScale(sample, cutoff); 1.0 - Min(cutoff, -sample) / cutoff
    else 1.0 - Min(cutoff, -sample) / cutoff
  }

  /** The scale behind `PointToUnit`, for a positive cutoff. */
  lemma UnitScale(sample: real, cutoff: real)
    requires cutoff > 0.0
    ensures var r := 1.0 - Min(cutoff, -sample) / cutoff;
            r >= 0.0 && (r == 0.0 <==> sample <= -cutoff) && (r <= 1.0 <==> sample <= 0.0)
            && (sample == 0.0 ==> r == 1.0)
  {
    assert cutoff / cutoff == 1.0;
    if sample > -cutoff {
      DivMono(-sample, cutoff, cutoff);
      DivSign(-sample, cutoff);
    } else {
      assert Min(cutoff, -sample) == cutoff;
    }
    assert Min(cutoff, -0.0) == 0.0;
  }

  /** Dividing by a positive number keeps the sign. */
  lemma DivSign(a: real, c: real)
    requires c > 0.0
    ensures a / c < 0.0 <==> a < 0.0
    ensures a / c == 0.0 <==> a == 0.0
  {
    var q := a / c;
    assert q * c == a;
    if q < 0.0 {
      assert (-q) * c > 0.0;
    } else if q > 0.0 {
      assert q * c > 0.0;
    }
  }

  lemma MulSign(x: real, c: real)
    requires c > 0.0
    ensures x * c >= 0.0 <==> x >= 0.0
    ensures x * c > 0.0 <==> x > 0.0
  {
    if x < 0.0 {
      assert (-x) * c > 0.0;
    }
  }

  /** Dividing by a positive number is monotone, and strictly so. */
  lemma DivMono(a: real, b: real, c: real)
    requires c > 0.0 && a <= b
    ensures a / c <= b / c
    ensures a < b ==> a / c < b / c
  {
    var qa, qb := a / c, b / c;
    assert qa * c == a && qb * c == b;
    assert (qb - qa) * c == b - a;
    MulSign(qb - qa, c);
  }

  /** For a positive cutoff the mapping never decreases as the level rises. */
  lemma PointToUnitMonotone(a: real, b: real, cutoff: real)
    requires cutoff > 0.0 && a <= b
    ensures PointToUnit(a, cutoff) <= PointToUnit(b, cutoff)
  {
    DivMono(Min(cutoff, -b), Min(cutoff, -a), cutoff);
  }
}
