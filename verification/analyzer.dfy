/**
 * `DftProcessorForWav`: a read cursor over a read-only stereo PCM buffer that
 * feeds successive windows to a `DftProcessor` and keeps a smoothed spectrum.
 *
 * The buffer, its frame count and the processor sizes never change; the
 * cursor `offset` and the three spectra `dftOut`, `nextValues` and `temp`
 * are the only mutable state. Each operation returns the next state.
 */
module Analyzer {
  import opened Bits
  import Dft

  datatype Analyzer = Analyzer(proc: Dft.Processor, wav: seq<int16>, channels: nat,
                               offset: uint32, total: uint32,
                               dftOut: seq<real>, nextValues: seq<real>, temp: seq<real>)

  /**
   * A usable analyzer: stereo data (`processDFT` always reads two samples
   * per frame), `total` frames of two samples in the buffer, the cursor
   * within them, one window beyond the last frame still representable in 32
   * bits, and every spectrum one entry per bin.
   */
  predicate Valid(a: Analyzer) {
    Dft.Valid(a.proc) && a.channels == 2 && 2 * a.total <= |a.wav| <= 2 * a.total + 1
    && a.offset <= a.total && a.total + a.proc.inSamples < 0x1_0000_0000
    && |a.dftOut| == a.proc.outSamples && |a.nextValues| == a.proc.outSamples && |a.temp| == a.proc.outSamples
  }

  /** What never changes between two states of one analyzer. */
  predicate SameSource(a: Analyzer, b: Analyzer) {
    b.proc.inSamples == a.proc.inSamples && b.proc.outSamples == a.proc.outSamples
    && b.wav == a.wav && b.channels == a.channels && b.total == a.total
  }

  /**
   * `DftProcessorForWav(processor, wavBuffer, wavLength, wavSpec)`: the
   * buffer holds `wavLength` bytes of 16-bit samples, so `wavLength / 2 /
   * channels` whole frames; the cursor starts at 0 and the spectra at all
   * zeros.
   */
  function NewAnalyzer(proc: Dft.Processor, wav: seq<int16>, wavLength: uint32, channels: uint8): (a: Analyzer)
    requires Dft.Valid(proc) && channels >= 1 && |wav| == wavLength / 2
    ensures a.offset == 0 && a.total * channels <= |wav| < (a.total + 1) * channels
    ensures |a.dftOut| == proc.outSamples && forall k :: 0 <= k < |a.dftOut| ==> a.dftOut[k] == 0.0
  {
    var zeros := seq(proc.outSamples, _ => 0.0);
    var total := wavLength / 2 / channels;
    FrameCount(|wav|, channels);
    Analyzer(proc, wav, channels, 0, total, zeros, zeros, zeros)
  }

  lemma FrameCount(samples: nat, channels: nat)
    requires channels >= 1
    ensures samples / channels * channels <= samples < (samples / channels + 1) * channels
  {
    var q, r := samples / channels, samples % channels;
    assert samples == q * channels + r;
  }

  /** A stereo analyzer over a buffer that is not near 2^32 frames is usable from the start. */
  lemma NewAnalyzerValid(proc: Dft.Processor, wav: seq<int16>, wavLength: uint32)
    requires Dft.Valid(proc) && |wav| == wavLength / 2 && |wav| / 2 + proc.inSamples < 0x1_0000_0000
    ensures Valid(NewAnalyzer(proc, wav, wavLength, 2))
  {
  }

  /**
   * `wouldOverflowWavFile()`: `waveBufferOffset + inSamplesPerIteration >
   * waveTotalSamples`, the sum taken in 32-bit unsigned arithmetic.
   */
  function WouldOverflow(a: Analyzer): (r: bool)
    ensures a.offset + a.proc.inSamples < 0x1_0000_0000 ==> (r <==> a.offset + a.proc.inSamples > a.total)
    ensures a.offset + a.proc.inSamples >= 0x1_0000_0000 && a.offset + a.proc.inSamples < 0x2_0000_0000
            ==> (r <==> a.offset + a.proc.inSamples - 0x1_0000_0000 > a.total)
  {
    Wrap32(a.offset + a.proc.inSamples) > a.total
  }

  /**
   * In a usable analyzer the sum never wraps, so the check is exactly "the
   * next window runs past the last frame"; when it is false, all of the
   * window's samples lie inside the buffer.
   */
  lemma WouldOverflowExact(a: Analyzer)
    requires Valid(a)
    ensures WouldOverflow(a) <==> a.offset + a.proc.inSamples > a.total
    ensures !WouldOverflow(a) ==> 2 * (a.offset + a.proc.inSamples) <= |a.wav|
  {
  }

  /** The window of a chunk that fits: `wavBuffer + offset * channels`, through the end of the buffer. */
  function WindowAt(a: Analyzer, offset: nat): (w: seq<int16>)
    requires Valid(a) && offset + a.proc.inSamples <= a.total
    ensures 2 * a.proc.inSamples <= |w|
  {
    a.wav[2 * offset..]
  }

  /** The spectrum `processDFT` computes for the window at `offset`, with the default flags. */
  function ChunkSpectrum(m: Dft.Maths, a: Analyzer, offset: nat): (r: seq<real>)
    requires Valid(a) && m.ln(10.0) != 0.0 && offset + a.proc.inSamples <= a.total
    ensures |r| == a.proc.outSamples
  {
    Dft.Spectrum(m, WindowAt(a, offset), a.proc.inSamples, false, false)
  }

  /** The volume `processVolume` reports for the window at `offset`: never below the -100 dB cutoff. */
  function ChunkVolume(m: Dft.Maths, a: Analyzer, offset: nat): (r: real)
    requires Valid(a) && m.ln(10.0) != 0.0 && offset + a.proc.inSamples <= a.total && a.proc.inSamples >= 1
    ensures r >= Dft.DECIBEL_CUTOFF
  {
    Dft.FirstFrameLevel(m, WindowAt(a, offset))
  }

  /**
   * Chunk spectra as a total function of the offset, for the batch loop:
   * windows that would not fit are never processed, and are given the
   * all-zero spectrum here.
   */
  function Spectra(m: Dft.Maths, a: Analyzer): nat -> seq<real> {
    (o: nat) => SpectrumAt(m, a, o)
  }

  function SpectrumAt(m: Dft.Maths, a: Analyzer, o: nat): seq<real> {
    if Valid(a) && m.ln(10.0) != 0.0 && o + a.proc.inSamples <= a.total then ChunkSpectrum(m, a, o)
    else seq(a.proc.outSamples, _ => 0.0)
  }

  /** Chunk volumes as a total function of the offset, for the batch loop. */
  function Volumes(m: Dft.Maths, a: Analyzer): nat -> real {
    (o: nat) => VolumeAt(m, a, o)
  }

  function VolumeAt(m: Dft.Maths, a: Analyzer, o: nat): real {
    if Valid(a) && m.ln(10.0) != 0.0 && o + a.proc.inSamples <= a.total && a.proc.inSamples >= 1
    then ChunkVolume(m, a, o) else Dft.DECIBEL_CUTOFF
  }

  /** `fmax` bin by bin; a bin only `x` has keeps `x`'s value. */
  function PeakMax(x: seq<real>, y: seq<real>): (r: seq<real>)
    ensures |r| == |x|
    ensures forall k :: 0 <= k < |r| && k < |y| ==> x[k] <= r[k] && y[k] <= r[k] && (r[k] == x[k] || r[k] == y[k])
    ensures forall k :: |y| <= k < |r| ==> r[k] == x[k]
  {
    seq(|x|, k requires 0 <= k < |x| => if k < |y| then Dft.Max(x[k], y[k]) else x[k])
  }

  /** The outcome of a chunk loop: where the cursor ended, the accumulated value, how many chunks ran, and whether it stopped early. */
  datatype Batch<T> = Batch(offset: nat, acc: T, processed: nat, overflowed: bool)

  /**
   * The chunk loop shared by `processDFTInChunksAndSmooth` and
   * `processVolumeOnly`, from chunk `i` on: stop when the next window would
   * overflow (`offset + n > total`; in a usable analyzer the 32-bit sum of
   * the C++ code never wraps, see `NoWrap`); otherwise the first
   * chunk's value replaces the accumulator, later chunks are combined into
   * it, and the cursor moves on by one window of `n` frames.
   */
  function RunBatch<T>(chunk: nat -> T, combine: (T, T) -> T, n: nat, total: nat,
                       offset: nat, i: nat, chunks: nat, acc: T): (r: Batch<T>)
    ensures i <= r.processed && (i < chunks ==> r.processed <= chunks)
    ensures r.overflowed <==> r.processed < chunks
    ensures r.overflowed ==> r.offset + n > total
    ensures r.processed == i ==> r.offset == offset && r.acc == acc
    ensures r.processed > i ==> offset + n <= r.offset <= total
    decreases chunks - i
  {
    if i >= chunks then Batch(offset, acc, i, false)
    else if offset + n > total then Batch(offset, acc, i, true)
    else
      var acc' := if i == 0 then chunk(offset) else combine(acc, chunk(offset));
      RunBatch(chunk, combine, n, total, offset + n, i + 1, chunks, acc')
  }

  /** One chunk of the loop runs, and the rest of the batch continues from the next window. */
  lemma RunBatchStep<T>(chunk: nat -> T, combine: (T, T) -> T, n: nat, total: nat,
                        offset: nat, i: nat, chunks: nat, acc: T, acc': T)
    requires i < chunks && offset + n <= total
    requires acc' == if i == 0 then chunk(offset) else combine(acc, chunk(offset))
    ensures RunBatch(chunk, combine, n, total, offset, i, chunks, acc)
            == RunBatch(chunk, combine, n, total, offset + n, i + 1, chunks, acc')
  {
  }

  /** The loop ends after its last chunk, or before a window that would overflow. */
  lemma RunBatchEnd<T>(chunk: nat -> T, combine: (T, T) -> T, n: nat, total: nat,
                       offset: nat, i: nat, chunks: nat, acc: T)
    requires i >= chunks || offset + n > total
    ensures RunBatch(chunk, combine, n, total, offset, i, chunks, acc)
            == Batch(offset, acc, i, i < chunks)
  {
  }

  /** The offset of chunk `j` of a batch that starts at `start`. */
  function ChunkOffset(start: nat, n: nat, j: nat): nat {
    if j == 0 then start else ChunkOffset(start, n, j - 1) + n
  }

  /** Chunks `0 .. count - 1` of a batch starting at `start` all fit before frame `total`. */
  predicate ChunksFit(start: nat, n: nat, total: nat, count: nat) {
    forall j :: 0 <= j < count ==> ChunkOffset(start, n, j) + n <= total
  }

  /**
   * Every chunk that runs moves the cursor by exactly one window and fits
   * inside the buffer; the batch stops early only when fewer than `chunks`
   * ran, and then the next window does run past the last frame.
   */
  lemma {:induction false} RunBatchAdvance<T>(chunk: nat -> T, combine: (T, T) -> T, n: nat, total: nat,
                                              start: nat, offset: nat, i: nat, chunks: nat, acc: T)
    requires offset <= total && i <= chunks
    requires offset == ChunkOffset(start, n, i) && ChunksFit(start, n, total, i)
    ensures var b := RunBatch(chunk, combine, n, total, offset, i, chunks, acc);
            b.offset == ChunkOffset(start, n, b.processed) && i <= b.processed <= chunks
            && ChunksFit(start, n, total, b.processed)
            && b.offset <= total
            && (b.overflowed <==> b.processed < chunks)
            && (b.overflowed ==> b.offset + n > total)
    decreases chunks - i
  {
    if i < chunks && offset + n <= total {
      var acc' := if i == 0 then chunk(offset) else combine(acc, chunk(offset));
      assert offset + n == ChunkOffset(start, n, i + 1);
      RunBatchAdvance(chunk, combine, n, total, start, offset + n, i + 1, chunks, acc');
    }
  }

  /** The C++ code's 32-bit cursor sum equals the exact one whenever the exact one fits in 32 bits. */
  lemma NoWrap(x: int)
    requires 0 <= x < 0x1_0000_0000
    ensures Wrap32(x) == x
  {
  }

  /** `v` is at least the projection of each of the first `count` chunks' values. */
  ghost predicate AboveChunks<T>(chunk: nat -> T, proj: T -> real, start: nat, n: nat, count: nat, v: real) {
    forall j :: 0 <= j < count ==> v >= proj(chunk(ChunkOffset(start, n, j)))
  }

  /** `v` is the projection of one of the first `count` chunks' values. */
  ghost predicate AmongChunks<T>(chunk: nat -> T, proj: T -> real, start: nat, n: nat, count: nat, v: real) {
    exists j :: 0 <= j < count && v == proj(chunk(ChunkOffset(start, n, j)))
  }

  /**
   * When combining takes the maximum under a projection (one bin of a
   * spectrum, or the volume itself) for all well-shaped values (`ok`: a
   * spectrum of the right length), the batch's accumulator after at least
   * one chunk is the largest of the processed chunks' values: at least each
   * of them, and equal to one of them.
   */
  lemma {:induction false} RunBatchMax<T>(chunk: nat -> T, combine: (T, T) -> T, proj: T -> real, ok: T -> bool,
                                          n: nat, total: nat, start: nat, offset: nat, i: nat, chunks: nat, acc: T)
    requires forall x: T, y: T {:trigger combine(x, y)} :: ok(x) && ok(y) ==> ok(combine(x, y)) && proj(combine(x, y)) == Dft.Max(proj(x), proj(y))
    requires forall o: nat :: ok(chunk(o))
    requires offset == ChunkOffset(start, n, i)
    requires 0 < i ==> ok(acc)
    requires 0 < i ==> AboveChunks(chunk, proj, start, n, i, proj(acc)) && AmongChunks(chunk, proj, start, n, i, proj(acc))
    ensures var b := RunBatch(chunk, combine, n, total, offset, i, chunks, acc);
            0 < b.processed ==>
              ok(b.acc)
              && AboveChunks(chunk, proj, start, n, b.processed, proj(b.acc))
              && AmongChunks(chunk, proj, start, n, b.processed, proj(b.acc))
    decreases chunks - i
  {
    if i < chunks && offset + n <= total {
      var acc' := if i == 0 then chunk(offset) else combine(acc, chunk(offset));
      assert offset + n == ChunkOffset(start, n, i + 1);
      MaxStep(chunk, combine, proj, ok, n, start, i, acc, acc');
      RunBatchMax(chunk, combine, proj, ok, n, total, start, offset + n, i + 1, chunks, acc');
    }
  }

  lemma CombineMax<T>(combine: (T, T) -> T, proj: T -> real, ok: T -> bool, x: T, y: T)
    requires forall x: T, y: T {:trigger combine(x, y)} :: ok(x) && ok(y) ==> ok(combine(x, y)) && proj(combine(x, y)) == Dft.Max(proj(x), proj(y))
    requires ok(x) && ok(y)
    ensures ok(combine(x, y)) && proj(combine(x, y)) == Dft.Max(proj(x), proj(y))
  {
  }

  /** One chunk of `RunBatchMax`: folding chunk `i` in keeps the accumulator the largest value seen. */
  lemma MaxStep<T>(chunk: nat -> T, combine: (T, T) -> T, proj: T -> real, ok: T -> bool,
                   n: nat, start: nat, i: nat, acc: T, acc': T)
    requires forall x: T, y: T {:trigger combine(x, y)} :: ok(x) && ok(y) ==> ok(combine(x, y)) && proj(combine(x, y)) == Dft.Max(proj(x), proj(y))
    requires forall o: nat :: ok(chunk(o))
    requires 0 < i ==> ok(acc)
    requires 0 < i ==> AboveChunks(chunk, proj, start, n, i, proj(acc)) && AmongChunks(chunk, proj, start, n, i, proj(acc))
    requires acc' == if i == 0 then chunk(ChunkOffset(start, n, i)) else combine(acc, chunk(ChunkOffset(start, n, i)))
    ensures ok(acc')
    ensures AboveChunks(chunk, proj, start, n, i + 1, proj(acc')) && AmongChunks(chunk, proj, start, n, i + 1, proj(acc'))
  {
    var c := chunk(ChunkOffset(start, n, i));
    assert ok(c);
    if i == 0 {
      assert AmongChunks(chunk, proj, start, n, 1, proj(acc'));
    } else {
      CombineMax(combine, proj, ok, acc, c);
      if proj(acc') != proj(c) {
        var j :| 0 <= j < i && proj(acc) == proj(chunk(ChunkOffset(start, n, j)));
        assert proj(acc') == proj(chunk(ChunkOffset(start, n, j)));
      }
      assert AmongChunks(chunk, proj, start, n, i + 1, proj(acc'));
    }
  }

  /** Bin `k` of a spectrum (0 past its end). */
  function Bin(k: nat): seq<real> -> real {
    s => if k < |s| then s[k] else 0.0
  }

  /** Bin by bin, `PeakMax` of equally long spectra takes the maximum of that bin. */
  lemma PeakMaxBin(x: seq<real>, y: seq<real>, k: nat)
    requires |x| == |y|
    ensures Bin(k)(PeakMax(x, y)) == Dft.Max(Bin(k)(x), Bin(k)(y))
  {
  }

  /** `dftOut[i] = (1 - alpha) * dftOut[i] + alpha * next[i]` for every bin. */
  function Ema(prev: seq<real>, next: seq<real>, alpha: real): (r: seq<real>)
    requires |prev| == |next|
    ensures |r| == |prev|
  {
    seq(|prev|, k requires 0 <= k < |prev| => (1.0 - alpha) * prev[k] + alpha * next[k])
  }

  /**
   * For alpha in [0, 1] every smoothed bin lies between its previous value
   * and the new one; alpha 0 keeps the previous spectrum and alpha 1 takes
   * the new one.
   */
  lemma EmaBetween(prev: seq<real>, next: seq<real>, alpha: real, k: nat)
    requires |prev| == |next| && 0.0 <= alpha <= 1.0 && k < |prev|
    ensures Dft.Min(prev[k], next[k]) <= Ema(prev, next, alpha)[k] <= Dft.Max(prev[k], next[k])
    ensures alpha == 0.0 ==> Ema(prev, next, alpha)[k] == prev[k]
    ensures alpha == 1.0 ==> Ema(prev, next, alpha)[k] == next[k]
  {
    assert Ema(prev, next, alpha)[k] == prev[k] * (1.0 - alpha) + next[k] * alpha;
    Dft.ConvexBetween(prev[k], next[k], alpha);
  }

  /** Every level of a spectrum is at least the -100 dB cutoff. */
  predicate Floored(s: seq<real>) {
    forall k :: 0 <= k < |s| ==> s[k] >= Dft.DECIBEL_CUTOFF
  }

  /** Smoothing two floored spectra with alpha in [0, 1] gives a floored spectrum. */
  lemma EmaFloored(prev: seq<real>, next: seq<real>, alpha: real)
    requires |prev| == |next| && 0.0 <= alpha <= 1.0 && Floored(prev) && Floored(next)
    ensures Floored(Ema(prev, next, alpha))
  {
    forall k | 0 <= k < |prev|
      ensures Ema(prev, next, alpha)[k] >= Dft.DECIBEL_CUTOFF
    {
      EmaBetween(prev, next, alpha, k);
    }
  }

  /** A fresh analyzer's all-zero spectrum is floored. */
  lemma NewAnalyzerFloored(proc: Dft.Processor, wav: seq<int16>, wavLength: uint32, channels: uint8)
    requires Dft.Valid(proc) && channels >= 1 && |wav| == wavLength / 2
    ensures Floored(NewAnalyzer(proc, wav, wavLength, channels).dftOut)
  {
  }

  /** The batch `processDFTInChunksAndSmooth` runs. */
  function SpectrumBatch(m: Dft.Maths, a: Analyzer, chunks: nat): Batch<seq<real>> {
    RunBatch(Spectra(m, a), PeakMax, a.proc.inSamples, a.total, a.offset, 0, chunks, a.nextValues)
  }

  /** The batch `processVolumeOnly` runs. */
  function VolumeBatch(m: Dft.Maths, a: Analyzer, chunks: nat): Batch<real> {
    RunBatch(Volumes(m, a), Dft.Max, a.proc.inSamples, a.total, a.offset, 0, chunks, 0.0)
  }

  lemma {:induction false} ChunkOffsetIs(start: nat, n: nat, j: nat)
    ensures ChunkOffset(start, n, j) == start + j * n
  {
    if j > 0 {
      ChunkOffsetIs(start, n, j - 1);
    }
  }

  /**
   * Whatever the chunks compute, a batch from a usable cursor processes
   * windows back to back: it ends `processed` whole windows further on,
   * still inside the buffer; it stops early exactly when fewer than `chunks`
   * windows ran, and then only because the next window would run past the
   * last frame.
   */
  lemma BatchCursor<T>(chunk: nat -> T, combine: (T, T) -> T, n: nat, total: nat, start: nat, chunks: nat, acc: T)
    requires start <= total
    ensures var b := RunBatch(chunk, combine, n, total, start, 0, chunks, acc);
            b.processed <= chunks && b.offset == start + b.processed * n && b.offset <= total
            && (b.overflowed <==> b.processed < chunks)
            && (b.overflowed ==> b.offset + n > total)
  {
    RunBatchAdvance(chunk, combine, n, total, start, start, 0, chunks, acc);
    ChunkOffsetIs(start, n, RunBatch(chunk, combine, n, total, start, 0, chunks, acc).processed);
  }

  /** Combining spectra of one length with `PeakMax` keeps that length and takes the maximum of bin `k`. */
  lemma PeakMaxBins(ok: seq<real> -> bool, len: nat, k: nat)
    requires forall s :: ok(s) <==> |s| == len
    ensures forall x: seq<real>, y: seq<real> {:trigger PeakMax(x, y)} :: ok(x) && ok(y) ==>
              ok(PeakMax(x, y)) && Bin(k)(PeakMax(x, y)) == Dft.Max(Bin(k)(x), Bin(k)(y))
  {
    forall x: seq<real>, y: seq<real> | ok(x) && ok(y)
      ensures ok(PeakMax(x, y)) && Bin(k)(PeakMax(x, y)) == Dft.Max(Bin(k)(x), Bin(k)(y))
    {
      PeakMaxBin(x, y, k);
    }
  }

  /**
   * After `processDFTInChunksAndSmooth` has run at least one chunk, every bin
   * of `nextValues` holds the loudest level that bin reached over the
   * processed windows: at least that of each, and equal to that of one.
   */
  lemma SpectrumBatchPeak(m: Dft.Maths, a: Analyzer, chunks: nat, k: nat)
    requires Valid(a) && m.ln(10.0) != 0.0 && k < a.proc.outSamples
    ensures var b := SpectrumBatch(m, a, chunks); var n := a.proc.inSamples;
            0 < b.processed ==>
              |b.acc| == a.proc.outSamples
              && (forall j :: 0 <= j < b.processed ==>
                    ChunkOffset(a.offset, n, j) + n <= a.total
                    && b.acc[k] >= ChunkSpectrum(m, a, ChunkOffset(a.offset, n, j))[k])
              && (exists j :: 0 <= j < b.processed
                    && ChunkOffset(a.offset, n, j) + n <= a.total
                    && b.acc[k] == ChunkSpectrum(m, a, ChunkOffset(a.offset, n, j))[k])
  {
    var b := SpectrumBatch(m, a, chunks);
    var n := a.proc.inSamples;
    var ok := (s: seq<real>) => |s| == a.proc.outSamples;
    PeakMaxBins(ok, a.proc.outSamples, k);
    RunBatchAdvance(Spectra(m, a), PeakMax, n, a.total, a.offset, a.offset, 0, chunks, a.nextValues);
    RunBatchMax(Spectra(m, a), PeakMax, Bin(k), ok, n, a.total, a.offset, a.offset, 0, chunks, a.nextValues);
    if 0 < b.processed {
      assert Bin(k)(b.acc) == b.acc[k];
      ChunksSpectra(m, a, b.processed, k, b.acc[k]);
    }
  }

  /** `AboveChunks` and `AmongChunks` over the spectra of fitting chunks, read bin by bin. */
  lemma ChunksSpectra(m: Dft.Maths, a: Analyzer, count: nat, k: nat, v: real)
    requires Valid(a) && m.ln(10.0) != 0.0 && k < a.proc.outSamples
    requires ChunksFit(a.offset, a.proc.inSamples, a.total, count)
    requires AboveChunks(Spectra(m, a), Bin(k), a.offset, a.proc.inSamples, count, v)
    requires AmongChunks(Spectra(m, a), Bin(k), a.offset, a.proc.inSamples, count, v)
    ensures var n := a.proc.inSamples;
            (forall j :: 0 <= j < count ==>
               ChunkOffset(a.offset, n, j) + n <= a.total
               && v >= ChunkSpectrum(m, a, ChunkOffset(a.offset, n, j))[k])
            && (exists j :: 0 <= j < count
                  && ChunkOffset(a.offset, n, j) + n <= a.total
                  && v == ChunkSpectrum(m, a, ChunkOffset(a.offset, n, j))[k])
  {
    var n := a.proc.inSamples;
    forall j | 0 <= j < count
      ensures ChunkOffset(a.offset, n, j) + n <= a.total
      ensures Bin(k)(Spectra(m, a)(ChunkOffset(a.offset, n, j))) == ChunkSpectrum(m, a, ChunkOffset(a.offset, n, j))[k]
    {
    }
    var j :| 0 <= j < count && v == Bin(k)(Spectra(m, a)(ChunkOffset(a.offset, n, j)));
  }

  /**
   * Peak-holding and smoothing never go below the -100 dB floor: starting
   * from floored spectra and with alpha in [0, 1], the peak spectrum and the
   * `dftOut` that `processDFTInChunksAndSmooth` leaves are floored.
   */
  lemma SpectrumSmoothFloored(m: Dft.Maths, a: Analyzer, chunks: nat, alpha: real)
    requires Valid(a) && m.ln(10.0) != 0.0 && 0.0 <= alpha <= 1.0
    requires Floored(a.dftOut) && Floored(a.nextValues)
    ensures var b := SpectrumBatch(m, a, chunks);
            |b.acc| == a.proc.outSamples && Floored(b.acc)
            && Floored(if b.overflowed then a.dftOut else Ema(a.dftOut, b.acc, alpha))
  {
    var b := SpectrumBatch(m, a, chunks);
    var n := a.proc.inSamples;
    if 0 < b.processed {
      SpectrumBatchPeak(m, a, chunks, 0);
      assert |b.acc| == a.proc.outSamples;
      forall k | 0 <= k < a.proc.outSamples
        ensures b.acc[k] >= Dft.DECIBEL_CUTOFF
      {
        SpectrumBatchPeak(m, a, chunks, k);
        var j :| 0 <= j < b.processed && ChunkOffset(a.offset, n, j) + n <= a.total
                 && b.acc[k] == ChunkSpectrum(m, a, ChunkOffset(a.offset, n, j))[k];
      }
    } else {
      RunBatchAdvance(Spectra(m, a), PeakMax, n, a.total, a.offset, a.offset, 0, chunks, a.nextValues);
      assert b.acc == a.nextValues;
    }
    if !b.overflowed {
      EmaFloored(a.dftOut, b.acc, alpha);
    }
  }

  /**
   * After `processVolumeOnly` has run at least one chunk, its volume is the
   * loudest of the processed windows' volumes: at least each, and equal to
   * one of them.
   */
  lemma VolumeBatchPeak(m: Dft.Maths, a: Analyzer, chunks: nat)
    requires Valid(a) && m.ln(10.0) != 0.0 && a.proc.inSamples >= 1
    ensures var b := VolumeBatch(m, a, chunks); var n := a.proc.inSamples;
            0 < b.processed ==>
              (forall j :: 0 <= j < b.processed ==>
                 ChunkOffset(a.offset, n, j) + n <= a.total
                 && b.acc >= ChunkVolume(m, a, ChunkOffset(a.offset, n, j)))
              && (exists j :: 0 <= j < b.processed
                    && ChunkOffset(a.offset, n, j) + n <= a.total
                    && b.acc == ChunkVolume(m, a, ChunkOffset(a.offset, n, j)))
  {
    var b := VolumeBatch(m, a, chunks);
    var n := a.proc.inSamples;
    var id := (x: real) => x;
    var ok := (x: real) => true;
    RunBatchAdvance(Volumes(m, a), Dft.Max, n, a.total, a.offset, a.offset, 0, chunks, 0.0);
    RunBatchMax(Volumes(m, a), Dft.Max, id, ok, n, a.total, a.offset, a.offset, 0, chunks, 0.0);
    if 0 < b.processed {
      forall j | 0 <= j < b.processed
        ensures ChunkOffset(a.offset, n, j) + n <= a.total
        ensures Volumes(m, a)(ChunkOffset(a.offset, n, j)) == ChunkVolume(m, a, ChunkOffset(a.offset, n, j))
      {
      }
      var j :| 0 <= j < b.processed && b.acc == Volumes(m, a)(ChunkOffset(a.offset, n, j));
    }
  }

  /**
   * The volume that `processVolumeOnly` blends in is never below the -100 dB
   * floor, so with alpha in [0, 1] a floored `dftOut` stays floored.
   */
  lemma VolumeSmoothFloored(m: Dft.Maths, a: Analyzer, chunks: nat, alpha: real)
    requires Valid(a) && m.ln(10.0) != 0.0 && a.proc.inSamples >= 1 && chunks >= 1 && 0.0 <= alpha <= 1.0
    requires Floored(a.dftOut)
    ensures var b := VolumeBatch(m, a, chunks);
            (!b.overflowed ==> b.acc >= Dft.DECIBEL_CUTOFF)
            && Floored(if b.overflowed then a.dftOut else Ema(a.dftOut, Broadcast(|a.dftOut|, b.acc), alpha))
  {
    var b := VolumeBatch(m, a, chunks);
    var n := a.proc.inSamples;
    BatchCursor(Volumes(m, a), Dft.Max, n, a.total, a.offset, chunks, 0.0);
    if !b.overflowed {
      VolumeBatchPeak(m, a, chunks);
      var j :| 0 <= j < b.processed && ChunkOffset(a.offset, n, j) + n <= a.total
               && b.acc == ChunkVolume(m, a, ChunkOffset(a.offset, n, j));
      EmaFloored(a.dftOut, Broadcast(|a.dftOut|, b.acc), alpha);
    }
  }

  /**
   * `processDFTInChunksAndSmooth(processingChunks, alpha)`: run the chunk
   * loop; if a window would overflow, return at once, keeping the cursor's
   * advance and the partial peak in `nextValues` but leaving `dftOut`
   * untouched; otherwise blend the peak into `dftOut`. With no chunk at all
   * the blend uses whatever `nextValues` held.
   */
  method ProcessInChunksAndSmooth(m: Dft.Maths, a: Analyzer, chunks: uint32, alpha: real) returns (after: Analyzer)
    requires Valid(a) && m.ln(10.0) != 0.0
    ensures Valid(after) && SameSource(a, after)
    ensures var b := SpectrumBatch(m, a, chunks);
            after.offset == b.offset && after.nextValues == b.acc
            && after.dftOut == (if b.overflowed then a.dftOut else Ema(a.dftOut, b.acc, alpha))
  {
    var proc, offset, nextValues, temp, overflowed := SpectrumLoop(m, a, chunks, Spectra(m, a));
    var dftOut := a.dftOut;
    if !overflowed {
      dftOut := Smooth(a.dftOut, nextValues, alpha);
    }
    after := a.(proc := proc, offset := offset, nextValues := nextValues, temp := temp, dftOut := dftOut);
  }

  /** The chunk loop of `processDFTInChunksAndSmooth`, returning early on overflow. */
  method SpectrumLoop(m: Dft.Maths, a: Analyzer, chunks: uint32, ghost chunk: nat -> seq<real>)
    returns (proc: Dft.Processor, offset: uint32, nextValues: seq<real>, temp: seq<real>, overflowed: bool)
    requires Valid(a) && m.ln(10.0) != 0.0
    requires forall o: nat {:trigger SpectrumAt(m, a, o)} :: chunk(o) == SpectrumAt(m, a, o)
    ensures Dft.Valid(proc) && proc.inSamples == a.proc.inSamples && proc.outSamples == a.proc.outSamples
    ensures offset <= a.total && |nextValues| == |temp| == a.proc.outSamples
    ensures var b := RunBatch(chunk, PeakMax, a.proc.inSamples, a.total, a.offset, 0, chunks, a.nextValues);
            offset == b.offset && nextValues == b.acc && overflowed == b.overflowed
  {
    ghost var b := RunBatch(chunk, PeakMax, a.proc.inSamples, a.total, a.offset, 0, chunks, a.nextValues);
    proc, offset := a.proc, a.offset;
    nextValues, temp := a.nextValues, a.temp;
    var i: uint32 := 0;
    while i < chunks
      invariant i <= chunks && offset <= a.total
      invariant Dft.Valid(proc) && proc.inSamples == a.proc.inSamples && proc.outSamples == a.proc.outSamples
      invariant |nextValues| == |temp| == a.proc.outSamples
      invariant RunBatch(chunk, PeakMax, a.proc.inSamples, a.total, offset, i, chunks, nextValues) == b
    {
      var stop;
      proc, offset, nextValues, temp, stop := SpectrumStep(m, a, chunk, chunks, proc, offset, i, nextValues, temp);
      if stop {
        return proc, offset, nextValues, temp, true;
      }
      i := i + 1;
    }
    RunBatchEnd(chunk, PeakMax, a.proc.inSamples, a.total, offset, i, chunks, nextValues);
    overflowed := false;
  }

  /**
   * One turn of the `processDFTInChunksAndSmooth` loop: stop before a window
   * that would overflow, otherwise process the chunk and move the cursor on.
   */
  method SpectrumStep(m: Dft.Maths, a: Analyzer, ghost chunk: nat -> seq<real>, chunks: uint32,
                      proc: Dft.Processor, offset: uint32, i: uint32, nextValues: seq<real>, temp: seq<real>)
    returns (proc': Dft.Processor, offset': uint32, nextValues': seq<real>, temp': seq<real>, stop: bool)
    requires Valid(a) && m.ln(10.0) != 0.0 && i < chunks && offset <= a.total
    requires forall o: nat {:trigger SpectrumAt(m, a, o)} :: chunk(o) == SpectrumAt(m, a, o)
    requires Dft.Valid(proc) && proc.inSamples == a.proc.inSamples && proc.outSamples == a.proc.outSamples
    requires |nextValues| == |temp| == a.proc.outSamples
    ensures Dft.Valid(proc') && proc'.inSamples == a.proc.inSamples && proc'.outSamples == a.proc.outSamples
    ensures offset' <= a.total && |nextValues'| == |temp'| == a.proc.outSamples
    ensures stop ==> RunBatch(chunk, PeakMax, a.proc.inSamples, a.total, offset, i, chunks, nextValues)
                     == Batch(offset', nextValues', i, true)
    ensures !stop ==> RunBatch(chunk, PeakMax, a.proc.inSamples, a.total, offset, i, chunks, nextValues)
                      == RunBatch(chunk, PeakMax, a.proc.inSamples, a.total, offset', i + 1, chunks, nextValues')
  {
    var next := Wrap32(offset + proc.inSamples);
    NoWrap(offset + proc.inSamples);
    if next > a.total {
      RunBatchEnd(chunk, PeakMax, a.proc.inSamples, a.total, offset, i, chunks, nextValues);
      return proc, offset, nextValues, temp, true;
    }
    proc', nextValues', temp' := SpectrumChunk(m, a, proc, offset, i == 0, nextValues, temp);
    RunBatchStep(chunk, PeakMax, a.proc.inSamples, a.total, offset, i, chunks, nextValues, nextValues');
    offset', stop := next, false;
  }

  /**
   * One chunk of `processDFTInChunksAndSmooth`: the first chunk's spectrum
   * goes straight into `nextValues`; a later one goes into `temp` and is
   * folded into `nextValues` bin by bin with `fmax`.
   */
  method SpectrumChunk(m: Dft.Maths, a: Analyzer, proc: Dft.Processor, offset: uint32, first: bool,
                       nextValues: seq<real>, temp: seq<real>)
    returns (proc': Dft.Processor, nextValues': seq<real>, temp': seq<real>)
    requires Valid(a) && m.ln(10.0) != 0.0 && offset + a.proc.inSamples <= a.total
    requires Dft.Valid(proc) && proc.inSamples == a.proc.inSamples && proc.outSamples == a.proc.outSamples
    requires |nextValues| == |temp| == a.proc.outSamples
    ensures Dft.Valid(proc') && proc'.inSamples == a.proc.inSamples && proc'.outSamples == a.proc.outSamples
    ensures |nextValues'| == |temp'| == a.proc.outSamples
    ensures nextValues' == if first then SpectrumAt(m, a, offset) else PeakMax(nextValues, SpectrumAt(m, a, offset))
  {
    var window := a.wav[2 * offset..];
    temp' := temp;
    if first {
      proc', nextValues' := Dft.ProcessDft(m, proc, window, nextValues);
    } else {
      proc', temp' := Dft.ProcessDft(m, proc, window, temp);
      nextValues' := PeakHold(nextValues, temp');
    }
  }

  /** `nextValues[i] = fmax(nextValues[i], temp[i])` for every bin. */
  method PeakHold(next: seq<real>, temp: seq<real>) returns (r: seq<real>)
    requires |next| == |temp|
    ensures r == PeakMax(next, temp)
  {
    r := next;
    var k := 0;
    while k < |r|
      invariant 0 <= k <= |r| == |next|
      invariant forall j :: 0 <= j < k ==> r[j] == Dft.Max(next[j], temp[j])
      invariant forall j :: k <= j < |r| ==> r[j] == next[j]
    {
      r := r[k := Dft.Max(r[k], temp[k])];
      k := k + 1;
    }
  }

  /** The blending loop: `dftOut[i] = (1 - alpha) * dftOut[i] + alpha * next[i]`. */
  method Smooth(prev: seq<real>, next: seq<real>, alpha: real) returns (r: seq<real>)
    requires |prev| == |next|
    ensures r == Ema(prev, next, alpha)
  {
    r := prev;
    var k := 0;
    while k < |r|
      invariant 0 <= k <= |r| == |prev|
      invariant forall j :: 0 <= j < k ==> r[j] == (1.0 - alpha) * prev[j] + alpha * next[j]
      invariant forall j :: k <= j < |r| ==> r[j] == prev[j]
    {
      r := r[k := (1.0 - alpha) * r[k] + alpha * next[k]];
      k := k + 1;
    }
    assert forall j :: 0 <= j < |r| ==> r[j] == Ema(prev, next, alpha)[j];
  }

  /** Every bin set to the same level. */
  function Broadcast(n: nat, v: real): (r: seq<real>)
    ensures |r| == n && forall k :: 0 <= k < n ==> r[k] == v
  {
    seq(n, _ => v)
  }

  /**
   * The blend at the end of `processVolumeOnly`: with alpha in [0, 1] every
   * bin of the result lies between its old level and the chunk volume, so a
   * spectrum and a volume at least the -100 dB floor stay above it.
   */
  lemma VolumeBlendBetween(prev: seq<real>, v: real, alpha: real, k: nat)
    requires 0.0 <= alpha <= 1.0 && k < |prev|
    ensures Dft.Min(prev[k], v) <= Ema(prev, Broadcast(|prev|, v), alpha)[k] <= Dft.Max(prev[k], v)
    ensures prev[k] >= Dft.DECIBEL_CUTOFF && v >= Dft.DECIBEL_CUTOFF
            ==> Ema(prev, Broadcast(|prev|, v), alpha)[k] >= Dft.DECIBEL_CUTOFF
  {
    EmaBetween(prev, Broadcast(|prev|, v), alpha, k);
  }

  /**
   * `processVolumeOnly(processingChunks, alpha)`: the volume loop, keeping
   * the loudest chunk, then that volume blended into every bin of `dftOut`;
   * an overflow returns before the blend with the cursor already advanced.
   * At least one chunk is required: with none, the C++ code blends an
   * uninitialised local.
   */
  method ProcessVolumeOnly(m: Dft.Maths, a: Analyzer, chunks: uint32, alpha: real) returns (after: Analyzer)
    requires Valid(a) && m.ln(10.0) != 0.0 && a.proc.inSamples >= 1 && chunks >= 1
    ensures Valid(after) && SameSource(a, after) && after.nextValues == a.nextValues
    ensures var b := VolumeBatch(m, a, chunks);
            after.offset == b.offset
            && after.dftOut == (if b.overflowed then a.dftOut else Ema(a.dftOut, Broadcast(|a.dftOut|, b.acc), alpha))
  {
    var offset, volume, overflowed := VolumeLoop(m, a, chunks, Volumes(m, a));
    var dftOut := a.dftOut;
    if !overflowed {
      dftOut := Smooth(a.dftOut, Broadcast(|a.dftOut|, volume), alpha);
    }
    after := a.(offset := offset, dftOut := dftOut);
  }

  /** The chunk loop of `processVolumeOnly`, returning early on overflow. */
  method VolumeLoop(m: Dft.Maths, a: Analyzer, chunks: uint32, ghost chunk: nat -> real)
    returns (offset: uint32, volume: real, overflowed: bool)
    requires Valid(a) && m.ln(10.0) != 0.0 && a.proc.inSamples >= 1
    requires forall o: nat {:trigger VolumeAt(m, a, o)} :: chunk(o) == VolumeAt(m, a, o)
    ensures offset <= a.total
    ensures var b := RunBatch(chunk, Dft.Max, a.proc.inSamples, a.total, a.offset, 0, chunks, 0.0);
            offset == b.offset && volume == b.acc && overflowed == b.overflowed
  {
    ghost var b := RunBatch(chunk, Dft.Max, a.proc.inSamples, a.total, a.offset, 0, chunks, 0.0);
    offset, volume := a.offset, 0.0;
    var i: uint32 := 0;
    while i < chunks
      invariant i <= chunks && offset <= a.total
      invariant RunBatch(chunk, Dft.Max, a.proc.inSamples, a.total, offset, i, chunks, volume) == b
    {
      var stop;
      offset, volume, stop := VolumeStep(m, a, chunk, chunks, offset, i, volume);
      if stop {
        return offset, volume, true;
      }
      i := i + 1;
    }
    RunBatchEnd(chunk, Dft.Max, a.proc.inSamples, a.total, offset, i, chunks, volume);
    overflowed := false;
  }

  /**
   * One turn of the `processVolumeOnly` loop: stop before a window that
   * would overflow, otherwise process the chunk and move the cursor on.
   */
  method VolumeStep(m: Dft.Maths, a: Analyzer, ghost chunk: nat -> real, chunks: uint32, offset: uint32, i: uint32, volume: real)
    returns (offset': uint32, volume': real, stop: bool)
    requires Valid(a) && m.ln(10.0) != 0.0 && a.proc.inSamples >= 1 && i < chunks && offset <= a.total
    requires forall o: nat {:trigger VolumeAt(m, a, o)} :: chunk(o) == VolumeAt(m, a, o)
    ensures offset' <= a.total
    ensures stop ==> RunBatch(chunk, Dft.Max, a.proc.inSamples, a.total, offset, i, chunks, volume)
                     == Batch(offset', volume', i, true)
    ensures !stop ==> RunBatch(chunk, Dft.Max, a.proc.inSamples, a.total, offset, i, chunks, volume)
                      == RunBatch(chunk, Dft.Max, a.proc.inSamples, a.total, offset', i + 1, chunks, volume')
  {
    var next := Wrap32(offset + a.proc.inSamples);
    NoWrap(offset + a.proc.inSamples);
    if next > a.total {
      RunBatchEnd(chunk, Dft.Max, a.proc.inSamples, a.total, offset, i, chunks, volume);
      return offset, volume, true;
    }
    volume' := VolumeChunk(m, a, offset, i == 0, volume);
    RunBatchStep(chunk, Dft.Max, a.proc.inSamples, a.total, offset, i, chunks, volume, volume');
    offset', stop := next, false;
  }

  /** One chunk of `processVolumeOnly`: the first volume is kept, a later one raises it with `fmax`. */
  method VolumeChunk(m: Dft.Maths, a: Analyzer, offset: uint32, first: bool, volume: real) returns (volume': real)
    requires Valid(a) && m.ln(10.0) != 0.0 && a.proc.inSamples >= 1 && offset + a.proc.inSamples <= a.total
    ensures volume' == if first then VolumeAt(m, a, offset) else Dft.Max(volume, VolumeAt(m, a, offset))
  {
    var window := a.wav[2 * offset..];
    if first {
      volume' := Dft.ProcessVolume(m, a.proc, window);
    } else {
      var temp := Dft.ProcessVolume(m, a.proc, window);
      volume' := Dft.Max(volume, temp);
    }
  }

  /**
   * `processDFT()`: the spectrum of the window at the cursor goes straight
   * into `dftOut`, and the cursor moves on by one window. The C++ code does
   * not check for overflow here; the caller must.
   */
  method ProcessDftOnce(m: Dft.Maths, a: Analyzer) returns (after: Analyzer)
    requires Valid(a) && m.ln(10.0) != 0.0 && !WouldOverflow(a)
    ensures Valid(after) && SameSource(a, after) && after.nextValues == a.nextValues
    ensures after.offset == a.offset + a.proc.inSamples
    ensures after.dftOut == ChunkSpectrum(m, a, a.offset)
  {
    NoWrap(a.offset + a.proc.inSamples);
    var window := a.wav[2 * a.offset..];
    var proc, dftOut := Dft.ProcessDft(m, a.proc, window, a.dftOut);
    after := a.(proc := proc, dftOut := dftOut, offset := Wrap32(a.offset + a.proc.inSamples));
  }

  /** `lastProcessDFTResult()`: the smoothed spectrum, one level per bin. */
  function LastResult(a: Analyzer): (r: seq<real>)
    requires Valid(a)
    ensures |r| == a.proc.outSamples
  {
    a.dftOut
  }
}
