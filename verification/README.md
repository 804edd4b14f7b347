# Audio spectrum visualiser core, in Dafny

This project models the non-graphical core of a small SDL music visualiser in Dafny. The visualiser reads a 16-bit stereo WAV file and computes a smoothed spectrum (or a volume level) window by window. It draws the result into a framebuffer that it fades and scrolls every frame. The model covers four parts:

- **Analyzer** (`DftProcessor.cpp`, `DftProcessor.h`).
  - `DftProcessor` turns a window of stereo frames into one decibel level per frequency bin. It also computes the volume of a window and offers two helpers: the linear-mode table interpolation and the dB-to-unit mapping.
  - `DftProcessorForWav` is a read cursor over the PCM buffer. It processes several windows per call, keeps the per-bin peak, and blends that peak into a persistent `dftOut` by an exponential moving average. A volume-only variant blends one level into every bin.
- **Packed pixels and 32-bit framebuffers** (`Drawing.h`, `DrawingSurface.h`).
  - Operations: `RGBA`/`RGB` clamp-and-pack; the shift-and-mask `blend`; the whole-word `blendWrong`; bounds-checked `getPixel`/`setPixel`; the two `clearScreen`s (a byte `memset` and a word fill); and the in-place `moveScreen`/`dimScreenWeirdly` sweeps.
  - `Drawing.h` and `DrawingSurface.h` carry identical copies of `RGBA`, `RGB`, `blend` and `blendWrong`, and `DrawingFloat.h` a third copy of `RGBA` and `RGB` (lines 173-185). Each is defined once in `Pixels`.
- **Float framebuffer** (`DrawingFloat.h`, `DrawingFloat.cpp`).
  - Operations: the `DrawingSurface` constructor check; indexing of its groups of four floats; `clearScreen`; the HSL helpers `clamp`, `computeSaturatedL` and `hue2rgb`; `Color` blending and unpacking; and the two `ScreenMover`s.
- **Intrusive reference counting** (`src/Ref.h`).
  - `RefClass`'s 32-bit counter and every constructor and assignment of `ref<T>`, plus `owning_ref`, `mkref`, `newref` and `unmanaged_ptr`.
  - An object handed over with `owning_ref` has a count of "refs minus one", and the release that finds 0 deletes it.

Modules:

- `Bits`: unsigned machine integers, wrap-around, and bytewise `|`/`&`.
- `Pixels`: packed pixels.
- `Surface`: the 32-bit framebuffers.
- `FloatSurface`: the float framebuffer.
- `Dft`: `DftProcessor`.
- `Analyzer`: `DftProcessorForWav`.
- `RefCount`: `src/Ref.h`.
- `Wrappers`: a `Result` for operations that throw.

Modelling choices:

- Mutable state is modelled as values. Each operation takes the old state and returns the new one.
- Doubles and floats are exact reals.
- `cos`, `sin`, `sqrt` and `log` are fields of a `Dft.Maths` record that the caller passes in. Every property holds for any choice of them, unless a lemma states the one fact it assumes, as `ToDecibelsMonotone` does.
- Unsigned 32-bit arithmetic is written out with `Wrap32` wherever wrap-around can occur: the cursor sum, pixel coordinates `x - moveX`, `blendWrong`'s word product, the reference count and the float buffer size.

## Model

| member | source | states |
|---|---|---|
| Bits.ByteOfPack | Drawing.h:16 | Each byte of a packed word can be read back: byte i of `Pack(b0, b1, b2, b3)` is `bi`. |
| Bits.PackOfBytes | Drawing.h:16 | Every 32-bit word is the packing of its four bytes, so packing and byte extraction are mutual inverses. |
| Bits.Or32Disjoint | Drawing.h:16 | The bitwise OR of two words whose non-zero bytes never overlap equals their sum, so no carry can occur. |
| Pixels.Clamp255 | Drawing.h:7-15 | The clamped channel is the byte value nearest the argument, and a value already in [0, 255] is kept. |
| Pixels.PackedChannels | Drawing.h:16 | `a << 24 \| r << 16 \| g << 8 \| b` on bytes places each channel in its own byte: alpha in byte 3, red in 2, green in 1, blue in 0. |
| Pixels.RGBA | Drawing.h:7-17 | The result's red, green, blue and alpha bytes are the clamped arguments. |
| Pixels.RGB | DrawingSurface.h:30 | The alpha byte is 0xff, and red, green and blue are the clamped arguments. |
| Pixels.Blend | Drawing.h:62-69 | The top byte of a blend is always 0xff. |
| Pixels.ChannelMasks | Drawing.h:66-68 | `p & 0xff`, `p >> 8 & 0xff` and `p >> 16 & 0xff` extract the blue, green and red bytes. |
| Pixels.MixBounds | DrawingSurface.h:77-79 | For alpha ≤ 256 the weighted sum of two channels fits 16 bits, and its high byte lies between the two channels. |
| Pixels.BlueField | Drawing.h:66 | The blue term of `blend`, shifted right by 8, is the mixed blue channel in byte 0. |
| Pixels.GreenField | Drawing.h:67 | The green term of `blend`, masked with 0xff00, is the mixed green channel in byte 1. |
| Pixels.RedField | Drawing.h:68 | The red term of `blend`, masked and shifted left by 8, is the mixed red channel in byte 2. |
| Pixels.BlendPacked | Drawing.h:62-69 | For alpha ≤ 256, `blend` packs the three independently mixed channels under an opaque alpha byte. |
| Pixels.BlendChannels | DrawingSurface.h:73-80 | For alpha ≤ 256 each channel is ⌊(c2·α + c1·(256−α))/256⌋. It lies between the two input channels and never carries into a neighbour. |
| Pixels.BlendEndpoints | Drawing.h:62-69 | Alpha 0 yields pixel1's colour and alpha 256 yields pixel2's, both made opaque. |
| Pixels.BlendSelf | DrawingSurface.h:73-80 | For alpha in [0, 256], blending a pixel with itself only sets its alpha byte to 0xff. Above 256 the 16-bit `256 - alpha` wraps and a channel can carry into the next. |
| Pixels.BlendWrong | Drawing.h:71-76 | The result is 0xff000000 plus the whole-word weighted sum (wrapped at 2^32) divided by 256. The top byte is always 0xff. |
| Pixels.BlendWrongEndpoints | DrawingSurface.h:82-87 | `blendWrong` also keeps pixel1 at alpha 0 and takes pixel2 at alpha 256. |
| Pixels.BlendWrongBleeds | Drawing.h:75 | A worked example: unlike `blend`, `blendWrong` lets a channel bleed into its neighbour. Blue 1 mixed with green 1 at alpha 128 gives blue 128, where `blend` gives 0. |
| Surface.OffsetAddress | Drawing.h:51 | The byte address `y * pitch + x * 4` is four times the word index of pixel (x, y). |
| Surface.OffsetInside | DrawingSurface.h:62 | Every in-range pixel's word lies inside the buffer. |
| Surface.OffsetInjective | DrawingSurface.h:62 | Two in-range pixels share a word exactly when they are the same pixel. |
| Surface.GetPixel | DrawingSurface.h:66-71 | An out-of-range coordinate returns the caller's default; in Drawing.h that default is 0. |
| Surface.SetPixel | DrawingSurface.h:59-64 | Out of range, `setPixel` leaves the surface unchanged. In range, reading the pixel back gives the stored word. The shape is preserved. |
| Surface.SetPixelOther | Drawing.h:48-60 | Every other pixel reads exactly as before, with any default. |
| Surface.SetPixelWords | DrawingSurface.h:59-64 | No word other than the target pixel's word changes, so no padding word changes. |
| Surface.GetSetRoundTrip | Drawing.h:48-60 | Storing the word just read back into the same pixel leaves the surface identical, in range and out of it. |
| Surface.ClearScreenMemset | Drawing.h:44-46 | After `memset`, every byte of every word, padding included, equals the colour's low byte. |
| Surface.MemsetIsFill | Drawing.h:44-46 | `memset` stores the colour word exactly when the colour's four bytes are equal. For any other colour it stores something else. |
| Surface.ClearScreenWords | DrawingSurface.h:51-57 | Each of the `pitch * h / 4` words, padding included, becomes the full colour word. |
| Surface.ClearScreenPixels | DrawingSurface.h:51-57 | After the word fill, every in-range pixel reads back as the colour. |
| Surface.Sweep | DrawingSurface.h:98-106 | After the row-major in-place loop, each pixel holds `f` of its original word and its neighbour as the loop found it. A neighbour already passed reads its new value. Padding is untouched. |
| Surface.DimScreen | Drawing.h:78-85 | Every pixel becomes `blendWrong(pixel)` of its original word. Padding is untouched. |
| Surface.Combine | DrawingSurface.h:103 | The word `moveScreen` stores is always opaque, in both variants. |
| Surface.MoveScreen | DrawingSurface.h:98-106 | Each pixel becomes the variant's blend of its original word and its neighbour `(x - moveX, y - moveY)` as found in place. Out of range, the neighbour is 0 in Drawing.h and `fillColor` in DrawingSurface.h. Both variants default `alpha` to 16. |
| Surface.NeighbourCoordinate | Drawing.h:91 | In-range neighbour coordinates are plain differences, and a negative difference wraps past the bound. |
| Surface.ForwardMoveReadsUpdated | DrawingSurface.h:99-103 | For `moveX, moveY >= 0`, not both zero, every in-range neighbour comes earlier in the sweep, so it has already been updated. |
| Surface.MoveInPlaceIsOpaque | Drawing.h:87-95 | For alpha ≤ 256, a move with no displacement in Drawing.h's `moveScreen` only makes each pixel opaque. |
| FloatSurface.BlendColor | DrawingFloat.h:28-32 | Each blended component lies `alpha / 256` of the way from pixel1's value to pixel2's; alpha defaults to 128, the midpoint. |
| FloatSurface.BlendColorBetween | DrawingFloat.h:28-32 | For alpha in [0, 256], every blended component lies between the two inputs. |
| FloatSurface.BlendColorEndpoints | DrawingFloat.h:28-32 | Alpha 0 returns pixel1 and alpha 256 returns pixel2. |
| FloatSurface.ColorOfWord | DrawingFloat.cpp:7-9 | In HSL mode the conversion throws. Otherwise the components are the red, green and blue bytes of the word. |
| FloatSurface.ColorOfWordRange | DrawingFloat.cpp:7 | Every unpacked component is in [0, 255]. |
| FloatSurface.ColorOfWordIgnoresAlpha | DrawingFloat.cpp:7 | Words that differ only in the alpha byte unpack to the same colour. |
| FloatSurface.ColorOfRGB | DrawingFloat.cpp:7 | Unpacking `RGB(r, g, b)` gives back (r, g, b) for channels in [0, 255]. This makes it a round trip with `RGB`. |
| FloatSurface.Hue2Rgb | DrawingFloat.h:78-90 | For t in [-1, 2], `hue2rgb` returns a value between p and q. |
| FloatSurface.ComputeSaturatedL | DrawingFloat.h:92-104 | For s ≤ 1 the lightness is unchanged. For s > 1, a lightness below 0.5 stays at most 0.5 and one from 0.5 up stays at least 0.5. |
| FloatSurface.SaturatedLTowardsHalf | DrawingFloat.h:92-104 | For s > 1 and l in [0, 1], the result lies between l and 0.5: it moves towards 0.5 and never past it. |
| FloatSurface.Clamp01 | DrawingFloat.h:106-110 | The result is in [0, 1], and values already in [0, 1] are kept. |
| FloatSurface.Clamp01Monotone | DrawingFloat.h:106-110 | `clamp` is monotone and idempotent. |
| FloatSurface.Create | DrawingFloat.h:42-47 | The constructor throws exactly when `pitch < w * 4` in unsigned arithmetic. Otherwise it allocates `h * pitch` floats, with both flags false. |
| FloatSurface.CreateValid | DrawingFloat.h:42-44 | When `4 * w` fits 32 bits, the constructor throws exactly when `pitch < 4w`. When it succeeds and the size does not wrap, the surface is well formed. |
| FloatSurface.IndexInside | DrawingFloat.h:65 | All four floats `y * pitch + 4x + {0..3}` of an in-range pixel lie inside the buffer. |
| FloatSurface.IndexApart | DrawingFloat.h:62-69 | The float groups of distinct in-range pixels never overlap. |
| FloatSurface.GetPixel | DrawingFloat.h:71-76 | Out of range, `getPixel` returns the caller's default colour. |
| FloatSurface.SetPixel | DrawingFloat.h:62-69 | Out of range, `setPixel` is a no-op. In range, the pixel reads back as the colour, and every float outside its first three is unchanged. |
| FloatSurface.SetPixelOther | DrawingFloat.h:62-69 | Every other pixel reads as before. |
| FloatSurface.SetPixelFloats | DrawingFloat.h:62-69 | Padding floats and the fourth float of every group are never written. |
| FloatSurface.ClearScreen | DrawingFloat.h:51-60 | Each of the `pitch * h / 4` groups gets the colour in its first three floats. The fourth float, and any float past the last whole group, keeps its value. |
| FloatSurface.GroupCount | DrawingFloat.h:52 | The `pitch * h / 4` groups cover the whole-group prefix of the buffer and never run past its end. |
| FloatSurface.ClearScreenPixels | DrawingFloat.h:51-60 | With a pitch that is a multiple of 4, every in-range pixel reads back as the clear colour after `clearScreen`. |
| FloatSurface.Sweep | DrawingFloat.h:217-223 | After the in-place loop, each pixel holds `f` of its original colour and of its neighbour as found, or of `fillColor` outside the surface. No other float changes. |
| FloatSurface.Step | DrawingFloat.h:214 | The whole-pixel step is -1, 0 or 1. It is non-zero exactly when \|position\| ≥ 1, and it is 1 exactly when position ≥ 1. |
| FloatSurface.StepShrinks | DrawingFloat.h:214-215 | Taking the step moves the position exactly one pixel towards 0 when at least one pixel of travel is pending. Otherwise the position is unchanged. |
| FloatSurface.MoveColor | DrawingFloat.h:221-245 | In HSL mode, hue and saturation ignore the neighbour and decay by 254/256 per move, and the lightness is the plain blend's decayed the same way. In RGB mode with alpha in [0, 256], every component lies between pixel1's and the neighbour's. |
| FloatSurface.PerformMove | DrawingFloat.h:213-225 | Each position is reduced by its step. With both steps 0 the surface is untouched. Otherwise every pixel is combined with its neighbour by the in-place sweep, for both `ScreenMover` and `ScreenMoverHSL`. Floats outside whole pixel groups never change. `alpha` defaults to 16. |
| Dft.ToDecibels | DftProcessor.cpp:8-11 | The level never goes below -100 dB. Non-positive samples give exactly -100. Positive ones give `max(-100, 20·ln(s)/ln(10))`. |
| Dft.ToDecibelsMonotone | DftProcessor.cpp:8-11 | With a monotone logarithm, a louder sample never reads as fewer decibels. |
| Dft.NewProcessor | DftProcessor.cpp:13-18 | There are `n / 2 + 1` bins, and `REX`/`IMX` start at zero. |
| Dft.Mix | DftProcessor.cpp:31 | Every mixed stereo frame lies in [-1, 1). |
| Dft.Samples | DftProcessor.cpp:30-38 | There is one sample per frame. Sample k is built from words 2k and 2k + 1 alone, the window factor applied when asked. Without the window every sample lies in [-1, 1). |
| Dft.SamplesReadPrefix | DftProcessor.cpp:30-38 | Only the first 2n words of the buffer are read: replacing everything after them changes no sample. |
| Dft.Spectrum | DftProcessor.cpp:22-69 | There is one level per bin (`n / 2 + 1` of them), and every level is at least -100 dB. |
| Dft.ProcessDft | DftProcessor.cpp:22-69 | The output depends only on the input window and the flags, not on the scratch vectors or the old output contents. The sizes are unchanged. |
| Dft.ZeroFill | DftProcessor.cpp:24-26 | Every accumulator is set to 0. |
| Dft.FillSamples | DftProcessor.cpp:30-38 | `samples[k]` holds frame k mixed (and windowed when asked), for every k. |
| Dft.Correlate | DftProcessor.cpp:41-62 | Starting from zeroed accumulators, every output bin is the modulus of that bin's optionally normalised correlation. |
| Dft.Accumulate | DftProcessor.cpp:43-46 | The accumulators grow by the in-order sums of the samples times cos and sin, on top of what they held. |
| Dft.ToDecibelsAll | DftProcessor.cpp:66-68 | Every bin's modulus is replaced by its level in decibels. |
| Dft.ProcessVolume | DftProcessor.cpp:71-84 | The volume is at least -100 dB and equals the level of the first frame alone. An empty window gives -100. |
| Dft.VolumeReadsFirstFrameOnly | DftProcessor.cpp:75-78 | Windows that share a first frame have the same volume, whatever follows it. |
| Dft.FractionalIndex | DftProcessor.cpp:96 | The fractional index lies in [0, out−1], with position 0 at bin 0 and position 1 at bin out−1. |
| Dft.InterpolationIndex | DftProcessor.cpp:101 | The truncated index is at most out−1 and is the floor of the fractional index. |
| Dft.Interpolate | DftProcessor.cpp:87-106 | Position 0 reads the first bin, and position 1 reads the last. |
| Dft.InterpolateBetween | DftProcessor.cpp:101-105 | Below the last bin, the result is a convex combination of bins i and i+1, so it lies between them. Elsewhere it is bin i itself. |
| Dft.PointToUnit | DftProcessor.cpp:108-110 | For a positive cutoff c the result is never negative, 0 dB maps to 1, and the result is 0 exactly for s ≤ −c. It is at most 1 exactly for s ≤ 0, so levels above 0 dB map above 1. |
| Dft.PointToUnitMonotone | DftProcessor.cpp:108-110 | For a positive cutoff, the mapping never decreases as the level rises. |
| Analyzer.NewAnalyzer | DftProcessor.cpp:113-123 | The cursor starts at 0. `total` is the number of whole frames in `wavLength` bytes. `dftOut` has one zero per bin. |
| Analyzer.FrameCount | DftProcessor.cpp:119 | `samples / channels` whole frames fit the buffer, and one more would not. |
| Analyzer.NewAnalyzerValid | DftProcessor.cpp:113-123 | A fresh stereo analyzer over a buffer below 2^32 frames satisfies every invariant of the cursor and spectra. |
| Analyzer.NewAnalyzerFloored | DftProcessor.cpp:117 | A fresh `dftOut` is at or above the -100 dB floor. |
| Analyzer.WouldOverflow | DftProcessor.cpp:125-128 | Without wrap-around, the test is exactly "the next window runs past the last frame". When the 32-bit sum wraps, the test compares the wrapped sum instead. |
| Analyzer.WouldOverflowExact | DftProcessor.cpp:125-128 | The 32-bit test is exactly "the next window runs past the last frame". When it is false, the window's samples lie inside the buffer. |
| Analyzer.NoWrap | DftProcessor.cpp:127 | The unsigned cursor sum equals the exact sum whenever the exact sum fits 32 bits. |
| Analyzer.WindowAt | DftProcessor.cpp:135 | A window that passes the overflow test holds at least one full window of stereo samples. |
| Analyzer.ChunkSpectrum | DftProcessor.cpp:135 | A chunk's spectrum has one level per bin. |
| Analyzer.ChunkVolume | DftProcessor.cpp:160 | A chunk's volume is at least -100 dB. |
| Analyzer.PeakMax | DftProcessor.cpp:139 | Where both spectra have a bin, the peak is at least both levels and equal to one of them. Bins only the first spectrum has keep its level. |
| Analyzer.RunBatch | DftProcessor.cpp:130-148 | The loop runs at most `chunks` chunks and stops early exactly when fewer ran, and then only before a window that runs past the last frame. With no chunk run, cursor and accumulator are unchanged. Otherwise the cursor has moved on by at least one window and stays within the buffer. |
| Analyzer.PeakMaxBin | DftProcessor.cpp:139 | Projected on any single bin, the peak is `fmax` of the two inputs. |
| Analyzer.RunBatchAdvance | DftProcessor.cpp:131-143 | Every processed chunk moves the cursor by exactly one window and fits the buffer. The batch stops early only when fewer chunks ran, and then the next window would overflow. |
| Analyzer.BatchCursor | DftProcessor.cpp:130-143 | From a usable cursor, a batch ends `processed` whole windows further on, inside the buffer. It overflowed exactly when fewer chunks ran than asked. |
| Analyzer.RunBatchMax | DftProcessor.cpp:154-168 | When combining takes the maximum, the accumulator after at least one chunk is the largest chunk value: at least each one, and equal to one of them. |
| Analyzer.MaxStep | DftProcessor.cpp:159-165 | Folding one more chunk in with `fmax` keeps the accumulator the largest value seen. |
| Analyzer.Ema | DftProcessor.cpp:145-147 | The smoothed spectrum has one entry per bin. |
| Analyzer.EmaBetween | DftProcessor.cpp:145-147 | For alpha in [0, 1], every smoothed bin lies between its old and its new value. Alpha 0 keeps the old value and alpha 1 takes the new one. |
| Analyzer.EmaFloored | DftProcessor.cpp:145-147 | Smoothing two spectra at or above -100 dB with alpha in [0, 1] stays at or above -100 dB. |
| Analyzer.SpectrumBatchPeak | DftProcessor.cpp:134-140 | After at least one chunk, every bin of `nextValues` is the loudest level that bin reached over the processed windows. |
| Analyzer.SpectrumSmoothFloored | DftProcessor.cpp:130-148 | Starting from floored spectra with alpha in [0, 1], both the peak spectrum and the new `dftOut` stay at or above -100 dB. |
| Analyzer.VolumeBatchPeak | DftProcessor.cpp:159-165 | After at least one chunk, the volume is the loudest of the processed windows' volumes. |
| Analyzer.VolumeSmoothFloored | DftProcessor.cpp:154-173 | With alpha in [0, 1], a floored `dftOut` stays floored after the volume blend. |
| Analyzer.ProcessInChunksAndSmooth | DftProcessor.cpp:130-148 | The cursor advances one window per processed chunk. On overflow it returns with the partial peak in `nextValues` and `dftOut` untouched. Otherwise `dftOut` becomes the moving average towards the peak. The buffer, sizes and frame count never change. |
| Analyzer.SpectrumLoop | DftProcessor.cpp:131-143 | The loop's cursor, `nextValues` and early return agree with the batch it runs. |
| Analyzer.SpectrumStep | DftProcessor.cpp:132-142 | One iteration either stops before an overflowing window or processes the chunk, leaving the rest of the batch unchanged. |
| Analyzer.SpectrumChunk | DftProcessor.cpp:134-140 | The first chunk's spectrum replaces `nextValues`. A later one is folded in bin by bin with `fmax`. |
| Analyzer.PeakHold | DftProcessor.cpp:139 | The loop computes the bin-by-bin peak. |
| Analyzer.Smooth | DftProcessor.cpp:145-147 | The loop computes the moving-average blend for every bin. |
| Analyzer.VolumeBlendBetween | DftProcessor.cpp:170-172 | With alpha in [0, 1], every bin of the volume blend lies between its old level and the volume. So a floored spectrum and volume stay above -100 dB. |
| Analyzer.ProcessVolumeOnly | DftProcessor.cpp:154-173 | The cursor advances one window per processed chunk. On overflow `dftOut` is untouched. Otherwise every bin is blended towards the loudest chunk volume. `nextValues` is untouched. |
| Analyzer.VolumeLoop | DftProcessor.cpp:156-168 | The loop's cursor, volume and early return agree with the batch it runs. |
| Analyzer.VolumeStep | DftProcessor.cpp:157-167 | One iteration either stops before an overflowing window or processes the chunk. |
| Analyzer.VolumeChunk | DftProcessor.cpp:159-165 | The first volume is kept, and a later one raises it with `fmax`. |
| Analyzer.ProcessDftOnce | DftProcessor.cpp:175-178 | The window's spectrum goes straight into `dftOut`, and the cursor moves one window on. |
| Analyzer.LastResult | DftProcessor.cpp:150-152 | The result has one level per bin. |
| RefCount.New | src/Ref.h:27 | A new object gets a fresh identity with count 0. No other object changes. |
| RefCount.IncRef | src/Ref.h:83-84 | A null pointer is untouched. Otherwise the count goes up by one, wrapping to 0 at 2^32 − 1. No other object changes. |
| RefCount.DecRef | src/Ref.h:85 | The object is deleted exactly when its count was already 0. Otherwise the count goes down by one. No other object's count changes, since the modelled objects hold no refs themselves. |
| RefCount.IncDecRoundTrip | src/Ref.h:83-85 | A release exactly undoes a share that did not wrap. |
| RefCount.IncRefWraps | src/Ref.h:83 | At 2^32 − 1 a share wraps the count to 0, so the next release deletes an object that is still shared. |
| RefCount.MkRef | src/Ref.h:105-108 | `mkref` and `explicit ref(T*)` add one to the count of a shared object. |
| RefCount.CopyRef | src/Ref.h:42 | A copy points at the same object, which stays alive even if the count wraps. That object's count goes up by one. |
| RefCount.Destroy | src/Ref.h:51 | Destroying a ref deletes its object exactly when the count was 0. |
| RefCount.AssignPtr | src/Ref.h:54-60 | The ref ends up pointing at the new object. That object stays alive, barring count wrap. The old object is deleted exactly when its count was 0. |
| RefCount.SelfAssignKeeps | src/Ref.h:54-60 | Self-assignment leaves heap and ref unchanged, even at count 0. |
| RefCount.DropFirstWouldDelete | src/Ref.h:55-57 | Releasing before sharing would delete the sole ref's object. `<<=` shares first, so the object survives. |
| RefCount.AssignNull | src/Ref.h:61 | Assigning null releases the share and nulls the ref. |
| RefCount.MoveAssign | src/Ref.h:66 | Move assignment releases the old share, takes the source pointer and nulls the source. |
| RefCount.MoveAssignSelf | src/Ref.h:66 | Moving a ref into itself leaves it null. |
| RefCount.SelfMoveAssignReleases | src/Ref.h:66 | Self move-assignment releases one share and drops the object from the ref. An object at count 0 is deleted. |
| RefCount.MoveRef | src/Ref.h:44 | A move changes no count. The new ref holds the old pointer, destroying the emptied source afterwards is harmless, and a live pointer stays live. |
| RefCount.OwningRef | src/Ref.h:100-103 | Taking a pointer over leaves every count as it was. Dropping the new ref deletes the object exactly when its count was 0, the "refs minus one" convention. |
| RefCount.UnmanagedPtr | src/Ref.h:73-80 | The raw pointer is returned with one extra share that no ref holds. |
| RefCount.CopyTimesCount | src/Ref.h:42 | k copies add exactly k to the count, as long as it does not wrap. |
| RefCount.ReleaseTimesCount | src/Ref.h:85 | Releasing j ≤ count shares leaves the object alive, with count reduced by j. |
| RefCount.OwnedLifetime | src/Ref.h:100-103 | An object from `owning_ref`/`newref`, copied k times, survives the first k releases and is deleted by the (k+1)-th. |
| RefCount.MkRefOnFreshKeepsAlive | src/Ref.h:105-108 | `mkref` on a fresh object leaves it alive at count 0 once that ref goes, which is why fresh objects use `owning_ref`. |
| RefCount.UnmanagedSurvivesRefs | src/Ref.h:73-80 | After `unmanaged_ptr`, every ref can go and the object is still alive at count 0. |

## Left out

- The transcendental maths: the flat-top window, the cos/sin correlation, `sqrt` and `log`. They are parameters (`Dft.Maths`), and no claim depends on their values beyond the stated assumptions.
- Floating-point rounding: doubles and floats are exact reals, so `float(1./6)`-style constants and rounding in `Color::blend` are not modelled.
- The logarithmic mode of `getDftPointInterpolated` (exp/log, unsigned `maxFrequency / minFrequency`): it is outside this model, like its possible read one past the table.
- `HSV` in every header (float `fmodf` and float-to-int truncation), `blitToSdlSurface`, `createDrawingSurface`, `setCurrentSurface`, and the SDL window and surface globals. These are SDL output glue.
- `Color::add`/`subtract`: plain float arithmetic with nothing to state beyond the definitions.
- main.cpp (WAV loading, audio queueing, event loop, timing) and src/Coroutines.h: I/O and scheduling plumbing, not part of this model.
- The `REF_DEBUG` allocation logging, `typeid` names, and the warning `~RefClass` prints: diagnostics only.
- `ref(const ref &&)` (src/Ref.h:43): it writes through a const reference and does not compile if instantiated.
- `operator->`, `operator*`, the `T*` conversion and the `==` operators of `ref<T>`: they only read `ptr`.
- `ScreenMover::addMove`: plain double addition. It is modelled as `AddMove`, with no contract beyond its definition.
- Analyzer.NewAnalyzerValid: only stereo data is modelled. `processDFT` always reads two samples per frame while the cursor scales by `wavSpec.channels`, so the analyzer invariant requires 2 channels and a frame count with one window of headroom below 2^32.
- Analyzer.ProcessVolumeOnly: requires at least one chunk, because with none the C++ code blends an uninitialised local. It also requires a non-empty window.
- Analyzer.ProcessDftOnce: requires that the next window does not overflow. The C++ code does not check, and would read past the buffer.
- Dft.ProcessDft: the normalisation branch requires at least 2 frames per window. With fewer, it divides by the integer `n / 2 == 0`.
- Dft.Spectrum: states the bin count and the -100 dB floor. The bins' values are given by its definition in terms of the supplied `Maths`.
- RefCount.AssignPtr: the object identities of the heap are abstract. Deleting an object leaves no dangling storage to model, so use-after-free is not represented.
- FloatSurface.GetPixel: the C++ default argument `defaultColor = Color()` (indeterminate components) is dropped, so every caller passes the default explicitly. The C++ callers only read in-range pixels, where the default is unused.
- RefCount.DecRef: `delete ptr` runs the object's destructor, which for a class holding `ref<>` members would release them and could delete further objects. These cascading releases are not modelled. No class deriving from `RefClass` appears in the modelled code.
- Surface.Valid: assumes 32-bit surfaces (4 bytes per pixel, pitch a multiple of 4). The C++ code writes whole `Uint32`s at byte offset `x * BytesPerPixel`, which overlap on 24-bit surfaces and cannot be expressed in the word view.
- Surface.ClearScreenMemset: the bytes are modelled through the word view (four equal bytes per word), not as a separate byte array.
