# Aged-film and TV filters: a Dafny model of the pixel engines

This project models the pixel-processing core of two GStreamer video filters.

`gstagingtv` (src/gstaging/imp.rs) makes a BGRx video look like old film in three passes:
- It colour-ages every pixel. Each colour channel loses a quarter of its value and is shifted by
  a one-byte age accumulator plus per-pixel noise, all in wrapping `u8` arithmetic. When colour
  aging is off, the frame is copied instead.
- It runs a field of vertical scratches. Each scratch is a small state machine: dormant,
  randomly reactivated, moved by its velocity, killed when it leaves the frame. While it is
  alive it brightens a column of bytes.
- For BGRx output, it overwrites randomly chosen rows with rows of per-pixel grey noise.

`rstvfilter` (src/tvfilter/imp.rs) walks BGRx input row by row and pixel by pixel.
- For BGRx output it copies every pixel through `video_tv_filter`, which returns its input.
- For GRAY8 output it writes byte 0 of every pixel.
- It never touches row padding.
- It fails on a layout check or on an unsupported output format.

Modules:
- `Ints`: i32/u32 ranges, `wrapping_add` and Rust's truncating `%`.
- `Frames`: output formats, and the row/column arithmetic of strided buffers.
- `ColorAging`: `coloraging`.
- `Scratches`: `Scratch`, its step and reactivation, the drawing loop, and `scratching`.
- `AgingTv`: the element's settings, the noise-band pass, and the `GstAgingTv` class with
  its constructor, `Start` and `TransformFrame`.
- `TvFilter`: `bgrx_to_gray`, `video_tv_filter` and the two row loops of `transform_frame`.

Bytes are `bv8`, so wrapping `u8` arithmetic and the bit masks are the machine's own.
Every random draw (`fastrand`, `rand::thread_rng`) is a parameter the caller supplies.
Its type or a predicate limits it to the range the code draws from.
The code applies its own shifts and masks to these raw draws inside the model.
Each imperative loop is a Dafny method proved against a specification function of the old
buffer. The lemmas state the properties of those functions at byte and pixel level.

The model follows the code as written, including where it departs from what the names and
comments suggest:
- `coloraging` takes its accumulator by `&mut u8`, yet `transform_frame` passes a fresh
  `&mut 0x18` each frame. The accumulator therefore never carries over between frames.
  `TransformFrame` uses `NextAge(0x18, drop)` for every frame.
- A scratch is drawn from byte offset `x` itself. `x` is its fixed-point position, 256 per
  column, not a pixel column times 4. Each row steps `width * 4` bytes, not the stride. The
  model draws exactly these bytes (`Streak`). Its contracts say which bytes those are; they
  do not claim that a scratch lands in a pixel column. `x` moves by `dx` each frame, so it is
  usually not a multiple of 4: a streak row then writes into two pixels, including one pixel's
  fourth byte.
- `video_size` is `in_stride * height / 4`. Colour aging therefore also walks row padding
  (`VideoArea`).
- The grey conversion of `rstvfilter` is disabled. GRAY8 output is byte 0 (blue) of each pixel,
  not a luma value, and `shift` and `invert` have no effect.

Panics in `gstagingtv` are preconditions (`requires`):
- width ≥ 1 and height ≥ 2, for the `%` in a reactivation (the further bounds on width and
  height in `ValidGeometry` are not panics; see "## Left out");
- `dest[x..]` in range for every drawing scratch;
- `4 * video_size` at most the input and the output length, for the slices of colour aging;
- equal buffer lengths for `copy_from_slice`;
- the BGRx `assert!`s;
- non-zero strides.

In `rstvfilter` the same kind of failure is an outcome, `AssertionFailed` or `Unimplemented`.
It occurs before anything is written, so the output is unchanged.

## Model

| member | source | states |
|---|---|---|
| Ints.WrappingAdd | src/gstaging/imp.rs:358 | `i32::wrapping_add`: the exact sum when it fits in i32, otherwise the sum moved by 2^32 back into range |
| Ints.TruncRem | src/gstaging/imp.rs:405-407 | Rust `%` by a positive divisor: strictly inside (-b, b), with the sign of the dividend |
| Frames.WholeRows | src/tvfilter/imp.rs:409-411 | `chunks_exact(stride)` yields the largest number of whole rows that fit in the buffer |
| ColorAging.AgeDrop | src/gstaging/imp.rs:304 | the drop is 0 or 1, and it is 1 exactly when the draw's top bit is set |
| ColorAging.NextAge | src/gstaging/imp.rs:302-308 | the accumulator is at most 0x18; above 0x18 it is clamped; in (0, 0x18] it goes down by the drop; from 0 a drop wraps to 0xff and is clamped to 0x18 |
| ColorAging.PixelNoise | src/gstaging/imp.rs:324-328 | the per-pixel noise is 0 or 0x10, and it is 0x10 exactly when the draw's top bit is set |
| ColorAging.Fade | src/gstaging/imp.rs:320-326 | `a - ((a & 0xfc) >> 2)` plus a quarter of `a` gives back `a`: the channel loses at most 0x3f and never wraps |
| ColorAging.AgeChannel | src/gstaging/imp.rs:325-336 | one colour channel: the faded value plus the accumulator plus the pixel's noise, in wrapping `u8` arithmetic; `AgeChannelValue` gives its value and `Fade` bounds the faded part |
| ColorAging.AgeChannelValue | src/gstaging/imp.rs:325-336 | an aged channel is `a - a / 4 + age + noise` in wrapping `u8` arithmetic (`Quarter(a)` is `a / 4`): the channel less its quarter, plus the accumulator and the pixel's noise |
| ColorAging.Coloraging | src/gstaging/imp.rs:301-347 | returns `NextAge` of the accumulator; each colour channel of pixel i < video_area is `Fade(a) + age + noise(i)`, with one noise value per pixel; byte 3 is copied; nothing past 4 * video_area is written |
| Scratches.Respawn | src/gstaging/imp.rs:402-408 | a reactivated scratch has life in [2,33], dx in [-256,255], x a multiple of 256 with \|x\| <= (width-1)*256, and init in [3-height, height-1] |
| Scratches.StepScratch | src/gstaging/imp.rs:356-380 | dormant: no drawing, reactivated only when the top nibble of the draw is clear; active: x moves by dx with i32 wrap-around; leaving [0, width*256] sets life to 0 and draws nothing; otherwise life drops by exactly 1, init resets to 0, rows run from the old init to height, or to the drawn tail row when the scratch dies |
| Scratches.Spawns | src/gstaging/imp.rs:403 | `draw & 0xF0000000 == 0` holds exactly when the u32 draw is below 2^28 |
| Scratches.ValidGeometry | src/gstaging/imp.rs:362-407 | the frame geometry the scratch code needs: width >= 1 and height >= 2 for the `%` of a reactivation, and `width * 256` and `height` within i32 (see "## Left out") |
| Scratches.Streak | src/gstaging/imp.rs:382-399 | the drawing loop as a function of the buffer: same length; its bytes are characterised by `StreakAt` |
| Scratches.NextField | src/gstaging/imp.rs:356-410 | the field after one frame: same length, no active scratch gains life, and a dormant scratch whose draw does not spawn stays as it is |
| Scratches.Rows | src/gstaging/imp.rs:382 | `y1..y2` runs y2 - y1 times, and zero times when y2 <= y1 |
| Scratches.Brighten | src/gstaging/imp.rs:386-392 | the high nibble advances by 2 (mod 16); the low nibble becomes 0xF when bit 4 is set, otherwise bits 1-3 are kept and bit 0 is cleared |
| Scratches.StreakAt | src/gstaging/imp.rs:382-399 | a byte changes only if it is one of the first three bytes of a row `x + k*width*4` (k below the row count) that still has 4 bytes; such a byte is brightened exactly once; every other byte is unchanged |
| Scratches.StreakSparesFourthByte | src/gstaging/imp.rs:386-392 | byte `x + k*width*4 + 3`, the byte after each streak row's three brightened bytes, keeps its value |
| Scratches.DrawStreak | src/gstaging/imp.rs:364-399 | the drawing loop leaves the buffer equal to `Streak` of the old buffer, from offset x and stepping width*4 |
| Scratches.Fits | src/gstaging/imp.rs:364 | the slice `dest[x..]` of a drawing step is in range: x is at most the buffer length |
| Scratches.Render | src/gstaging/imp.rs:356-399 | the buffer after one scratch's step: unchanged when the step draws nothing, otherwise `Streak` from x over the step's rows; same length |
| Scratches.Scratched | src/gstaging/imp.rs:356-411 | the buffer after the first `count` scratches of the field, each drawn in field order on the result of the ones before; same length |
| Scratches.Scratching | src/gstaging/imp.rs:349-411 | each scratch in the field becomes its `StepScratch` successor, and the buffer is the old one with the scratches' steps drawn in field order |
| AgingTv.VideoArea | src/gstaging/imp.rs:434 | `in_stride * height / 4` rounded down: four times it is at most `in_stride * height` and within 4 of it |
| AgingTv.Aged | src/gstaging/imp.rs:310-344 | the output after `coloraging`: same length; the first `video_area` pixels are aged from the input, the rest keep their value; `AgedPixel` characterises its pixels |
| AgingTv.BgrxLayout | src/gstaging/imp.rs:454-462 | the BGRx asserts; when they hold both buffers have the same number of whole rows, non-zero strides, and a line fits in either stride |
| AgingTv.FrameFits | src/gstaging/imp.rs:414-477 | the conditions under which `transform_frame` does not panic: the geometry, the aging or copy lengths, the scratch slices and the BGRx asserts, with the random draws of the frame sized to match |
| AgingTv.AgingFrame | src/gstaging/imp.rs:435-477 | the frame output as aging or copy, then the scratches in field order, then the noise bands for BGRx output; same length as the output buffer |
| AgingTv.AgingPasses | src/gstaging/imp.rs:435-477 | the three passes, run in the source's order on the output buffer and the scratch field, leave the field equal to `NextField` and the output equal to `AgingFrame` |
| AgingTv.BandRow | src/gstaging/imp.rs:466-474 | in one picked row, the three colour bytes of pixel x take band value x; byte 3, the padding and all other bytes are unchanged |
| AgingTv.BandPass | src/gstaging/imp.rs:453-477 | for BGRx output the buffer becomes `Banded` over `BandRows` rows; for other formats it is unchanged |
| AgingTv.AgedPixel | src/gstaging/imp.rs:312-343 | in the aged output, the three channels of pixel i share one noise value and byte 3 equals the input |
| AgingTv.AgeOrCopy | src/gstaging/imp.rs:435-442 | with colour aging on, the output is the aged input under accumulator `NextAge(0x18, drop)`; with it off, the output is a byte-for-byte copy of the input |
| AgingTv.NoiseBandPixel | src/gstaging/imp.rs:464-474 | in a picked row below the row bound, channels 0-2 of each pixel take that pixel's band value in [16,235); byte 3 and rows not picked are unchanged |
| AgingTv.NoiseBandSparesPadding | src/gstaging/imp.rs:464-468 | bytes from width*4 to the stride of each row are never written by the band pass |
| AgingTv.BandTailKept | src/gstaging/imp.rs:464 | bytes at or past the end of the last visited row (`rows * stride`) keep their value: the band pass leaves the rows beyond `zip(..).take(height)` as they were |
| AgingTv.NoiseBands | src/gstaging/imp.rs:464-477 | the nested row/pixel loop leaves the output equal to `Banded` of the old output |
| AgingTv.BandByte | src/gstaging/imp.rs:464-477 | one byte after the band pass: it keeps its value or takes a band value in [16, 235); `NoiseBandPixel` and `NoiseBandSparesPadding` say which |
| AgingTv.Banded | src/gstaging/imp.rs:464-477 | the output after the band pass over the first `rows` rows: same length, every byte as `BandByte` gives it |
| AgingTv.BandRows | src/gstaging/imp.rs:464 | the band loop visits exactly min(input rows, output rows, height) rows, as `zip(..).take(height)` does, and they fit in the output buffer |
| AgingTv.DormantFieldDrawsNothing | src/gstaging/imp.rs:356-409 | a field whose scratches are all dormant leaves the frame untouched |
| AgingTv.PlainCopy | src/gstaging/imp.rs:435-477 | with colour aging off and `scratch_lines == 0` (empty field, no band rows), the frame output is exactly its input |
| AgingTv.GstAgingTv.constructor | src/gstaging/imp.rs:20-48 | a new element has the default settings (7 scratch lines, aging, pits and dusts on) and no scratches |
| AgingTv.GstAgingTv.Start | src/gstaging/imp.rs:265-280 | the scratch field becomes exactly `scratch_lines` default scratches; the settings are unchanged |
| AgingTv.GstAgingTv.TransformFrame | src/gstaging/imp.rs:414-483 | on the settings snapshot and the element's field: the field becomes `NextField` of the old field; the output is aging or copy, then the scratches, then, for BGRx output, the noise bands (`AgingFrame`) |
| TvFilter.BgrxToGray | src/tvfilter/imp.rs:66-87 | the pixel comes back unchanged, whatever `shift` and `invert` are |
| TvFilter.VideoTvFilter | src/tvfilter/imp.rs:90-97 | the result is the input pixel; the random values are ignored |
| TvFilter.BgrxAccepted | src/tvfilter/imp.rs:395-403 | the BGRx checks (with non-zero strides); when they hold, every whole input row has a whole output row |
| TvFilter.GrayAccepted | src/tvfilter/imp.rs:446-453 | the GRAY8 checks (with non-zero strides, no output multiple-of-4 check); when they hold, every whole input row has a whole output row |
| TvFilter.FilteredByte | src/tvfilter/imp.rs:409-480 | one output byte after the row loops: it keeps its value or is a byte of the input, since `video_tv_filter` and the GRAY8 write invent no value; the pixel lemmas say which |
| TvFilter.Filtered | src/tvfilter/imp.rs:409-480 | the output after the BGRx or GRAY8 row loop over the first `rows` rows: same length; `BgrxPixelCopied`, `GrayPixelCopied`, `PaddingKept` and `TailKept` characterise its bytes |
| TvFilter.BgrxPixelCopied | src/tvfilter/imp.rs:409-444 | BGRx: `out[r*out_stride + 4c + k] == in[r*in_stride + 4c + k]` for every processed row r, c < width, k < 4 |
| TvFilter.GrayPixelCopied | src/tvfilter/imp.rs:459-480 | GRAY8: `out[r*out_stride + c] == in[r*in_stride + 4c]` for every processed row r and c < width |
| TvFilter.PaddingKept | src/tvfilter/imp.rs:420-422 | in both formats, the bytes of an output row after its line bytes (width*4 or width) keep their value |
| TvFilter.TailKept | src/tvfilter/imp.rs:409-412 | output bytes past the last whole row keep their value |
| TvFilter.BgrxUnpaddedIsCopy | src/tvfilter/imp.rs:409-444 | when neither buffer has row padding, the BGRx output is exactly the input |
| TvFilter.FilterBgrxRow | src/tvfilter/imp.rs:420-443 | one BGRx row: the first width*4 bytes of the output row become those of the input row, and nothing else changes |
| TvFilter.FilterGrayRow | src/tvfilter/imp.rs:471-479 | one GRAY8 row: output byte c is byte 0 of input pixel c, and nothing else changes |
| TvFilter.FilterBgrx | src/tvfilter/imp.rs:409-444 | the BGRx row loop leaves the output equal to `Filtered` of the old output |
| TvFilter.FilterGray | src/tvfilter/imp.rs:459-480 | the GRAY8 row loop leaves the output equal to `Filtered` of the old output |
| TvFilter.TransformFrame | src/tvfilter/imp.rs:368-486 | BGRx and GRAY8 succeed exactly when their checks hold (input length a multiple of 4, equal row counts, lines fit the strides, and for BGRx the output length a multiple of 4); any other format is unimplemented; on failure the output is unchanged; on success it is `Filtered` over `in_len / in_stride` rows |

## Left out

- Property tables, property get/set, element metadata, pad templates, `transform_caps`, debug
  categories and plugin registration are pipeline plumbing. This includes the
  `"scratch_lines"`/`"scratch-lines"` naming.
- `Mutex` locking of the settings and the scratch field. The settings are a snapshot value and
  the field is an array the element owns.
- The floating-point `area_scale` in `gstagingtv`'s `transform_frame` is computed and never
  used.
- The random generators are left out. Their values are parameters, limited to the ranges the
  code draws from.
- Pits and dusts: the settings exist, and `if settings.pits {}` does nothing.
- The commented-out code in src/tvfilter/imp.rs is left out: the luma formula,
  `add_noise_to_image` and the GRAY8 caps.
- Panics in `gstagingtv` are preconditions, not behaviour. A frame that would panic is outside
  the model.
- A panic in `rstvfilter` (a failed `assert!`, or a division by a zero stride) is the outcome
  `AssertionFailed`. Nothing is said about how the pipeline reacts to it.
- Frame sizes: `ValidGeometry` also demands `width * 256 <= i32::MAX` and
  `height <= i32::MAX`. These are not panics in the source. `width as i32 * 256` overflows
  (a panic in debug builds, a wrap in release builds) and `height as i32` wraps silently.
  Frames wider than 8,388,607 pixels or taller than `i32::MAX` rows are outside the model, and
  the release-build wrap of `width as i32 * 256` is not modelled.
- Ints.TruncRem: states the range and the sign of Rust's remainder, but not that `a - r` is a
  multiple of `b`.
- AgingTv.GstAgingTv.Start: the random fields of `Scratch::default()` are parameters. The
  contract says the new field consists of them, not that they are uniformly distributed.
- TvFilter.FilterGrayRow: `bgrx_to_gray` is called on each pixel as in the code, and its
  result is unused. `shift as u8` is modelled as `shift % 256`.
