/** The `gstagingtv` element (src/gstaging/imp.rs): its settings, the scratch field it owns,
    `start`, and `transform_frame`, which colour-ages (or copies) the input into the output,
    steps and draws the scratches, and overwrites randomly chosen rows with per-pixel grey noise. */
module AgingTv {
  import opened Ints
  import opened Frames
  import opened ColorAging
  import opened Scratches

  /** A snapshot of the element's properties. `pits` and `dusts` are read by nothing. */
  datatype Settings = Settings(scratchLines: UInt32, colorAging: bool, pits: bool, dusts: bool)

  const DEFAULT_SETTINGS: Settings := Settings(7, true, true, true)

  /** The random values one call of `transform_frame` consumes: the accumulator drop and one
      noise draw per pixel for colour aging, the scratch draws, the rows picked for noise bands
      (`fastrand::usize(..height)`, one per scratch line), and the band value of every pixel
      (`fastrand::u8(16..235)`) by row and column. */
  datatype FrameDraws = FrameDraws(ageDrop: bv8, pixelNoise: seq<bv8>, scratch: seq<Draws>,
                                   lines: seq<nat>, band: seq<seq<bv8>>)

  /** Band values exist for every pixel of the first `rows` rows and lie in [16, 235). */
  predicate BandFits(band: seq<seq<bv8>>, rows: nat, width: nat) {
    rows <= |band| && forall y :: 0 <= y < rows ==> |band[y]| == width && forall x :: 0 <= x < width ==> 16 <= band[y][x] < 235
  }

  /** Byte `j` of the output after the noise-band pass over its first `rows` rows: the three
      colour bytes of each pixel of a picked row take that pixel's band value. */
  function BandByte(prev: seq<bv8>, stride: nat, width: nat, rows: nat, lines: seq<nat>, band: seq<seq<bv8>>, j: nat): (b: bv8)
    requires 0 < stride && j < |prev| && BandFits(band, rows, width)
    // a byte either keeps its value or takes a band value from [16, 235)
    ensures b == prev[j] || 16 <= b < 235
  {
    var y, c := Row(j, stride), Col(j, stride);
    if y < rows && y in lines && c < 4 * width && c % 4 < 3 then band[y][c / 4] else prev[j]
  }

  /** The output after the noise-band pass. */
  function Banded(prev: seq<bv8>, stride: nat, width: nat, rows: nat, lines: seq<nat>, band: seq<seq<bv8>>): (r: seq<bv8>)
    requires 0 < stride && BandFits(band, rows, width)
    ensures |r| == |prev|
  {
    seq(|prev|, j requires 0 <= j < |prev| => BandByte(prev, stride, width, rows, lines, band, j))
  }

  /** In a picked row the three colour bytes of a pixel share its band value; the fourth byte,
      and every byte of a row not picked, keep their value. */
  lemma NoiseBandPixel(prev: seq<bv8>, stride: nat, width: nat, rows: nat, lines: seq<nat>, band: seq<seq<bv8>>, y: nat, x: nat, k: nat)
    requires 4 * width <= stride && rows * stride <= |prev| && BandFits(band, rows, width)
    requires y < rows && x < width && k < 4
    ensures y * stride + 4 * x + k < |prev|
    ensures BandByte(prev, stride, width, rows, lines, band, y * stride + 4 * x + k) ==
              if y in lines && k < 3 then band[y][x] else prev[y * stride + 4 * x + k]
  {
    MulLe(y + 1, rows, stride);
    RowCol(y, 4 * x + k, stride);
  }

  /** The row padding, from byte `4 * width` of a row to the stride, is never written. */
  lemma NoiseBandSparesPadding(prev: seq<bv8>, stride: nat, width: nat, rows: nat, lines: seq<nat>, band: seq<seq<bv8>>, y: nat, c: nat)
    requires rows * stride <= |prev| && BandFits(band, rows, width)
    requires y < rows && 4 * width <= c < stride
    ensures y * stride + c < |prev|
    ensures BandByte(prev, stride, width, rows, lines, band, y * stride + c) == prev[y * stride + c]
  {
    MulLe(y + 1, rows, stride);
    RowCol(y, c, stride);
  }

  /** Every byte at or past the first `rows` rows keeps its value. */
  lemma BandTailKept(prev: seq<bv8>, stride: nat, width: nat, rows: nat, lines: seq<nat>, band: seq<seq<bv8>>, j: nat)
    requires 0 < stride && BandFits(band, rows, width) && rows * stride <= j < |prev|
    ensures Banded(prev, stride, width, rows, lines, band)[j] == prev[j]
  {
    RowBelow(j, stride, rows);
  }

  /** After a row's pixel loop, the bytes of that row are those of the band pass. */
  lemma BandRowDone(s: seq<bv8>, prev: seq<bv8>, stride: nat, width: nat, rows: nat, lines: seq<nat>, band: seq<seq<bv8>>, y: nat, base: nat)
    requires 4 * width <= stride && rows * stride <= |prev| == |s| && BandFits(band, rows, width)
    requires y < rows && base == y * stride && base + stride <= |s|
    requires forall j :: 0 <= j < base ==> s[j] == BandByte(prev, stride, width, rows, lines, band, j)
    requires forall j :: base <= j < |s| ==>
               s[j] == if y in lines && j < base + 4 * width && (j - base) % 4 < 3 then band[y][(j - base) / 4] else prev[j]
    ensures forall j :: 0 <= j < base + stride ==> s[j] == BandByte(prev, stride, width, rows, lines, band, j)
  {
    forall j | base <= j < base + stride
      ensures s[j] == BandByte(prev, stride, width, rows, lines, band, j)
    {
      RowCol(y, j - base, stride);
    }
  }

  /** The rows past the first `rows` are left as they were. */
  lemma BandTail(s: seq<bv8>, prev: seq<bv8>, stride: nat, width: nat, rows: nat, lines: seq<nat>, band: seq<seq<bv8>>)
    requires 0 < stride && rows * stride <= |prev| == |s| && BandFits(band, rows, width)
    requires forall j :: 0 <= j < rows * stride ==> s[j] == BandByte(prev, stride, width, rows, lines, band, j)
    requires forall j :: rows * stride <= j < |s| ==> s[j] == prev[j]
    ensures s == Banded(prev, stride, width, rows, lines, band)
  {
    forall j | rows * stride <= j < |s|
      ensures s[j] == BandByte(prev, stride, width, rows, lines, band, j)
    {
      RowBelow(j, stride, rows);
    }
  }

  /** One picked row: the three colour bytes of pixel `x` take the row's band value `x`. */
  method BandRow(out: array<bv8>, base: nat, width: nat, noise: seq<bv8>)
    requires base + 4 * width <= out.Length && |noise| == width
    modifies out
    ensures forall j :: 0 <= j < out.Length ==>
              out[j] == if base <= j < base + 4 * width && (j - base) % 4 < 3 then noise[(j - base) / 4] else old(out[j])
  {
    var x := 0;
    while x < width
      invariant x <= width
      invariant forall j :: 0 <= j < out.Length ==>
                  out[j] == if base <= j < base + 4 * x && (j - base) % 4 < 3 then noise[(j - base) / 4] else old(out[j])
    {
      out[base + 4 * x] := noise[x];
      out[base + 4 * x + 1] := noise[x];
      out[base + 4 * x + 2] := noise[x];
      x := x + 1;
    }
  }

  /** The horizontal noise-band pass of `transform_frame` over the first `rows` rows. */
  method NoiseBands(out: array<bv8>, stride: nat, width: nat, rows: nat, lines: seq<nat>, band: seq<seq<bv8>>)
    requires 4 * width <= stride && 0 < stride && rows * stride <= out.Length && BandFits(band, rows, width)
    modifies out
    ensures out[..] == Banded(old(out[..]), stride, width, rows, lines, band)
  {
    ghost var prev := out[..];
    var y := 0;
    while y < rows
      invariant y <= rows
      invariant forall j :: 0 <= j < y * stride ==> out[j] == BandByte(prev, stride, width, rows, lines, band, j)
      invariant forall j :: y * stride <= j < out.Length ==> out[j] == prev[j]
    {
      var base := y * stride;
      MulLe(y + 1, rows, stride);
      if y in lines {
        BandRow(out, base, width, band[y]);
      }
      BandRowDone(out[..], prev, stride, width, rows, lines, band, y, base);
      assert (y + 1) * stride == base + stride;
      y := y + 1;
    }
    BandTail(out[..], prev, stride, width, rows, lines, band);
  }

  /** `in_stride * height / 4`: the number of 4-byte units colour aging walks, row padding
      included. */
  function VideoArea(inStride: nat, height: nat): (n: nat)
    ensures 4 * n <= inStride * height < 4 * n + 4
  {
    inStride * height / 4
  }

  /** The output of the colour-aging pass: the first `videoArea` pixels aged, the rest kept. */
  function Aged(prev: seq<bv8>, src: seq<bv8>, age: bv8, noiseDraws: seq<bv8>, videoArea: nat): (r: seq<bv8>)
    requires 4 * videoArea <= |src| && 4 * videoArea <= |prev| && |noiseDraws| == videoArea
    ensures |r| == |prev|
  {
    seq(|prev|, j requires 0 <= j < |prev| =>
      if j < 4 * videoArea then
        if j % 4 == 3 then src[j] else AgeChannel(src[j], age, PixelNoise(noiseDraws[j / 4]))
      else prev[j])
  }

  /** Pixel `i` of the aged area: its three colour channels are aged with one shared noise
      value, its fourth byte is copied; bytes after the area keep their value. */
  lemma AgedPixel(prev: seq<bv8>, src: seq<bv8>, age: bv8, noiseDraws: seq<bv8>, videoArea: nat, i: nat, k: nat)
    requires 4 * videoArea <= |src| && 4 * videoArea <= |prev| && |noiseDraws| == videoArea
    requires i < videoArea && k < 4
    ensures Aged(prev, src, age, noiseDraws, videoArea)[4 * i + k] ==
              if k < 3 then AgeChannel(src[4 * i + k], age, PixelNoise(noiseDraws[i])) else src[4 * i + k]
  {
    assert (4 * i + k) / 4 == i && (4 * i + k) % 4 == k;
  }

  /** The checks of the BGRx branch of `transform_frame` (its `assert!`s, and the divisions
      by the strides). */
  predicate BgrxLayout(width: nat, inLen: nat, inStride: nat, outLen: nat, outStride: nat): (b: bool)
    // both buffers hold the same number of whole rows, and a line fits in either stride
    ensures b ==> 0 < inStride && 0 < outStride &&
                  WholeRows(inLen, inStride) == WholeRows(outLen, outStride) &&
                  4 * width <= inStride && 4 * width <= outStride
  {
    && inLen % 4 == 0 && outLen % 4 == 0
    && 0 < inStride && 0 < outStride
    && outLen / outStride == inLen / inStride
    && 4 * width <= inStride && 4 * width <= outStride
  }

  /** The rows the noise-band loop visits: `chunks_exact` of both buffers, zipped, at most
      `height` of them. */
  function BandRows(inLen: nat, inStride: nat, outLen: nat, outStride: nat, height: nat): (rows: nat)
    requires 0 < inStride && 0 < outStride
    ensures rows <= height && rows * outStride <= outLen
    // the zip stops at the shorter buffer and `take` at `height`: the least of the three
    ensures rows <= WholeRows(inLen, inStride) && rows <= WholeRows(outLen, outStride)
    ensures rows == height || rows == WholeRows(inLen, inStride) || rows == WholeRows(outLen, outStride)
  {
    var n := WholeRows(inLen, inStride);
    var m := WholeRows(outLen, outStride);
    var rows := if n <= m && n <= height then n else if m <= height then m else height;
    MulLe(rows, m, outStride);
    rows
  }

  /** Everything `transform_frame` needs not to panic, and the draws it consumes. */
  predicate FrameFits(settings: Settings, format: VideoFormat, width: nat, height: nat,
                      inLen: nat, inStride: nat, outLen: nat, outStride: nat,
                      field: seq<Scratch>, draws: FrameDraws)
  {
    && ValidGeometry(width, height)
    && (settings.colorAging ==>
          var area := VideoArea(inStride, height);
          4 * area <= inLen && 4 * area <= outLen && |draws.pixelNoise| == area)
    && (!settings.colorAging ==> inLen == outLen)
    && ValidDraws(draws.scratch, |field|, height)
    && SlicesFit(field, draws.scratch, width, height, outLen)
    && |draws.lines| == settings.scratchLines
    && (forall i :: 0 <= i < |draws.lines| ==> draws.lines[i] < height)
    && (format == Bgrx ==> BgrxLayout(width, inLen, inStride, outLen, outStride) && BandFits(draws.band, height, width))
  }

  /** The output `transform_frame` produces from the input, the previous output contents and
      the scratch field. */
  function AgingFrame(settings: Settings, format: VideoFormat, width: nat, height: nat,
                      src: seq<bv8>, inStride: nat, prev: seq<bv8>, outStride: nat,
                      field: seq<Scratch>, draws: FrameDraws): (r: seq<bv8>)
    requires FrameFits(settings, format, width, height, |src|, inStride, |prev|, outStride, field, draws)
    ensures |r| == |prev|
  {
    var aged :=
      if settings.colorAging then
        Aged(prev, src, NextAge(0x18, draws.ageDrop), draws.pixelNoise, VideoArea(inStride, height))
      else src;
    var scratched := Scratched(aged, field, draws.scratch, width, height, |field|);
    if format == Bgrx then
      var rows := BandRows(|src|, inStride, |prev|, outStride, height);
      Banded(scratched, outStride, width, rows, draws.lines, draws.band)
    else scratched
  }

  /** The three passes of a frame, taken one after the other, give `AgingFrame`. */
  lemma FrameComposes(settings: Settings, format: VideoFormat, width: nat, height: nat,
                      src: seq<bv8>, inStride: nat, prev: seq<bv8>, outStride: nat,
                      field: seq<Scratch>, draws: FrameDraws, aged: seq<bv8>, scratched: seq<bv8>, result: seq<bv8>)
    requires FrameFits(settings, format, width, height, |src|, inStride, |prev|, outStride, field, draws)
    requires aged == if settings.colorAging then
                       Aged(prev, src, NextAge(0x18, draws.ageDrop), draws.pixelNoise, VideoArea(inStride, height))
                     else src
    requires |aged| == |prev| && scratched == Scratched(aged, field, draws.scratch, width, height, |field|)
    requires result == if format == Bgrx then
                         Banded(scratched, outStride, width, BandRows(|src|, inStride, |prev|, outStride, height), draws.lines, draws.band)
                       else scratched
    ensures result == AgingFrame(settings, format, width, height, src, inStride, prev, outStride, field, draws)
  {
  }

  /** A field whose scratches are all dormant draws nothing. */
  lemma {:induction false} DormantFieldDrawsNothing(d: seq<bv8>, field: seq<Scratch>, draws: seq<Draws>, width: nat, height: nat, count: nat)
    requires ValidGeometry(width, height) && ValidDraws(draws, |field|, height)
    requires SlicesFit(field, draws, width, height, |d|) && count <= |field|
    requires forall i :: 0 <= i < count ==> field[i].life <= 0
    ensures Scratched(d, field, draws, width, height, count) == d
  {
    if count > 0 {
      DormantFieldDrawsNothing(d, field, draws, width, height, count - 1);
    }
  }

  /** With colour aging off, no scratch in the field and no noise rows (as `scratch_lines == 0`
      gives after `start`), a frame is a byte-for-byte copy of its input. */
  lemma PlainCopy(settings: Settings, format: VideoFormat, width: nat, height: nat,
                  src: seq<bv8>, inStride: nat, prev: seq<bv8>, outStride: nat, draws: FrameDraws)
    requires FrameFits(settings, format, width, height, |src|, inStride, |prev|, outStride, [], draws)
    requires !settings.colorAging && settings.scratchLines == 0
    ensures AgingFrame(settings, format, width, height, src, inStride, prev, outStride, [], draws) == src
  {
    if format == Bgrx {
      var rows := BandRows(|src|, inStride, |prev|, outStride, height);
      assert Banded(src, outStride, width, rows, draws.lines, draws.band) == src;
    }
  }

  /** The first pass of `transform_frame`: colour aging with a fresh accumulator of 0x18
      when enabled, otherwise `copy_from_slice` (which demands equal lengths). */
  method AgeOrCopy(colorAging: bool, src: seq<bv8>, out: array<bv8>, videoArea: nat, ageDrop: bv8, pixelNoise: seq<bv8>)
    requires colorAging ==> 4 * videoArea <= |src| && 4 * videoArea <= out.Length && |pixelNoise| == videoArea
    requires !colorAging ==> |src| == out.Length
    modifies out
    ensures out[..] == if colorAging then Aged(old(out[..]), src, NextAge(0x18, ageDrop), pixelNoise, videoArea) else src
  {
    ghost var prev := out[..];
    if colorAging {
      var _ := Coloraging(src, out, videoArea, 0x18, ageDrop, pixelNoise);
      assert out[..] == Aged(prev, src, NextAge(0x18, ageDrop), pixelNoise, videoArea);
    } else {
      forall i | 0 <= i < out.Length {
        out[i] := src[i];
      }
      assert out[..] == src;
    }
  }

  /** The last pass of `transform_frame`: for BGRx output, the noise bands over the rows the
      zipped row iterators reach; for any other format, nothing. */
  method BandPass(format: VideoFormat, inLen: nat, inStride: nat, out: array<bv8>, outStride: nat,
                  width: nat, height: nat, lines: seq<nat>, band: seq<seq<bv8>>)
    requires format == Bgrx ==> BgrxLayout(width, inLen, inStride, out.Length, outStride) && BandFits(band, height, width)
    modifies out
    ensures format == Bgrx ==>
              out[..] == Banded(old(out[..]), outStride, width, BandRows(inLen, inStride, out.Length, outStride, height), lines, band)
    ensures format != Bgrx ==> out[..] == old(out[..])
  {
    if format == Bgrx {
      var rows := BandRows(inLen, inStride, out.Length, outStride, height);
      assert BandFits(band, rows, width);
      NoiseBands(out, outStride, width, rows, lines, band);
    }
  }

  /** The passes of `transform_frame` in order, on the element's settings and scratch field. */
  method AgingPasses(settings: Settings, format: VideoFormat, width: nat, height: nat, src: seq<bv8>, inStride: nat,
                     out: array<bv8>, outStride: nat, field: array<Scratch>, draws: FrameDraws)
    requires FrameFits(settings, format, width, height, |src|, inStride, out.Length, outStride, field[..], draws)
    requires field as object != out as object
    modifies out, field
    ensures field[..] == NextField(old(field[..]), draws.scratch, width, height)
    ensures out[..] == AgingFrame(settings, format, width, height, src, inStride, old(out[..]), outStride, old(field[..]), draws)
  {
    ghost var prev := out[..];
    ghost var field0 := field[..];
    var videoSize := inStride * height / 4;
    AgeOrCopy(settings.colorAging, src, out, videoSize, draws.ageDrop, draws.pixelNoise);
    ghost var aged := out[..];
    assert field[..] == field0;
    Scratching(field, out, width, height, draws.scratch);
    ghost var scratched := out[..];
    BandPass(format, |src|, inStride, out, outStride, width, height, draws.lines, draws.band);
    FrameComposes(settings, format, width, height, src, inStride, prev, outStride, field0, draws, aged, scratched, out[..]);
  }

  /** The element: its settings and the scratch field it owns. */
  class GstAgingTv {
    var settings: Settings
    var scratches: array<Scratch>

    /** A new element has the default settings and no scratches until it is started. */
    constructor ()
      ensures settings == DEFAULT_SETTINGS && scratches.Length == 0
    {
      settings := DEFAULT_SETTINGS;
      scratches := new Scratch[0];
    }

    /** `start`: a new field of `scratch_lines` scratches, each with the random fields of
        `Scratch::default()`. */
    method Start(defaults: seq<Scratch>)
      requires |defaults| == settings.scratchLines
      modifies this
      ensures settings == old(settings)
      ensures fresh(scratches) && scratches[..] == defaults
    {
      var field := new Scratch[|defaults|];
      for i := 0 to |defaults|
        modifies field
        invariant forall j :: 0 <= j < i ==> field[j] == defaults[j]
      {
        field[i] := defaults[i];
      }
      scratches := field;
    }

    /** `transform_frame`: colour aging (with a fresh accumulator of 0x18) or a plain copy,
        then the scratches, then, for BGRx output, the noise bands. */
    method TransformFrame(format: VideoFormat, width: nat, height: nat, src: seq<bv8>, inStride: nat,
                          out: array<bv8>, outStride: nat, draws: FrameDraws)
      requires FrameFits(settings, format, width, height, |src|, inStride, out.Length, outStride, scratches[..], draws)
      requires scratches as object != out as object
      modifies out, scratches
      ensures scratches[..] == NextField(old(scratches[..]), draws.scratch, width, height)
      ensures out[..] == AgingFrame(settings, format, width, height, src, inStride, old(out[..]), outStride, old(scratches[..]), draws)
    {
      var field := scratches;
      AgingPasses(settings, format, width, height, src, inStride, out, outStride, field, draws);
    }
  }
}
