/** The `rstvfilter` element (src/tvfilter/imp.rs): BGRx input is written to BGRx output
    pixel by pixel through `video_tv_filter`, or to GRAY8 output as the first byte of every
    pixel; the padding at the end of each output row is never written. */
module TvFilter {
  import opened Ints
  import opened Frames

  /** The element's properties; neither changes what a frame produces. */
  datatype Settings = Settings(invert: bool, shift: UInt32)

  /** What `transform_frame` comes to: `Ok`, a failed `assert!`/`assert_eq!` or a division by a
      zero stride (both panics, and both before anything is written), or `unimplemented!()` for
      an output format other than BGRx and GRAY8. */
  datatype Outcome = Ok | AssertionFailed | Unimplemented

  /** `bgrx_to_gray`: the luma computation is disabled, and the pixel comes back as it went in,
      whatever the shift and the inversion flag. */
  function BgrxToGray(inP: seq<bv8>, shift: bv8, invert: bool): (r: seq<bv8>)
    ensures r == inP
  {
    inP
  }

  /** `video_tv_filter`: the random values are not used; the result is a copy of the pixel. */
  function VideoTvFilter(rand: seq<bv8>, inP: seq<bv8>): (r: seq<bv8>)
    ensures r == inP
  {
    inP
  }

  /** The three values `generate_random_array(3)` draws for every pixel of every row, each in
      `0..=12`, for the first `rows` rows. */
  predicate RandFits(rand: seq<seq<seq<bv8>>>, rows: nat, width: nat) {
    rows <= |rand| &&
    forall y :: 0 <= y < rows ==>
      |rand[y]| == width &&
      forall x :: 0 <= x < width ==> |rand[y][x]| == 3 && forall k :: 0 <= k < 3 ==> rand[y][x][k] <= 12
  }

  /** The checks of the BGRx branch, including the divisions by the strides. */
  predicate BgrxAccepted(width: nat, inLen: nat, inStride: nat, outLen: nat, outStride: nat): (b: bool)
    // when accepted, every whole input row has a whole output row to go to
    ensures b ==> 0 < inStride && 0 < outStride && WholeRows(inLen, inStride) * outStride <= outLen
  {
    && 0 < inStride && 0 < outStride
    && inLen % 4 == 0 && outLen % 4 == 0
    && outLen / outStride == inLen / inStride
    && 4 * width <= inStride && 4 * width <= outStride
  }

  /** The checks of the GRAY8 branch: the output length need not be a multiple of 4, and an
      output line is `width` bytes. */
  predicate GrayAccepted(width: nat, inLen: nat, inStride: nat, outLen: nat, outStride: nat): (b: bool)
    ensures b ==> 0 < inStride && 0 < outStride && WholeRows(inLen, inStride) * outStride <= outLen
  {
    && 0 < inStride && 0 < outStride
    && inLen % 4 == 0
    && outLen / outStride == inLen / inStride
    && 4 * width <= inStride && width <= outStride
  }

  /** The output bytes one row carries: four per pixel for BGRx, one for GRAY8. */
  function LineBytes(gray: bool, width: nat): (n: nat) {
    if gray then width else 4 * width
  }

  /** The offset in the input row of the byte that output column `c` takes: the same offset
      for BGRx, byte 0 of pixel `c` for GRAY8. */
  function SourceCol(gray: bool, c: nat): (offset: nat) {
    if gray then 4 * c else c
  }

  /** Byte `j` of the output after the first `rows` rows are filtered. */
  function FilteredByte(gray: bool, prev: seq<bv8>, src: seq<bv8>, inStride: nat, outStride: nat,
                        width: nat, rows: nat, j: nat): (b: bv8)
    requires 0 < outStride && 4 * width <= inStride && rows * inStride <= |src| && j < |prev|
    // the filter invents no value: a byte is either kept or taken from the input
    ensures b == prev[j] || b in src
  {
    var y, c := Row(j, outStride), Col(j, outStride);
    if y < rows && c < LineBytes(gray, width) then
      MulLe(y + 1, rows, inStride);
      src[y * inStride + SourceCol(gray, c)]
    else prev[j]
  }

  /** The whole output after the first `rows` rows are filtered. */
  function Filtered(gray: bool, prev: seq<bv8>, src: seq<bv8>, inStride: nat, outStride: nat,
                    width: nat, rows: nat): (r: seq<bv8>)
    requires 0 < outStride && 4 * width <= inStride && rows * inStride <= |src|
    ensures |r| == |prev|
  {
    seq(|prev|, j requires 0 <= j < |prev| => FilteredByte(gray, prev, src, inStride, outStride, width, rows, j))
  }

  /** BGRx output: byte `k` of pixel `x` in row `y` is byte `k` of the same input pixel. */
  lemma BgrxPixelCopied(prev: seq<bv8>, src: seq<bv8>, inStride: nat, outStride: nat, width: nat, rows: nat,
                        y: nat, x: nat, k: nat)
    requires 4 * width <= inStride && 4 * width <= outStride
    requires rows * inStride <= |src| && rows * outStride <= |prev|
    requires y < rows && x < width && k < 4
    ensures y * outStride + 4 * x + k < |prev| && y * inStride + 4 * x + k < |src|
    ensures Filtered(false, prev, src, inStride, outStride, width, rows)[y * outStride + 4 * x + k] ==
              src[y * inStride + 4 * x + k]
  {
    MulLe(y + 1, rows, outStride);
    MulLe(y + 1, rows, inStride);
    RowCol(y, 4 * x + k, outStride);
  }

  /** GRAY8 output: byte `x` of row `y` is byte 0 of input pixel `x` of that row. */
  lemma GrayPixelCopied(prev: seq<bv8>, src: seq<bv8>, inStride: nat, outStride: nat, width: nat, rows: nat,
                        y: nat, x: nat)
    requires 4 * width <= inStride && width <= outStride
    requires rows * inStride <= |src| && rows * outStride <= |prev|
    requires y < rows && x < width
    ensures y * outStride + x < |prev| && y * inStride + 4 * x < |src|
    ensures Filtered(true, prev, src, inStride, outStride, width, rows)[y * outStride + x] == src[y * inStride + 4 * x]
  {
    MulLe(y + 1, rows, outStride);
    MulLe(y + 1, rows, inStride);
    RowCol(y, x, outStride);
  }

  /** In both formats the padding of an output row, after its line bytes, keeps its value. */
  lemma PaddingKept(gray: bool, prev: seq<bv8>, src: seq<bv8>, inStride: nat, outStride: nat, width: nat, rows: nat,
                    y: nat, c: nat)
    requires 4 * width <= inStride && rows * inStride <= |src| && rows * outStride <= |prev|
    requires y < rows && LineBytes(gray, width) <= c < outStride
    ensures y * outStride + c < |prev|
    ensures Filtered(gray, prev, src, inStride, outStride, width, rows)[y * outStride + c] == prev[y * outStride + c]
  {
    MulLe(y + 1, rows, outStride);
    RowCol(y, c, outStride);
  }

  /** Bytes past the last whole row keep their value. */
  lemma TailKept(gray: bool, prev: seq<bv8>, src: seq<bv8>, inStride: nat, outStride: nat, width: nat, rows: nat, j: nat)
    requires 0 < outStride && 4 * width <= inStride && rows * inStride <= |src|
    requires rows * outStride <= j < |prev|
    ensures Filtered(gray, prev, src, inStride, outStride, width, rows)[j] == prev[j]
  {
    RowBelow(j, outStride, rows);
  }

  /** Without row padding (both strides equal to the line size) the BGRx output of a frame is
      its input. */
  lemma BgrxUnpaddedIsCopy(prev: seq<bv8>, src: seq<bv8>, width: nat, rows: nat)
    requires 0 < width && |prev| == |src| == rows * (4 * width)
    ensures Filtered(false, prev, src, 4 * width, 4 * width, width, rows) == src
  {
    var stride := 4 * width;
    forall j | 0 <= j < |src|
      ensures Filtered(false, prev, src, stride, stride, width, rows)[j] == src[j]
    {
      assert j == Row(j, stride) * stride + Col(j, stride);
      RowBelow(j, stride, rows);
    }
  }

  /** After a row's pixel loop, the bytes of that row are those of the filtered output. */
  lemma RowFiltered(gray: bool, s: seq<bv8>, prev: seq<bv8>, src: seq<bv8>, inStride: nat, outStride: nat,
                    width: nat, rows: nat, y: nat, inBase: nat, outBase: nat)
    requires 0 < outStride && 4 * width <= inStride && LineBytes(gray, width) <= outStride
    requires rows * inStride <= |src| && |prev| == |s| && y < rows
    requires inBase == y * inStride && outBase == y * outStride
    requires inBase + inStride <= |src| && outBase + outStride <= |s|
    requires forall j :: 0 <= j < outBase ==> s[j] == FilteredByte(gray, prev, src, inStride, outStride, width, rows, j)
    requires forall j :: outBase <= j < |s| ==>
               s[j] == if j < outBase + LineBytes(gray, width) then src[inBase + SourceCol(gray, j - outBase)] else prev[j]
    ensures forall j :: 0 <= j < outBase + outStride ==> s[j] == FilteredByte(gray, prev, src, inStride, outStride, width, rows, j)
  {
    forall j | outBase <= j < outBase + outStride
      ensures s[j] == FilteredByte(gray, prev, src, inStride, outStride, width, rows, j)
    {
      RowCol(y, j - outBase, outStride);
    }
  }

  /** Once the first `rows` rows are done, the output is the filtered one. */
  lemma RowsFiltered(gray: bool, s: seq<bv8>, prev: seq<bv8>, src: seq<bv8>, inStride: nat, outStride: nat,
                     width: nat, rows: nat)
    requires 0 < outStride && 4 * width <= inStride && rows * inStride <= |src| && |prev| == |s|
    requires forall j :: 0 <= j < rows * outStride && j < |s| ==>
               s[j] == FilteredByte(gray, prev, src, inStride, outStride, width, rows, j)
    requires forall j :: rows * outStride <= j < |s| ==> s[j] == prev[j]
    ensures s == Filtered(gray, prev, src, inStride, outStride, width, rows)
  {
    forall j | rows * outStride <= j < |s|
      ensures s[j] == FilteredByte(gray, prev, src, inStride, outStride, width, rows, j)
    {
      RowBelow(j, outStride, rows);
    }
  }

  /** One row of the BGRx branch: pixel `x` of the input row is filtered with its own random
      values and copied into pixel `x` of the output row. */
  method FilterBgrxRow(src: seq<bv8>, inBase: nat, out: array<bv8>, outBase: nat, width: nat, rand: seq<seq<bv8>>)
    requires inBase + 4 * width <= |src| && outBase + 4 * width <= out.Length && |rand| == width
    modifies out
    ensures forall j :: 0 <= j < out.Length ==>
              out[j] == if outBase <= j < outBase + 4 * width then src[inBase + (j - outBase)] else old(out[j])
  {
    var x := 0;
    while x < width
      invariant x <= width
      invariant forall j :: 0 <= j < out.Length ==>
                  out[j] == if outBase <= j < outBase + 4 * x then src[inBase + (j - outBase)] else old(out[j])
    {
      var at := inBase + 4 * x;
      var filtered := VideoTvFilter(rand[x], src[at..at + 4]);
      out[outBase + 4 * x] := filtered[0];
      out[outBase + 4 * x + 1] := filtered[1];
      out[outBase + 4 * x + 2] := filtered[2];
      out[outBase + 4 * x + 3] := filtered[3];
      x := x + 1;
    }
  }

  /** One row of the GRAY8 branch: output byte `x` of the row takes byte 0 of input pixel `x`. */
  method FilterGrayRow(settings: Settings, src: seq<bv8>, inBase: nat, out: array<bv8>, outBase: nat, width: nat)
    requires inBase + 4 * width <= |src| && outBase + width <= out.Length
    modifies out
    ensures forall j :: 0 <= j < out.Length ==>
              out[j] == if outBase <= j < outBase + width then src[inBase + 4 * (j - outBase)] else old(out[j])
  {
    var x := 0;
    while x < width
      invariant x <= width
      invariant forall j :: 0 <= j < out.Length ==>
                  out[j] == if outBase <= j < outBase + x then src[inBase + 4 * (j - outBase)] else old(out[j])
    {
      var at := inBase + 4 * x;
      var inP := src[at..at + 4];
      var _ := BgrxToGray(inP, (settings.shift % 256) as bv8, settings.invert);
      out[outBase + x] := inP[0];
      x := x + 1;
    }
  }

  /** The BGRx branch: every pixel of every whole row goes through `video_tv_filter`. */
  method FilterBgrx(src: seq<bv8>, inStride: nat, out: array<bv8>, outStride: nat, width: nat, rows: nat,
                    rand: seq<seq<seq<bv8>>>)
    requires 0 < outStride && 4 * width <= inStride && 4 * width <= outStride
    requires rows * inStride <= |src| && rows * outStride <= out.Length && RandFits(rand, rows, width)
    modifies out
    ensures out[..] == Filtered(false, old(out[..]), src, inStride, outStride, width, rows)
  {
    ghost var prev := out[..];
    var y := 0;
    while y < rows
      invariant y <= rows
      invariant forall j :: 0 <= j < y * outStride ==> out[j] == FilteredByte(false, prev, src, inStride, outStride, width, rows, j)
      invariant forall j :: y * outStride <= j < out.Length ==> out[j] == prev[j]
    {
      var inBase, outBase := y * inStride, y * outStride;
      MulLe(y + 1, rows, inStride);
      MulLe(y + 1, rows, outStride);
      FilterBgrxRow(src, inBase, out, outBase, width, rand[y]);
      RowFiltered(false, out[..], prev, src, inStride, outStride, width, rows, y, inBase, outBase);
      assert (y + 1) * outStride == outBase + outStride;
      y := y + 1;
    }
    RowsFiltered(false, out[..], prev, src, inStride, outStride, width, rows);
  }

  /** The GRAY8 branch: every pixel of every whole row is reduced to its first byte. */
  method FilterGray(settings: Settings, src: seq<bv8>, inStride: nat, out: array<bv8>, outStride: nat,
                    width: nat, rows: nat)
    requires 0 < outStride && 4 * width <= inStride && width <= outStride
    requires rows * inStride <= |src| && rows * outStride <= out.Length
    modifies out
    ensures out[..] == Filtered(true, old(out[..]), src, inStride, outStride, width, rows)
  {
    ghost var prev := out[..];
    var y := 0;
    while y < rows
      invariant y <= rows
      invariant forall j :: 0 <= j < y * outStride ==> out[j] == FilteredByte(true, prev, src, inStride, outStride, width, rows, j)
      invariant forall j :: y * outStride <= j < out.Length ==> out[j] == prev[j]
    {
      var inBase, outBase := y * inStride, y * outStride;
      MulLe(y + 1, rows, inStride);
      MulLe(y + 1, rows, outStride);
      FilterGrayRow(settings, src, inBase, out, outBase, width);
      RowFiltered(true, out[..], prev, src, inStride, outStride, width, rows, y, inBase, outBase);
      assert (y + 1) * outStride == outBase + outStride;
      y := y + 1;
    }
    RowsFiltered(true, out[..], prev, src, inStride, outStride, width, rows);
  }

  /** `transform_frame`: the checks of the branch chosen by the output format, then the
      branch's row loop over the `in_len / in_stride` whole rows. */
  method TransformFrame(settings: Settings, format: VideoFormat, width: nat, src: seq<bv8>, inStride: nat,
                        out: array<bv8>, outStride: nat, rand: seq<seq<seq<bv8>>>)
    returns (r: Outcome)
    requires 0 < inStride ==> RandFits(rand, |src| / inStride, width)
    modifies out
    ensures format == OtherFormat ==> r == Unimplemented
    ensures format == Bgrx ==> (r == Ok <==> BgrxAccepted(width, |src|, inStride, out.Length, outStride))
    ensures format == Gray8 ==> (r == Ok <==> GrayAccepted(width, |src|, inStride, out.Length, outStride))
    ensures format != OtherFormat && r != Ok ==> r == AssertionFailed
    ensures r != Ok ==> out[..] == old(out[..])
    ensures r == Ok ==> (0 < outStride && 4 * width <= inStride &&
              out[..] == Filtered(format == Gray8, old(out[..]), src, inStride, outStride, width, |src| / inStride))
  {
    if format == Bgrx {
      if !BgrxAccepted(width, |src|, inStride, out.Length, outStride) {
        return AssertionFailed;
      }
      var rows := WholeRows(|src|, inStride);
      FilterBgrx(src, inStride, out, outStride, width, rows, rand);
    } else if format == Gray8 {
      if !GrayAccepted(width, |src|, inStride, out.Length, outStride) {
        return AssertionFailed;
      }
      var rows := WholeRows(|src|, inStride);
      FilterGray(settings, src, inStride, out, outStride, width, rows);
    } else {
      return Unimplemented;
    }
    return Ok;
  }
}
