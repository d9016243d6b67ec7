/** Video frames as flat byte buffers addressed through a row stride: the pixel formats the
    two elements negotiate, and the arithmetic that splits a byte offset into row and column. */
module Frames {

  /** The output formats the elements can be asked for (`gst_video::VideoFormat`). Input is
      always BGRx; any other output format is `OtherFormat`. */
  datatype VideoFormat = Bgrx | Gray8 | OtherFormat

  /** The row of byte offset `j` in a buffer whose rows are `stride` bytes apart. */
  function Row(j: nat, stride: nat): (y: nat)
    requires 0 < stride
  {
    j / stride
  }

  /** The byte offset of `j` inside its row. */
  function Col(j: nat, stride: nat): (c: nat)
    requires 0 < stride
  {
    j % stride
  }

  lemma MulLe(a: int, b: int, k: nat)
    requires a <= b
    ensures a * k <= b * k
  {}

  lemma MulLeIff(a: int, b: int, k: nat)
    requires 0 < k
    ensures a <= b <==> a * k <= b * k
  {
    if a <= b {
      MulLe(a, b, k);
    } else {
      MulLe(b + 1, a, k);
    }
  }

  /** Byte `c` of row `y` has row `y` and column `c`, whatever the stride. */
  lemma RowCol(y: nat, c: nat, stride: nat)
    requires c < stride
    ensures Row(y * stride + c, stride) == y && Col(y * stride + c, stride) == c
  {
    var j := y * stride + c;
    var q := j / stride;
    assert j == q * stride + j % stride;
    MulLeIff(q + 1, y, stride);
    MulLeIff(y + 1, q, stride);
  }

  /** A byte lies in the first `rows` rows exactly when it lies below `rows * stride`. */
  lemma RowBelow(j: nat, stride: nat, rows: nat)
    requires 0 < stride
    ensures Row(j, stride) < rows <==> j < rows * stride
  {
    assert j == Row(j, stride) * stride + Col(j, stride);
    MulLeIff(Row(j, stride) + 1, rows, stride);
    MulLeIff(rows, Row(j, stride), stride);
  }

  /** The number of whole rows (`chunks_exact(stride)`) in a buffer of `len` bytes. */
  function WholeRows(len: nat, stride: nat): (rows: nat)
    requires 0 < stride
    ensures rows * stride <= len < rows * stride + stride
  {
    var rows := len / stride;
    assert len == rows * stride + len % stride;
    rows
  }
}
