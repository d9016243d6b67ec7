/** The vertical film scratches of the aging element (src/gstaging/imp.rs, `Scratch` and
    `scratching`): each scratch is a small state machine that is dormant, reactivated with
    random parameters, moved by its velocity every frame, killed when it leaves the frame, and
    drawn as a column of brightened bytes while alive. */
module Scratches {
  import opened Ints
  import Frames

  /** One scratch. `x` and `dx` are fixed point with 256 units per pixel column, `life` is the
      number of frames left, `init` the first row of its first visible frame. */
  datatype Scratch = Scratch(life: Int32, x: Int32, dx: Int32, init: Int32)

  /** The random values one scratch may consume in one frame: the reactivation test
      (`fastrand::u32(..)`), the four reactivation draws, and the last row drawn in the frame
      the scratch dies (`fastrand::usize(..height)`). */
  datatype Draws = Draws(spawn: UInt32, life: UInt32, x: Int32, dx: Int32, init: Int32, tail: nat)

  /** What a scratch does in one frame: nothing, or draw rows `y1 .. y2` at its new position. */
  datatype Step = Idle(next: Scratch) | Draw(next: Scratch, y1: int, y2: int)

  /** The frame sizes for which `scratching` cannot panic on `%` or overflow an `i32` cast. */
  predicate ValidGeometry(width: nat, height: nat) {
    1 <= width && width * 256 <= I32_MAX && 2 <= height <= I32_MAX
  }

  /** The reactivation test `fastrand::u32(..) & 0xF0000000 == 0`: the top nibble is clear. */
  predicate Spawns(d: Draws): (b: bool)
    ensures b <==> d.spawn < 0x1000_0000
  {
    d.spawn / 0x1000_0000 == 0
  }

  /** The parameters of a reactivated scratch. Rust's `>>` on `u32` and `i32` is a floor
      division by a power of two, as Dafny's `/` by a positive constant is; its `%` is
      `TruncRem`. */
  function Respawn(width: nat, height: nat, d: Draws): (s: Scratch)
    requires ValidGeometry(width, height)
    ensures 2 <= s.life <= 33
    ensures -256 <= s.dx <= 255
    ensures s.x % 256 == 0 && -(width - 1) * 256 <= s.x <= (width - 1) * 256
    ensures 3 - height <= s.init <= height - 1
  {
    Scratch(2 + d.life / 0x800_0000,
            TruncRem(d.x, width) * 256,
            d.dx / 0x80_0000,
            TruncRem(d.init, height - 1) + 1)
  }

  /** One frame of one scratch. */
  function StepScratch(s: Scratch, width: nat, height: nat, d: Draws): (r: Step)
    requires ValidGeometry(width, height) && d.tail < height
    // a dormant scratch never draws; it either stays as it is or is reactivated
    ensures s.life <= 0 ==> r.Idle? && r.next == if Spawns(d) then Respawn(width, height, d) else s
    // an active scratch moves by dx (with i32 wrap-around) and keeps its velocity
    ensures 0 < s.life ==> r.next.x == WrappingAdd(s.x, s.dx) && r.next.dx == s.dx
    // an active scratch that leaves [0, width * 256] dies at once and draws nothing
    ensures 0 < s.life && !(0 <= r.next.x <= width * 256) ==>
              r.Idle? && r.next.life == 0 && r.next.init == s.init
    // an active scratch that stays in the frame loses exactly one frame of life and draws
    // from its pending start row down to the bottom, or to a random row when it dies
    ensures 0 < s.life && 0 <= r.next.x <= width * 256 ==>
              && r.Draw? && r.next.life == s.life - 1 && 0 <= r.next.life
              && r.next.init == 0 && r.y1 == s.init
              && (0 < r.next.life ==> r.y2 == height)
              && (r.next.life == 0 ==> 0 <= r.y2 < height && r.y2 == d.tail)
    // whatever happens, an active scratch never gains life
    ensures 0 < s.life ==> 0 <= r.next.life < s.life
  {
    if 0 < s.life then
      var x := WrappingAdd(s.x, s.dx);
      if x < 0 || x > width * 256 then
        Idle(s.(x := x, life := 0))
      else
        var life := s.life - 1;
        var y2 := if 0 < life then height else d.tail;
        Draw(Scratch(life, x, s.dx, 0), s.init, y2)
    else if Spawns(d) then
      Idle(Respawn(width, height, d))
    else
      Idle(s)
  }

  /** The number of iterations of `for _ in y1..y2`. */
  function Rows(y1: int, y2: int): (n: nat)
    ensures n == 0 <==> y2 <= y1
    ensures y1 < y2 ==> y1 + n == y2
  {
    if y1 < y2 then y2 - y1 else 0
  }

  /** One byte of a scratch: clear bit 0, add 0x20 with wrap-around, then fill the low nibble
      when bit 4 is set (`a | (b - (b >> 4))` with `b = a & 0x10`). */
  function Brighten(v: bv8): (r: bv8)
    // the high nibble advances by two steps, wrapping at 16
    ensures r & 0xF0 == (v & 0xF0) + 0x20
    // the low nibble is saturated when bit 4 is set, and otherwise keeps bits 1-3
    ensures r & 0x0F == if v & 0x10 != 0 then 0x0F else v & 0x0E
  {
    var a := (v & 0xFE) + 0x20;
    var b := a & 0x10;
    a | (b - (b >> 4))
  }

  /** The offset of row `k` of a scratch that starts at offset `o` and steps `w4` bytes per row. */
  function RowStart(o: nat, k: nat, w4: nat): (r: nat)
    ensures o <= r
  {
    o + k * w4
  }

  /** The buffer after drawing a scratch of `rows` rows from offset `o`, stepping `w4` bytes per
      row, as the drawing loop does: it stops before a row when fewer than four bytes are left,
      and after a row when no more than `w4` bytes are left. */
  function Streak(d: seq<bv8>, o: nat, w4: nat, rows: nat): (r: seq<bv8>)
    requires o <= |d|
    ensures |r| == |d|
    decreases rows
  {
    if rows == 0 || |d| - o < 4 then d
    else
      var d1 := d[o := Brighten(d[o])][o + 1 := Brighten(d[o + 1])][o + 2 := Brighten(d[o + 2])];
      if |d| - o > w4 then Streak(d1, o + w4, w4, rows - 1) else d1
  }

  /** Byte `j` is one of the three brightened bytes of a row of the streak that fits in a
      buffer of `n` bytes. */
  ghost predicate Drawn(j: int, o: nat, w4: nat, rows: nat, n: nat) {
    exists k: nat :: k < rows && RowStart(o, k, w4) + 4 <= n && RowStart(o, k, w4) <= j < RowStart(o, k, w4) + 3
  }

  /** The rows of a streak after its first are the rows of a streak that starts one step lower. */
  lemma {:induction false} DrawnStep(j: int, o: nat, w4: nat, rows: nat, n: nat)
    requires 0 < rows
    ensures Drawn(j, o, w4, rows, n) <==>
              (o + 4 <= n && o <= j < o + 3) || Drawn(j, o + w4, w4, rows - 1, n)
  {
    if Drawn(j, o, w4, rows, n) {
      var k: nat :| k < rows && RowStart(o, k, w4) + 4 <= n && RowStart(o, k, w4) <= j < RowStart(o, k, w4) + 3;
      if 0 < k {
        assert RowStart(o + w4, k - 1, w4) == RowStart(o, k, w4);
      }
    }
    if Drawn(j, o + w4, w4, rows - 1, n) {
      var k: nat :| k < rows - 1 && RowStart(o + w4, k, w4) + 4 <= n && RowStart(o + w4, k, w4) <= j < RowStart(o + w4, k, w4) + 3;
      assert RowStart(o, k + 1, w4) == RowStart(o + w4, k, w4);
    }
    if o + 4 <= n && o <= j < o + 3 {
      assert RowStart(o, 0, w4) == o;
    }
  }

  /** No byte below offset `o` belongs to a streak starting at `o`. */
  lemma NotDrawnAbove(j: int, o: nat, w4: nat, rows: nat, n: nat)
    requires j < o
    ensures !Drawn(j, o, w4, rows, n)
  {}

  /** Drawing a streak brightens exactly the bytes `Drawn` names, each once, and leaves every
      other byte as it was. */
  lemma {:induction false} StreakAt(d: seq<bv8>, o: nat, w4: nat, rows: nat, j: nat)
    requires o <= |d| && 4 <= w4 && j < |d|
    ensures Streak(d, o, w4, rows)[j] == if Drawn(j, o, w4, rows, |d|) then Brighten(d[j]) else d[j]
    decreases rows
  {
    if rows == 0 {
    } else if |d| - o < 4 {
      forall k: nat | k < rows ensures RowStart(o, k, w4) + 4 > |d| {}
    } else {
      var d1 := d[o := Brighten(d[o])][o + 1 := Brighten(d[o + 1])][o + 2 := Brighten(d[o + 2])];
      DrawnStep(j, o, w4, rows, |d|);
      if |d| - o > w4 {
        StreakAt(d1, o + w4, w4, rows - 1, j);
        if j < o + 3 {
          NotDrawnAbove(j, o + w4, w4, rows - 1, |d|);
        }
      } else {
        var o2 := o + w4;
        forall k: nat | k < rows - 1 ensures RowStart(o2, k, w4) + 4 > |d| {}
      }
    }
  }

  /** Rows of a streak do not overlap: an earlier row ends before the next one starts. */
  lemma RowsApart(o: nat, k: nat, k': nat, w4: nat)
    requires 4 <= w4
    ensures k' <= k ==> RowStart(o, k', w4) <= RowStart(o, k, w4)
    ensures k < k' ==> RowStart(o, k, w4) + 4 <= RowStart(o, k', w4)
  {
    if k' <= k {
      Frames.MulLe(k', k, w4);
    } else {
      Frames.MulLe(k + 1, k', w4);
      assert (k + 1) * w4 == k * w4 + w4;
    }
  }

  /** Byte `o + k * w4 + 3`, the byte after each streak row's three brightened bytes, keeps its
      value. When `o` is not a multiple of 4 that byte is not a pixel's fourth byte. */
  lemma StreakSparesFourthByte(d: seq<bv8>, o: nat, w4: nat, rows: nat, k: nat)
    requires o <= |d| && 4 <= w4 && RowStart(o, k, w4) + 3 < |d|
    ensures Streak(d, o, w4, rows)[RowStart(o, k, w4) + 3] == d[RowStart(o, k, w4) + 3]
  {
    var t := RowStart(o, k, w4) + 3;
    forall k': nat | k' < rows
      ensures !(RowStart(o, k', w4) <= t < RowStart(o, k', w4) + 3)
    {
      RowsApart(o, k, k', w4);
    }
    assert !Drawn(t, o, w4, rows, |d|);
    StreakAt(d, o, w4, rows, t);
  }

  /** The drawing loop of one scratch (`for _ in y1..y2`), on `p`, the slice of `dest` that
      starts at offset `p` (initially `x`) and moves down by `width * 4` bytes per row. */
  method DrawStreak(dest: array<bv8>, x: nat, w4: nat, y1: int, y2: int)
    requires x <= dest.Length
    modifies dest
    ensures dest[..] == Streak(old(dest[..]), x, w4, Rows(y1, y2))
  {
    var p: nat := x;
    var y := y1;
    while y < y2
      invariant p <= dest.Length
      invariant Streak(dest[..], p, w4, Rows(y, y2)) == Streak(old(dest[..]), x, w4, Rows(y1, y2))
      decreases y2 - y
    {
      if dest.Length - p < 4 {
        break;
      }
      dest[p] := Brighten(dest[p]);
      dest[p + 1] := Brighten(dest[p + 1]);
      dest[p + 2] := Brighten(dest[p + 2]);
      if dest.Length - p > w4 {
        p := p + w4;
      } else {
        break;
      }
      y := y + 1;
    }
  }

  /** Drawing the step of one scratch into a buffer of `n` bytes does not slice out of range
      (`&mut dest[x..]`). */
  predicate Fits(st: Step, n: nat) {
    st.Draw? ==> st.next.x <= n
  }

  /** The buffer after one scratch's step has been drawn into it. */
  function Render(d: seq<bv8>, st: Step, width: nat): (r: seq<bv8>)
    requires Fits(st, |d|) && (st.Draw? ==> 0 <= st.next.x)
    ensures |r| == |d|
  {
    match st
    case Idle(_) => d
    case Draw(s, y1, y2) => Streak(d, s.x, 4 * width, Rows(y1, y2))
  }

  /** The draws fit the field: one per scratch, each tail row inside the frame. */
  predicate ValidDraws(draws: seq<Draws>, count: nat, height: nat) {
    |draws| == count && forall i :: 0 <= i < count ==> draws[i].tail < height
  }

  /** No scratch of the field slices `dest` out of range in this frame. */
  predicate SlicesFit(field: seq<Scratch>, draws: seq<Draws>, width: nat, height: nat, n: nat)
    requires ValidGeometry(width, height) && ValidDraws(draws, |field|, height)
  {
    forall i :: 0 <= i < |field| ==> Fits(StepScratch(field[i], width, height, draws[i]), n)
  }

  /** The field after one frame. */
  function NextField(field: seq<Scratch>, draws: seq<Draws>, width: nat, height: nat): (r: seq<Scratch>)
    requires ValidGeometry(width, height) && ValidDraws(draws, |field|, height)
    ensures |r| == |field|
    // no active scratch gains life, and a dormant one that does not spawn stays as it is
    ensures forall i :: 0 <= i < |field| && 0 < field[i].life ==> 0 <= r[i].life < field[i].life
    ensures forall i :: 0 <= i < |field| && field[i].life <= 0 && !Spawns(draws[i]) ==> r[i] == field[i]
  {
    seq(|field|, i requires 0 <= i < |field| => StepScratch(field[i], width, height, draws[i]).next)
  }

  /** The buffer after the first `count` scratches of the field have been stepped and drawn,
      in field order. */
  function Scratched(d: seq<bv8>, field: seq<Scratch>, draws: seq<Draws>, width: nat, height: nat, count: nat): (r: seq<bv8>)
    requires ValidGeometry(width, height) && ValidDraws(draws, |field|, height)
    requires SlicesFit(field, draws, width, height, |d|) && count <= |field|
    ensures |r| == |d|
  {
    if count == 0 then d
    else
      Render(Scratched(d, field, draws, width, height, count - 1),
             StepScratch(field[count - 1], width, height, draws[count - 1]), width)
  }

  /** `scratching`: every scratch of the field, in order, takes one step and draws its streak. */
  method Scratching(scratches: array<Scratch>, dest: array<bv8>, width: nat, height: nat, draws: seq<Draws>)
    requires ValidGeometry(width, height) && ValidDraws(draws, scratches.Length, height)
    requires SlicesFit(scratches[..], draws, width, height, dest.Length)
    requires scratches as object != dest as object
    modifies scratches, dest
    ensures scratches[..] == NextField(old(scratches[..]), draws, width, height)
    ensures dest[..] == Scratched(old(dest[..]), old(scratches[..]), draws, width, height, scratches.Length)
  {
    ghost var field := scratches[..];
    ghost var d0 := dest[..];
    var i := 0;
    while i < scratches.Length
      invariant i <= scratches.Length
      invariant forall j :: 0 <= j < i ==> scratches[j] == StepScratch(field[j], width, height, draws[j]).next
      invariant forall j :: i <= j < scratches.Length ==> scratches[j] == field[j]
      invariant dest[..] == Scratched(d0, field, draws, width, height, i)
    {
      var st := StepScratch(scratches[i], width, height, draws[i]);
      assert Fits(st, dest.Length);
      scratches[i] := st.next;
      if st.Draw? {
        DrawStreak(dest, st.next.x, width * 4, st.y1, st.y2);
      }
      assert dest[..] == Render(Scratched(d0, field, draws, width, height, i), st, width);
      i := i + 1;
    }
    assert scratches[..] == NextField(field, draws, width, height);
  }
}
