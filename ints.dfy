/** Machine-integer semantics of the Rust source: the i32 and u32 ranges, `i32::wrapping_add`
    and the truncating `%` operator on signed integers. */
module Ints {

  const I32_MIN: int := -0x8000_0000
  const I32_MAX: int := 0x7fff_ffff

  /** A Rust `i32` value. */
  type Int32 = x: int | I32_MIN <= x <= I32_MAX

  /** A Rust `u32` value. */
  type UInt32 = x: int | 0 <= x <= 0xffff_ffff

  /** `a.wrapping_add(b)` on `i32`: the sum reduced modulo 2^32 into the i32 range. */
  function WrappingAdd(a: Int32, b: Int32): (r: Int32)
    ensures I32_MIN <= a + b <= I32_MAX ==> r == a + b
    ensures a + b > I32_MAX ==> r == a + b - 0x1_0000_0000
    ensures a + b < I32_MIN ==> r == a + b + 0x1_0000_0000
  {
    (a + b - I32_MIN) % 0x1_0000_0000 + I32_MIN
  }

  /** Rust's `a % b` for a positive divisor: the remainder takes the sign of the dividend
      (Dafny's own `%` is Euclidean and never negative). */
  function TruncRem(a: int, b: int): (r: int)
    requires 0 < b
    ensures -b < r < b
    ensures 0 <= a ==> 0 <= r
    ensures a <= 0 ==> r <= 0
  {
    var m := if a < 0 then -a else a;
    var rem := m % b;
    assert 0 <= rem < b;
    if a < 0 then -rem else rem
  }
}
