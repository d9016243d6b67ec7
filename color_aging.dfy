/** The colour-aging pass of the aging element (`coloraging` in src/gstaging/imp.rs): every
    4-byte pixel has its three colour channels faded by a quarter and shifted by a one-byte
    age accumulator plus per-pixel noise, all in wrapping `u8` arithmetic; the fourth byte is
    copied. */
module ColorAging {

  /** `fastrand::u8(..) >> 7`: the amount taken off the accumulator, the draw's top bit. */
  function AgeDrop(draw: bv8): (d: bv8)
    ensures d == 0 || d == 1
    ensures d == 1 <==> draw >= 0x80
  {
    draw >> 7
  }

  /** The accumulator for this frame: decremented with wrap-around by `AgeDrop(draw)`, then
      clamped to at most 0x18. */
  function NextAge(c: bv8, draw: bv8): (r: bv8)
    ensures r <= 0x18
    // an accumulator above the clamp is pulled back to it
    ensures c > 0x18 ==> r == 0x18
    // inside (0, 0x18] it goes down by the drop, without wrapping
    ensures 0 < c <= 0x18 ==> r + AgeDrop(draw) == c && r <= c
    // at zero a drop wraps to 0xff, which the clamp turns into 0x18
    ensures c == 0 ==> r == if draw >= 0x80 then 0x18 else 0
  {
    var t := c - AgeDrop(draw);
    if t > 0x18 then 0x18 else t
  }

  /** `(fastrand::u8(..) >> 3) & 0x10`: the noise added to every channel of one pixel. */
  function PixelNoise(draw: bv8): (n: bv8)
    ensures n == 0 || n == 0x10
    ensures n == 0x10 <==> draw >= 0x80
  {
    (draw >> 3) & 0x10
  }

  /** `a - ((a & 0xfc) >> 2)`: the channel loses a quarter of its value, rounded down. */
  function Fade(a: bv8): (r: bv8)
    ensures r + a / 4 == a
    ensures r <= a && a - r <= 0x3f
  {
    a - ((a & 0xfc) >> 2)
  }

  /** One aged colour channel, in wrapping `u8` arithmetic. */
  function AgeChannel(a: bv8, age: bv8, noise: bv8): (r: bv8) {
    Fade(a) + age + noise
  }

  /** A quarter of a channel, rounded down. */
  function Quarter(a: bv8): (q: bv8) {
    a / 4
  }

  /** An aged channel is the channel less a quarter of itself, plus the accumulator and the
      pixel's noise, all modulo 256. */
  lemma AgeChannelValue(a: bv8, age: bv8, noise: bv8)
    ensures AgeChannel(a, age, noise) == a - Quarter(a) + age + noise
  {
    assert Fade(a) == a - Quarter(a);
  }

  /** The four bytes `4 * i .. 4 * i + 4` belong to pixel `i`, one per channel. */
  lemma PixelBytes(i: nat)
    ensures forall j :: 4 * i <= j < 4 * i + 4 ==> j / 4 == i && j % 4 == j - 4 * i
  {
  }

  /** `coloraging`: the accumulator `c` is updated first, then each of the first `videoArea`
      pixels of `src` is aged into `dest` with the pixel's own noise draw. */
  method Coloraging(src: seq<bv8>, dest: array<bv8>, videoArea: nat, c: bv8, dropDraw: bv8, noiseDraws: seq<bv8>)
    returns (age: bv8)
    requires 4 * videoArea <= |src| && 4 * videoArea <= dest.Length && |noiseDraws| == videoArea
    modifies dest
    ensures age == NextAge(c, dropDraw)
    // every colour channel of pixel i is aged with the pixel's single noise value
    ensures forall j :: 0 <= j < 4 * videoArea && j % 4 < 3 ==>
              dest[j] == AgeChannel(src[j], age, PixelNoise(noiseDraws[j / 4]))
    // the fourth byte of every pixel is copied
    ensures forall j :: 0 <= j < 4 * videoArea && j % 4 == 3 ==> dest[j] == src[j]
    // nothing after the first videoArea pixels is written
    ensures forall j :: 4 * videoArea <= j < dest.Length ==> dest[j] == old(dest[j])
  {
    age := c - AgeDrop(dropDraw);
    if age > 0x18 {
      age := 0x18;
    }
    var i := 0;
    while i < videoArea
      invariant i <= videoArea
      invariant forall j :: 0 <= j < 4 * i && j % 4 < 3 ==>
                  dest[j] == AgeChannel(src[j], age, PixelNoise(noiseDraws[j / 4]))
      invariant forall j :: 0 <= j < 4 * i && j % 4 == 3 ==> dest[j] == src[j]
      invariant forall j :: 4 * i <= j < dest.Length ==> dest[j] == old(dest[j])
    {
      var offset := i * 4;
      var noise := PixelNoise(noiseDraws[i]);
      dest[offset] := AgeChannel(src[offset], age, noise);
      dest[offset + 1] := AgeChannel(src[offset + 1], age, noise);
      dest[offset + 2] := AgeChannel(src[offset + 2], age, noise);
      dest[offset + 3] := src[offset + 3];
      PixelBytes(i);
      i := i + 1;
    }
  }
}
