/** The texture sizing shared by the sample programs: nextPowerOfTwo, which
    each of src/hello_image.cpp, src/hello_text_ttf.cpp and hello_ttf_text.cpp
    defines identically, the power-of-two texture side with a margin around
    an image, and the choice of GL pixel format from the bits per pixel. */
module TextureSizing {
  /** `int` of the samples. */
  const IntMax: int := 0x7fff_ffff

  /** The largest argument for which doubling `power` in nextPowerOfTwo
      stays within `int`. */
  const LargestArgument: int := 0x4000_0000

  predicate IsPowerOfTwo(p: int)
    decreases p
  {
    p == 1 || (p >= 2 && p % 2 == 0 && IsPowerOfTwo(p / 2))
  }

  /** The least power of two that is at least `val`, defined by halving. */
  function CeilPowerOfTwo(val: int): (p: int)
    ensures IsPowerOfTwo(p) && p >= val
    ensures val <= 1 ==> p == 1
    ensures p > 1 ==> p / 2 < val
    decreases val
  {
    if val <= 1 then 1 else 2 * CeilPowerOfTwo((val + 1) / 2)
  }

  /** Distinct powers of two are at least a factor of two apart. */
  lemma {:induction false} PowerOfTwoGap(p: int, q: int)
    requires IsPowerOfTwo(p) && IsPowerOfTwo(q) && p < q
    ensures 2 * p <= q
    decreases q
  {
    if p > 1 {
      PowerOfTwoGap(p / 2, q / 2);
    }
  }

  /** A power of two that is at least `val` and whose half is not is the
      least one. */
  lemma LeastPowerOfTwo(val: int, p: int)
    requires IsPowerOfTwo(p) && p >= val
    requires p == 1 || p / 2 < val
    ensures p == CeilPowerOfTwo(val)
  {
    var q := CeilPowerOfTwo(val);
    if p < q {
      PowerOfTwoGap(p, q);
    } else if q < p {
      PowerOfTwoGap(q, p);
    }
  }

  /** nextPowerOfTwo: doubles `power` from 1 until it reaches `val`. Beyond
      2^30 the doubling would overflow `int`, which callers must avoid. */
  method NextPowerOfTwo(val: int) returns (power: int)
    requires val <= LargestArgument
    ensures power == CeilPowerOfTwo(val)
    ensures IsPowerOfTwo(power) && val <= power <= IntMax
  {
    power := 1;
    while power < val
      invariant IsPowerOfTwo(power)
      invariant power == 1 || power / 2 < val
      decreases val - power
    {
      assert power * 2 <= IntMax;
      power := power * 2;
    }
    LeastPowerOfTwo(val, power);
  }

  /** The side of the power-of-two texture that holds an image side with
      `margin` extra texels. */
  function TextureSide(side: nat, margin: nat): (t: int)
    ensures IsPowerOfTwo(t) && t >= side + margin
    ensures t == 1 || t / 2 < side + margin
  {
    CeilPowerOfTwo(side + margin)
  }

  /** The power-of-two texture for a w x h image with `margin` extra texels
      on each axis: `nextPowerOfTwo(w + margin)` by `nextPowerOfTwo(h + margin)`. */
  method TextureSize(w: nat, h: nat, margin: nat) returns (tw: int, th: int)
    requires w + margin <= LargestArgument && h + margin <= LargestArgument
    ensures tw == TextureSide(w, margin) && th == TextureSide(h, margin)
    ensures tw >= w + margin && th >= h + margin
  {
    tw := NextPowerOfTwo(w + margin);
    th := NextPowerOfTwo(h + margin);
  }

  const GlRgb: int := 0x1907
  const GlRgba: int := 0x1908

  /** The GL format for a surface's bits per pixel: RGB for 24, RGBA for 32,
      and -1 (no upload) otherwise. */
  function GlFormat(bitsPerPixel: int): (format: int)
    ensures format == GlRgb <==> bitsPerPixel == 24
    ensures format == GlRgba <==> bitsPerPixel == 32
    ensures format == -1 <==> bitsPerPixel != 24 && bitsPerPixel != 32
  {
    if bitsPerPixel == 24 then GlRgb
    else if bitsPerPixel == 32 then GlRgba
    else -1
  }
}
