/** RGBA pixels with 8-bit channels, and `pxLerp`, the channel-wise interpolation every
    blending routine uses. */
module Pixel {
  import opened SpxMath

  /** `uint8_t` */
  type Byte = n: int | 0 <= n < 256

  datatype Px = Px(r: Byte, g: Byte, b: Byte, a: Byte)

  /** One channel of `pxLerp`: `(uint8_t)lerpf(a, b, t)`. The weight is a coverage in
      [0,1], which keeps the interpolant inside the channel range, so the cast to
      `uint8_t` only drops the fraction. */
  function LerpChannel(a: Byte, b: Byte, t: real): (c: Byte)
    requires 0.0 <= t <= 1.0
    ensures a <= b ==> a <= c <= b
    ensures b <= a ==> b <= c <= a
  {
    LerpBetween(a as real, b as real, t);
    Trunc(LerpF(a as real, b as real, t))
  }

  /** `pxLerp`: move pixel `a` toward `b` by `t`, channel by channel. */
  function PxLerp(a: Px, b: Px, t: real): Px
    requires 0.0 <= t <= 1.0
  {
    Px(LerpChannel(a.r, b.r, t), LerpChannel(a.g, b.g, t),
       LerpChannel(a.b, b.b, t), LerpChannel(a.a, b.a, t))
  }

  /** No coverage leaves the pixel as it was; full coverage replaces it by the colour. */
  lemma PxLerpEnds(a: Px, b: Px)
    ensures PxLerp(a, b, 0.0) == a
    ensures PxLerp(a, b, 1.0) == b
  {
    LerpEnds(a.r as real, b.r as real);
    LerpEnds(a.g as real, b.g as real);
    LerpEnds(a.b as real, b.b as real);
    LerpEnds(a.a as real, b.a as real);
  }

  /** Blending a pixel toward its own colour changes nothing, whatever the coverage. */
  lemma PxLerpSame(a: Px, t: real)
    requires 0.0 <= t <= 1.0
    ensures PxLerp(a, a, t) == a
  {
  }
}
