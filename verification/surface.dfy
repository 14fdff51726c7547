/** The pixel surface (`Tex2D`) and the point writer (`pxPlot`, `pxBlend`) that every
    other routine funnels through. */
module Surface {
  import opened Pixel

  /** Pixel (x, y) of a `width`-wide row-major buffer lives at `width * y + x`;
      for in-range coordinates that index is inside a `width * height` buffer. */
  lemma IndexInBuffer(width: int, height: int, x: int, y: int)
    requires 0 <= x < width && 0 <= y < height
    ensures 0 <= width * y + x < width * height
  {
    assert width * y <= width * (height - 1);
  }

  /** Distinct in-range coordinates have distinct indices. */
  lemma IndexInjective(width: int, x: int, y: int, i: int, j: int)
    requires 0 <= x < width && 0 <= i < width
    requires width * y + x == width * j + i
    ensures x == i && y == j
  {
    assert width * (j - y) == x - i;
    NoSmallMultiple(width, j - y);
  }

  /** A non-zero multiple of `width` is at least `width` away from zero. */
  lemma NoSmallMultiple(width: int, d: int)
    requires 0 < width && -width < width * d < width
    ensures d == 0
  {
    if d > 0 {
      ProductNonNeg(width, d - 1);
    } else if d < 0 {
      ProductNonNeg(width, -d - 1);
    }
  }

  lemma ProductNonNeg(a: int, b: int)
    requires a >= 0 && b >= 0
    ensures a * b >= 0
  {
  }

  /** `pxAbs` on integers */
  function AbsI(n: int): (r: int)
    ensures r >= 0 && (r == n || r == -n)
  {
    if n < 0 then -n else n
  }

  /** `pxMax` on integers: ties pick the second argument. */
  function MaxI(a: int, b: int): (r: int)
    ensures r >= a && r >= b && (r == a || r == b)
  {
    if a > b then a else b
  }

  /** `pxMin` on integers: ties pick the second argument. */
  function MinI(a: int, b: int): (r: int)
    ensures r <= a && r <= b && (r == a || r == b)
  {
    if a < b then a else b
  }

  /** `pxClamp` on integers. The lower bound is tested first, so on an empty range
      (`hi < lo`) every `n >= lo` is sent to `hi`. */
  function ClampI(n: int, lo: int, hi: int): (r: int)
    ensures lo <= hi ==> lo <= r <= hi
    ensures lo <= n <= hi ==> r == n
    ensures n < lo ==> r == lo
    ensures hi < lo <= n ==> r == hi
  {
    if n < lo then lo else if n > hi then hi else n
  }

  /** `pxClamp` on a float with integer bounds. */
  function ClampR(n: real, lo: int, hi: int): (r: real)
    ensures lo <= hi ==> lo as real <= r <= hi as real
    ensures lo as real <= n <= hi as real ==> r == n
  {
    if n < lo as real then lo as real else if n > hi as real then hi as real else n
  }

  /** `Tex2D`: a caller-owned buffer of `width * height` pixels, row by row, origin
      top-left. The dimensions never change; only the pixels do. */
  class Tex2D {
    const fb: array<Px>
    const width: int
    const height: int

    ghost predicate Valid()
    {
      0 <= width && 0 <= height && fb.Length == width * height
    }

    constructor (fb: array<Px>, width: nat, height: nat)
      requires fb.Length == width * height
      ensures this.fb == fb && this.width == width && this.height == height
      ensures Valid()
    {
      this.fb := fb;
      this.width := width;
      this.height := height;
    }

    /** `pxInside` */
    predicate Inside(x: int, y: int)
    {
      0 <= x < width && 0 <= y < height
    }

    /** `pxAt` read */
    function At(x: int, y: int): Px
      requires Valid() && Inside(x, y)
      reads fb
    {
      IndexInBuffer(width, height, x, y);
      fb[width * y + x]
    }

    /** `pxAt(texture, x, y) = c`: the unchecked write, for coordinates the caller has
        already clamped into the surface. Exactly one pixel changes. */
    method Put(x: int, y: int, c: Px)
      requires Valid() && Inside(x, y)
      modifies fb
      ensures forall i, j | Inside(i, j) ::
        At(i, j) == if i == x && j == y then c else old(At(i, j))
    {
      IndexInBuffer(width, height, x, y);
      fb[width * y + x] := c;
      forall i, j | Inside(i, j)
        ensures At(i, j) == if i == x && j == y then c else old(At(i, j))
      {
        IndexInBuffer(width, height, i, j);
        if width * j + i == width * y + x {
          IndexInjective(width, x, y, i, j);
        }
      }
    }

    /** `pxPlot`: write `color` at (x, y) when that is on the surface, else do nothing. */
    method Plot(x: int, y: int, color: Px)
      requires Valid()
      modifies fb
      ensures forall i, j | Inside(i, j) ::
        At(i, j) == if i == x && j == y then color else old(At(i, j))
      ensures !Inside(x, y) ==> fb[..] == old(fb[..])
    {
      if 0 <= x && x < width && 0 <= y && y < height {
        Put(x, y, color);
      }
    }

    /** A run of direct `pxAt` writes along row `y`, columns `lo` to `hi` inclusive: the
        inner loop of `pxPlotRect` and `pxPlotTri`, whose bounds are clamped first. */
    method FillRow(y: int, lo: int, hi: int, color: Px)
      requires Valid() && 0 <= y < height && 0 <= lo && hi < width
      modifies fb
      ensures forall i, j | Inside(i, j) ::
        At(i, j) == if j == y && lo <= i <= hi then color else old(At(i, j))
    {
      var x := lo;
      while x <= hi
        invariant lo <= x
        invariant forall i, j | Inside(i, j) ::
          At(i, j) == if j == y && lo <= i < x && i <= hi then color else old(At(i, j))
      {
        Put(x, y, color);
        x := x + 1;
      }
    }

    /** `pxBlend`: move the pixel at (x, y) toward `color` by coverage `t`, when (x, y)
        is on the surface, else do nothing. */
    method Blend(x: int, y: int, t: real, color: Px)
      requires Valid() && 0.0 <= t <= 1.0
      modifies fb
      ensures forall i, j | Inside(i, j) ::
        At(i, j) == if i == x && j == y then PxLerp(old(At(i, j)), color, t) else old(At(i, j))
      ensures !Inside(x, y) ==> fb[..] == old(fb[..])
    {
      if 0 <= x && x < width && 0 <= y && y < height {
        Put(x, y, PxLerp(At(x, y), color, t));
      }
    }
  }
}
