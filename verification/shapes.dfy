/** The box fills: the rectangle (`pxPlotRect`) and the circles (`pxPlotCircle`,
    `pxPlotCircleSmooth`). Each scans a bounding box clamped onto the surface. */
module Shapes {
  import opened SpxMath
  import opened Pixel
  import opened Surface

  /** Rows `lo.y..hi.y` and columns `lo.x..hi.x`, both inclusive. */
  datatype Box = Box(lo: IVec2, hi: IVec2)

  predicate InBox(b: Box, x: int, y: int)
  {
    b.lo.x <= x <= b.hi.x && b.lo.y <= y <= b.hi.y
  }

  // ---------------------------------------------------------------------------
  // Rectangle

  /** The box `pxPlotRect` fills as written: the corners `p - q` and `p + q`, each clamped
      onto `[0, size - 1]`. */
  function RectBoxAsWritten(p: IVec2, q: IVec2, width: int, height: int): Box
  {
    Box(IVec2(ClampI(p.x - q.x, 0, width - 1), ClampI(p.y - q.y, 0, height - 1)),
        IVec2(ClampI(p.x + q.x, 0, width - 1), ClampI(p.y + q.y, 0, height - 1)))
  }

  /** As written, a rectangle entirely below and to the right of a 4×4 surface still
      paints its bottom-right pixel: both corners clamp onto (3, 3). */
  lemma RectOffSurfacePaintsBorder(p: IVec2, q: IVec2)
    requires p == IVec2(10, 10) && q == IVec2(1, 1)
    ensures InBox(RectBoxAsWritten(p, q, 4, 4), 3, 3)
    ensures AbsI(3 - p.x) > q.x
  {
  }

  /** As written, on an empty (0×0) surface the box is the single cell (-1, -1): the fill
      writes buffer index `0 * -1 + -1`, before the start of the buffer. */
  lemma RectEmptySurfaceEscapes(p: IVec2, q: IVec2)
    requires p == IVec2(0, 0) && q == IVec2(0, 0)
    ensures RectBoxAsWritten(p, q, 0, 0) == Box(IVec2(-1, -1), IVec2(-1, -1))
    ensures InBox(RectBoxAsWritten(p, q, 0, 0), -1, -1)
  {
  }

  /** The rectangle of half-extent `q` around `p`, clipped to the surface: the corners
      `p - q` and `p + q` are cut at the surface edges with `max`/`min` instead of
      clamped, so that nothing is left when the rectangle misses the surface. */
  function RectBox(p: IVec2, q: IVec2, width: int, height: int): Box
  {
    Box(IVec2(MaxI(p.x - q.x, 0), MaxI(p.y - q.y, 0)),
        IVec2(MinI(p.x + q.x, width - 1), MinI(p.y + q.y, height - 1)))
  }

  /** The clipped box holds exactly the surface pixels within the rectangle. */
  lemma RectBoxExact(p: IVec2, q: IVec2, width: int, height: int, x: int, y: int)
    ensures InBox(RectBox(p, q, width, height), x, y) <==>
      0 <= x < width && 0 <= y < height && AbsI(x - p.x) <= q.x && AbsI(y - p.y) <= q.y
  {
  }

  /** Whenever the rectangle overlaps a non-empty surface in both directions, the
      clipped box is the box as written: the two differ only on rectangles that miss the
      surface, and on empty surfaces. */
  lemma RectBoxAgrees(p: IVec2, q: IVec2, width: int, height: int, x: int, y: int)
    requires width >= 1 && height >= 1
    requires p.x - q.x <= width - 1 && p.x + q.x >= 0
    requires p.y - q.y <= height - 1 && p.y + q.y >= 0
    ensures InBox(RectBox(p, q, width, height), x, y) <==>
      InBox(RectBoxAsWritten(p, q, width, height), x, y)
  {
  }

  /** `pxPlotRect`, filling the clipped box: every pixel of the rectangle that is on the
      surface gets the colour, and no other pixel changes. */
  method PlotRect(tex: Tex2D, p: IVec2, q: IVec2, color: Px)
    requires tex.Valid()
    modifies tex.fb
    ensures forall x, y | tex.Inside(x, y) ::
      tex.At(x, y) == if InBox(RectBox(p, q, tex.width, tex.height), x, y) then color
                      else old(tex.At(x, y))
  {
    var starty := MaxI(p.y - q.y, 0);
    var endy := MinI(p.y + q.y, tex.height - 1);
    var startx := MaxI(p.x - q.x, 0);
    var endx := MinI(p.x + q.x, tex.width - 1);
    var y := starty;
    while y <= endy
      invariant starty <= y
      invariant forall i, j | tex.Inside(i, j) ::
        tex.At(i, j) ==
          if j < y && InBox(RectBox(p, q, tex.width, tex.height), i, j) then color
          else old(tex.At(i, j))
      decreases endy - y
    {
      tex.FillRow(y, startx, endx, color);
      y := y + 1;
    }
  }

  // ---------------------------------------------------------------------------
  // Circles

  /** The box `pxPlotCircle` scans: the corners `p - r` and `p + r + 1`, clamped onto the
      surface and truncated. Columns start one past `lo.x`. */
  function CircleBox(p: IVec2, r: real, width: int, height: int): Box
  {
    Box(IVec2(Trunc(ClampR(p.x as real - r, 0, width - 1)), Trunc(ClampR(p.y as real - r, 0, height - 1))),
        IVec2(Trunc(ClampR(p.x as real + r + 1.0, 0, width - 1)),
              Trunc(ClampR(p.y as real + r + 1.0, 0, height - 1))))
  }

  /** The distance test of `pxPlotCircle`: the point half a pixel up and left of the
      pixel's corner, `(x - 0.5, y - 0.5)`, lies within `r` of the centre. */
  predicate InDisc(p: IVec2, r: real, x: int, y: int)
  {
    Sq(p.x as real - x as real + 0.5) + Sq(p.y as real - y as real + 0.5) <= Sq(r)
  }

  /** Pixel (x, y) is written by `pxPlotCircle`. */
  predicate CircleCovers(p: IVec2, r: real, width: int, height: int, x: int, y: int)
  {
    var b := CircleBox(p, r, width, height);
    b.lo.y <= y <= b.hi.y && b.lo.x + 1 <= x <= b.hi.x && InDisc(p, r, x, y)
  }

  /** The inner loop of `pxPlotCircle`: write the pixels of row `y`, columns `lo..hi`,
      that pass the distance test. */
  method CircleRow(tex: Tex2D, p: IVec2, r: real, y: int, lo: int, hi: int, color: Px)
    requires tex.Valid() && 0 <= y < tex.height && 0 <= lo && hi < tex.width
    modifies tex.fb
    ensures forall i, j | tex.Inside(i, j) ::
      tex.At(i, j) == if j == y && lo <= i <= hi && InDisc(p, r, i, j) then color
                      else old(tex.At(i, j))
  {
    var sqr := Mul(r, r);
    var dy := p.y as real - y as real + 0.5;
    dy := Mul(dy, dy);
    var x := lo;
    while x <= hi
      invariant lo <= x
      invariant forall i, j | tex.Inside(i, j) ::
        tex.At(i, j) == if j == y && lo <= i < x && i <= hi && InDisc(p, r, i, j) then color
                        else old(tex.At(i, j))
    {
      var dx := p.x as real - x as real + 0.5;
      if Mul(dx, dx) + dy <= sqr {
        tex.Put(x, y, color);
      }
      x := x + 1;
    }
  }

  /** `pxPlotCircle` on a non-empty surface: every pixel of the clamped box that passes the
      distance test gets the colour, and no other pixel changes. */
  method PlotCircle(tex: Tex2D, p: IVec2, r: real, color: Px)
    requires tex.Valid() && tex.width >= 1 && tex.height >= 1
    modifies tex.fb
    ensures forall x, y | tex.Inside(x, y) ::
      tex.At(x, y) == if CircleCovers(p, r, tex.width, tex.height, x, y) then color
                      else old(tex.At(x, y))
  {
    var startx := Trunc(ClampR(p.x as real - r, 0, tex.width - 1));
    var starty := Trunc(ClampR(p.y as real - r, 0, tex.height - 1));
    var endx := Trunc(ClampR(p.x as real + r + 1.0, 0, tex.width - 1));
    var endy := Trunc(ClampR(p.y as real + r + 1.0, 0, tex.height - 1));
    var y := starty;
    while y <= endy
      invariant starty <= y
      invariant forall i, j | tex.Inside(i, j) ::
        tex.At(i, j) == if j < y && CircleCovers(p, r, tex.width, tex.height, i, j) then color
                        else old(tex.At(i, j))
      decreases endy - y
    {
      CircleRow(tex, p, r, y, startx + 1, endx, color);
      y := y + 1;
    }
  }

  /** A square no larger than `r * r` (for `r >= 0`) has a root no larger than `r`. */
  lemma SqBound(d: real, r: real)
    requires r >= 0.0 && Sq(d) <= Sq(r)
    ensures -r <= d <= r
  {
    if d > r {
      MulPos(d - r, d + r);
    } else if d < -r {
      MulPos(-d - r, r - d);
    }
  }

  /** On a non-empty surface and for a non-negative radius, `pxPlotCircle` writes exactly
      the surface pixels that pass the distance test, except in column 0, which the scan
      never visits. */
  lemma CircleFillIsDisc(p: IVec2, r: real, width: int, height: int, x: int, y: int)
    requires width >= 1 && height >= 1 && r >= 0.0
    requires 0 <= x < width && 0 <= y < height
    ensures CircleCovers(p, r, width, height, x, y) <==> x != 0 && InDisc(p, r, x, y)
  {
    if x != 0 && InDisc(p, r, x, y) {
      SquarePositive(p.x as real - x as real + 0.5);
      SquarePositive(p.y as real - y as real + 0.5);
      SqBound(p.x as real - x as real + 0.5, r);
      SqBound(p.y as real - y as real + 0.5, r);
    }
  }

  /** The circle of radius 5 around (10, 10) covers its centre pixel and not (10, 16). */
  lemma CircleExample(p: IVec2, r: real, width: int, height: int)
    requires p == IVec2(10, 10) && r == 5.0 && width >= 17 && height >= 17
    ensures CircleCovers(p, r, width, height, 10, 10)
    ensures !CircleCovers(p, r, width, height, 10, 16)
  {
  }

  /** The anti-aliased circle's super-sampling factor, `SPXE_SUBSAMPLES`. */
  const Subsamples: nat := 2

  /** Of the first `k` sub-samples along x, at vertical offset `sdy`, how many pass. */
  function CountColumn(dx: real, sdy: real, r: real, k: nat): (c: nat)
    requires k <= Subsamples
    ensures c <= k
  {
    if k == 0 then 0
    else
      var sdx := dx + (k - 1) as real * (1.0 / Subsamples as real);
      CountColumn(dx, sdy, r, k - 1) + (if Sq(sdx) + Sq(sdy) <= Sq(r) then 1 else 0)
  }

  /** Of the sub-samples in the first `k` sub-rows, how many pass. */
  function CountGrid(dx: real, dy: real, r: real, k: nat): (c: nat)
    requires k <= Subsamples
    ensures c <= k * Subsamples
  {
    if k == 0 then 0
    else
      var sdy := dy + (k - 1) as real * (1.0 / Subsamples as real);
      CountGrid(dx, dy, r, k - 1) + CountColumn(dx, sdy, r, Subsamples)
  }

  /** `n`: the fraction of the pixel's sub-samples within the circle, a weight in [0,1]. */
  function CircleCoverage(p: IVec2, r: real, x: int, y: int): (c: real)
    ensures 0.0 <= c <= 1.0
  {
    var count := CountGrid(p.x as real - x as real + 0.5, p.y as real - y as real + 0.5, r, Subsamples);
    count as real / (Subsamples * Subsamples) as real
  }

  /** The sub-sample loops of `pxPlotCircleSmooth`. */
  method CircleSamples(p: IVec2, r: real, x: int, y: int) returns (count: nat)
    ensures count == CountGrid(p.x as real - x as real + 0.5, p.y as real - y as real + 0.5, r, Subsamples)
  {
    var subscale := 1.0 / Subsamples as real;
    var sqr := Mul(r, r);
    var dy := p.y as real - y as real + 0.5;
    var dx := p.x as real - x as real + 0.5;
    count := 0;
    var sy := 0;
    while sy < Subsamples
      invariant 0 <= sy <= Subsamples
      invariant count == CountGrid(dx, dy, r, sy)
    {
      var sdy := dy + sy as real * subscale;
      sdy := Mul(sdy, sdy);
      var sx := 0;
      ghost var before := count;
      while sx < Subsamples
        invariant 0 <= sx <= Subsamples
        invariant count == before + CountColumn(dx, dy + sy as real * subscale, r, sx)
      {
        var sdx := dx + sx as real * subscale;
        if Mul(sdx, sdx) + sdy <= sqr {
          count := count + 1;
        }
        sx := sx + 1;
      }
      sy := sy + 1;
    }
  }

  /** The box `pxPlotCircleSmooth` scans: one pixel wider on the low side than the flat
      circle's box. */
  function SmoothCircleBox(p: IVec2, r: real, width: int, height: int): Box
  {
    Box(IVec2(Trunc(ClampR(p.x as real - r - 1.0, 0, width - 1)),
              Trunc(ClampR(p.y as real - r - 1.0, 0, height - 1))),
        IVec2(Trunc(ClampR(p.x as real + r + 1.0, 0, width - 1)),
              Trunc(ClampR(p.y as real + r + 1.0, 0, height - 1))))
  }

  predicate SmoothCircleCovers(p: IVec2, r: real, width: int, height: int, x: int, y: int)
  {
    var b := SmoothCircleBox(p, r, width, height);
    b.lo.y <= y <= b.hi.y && b.lo.x + 1 <= x <= b.hi.x
  }

  /** The inner loop of `pxPlotCircleSmooth`: blend the pixels of row `y`, columns
      `lo..hi`, by their coverage. */
  method SmoothCircleRow(tex: Tex2D, p: IVec2, r: real, y: int, lo: int, hi: int, color: Px)
    requires tex.Valid()
    modifies tex.fb
    ensures forall i, j | tex.Inside(i, j) ::
      tex.At(i, j) ==
        if j == y && lo <= i <= hi then PxLerp(old(tex.At(i, j)), color, CircleCoverage(p, r, i, j))
        else old(tex.At(i, j))
  {
    var x := lo;
    while x <= hi
      invariant forall i, j | tex.Inside(i, j) ::
        tex.At(i, j) ==
          if j == y && lo <= i < x && i <= hi then PxLerp(old(tex.At(i, j)), color, CircleCoverage(p, r, i, j))
          else old(tex.At(i, j))
    {
      var count := CircleSamples(p, r, x, y);
      tex.Blend(x, y, count as real / (Subsamples * Subsamples) as real, color);
      x := x + 1;
    }
  }

  /** `pxPlotCircleSmooth`: every pixel of its box is blended toward the colour by the
      fraction of its sub-samples within the circle; no other pixel changes. */
  method PlotCircleSmooth(tex: Tex2D, p: IVec2, r: real, color: Px)
    requires tex.Valid()
    modifies tex.fb
    ensures forall x, y | tex.Inside(x, y) ::
      tex.At(x, y) ==
        if SmoothCircleCovers(p, r, tex.width, tex.height, x, y)
        then PxLerp(old(tex.At(x, y)), color, CircleCoverage(p, r, x, y))
        else old(tex.At(x, y))
  {
    var b := SmoothCircleBox(p, r, tex.width, tex.height);
    var y := b.lo.y;
    while y <= b.hi.y
      invariant b.lo.y <= y
      invariant forall i, j | tex.Inside(i, j) ::
        tex.At(i, j) ==
          if j < y && SmoothCircleCovers(p, r, tex.width, tex.height, i, j)
          then PxLerp(old(tex.At(i, j)), color, CircleCoverage(p, r, i, j))
          else old(tex.At(i, j))
      decreases b.hi.y - y
    {
      SmoothCircleRow(tex, p, r, y, b.lo.x + 1, b.hi.x, color);
      y := y + 1;
    }
  }

  /** Wherever the flat circle's distance test passes, the first sub-sample of the
      anti-aliased circle (offset 0, 0) passes too: its coverage there is positive. */
  lemma SmoothCoversDisc(p: IVec2, r: real, x: int, y: int)
    requires InDisc(p, r, x, y)
    ensures CircleCoverage(p, r, x, y) > 0.0
  {
    var dx := p.x as real - x as real + 0.5;
    var dy := p.y as real - y as real + 0.5;
    assert CountColumn(dx, dy, r, 1) == 1;
    assert CountGrid(dx, dy, r, 1) >= 1;
  }

  /** For a radius of at least 2, the centre pixel's four sub-samples all pass: the
      anti-aliased circle paints it solid. */
  lemma SmoothCircleSolidCentre(p: IVec2, r: real, c: Px, color: Px)
    requires r >= 2.0
    ensures CircleCoverage(p, r, p.x, p.y) == 1.0
    ensures PxLerp(c, color, CircleCoverage(p, r, p.x, p.y)) == color
  {
    SquarePositive(r - 2.0);
    assert Sq(r) >= 4.0 by {
      MulNonNeg(r - 2.0, r + 2.0);
      assert Mul(r - 2.0, r + 2.0) == Sq(r) - 4.0;
    }
    assert CountColumn(0.5, 0.5, r, Subsamples) == 2;
    assert CountColumn(0.5, 1.0, r, Subsamples) == 2;
    assert CountGrid(0.5, 0.5, r, Subsamples) == 4;
    PxLerpEnds(c, color);
  }
}
