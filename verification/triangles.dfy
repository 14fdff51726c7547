/** Triangle scan conversion: the edge function (`pxEdge`), the three-vertex sorts
    (`pxSortTri`, `pxSortTrif`, `pxSortTriVert2D`), the flat fill (`pxPlotTri`), the
    nine-sample anti-aliased fill (`pxPlotTriSmooth`) and the nearest-neighbour texture
    lookup (`pxTexMap`). */
module Triangles {
  import opened SpxMath
  import opened Pixel
  import opened Surface

  /** `Vert2D`: a position and a texture coordinate. */
  datatype Vert2D = Vert2D(pos: Vec2, uv: Vec2)

  // ---------------------------------------------------------------------------
  // The edge function

  /** `pxEdge(a, b, c)`: the signed area spanned by `c - a` and `b - a`; its sign says on
      which side of the directed line a→b the point c lies. */
  function Edge(a: Vec2, b: Vec2, c: Vec2): real
  {
    Mul(c.x - a.x, b.y - a.y) - Mul(c.y - a.y, b.x - a.x)
  }

  /** Swapping the last two arguments negates the edge function; it vanishes when the
      point is the start of the edge, or the edge is a single point. */
  lemma EdgeAntisymmetric(a: Vec2, b: Vec2, c: Vec2)
    ensures Edge(a, b, c) == -Edge(a, c, b)
    ensures Edge(a, b, a) == 0.0
    ensures Edge(a, a, c) == 0.0
  {
    MulSigns(c.x - a.x, b.y - a.y);
    MulSigns(c.y - a.y, b.x - a.x);
  }

  /** The three edge functions of a triangle, taken at any point, add up to the edge
      function of the triangle itself: the point's three sub-areas make up the whole. */
  lemma EdgeSum(t0: Vec2, t1: Vec2, t2: Vec2, q: Vec2)
    ensures Edge(t1, t2, q) + Edge(t2, t0, q) + Edge(t0, t1, q) == Edge(t0, t1, t2)
  {
  }

  // ---------------------------------------------------------------------------
  // Sorting the vertices

  /** The order the sorts establish: by row, then by column. */
  predicate Before(a: Vec2, b: Vec2)
  {
    a.y < b.y || (a.y == b.y && a.x < b.x)
  }

  function IVec2Key(p: IVec2): Vec2 { IVec2ToVec2(p) }
  function Vec2Key(p: Vec2): Vec2 { p }
  function VertKey(v: Vert2D): Vec2 { v.pos }

  /** One compare-exchange: when element `i` comes before element `j`, swap them. */
  function CompareSwap<T>(s: seq<T>, i: nat, j: nat, key: T -> Vec2): seq<T>
    requires i < |s| && j < |s|
  {
    if Before(key(s[i]), key(s[j])) then s[i := s[j]][j := s[i]] else s
  }

  /** The three compare-exchanges of the sorts, in their order: (2,0), (1,0), (2,1). */
  function Sort3<T>(s: seq<T>, key: T -> Vec2): seq<T>
    requires |s| == 3
  {
    CompareSwap(CompareSwap(CompareSwap(s, 2, 0, key), 1, 0, key), 2, 1, key)
  }

  predicate Sorted3<T>(s: seq<T>, key: T -> Vec2)
    requires |s| == 3
  {
    !Before(key(s[1]), key(s[0])) && !Before(key(s[2]), key(s[1]))
  }

  /** `a` does not come after `b`. */
  predicate NotAfter(a: Vec2, b: Vec2)
  {
    !Before(b, a)
  }

  lemma NotAfterTrans(a: Vec2, b: Vec2, c: Vec2)
    requires NotAfter(a, b) && NotAfter(b, c)
    ensures NotAfter(a, c)
  {
  }

  /** A compare-exchange of `j < i` leaves the lesser of the two at `j` and the greater at
      `i`, and no other element moves. */
  lemma CompareSwapOrders<T>(s: seq<T>, i: nat, j: nat, key: T -> Vec2)
    requires j < i < |s|
    ensures var r := CompareSwap(s, i, j, key);
      |r| == |s| && NotAfter(key(r[j]), key(r[i])) &&
      NotAfter(key(r[j]), key(s[j])) && NotAfter(key(s[i]), key(r[i])) &&
      ((r[i] == s[i] && r[j] == s[j]) || (r[i] == s[j] && r[j] == s[i])) &&
      (NotAfter(key(s[j]), key(s[i])) ==> r == s) &&
      forall k | 0 <= k < |s| && k != i && k != j :: r[k] == s[k]
  {
  }

  /** The sort leaves a permutation of its input, ordered by (y, x); an ordered input is
      left alone. */
  lemma Sort3Sorts<T>(s: seq<T>, key: T -> Vec2)
    requires |s| == 3
    ensures |Sort3(s, key)| == 3
    ensures Sorted3(Sort3(s, key), key)
    ensures multiset(Sort3(s, key)) == multiset(s)
    ensures Sorted3(s, key) ==> Sort3(s, key) == s
  {
    var s1 := CompareSwap(s, 2, 0, key);
    var s2 := CompareSwap(s1, 1, 0, key);
    var s3 := CompareSwap(s2, 2, 1, key);
    CompareSwapOrders(s, 2, 0, key);
    CompareSwapOrders(s1, 1, 0, key);
    CompareSwapOrders(s2, 2, 1, key);
    assert s2[2] == s1[2];
    NotAfterTrans(key(s2[0]), key(s1[0]), key(s1[2]));
    assert NotAfter(key(s3[0]), key(s3[1]));
    SwapPermutes(s, 2, 0, key);
    SwapPermutes(s1, 1, 0, key);
    SwapPermutes(s2, 2, 1, key);
    if Sorted3(s, key) {
      NotAfterTrans(key(s[0]), key(s[1]), key(s[2]));
    }
  }

  lemma SwapPermutes<T>(s: seq<T>, i: nat, j: nat, key: T -> Vec2)
    requires i < |s| && j < |s|
    ensures multiset(CompareSwap(s, i, j, key)) == multiset(s)
  {
    if Before(key(s[i]), key(s[j])) {
      var r := s[i := s[j]];
      assert multiset(r) == multiset(s) - multiset{s[i]} + multiset{s[j]};
      assert multiset(r[j := s[i]]) == multiset(r) - multiset{r[j]} + multiset{s[i]};
    }
  }

  /** `pxSortTri` */
  method SortTri(t: array<IVec2>)
    requires t.Length == 3
    modifies t
    ensures t[..] == Sort3(old(t[..]), IVec2Key)
  {
    ghost var s := t[..];
    if t[2].y < t[0].y || (t[2].y == t[0].y && t[2].x < t[0].x) {
      t[2], t[0] := t[0], t[2];
    }
    assert t[..] == CompareSwap(s, 2, 0, IVec2Key);
    ghost var s1 := t[..];
    if t[1].y < t[0].y || (t[1].y == t[0].y && t[1].x < t[0].x) {
      t[1], t[0] := t[0], t[1];
    }
    assert t[..] == CompareSwap(s1, 1, 0, IVec2Key);
    ghost var s2 := t[..];
    if t[2].y < t[1].y || (t[2].y == t[1].y && t[2].x < t[1].x) {
      t[2], t[1] := t[1], t[2];
    }
    assert t[..] == CompareSwap(s2, 2, 1, IVec2Key);
  }

  /** `pxSortTrif` */
  method SortTriF(t: array<Vec2>)
    requires t.Length == 3
    modifies t
    ensures t[..] == Sort3(old(t[..]), Vec2Key)
  {
    ghost var s := t[..];
    if t[2].y < t[0].y || (t[2].y == t[0].y && t[2].x < t[0].x) {
      t[2], t[0] := t[0], t[2];
    }
    assert t[..] == CompareSwap(s, 2, 0, Vec2Key);
    ghost var s1 := t[..];
    if t[1].y < t[0].y || (t[1].y == t[0].y && t[1].x < t[0].x) {
      t[1], t[0] := t[0], t[1];
    }
    assert t[..] == CompareSwap(s1, 1, 0, Vec2Key);
    ghost var s2 := t[..];
    if t[2].y < t[1].y || (t[2].y == t[1].y && t[2].x < t[1].x) {
      t[2], t[1] := t[1], t[2];
    }
    assert t[..] == CompareSwap(s2, 2, 1, Vec2Key);
  }

  /** `pxSortTriVert2D`: the whole vertex, texture coordinate included, moves with its
      position. */
  method SortTriVert2D(t: array<Vert2D>)
    requires t.Length == 3
    modifies t
    ensures t[..] == Sort3(old(t[..]), VertKey)
  {
    ghost var s := t[..];
    if t[2].pos.y < t[0].pos.y || (t[2].pos.y == t[0].pos.y && t[2].pos.x < t[0].pos.x) {
      t[2], t[0] := t[0], t[2];
    }
    assert t[..] == CompareSwap(s, 2, 0, VertKey);
    ghost var s1 := t[..];
    if t[1].pos.y < t[0].pos.y || (t[1].pos.y == t[0].pos.y && t[1].pos.x < t[0].pos.x) {
      t[1], t[0] := t[0], t[1];
    }
    assert t[..] == CompareSwap(s1, 1, 0, VertKey);
    ghost var s2 := t[..];
    if t[2].pos.y < t[1].pos.y || (t[2].pos.y == t[1].pos.y && t[2].pos.x < t[1].pos.x) {
      t[2], t[1] := t[1], t[2];
    }
    assert t[..] == CompareSwap(s2, 2, 1, VertKey);
  }

  // ---------------------------------------------------------------------------
  // Flat fill

  /** The precomputed `steps[k]`: one over an edge's height, or 0 for a flat edge. */
  function InvHeight(dy: real): real
  {
    if dy != 0.0 then 1.0 / dy else 0.0
  }

  /** Where the edge a→b crosses scanline `y` in `pxPlotTri`: the edge's fraction
      `steps * (y - a.y)` (1 for a flat edge) along `difx = b.x - a.x`, truncated. */
  function Crossing(a: IVec2, b: IVec2, y: int): int
  {
    var step := InvHeight((b.y - a.y) as real);
    var d := if step != 0.0 then Mul(step, (y - a.y) as real) else 1.0;
    Trunc(a.x as real + Mul((b.x - a.x) as real, d))
  }

  /** The short edge that is active on scanline `y`: `n = 1` (t0→t1) above the middle
      vertex, `n = 2` (t1→t2) from its row on. */
  function ActiveEdge(t: seq<IVec2>, y: int): int
    requires |t| == 3
  {
    if y >= t[1].y then 2 else 1
  }

  /** The two x-intersections of scanline `y` with the long edge and the active short edge
      `n`, in increasing order, before clamping. */
  function TriSpan(t: seq<IVec2>, n: int, y: int): IVec2
    requires |t| == 3 && (n == 1 || n == 2)
  {
    var x0 := Crossing(t[0], t[2], y);
    var x1 := Crossing(t[n - 1], t[n], y);
    if x1 < x0 then IVec2(x1, x0) else IVec2(x0, x1)
  }

  /** Pixel (x, y) is written by `pxPlotTri` on the sorted vertices `t`: its row lies in
      `[max(t0.y, 0), min(t2.y, height - 1)]` and its column in the clamped span. */
  predicate TriCovers(t: seq<IVec2>, width: int, height: int, x: int, y: int)
    requires |t| == 3
  {
    MaxI(t[0].y, 0) <= y <= MinI(t[2].y, height - 1) &&
    var s := TriSpan(t, ActiveEdge(t, y), y);
    MaxI(s.x, 0) <= x <= MinI(s.y, width - 1)
  }

  /** `pxPlotTri`: sort a copy of the vertices, then fill each scanline between its two
      edge crossings, clamped to the surface. */
  method PlotTri(tex: Tex2D, p0: IVec2, p1: IVec2, p2: IVec2, color: Px)
    requires tex.Valid()
    modifies tex.fb
    ensures forall x, y | tex.Inside(x, y) ::
      tex.At(x, y) ==
        if TriCovers(Sort3([p0, p1, p2], IVec2Key), tex.width, tex.height, x, y)
        then color else old(tex.At(x, y))
  {
    var a := new IVec2[3][p0, p1, p2];
    assert a[..] == [p0, p1, p2];
    SortTri(a);
    var t := a[..];
    var starty := MaxI(t[0].y, 0);
    var endy := MinI(t[2].y, tex.height - 1);
    var y, n := starty, 1;
    while y <= endy
      invariant starty <= y
      invariant n == if y > starty && y - 1 >= t[1].y then 2 else 1
      invariant forall i, j | tex.Inside(i, j) ::
        tex.At(i, j) ==
          if j < y && TriCovers(t, tex.width, tex.height, i, j) then color else old(tex.At(i, j))
      decreases endy - y
    {
      n := n + if n == 1 && y >= t[1].y then 1 else 0;
      var s := TriSpan(t, n, y);
      tex.FillRow(y, MaxI(s.x, 0), MinI(s.y, tex.width - 1), color);
      y := y + 1;
    }
    assert t == Sort3([p0, p1, p2], IVec2Key);
    forall i, j | tex.Inside(i, j) && j >= y
      ensures !TriCovers(t, tex.width, tex.height, i, j)
    {
    }
  }

  /** Where an edge a→b with `a.y <= y <= b.y` crosses scanline `y`: between the two end
      columns. */
  lemma CrossingBetween(a: IVec2, b: IVec2, y: int)
    requires a.y <= y <= b.y
    ensures MinI(a.x, b.x) <= Crossing(a, b, y) <= MaxI(a.x, b.x)
  {
    var step := InvHeight((b.y - a.y) as real);
    var d := if step != 0.0 then Mul(step, (y - a.y) as real) else 1.0;
    if step != 0.0 {
      ScaleWithin(step, (y - a.y) as real);
      assert Mul(step, (b.y - a.y) as real) == 1.0;
      ScaleUp(step, (y - a.y) as real, (b.y - a.y) as real);
    }
    assert 0.0 <= d <= 1.0;
    MulSigns(d, (b.x - a.x) as real);
    LerpBetween(a.x as real, b.x as real, d);
    TruncBetween(a.x as real + Mul((b.x - a.x) as real, d), MinI(a.x, b.x), MaxI(a.x, b.x));
  }

  lemma ScaleUp(k: real, u: real, v: real)
    requires k >= 0.0 && 0.0 <= u <= v
    ensures Mul(k, u) <= Mul(k, v)
  {
    MulNonNeg(k, v - u);
  }

  /** Truncation keeps a value between two integers between them. */
  lemma TruncBetween(r: real, lo: int, hi: int)
    requires lo as real <= r <= hi as real
    ensures lo <= Trunc(r) <= hi
  {
  }

  /** Every pixel `pxPlotTri` writes lies on the surface and inside the bounding box of the
      (sorted) triangle. */
  lemma TriFillInBoundingBox(t: seq<IVec2>, width: int, height: int, x: int, y: int)
    requires |t| == 3 && Sorted3(t, IVec2Key)
    requires TriCovers(t, width, height, x, y)
    ensures 0 <= x < width && 0 <= y < height
    ensures t[0].y <= y <= t[2].y
    ensures MinI(t[0].x, MinI(t[1].x, t[2].x)) <= x <= MaxI(t[0].x, MaxI(t[1].x, t[2].x))
  {
    var n := ActiveEdge(t, y);
    CrossingBetween(t[0], t[2], y);
    CrossingBetween(t[n - 1], t[n], y);
  }

  /** A vertical edge crosses every scanline at its own column. */
  lemma VerticalCrossing(a: IVec2, b: IVec2, y: int)
    requires a.x == b.x
    ensures Crossing(a, b, y) == a.x
  {
  }

  /** The edge (4,0)→(0,4) crosses scanline `y` at column `4 - y`. */
  lemma DiagonalCrossing(a: IVec2, b: IVec2, y: int)
    requires a == IVec2(4, 0) && b == IVec2(0, 4) && 0 <= y <= 4
    ensures Crossing(a, b, y) == 4 - y
  {
    assert InvHeight(4.0) == 0.25;
    assert Mul(-4.0, Mul(0.25, y as real)) == -(y as real);
  }

  /** The right triangle (0,0), (4,0), (0,4) fills exactly the surface pixels with
      x + y <= 4. */
  lemma RightTriangleFill(p0: IVec2, p1: IVec2, p2: IVec2, width: int, height: int)
    requires p0 == IVec2(0, 0) && p1 == IVec2(4, 0) && p2 == IVec2(0, 4)
    ensures forall x, y | 0 <= x < width && 0 <= y < height ::
      TriCovers(Sort3([p0, p1, p2], IVec2Key), width, height, x, y) <==> x + y <= 4
  {
    var t := [p0, p1, p2];
    Sort3Sorts(t, IVec2Key);
    assert Sorted3(t, IVec2Key);
    forall x, y | 0 <= x < width && 0 <= y < height
      ensures TriCovers(t, width, height, x, y) <==> x + y <= 4
    {
      VerticalCrossing(t[0], t[2], y);
      if y <= 4 {
        DiagonalCrossing(t[1], t[2], y);
      }
    }
  }

  // ---------------------------------------------------------------------------
  // Anti-aliased fill

  /** Where the edge a→b crosses scanline `y` in `pxPlotTriSmooth`: the same walk as in
      the flat fill, kept in floats, with the edge fraction clamped below at 0. */
  function SmoothCrossing(a: Vec2, b: Vec2, y: int): real
  {
    var step := InvHeight(b.y - a.y);
    var d := if step != 0.0 then Mul(step, y as real - a.y) else 1.0;
    a.x + Mul(b.x - a.x, MaxF(d, 0.0))
  }

  function SmoothActiveEdge(t: seq<Vec2>, y: int): int
    requires |t| == 3
  {
    if y as real >= t[1].y then 2 else 1
  }

  /** The two crossings of scanline `y`, in increasing order. */
  function SmoothEnds(t: seq<Vec2>, n: int, y: int): Vec2
    requires |t| == 3 && (n == 1 || n == 2)
  {
    var x0 := SmoothCrossing(t[0], t[2], y);
    var x1 := SmoothCrossing(t[n - 1], t[n], y);
    if x1 < x0 then Vec2(x1, x0) else Vec2(x0, x1)
  }

  /** The columns `[startx, endx)` that `pxPlotTriSmooth` visits on scanline `y`, as
      written: the end `x1 + 1` is clamped to `width - 1` and then excluded. */
  function SmoothSpanAsWritten(t: seq<Vec2>, n: int, y: int, width: int): IVec2
    requires |t| == 3 && (n == 1 || n == 2)
  {
    var e := SmoothEnds(t, n, y);
    IVec2(Trunc(MaxF(e.x, 0.0)), Trunc(MinF(e.y + 1.0, (width - 1) as real)))
  }

  /** The columns visited on scanline `y` with the end clamped to `width`: every column up
      to the right crossing that is on the surface. */
  function SmoothSpan(t: seq<Vec2>, n: int, y: int, width: int): (s: IVec2)
    requires |t| == 3 && (n == 1 || n == 2)
    ensures s.x >= 0 && s.y <= MaxI(width, 0)
  {
    var e := SmoothEnds(t, n, y);
    IVec2(Trunc(MaxF(e.x, 0.0)), Trunc(MinF(e.y + 1.0, width as real)))
  }

  /** As written, the last column of the surface is never visited. */
  lemma SmoothSpanSkipsLastColumn(t: seq<Vec2>, n: int, y: int, width: int)
    requires |t| == 3 && (n == 1 || n == 2)
    ensures SmoothSpanAsWritten(t, n, y, width).y <= width - 1
  {
  }

  /** With the end clamped to `width`, a row whose right crossing lies at or beyond the
      last column reaches it; a row that ends inside the surface is visited exactly as
      written. */
  lemma SmoothSpanReachesLastColumn(t: seq<Vec2>, n: int, y: int, width: int)
    requires |t| == 3 && (n == 1 || n == 2)
    ensures SmoothEnds(t, n, y).y >= (width - 1) as real ==> SmoothSpan(t, n, y, width).y == width
    ensures SmoothEnds(t, n, y).y + 1.0 <= (width - 1) as real ==>
      SmoothSpan(t, n, y, width) == SmoothSpanAsWritten(t, n, y, width)
  {
  }

  /** `pxPlotTriSmooth` visits pixel (x, y): its row lies between the truncated
      `max(t0.y, 0)` and `min(t2.y, height - 1)`, and its column in the row's span. */
  predicate SmoothCovers(t: seq<Vec2>, width: int, height: int, x: int, y: int)
    requires |t| == 3
  {
    Trunc(MaxF(t[0].y, 0.0)) <= y <= Trunc(MinF(t[2].y, (height - 1) as real)) &&
    var s := SmoothSpan(t, SmoothActiveEdge(t, y), y, width);
    s.x <= x < s.y
  }

  /** The nine sub-pixel offsets: the centre, the four axis and four diagonal neighbours. */
  const Offsets: seq<Vec2> := [
    Vec2(0.0, 0.0), Vec2(1.0, 0.0), Vec2(0.0, -1.0), Vec2(-1.0, 0.0), Vec2(0.0, 1.0),
    Vec2(1.0, 1.0), Vec2(1.0, -1.0), Vec2(-1.0, -1.0), Vec2(-1.0, 1.0)]

  function SamplePoint(x: int, y: int, o: Vec2): Vec2
  {
    Vec2(x as real + 0.5 * o.x, y as real + 0.5 * o.y)
  }

  /** A sample is inside when all three edge functions of the triangle, in the caller's
      vertex order, are non-negative there. */
  predicate InsideTri(T: seq<Vec2>, q: Vec2)
    requires |T| == 3
  {
    Edge(T[1], T[2], q) >= 0.0 && Edge(T[2], T[0], q) >= 0.0 && Edge(T[0], T[1], q) >= 0.0
  }

  /** How many of the first `k` samples of pixel (x, y) are inside. */
  function CountInside(T: seq<Vec2>, x: int, y: int, k: nat): (c: nat)
    requires |T| == 3 && k <= |Offsets|
    ensures c <= k
  {
    if k == 0 then 0
    else CountInside(T, x, y, k - 1) + if InsideTri(T, SamplePoint(x, y, Offsets[k - 1])) then 1 else 0
  }

  /** `sum * ni`: the fraction of the nine samples inside, a blend weight in [0,1]. */
  function Coverage(T: seq<Vec2>, x: int, y: int): (c: real)
    requires |T| == 3
    ensures 0.0 <= c <= 1.0
  {
    CountInside(T, x, y, |Offsets|) as real * (1.0 / 9.0)
  }

  /** The sample loop of `pxPlotTriSmooth`. */
  method SampleSum(T: seq<Vec2>, x: int, y: int) returns (sum: nat)
    requires |T| == 3
    ensures sum == CountInside(T, x, y, |Offsets|)
  {
    sum := 0;
    var j := 0;
    while j < |Offsets|
      invariant 0 <= j <= |Offsets|
      invariant sum == CountInside(T, x, y, j)
    {
      var q := SamplePoint(x, y, Offsets[j]);
      if Edge(T[1], T[2], q) >= 0.0 && Edge(T[2], T[0], q) >= 0.0 && Edge(T[0], T[1], q) >= 0.0 {
        sum := sum + 1;
      }
      j := j + 1;
    }
  }

  /** One scanline of `pxPlotTriSmooth`: blend each pixel of `[lo, hi)` toward the colour
      by its coverage. */
  method CoverRow(tex: Tex2D, T: seq<Vec2>, y: int, lo: int, hi: int, color: Px)
    requires tex.Valid() && |T| == 3 && 0 <= y < tex.height && 0 <= lo && hi <= tex.width
    modifies tex.fb
    ensures forall i, j | tex.Inside(i, j) ::
      tex.At(i, j) ==
        if j == y && lo <= i < hi then PxLerp(old(tex.At(i, j)), color, Coverage(T, i, j))
        else old(tex.At(i, j))
  {
    var x := lo;
    while x < hi
      invariant lo <= x
      invariant forall i, j | tex.Inside(i, j) ::
        tex.At(i, j) ==
          if j == y && lo <= i < x && i < hi then PxLerp(old(tex.At(i, j)), color, Coverage(T, i, j))
          else old(tex.At(i, j))
    {
      var sum := SampleSum(T, x, y);
      tex.Put(x, y, PxLerp(tex.At(x, y), color, sum as real * (1.0 / 9.0)));
      x := x + 1;
    }
  }

  /** `pxPlotTriSmooth`, with each scanline's end clamped to `width` (see
      `SmoothSpanSkipsLastColumn`): scan the sorted copy, test coverage against the
      caller's vertex order, and blend every visited pixel by its coverage. */
  method PlotTriSmooth(tex: Tex2D, p0: Vec2, p1: Vec2, p2: Vec2, color: Px)
    requires tex.Valid()
    modifies tex.fb
    ensures forall x, y | tex.Inside(x, y) ::
      tex.At(x, y) ==
        if SmoothCovers(Sort3([p0, p1, p2], Vec2Key), tex.width, tex.height, x, y)
        then PxLerp(old(tex.At(x, y)), color, Coverage([p0, p1, p2], x, y))
        else old(tex.At(x, y))
  {
    var T := [p0, p1, p2];
    var a := new Vec2[3][p0, p1, p2];
    assert a[..] == T;
    SortTriF(a);
    var t := a[..];
    var starty := Trunc(MaxF(t[0].y, 0.0));
    var endy := Trunc(MinF(t[2].y, (tex.height - 1) as real));
    var y, n := starty, 1;
    while y <= endy
      invariant starty <= y
      invariant n == if y > starty && (y - 1) as real >= t[1].y then 2 else 1
      invariant forall i, j | tex.Inside(i, j) ::
        tex.At(i, j) ==
          if j < y && SmoothCovers(t, tex.width, tex.height, i, j)
          then PxLerp(old(tex.At(i, j)), color, Coverage(T, i, j))
          else old(tex.At(i, j))
      decreases endy - y
    {
      n := n + if n == 1 && y as real >= t[1].y then 1 else 0;
      var s := SmoothSpan(t, n, y, tex.width);
      CoverRow(tex, T, y, s.x, s.y, color);
      y := y + 1;
    }
    assert t == Sort3(T, Vec2Key);
    forall i, j | tex.Inside(i, j) && j >= y
      ensures !SmoothCovers(t, tex.width, tex.height, i, j)
    {
    }
  }

  lemma {:induction false} NoneInside(T: seq<Vec2>, x: int, y: int, k: nat)
    requires |T| == 3 && k <= |Offsets| && Edge(T[0], T[1], T[2]) < 0.0
    ensures CountInside(T, x, y, k) == 0
  {
    if k > 0 {
      NoneInside(T, x, y, k - 1);
      EdgeSum(T[0], T[1], T[2], SamplePoint(x, y, Offsets[k - 1]));
    }
  }

  /** A triangle given in the other winding (negative `pxEdge(T0, T1, T2)`) covers no
      sample at all: `pxPlotTriSmooth` leaves every pixel as it was. */
  lemma WrongWindingInvisible(T: seq<Vec2>, x: int, y: int, c: Px, color: Px)
    requires |T| == 3 && Edge(T[0], T[1], T[2]) < 0.0
    ensures Coverage(T, x, y) == 0.0
    ensures PxLerp(c, color, Coverage(T, x, y)) == c
  {
    NoneInside(T, x, y, |Offsets|);
    PxLerpEnds(c, color);
  }

  lemma {:induction false} AllInside(T: seq<Vec2>, x: int, y: int, k: nat)
    requires |T| == 3 && k <= |Offsets|
    requires forall m | 0 <= m < k :: InsideTri(T, SamplePoint(x, y, Offsets[m]))
    ensures CountInside(T, x, y, k) == k
  {
    if k > 0 {
      AllInside(T, x, y, k - 1);
    }
  }

  /** A pixel whose nine samples are all inside gets exactly the colour. */
  lemma InteriorPixelSolid(T: seq<Vec2>, x: int, y: int, c: Px, color: Px)
    requires |T| == 3
    requires forall m | 0 <= m < |Offsets| :: InsideTri(T, SamplePoint(x, y, Offsets[m]))
    ensures Coverage(T, x, y) == 1.0
    ensures PxLerp(c, color, Coverage(T, x, y)) == color
  {
    AllInside(T, x, y, |Offsets|);
    PxLerpEnds(c, color);
  }

  /** The triangle (0,0), (0,10), (10,0) on a 4-wide surface: pixel (3,1) has all nine
      samples inside, yet scanline 1 as written stops before column 3; with the end
      clamped to the width it is visited and painted solid. */
  lemma LastColumnExample(p0: Vec2, p1: Vec2, p2: Vec2)
    requires p0 == Vec2(0.0, 0.0) && p1 == Vec2(0.0, 10.0) && p2 == Vec2(10.0, 0.0)
    ensures forall m | 0 <= m < |Offsets| :: InsideTri([p0, p1, p2], SamplePoint(3, 1, Offsets[m]))
    ensures SmoothSpanAsWritten(Sort3([p0, p1, p2], Vec2Key), 2, 1, 4) == IVec2(0, 3)
    ensures SmoothSpan(Sort3([p0, p1, p2], Vec2Key), 2, 1, 4) == IVec2(0, 4)
    ensures SmoothCovers(Sort3([p0, p1, p2], Vec2Key), 4, 4, 3, 1)
  {
    ExampleSorted(p0, p1, p2);
    ExampleSamplesInside(p0, p1, p2);
    SmoothVerticalCrossing(p0, p1, 1);
    ExampleDiagonalCrossing(p2, p1);
  }

  lemma ExampleSorted(p0: Vec2, p1: Vec2, p2: Vec2)
    requires p0 == Vec2(0.0, 0.0) && p1 == Vec2(0.0, 10.0) && p2 == Vec2(10.0, 0.0)
    ensures Sort3([p0, p1, p2], Vec2Key) == [p0, p2, p1]
  {
    var s1 := CompareSwap([p0, p1, p2], 2, 0, Vec2Key);
    assert s1 == [p0, p1, p2];
    var s2 := CompareSwap(s1, 1, 0, Vec2Key);
    assert s2 == s1;
    assert CompareSwap(s2, 2, 1, Vec2Key) == [p0, p2, p1];
  }

  lemma ExampleSamplesInside(p0: Vec2, p1: Vec2, p2: Vec2)
    requires p0 == Vec2(0.0, 0.0) && p1 == Vec2(0.0, 10.0) && p2 == Vec2(10.0, 0.0)
    ensures forall m | 0 <= m < |Offsets| :: InsideTri([p0, p1, p2], SamplePoint(3, 1, Offsets[m]))
  {
  }

  /** A vertical edge crosses every scanline at its own x. */
  lemma SmoothVerticalCrossing(a: Vec2, b: Vec2, y: int)
    requires a.x == b.x
    ensures SmoothCrossing(a, b, y) == a.x
  {
  }

  /** The edge (10,0)→(0,10) crosses scanline 1 at x = 9. */
  lemma ExampleDiagonalCrossing(a: Vec2, b: Vec2)
    requires a == Vec2(10.0, 0.0) && b == Vec2(0.0, 10.0)
    ensures SmoothCrossing(a, b, 1) == 9.0
  {
    assert InvHeight(10.0) == 0.1;
    assert Mul(0.1, 1.0) == 0.1;
  }

  // ---------------------------------------------------------------------------
  // Texture lookup

  /** One coordinate of `pxTexMap` as written: the fraction `u - (int)u`, scaled by the
      texture size and truncated. For negative `u` the fraction is negative, and so is the
      coordinate. */
  function TexCoordAsWritten(size: int, u: real): int
  {
    Trunc(Mul(size as real, u - Trunc(u) as real))
  }

  /** As written, u = -0.5 on a 4-texel-wide texture reads column -2, outside the texture. */
  lemma TexCoordNegative(size: int, u: real)
    requires size == 4 && u == -0.5
    ensures TexCoordAsWritten(size, u) == -2
  {
  }

  /** One coordinate with the fraction taken by flooring, so that texture coordinates wrap:
      the result is a texel of the texture. */
  function TexCoord(size: int, u: real): (c: int)
    requires size > 0
    ensures 0 <= c < size
  {
    var f := u - u.Floor as real;
    ScaleWithin(f, size as real);
    MulSigns(f, size as real);
    assert Mul(size as real, f) < size as real by {
      MulPos(size as real, 1.0 - f);
    }
    Trunc(Mul(size as real, f))
  }

  /** The wrapped coordinate agrees with the one as written on non-negative coordinates,
      and repeats with period 1. */
  lemma TexCoordWraps(size: int, u: real)
    requires size > 0
    ensures u >= 0.0 ==> TexCoord(size, u) == TexCoordAsWritten(size, u)
    ensures TexCoord(size, u + 1.0) == TexCoord(size, u)
  {
    assert (u + 1.0).Floor == u.Floor + 1;
  }

  /** `pxTexMap` with wrapping texture coordinates: the nearest texel of a non-empty
      texture. On non-negative coordinates it reads the texel the source reads. */
  function TexMap(tex: Tex2D, uv: Vec2): (c: Px)
    requires tex.Valid() && tex.width > 0 && tex.height > 0
    reads tex.fb
    ensures uv.x >= 0.0 && uv.y >= 0.0 ==>
      TexCoordAsWritten(tex.width, uv.x) == TexCoord(tex.width, uv.x) &&
      TexCoordAsWritten(tex.height, uv.y) == TexCoord(tex.height, uv.y) &&
      c == tex.At(TexCoordAsWritten(tex.width, uv.x), TexCoordAsWritten(tex.height, uv.y))
  {
    TexCoordWraps(tex.width, uv.x);
    TexCoordWraps(tex.height, uv.y);
    tex.At(TexCoord(tex.width, uv.x), TexCoord(tex.height, uv.y))
  }
}
