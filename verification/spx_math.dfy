/** Simple PiXel Math: the scalar and 2-D vector helpers the rasterizer is built on.
    Single-precision floats are modelled as exact reals; C's float-to-int cast is
    `Trunc` (rounding toward zero). A product of two variable quantities is written
    `Mul(a, b)` (and a square `Sq(a)`), so that the solver reasons about it as one term
    and the facts it needs about products are stated once, in the lemmas below. */
module SpxMath {

  datatype Vec2 = Vec2(x: real, y: real)
  datatype IVec2 = IVec2(x: int, y: int)

  /** `absf`: the magnitude of `n`. */
  function AbsF(n: real): (r: real)
    ensures r >= 0.0 && (r == n || r == -n)
  {
    if n < 0.0 then -n else n
  }

  /** `signf`: -1 for negative numbers, 1 otherwise (zero included). */
  function SignF(n: real): (r: real)
    ensures r == 1.0 || r == -1.0
  {
    if n < 0.0 then -1.0 else 1.0
  }

  /** `minf`: ties pick the second argument. */
  function MinF(n: real, m: real): (r: real)
    ensures r <= n && r <= m
    ensures r == n || r == m
  {
    if n < m then n else m
  }

  /** `maxf`: ties pick the second argument. */
  function MaxF(n: real, m: real): (r: real)
    ensures r >= n && r >= m
    ensures r == n || r == m
  {
    if n > m then n else m
  }

  /** `clampf`: the upper bound is tested first, so an empty range yields `hi` or `lo`. */
  function ClampF(n: real, lo: real, hi: real): (r: real)
    ensures lo <= hi ==> lo <= r <= hi
    ensures lo <= n <= hi ==> r == n
  {
    if n > hi then hi else if n < lo then lo else n
  }

  function Mul(a: real, b: real): real { a * b }
  function Sq(a: real): real { Mul(a, a) }

  /** `lerpf` */
  function LerpF(a: real, b: real, t: real): real
  {
    a + Mul(t, b - a)
  }

  /** `ilerpf`: where `n` lies between `lo` and `hi`, as a fraction; 0 for an empty range. */
  function ILerpF(lo: real, hi: real, n: real): real
  {
    if hi - lo != 0.0 then (n - lo) / (hi - lo) else 0.0
  }

  /** `remapf` */
  function RemapF(lo: real, hi: real, a: real, b: real, n: real): real
  {
    LerpF(a, b, ILerpF(lo, hi, n))
  }

  function Vec2Add(p: Vec2, q: Vec2): Vec2 { Vec2(p.x + q.x, p.y + q.y) }
  function Vec2Sub(p: Vec2, q: Vec2): Vec2 { Vec2(p.x - q.x, p.y - q.y) }
  function Vec2Mult(p: Vec2, n: real): Vec2 { Vec2(Mul(p.x, n), Mul(p.y, n)) }

  /** `vec2_div`: dividing by zero yields the zero vector. */
  function Vec2Div(p: Vec2, n: real): Vec2
  {
    var k := if n == 0.0 then 0.0 else 1.0 / n;
    Vec2(Mul(p.x, k), Mul(p.y, k))
  }

  /** `vec2_cross`: the 2-D "cross", the difference `p - q` turned a quarter. */
  function Vec2Cross(p: Vec2, q: Vec2): Vec2 { Vec2(-(p.y - q.y), p.x - q.x) }

  function Vec2Lerp(a: Vec2, b: Vec2, t: real): Vec2
  {
    Vec2(LerpF(a.x, b.x, t), LerpF(a.y, b.y, t))
  }

  function Vec2Dot(p: Vec2, q: Vec2): real { Mul(p.x, q.x) + Mul(p.y, q.y) }
  function Vec2SqMag(p: Vec2): real { Sq(p.x) + Sq(p.y) }

  /** C's conversion of a float to an int: the integer part, rounded toward zero.
      The contract determines the result uniquely. */
  function Trunc(r: real): (n: int)
    ensures r >= 0.0 ==> 0 <= n && n as real <= r < n as real + 1.0
    ensures r < 0.0 ==> n <= 0 && n as real - 1.0 < r <= n as real
  {
    if r >= 0.0 then r.Floor else -((-r).Floor)
  }

  function IVec2ToVec2(p: IVec2): Vec2 { Vec2(p.x as real, p.y as real) }
  function Vec2ToIVec2(p: Vec2): IVec2 { IVec2(Trunc(p.x), Trunc(p.y)) }

  // ---------------------------------------------------------------------------
  // Arithmetic helpers

  lemma MulNonNeg(a: real, b: real)
    requires a >= 0.0 && b >= 0.0
    ensures Mul(a, b) >= 0.0
  {
  }

  lemma MulPos(a: real, b: real)
    requires a > 0.0 && b > 0.0
    ensures Mul(a, b) > 0.0
  {
  }

  lemma MulSigns(a: real, b: real)
    ensures Mul(a, -b) == -Mul(a, b) && Mul(-a, b) == -Mul(a, b)
    ensures Mul(-a, -b) == Mul(a, b)
    ensures Mul(a, b) == Mul(b, a)
  {
  }

  lemma SquarePositive(a: real)
    ensures Sq(a) >= 0.0
    ensures a != 0.0 ==> Sq(a) > 0.0
  {
    if a > 0.0 {
      MulPos(a, a);
    } else if a < 0.0 {
      MulPos(-a, -a);
      MulSigns(a, a);
    }
  }

  lemma SumOfSquares(a: real, b: real)
    ensures Sq(a) + Sq(b) >= 0.0
    ensures Sq(a) + Sq(b) == 0.0 ==> a == 0.0 && b == 0.0
  {
    SquarePositive(a);
    SquarePositive(b);
  }

  /** A weight in [0,1] scales a non-negative amount into [0, amount]. */
  lemma ScaleWithin(t: real, d: real)
    requires 0.0 <= t <= 1.0 && d >= 0.0
    ensures 0.0 <= Mul(t, d) <= d
  {
    MulNonNeg(t, d);
    MulNonNeg(1.0 - t, d);
    assert Mul(1.0 - t, d) == d - Mul(t, d);
  }

  // ---------------------------------------------------------------------------
  // Properties

  /** `signf(n) * absf(n)` gives back `n`, and the sign is -1 exactly for negatives. */
  lemma SignTimesAbs(n: real)
    ensures SignF(n) * AbsF(n) == n
    ensures SignF(n) == -1.0 <==> n < 0.0
  {
  }

  /** Interpolation reaches its end points. */
  lemma LerpEnds(a: real, b: real)
    ensures LerpF(a, b, 0.0) == a
    ensures LerpF(a, b, 1.0) == b
  {
  }

  /** For a weight in [0,1] the interpolant stays between the two end points. */
  lemma LerpBetween(a: real, b: real, t: real)
    requires 0.0 <= t <= 1.0
    ensures MinF(a, b) <= LerpF(a, b, t) <= MaxF(a, b)
  {
    if a <= b {
      ScaleWithin(t, b - a);
    } else {
      ScaleWithin(t, a - b);
      MulSigns(t, a - b);
      assert -(a - b) == b - a;
    }
  }

  /** `ilerpf` inverts `lerpf` on a non-empty range, and yields 0 on an empty one. */
  lemma ILerpInvertsLerp(lo: real, hi: real, n: real, t: real)
    ensures hi == lo ==> ILerpF(lo, hi, n) == 0.0
    ensures hi != lo ==> LerpF(lo, hi, ILerpF(lo, hi, n)) == n
    ensures hi != lo ==> ILerpF(lo, hi, LerpF(lo, hi, t)) == t
    ensures ILerpF(lo, hi, lo) == 0.0
  {
    if hi != lo {
      var d := hi - lo;
      assert Mul((n - lo) / d, d) == n - lo;
      assert Mul(t, d) / d == t;
    }
  }

  /** `remapf` sends the ends of the source range to the ends of the target range. */
  lemma RemapEnds(lo: real, hi: real, a: real, b: real)
    requires hi != lo
    ensures RemapF(lo, hi, a, b, lo) == a
    ensures RemapF(lo, hi, a, b, hi) == b
  {
    ILerpInvertsLerp(lo, hi, lo, 0.0);
    assert (hi - lo) / (hi - lo) == 1.0;
  }

  /** Vector subtraction undoes addition; division undoes scaling; division by zero gives zero. */
  lemma Vec2Inverses(p: Vec2, q: Vec2, n: real)
    ensures Vec2Sub(Vec2Add(p, q), q) == p
    ensures Vec2Add(p, q) == Vec2Add(q, p)
    ensures n != 0.0 ==> Vec2Div(Vec2Mult(p, n), n) == p
    ensures Vec2Div(p, 0.0) == Vec2(0.0, 0.0)
  {
    if n != 0.0 {
      assert Mul(Mul(p.x, n), 1.0 / n) == p.x;
      assert Mul(Mul(p.y, n), 1.0 / n) == p.y;
    }
  }

  /** `vec2_lerp` moves from `a` along `b - a`, reaching `a` at 0 and `b` at 1. */
  lemma Vec2LerpAlong(a: Vec2, b: Vec2, t: real)
    ensures Vec2Lerp(a, b, t) == Vec2Add(a, Vec2Mult(Vec2Sub(b, a), t))
    ensures Vec2Lerp(a, b, 0.0) == a && Vec2Lerp(a, b, 1.0) == b
  {
  }

  /** The squared magnitude is the self dot product; it is zero only for the zero vector. */
  lemma SqMagIsDot(p: Vec2)
    ensures Vec2SqMag(p) == Vec2Dot(p, p)
    ensures Vec2SqMag(p) >= 0.0
    ensures Vec2SqMag(p) == 0.0 <==> p.x == 0.0 && p.y == 0.0
  {
    SumOfSquares(p.x, p.y);
    if p.x == 0.0 && p.y == 0.0 {
      assert Sq(p.x) == 0.0 && Sq(p.y) == 0.0;
    }
  }

  /** `vec2_cross(p, q)` is perpendicular to `p - q`. */
  lemma CrossPerpendicular(p: Vec2, q: Vec2)
    ensures Vec2Dot(Vec2Cross(p, q), Vec2Sub(p, q)) == 0.0
  {
  }

  /** Converting an integer vector to floats and back is the identity; truncation
      never moves a coordinate away from zero. */
  lemma IVec2RoundTrip(p: IVec2, v: Vec2)
    ensures Vec2ToIVec2(IVec2ToVec2(p)) == p
    ensures AbsF(Vec2ToIVec2(v).x as real) <= AbsF(v.x)
    ensures AbsF(Vec2ToIVec2(v).y as real) <= AbsF(v.y)
  {
  }
}
