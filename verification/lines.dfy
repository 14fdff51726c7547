/** The two integer Bresenham line loops, `pxPlotLine` and `pxPlotLine2`.

    Both walk a cursor from `p` to `q` one pixel at a time, carrying an error term.
    They differ only in how they break ties when the doubled error sits exactly on a
    threshold: `pxPlotLine` steps on equality (`Inclusive`), `pxPlotLine2` does not
    (`Strict`). The walk itself is the function `Trace`; the loops are proved to plot
    exactly the points of `LinePoints`. */
module Lines {
  import opened SpxMath
  import opened Pixel
  import opened Surface

  datatype Rule = Inclusive | Strict

  /** The loop state: the current pixel and the error accumulator. */
  datatype Cursor = Cursor(x: int, y: int, err: int)


  function DX(p: IVec2, q: IVec2): int { AbsI(q.x - p.x) }
  function DY(p: IVec2, q: IVec2): int { AbsI(q.y - p.y) }
  function SX(p: IVec2, q: IVec2): int { if p.x < q.x then 1 else -1 }
  function SY(p: IVec2, q: IVec2): int { if p.y < q.y then 1 else -1 }

  function Pos(c: Cursor): IVec2 { IVec2(c.x, c.y) }

  /** How many unit steps `at` lies from `from` in direction `s`. */
  function Along(s: int, from: int, at: int): int
  {
    if s == 1 then at - from else from - at
  }

  /** Steps taken so far along each axis. */
  function StepsX(p: IVec2, q: IVec2, a: IVec2): int { Along(SX(p, q), p.x, a.x) }
  function StepsY(p: IVec2, q: IVec2, a: IVec2): int { Along(SY(p, q), p.y, a.y) }

  /** Unit steps still to take before reaching `q`. */
  function Left(p: IVec2, q: IVec2, a: IVec2): int
  {
    (DX(p, q) - StepsX(p, q, a)) + (DY(p, q) - StepsY(p, q, a))
  }

  /** The state before the first iteration: `error = d.x + d.y`, with `d.y = -|dy|`. */
  function Start(p: IVec2, q: IVec2): Cursor
  {
    Cursor(p.x, p.y, DX(p, q) - DY(p, q))
  }

  /** The states the loop can be in: the cursor lies in the box spanned by `p` and `q`,
      `i` steps along x and `j` along y, and the error is `dx*(j+1) - dy*(i+1)`. */
  predicate Reachable(p: IVec2, q: IVec2, c: Cursor)
  {
    var i := StepsX(p, q, Pos(c));
    var j := StepsY(p, q, Pos(c));
    0 <= i <= DX(p, q) && 0 <= j <= DY(p, q) &&
    c.err == DX(p, q) * (j + 1) - DY(p, q) * (i + 1)
  }

  /** Whether the doubled error `e2` calls for a step along x, resp. along y. */
  predicate MoveX(rule: Rule, p: IVec2, q: IVec2, e2: int)
  {
    match rule
    case Inclusive => e2 >= -DY(p, q)
    case Strict => e2 > -DY(p, q)
  }

  predicate MoveY(rule: Rule, p: IVec2, q: IVec2, e2: int)
  {
    match rule
    case Inclusive => e2 <= DX(p, q)
    case Strict => e2 < DX(p, q)
  }

  /** One loop iteration after the plot: both tests use the error from before either update. */
  function Step(rule: Rule, p: IVec2, q: IVec2, c: Cursor): Cursor
  {
    var e2 := c.err * 2;
    var c1 := if MoveX(rule, p, q, e2) then Cursor(c.x + SX(p, q), c.y, c.err - DY(p, q)) else c;
    if MoveY(rule, p, q, e2) then Cursor(c1.x, c1.y + SY(p, q), c1.err + DX(p, q)) else c1
  }

  /** `Step` as a change to each field of the cursor. */
  lemma StepFields(rule: Rule, p: IVec2, q: IVec2, c: Cursor)
    ensures var mx, my := MoveX(rule, p, q, c.err * 2), MoveY(rule, p, q, c.err * 2);
      Step(rule, p, q, c) == Cursor(
        c.x + (if mx then SX(p, q) else 0),
        c.y + (if my then SY(p, q) else 0),
        c.err - (if mx then DY(p, q) else 0) + (if my then DX(p, q) else 0))
  {
  }

  /** `b` is one move from `a` toward `q`: at most one unit along each axis, never away
      from `q`, and never standing still. */
  predicate Toward(p: IVec2, q: IVec2, a: IVec2, b: IVec2)
  {
    a != b &&
    (b.x == a.x || b.x == a.x + SX(p, q)) &&
    (b.y == a.y || b.y == a.y + SY(p, q))
  }

  /** `a` lies in the axis-aligned box spanned by `p` and `q`. */
  predicate InBox(p: IVec2, q: IVec2, a: IVec2)
  {
    (if p.x <= q.x then p.x <= a.x <= q.x else q.x <= a.x <= p.x) &&
    (if p.y <= q.y then p.y <= a.y <= q.y else q.y <= a.y <= p.y)
  }

  lemma ReachableInBox(p: IVec2, q: IVec2, c: Cursor)
    requires Reachable(p, q, c)
    ensures InBox(p, q, Pos(c))
  {
  }

  lemma StartReachable(p: IVec2, q: IVec2)
    ensures Reachable(p, q, Start(p, q))
  {
  }

  lemma ProductNonPos(a: int, b: int)
    requires a >= 0 && b <= 0
    ensures a * b <= 0
  {
    ProductNonNeg(a, -b);
  }

  lemma Distribute(a: int, b: int)
    ensures a * (b + 1) == a * b + a
  {
  }

  /** A cursor of the loop sits at `q` exactly when it has taken all its steps. */
  lemma AtEnd(p: IVec2, q: IVec2, a: IVec2)
    ensures Pos(Cursor(a.x, a.y, 0)) == a
    ensures StepsX(p, q, a) == DX(p, q) <==> a.x == q.x
    ensures StepsY(p, q, a) == DY(p, q) <==> a.y == q.y
    ensures StepsX(p, q, IVec2(a.x + SX(p, q), a.y)) == StepsX(p, q, a) + 1
    ensures StepsY(p, q, IVec2(a.x, a.y + SY(p, q))) == StepsY(p, q, a) + 1
  {
  }

  /** With all x steps taken and y steps left, the doubled error lies below `-dy`. */
  lemma ErrorAtEndOfX(dx: int, dy: int, j: int, err: int)
    requires 0 <= dx && 0 <= j < dy
    requires err == dx * (j + 1) - dy * (dx + 1)
    ensures err * 2 < -dy
  {
    ProductNonPos(dx, j + 1 - dy);
    assert err == dx * (j + 1 - dy) - dy;
  }

  /** With all y steps taken and x steps left, the doubled error lies above `dx`. */
  lemma ErrorAtEndOfY(dx: int, dy: int, i: int, err: int)
    requires 0 <= dy && 0 <= i < dx
    requires err == dx * (dy + 1) - dy * (i + 1)
    ensures err * 2 > dx
  {
    ProductNonNeg(dy, dx - i - 1);
    assert err == dy * (dx - i - 1) + dx;
  }

  /** With all x steps taken the error rules out another x step, with all y steps taken
      it rules out another y step, and short of `q` at least one of the two happens. */
  lemma MoveChoice(rule: Rule, p: IVec2, q: IVec2, c: Cursor)
    requires Reachable(p, q, c) && Pos(c) != q
    ensures StepsX(p, q, Pos(c)) == DX(p, q) ==> !MoveX(rule, p, q, c.err * 2)
    ensures StepsY(p, q, Pos(c)) == DY(p, q) ==> !MoveY(rule, p, q, c.err * 2)
    ensures MoveX(rule, p, q, c.err * 2) || MoveY(rule, p, q, c.err * 2)
  {
    var dx, dy := DX(p, q), DY(p, q);
    var i, j := StepsX(p, q, Pos(c)), StepsY(p, q, Pos(c));
    AtEnd(p, q, Pos(c));
    if i == dx {
      ErrorAtEndOfX(dx, dy, j, c.err);
    }
    if j == dy {
      ErrorAtEndOfY(dx, dy, i, c.err);
    }
  }

  /** The loop invariant is kept by every iteration that the loop condition lets run,
      each iteration moves the cursor one pixel toward `q`, and the work left shrinks. */
  lemma StepProgress(rule: Rule, p: IVec2, q: IVec2, c: Cursor)
    requires Reachable(p, q, c) && Pos(c) != q
    ensures Reachable(p, q, Step(rule, p, q, c))
    ensures 0 <= Left(p, q, Pos(Step(rule, p, q, c))) < Left(p, q, Pos(c))
    ensures Toward(p, q, Pos(c), Pos(Step(rule, p, q, c)))
  {
    var dx, dy := DX(p, q), DY(p, q);
    var i, j := StepsX(p, q, Pos(c)), StepsY(p, q, Pos(c));
    var mx, my := MoveX(rule, p, q, c.err * 2), MoveY(rule, p, q, c.err * 2);
    MoveChoice(rule, p, q, c);
    var c1 := if mx then Cursor(c.x + SX(p, q), c.y, c.err - dy) else c;
    var c2 := if my then Cursor(c1.x, c1.y + SY(p, q), c1.err + dx) else c1;
    assert Step(rule, p, q, c) == c2;
    AtEnd(p, q, Pos(c));
    AtEnd(p, q, Pos(c1));
    var i2, j2 := StepsX(p, q, Pos(c2)), StepsY(p, q, Pos(c2));
    assert i2 == if mx then i + 1 else i;
    assert j2 == if my then j + 1 else j;
    Distribute(dy, i + 1);
    Distribute(dx, j + 1);
    assert c2.err == dx * (j2 + 1) - dy * (i2 + 1);
  }

  /** The pixels the loop plots from cursor `c` on, in order: every loop iteration plots
      the cursor, and the final `pxPlot` after the loop plots `q`. */
  function Trace(rule: Rule, p: IVec2, q: IVec2, c: Cursor): (pts: seq<IVec2>)
    requires Reachable(p, q, c)
    ensures |pts| >= 1 && pts[0] == Pos(c) && pts[|pts| - 1] == q
    decreases Left(p, q, Pos(c))
  {
    if Pos(c) == q then [q]
    else
      StepProgress(rule, p, q, c);
      [Pos(c)] + Trace(rule, p, q, Step(rule, p, q, c))
  }

  /** All pixels plotted for the line from `p` to `q`. */
  function LinePoints(rule: Rule, p: IVec2, q: IVec2): seq<IVec2>
  {
    StartReachable(p, q);
    Trace(rule, p, q, Start(p, q))
  }

  /** One unfolding of `Trace` short of `q`. */
  lemma TraceUnfold(rule: Rule, p: IVec2, q: IVec2, c: Cursor)
    requires Reachable(p, q, c) && Pos(c) != q
    ensures Reachable(p, q, Step(rule, p, q, c))
    ensures Trace(rule, p, q, c) == [Pos(c)] + Trace(rule, p, q, Step(rule, p, q, c))
  {
    StepProgress(rule, p, q, c);
  }

  /** One loop iteration keeps the loop invariants of `PlotLine` and `PlotLine2`: with the
      pixels `drawn` so far followed by the rest of the walk making up the whole line,
      plotting the cursor and stepping keeps that split, and the work left shrinks. */
  lemma LoopStep(rule: Rule, p: IVec2, q: IVec2, c: Cursor, drawn: seq<IVec2>)
    requires Reachable(p, q, c) && Pos(c) != q
    requires drawn + Trace(rule, p, q, c) == LinePoints(rule, p, q)
    ensures Reachable(p, q, Step(rule, p, q, c))
    ensures (drawn + [Pos(c)]) + Trace(rule, p, q, Step(rule, p, q, c)) == LinePoints(rule, p, q)
    ensures 0 <= Left(p, q, Pos(Step(rule, p, q, c))) < Left(p, q, Pos(c))
  {
    StepProgress(rule, p, q, c);
    TraceUnfold(rule, p, q, c);
  }

  /** Along a trace, consecutive pixels are single moves toward `q`. */
  lemma {:induction false} TraceMoves(rule: Rule, p: IVec2, q: IVec2, c: Cursor)
    requires Reachable(p, q, c)
    ensures var t := Trace(rule, p, q, c);
      forall k | 0 <= k < |t| - 1 :: Toward(p, q, t[k], t[k + 1])
    decreases Left(p, q, Pos(c))
  {
    if Pos(c) != q {
      StepProgress(rule, p, q, c);
      TraceUnfold(rule, p, q, c);
      var c' := Step(rule, p, q, c);
      TraceMoves(rule, p, q, c');
      var t, t' := Trace(rule, p, q, c), Trace(rule, p, q, c');
      forall k | 0 <= k < |t| - 1
        ensures Toward(p, q, t[k], t[k + 1])
      {
        if k > 0 {
          assert t[k] == t'[k - 1] && t[k + 1] == t'[k];
        }
      }
    }
  }

  /** Every pixel of a trace lies in the box of `p` and `q`. */
  lemma {:induction false} TraceInBox(rule: Rule, p: IVec2, q: IVec2, c: Cursor)
    requires Reachable(p, q, c)
    ensures var t := Trace(rule, p, q, c);
      forall k | 0 <= k < |t| :: InBox(p, q, t[k])
    decreases Left(p, q, Pos(c))
  {
    ReachableInBox(p, q, c);
    if Pos(c) != q {
      StepProgress(rule, p, q, c);
      TraceUnfold(rule, p, q, c);
      TraceInBox(rule, p, q, Step(rule, p, q, c));
    }
  }

  /** The steps left strictly decrease along a trace, so no pixel repeats. */
  lemma {:induction false} TraceDecreasing(rule: Rule, p: IVec2, q: IVec2, c: Cursor)
    requires Reachable(p, q, c)
    ensures var t := Trace(rule, p, q, c);
      forall k, l | 0 <= k < l < |t| :: Left(p, q, t[l]) < Left(p, q, t[k])
    decreases Left(p, q, Pos(c))
  {
    if Pos(c) != q {
      StepProgress(rule, p, q, c);
      TraceUnfold(rule, p, q, c);
      var c' := Step(rule, p, q, c);
      TraceDecreasing(rule, p, q, c');
      var t, t' := Trace(rule, p, q, c), Trace(rule, p, q, c');
      forall k, l | 0 <= k < l < |t|
        ensures Left(p, q, t[l]) < Left(p, q, t[k])
      {
        assert t[l] == t'[l - 1];
        if k == 0 {
          if l > 1 {
            assert Left(p, q, t'[l - 1]) < Left(p, q, t'[0]);
          }
        } else {
          assert t[k] == t'[k - 1];
        }
      }
    }
  }

  /** The plotted line starts at `p`, ends at `q`, moves one pixel at a time toward `q`,
      stays in the box of its end points, and plots no pixel twice. */
  lemma LineShape(rule: Rule, p: IVec2, q: IVec2)
    ensures var t := LinePoints(rule, p, q);
      t[0] == p && t[|t| - 1] == q
    ensures var t := LinePoints(rule, p, q);
      forall k | 0 <= k < |t| - 1 :: Toward(p, q, t[k], t[k + 1])
    ensures var t := LinePoints(rule, p, q);
      forall k | 0 <= k < |t| :: InBox(p, q, t[k])
    ensures var t := LinePoints(rule, p, q);
      forall k, l | 0 <= k < l < |t| :: t[k] != t[l]
  {
    StartReachable(p, q);
    TraceMoves(rule, p, q, Start(p, q));
    TraceInBox(rule, p, q, Start(p, q));
    TraceDecreasing(rule, p, q, Start(p, q));
    var t := LinePoints(rule, p, q);
    assert t == Trace(rule, p, q, Start(p, q));
    forall k, l | 0 <= k < l < |t|
      ensures t[k] != t[l]
    {
      assert Left(p, q, t[l]) < Left(p, q, t[k]);
    }
  }

  /** The pixels of the row segment from `a`, `n` pixels long, walking in direction `s`. */
  function Run(a: IVec2, s: int, n: nat): seq<IVec2>
  {
    seq(n, k => IVec2(a.x + (if s == 1 then k else -k), a.y))
  }

  /** On a horizontal line every step is one pixel in x. */
  lemma HorizontalStep(rule: Rule, p: IVec2, q: IVec2, c: Cursor)
    requires p.y == q.y && Reachable(p, q, c) && Pos(c) != q
    ensures Step(rule, p, q, c) == Cursor(c.x + SX(p, q), c.y, c.err)
    ensures Reachable(p, q, Step(rule, p, q, c))
    ensures StepsX(p, q, Pos(Step(rule, p, q, c))) == StepsX(p, q, Pos(c)) + 1
    ensures Left(p, q, Pos(Step(rule, p, q, c))) < Left(p, q, Pos(c))
  {
    StepProgress(rule, p, q, c);
    AtEnd(p, q, Pos(c));
  }

  lemma RunCons(a: IVec2, s: int, n: nat)
    requires n >= 1
    ensures Run(a, s, n) == [a] + Run(IVec2(a.x + (if s == 1 then 1 else -1), a.y), s, n - 1)
  {
  }

  lemma {:induction false} HorizontalTrace(rule: Rule, p: IVec2, q: IVec2, c: Cursor)
    requires p.y == q.y && Reachable(p, q, c)
    ensures Trace(rule, p, q, c) == Run(Pos(c), SX(p, q), DX(p, q) - StepsX(p, q, Pos(c)) + 1)
    decreases Left(p, q, Pos(c))
  {
    if Pos(c) != q {
      HorizontalStep(rule, p, q, c);
      TraceUnfold(rule, p, q, c);
      var c' := Step(rule, p, q, c);
      HorizontalTrace(rule, p, q, c');
      RunCons(Pos(c), SX(p, q), DX(p, q) - StepsX(p, q, Pos(c)) + 1);
    }
  }

  /** A horizontal line plots exactly the pixels between its end points, each once,
      under either tie-breaking rule. */
  lemma HorizontalLine(rule: Rule, p: IVec2, q: IVec2)
    requires p.y == q.y
    ensures LinePoints(rule, p, q) == Run(p, SX(p, q), DX(p, q) + 1)
  {
    StartReachable(p, q);
    HorizontalTrace(rule, p, q, Start(p, q));
  }

  /** The line from (0,0) to (5,0) plots exactly (0,0), (1,0), ..., (5,0). */
  lemma LineZeroToFive(rule: Rule)
    ensures LinePoints(rule, IVec2(0, 0), IVec2(5, 0)) ==
      [IVec2(0, 0), IVec2(1, 0), IVec2(2, 0), IVec2(3, 0), IVec2(4, 0), IVec2(5, 0)]
  {
    var p, q := IVec2(0, 0), IVec2(5, 0);
    HorizontalLine(rule, p, q);
    assert SX(p, q) == 1 && DX(p, q) == 5;
    var r := Run(p, 1, 6);
    assert r[0] == IVec2(0, 0) && r[1] == IVec2(1, 0) && r[2] == IVec2(2, 0);
    assert r[3] == IVec2(3, 0) && r[4] == IVec2(4, 0) && r[5] == IVec2(5, 0);
  }

  /** A line whose walk reaches `q` after passing through `m` alone. */
  lemma LineOfThree(rule: Rule, p: IVec2, q: IVec2, m: IVec2)
    requires p != q && m != q
    requires Pos(Step(rule, p, q, Start(p, q))) == m
    requires Pos(Step(rule, p, q, Step(rule, p, q, Start(p, q)))) == q
    ensures LinePoints(rule, p, q) == [p, m, q]
  {
    StartReachable(p, q);
    var c0 := Start(p, q);
    TraceUnfold(rule, p, q, c0);
    var c1 := Step(rule, p, q, c0);
    TraceUnfold(rule, p, q, c1);
  }

  /** Swapping the end points can change which pixels `pxPlotLine` draws: from (0,0) to
      (2,1) the middle pixel is (1,1), drawn backwards it is (1,0). */
  lemma LineNotSymmetric(p: IVec2, q: IVec2)
    requires p == IVec2(0, 0) && q == IVec2(2, 1)
    ensures LinePoints(Inclusive, p, q) == [p, IVec2(1, 1), q]
    ensures LinePoints(Inclusive, q, p) == [q, IVec2(1, 0), p]
  {
    // forwards: dx = 2, dy = 1, the error goes 1, 2, 1
    var c1 := Step(Inclusive, p, q, Start(p, q));
    assert c1.x == 1 && c1.y == 1 && c1.err == 2;
    assert Pos(Step(Inclusive, p, q, c1)) == q;
    LineOfThree(Inclusive, p, q, IVec2(1, 1));
    // backwards: the same errors, but the steps point the other way
    var d1 := Step(Inclusive, q, p, Start(q, p));
    assert d1.x == 1 && d1.y == 0 && d1.err == 2;
    assert Pos(Step(Inclusive, q, p, d1)) == p;
    LineOfThree(Inclusive, q, p, IVec2(1, 0));
  }

  /** The same for `pxPlotLine2`, whose strict tie-breaking picks the other middle
      pixel in each direction. */
  lemma Line2NotSymmetric(p: IVec2, q: IVec2)
    requires p == IVec2(0, 0) && q == IVec2(2, 1)
    ensures LinePoints(Strict, p, q) == [p, IVec2(1, 0), q]
    ensures LinePoints(Strict, q, p) == [q, IVec2(1, 1), p]
  {
    // forwards: the error goes 1, 0, 1
    var c1 := Step(Strict, p, q, Start(p, q));
    assert c1.x == 1 && c1.y == 0 && c1.err == 0;
    assert Pos(Step(Strict, p, q, c1)) == q;
    LineOfThree(Strict, p, q, IVec2(1, 0));
    var d1 := Step(Strict, q, p, Start(q, p));
    assert d1.x == 1 && d1.y == 1 && d1.err == 0;
    assert Pos(Step(Strict, q, p, d1)) == p;
    LineOfThree(Strict, q, p, IVec2(1, 1));
  }

  /** The body of the loop in `pxPlotLine`: plot the cursor, then step it by the doubled error, with `d.y` holding `-|dy|`. */
  method PlotLineStep(tex: Tex2D, p: IVec2, q: IVec2, cur: IVec2, error: int, color: Px)
    returns (cur': IVec2, error': int)
    requires tex.Valid()
    modifies tex.fb
    ensures Cursor(cur'.x, cur'.y, error') == Step(Inclusive, p, q, Cursor(cur.x, cur.y, error))
    ensures forall x, y | tex.Inside(x, y) ::
      tex.At(x, y) == if x == cur.x && y == cur.y then color else old(tex.At(x, y))
  {
    var d := IVec2(DX(p, q), -DY(p, q));
    var s := IVec2(SX(p, q), SY(p, q));
    StepFields(Inclusive, p, q, Cursor(cur.x, cur.y, error));
    cur', error' := cur, error;
    var e2 := error' * 2;
    tex.Plot(cur'.x, cur'.y, color);
    if e2 >= d.y {
      error' := error' + d.y;
      cur' := cur'.(x := cur'.x + s.x);
    }
    if e2 <= d.x {
      error' := error' + d.x;
      cur' := cur'.(y := cur'.y + s.y);
    }
  }

  /** `pxPlotLine`: plots exactly the pixels of `LinePoints(Inclusive, p, q)` that lie on the surface, and leaves every other pixel alone. The error starts at `|dx| - |dy|`. */
  method PlotLine(tex: Tex2D, p: IVec2, q: IVec2, color: Px)
    requires tex.Valid()
    modifies tex.fb
    ensures forall x, y | tex.Inside(x, y) ::
      tex.At(x, y) == if IVec2(x, y) in LinePoints(Inclusive, p, q) then color else old(tex.At(x, y))
  {
    var error := DX(p, q) - DY(p, q);
    var cur := p;
    ghost var drawn: seq<IVec2> := [];
    StartReachable(p, q);
    while !(cur.x == q.x && cur.y == q.y)
      invariant Reachable(p, q, Cursor(cur.x, cur.y, error))
      invariant drawn + Trace(Inclusive, p, q, Cursor(cur.x, cur.y, error)) == LinePoints(Inclusive, p, q)
      invariant forall x, y | tex.Inside(x, y) ::
        tex.At(x, y) == if IVec2(x, y) in drawn then color else old(tex.At(x, y))
      decreases Left(p, q, cur)
    {
      LoopStep(Inclusive, p, q, Cursor(cur.x, cur.y, error), drawn);
      drawn := drawn + [cur];
      cur, error := PlotLineStep(tex, p, q, cur, error, color);
    }
    tex.Plot(cur.x, cur.y, color);
  }

  /** The body of the loop in `pxPlotLine2`: the same step with strict comparisons, `d.y` holding `|dy|`. */
  method PlotLine2Step(tex: Tex2D, p: IVec2, q: IVec2, cur: IVec2, error: int, color: Px)
    returns (cur': IVec2, error': int)
    requires tex.Valid()
    modifies tex.fb
    ensures Cursor(cur'.x, cur'.y, error') == Step(Strict, p, q, Cursor(cur.x, cur.y, error))
    ensures forall x, y | tex.Inside(x, y) ::
      tex.At(x, y) == if x == cur.x && y == cur.y then color else old(tex.At(x, y))
  {
    var d := IVec2(DX(p, q), DY(p, q));
    var s := IVec2(SX(p, q), SY(p, q));
    StepFields(Strict, p, q, Cursor(cur.x, cur.y, error));
    cur', error' := cur, error;
    var e2 := error' * 2;
    tex.Plot(cur'.x, cur'.y, color);
    if e2 > -d.y {
      error' := error' - d.y;
      cur' := cur'.(x := cur'.x + s.x);
    }
    if e2 < d.x {
      error' := error' + d.x;
      cur' := cur'.(y := cur'.y + s.y);
    }
  }

  /** `pxPlotLine2`: plots exactly the pixels of `LinePoints(Strict, p, q)` that lie on the surface, and leaves every other pixel alone. */
  method PlotLine2(tex: Tex2D, p: IVec2, q: IVec2, color: Px)
    requires tex.Valid()
    modifies tex.fb
    ensures forall x, y | tex.Inside(x, y) ::
      tex.At(x, y) == if IVec2(x, y) in LinePoints(Strict, p, q) then color else old(tex.At(x, y))
  {
    var error := DX(p, q) - DY(p, q);
    var cur := p;
    ghost var drawn: seq<IVec2> := [];
    StartReachable(p, q);
    while !(cur.x == q.x && cur.y == q.y)
      invariant Reachable(p, q, Cursor(cur.x, cur.y, error))
      invariant drawn + Trace(Strict, p, q, Cursor(cur.x, cur.y, error)) == LinePoints(Strict, p, q)
      invariant forall x, y | tex.Inside(x, y) ::
        tex.At(x, y) == if IVec2(x, y) in drawn then color else old(tex.At(x, y))
      decreases Left(p, q, cur)
    {
      LoopStep(Strict, p, q, Cursor(cur.x, cur.y, error), drawn);
      drawn := drawn + [cur];
      cur, error := PlotLine2Step(tex, p, q, cur, error, color);
    }
    tex.Plot(cur.x, cur.y, color);
  }
}
