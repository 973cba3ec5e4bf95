/** What the two integrators promise about the trajectories they return:
    the seed point, the x-grid and its stopping rule, the step recurrences,
    and how the single and iterated Heun columns relate. */
module TrajectoryProperties {
  import opened Wrappers
  import opened NumericalMethods

  /** q follows p by one Euler step. */
  ghost predicate EulerLink(f: Evaluator, h: real, p: EulerPoint, q: EulerPoint)
  {
    && q.0 == p.0 + h
    && f(p.0, p.1).Ok?
    && q.1 == EulerStep(p.1, h, f(p.0, p.1).value)
  }

  /** The single-correction column of q follows that of p by one Heun step:
      predictor with k1 = f(x, y), then one trapezoidal correction. */
  ghost predicate HeunSingleLink(f: Evaluator, h: real, p: HeunPoint, q: HeunPoint)
  {
    var x, y := p.0, p.1;
    && q.0 == x + h
    && f(x, y).Ok?
    && f(x + h, EulerStep(y, h, f(x, y).value)).Ok?
    && q.1 == Trapezoid(y, h, f(x, y).value, f(x + h, EulerStep(y, h, f(x, y).value)).value)
  }

  /** The iterated column of q follows that of p: the first correction, then
      n - 1 further passes of the corrector with k1 = f(x, y) held fixed. */
  ghost predicate HeunIteratedLink(f: Evaluator, h: real, n: int, p: HeunPoint, q: HeunPoint)
  {
    var x, y := p.0, p.2;
    && f(x, y).Ok?
    && f(x + h, EulerStep(y, h, f(x, y).value)).Ok?
    && Refine(f, h, x + h, y, f(x, y).value,
              Trapezoid(y, h, f(x, y).value, f(x + h, EulerStep(y, h, f(x, y).value)).value),
              if n > 1 then n - 1 else 0) == Ok(q.2)
  }

  // ----------------------------------------------------------------- grid

  /** The grid from x has one point per remaining step plus the seed. */
  lemma {:induction false} GridLength(x: real, h: real, xEnd: real)
    requires h > 0.0
    ensures |Grid(x, h, xEnd)| == Steps(x, h, xEnd) + 1
    decreases Steps(x, h, xEnd)
  {
    if x < xEnd - Eps {
      StepsDecrease(x, h, xEnd);
      GridLength(x + h, h, xEnd);
    }
  }

  /** The grid from x is x, x + h, x + 2h, ... */
  lemma {:induction false} GridPoints(x: real, h: real, xEnd: real)
    requires h > 0.0
    ensures forall i :: 0 <= i < |Grid(x, h, xEnd)| ==> Grid(x, h, xEnd)[i] == x + (i as real) * h
    decreases Steps(x, h, xEnd)
  {
    if x < xEnd - Eps {
      StepsDecrease(x, h, xEnd);
      GridPoints(x + h, h, xEnd);
      var g, rest := Grid(x, h, xEnd), Grid(x + h, h, xEnd);
      assert g == [x] + rest;
      forall i | 0 <= i < |g| ensures g[i] == x + (i as real) * h {
        if i == 0 {
          assert (i as real) * h == 0.0;
        } else {
          assert 0 <= i - 1 < |rest|;
          assert g[i] == rest[i - 1] == (x + h) + ((i - 1) as real) * h;
          GridPointShift(x, h, i);
        }
      }
    }
  }

  /** Stopping rule: every grid point but the last is below xEnd - Eps, the
      last is not, and a last point reached by a step is less than one step
      past xEnd - Eps. */
  lemma {:induction false} GridStops(x: real, h: real, xEnd: real)
    requires h > 0.0
    ensures var g := Grid(x, h, xEnd);
      && (forall i :: 0 <= i < |g| - 1 ==> g[i] < xEnd - Eps)
      && g[|g| - 1] >= xEnd - Eps
      && (|g| > 1 ==> g[|g| - 1] < xEnd - Eps + h)
    decreases Steps(x, h, xEnd)
  {
    if x < xEnd - Eps {
      StepsDecrease(x, h, xEnd);
      GridStops(x + h, h, xEnd);
      var g, rest := Grid(x, h, xEnd), Grid(x + h, h, xEnd);
      assert g == [x] + rest;
      forall i | 0 <= i < |g| - 1 ensures g[i] < xEnd - Eps {
        if i > 0 {
          assert g[i] == rest[i - 1];
        }
      }
      if |rest| == 1 {
        assert g[|g| - 1] == x + h;
      }
    }
  }

  lemma GridPointShift(x: real, h: real, i: nat)
    requires i >= 1
    ensures (x + h) + ((i - 1) as real) * h == x + (i as real) * h
  {
  }

  lemma GridGap(h: real, i: nat, j: nat)
    requires h > 0.0 && i < j
    ensures (i as real) * h < (j as real) * h
  {
  }

  /** The x-values of a grid strictly increase. */
  lemma GridIncreasing(x: real, h: real, xEnd: real)
    requires h > 0.0
    ensures var g := Grid(x, h, xEnd);
      forall i, j :: 0 <= i < j < |g| ==> g[i] < g[j]
  {
    GridPoints(x, h, xEnd);
    var g := Grid(x, h, xEnd);
    forall i: nat, j: nat | i < j < |g| ensures g[i] < g[j] {
      GridGap(h, i, j);
    }
  }

  // ---------------------------------------------------------------- Euler

  lemma {:induction false} EulerFromShape(f: Evaluator, h: real, xEnd: real, x: real, y: real)
    requires h > 0.0 && EulerFrom(f, h, xEnd, x, y).Ok?
    ensures var pts := EulerFrom(f, h, xEnd, x, y).value;
      && Xs(pts, EulerX) == Grid(x, h, xEnd)
      && forall i :: 0 <= i < |pts| - 1 ==> EulerLink(f, h, pts[i], pts[i + 1])
    decreases Steps(x, h, xEnd)
  {
    if x < xEnd - Eps {
      StepsDecrease(x, h, xEnd);
      var slope := f(x, y).value;
      var y' := EulerStep(y, h, slope);
      EulerFromShape(f, h, xEnd, x + h, y');
      var pts, rest := EulerFrom(f, h, xEnd, x, y).value, EulerFrom(f, h, xEnd, x + h, y').value;
      assert pts == [(x, y)] + rest;
      assert Xs(pts, EulerX) == [x] + Xs(rest, EulerX);
      forall i | 0 <= i < |pts| - 1 ensures EulerLink(f, h, pts[i], pts[i + 1]) {
        if i > 0 {
          assert pts[i] == rest[i - 1] && pts[i + 1] == rest[i];
        }
      }
    }
  }

  /** An Euler trajectory starts at the seed (x0, y0), visits x0 + i*h for
      i = 0 .. Steps, stops at the first x >= xEnd - Eps, and each point
      follows the previous one by y + h * f(x, y). */
  lemma EulerTrajectory(f: Evaluator, x0: real, y0: real, h: real, xEnd: real)
    requires Euler(f, x0, y0, h, xEnd).Ok?
    ensures 0.0 < h && x0 < xEnd
    ensures var pts := Euler(f, x0, y0, h, xEnd).value;
      && pts[0] == (x0, y0)
      && Xs(pts, EulerX) == Grid(x0, h, xEnd)
      && |pts| == Steps(x0, h, xEnd) + 1
      && (forall i :: 0 <= i < |pts| ==> pts[i].0 == x0 + (i as real) * h)
      && (forall i :: 0 <= i < |pts| - 1 ==> pts[i].0 < xEnd - Eps)
      && pts[|pts| - 1].0 >= xEnd - Eps
      && (|pts| > 1 ==> pts[|pts| - 1].0 < xEnd - Eps + h)
      && (forall i :: 0 <= i < |pts| - 1 ==> EulerLink(f, h, pts[i], pts[i + 1]))
  {
    EulerFromShape(f, h, xEnd, x0, y0);
    GridLength(x0, h, xEnd);
    GridPoints(x0, h, xEnd);
    GridStops(x0, h, xEnd);
    var pts := Euler(f, x0, y0, h, xEnd).value;
    assert forall i :: 0 <= i < |pts| ==> pts[i].0 == Xs(pts, EulerX)[i];
  }

  lemma {:induction false} EulerFromTotal(f: Evaluator, h: real, xEnd: real, x: real, y: real)
    requires h > 0.0
    requires forall a, b :: f(a, b).Ok?
    ensures EulerFrom(f, h, xEnd, x, y).Ok?
    decreases Steps(x, h, xEnd)
  {
    if x < xEnd - Eps {
      StepsDecrease(x, h, xEnd);
      EulerFromTotal(f, h, xEnd, x + h, EulerStep(y, h, f(x, y).value));
    }
  }

  /** With valid parameters and an evaluator that never raises, euler_method
      returns a trajectory. */
  lemma EulerTotal(f: Evaluator, x0: real, y0: real, h: real, xEnd: real)
    requires forall a, b :: f(a, b).Ok?
    ensures Euler(f, x0, y0, h, xEnd).Ok? <==> 0.0 < h && x0 < xEnd
  {
    if 0.0 < h && x0 < xEnd {
      EulerFromTotal(f, h, xEnd, x0, y0);
    }
  }

  // ----------------------------------------------------------------- Heun

  lemma {:induction false} HeunFromShape(f: Evaluator, h: real, xEnd: real, n: int, x: real, ys: real, yi: real)
    requires h > 0.0 && HeunFrom(f, h, xEnd, n, x, ys, yi).Ok?
    ensures var pts := HeunFrom(f, h, xEnd, n, x, ys, yi).value;
      && Xs(pts, HeunX) == Grid(x, h, xEnd)
      && (forall i :: 0 <= i < |pts| - 1 ==> HeunSingleLink(f, h, pts[i], pts[i + 1]))
      && (forall i :: 0 <= i < |pts| - 1 ==> HeunIteratedLink(f, h, n, pts[i], pts[i + 1]))
    decreases Steps(x, h, xEnd)
  {
    if x < xEnd - Eps {
      StepsDecrease(x, h, xEnd);
      var next := HeunStep(f, h, x, ys, yi, n).value;
      HeunFromShape(f, h, xEnd, n, x + h, next.0, next.1);
      var pts, rest := HeunFrom(f, h, xEnd, n, x, ys, yi).value, HeunFrom(f, h, xEnd, n, x + h, next.0, next.1).value;
      assert pts == [(x, ys, yi)] + rest;
      assert Xs(pts, HeunX) == [x] + Xs(rest, HeunX);
      forall i | 0 <= i < |pts| - 1
        ensures HeunSingleLink(f, h, pts[i], pts[i + 1]) && HeunIteratedLink(f, h, n, pts[i], pts[i + 1])
      {
        if i > 0 {
          assert pts[i] == rest[i - 1] && pts[i + 1] == rest[i];
        }
      }
    }
  }

  /** A Heun trajectory starts at (x0, y0, y0), lies on the same x-grid as
      Euler, and each point follows the previous one by a single-correction
      step in its first column and an iterated-correction step in its second. */
  lemma HeunTrajectory(f: Evaluator, x0: real, y0: real, h: real, xEnd: real, n: int)
    requires Heun(f, x0, y0, h, xEnd, n).Ok?
    ensures 0.0 < h && x0 < xEnd && 1 <= n
    ensures var pts := Heun(f, x0, y0, h, xEnd, n).value;
      && pts[0] == (x0, y0, y0)
      && Xs(pts, HeunX) == Grid(x0, h, xEnd)
      && |pts| == Steps(x0, h, xEnd) + 1
      && (forall i :: 0 <= i < |pts| ==> pts[i].0 == x0 + (i as real) * h)
      && (forall i :: 0 <= i < |pts| - 1 ==> pts[i].0 < xEnd - Eps)
      && pts[|pts| - 1].0 >= xEnd - Eps
      && (|pts| > 1 ==> pts[|pts| - 1].0 < xEnd - Eps + h)
      && (forall i :: 0 <= i < |pts| - 1 ==> HeunSingleLink(f, h, pts[i], pts[i + 1]))
      && (forall i :: 0 <= i < |pts| - 1 ==> HeunIteratedLink(f, h, n, pts[i], pts[i + 1]))
  {
    HeunFromShape(f, h, xEnd, n, x0, y0, y0);
    GridLength(x0, h, xEnd);
    GridPoints(x0, h, xEnd);
    GridStops(x0, h, xEnd);
    var pts := Heun(f, x0, y0, h, xEnd, n).value;
    assert forall i :: 0 <= i < |pts| ==> pts[i].0 == Xs(pts, HeunX)[i];
  }

  /** Euler and Heun, run on the same (x0, h, xEnd), visit the same x-values,
      whatever their evaluators and corrector count. */
  lemma EulerHeunSameGrid(f: Evaluator, g: Evaluator, x0: real, y0: real, h: real, xEnd: real, n: int)
    requires Euler(f, x0, y0, h, xEnd).Ok? && Heun(g, x0, y0, h, xEnd, n).Ok?
    ensures Xs(Euler(f, x0, y0, h, xEnd).value, EulerX) == Xs(Heun(g, x0, y0, h, xEnd, n).value, HeunX)
  {
    EulerFromShape(f, h, xEnd, x0, y0);
    HeunFromShape(g, h, xEnd, n, x0, y0, y0);
  }

  lemma {:induction false} RefineTotal(f: Evaluator, h: real, xNext: real, yi: real, k1: real, y: real, passes: nat)
    requires forall a, b :: f(a, b).Ok?
    ensures Refine(f, h, xNext, yi, k1, y, passes).Ok?
    decreases passes
  {
    if passes > 0 {
      RefineTotal(f, h, xNext, yi, k1, Trapezoid(yi, h, k1, f(xNext, y).value), passes - 1);
    }
  }

  lemma {:induction false} HeunFromTotal(f: Evaluator, h: real, xEnd: real, n: int, x: real, ys: real, yi: real)
    requires h > 0.0
    requires forall a, b :: f(a, b).Ok?
    ensures HeunFrom(f, h, xEnd, n, x, ys, yi).Ok?
    decreases Steps(x, h, xEnd)
  {
    if x < xEnd - Eps {
      StepsDecrease(x, h, xEnd);
      var k1 := f(x, yi).value;
      RefineTotal(f, h, x + h, yi, k1, Trapezoid(yi, h, k1, f(x + h, EulerStep(yi, h, k1)).value),
                  if n > 1 then n - 1 else 0);
      var next := HeunStep(f, h, x, ys, yi, n);
      assert next.Ok?;
      HeunFromTotal(f, h, xEnd, n, x + h, next.value.0, next.value.1);
    }
  }

  /** With valid parameters and an evaluator that never raises,
      improved_euler_method returns a trajectory. */
  lemma HeunTotal(f: Evaluator, x0: real, y0: real, h: real, xEnd: real, n: int)
    requires forall a, b :: f(a, b).Ok?
    ensures Heun(f, x0, y0, h, xEnd, n).Ok? <==> 0.0 < h && x0 < xEnd && 1 <= n
  {
    if 0.0 < h && x0 < xEnd && 1 <= n {
      HeunFromTotal(f, h, xEnd, n, x0, y0, y0);
    }
  }

  /** The last of several corrector passes applies the corrector, with the
      same k1, to the value the earlier passes produced. */
  lemma {:induction false} RefineLastPass(f: Evaluator, h: real, xNext: real, yi: real, k1: real, y: real, passes: nat)
    requires passes >= 1 && Refine(f, h, xNext, yi, k1, y, passes).Ok?
    ensures var before := Refine(f, h, xNext, yi, k1, y, passes - 1);
      && before.Ok?
      && f(xNext, before.value).Ok?
      && Refine(f, h, xNext, yi, k1, y, passes).value
         == yi + (h / 2.0) * (k1 + f(xNext, before.value).value)
    decreases passes
  {
    if passes > 1 {
      RefineLastPass(f, h, xNext, yi, k1, Trapezoid(yi, h, k1, f(xNext, y).value), passes - 1);
    }
  }

  /** A fixed point of the trapezoidal corrector is left unchanged by any
      number of further passes. */
  lemma {:induction false} RefineFixedPoint(f: Evaluator, h: real, xNext: real, yi: real, k1: real, y: real, passes: nat)
    requires f(xNext, y).Ok? && y == yi + (h / 2.0) * (k1 + f(xNext, y).value)
    ensures Refine(f, h, xNext, yi, k1, y, passes) == Ok(y)
    decreases passes
  {
    if passes > 0 {
      assert Trapezoid(yi, h, k1, f(xNext, y).value) == y;
      RefineFixedPoint(f, h, xNext, yi, k1, y, passes - 1);
    }
  }

  lemma {:induction false} HeunFromOnePass(f: Evaluator, h: real, xEnd: real, x: real, y: real)
    requires h > 0.0 && HeunFrom(f, h, xEnd, 1, x, y, y).Ok?
    ensures var pts := HeunFrom(f, h, xEnd, 1, x, y, y).value;
      forall i :: 0 <= i < |pts| ==> pts[i].1 == pts[i].2
    decreases Steps(x, h, xEnd)
  {
    if x < xEnd - Eps {
      StepsDecrease(x, h, xEnd);
      var next := HeunStep(f, h, x, y, y, 1).value;
      assert next.0 == next.1;
      HeunFromOnePass(f, h, xEnd, x + h, next.0);
      var pts, rest := HeunFrom(f, h, xEnd, 1, x, y, y).value, HeunFrom(f, h, xEnd, 1, x + h, next.0, next.0).value;
      assert pts == [(x, y, y)] + rest;
      forall i | 0 <= i < |pts| ensures pts[i].1 == pts[i].2 {
        if i > 0 {
          assert pts[i] == rest[i - 1];
        }
      }
    }
  }

  /** With one corrector pass the iterated column coincides with the
      single-correction column at every point. */
  lemma HeunSingleEqualsIterated(f: Evaluator, x0: real, y0: real, h: real, xEnd: real)
    requires Heun(f, x0, y0, h, xEnd, 1).Ok?
    ensures var pts := Heun(f, x0, y0, h, xEnd, 1).value;
      forall i :: 0 <= i < |pts| ==> pts[i].1 == pts[i].2
  {
    HeunFromOnePass(f, h, xEnd, x0, y0);
  }

  lemma {:induction false} HeunFromSingleColumn(f: Evaluator, h: real, xEnd: real, n: int, m: int,
                                                 x: real, ys: real, yi: real, yj: real)
    requires h > 0.0 && HeunFrom(f, h, xEnd, n, x, ys, yi).Ok? && HeunFrom(f, h, xEnd, m, x, ys, yj).Ok?
    ensures var p, q := HeunFrom(f, h, xEnd, n, x, ys, yi).value, HeunFrom(f, h, xEnd, m, x, ys, yj).value;
      |p| == |q| && forall i :: 0 <= i < |p| ==> p[i].1 == q[i].1
    decreases Steps(x, h, xEnd)
  {
    if x < xEnd - Eps {
      StepsDecrease(x, h, xEnd);
      var a, b := HeunStep(f, h, x, ys, yi, n).value, HeunStep(f, h, x, ys, yj, m).value;
      assert a.0 == b.0;
      HeunFromSingleColumn(f, h, xEnd, n, m, x + h, a.0, a.1, b.1);
      var p, q := HeunFrom(f, h, xEnd, n, x, ys, yi).value, HeunFrom(f, h, xEnd, m, x, ys, yj).value;
      var p', q' := HeunFrom(f, h, xEnd, n, x + h, a.0, a.1).value, HeunFrom(f, h, xEnd, m, x + h, b.0, b.1).value;
      assert p == [(x, ys, yi)] + p' && q == [(x, ys, yj)] + q';
      forall i | 0 <= i < |p| ensures p[i].1 == q[i].1 {
        if i > 0 {
          assert p[i] == p'[i - 1] && q[i] == q'[i - 1];
        }
      }
    }
  }

  /** The single-correction column does not depend on the corrector count:
      the two trajectories are advanced independently. */
  lemma HeunSingleIndependentOfIterations(f: Evaluator, x0: real, y0: real, h: real, xEnd: real, n: int, m: int)
    requires Heun(f, x0, y0, h, xEnd, n).Ok? && Heun(f, x0, y0, h, xEnd, m).Ok?
    ensures var p, q := Heun(f, x0, y0, h, xEnd, n).value, Heun(f, x0, y0, h, xEnd, m).value;
      |p| == |q| && forall i :: 0 <= i < |p| ==> p[i].1 == q[i].1
  {
    HeunFromSingleColumn(f, h, xEnd, n, m, x0, y0, y0, y0);
  }
}
