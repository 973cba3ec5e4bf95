/** The two fixed-step integrators of numerical_methods.py: explicit Euler and
    Heun's predictor-corrector method with an iterated corrector.

    Arithmetic is over exact reals; the compiled right-hand side f(x, y) is an
    evaluator that either yields a value or raises (its error message). */
module NumericalMethods {
  import opened Wrappers

  /** Tolerance of the stopping test `curr_x < x_end - 1e-9`. */
  const Eps: real := 0.000000001

  /** The compiled right-hand side f(x, y); `Err(message)` stands for the
      exception the evaluator raises on a domain failure. */
  type Evaluator = (real, real) -> Result<real, string>

  /** What an integrator can raise. */
  datatype Exception =
    | InvalidStep(h: real)              // h <= 0
    | InvalidInterval(x0: real, xEnd: real) // x_end <= x0
    | InvalidIterations(n: int)         // corrector_iterations < 1
    | Raised(message: string)           // an error raised by f (or, in run_simulation, by the exact solution), propagated unchanged

  type EulerPoint = (real, real)
  type HeunPoint = (real, real, real)

  /** The explicit Euler update y + h * slope; also Heun's predictor. */
  function EulerStep(y: real, h: real, slope: real): (y': real)
  {
    y + h * slope
  }

  /** The trapezoidal corrector y + (h/2) * (k1 + k2). */
  function Trapezoid(y: real, h: real, k1: real, k2: real): (y': real)
  {
    y + (h / 2.0) * (k1 + k2)
  }

  /** Number of steps the loop `while x < xEnd - Eps: x := x + h` still takes from x. */
  function Steps(x: real, h: real, xEnd: real): (k: nat)
    requires h > 0.0
  {
    if x < xEnd - Eps then
      DivNegative(x - (xEnd - Eps), h);
      -((x - (xEnd - Eps)) / h).Floor
    else 0
  }

  lemma DivNegative(a: real, h: real)
    requires a < 0.0 < h
    ensures a / h < 0.0
  {
  }

  lemma DivAddOne(a: real, h: real)
    requires h > 0.0
    ensures (a + h) / h == a / h + 1.0
    ensures a + h >= 0.0 ==> a / h >= -1.0
  {
    var q, p := a / h, (a + h) / h;
    assert q * h == a && p * h == a + h;
    MulZero(p - q - 1.0, h);
    if a + h >= 0.0 {
      assert (q + 1.0) * h >= 0.0;
    }
  }

  lemma MulZero(d: real, h: real)
    requires h > 0.0 && d * h == 0.0
    ensures d == 0.0
  {
  }

  /** Each step of the loop uses up exactly one of the remaining steps. */
  lemma StepsDecrease(x: real, h: real, xEnd: real)
    requires h > 0.0 && x < xEnd - Eps
    ensures Steps(x, h, xEnd) >= 1
    ensures Steps(x + h, h, xEnd) == Steps(x, h, xEnd) - 1
  {
    var a := x - (xEnd - Eps);
    DivNegative(a, h);
    DivAddOne(a, h);
    assert x + h - (xEnd - Eps) == a + h;
  }

  /** The x-values the integrators visit from x onwards. */
  function Grid(x: real, h: real, xEnd: real): (xs: seq<real>)
    requires h > 0.0
    decreases Steps(x, h, xEnd)
  {
    if x < xEnd - Eps then
      StepsDecrease(x, h, xEnd);
      [x] + Grid(x + h, h, xEnd)
    else [x]
  }

  /** `p` followed by the trajectory `r`, or the exception `r` carries. */
  function PrependOk<T>(p: seq<T>, r: Result<seq<T>, Exception>): (r': Result<seq<T>, Exception>)
  {
    if r.Ok? then Ok(p + r.value) else r
  }

  lemma PrependNothing<T>(r: Result<seq<T>, Exception>)
    ensures PrependOk([], r) == r
  {
    if r.Ok? {
      assert [] + r.value == r.value;
    }
  }

  lemma PrependTwice<T>(done: seq<T>, p: T, r: Result<seq<T>, Exception>)
    ensures PrependOk(done, PrependOk([p], r)) == PrependOk(done + [p], r)
  {
    if r.Ok? {
      assert done + ([p] + r.value) == (done + [p]) + r.value;
    }
  }

  /** The x-coordinate of a trajectory point, for either method. */
  function EulerX(p: EulerPoint): (x: real) { p.0 }
  function HeunX(p: HeunPoint): (x: real) { p.0 }

  /** The x-column of a trajectory, `[p[0] for p in points]`. */
  function Xs<P>(points: seq<P>, x: P -> real): (xs: seq<real>)
    ensures |xs| == |points| && forall i :: 0 <= i < |points| ==> xs[i] == x(points[i])
  {
    seq(|points|, i requires 0 <= i < |points| => x(points[i]))
  }

  // ---------------------------------------------------------------- Euler

  /** The Euler trajectory from (x, y) on, parameters already validated. */
  function EulerFrom(f: Evaluator, h: real, xEnd: real, x: real, y: real): (r: Result<seq<EulerPoint>, Exception>)
    requires h > 0.0
    ensures r.Ok? ==> |r.value| >= 1 && r.value[0] == (x, y)
    ensures r.Err? ==> r.error.Raised?
    decreases Steps(x, h, xEnd)
  {
    if x < xEnd - Eps then
      StepsDecrease(x, h, xEnd);
      var slope := f(x, y);
      if slope.Err? then Err(Raised(slope.error))
      else PrependOk([(x, y)], EulerFrom(f, h, xEnd, x + h, EulerStep(y, h, slope.value)))
    else Ok([(x, y)])
  }

  /** What `euler_method(f, x0, y0, h, x_end)` returns or raises. */
  function Euler(f: Evaluator, x0: real, y0: real, h: real, xEnd: real): (r: Result<seq<EulerPoint>, Exception>)
    ensures r == Err(InvalidStep(h)) <==> h <= 0.0
    ensures r == Err(InvalidInterval(x0, xEnd)) <==> 0.0 < h && xEnd <= x0
    ensures r.Err? && 0.0 < h && x0 < xEnd ==> r.error.Raised?
    ensures r.Ok? ==> |r.value| >= 1 && r.value[0] == (x0, y0)
  {
    if h <= 0.0 then Err(InvalidStep(h))
    else if xEnd <= x0 then Err(InvalidInterval(x0, xEnd))
    else EulerFrom(f, h, xEnd, x0, y0)
  }

  /** euler_method: validate, then step y by h * f(x, y) and x by h while
      x < x_end - 1e-9, appending every point to the trajectory. */
  method EulerMethod(f: Evaluator, x0: real, y0: real, h: real, xEnd: real)
    returns (r: Result<seq<EulerPoint>, Exception>)
    ensures r == Euler(f, x0, y0, h, xEnd)
  {
    if h <= 0.0 {
      return Err(InvalidStep(h));
    }
    if xEnd <= x0 {
      return Err(InvalidInterval(x0, xEnd));
    }
    var points := [(x0, y0)];
    var currX, currY := x0, y0;
    ghost var done: seq<EulerPoint> := [];
    PrependNothing(EulerFrom(f, h, xEnd, x0, y0));
    while currX < xEnd - Eps
      invariant points == done + [(currX, currY)]
      invariant PrependOk(done, EulerFrom(f, h, xEnd, currX, currY)) == EulerFrom(f, h, xEnd, x0, y0)
      decreases Steps(currX, h, xEnd)
    {
      StepsDecrease(currX, h, xEnd);
      var slope := f(currX, currY);
      if slope.Err? {
        return Err(Raised(slope.error));
      }
      PrependTwice(done, (currX, currY), EulerFrom(f, h, xEnd, currX + h, EulerStep(currY, h, slope.value)));
      done := points;
      currY := EulerStep(currY, h, slope.value);
      currX := currX + h;
      points := points + [(currX, currY)];
    }
    return Ok(points);
  }

  // ----------------------------------------------------------------- Heun

  /** The extra corrector passes of one iterated-Heun step: each pass sets
      y := yi + (h/2) * (k1 + f(xNext, y)), with k1 = f(x_i, yi) held fixed. */
  function Refine(f: Evaluator, h: real, xNext: real, yi: real, k1: real, y: real, passes: nat): (r: Result<real, Exception>)
    ensures r.Err? ==> r.error.Raised?
    decreases passes
  {
    if passes == 0 then Ok(y)
    else
      var k2 := f(xNext, y);
      if k2.Err? then Err(Raised(k2.error))
      else Refine(f, h, xNext, yi, k1, Trapezoid(yi, h, k1, k2.value), passes - 1)
  }

  /** One step of both Heun trajectories from x: the single-correction value
      from ys and the iterated value from yi, evaluating f for k1 and k2 of the single column, then
      k1 and k2 of the iterated column, then the extra corrector passes. */
  function HeunStep(f: Evaluator, h: real, x: real, ys: real, yi: real, n: int): (r: Result<(real, real), Exception>)
    ensures r.Err? ==> r.error.Raised?
  {
    var xNext := x + h;
    var k1s := f(x, ys);
    if k1s.Err? then Err(Raised(k1s.error)) else
    var k2s := f(xNext, EulerStep(ys, h, k1s.value));
    if k2s.Err? then Err(Raised(k2s.error)) else
    var ySingle := Trapezoid(ys, h, k1s.value, k2s.value);
    var k1i := f(x, yi);
    if k1i.Err? then Err(Raised(k1i.error)) else
    var k2i := f(xNext, EulerStep(yi, h, k1i.value));
    if k2i.Err? then Err(Raised(k2i.error)) else
    var yIterated := Refine(f, h, xNext, yi, k1i.value, Trapezoid(yi, h, k1i.value, k2i.value),
                            if n > 1 then n - 1 else 0);
    if yIterated.Err? then Err(yIterated.error) else Ok((ySingle, yIterated.value))
  }

  /** The Heun trajectory from (x, ys, yi) on, parameters already validated. */
  function HeunFrom(f: Evaluator, h: real, xEnd: real, n: int, x: real, ys: real, yi: real)
    : (r: Result<seq<HeunPoint>, Exception>)
    requires h > 0.0
    ensures r.Ok? ==> |r.value| >= 1 && r.value[0] == (x, ys, yi)
    ensures r.Err? ==> r.error.Raised?
    decreases Steps(x, h, xEnd)
  {
    if x < xEnd - Eps then
      StepsDecrease(x, h, xEnd);
      var next := HeunStep(f, h, x, ys, yi, n);
      if next.Err? then Err(next.error)
      else PrependOk([(x, ys, yi)], HeunFrom(f, h, xEnd, n, x + h, next.value.0, next.value.1))
    else Ok([(x, ys, yi)])
  }

  /** What `improved_euler_method(f, x0, y0, h, x_end, n)` returns or raises. */
  function Heun(f: Evaluator, x0: real, y0: real, h: real, xEnd: real, n: int): (r: Result<seq<HeunPoint>, Exception>)
    ensures r == Err(InvalidStep(h)) <==> h <= 0.0
    ensures r == Err(InvalidInterval(x0, xEnd)) <==> 0.0 < h && xEnd <= x0
    ensures r == Err(InvalidIterations(n)) <==> 0.0 < h && x0 < xEnd && n < 1
    ensures r.Err? && 0.0 < h && x0 < xEnd && 1 <= n ==> r.error.Raised?
    ensures r.Ok? ==> |r.value| >= 1 && r.value[0] == (x0, y0, y0)
  {
    if h <= 0.0 then Err(InvalidStep(h))
    else if xEnd <= x0 then Err(InvalidInterval(x0, xEnd))
    else if n < 1 then Err(InvalidIterations(n))
    else HeunFrom(f, h, xEnd, n, x0, y0, y0)
  }

  /** improved_euler_method: validate, then advance the single-correction and
      the iterated trajectories in lockstep while x < x_end - 1e-9. */
  method ImprovedEulerMethod(f: Evaluator, x0: real, y0: real, h: real, xEnd: real, correctorIterations: int)
    returns (r: Result<seq<HeunPoint>, Exception>)
    ensures r == Heun(f, x0, y0, h, xEnd, correctorIterations)
  {
    if h <= 0.0 {
      return Err(InvalidStep(h));
    }
    if xEnd <= x0 {
      return Err(InvalidInterval(x0, xEnd));
    }
    if correctorIterations < 1 {
      return Err(InvalidIterations(correctorIterations));
    }
    var points := [(x0, y0, y0)];
    var currX, currYSingle, currYIter := x0, y0, y0;
    ghost var done: seq<HeunPoint> := [];
    PrependNothing(HeunFrom(f, h, xEnd, correctorIterations, x0, y0, y0));
    while currX < xEnd - Eps
      invariant points == done + [(currX, currYSingle, currYIter)]
      invariant PrependOk(done, HeunFrom(f, h, xEnd, correctorIterations, currX, currYSingle, currYIter))
             == HeunFrom(f, h, xEnd, correctorIterations, x0, y0, y0)
      decreases Steps(currX, h, xEnd)
    {
      StepsDecrease(currX, h, xEnd);
      // single-correction trajectory
      var k1Single := f(currX, currYSingle);
      if k1Single.Err? {
        return Err(Raised(k1Single.error));
      }
      var xNext := currX + h;
      var k2Single := f(xNext, EulerStep(currYSingle, h, k1Single.value));
      if k2Single.Err? {
        return Err(Raised(k2Single.error));
      }
      var ySingleCorrection := Trapezoid(currYSingle, h, k1Single.value, k2Single.value);
      // iterated trajectory: first correction, then the extra passes
      var k1Iter := f(currX, currYIter);
      if k1Iter.Err? {
        return Err(Raised(k1Iter.error));
      }
      var k2Iter := f(xNext, EulerStep(currYIter, h, k1Iter.value));
      if k2Iter.Err? {
        return Err(Raised(k2Iter.error));
      }
      var yIterated := Trapezoid(currYIter, h, k1Iter.value, k2Iter.value);
      ghost var firstCorrection := yIterated;
      ghost var passes: nat := if correctorIterations > 1 then correctorIterations - 1 else 0;
      if correctorIterations > 1 {
        for i := 0 to correctorIterations - 1
          invariant Refine(f, h, xNext, currYIter, k1Iter.value, yIterated, correctorIterations - 1 - i)
                 == Refine(f, h, xNext, currYIter, k1Iter.value, firstCorrection, passes)
        {
          var k2IterNew := f(xNext, yIterated);
          if k2IterNew.Err? {
            return Err(Raised(k2IterNew.error));
          }
          yIterated := Trapezoid(currYIter, h, k1Iter.value, k2IterNew.value);
        }
      }
      assert HeunStep(f, h, currX, currYSingle, currYIter, correctorIterations) == Ok((ySingleCorrection, yIterated));
      PrependTwice(done, (currX, currYSingle, currYIter),
                   HeunFrom(f, h, xEnd, correctorIterations, xNext, ySingleCorrection, yIterated));
      done := points;
      currX := xNext;
      currYSingle := ySingleCorrection;
      currYIter := yIterated;
      points := points + [(currX, ySingleCorrection, yIterated)];
    }
    return Ok(points);
  }
}
