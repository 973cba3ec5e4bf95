/** When the integrators fail after validation: exactly when the evaluator
    raises at a point the loop actually reaches, and with that evaluator's
    message. Within a Heun step the first failing evaluation decides, in the
    order k1 and k2 of the single column, then of the iterated column, then
    the extra corrector passes. */
module FailureProperties {
  import opened Wrappers
  import opened NumericalMethods
  import opened TrajectoryProperties

  /** pts is the Euler recurrence from (x, y) up to a point where the loop
      still steps (x < xEnd - Eps) and where f raises with message m. */
  ghost predicate EulerFailurePath(f: Evaluator, h: real, xEnd: real, x: real, y: real,
                                   pts: seq<EulerPoint>, m: string)
  {
    && |pts| >= 1
    && pts[0] == (x, y)
    && (forall i :: 0 <= i < |pts| ==> pts[i].0 < xEnd - Eps)
    && (forall i :: 0 <= i < |pts| - 1 ==> EulerLink(f, h, pts[i], pts[i + 1]))
    && f(pts[|pts| - 1].0, pts[|pts| - 1].1) == Err(m)
  }

  lemma {:induction false} EulerFromFails(f: Evaluator, h: real, xEnd: real, x: real, y: real, m: string)
    requires h > 0.0
    ensures EulerFrom(f, h, xEnd, x, y) == Err(Raised(m))
        <==> exists pts :: EulerFailurePath(f, h, xEnd, x, y, pts, m)
    decreases Steps(x, h, xEnd)
  {
    if x < xEnd - Eps {
      StepsDecrease(x, h, xEnd);
      var slope := f(x, y);
      if slope.Err? {
        if slope.error == m {
          assert EulerFailurePath(f, h, xEnd, x, y, [(x, y)], m);
        }
        forall pts | EulerFailurePath(f, h, xEnd, x, y, pts, m)
          ensures slope.error == m
        {
          assert |pts| > 1 ==> EulerLink(f, h, pts[0], pts[1]);
        }
      } else {
        var y' := EulerStep(y, h, slope.value);
        EulerFromFails(f, h, xEnd, x + h, y', m);
        if EulerFrom(f, h, xEnd, x + h, y') == Err(Raised(m)) {
          var rest :| EulerFailurePath(f, h, xEnd, x + h, y', rest, m);
          var pts := [(x, y)] + rest;
          forall i | 0 <= i < |pts| - 1 ensures EulerLink(f, h, pts[i], pts[i + 1]) {
            if i > 0 {
              assert pts[i] == rest[i - 1] && pts[i + 1] == rest[i];
            }
          }
          forall i | 0 <= i < |pts| ensures pts[i].0 < xEnd - Eps {
            if i > 0 {
              assert pts[i] == rest[i - 1];
            }
          }
          assert EulerFailurePath(f, h, xEnd, x, y, pts, m);
        }
        forall pts | EulerFailurePath(f, h, xEnd, x, y, pts, m)
          ensures EulerFrom(f, h, xEnd, x + h, y') == Err(Raised(m))
        {
          assert |pts| > 1;
          assert EulerLink(f, h, pts[0], pts[1]);
          var rest := pts[1..];
          forall i | 0 <= i < |rest| - 1 ensures EulerLink(f, h, rest[i], rest[i + 1]) {
            assert rest[i] == pts[i + 1] && rest[i + 1] == pts[i + 2];
          }
          assert EulerFailurePath(f, h, xEnd, x + h, y', rest, m);
        }
      }
    }
  }

  /** With valid parameters, euler_method raises the evaluator's exception
      with message m exactly when, following the Euler recurrence from
      (x0, y0) through points where the loop still steps, f raises m at the
      first point where it raises at all. */
  lemma EulerFails(f: Evaluator, x0: real, y0: real, h: real, xEnd: real, m: string)
    requires 0.0 < h && x0 < xEnd
    ensures Euler(f, x0, y0, h, xEnd) == Err(Raised(m))
        <==> exists pts :: EulerFailurePath(f, h, xEnd, x0, y0, pts, m)
  {
    EulerFromFails(f, h, xEnd, x0, y0, m);
  }

  // ----------------------------------------------------------------- Heun

  /** The value the first j corrector passes produce has been computed
      without an evaluator error, and the next pass's evaluation raises m. */
  ghost predicate RefineFailsAtPass(f: Evaluator, h: real, xNext: real, yi: real, k1: real, y: real,
                                    j: nat, m: string)
  {
    && Refine(f, h, xNext, yi, k1, y, j).Ok?
    && f(xNext, Refine(f, h, xNext, yi, k1, y, j).value) == Err(m)
  }

  /** The extra corrector passes raise m exactly when some pass j evaluates
      f at the value the first j passes produced and f raises m there. */
  lemma {:induction false} RefineFails(f: Evaluator, h: real, xNext: real, yi: real, k1: real, y: real,
                                       passes: nat, m: string)
    ensures Refine(f, h, xNext, yi, k1, y, passes) == Err(Raised(m))
        ==> exists j :: 0 <= j < passes && RefineFailsAtPass(f, h, xNext, yi, k1, y, j, m)
    ensures (exists j :: 0 <= j < passes && RefineFailsAtPass(f, h, xNext, yi, k1, y, j, m))
        ==> Refine(f, h, xNext, yi, k1, y, passes) == Err(Raised(m))
    decreases passes
  {
    if passes > 0 {
      var k2 := f(xNext, y);
      assert Refine(f, h, xNext, yi, k1, y, 0) == Ok(y);
      if k2.Ok? {
        var y' := Trapezoid(yi, h, k1, k2.value);
        RefineFails(f, h, xNext, yi, k1, y', passes - 1, m);
        if Refine(f, h, xNext, yi, k1, y', passes - 1) == Err(Raised(m)) {
          var j :| 0 <= j < passes - 1 && RefineFailsAtPass(f, h, xNext, yi, k1, y', j, m);
          assert Refine(f, h, xNext, yi, k1, y, j + 1) == Refine(f, h, xNext, yi, k1, y', j);
          assert RefineFailsAtPass(f, h, xNext, yi, k1, y, j + 1, m);
        }
        forall j | 0 <= j < passes && RefineFailsAtPass(f, h, xNext, yi, k1, y, j, m)
          ensures Refine(f, h, xNext, yi, k1, y', passes - 1) == Err(Raised(m))
        {
          assert j > 0;
          assert Refine(f, h, xNext, yi, k1, y, j) == Refine(f, h, xNext, yi, k1, y', j - 1);
          assert RefineFailsAtPass(f, h, xNext, yi, k1, y', j - 1, m);
        }
      } else {
        if k2 == Err(m) {
          assert RefineFailsAtPass(f, h, xNext, yi, k1, y, 0, m);
        }
        forall j | 0 <= j < passes && RefineFailsAtPass(f, h, xNext, yi, k1, y, j, m)
          ensures j == 0
        {
        }
      }
    }
  }

  /** One Heun step raises m exactly when the first evaluation that raises,
      in the order k1 and k2 of the single column, k1 and k2 of the iterated
      column, then the extra corrector passes (see RefineFails), raises m. */
  lemma HeunStepFails(f: Evaluator, h: real, x: real, ys: real, yi: real, n: int, m: string)
    ensures HeunStep(f, h, x, ys, yi, n) == Err(Raised(m)) <==>
      var k1s := f(x, ys);
      var k2s := if k1s.Ok? then f(x + h, EulerStep(ys, h, k1s.value)) else k1s;
      var k1i := f(x, yi);
      var k2i := if k1i.Ok? then f(x + h, EulerStep(yi, h, k1i.value)) else k1i;
      || k1s == Err(m)
      || (k1s.Ok? && k2s == Err(m))
      || (k1s.Ok? && k2s.Ok? && k1i == Err(m))
      || (k1s.Ok? && k2s.Ok? && k1i.Ok? && k2i == Err(m))
      || (k1s.Ok? && k2s.Ok? && k1i.Ok? && k2i.Ok?
          && Refine(f, h, x + h, yi, k1i.value, Trapezoid(yi, h, k1i.value, k2i.value),
                    if n > 1 then n - 1 else 0) == Err(Raised(m)))
  {
  }

  /** Two consecutive Heun points are linked exactly when the second is what
      one Heun step from the first returns. */
  lemma HeunLinkIsStep(f: Evaluator, h: real, n: int, p: HeunPoint, q: HeunPoint)
    ensures HeunSingleLink(f, h, p, q) && HeunIteratedLink(f, h, n, p, q)
        <==> q.0 == p.0 + h && HeunStep(f, h, p.0, p.1, p.2, n) == Ok((q.1, q.2))
  {
  }

  /** pts follows both Heun recurrences from (x, ys, yi) up to a point where
      the loop still steps and where the Heun step raises m. */
  ghost predicate HeunFailurePath(f: Evaluator, h: real, xEnd: real, n: int, x: real, ys: real, yi: real,
                                  pts: seq<HeunPoint>, m: string)
  {
    && |pts| >= 1
    && pts[0] == (x, ys, yi)
    && (forall i :: 0 <= i < |pts| ==> pts[i].0 < xEnd - Eps)
    && (forall i :: 0 <= i < |pts| - 1 ==>
          HeunSingleLink(f, h, pts[i], pts[i + 1]) && HeunIteratedLink(f, h, n, pts[i], pts[i + 1]))
    && HeunStep(f, h, pts[|pts| - 1].0, pts[|pts| - 1].1, pts[|pts| - 1].2, n) == Err(Raised(m))
  }

  lemma {:induction false} HeunFromFails(f: Evaluator, h: real, xEnd: real, n: int, x: real, ys: real, yi: real,
                                         m: string)
    requires h > 0.0
    ensures HeunFrom(f, h, xEnd, n, x, ys, yi) == Err(Raised(m))
        <==> exists pts :: HeunFailurePath(f, h, xEnd, n, x, ys, yi, pts, m)
    decreases Steps(x, h, xEnd)
  {
    if x < xEnd - Eps {
      StepsDecrease(x, h, xEnd);
      var next := HeunStep(f, h, x, ys, yi, n);
      if next.Err? {
        if next.error == Raised(m) {
          assert HeunFailurePath(f, h, xEnd, n, x, ys, yi, [(x, ys, yi)], m);
        }
        forall pts | HeunFailurePath(f, h, xEnd, n, x, ys, yi, pts, m)
          ensures next.error == Raised(m)
        {
          if |pts| > 1 {
            HeunLinkIsStep(f, h, n, pts[0], pts[1]);
          }
        }
      } else {
        var a, b := next.value.0, next.value.1;
        HeunLinkIsStep(f, h, n, (x, ys, yi), (x + h, a, b));
        HeunFromFails(f, h, xEnd, n, x + h, a, b, m);
        if HeunFrom(f, h, xEnd, n, x + h, a, b) == Err(Raised(m)) {
          var rest :| HeunFailurePath(f, h, xEnd, n, x + h, a, b, rest, m);
          var pts := [(x, ys, yi)] + rest;
          forall i | 0 <= i < |pts| - 1
            ensures HeunSingleLink(f, h, pts[i], pts[i + 1]) && HeunIteratedLink(f, h, n, pts[i], pts[i + 1])
          {
            if i > 0 {
              assert pts[i] == rest[i - 1] && pts[i + 1] == rest[i];
            }
          }
          forall i | 0 <= i < |pts| ensures pts[i].0 < xEnd - Eps {
            if i > 0 {
              assert pts[i] == rest[i - 1];
            }
          }
          assert HeunFailurePath(f, h, xEnd, n, x, ys, yi, pts, m);
        }
        forall pts | HeunFailurePath(f, h, xEnd, n, x, ys, yi, pts, m)
          ensures HeunFrom(f, h, xEnd, n, x + h, a, b) == Err(Raised(m))
        {
          assert |pts| > 1;
          HeunLinkIsStep(f, h, n, pts[0], pts[1]);
          var rest := pts[1..];
          forall i | 0 <= i < |rest| - 1
            ensures HeunSingleLink(f, h, rest[i], rest[i + 1]) && HeunIteratedLink(f, h, n, rest[i], rest[i + 1])
          {
            assert rest[i] == pts[i + 1] && rest[i + 1] == pts[i + 2];
          }
          assert HeunFailurePath(f, h, xEnd, n, x + h, a, b, rest, m);
        }
      }
    }
  }

  /** With valid parameters, improved_euler_method raises the evaluator's
      exception with message m exactly when, following both Heun recurrences
      from (x0, y0, y0) through points where the loop still steps, the first
      Heun step that fails raises m (its evaluations in the order of
      HeunStepFails). */
  lemma HeunFails(f: Evaluator, x0: real, y0: real, h: real, xEnd: real, n: int, m: string)
    requires 0.0 < h && x0 < xEnd && 1 <= n
    ensures Heun(f, x0, y0, h, xEnd, n) == Err(Raised(m))
        <==> exists pts :: HeunFailurePath(f, h, xEnd, n, x0, y0, y0, pts, m)
  {
    HeunFromFails(f, h, xEnd, n, x0, y0, y0, m);
  }
}
