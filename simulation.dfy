/** The coordinator of simulation.py: run the selected integrator, look for a
    closed-form solution once, sample it at the trajectory's x-values, and
    capture every exception in the result record instead of raising it. */
module Simulation {
  import opened Wrappers
  import opened NumericalMethods
  import TrajectoryProperties

  /** A closed-form solution y(x); `Err(message)` when evaluating it raises. */
  type ExactFunction = real -> Result<real, string>

  /** The exact-solution search `solve_exact_ode(func_str, x0, y0)`: a closed
      form with its display text, or None when there is none. */
  type ExactSolver = (string, real, real) -> Option<(ExactFunction, string)>

  /** The result record; its six fields are the six keys of the returned dict. */
  datatype SimulationResult = SimulationResult(
    methodType: string,
    eulerPoints: Option<seq<EulerPoint>>,
    heunPoints: Option<seq<HeunPoint>>,
    exactPoints: Option<seq<real>>,
    exactFuncStr: Option<string>,
    error: Option<Exception>)

  /** The x-values of `ref_points`: the Euler trajectory when it is present and
      non-empty, otherwise the Heun trajectory if present, otherwise none. */
  function ReferenceXs(r: SimulationResult): (xs: seq<real>)
  {
    if r.eulerPoints.Some? && |r.eulerPoints.value| > 0 then Xs(r.eulerPoints.value, EulerX)
    else if r.heunPoints.Some? then Xs(r.heunPoints.value, HeunX)
    else []
  }

  /** `[real_func(x) for x in xs]`: evaluated left to right, the first
      evaluation that raises aborts the whole list. */
  function SampleExact(g: ExactFunction, xs: seq<real>): (r: Result<seq<real>, string>)
    ensures r.Ok? <==> forall i :: 0 <= i < |xs| ==> g(xs[i]).Ok?
    ensures r.Ok? ==> |r.value| == |xs| && forall i :: 0 <= i < |xs| ==> r.value[i] == g(xs[i]).value
    ensures r.Err? ==> exists i :: 0 <= i < |xs| && g(xs[i]) == Err(r.error)
                                  && forall j :: 0 <= j < i ==> g(xs[j]).Ok?
  {
    if xs == [] then Ok([])
    else
      var head := g(xs[0]);
      if head.Err? then Err(head.error)
      else
        var tail := SampleExact(g, xs[1..]);
        if tail.Err? then
          assert forall j :: 1 <= j < |xs| ==> xs[j] == xs[1..][j - 1];
          tail
        else Ok([head.value] + tail.value)
  }

  /** run_simulation: the record starts with every field but `methodType`
      empty; 'EULER' and 'HEUN' fill their own trajectory (Heun with one
      corrector pass), and only then is the exact solution searched for, once,
      and sampled at the trajectory's x-values. */
  method RunSimulation(methodType: string, f: Evaluator, funcStr: string, x0: real, y0: real, h: real, tf: real,
                       solveExact: ExactSolver)
    returns (results: SimulationResult, ghost exactCalls: seq<(string, real, real)>)
    ensures results.methodType == methodType
    // dispatch: each method fills only its own trajectory
    ensures methodType == "EULER" ==>
      && results.heunPoints == None
      && results.eulerPoints == (if Euler(f, x0, y0, h, tf).Ok? then Some(Euler(f, x0, y0, h, tf).value) else None)
    ensures methodType == "HEUN" ==>
      && results.eulerPoints == None
      && results.heunPoints == (if Heun(f, x0, y0, h, tf, 1).Ok? then Some(Heun(f, x0, y0, h, tf, 1).value) else None)
    ensures methodType != "EULER" && methodType != "HEUN" ==>
      results == SimulationResult(methodType, None, None, None, None, None) && exactCalls == []
    // an integrator exception is recorded and stops the run
    ensures methodType == "EULER" && Euler(f, x0, y0, h, tf).Err? ==>
      && results.error == Some(Euler(f, x0, y0, h, tf).error)
      && results.exactPoints == None && results.exactFuncStr == None && exactCalls == []
    ensures methodType == "HEUN" && Heun(f, x0, y0, h, tf, 1).Err? ==>
      && results.error == Some(Heun(f, x0, y0, h, tf, 1).error)
      && results.exactPoints == None && results.exactFuncStr == None && exactCalls == []
    // the exact solver is asked once, with the run's own problem, exactly when a trajectory exists
    ensures exactCalls == if results.eulerPoints.Some? || results.heunPoints.Some? then [(funcStr, x0, y0)] else []
    ensures results.exactFuncStr ==
      if exactCalls != [] && solveExact(funcStr, x0, y0).Some? then Some(solveExact(funcStr, x0, y0).value.1) else None
    // the exact samples line up with the trajectory's x-values
    ensures results.exactPoints.Some? ==> results.exactFuncStr.Some?
    ensures results.exactPoints.Some? && results.eulerPoints.Some? ==>
      var g, pts, exact := solveExact(funcStr, x0, y0).value.0, results.eulerPoints.value, results.exactPoints.value;
      |exact| == |pts| && forall i :: 0 <= i < |pts| ==> g(pts[i].0) == Ok(exact[i])
    ensures results.exactPoints.Some? && results.heunPoints.Some? ==>
      var g, pts, exact := solveExact(funcStr, x0, y0).value.0, results.heunPoints.value, results.exactPoints.value;
      |exact| == |pts| && forall i :: 0 <= i < |pts| ==> g(pts[i].0) == Ok(exact[i])
    // a sampling exception is recorded, keeping the trajectory and the display text
    ensures results.exactFuncStr.Some? ==>
      (results.exactPoints.None? <==> results.error.Some?)
    ensures results.exactFuncStr.Some? && results.error.Some? ==>
      && results.error.value.Raised?
      && SampleExact(solveExact(funcStr, x0, y0).value.0, ReferenceXs(results)) == Err(results.error.value.message)
    // where an error can come from
    ensures results.error.Some? ==>
      || (results.eulerPoints == None && results.heunPoints == None && results.exactFuncStr == None)
      || (results.exactFuncStr.Some? && results.exactPoints == None)
    // Heun is run with one corrector pass, so its two columns agree
    ensures results.heunPoints.Some? ==>
      forall i :: 0 <= i < |results.heunPoints.value| ==> results.heunPoints.value[i].1 == results.heunPoints.value[i].2
  {
    results := SimulationResult(methodType, None, None, None, None, None);
    exactCalls := [];
    // 1. the numerical method
    if methodType == "EULER" {
      var run := EulerMethod(f, x0, y0, h, tf);
      if run.Err? {
        results := results.(error := Some(run.error));
        return;
      }
      results := results.(eulerPoints := Some(run.value));
    } else if methodType == "HEUN" {
      var run := ImprovedEulerMethod(f, x0, y0, h, tf, 1);
      if run.Err? {
        results := results.(error := Some(run.error));
        return;
      }
      TrajectoryProperties.HeunSingleEqualsIterated(f, x0, y0, h, tf);
      results := results.(heunPoints := Some(run.value));
    }
    // 2. the exact solution, sampled at the reference trajectory's x-values
    var refXs := ReferenceXs(results);
    if |refXs| > 0 {
      var exact := solveExact(funcStr, x0, y0);
      exactCalls := exactCalls + [(funcStr, x0, y0)];
      if exact.Some? {
        var (realFunc, exprStr) := exact.value;
        results := results.(exactFuncStr := Some(exprStr));
        var samples := SampleExact(realFunc, refXs);
        if samples.Err? {
          results := results.(error := Some(Raised(samples.error)));
          return;
        }
        results := results.(exactPoints := Some(samples.value));
      }
    }
  }
}
