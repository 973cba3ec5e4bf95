# euler_solver core in Dafny

A model of the numerical core of `euler_solver`, a program that integrates a
first-order ODE `y' = f(x, y)` from a user-supplied formula and compares the
result with a closed-form solution when one is found.

Modelled:

- `euler_method` (explicit Euler) and `improved_euler_method` (Heun's
  predictor-corrector, with a single-correction trajectory and an iterated one
  advanced in lockstep), from `numerical_methods.py`. Each is an imperative
  method with the source's `while` loop (and, for Heun, the inner corrector
  `for` loop), proved equal to a recursive specification function (`Euler`,
  `Heun`). The properties of the trajectories are lemmas about those functions.
- `run_simulation`, from `simulation.py`: the result record, the dispatch on
  `method_type`, the single call to the exact-solution search, the sampling of
  the exact solution at the trajectory's x-values, and the capture of every
  exception into the record's `error` field.

Modelling choices:

- Arithmetic is over exact `real`s. The stopping tolerance `1e-9` is the
  constant `Eps`. Because x is exact, the i-th point lies exactly at
  `x0 + i*h`, and the number of steps is `Steps(x0, h, x_end)`, that is
  ceil((x_end - 1e-9 - x0) / h). When `0 < x_end - x0 <= 1e-9`, validation passes
  but no step is taken, so the trajectory is the seed alone. The last point
  can lie past `x_end`, but it is less than one step beyond `x_end - 1e-9`.
- The compiled right-hand side is a parameter `f: (real, real) -> Result<real, string>`.
  `Err(message)` stands for the exception the compiled evaluator raises on a
  domain failure (`function_parser.py:71-83`). An evaluator that never raises
  is the special case in `EulerTotal` and `HeunTotal`.
- The exceptions are the datatype `Exception`. Each `raise ValueError` in
  `numerical_methods.py` is a variant (`InvalidStep`, `InvalidInterval`,
  `InvalidIterations`), and an evaluator error propagates as `Raised(message)`.
- The exact-solution search `solve_exact_ode` is a parameter
  `solveExact: (string, real, real) -> Option<(real -> Result<real, string>, string)>`.
  `RunSimulation` also returns a ghost log of the calls it makes to that search,
  so its contract can say how often it is called and with what arguments.
- The Python dict is the datatype `SimulationResult`. Each of its six keys is a
  field that is always present. The key `method` is the field `methodType`,
  because `method` is a keyword in Dafny. A key set to `None` is `None`.
- The predictor `y + h*k` and the trapezoidal corrector `y + (h/2)(k1 + k2)`
  are the named functions `EulerStep` and `Trapezoid`.

The code raises `ValueError` for bad parameters. `run_simulation` receives an
already compiled `f` and does not compile the formula itself. An exception
raised while sampling the exact solution is recorded in `error`, and the
trajectory and `exact_func_str` are kept.

## Model

| member | source | states |
|---|---|---|
| `NumericalMethods.Euler` | numerical_methods.py:33-38 | `euler_method` raises the step error exactly when h <= 0, and the interval error exactly when h > 0 and x_end <= x0. With valid parameters, the only other failure is an evaluator exception. A returned trajectory starts at (x0, y0). |
| `NumericalMethods.EulerFrom` | numerical_methods.py:46-52 | From any point, the stepping loop either fails with an evaluator exception or returns a non-empty trajectory that starts at that point. |
| `NumericalMethods.StepsDecrease` | numerical_methods.py:46-49 | While x < x_end - 1e-9, at least one step remains. Each step x += h uses up exactly one of the ceil((x_end - 1e-9 - x)/h) remaining steps, so over exact reals the loop terminates when h > 0. |
| `NumericalMethods.EulerMethod` | numerical_methods.py:9-52 | The validate-then-loop implementation returns exactly the trajectory, or raises exactly the exception, that `Euler` specifies. |
| `NumericalMethods.Refine` | numerical_methods.py:122-126 | The extra corrector passes fail only with an evaluator exception. |
| `NumericalMethods.HeunStep` | numerical_methods.py:99-126 | One Heun step of both trajectories fails only with an evaluator exception. |
| `NumericalMethods.HeunFrom` | numerical_methods.py:98-134 | From any point, the Heun loop either fails with an evaluator exception or returns a non-empty trajectory that starts at that point. |
| `NumericalMethods.Heun` | numerical_methods.py:86-93 | `improved_euler_method` raises the step error exactly when h <= 0. It raises the interval error exactly when h > 0 and x_end <= x0. It raises the corrector-count error exactly when those two checks pass and the count is < 1. Otherwise it fails only on an evaluator exception. A returned trajectory starts at (x0, y0, y0). |
| `NumericalMethods.ImprovedEulerMethod` | numerical_methods.py:55-134 | The implementation, with its outer stepping loop and inner corrector loop, returns exactly the trajectory, or raises exactly the exception, that `Heun` specifies. |
| `FailureProperties.EulerFails` | numerical_methods.py:46-50 | With valid parameters, `euler_method` raises the evaluator's exception with message m exactly when some prefix of the Euler recurrence from (x0, y0), through points with x < x_end - 1e-9, ends at a point where f raises m. |
| `FailureProperties.RefineFails` | numerical_methods.py:122-126 | The extra corrector passes raise m exactly when some pass j is reached without an error and its evaluation f(x_next, y) raises m. |
| `FailureProperties.HeunStepFails` | numerical_methods.py:99-126 | One Heun step raises m exactly when the first evaluation that raises, in the order k1 and k2 of the single column, k1 and k2 of the iterated column, then the extra corrector passes, raises m. |
| `FailureProperties.HeunLinkIsStep` | numerical_methods.py:104-132 | Two consecutive points satisfy both Heun recurrences exactly when the second is x + h with the two values one Heun step returns. |
| `FailureProperties.HeunFails` | numerical_methods.py:98-132 | With valid parameters, `improved_euler_method` raises the evaluator's exception with message m exactly when some prefix of both Heun recurrences from (x0, y0, y0), through points with x < x_end - 1e-9, ends at a point whose Heun step raises m. |
| `TrajectoryProperties.GridLength` | numerical_methods.py:46-49 | The x-grid from x has Steps(x, h, x_end) + 1 points. |
| `TrajectoryProperties.GridPoints` | numerical_methods.py:39-49 | The i-th grid point is x + i*h. |
| `TrajectoryProperties.GridStops` | numerical_methods.py:46 | Stopping rule: every grid point except the last is < x_end - 1e-9. The last point is >= x_end - 1e-9. A last point reached by a step is < x_end - 1e-9 + h. |
| `TrajectoryProperties.GridIncreasing` | numerical_methods.py:46-49 | Grid x-values strictly increase. |
| `TrajectoryProperties.EulerTrajectory` | numerical_methods.py:38-52 | A successful Euler run has valid parameters. It starts at (x0, y0). Its x-values are the grid x0 + i*h, with Steps + 1 points and the stopping rule above. Each next point is (x + h, y + h*f(x, y)), and f succeeded at every point except the last. |
| `TrajectoryProperties.EulerTotal` | numerical_methods.py:33-52 | With an evaluator that never raises, `euler_method` returns a trajectory exactly when h > 0 and x_end > x0. |
| `TrajectoryProperties.HeunTrajectory` | numerical_methods.py:93-132 | A successful Heun run has valid parameters and a count >= 1. It starts at (x0, y0, y0) and lies on the same grid with the same stopping rule. The single column steps by y + (h/2)(k1 + f(x + h, y + h*k1)) with k1 = f(x, y). The iterated column takes that first correction from its own y and then applies count - 1 further passes with k1 held fixed. |
| `TrajectoryProperties.EulerHeunSameGrid` | numerical_methods.py:98-129 | Euler and Heun runs with the same (x0, h, x_end) have identical x-columns, whatever their evaluators and corrector count. |
| `TrajectoryProperties.HeunTotal` | numerical_methods.py:86-134 | With an evaluator that never raises, `improved_euler_method` returns a trajectory exactly when h > 0, x_end > x0 and the count is >= 1. |
| `TrajectoryProperties.RefineLastPass` | numerical_methods.py:123-126 | Each extra corrector pass sets y to y_i + (h/2)(k1 + f(x_next, y)), applied to the previous pass's value, with the same k1. |
| `TrajectoryProperties.RefineFixedPoint` | numerical_methods.py:123-126 | Further corrector passes leave a fixed point of the trapezoidal corrector unchanged. |
| `TrajectoryProperties.HeunSingleEqualsIterated` | numerical_methods.py:114-132 | With corrector count 1, y_single == y_iterated at every point. |
| `TrajectoryProperties.HeunSingleIndependentOfIterations` | numerical_methods.py:99-132 | The single-correction column does not depend on the corrector count, because the two trajectories are advanced independently. |
| `Simulation.SampleExact` | simulation.py:66 | Sampling succeeds exactly when the exact function succeeds at every x. On success it has one value per x, in order. On failure, the error is the first exception raised, in left-to-right order. |
| `Simulation.RunSimulation` | simulation.py:11-71 | Echoes `method_type` and fills only the chosen trajectory. An integrator exception is recorded with both exact fields None. The exact solver is called once, with (func_str, x0, y0), exactly when a trajectory exists. Exact samples line up with the trajectory's x-values. A sampling exception is recorded and the trajectory is kept. Details in the list below. |

`Simulation.RunSimulation` states the following:

- `methodType` echoes `method_type`.
- 'EULER' fills only the Euler trajectory, and 'HEUN' fills only the Heun trajectory.
- 'HEUN' runs with one corrector pass, so its two columns agree.
- Any other `method_type` leaves every field except `methodType` as None and makes no exact-solver call.
- If the integrator raises, its exception is recorded in `error`, both exact fields stay None, and the solver is not called.
- The solver is called exactly once, with (func_str, x0, y0), exactly when a trajectory exists.
- `exact_func_str` holds the solver's display string when the solver returns a solution.
- When `exact_points` is present, it has the trajectory's length, and element i equals the exact function at the trajectory's i-th x.
- If sampling raises, `error` holds that exception, `exact_points` stays None, and the trajectory and `exact_func_str` are kept.
- The method always returns a record: no exception escapes.

## Left out

- `parse_function` (function_parser.py): its SymPy parsing, symbol whitelist and lambdify step are not modelled. The compiled evaluator is the parameter `f`, and its raised errors are `Err` values.
- `solve_exact_ode`: the symbolic solving, its signal-based timeout, and its NaN-returning evaluator are not modelled. It is the parameter `solveExact`. A search that raises instead of returning None is not modelled, because the oracle's type returns an `Option`.
- Floating-point rounding and accumulation in `curr_x = curr_x + h`: the model is exact, so the step count, x_i = x0 + i*h and termination hold for reals only. In floating point `curr_x + h` can round back to `curr_x` (for example x0 = 1e16 with h = 1.0), and then the loop never ends. NaN and infinite parameters are outside the model: the step and interval checks do not reject NaN (every comparison with NaN is false, so `h = nan` passes and `euler_method` returns a second point (nan, nan) and stops), and `x_end = inf` keeps the loop running forever. Claims about accuracy or convergence (order of Euler, Heun being more accurate, the iterated corrector converging) cannot be stated over exact reals.
- The text of error messages: `error` holds the exception value rather than `str(e)`, because the messages embed Python float formatting.
- Exceptions outside the `Exception` hierarchy (`KeyboardInterrupt`, `SystemExit`) pass through both the evaluator's wrapper and the `except Exception` handler of `run_simulation`; they are not modelled.
- input_handler.py, main.py, interface.py, output_formatter.py and plotting.py: console input, the menu loop, table rendering and plotting are I/O and are not part of this model.
