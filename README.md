# neoutils numerics in Dafny

This project models the seven iterative solvers of `neoutils/numerics.py` and
proves properties of them:

- the bracketing root-finders, bisection (`bisectionMethod`) and false position
  (`falseRuleMethod`);
- the open root-finders, fixed point (`staticPointMethod`), Newton-Raphson
  (`newtonRaphsonMethod`) and secant (`secMethod`);
- the linear-system iterations, Jacobi (`jacobiMethod`) and Gauss-Seidel
  (`gaussSeidelMethod`).

All seven share one loop skeleton. A bounded loop runs at most `iterations`
passes. Each pass appends one row to the trace table before its stopping test.
A pass whose error is below the tolerance returns its estimate. A guard can stop
the call before a pass records its row. When the cap is used up, the call fails.

Each solver is an imperative `method` with the source's loop. Its postcondition
ties its result and its trace to a recursive specification function over the
remaining passes (`BisectionFrom`, `JacobiFrom`, ...). The properties are lemmas
about those functions.

The numbers are Dafny `real`s, which are exact. The function under study
(`f`, `g`, and Newton's derivative `df`) is a parameter of type `real -> real`.

A call returns `Converged(value, passes)` or `Failed(kind, passes)`:

- `passes` counts the trace rows recorded.
- `kind` names the exception the source raises: `SignCondition`,
  `ZeroDerivative`, `ZeroDenominator`, `SingularDiagonal`, `EmptySystem` or
  `NonConvergence`.
- The trace rows (`RootRow`, `VectorRow`) have the columns of each method's
  table.

The files are:

- `iteration.dfy` (module `Iteration`): shared types, the trace rows, and the
  loop skeleton `Skeleton` that every scalar method follows.
- `bracketing.dfy` (module `Bracketing`): bisection, false position, and the
  finding below.
- `open_methods.dfy` (module `OpenMethods`): fixed point, Newton-Raphson and
  secant.
- `linear.dfy` (module `LinearSystems`): Jacobi and Gauss-Seidel.
  - Jacobi fills a fresh array from the old iterate.
  - Gauss-Seidel overwrites one array in place, row by row.

## Model

| member | source | states |
|---|---|---|
| Bracketing.Bisection | neoutils/numerics.py:18-38 | The result and trace equal `BisectionRun`. First comes the sign check. Then each pass records (pass, lower, upper, mid, f(mid), \|upper-lower\|/2), returns `mid` once the error is below the tolerance, and otherwise replaces one endpoint by `mid`. |
| Bracketing.BisectionSkeleton | neoutils/numerics.py:22-38 | There are at most `iterations` rows, numbered from 1. Every row but the last has error >= tolerance. A converged result is the midpoint of the first row whose error is below the tolerance. The sign failure occurs exactly when f(lower)·f(upper) > 0, and then there are no rows. A product of exactly 0 passes the check. The only other failure is the exhausted cap. |
| Bracketing.BisectionHalves | neoutils/numerics.py:27-36 | At 0-based row k the bracket is (upper-lower)/2^k wide and the error is \|upper-lower\|/2^(k+1). Every bracket, every midpoint and a converged result lie between the original endpoints. |
| Bracketing.BisectionConvergesWithin | neoutils/numerics.py:26-33 | With a sign change and \|upper-lower\| < 2^k·tolerance (1 <= k <= iterations), the call converges after at most k passes. |
| Bracketing.NarrowKeepsSignChange | neoutils/numerics.py:35-36 | A bracket with a strict sign change, updated at a point where f is not 0, keeps a strict sign change. |
| Bracketing.BisectionKeepsSignChange | neoutils/numerics.py:35-36 | If f(lower)·f(upper) < 0, every row's bracket has a strict sign change while no earlier midpoint hit f = 0. |
| Bracketing.FalsePosition | neoutils/numerics.py:61-75 | The result and trace equal `FalsePositionRun`. Each pass takes the chord root of the bracket, records (pass, lower, upper, root, f(root), \|f(root)\|), returns the root once \|f(root)\| < tolerance, and otherwise keeps the half with a strict sign change at its ends. A vanishing denominator fails before the row. |
| Bracketing.ChordRoot | neoutils/numerics.py:64 | The estimate is the zero of the chord through (lower, f(lower)) and (upper, f(upper)). Under a strict sign change it lies inside the bracket. |
| Bracketing.FalsePositionSkeleton | neoutils/numerics.py:61-75 | The shared skeleton holds. Every row is a false-position pass of the one before it. A converged result is the last row's root, and \|f\| there is below the tolerance. The only failures are the denominator and the cap. |
| Bracketing.FalsePositionZeroDenominator | neoutils/numerics.py:62-64 | The denominator failure happens only below the cap, at a bracket where f has equal values at both ends: either the starting bracket or the update of the last row. Equal values at the start fail at once with no rows. |
| Bracketing.FalsePositionKeepsBracket | neoutils/numerics.py:62-73 | Starting from f(lower)·f(upper) < 0 with a positive tolerance, the denominator never vanishes. Every row's bracket keeps a strict sign change and stays inside the original bracket, and its root lies inside its bracket. |
| Bracketing.BisectionLosesRootAtMidpoint | neoutils/numerics.py:35-36 | The code as written, on f(x) = x over [-1, 1] with tolerance 0.25: the first midpoint is the root, yet the call returns 0.875 after 4 passes. The full trace is stated. |
| Bracketing.NarrowInclusiveKeepsSignChange | neoutils/numerics.py:35-36 | The corrected update, which keeps [lower, mid] when f(lower)·f(mid) <= 0, always keeps a (non-strict) sign change. |
| Bracketing.CorrectedBisectionKeepsRoot | neoutils/numerics.py:22-38 | With the corrected update, the sign failure occurs exactly when f(lower)·f(upper) > 0. A converged result lies in a sign-change bracket [l, u] whose ends are both within the tolerance of it. |
| Bracketing.CorrectedBisectionKeepsRootAtMidpoint | neoutils/numerics.py:35-36 | The corrected update, on the same input, returns -0.125, which is within the tolerance of the root 0. |
| OpenMethods.FixedPoint | neoutils/numerics.py:97-106 | The result and trace equal `FixedPointRun`. Each pass records (pass, x, g(x), \|g(x)-x\|), returns g(x) (not x) once the error is below the tolerance, and otherwise continues from g(x). |
| OpenMethods.FixedPointShape | neoutils/numerics.py:97-106 | The shared skeleton holds. Row k holds the orbit points g^k(x0) and g^(k+1)(x0). A converged result is g of the last row's x and equals g^passes(x0). The only failure is the cap. |
| OpenMethods.FixedPointConvergesIff | neoutils/numerics.py:97-106 | The call converges if and only if some step \|g^(k+1)(x0) - g^k(x0)\| with k < iterations is below the tolerance. |
| OpenMethods.FixedPointStopsAtFirstSmallStep | neoutils/numerics.py:97-104 | A converged call stops at the first orbit step below the tolerance: that step is small and every earlier step is not. |
| OpenMethods.FixedPointAtFixedPoint | neoutils/numerics.py:98-103 | Started at a fixed point of g, the call converges in one pass to that point, with error 0. |
| OpenMethods.FixedPointTriplingDiverges | neoutils/numerics.py:97-106 | g(x) = 3x from 1 with tolerance 1 and cap 3 fails with NonConvergence after the rows (1, 3, 2), (3, 9, 6), (9, 27, 18). |
| OpenMethods.NewtonRaphson | neoutils/numerics.py:129-143 | The result and trace equal `NewtonRun`. A zero derivative fails before the step and the row. Otherwise the pass records (pass, x, f(x), \|x1-x\|) with x1 = x - f(x)/f'(x), returns x1 once the error is below the tolerance, and otherwise continues from x1. |
| OpenMethods.NewtonStepOnTangent | neoutils/numerics.py:135 | The Newton step is the zero of the tangent line at (x, f(x)). |
| OpenMethods.NewtonShape | neoutils/numerics.py:129-143 | The shared skeleton holds. Every row is a Newton step of the one before it, and a converged result is the step after the last row. The only failures are the derivative and the cap. A derivative failure happens below the cap, where f' vanishes at the current point. A zero f'(x0) fails at once with no rows. |
| OpenMethods.NewtonConvergedResidual | neoutils/numerics.py:135-140 | At a converged call's last row, \|f(x)\| < tolerance·\|f'(x)\|. |
| OpenMethods.NewtonAtRoot | neoutils/numerics.py:130-140 | Started at a root with f' non-zero, the call converges in one pass to that root. |
| OpenMethods.SecantStepOnChord | neoutils/numerics.py:172 | The secant step is the zero of the chord through (x_{i-1}, f(x_{i-1})) and (x_i, f(x_i)). |
| OpenMethods.SecantIsChordRoot | neoutils/numerics.py:172 | The secant step equals false position's chord root on the same two points. |
| OpenMethods.Secant | neoutils/numerics.py:166-182 | The result and trace equal `SecantRun`. Equal values f(x_{i-1}) = f(x_i) fail before the step and the row. Otherwise the pass records (pass, x_{i-1}, x_i, f(x_i), \|x_{i+1}-x_i\|), returns x_{i+1} once the error is below the tolerance, and otherwise shifts the pair to (x_i, x_{i+1}). |
| OpenMethods.SecantShape | neoutils/numerics.py:166-182 | The shared skeleton holds. Every row is a secant step of the one before it, with the pair shifted, and a converged result is the step after the last row. The only failures are equal values and the cap, and the equal-values failure happens below the cap at the current pair. |
| OpenMethods.SecantEqualValuesIff | neoutils/numerics.py:167-170 | The call fails at once, with no rows, if and only if iterations > 0 and f(x_{-1}) = f(x_0). |
| LinearSystems.MaxChangeTo | neoutils/numerics.py:216 | The value is the largest \|u[i]-v[i]\| over the first m components: it bounds each of them and is attained by one. |
| LinearSystems.MaxChangeBelowIff | neoutils/numerics.py:216 | The largest change is below the tolerance if and only if every component changed by less than the tolerance. |
| LinearSystems.SolveRowKeepsIff | neoutils/numerics.py:211 | Row i's update leaves x[i] unchanged if and only if equation i holds at x. |
| LinearSystems.JacobiPass | neoutils/numerics.py:208-211 | It reports a zero on the diagonal if and only if there is one. Otherwise the new iterate is the Jacobi sweep of the old one. |
| LinearSystems.JacobiSweepReadsOld | neoutils/numerics.py:208-211 | The sweep keeps the length n, and each entry i is (b[i] - Σ_{j≠i} a[i][j]·x_old[j]) / a[i][i], computed from the old iterate only, so the order of the rows does not matter. |
| LinearSystems.Jacobi | neoutils/numerics.py:198-221 | The result and trace equal `JacobiRun`. Starting from zeros, each pass sweeps, records (pass, x_new), returns x_new once the largest change is below the tolerance, and otherwise continues from x_new. |
| LinearSystems.JacobiShape | neoutils/numerics.py:207-221 | Rows are numbered from 1, there are at most `iterations` of them, and each holds a length-n iterate that is the sweep of the iterate before it. Every row but the last changed some component by at least the tolerance. A converged result is the last iterate and changed every component by less than the tolerance. A cap failure used up the cap. |
| LinearSystems.JacobiFailures | neoutils/numerics.py:201-221 | The failures are the cap, a zero on the diagonal and an empty system. A zero on the diagonal (when iterations > 0) fails at once with no rows. An empty system (when iterations > 0 and the diagonal check passes) fails after its one row. |
| LinearSystems.JacobiFixedPointSolves | neoutils/numerics.py:209-211 | The sweep leaves x in place if and only if x solves A x = b. |
| LinearSystems.ZeroVector | neoutils/numerics.py:241 | The starting vector is a fresh array of n zeros. |
| LinearSystems.GaussSeidelPass | neoutils/numerics.py:247-250 | It reports a zero on the diagonal if and only if there is one. Otherwise the array, updated in place, ends as the Gauss-Seidel sweep of its old contents. |
| LinearSystems.GaussSeidelReadsCurrent | neoutils/numerics.py:248-250 | Row i updates entry i of the current vector, reading it throughout, and changes nothing else. |
| LinearSystems.GaussSeidelSweepReadsNewBelow | neoutils/numerics.py:249-250 | Entry i of the sweep is row i's update applied to the new entries below i and the old entries from i on. |
| LinearSystems.GaussSeidel | neoutils/numerics.py:237-258 | The result and trace equal `GaussSeidelRun`. Starting from zeros, each pass sweeps in place, records (pass, x), returns x once the largest change is below the tolerance, and otherwise continues from the updated x. |
| LinearSystems.GaussSeidelShape | neoutils/numerics.py:246-258 | This is the same skeleton as Jacobi's, with each row the in-place sweep of the iterate before it. |
| LinearSystems.GaussSeidelFailures | neoutils/numerics.py:240-258 | The failures are the cap, a zero on the diagonal (at once, with no rows) and an empty system (after its one row), as for Jacobi. |
| LinearSystems.GaussSeidelFixedPointSolves | neoutils/numerics.py:248-250 | The sweep leaves x in place if and only if x solves A x = b. |
| LinearSystems.SameFixedPoints | neoutils/numerics.py:247-250 | Jacobi and Gauss-Seidel leave exactly the same vectors in place. |

## Left out

- Parsing and symbolic differentiation (`parseLatex` and `sympy.diff`) are
  left out. The function is a parameter. Newton-Raphson takes the derivative
  as a second parameter `df`, and nothing checks that it is the derivative of
  `f`. Matrices and vectors are already-numeric `seq<seq<real>>` and
  `seq<real>`.
- Table rendering is left out. The trace is always recorded and returned,
  whether or not a table is given. In the source, whether a table is given
  does not change the result, provided the table accepts the header and the
  rows. An exception raised by the table is caught like any other, and the
  call then returns `None`. That path is not modelled.
- The printed error messages are left out. The source catches every
  exception, prints it and returns `None`. The model returns `Failed(kind,
  passes)` instead.
- Floating-point rounding and overflow are left out. All arithmetic is exact
  over `real`, so claims about convergence speed are not modelled either.
- The iteration cap is a `nat`. A negative cap, which `range` treats like 0,
  is not modelled.
- Bracketing.FalsePosition: stops with `ZeroDenominator` before the pass's
  row when f(upper) = f(lower). The source divides without a test at line 64.
  What sympy would return for that division (complex infinity) and how the
  comparisons after it behave are not modelled.
- LinearSystems.Jacobi: stops with `SingularDiagonal` before the first row
  when some a[i][i] = 0. The source divides without a test at line 211, and
  its sympy result is not modelled.
- LinearSystems.GaussSeidel: stops with `SingularDiagonal` in the same way.
  The source divides without a test at line 250.
- LinearSystems.Jacobi: requires `Covers(a, |b|)`, that is, every entry
  a[i][j] with i, j < n exists. The `IndexError` a short matrix would raise
  (and print) is not modelled.
- LinearSystems.GaussSeidel: requires `Covers(a, |b|)` for the same reason.
- An empty system (n = 0) is modelled as `Failed(EmptySystem, k + 1)` after
  its row. In the source, `max` of no changes raises there.
- `neoutils/equations.py`, the helpers in `neoutils/utils.py`,
  `neoutils/__init__.py` and `setup.py` are not part of this model. They
  wrap sympy, print, re-export or package.
- Where the code does not test a divisor, as for false position and the
  diagonal, the model stops the call at that point, as the error kinds above
  describe.
- The default arguments are kept as Dafny parameter defaults on the seven
  solver methods: tolerance 10^-6, and a cap of 50 passes (20 for the secant
  method, 100 for Jacobi and Gauss-Seidel). The default of 10^-6 is the exact
  real, not the nearest double. The specification functions (`BisectionRun`,
  ...) take both values explicitly.

## Findings

| source | as written | input that shows it | evidently intended | confidence | as-written member | corrected member |
|---|---|---|---|---|---|---|
| neoutils/numerics.py:35-36 | The bracket keeps [lower, mid] only when f(lower)·f(mid) < 0. When f(mid) = 0 the code sets lower := mid, so the next pass moves lower past that root, and from then on the root lies outside every bracket. | f(x) = x, lower = -1, upper = 1, tolerance = 0.25, iterations = 10: the first midpoint 0 is the root, yet the call returns 0.875 after 4 passes. | Keep [lower, mid] when f(lower)·f(mid) <= 0, so that every bracket keeps a sign change and a converged result is within the tolerance of both ends of such a bracket. The same input then returns -0.125. | not executed | Bracketing.BisectionLosesRootAtMidpoint | Bracketing.CorrectedBisectionKeepsRoot |
