/** Shared vocabulary of the seven iterative solvers: the kinds of failure,
    the outcome of one call, the trace rows of the scalar root-finders and the
    loop skeleton that every root-finder follows. */
module Iteration {

  function Abs(x: real): (r: real)
    ensures r >= 0.0 && (r == x || r == -x)
  {
    if x < 0.0 then -x else x
  }

  /** min(a, b) <= x <= max(a, b): x lies in the closed interval spanned by a
      and b, whichever of the two is the smaller. */
  predicate Between(x: real, a: real, b: real) {
    (a <= x <= b) || (b <= x <= a)
  }

  /** r is where the straight line through (x0, f0) and (x1, f1) crosses zero
      (every r qualifies when the line is horizontal at height 0). */
  predicate OnChordZero(r: real, x0: real, f0: real, x1: real, f1: real) {
    (r - x0) * (f1 - f0) == -f0 * (x1 - x0)
  }

  /** Why a call gave up; one kind per exception the solvers raise. */
  datatype ErrorKind =
    | SignCondition      // bisection: f(lower) * f(upper) > 0
    | ZeroDerivative     // Newton-Raphson: f'(x) == 0
    | ZeroDenominator    // secant: f(x_{i-1}) == f(x_i); false position: f(upper) == f(lower)
    | SingularDiagonal   // Jacobi, Gauss-Seidel: a[i][i] == 0
    | EmptySystem        // Jacobi, Gauss-Seidel with n == 0: the maximum of no changes
    | NonConvergence     // the cap on passes was used up

  /** The outcome of one call. `passes` counts the passes that recorded a trace
      row: the converging pass included, the pass a guard stopped excluded. */
  datatype Result<T> =
    | Converged(value: T, passes: nat)
    | Failed(kind: ErrorKind, passes: nat)

  /** A result together with the trace rows recorded on the way, in order. */
  datatype Run<T, W> = Run(result: Result<T>, trace: seq<W>)

  /** The run of a loop whose next pass records `row` and then goes on as `rest`. */
  function Cons<T, W>(row: W, rest: Run<T, W>): Run<T, W> {
    Run(rest.result, [row] + rest.trace)
  }

  /** A loop that has recorded `trace` and then runs a pass that records
      `row` and goes on as `rest`: the rows after the pass, appended in two
      steps, are the rows of the whole remainder appended in one. */
  lemma ConsAppend<T, W>(trace: seq<W>, row: W, rest: Run<T, W>)
    ensures Run(Cons(row, rest).result, trace + Cons(row, rest).trace)
      == Run(rest.result, (trace + [row]) + rest.trace)
  {
    assert trace + ([row] + rest.trace) == (trace + [row]) + rest.trace;
  }

  /** The last row of a longer trace is the last row of its tail. */
  lemma LastOfCons<W>(row: W, rest: seq<W>)
    requires rest != []
    ensures ([row] + rest)[|rest|] == rest[|rest| - 1]
  {
  }

  /** One trace row of a scalar root-finder: the column schema of each method. */
  datatype RootRow =
    | BisectionRow(iteration: nat, lower: real, upper: real, mid: real, fMid: real, error: real)
    | FalsePositionRow(iteration: nat, lower: real, upper: real, root: real, fRoot: real, error: real)
    | FixedPointRow(iteration: nat, x: real, gx: real, error: real)
    | NewtonRow(iteration: nat, x: real, fx: real, error: real)
    | SecantRow(iteration: nat, xPrev: real, x: real, fx: real, error: real)

  /** The loop skeleton shared by the root-finders, for the part of a run that
      starts at 0-based pass `start` of a loop capped at `iterations` passes:
      one row per completed pass, numbered from 1; the result counts those
      rows and never exceeds the cap; the run stops exactly at the first pass
      whose error is below the tolerance; and a non-convergence failure means
      the cap was used up. */
  predicate Skeleton(run: Run<real, RootRow>, tolerance: real, start: nat, iterations: nat) {
    var t := run.trace;
    && run.result.passes == start + |t| <= iterations
    && (forall k :: 0 <= k < |t| ==> t[k].iteration == start + k + 1)
    && (forall k :: 0 <= k < |t| - 1 ==> t[k].error >= tolerance)
    && (run.result.Converged? ==> |t| > 0 && t[|t| - 1].error < tolerance)
    && (run.result.Failed? ==> forall k :: 0 <= k < |t| ==> t[k].error >= tolerance)
    && (run.result.Failed? && run.result.kind == NonConvergence ==> start + |t| == iterations)
  }

  /** The skeleton is kept when one more pass with error at least the tolerance
      is put in front of a run that starts one pass later. */
  lemma ConsKeepsSkeleton(row: RootRow, rest: Run<real, RootRow>, tolerance: real, start: nat, iterations: nat)
    requires Skeleton(rest, tolerance, start + 1, iterations)
    requires row.iteration == start + 1 && row.error >= tolerance
    ensures Skeleton(Cons(row, rest), tolerance, start, iterations)
  {
    var t := Cons(row, rest).trace;
    assert forall k :: 1 <= k < |t| ==> t[k] == rest.trace[k - 1];
  }

  /** A pass that records `row` and then either stops with `value` (error
      below the tolerance) or goes on as `rest` keeps the skeleton. */
  lemma PassKeepsSkeleton(run: Run<real, RootRow>, row: RootRow, rest: Run<real, RootRow>, value: real,
                          tolerance: real, start: nat, iterations: nat)
    requires start < iterations && row.iteration == start + 1
    requires row.error < tolerance ==> run == Run(Converged(value, start + 1), [row])
    requires row.error >= tolerance ==> run == Cons(row, rest) && Skeleton(rest, tolerance, start + 1, iterations)
    ensures Skeleton(run, tolerance, start, iterations)
  {
    if row.error >= tolerance {
      ConsKeepsSkeleton(row, rest, tolerance, start, iterations);
    }
  }
}
