/** The open root-finders: fixed point, Newton-Raphson and secant. Each carries
    one or two running points that are shifted forward every pass; none keeps
    a bracket. */
module OpenMethods {
  import opened Iteration
  import Bracketing

  // -------------------------------------------------------------- fixed point

  /** The k-th point of the orbit of x under g: x, g(x), g(g(x)), ... */
  function Orbit(g: real -> real, x: real, k: nat): real
    decreases k
  {
    if k == 0 then x else Orbit(g, g(x), k - 1)
  }

  lemma {:induction false} OrbitNext(g: real -> real, x: real, k: nat)
    ensures Orbit(g, x, k + 1) == g(Orbit(g, x, k))
    decreases k
  {
    if k > 0 {
      OrbitNext(g, g(x), k - 1);
    }
  }

  /** The fixed-point loop from 0-based pass i on, at point x. */
  function FixedPointFrom(g: real -> real, x: real, tolerance: real, i: nat, iterations: nat): Run<real, RootRow>
    decreases iterations - i
  {
    if i >= iterations then Run(Failed(NonConvergence, iterations), [])
    else
      var x1 := g(x);
      var error := Abs(x1 - x);
      var row := FixedPointRow(i + 1, x, x1, error);
      if error < tolerance then Run(Converged(x1, i + 1), [row])
      else Cons(row, FixedPointFrom(g, x1, tolerance, i + 1, iterations))
  }

  /** What one call of the fixed-point method computes. */
  function FixedPointRun(g: real -> real, x0: real, tolerance: real, iterations: nat): Run<real, RootRow> {
    FixedPointFrom(g, x0, tolerance, 0, iterations)
  }

  method FixedPoint(g: real -> real, x0: real, tolerance: real := 0.000001, iterations: nat := 50)
    returns (result: Result<real>, trace: seq<RootRow>)
    ensures Run(result, trace) == FixedPointRun(g, x0, tolerance, iterations)
  {
    var x := x0;
    trace := [];
    for i := 0 to iterations
      invariant FixedPointRun(g, x0, tolerance, iterations)
        == Run(FixedPointFrom(g, x, tolerance, i, iterations).result,
               trace + FixedPointFrom(g, x, tolerance, i, iterations).trace)
    {
      var x1 := g(x);
      var error := Abs(x1 - x);
      var row := FixedPointRow(i + 1, x, x1, error);
      ghost var before := trace;
      trace := trace + [row];
      FixedPointFromPass(g, x, x1, error, tolerance, i, iterations);
      if error < tolerance {
        return Converged(x1, i + 1), trace;
      }
      x := x1;
      ConsAppend(before, row, FixedPointFrom(g, x, tolerance, i + 1, iterations));
    }
    result := Failed(NonConvergence, iterations);
  }

  /** One pass of the fixed-point loop, stated with the point x1 = g(x) it
      computes. */
  lemma FixedPointFromPass(g: real -> real, x: real, x1: real, error: real, tolerance: real, i: nat, iterations: nat)
    requires i < iterations && x1 == g(x) && error == Abs(x1 - x)
    ensures error < tolerance ==>
      FixedPointFrom(g, x, tolerance, i, iterations) == Run(Converged(x1, i + 1), [FixedPointRow(i + 1, x, x1, error)])
    ensures error >= tolerance ==>
      FixedPointFrom(g, x, tolerance, i, iterations)
        == Cons(FixedPointRow(i + 1, x, x1, error), FixedPointFrom(g, x1, tolerance, i + 1, iterations))
  {
  }

  /** The rows of a fixed-point trace from x: each row holds a point, its
      image under g and the distance between the two, and each row starts at
      the previous row's image. */
  predicate FixedPointSteps(g: real -> real, x: real, t: seq<RootRow>) {
    && (forall k :: 0 <= k < |t| ==>
          && t[k].FixedPointRow?
          && t[k].gx == g(t[k].x)
          && t[k].error == Abs(t[k].gx - t[k].x))
    && (|t| > 0 ==> t[0].x == x)
    && (forall k :: 0 <= k < |t| - 1 ==> t[k + 1].x == t[k].gx)
  }

  /** Along such a trace, row k holds the k-th orbit point and its successor. */
  lemma {:induction false} StepsFollowOrbit(g: real -> real, x: real, t: seq<RootRow>, k: nat)
    requires FixedPointSteps(g, x, t) && k < |t|
    ensures t[k].x == Orbit(g, x, k) && t[k].gx == Orbit(g, x, k + 1)
  {
    OrbitNext(g, x, k);
    if k > 0 {
      StepsFollowOrbit(g, x, t, k - 1);
    }
  }

  lemma {:induction false} FixedPointFromSkeleton(g: real -> real, x: real, tolerance: real, i: nat, iterations: nat)
    requires i <= iterations
    ensures var run := FixedPointFrom(g, x, tolerance, i, iterations);
      && Skeleton(run, tolerance, i, iterations)
      && (run.result.Converged? ==>
            run.trace[|run.trace| - 1].FixedPointRow? && run.result.value == run.trace[|run.trace| - 1].gx)
      && (run.result.Failed? ==> run.result.kind == NonConvergence)
    decreases iterations - i
  {
    if i < iterations {
      var x1 := g(x);
      var error := Abs(x1 - x);
      var row := FixedPointRow(i + 1, x, x1, error);
      FixedPointFromPass(g, x, x1, error, tolerance, i, iterations);
      if error >= tolerance {
        FixedPointFromSkeleton(g, x1, tolerance, i + 1, iterations);
      }
      PassKeepsSkeleton(FixedPointFrom(g, x, tolerance, i, iterations), row,
                        FixedPointFrom(g, x1, tolerance, i + 1, iterations), x1, tolerance, i, iterations);
    }
  }

  lemma {:induction false} FixedPointFromSteps(g: real -> real, x: real, tolerance: real, i: nat, iterations: nat)
    ensures FixedPointSteps(g, x, FixedPointFrom(g, x, tolerance, i, iterations).trace)
    decreases iterations - i
  {
    if i < iterations {
      var x1 := g(x);
      var error := Abs(x1 - x);
      var row := FixedPointRow(i + 1, x, x1, error);
      if error >= tolerance {
        var rest := FixedPointFrom(g, x1, tolerance, i + 1, iterations);
        assert FixedPointFrom(g, x, tolerance, i, iterations) == Cons(row, rest);
        FixedPointFromSteps(g, x1, tolerance, i + 1, iterations);
        var t := Cons(row, rest).trace;
        assert forall k :: 1 <= k < |t| ==> t[k] == rest.trace[k - 1];
      }
    }
  }

  /** The fixed-point method's skeleton: rows follow the orbit of x0, each pass
      stores x_k and g(x_k), a converged result is g of the last row's point
      (the new point, not the old one), and running out of passes is its only
      failure. */
  lemma FixedPointShape(g: real -> real, x0: real, tolerance: real, iterations: nat)
    ensures var run := FixedPointRun(g, x0, tolerance, iterations);
      && Skeleton(run, tolerance, 0, iterations)
      && FixedPointSteps(g, x0, run.trace)
      && (forall k :: 0 <= k < |run.trace| ==>
            run.trace[k].x == Orbit(g, x0, k) && run.trace[k].gx == Orbit(g, x0, k + 1))
      && (run.result.Converged? ==>
            && run.result.value == g(run.trace[|run.trace| - 1].x)
            && run.result.value == Orbit(g, x0, run.result.passes))
      && (run.result.Failed? ==> run.result == Failed(NonConvergence, iterations))
  {
    FixedPointFromSkeleton(g, x0, tolerance, 0, iterations);
    FixedPointFromSteps(g, x0, tolerance, 0, iterations);
    var t := FixedPointRun(g, x0, tolerance, iterations).trace;
    forall k | 0 <= k < |t|
      ensures t[k].x == Orbit(g, x0, k) && t[k].gx == Orbit(g, x0, k + 1)
    {
      StepsFollowOrbit(g, x0, t, k);
    }
  }

  /** Row k of a fixed-point trace records the move of the k-th orbit step. */
  lemma FixedPointRowError(g: real -> real, x0: real, tolerance: real, iterations: nat, k: nat)
    requires k < |FixedPointRun(g, x0, tolerance, iterations).trace|
    ensures FixedPointRun(g, x0, tolerance, iterations).trace[k].error
      == Abs(Orbit(g, x0, k + 1) - Orbit(g, x0, k))
  {
    var t := FixedPointRun(g, x0, tolerance, iterations).trace;
    FixedPointFromSteps(g, x0, tolerance, 0, iterations);
    StepsFollowOrbit(g, x0, t, k);
  }

  /** The method converges exactly when some orbit step within the cap moves by
      less than the tolerance. */
  lemma FixedPointConvergesIff(g: real -> real, x0: real, tolerance: real, iterations: nat)
    ensures FixedPointRun(g, x0, tolerance, iterations).result.Converged? <==>
      exists k :: 0 <= k < iterations && Abs(Orbit(g, x0, k + 1) - Orbit(g, x0, k)) < tolerance
  {
    FixedPointFromSkeleton(g, x0, tolerance, 0, iterations);
    var run := FixedPointRun(g, x0, tolerance, iterations);
    var t := run.trace;
    if run.result.Converged? {
      var k := |t| - 1;
      FixedPointRowError(g, x0, tolerance, iterations, k);
      assert Abs(Orbit(g, x0, k + 1) - Orbit(g, x0, k)) < tolerance;
    } else {
      forall k | 0 <= k < iterations
        ensures Abs(Orbit(g, x0, k + 1) - Orbit(g, x0, k)) >= tolerance
      {
        FixedPointRowError(g, x0, tolerance, iterations, k);
      }
    }
  }

  /** A converged call stops after the first orbit step that moves by less than
      the tolerance. */
  lemma FixedPointStopsAtFirstSmallStep(g: real -> real, x0: real, tolerance: real, iterations: nat)
    ensures var run := FixedPointRun(g, x0, tolerance, iterations);
      run.result.Converged? ==>
        && 0 < run.result.passes <= iterations
        && Abs(Orbit(g, x0, run.result.passes) - Orbit(g, x0, run.result.passes - 1)) < tolerance
        && forall k :: 0 <= k < run.result.passes - 1 ==>
             Abs(Orbit(g, x0, k + 1) - Orbit(g, x0, k)) >= tolerance
  {
    FixedPointFromSkeleton(g, x0, tolerance, 0, iterations);
    var run := FixedPointRun(g, x0, tolerance, iterations);
    if run.result.Converged? {
      FixedPointRowError(g, x0, tolerance, iterations, run.result.passes - 1);
      forall k | 0 <= k < run.result.passes - 1
        ensures Abs(Orbit(g, x0, k + 1) - Orbit(g, x0, k)) >= tolerance
      {
        FixedPointRowError(g, x0, tolerance, iterations, k);
      }
    }
  }

  /** Started on a fixed point of g, the method converges on the first pass and
      returns that point. */
  lemma FixedPointAtFixedPoint(g: real -> real, x0: real, tolerance: real, iterations: nat)
    requires g(x0) == x0 && tolerance > 0.0 && iterations > 0
    ensures FixedPointRun(g, x0, tolerance, iterations)
      == Run(Converged(x0, 1), [FixedPointRow(1, x0, x0, 0.0)])
  {
  }

  /** Iterating g(x) = 3x from 1 moves by 2, 6, 18, ...: with tolerance 1 and a
      cap of 3 the call gives up after all three passes. */
  lemma FixedPointTriplingDiverges()
    ensures FixedPointRun(x => 3.0 * x, 1.0, 1.0, 3) == Run(Failed(NonConvergence, 3), [
      FixedPointRow(1, 1.0, 3.0, 2.0), FixedPointRow(2, 3.0, 9.0, 6.0), FixedPointRow(3, 9.0, 27.0, 18.0)])
  {
    var g: real -> real := x => 3.0 * x;
    var last := FixedPointFrom(g, 9.0, 1.0, 2, 3);
    assert last == Cons(FixedPointRow(3, 9.0, 27.0, 18.0), Run(Failed(NonConvergence, 3), []));
    var second := FixedPointFrom(g, 3.0, 1.0, 1, 3);
    assert second == Cons(FixedPointRow(2, 3.0, 9.0, 6.0), last);
    assert FixedPointFrom(g, 1.0, 1.0, 0, 3) == Cons(FixedPointRow(1, 1.0, 3.0, 2.0), second);
  }

  // ----------------------------------------------------------- Newton-Raphson

  /** r is where the line through (x, fx) with slope dfx crosses zero. */
  predicate OnTangentZero(r: real, x: real, fx: real, dfx: real) {
    fx + dfx * (r - x) == 0.0
  }

  /** The Newton update from x, with fx = f(x) and dfx = f'(x). */
  function NewtonStep(x: real, fx: real, dfx: real): real
    requires dfx != 0.0
  {
    x - fx / dfx
  }

  /** The Newton update is the zero of the tangent line through (x, fx) with
      slope dfx. */
  lemma NewtonStepOnTangent(x: real, fx: real, dfx: real)
    requires dfx != 0.0
    ensures OnTangentZero(NewtonStep(x, fx, dfx), x, fx, dfx)
  {
    assert dfx * (fx / dfx) == fx;
  }

  /** The Newton-Raphson loop from 0-based pass i on, at point x; df is the
      derivative of f. */
  function NewtonFrom(f: real -> real, df: real -> real, x: real, tolerance: real, i: nat, iterations: nat)
    : Run<real, RootRow>
    decreases iterations - i
  {
    if i >= iterations then Run(Failed(NonConvergence, iterations), [])
    else
      var fx, dfx := f(x), df(x);
      if dfx == 0.0 then Run(Failed(ZeroDerivative, i), [])
      else
        var x1 := NewtonStep(x, fx, dfx);
        var error := Abs(x1 - x);
        var row := NewtonRow(i + 1, x, fx, error);
        if error < tolerance then Run(Converged(x1, i + 1), [row])
        else Cons(row, NewtonFrom(f, df, x1, tolerance, i + 1, iterations))
  }

  /** What one call of Newton-Raphson computes. */
  function NewtonRun(f: real -> real, df: real -> real, x0: real, tolerance: real, iterations: nat)
    : Run<real, RootRow>
  {
    NewtonFrom(f, df, x0, tolerance, 0, iterations)
  }

  method NewtonRaphson(f: real -> real, df: real -> real, x0: real, tolerance: real := 0.000001, iterations: nat := 50)
    returns (result: Result<real>, trace: seq<RootRow>)
    ensures Run(result, trace) == NewtonRun(f, df, x0, tolerance, iterations)
  {
    var x := x0;
    trace := [];
    for i := 0 to iterations
      invariant NewtonRun(f, df, x0, tolerance, iterations)
        == Run(NewtonFrom(f, df, x, tolerance, i, iterations).result,
               trace + NewtonFrom(f, df, x, tolerance, i, iterations).trace)
    {
      var fx := f(x);
      var dfx := df(x);
      if dfx == 0.0 {
        return Failed(ZeroDerivative, i), trace;
      }
      var x1 := NewtonStep(x, fx, dfx);
      var error := Abs(x1 - x);
      var row := NewtonRow(i + 1, x, fx, error);
      ghost var before := trace;
      trace := trace + [row];
      NewtonFromPass(f, df, x, fx, dfx, x1, error, tolerance, i, iterations);
      if error < tolerance {
        return Converged(x1, i + 1), trace;
      }
      x := x1;
      ConsAppend(before, row, NewtonFrom(f, df, x, tolerance, i + 1, iterations));
    }
    result := Failed(NonConvergence, iterations);
  }

  /** One pass of the Newton-Raphson loop past the derivative guard, stated
      with the values fx = f(x) and dfx = f'(x) it computes. */
  lemma NewtonFromPass(f: real -> real, df: real -> real, x: real, fx: real, dfx: real, x1: real, error: real,
                       tolerance: real, i: nat, iterations: nat)
    requires i < iterations && fx == f(x) && dfx == df(x) && dfx != 0.0
    requires x1 == NewtonStep(x, fx, dfx) && error == Abs(x1 - x)
    ensures error < tolerance ==>
      NewtonFrom(f, df, x, tolerance, i, iterations) == Run(Converged(x1, i + 1), [NewtonRow(i + 1, x, fx, error)])
    ensures error >= tolerance ==>
      NewtonFrom(f, df, x, tolerance, i, iterations)
        == Cons(NewtonRow(i + 1, x, fx, error), NewtonFrom(f, df, x1, tolerance, i + 1, iterations))
  {
  }

  /** The point that follows Newton row r. */
  function NewtonAfter(df: real -> real, r: RootRow): real
    requires r.NewtonRow? && df(r.x) != 0.0
  {
    NewtonStep(r.x, r.fx, df(r.x))
  }

  /** The rows of a Newton trace from x: each row's point has a nonzero
      derivative, its f value, and the distance to the next point; each row
      starts at the Newton update of the one before. */
  predicate NewtonSteps(f: real -> real, df: real -> real, x: real, t: seq<RootRow>) {
    && (forall k :: 0 <= k < |t| ==>
          && t[k].NewtonRow?
          && t[k].fx == f(t[k].x)
          && df(t[k].x) != 0.0
          && t[k].error == Abs(NewtonAfter(df, t[k]) - t[k].x))
    && (|t| > 0 ==> t[0].x == x)
    && (forall k :: 0 <= k < |t| - 1 ==> t[k + 1].x == NewtonAfter(df, t[k]))
  }

  /** A row that records one Newton pass from x, put in front of the rows of
      the passes that follow from the next point. */
  lemma NewtonStepsCons(f: real -> real, df: real -> real, x: real, row: RootRow, rest: seq<RootRow>)
    requires row.NewtonRow? && row.x == x && row.fx == f(x) && df(x) != 0.0
    requires row.error == Abs(NewtonAfter(df, row) - x)
    requires NewtonSteps(f, df, NewtonAfter(df, row), rest)
    ensures NewtonSteps(f, df, x, [row] + rest)
  {
    var t := [row] + rest;
    assert forall k :: 1 <= k < |t| ==> t[k] == rest[k - 1];
  }

  lemma {:induction false} NewtonFromSkeleton(f: real -> real, df: real -> real, x: real, tolerance: real, i: nat, iterations: nat)
    requires i <= iterations
    ensures var run := NewtonFrom(f, df, x, tolerance, i, iterations);
      && Skeleton(run, tolerance, i, iterations)
      && (run.result.Failed? ==> run.result.kind == ZeroDerivative || run.result.kind == NonConvergence)
      && (run.result.Failed? && run.result.kind == ZeroDerivative ==> i + |run.trace| < iterations)
    decreases iterations - i
  {
    var fx, dfx := f(x), df(x);
    if i < iterations && dfx != 0.0 {
      var x1 := NewtonStep(x, fx, dfx);
      var error := Abs(x1 - x);
      var row := NewtonRow(i + 1, x, fx, error);
      NewtonFromPass(f, df, x, fx, dfx, x1, error, tolerance, i, iterations);
      if error >= tolerance {
        NewtonFromSkeleton(f, df, x1, tolerance, i + 1, iterations);
      }
      PassKeepsSkeleton(NewtonFrom(f, df, x, tolerance, i, iterations), row,
                        NewtonFrom(f, df, x1, tolerance, i + 1, iterations), x1, tolerance, i, iterations);
    }
  }

  lemma {:induction false} NewtonFromSteps(f: real -> real, df: real -> real, x: real, tolerance: real, i: nat, iterations: nat)
    ensures var run := NewtonFrom(f, df, x, tolerance, i, iterations);
      && NewtonSteps(f, df, x, run.trace)
      && (run.result.Converged? ==> run.trace != [] && run.result.value == NewtonAfter(df, run.trace[|run.trace| - 1]))
      && (run.result.Failed? && run.result.kind == ZeroDerivative ==>
            && (run.trace == [] ==> df(x) == 0.0)
            && (run.trace != [] ==> df(NewtonAfter(df, run.trace[|run.trace| - 1])) == 0.0))
    decreases iterations - i
  {
    if i < iterations && df(x) != 0.0 {
      var x1 := NewtonStep(x, f(x), df(x));
      var error := Abs(x1 - x);
      var row := NewtonRow(i + 1, x, f(x), error);
      if error >= tolerance {
        var rest := NewtonFrom(f, df, x1, tolerance, i + 1, iterations);
        assert NewtonFrom(f, df, x, tolerance, i, iterations) == Cons(row, rest);
        NewtonFromSteps(f, df, x1, tolerance, i + 1, iterations);
        NewtonStepsCons(f, df, x, row, rest.trace);
        if rest.trace != [] {
          LastOfCons(row, rest.trace);
        }
      }
    }
  }

  /** Newton-Raphson's skeleton: at most `iterations` passes, one row per pass,
      each pass moves to the zero of the tangent, a converged result is the
      update of the last row's point, and a zero derivative stops the pass
      before its row, at the point that pass would have started from. */
  lemma NewtonShape(f: real -> real, df: real -> real, x0: real, tolerance: real, iterations: nat)
    ensures var run := NewtonRun(f, df, x0, tolerance, iterations);
      && Skeleton(run, tolerance, 0, iterations)
      && NewtonSteps(f, df, x0, run.trace)
      && (run.result.Converged? ==> run.result.value == NewtonAfter(df, run.trace[|run.trace| - 1]))
      && (run.result.Failed? ==> run.result.kind == ZeroDerivative || run.result.kind == NonConvergence)
      && (run.result.Failed? && run.result.kind == ZeroDerivative ==>
            && |run.trace| < iterations
            && (run.trace == [] ==> df(x0) == 0.0)
            && (run.trace != [] ==> df(NewtonAfter(df, run.trace[|run.trace| - 1])) == 0.0))
      && (iterations > 0 && df(x0) == 0.0 ==> run == Run(Failed(ZeroDerivative, 0), []))
  {
    NewtonFromSkeleton(f, df, x0, tolerance, 0, iterations);
    NewtonFromSteps(f, df, x0, tolerance, 0, iterations);
  }

  lemma AbsProduct(a: real, b: real)
    ensures Abs(a * b) == Abs(a) * Abs(b)
  {
    if a < 0.0 && b < 0.0 {
      assert a * b == (-a) * (-b);
    } else if a < 0.0 {
      assert -(a * b) == (-a) * b;
    } else if b < 0.0 {
      assert -(a * b) == a * (-b);
    }
  }

  /** On the tangent line, a step shorter than the tolerance means a residual
      below the tolerance times the slope. */
  lemma TangentResidual(x: real, fx: real, dfx: real, r: real, tolerance: real)
    requires dfx != 0.0 && OnTangentZero(r, x, fx, dfx) && Abs(r - x) < tolerance
    ensures Abs(fx) < tolerance * Abs(dfx)
  {
    var step := r - x;
    assert fx == -(dfx * step);
    AbsProduct(dfx, step);
    var p := Abs(dfx);
    assert p * tolerance - p * Abs(step) == p * (tolerance - Abs(step));
  }

  /** The last row of a converged Newton run: its step is below the tolerance. */
  lemma NewtonConvergedLast(f: real -> real, df: real -> real, x0: real, tolerance: real, iterations: nat)
    ensures var run := NewtonRun(f, df, x0, tolerance, iterations);
      run.result.Converged? ==>
        var r := run.trace[|run.trace| - 1];
        && r.NewtonRow? && r.fx == f(r.x) && df(r.x) != 0.0
        && Abs(NewtonAfter(df, r) - r.x) < tolerance
  {
    NewtonFromSkeleton(f, df, x0, tolerance, 0, iterations);
    NewtonFromSteps(f, df, x0, tolerance, 0, iterations);
  }

  /** A converged Newton run stops at a point whose residual is small relative
      to the slope there: |f(x)| < tolerance * |f'(x)| for the last row's x. */
  lemma NewtonConvergedResidual(f: real -> real, df: real -> real, x0: real, tolerance: real, iterations: nat)
    ensures var run := NewtonRun(f, df, x0, tolerance, iterations);
      run.result.Converged? ==>
        var r := run.trace[|run.trace| - 1];
        r.NewtonRow? && Abs(f(r.x)) < tolerance * Abs(df(r.x))
  {
    NewtonConvergedLast(f, df, x0, tolerance, iterations);
    var run := NewtonRun(f, df, x0, tolerance, iterations);
    if run.result.Converged? {
      var r := run.trace[|run.trace| - 1];
      NewtonStepOnTangent(r.x, r.fx, df(r.x));
      TangentResidual(r.x, r.fx, df(r.x), NewtonAfter(df, r), tolerance);
    }
  }

  /** Started on a root of f with a nonzero derivative, Newton-Raphson stays
      there and converges on the first pass. */
  lemma NewtonAtRoot(f: real -> real, df: real -> real, x0: real, tolerance: real, iterations: nat)
    requires f(x0) == 0.0 && df(x0) != 0.0 && tolerance > 0.0 && iterations > 0
    ensures NewtonRun(f, df, x0, tolerance, iterations)
      == Run(Converged(x0, 1), [NewtonRow(1, x0, 0.0, 0.0)])
  {
    assert NewtonStep(x0, 0.0, df(x0)) == x0;
  }

  // ------------------------------------------------------------------- secant

  /** The secant update from the points xPrev and x, with fPrev = f(xPrev)
      and fx = f(x). */
  function SecantStep(xPrev: real, x: real, fPrev: real, fx: real): real
    requires fPrev != fx
  {
    x - ((xPrev - x) * fx) / (fPrev - fx)
  }

  /** The secant update is the zero of the line through (xPrev, fPrev) and
      (x, fx). */
  lemma SecantStepOnChord(xPrev: real, x: real, fPrev: real, fx: real)
    requires fPrev != fx
    ensures OnChordZero(SecantStep(xPrev, x, fPrev, fx), xPrev, fPrev, x, fx)
  {
    var d := fPrev - fx;
    var r := SecantStep(xPrev, x, fPrev, fx);
    assert (r - x) * d == -((xPrev - x) * fx);
    assert (r - xPrev) * (fx - fPrev) == -((r - x) * d) + (xPrev - x) * d;
  }

  /** Two points on the zero of the same non-horizontal chord coincide. */
  lemma ChordZeroUnique(r1: real, r2: real, x0: real, f0: real, x1: real, f1: real)
    requires f0 != f1
    requires OnChordZero(r1, x0, f0, x1, f1) && OnChordZero(r2, x0, f0, x1, f1)
    ensures r1 == r2
  {
    assert (r1 - r2) * (f1 - f0) == 0.0;
  }

  /** The secant update and the false-position estimate, written differently
      in the two methods, are the same point: the zero of the chord through
      the two current points. */
  lemma SecantIsChordRoot(xPrev: real, x: real, fPrev: real, fx: real)
    requires fPrev != fx
    ensures SecantStep(xPrev, x, fPrev, fx) == Bracketing.ChordRoot(xPrev, x, fPrev, fx)
  {
    SecantStepOnChord(xPrev, x, fPrev, fx);
    ChordZeroUnique(SecantStep(xPrev, x, fPrev, fx), Bracketing.ChordRoot(xPrev, x, fPrev, fx), xPrev, fPrev, x, fx);
  }

  /** The secant loop from 0-based pass i on, with points xPrev and x. */
  function SecantFrom(f: real -> real, xPrev: real, x: real, tolerance: real, i: nat, iterations: nat)
    : Run<real, RootRow>
    decreases iterations - i
  {
    if i >= iterations then Run(Failed(NonConvergence, iterations), [])
    else
      var fPrev, fx := f(xPrev), f(x);
      if fPrev == fx then Run(Failed(ZeroDenominator, i), [])
      else
        var next := SecantStep(xPrev, x, fPrev, fx);
        var error := Abs(next - x);
        var row := SecantRow(i + 1, xPrev, x, fx, error);
        if error < tolerance then Run(Converged(next, i + 1), [row])
        else Cons(row, SecantFrom(f, x, next, tolerance, i + 1, iterations))
  }

  /** What one call of the secant method computes. */
  function SecantRun(f: real -> real, xPrev: real, x: real, tolerance: real, iterations: nat): Run<real, RootRow> {
    SecantFrom(f, xPrev, x, tolerance, 0, iterations)
  }

  method Secant(f: real -> real, xPrev0: real, x0: real, tolerance: real := 0.000001, iterations: nat := 20)
    returns (result: Result<real>, trace: seq<RootRow>)
    ensures Run(result, trace) == SecantRun(f, xPrev0, x0, tolerance, iterations)
  {
    var xPrev, x := xPrev0, x0;
    trace := [];
    for i := 0 to iterations
      invariant SecantRun(f, xPrev0, x0, tolerance, iterations)
        == Run(SecantFrom(f, xPrev, x, tolerance, i, iterations).result,
               trace + SecantFrom(f, xPrev, x, tolerance, i, iterations).trace)
    {
      var fPrev := f(xPrev);
      var fx := f(x);
      if fPrev == fx {
        return Failed(ZeroDenominator, i), trace;
      }
      var next := SecantStep(xPrev, x, fPrev, fx);
      var error := Abs(next - x);
      var row := SecantRow(i + 1, xPrev, x, fx, error);
      ghost var before := trace;
      trace := trace + [row];
      SecantFromPass(f, xPrev, x, fPrev, fx, next, error, tolerance, i, iterations);
      if error < tolerance {
        return Converged(next, i + 1), trace;
      }
      xPrev := x;
      x := next;
      ConsAppend(before, row, SecantFrom(f, xPrev, x, tolerance, i + 1, iterations));
    }
    result := Failed(NonConvergence, iterations);
  }

  /** One pass of the secant loop past the equal-values guard, stated with the
      values fPrev = f(xPrev) and fx = f(x) it computes. */
  lemma SecantFromPass(f: real -> real, xPrev: real, x: real, fPrev: real, fx: real, next: real, error: real,
                       tolerance: real, i: nat, iterations: nat)
    requires i < iterations && fPrev == f(xPrev) && fx == f(x) && fPrev != fx
    requires next == SecantStep(xPrev, x, fPrev, fx) && error == Abs(next - x)
    ensures error < tolerance ==>
      SecantFrom(f, xPrev, x, tolerance, i, iterations) == Run(Converged(next, i + 1), [SecantRow(i + 1, xPrev, x, fx, error)])
    ensures error >= tolerance ==>
      SecantFrom(f, xPrev, x, tolerance, i, iterations)
        == Cons(SecantRow(i + 1, xPrev, x, fx, error), SecantFrom(f, x, next, tolerance, i + 1, iterations))
  {
  }

  /** The point that follows secant row r. */
  function SecantAfter(f: real -> real, r: RootRow): real
    requires r.SecantRow? && f(r.xPrev) != r.fx
  {
    SecantStep(r.xPrev, r.x, f(r.xPrev), r.fx)
  }

  /** The rows of a secant trace from (xPrev, x): each row's two points have
      different values of f, the error is the distance from x to the update,
      and each row is the previous row's pair shifted by one. */
  predicate SecantSteps(f: real -> real, xPrev: real, x: real, t: seq<RootRow>) {
    && (forall k :: 0 <= k < |t| ==>
          && t[k].SecantRow?
          && t[k].fx == f(t[k].x)
          && f(t[k].xPrev) != f(t[k].x)
          && t[k].error == Abs(SecantAfter(f, t[k]) - t[k].x))
    && (|t| > 0 ==> t[0].xPrev == xPrev && t[0].x == x)
    && (forall k :: 0 <= k < |t| - 1 ==>
          t[k + 1].xPrev == t[k].x && t[k + 1].x == SecantAfter(f, t[k]))
  }

  /** A row that records one secant pass from (xPrev, x), put in front of the
      rows of the passes that follow from (x, x_next). */
  lemma SecantStepsCons(f: real -> real, xPrev: real, x: real, row: RootRow, rest: seq<RootRow>)
    requires row.SecantRow? && row.xPrev == xPrev && row.x == x && row.fx == f(x) && f(xPrev) != f(x)
    requires row.error == Abs(SecantAfter(f, row) - x)
    requires SecantSteps(f, x, SecantAfter(f, row), rest)
    ensures SecantSteps(f, xPrev, x, [row] + rest)
  {
    var t := [row] + rest;
    assert forall k :: 1 <= k < |t| ==> t[k] == rest[k - 1];
  }

  lemma {:induction false} SecantFromSkeleton(f: real -> real, xPrev: real, x: real, tolerance: real, i: nat, iterations: nat)
    requires i <= iterations
    ensures var run := SecantFrom(f, xPrev, x, tolerance, i, iterations);
      && Skeleton(run, tolerance, i, iterations)
      && (run.result.Failed? ==> run.result.kind == ZeroDenominator || run.result.kind == NonConvergence)
      && (run.result.Failed? && run.result.kind == ZeroDenominator ==> i + |run.trace| < iterations)
    decreases iterations - i
  {
    var fPrev, fx := f(xPrev), f(x);
    if i < iterations && fPrev != fx {
      var next := SecantStep(xPrev, x, fPrev, fx);
      var error := Abs(next - x);
      var row := SecantRow(i + 1, xPrev, x, fx, error);
      SecantFromPass(f, xPrev, x, fPrev, fx, next, error, tolerance, i, iterations);
      if error >= tolerance {
        SecantFromSkeleton(f, x, next, tolerance, i + 1, iterations);
      }
      PassKeepsSkeleton(SecantFrom(f, xPrev, x, tolerance, i, iterations), row,
                        SecantFrom(f, x, next, tolerance, i + 1, iterations), next, tolerance, i, iterations);
    }
  }

  lemma {:induction false} SecantFromSteps(f: real -> real, xPrev: real, x: real, tolerance: real, i: nat, iterations: nat)
    ensures var run := SecantFrom(f, xPrev, x, tolerance, i, iterations);
      && SecantSteps(f, xPrev, x, run.trace)
      && (run.result.Converged? ==> run.trace != [] && run.result.value == SecantAfter(f, run.trace[|run.trace| - 1]))
      && (run.result.Failed? && run.result.kind == ZeroDenominator ==>
            && (run.trace == [] ==> f(xPrev) == f(x))
            && (run.trace != [] ==>
                  var r := run.trace[|run.trace| - 1];
                  f(r.x) == f(SecantAfter(f, r))))
    decreases iterations - i
  {
    if i < iterations && f(xPrev) != f(x) {
      var next := SecantStep(xPrev, x, f(xPrev), f(x));
      var error := Abs(next - x);
      var row := SecantRow(i + 1, xPrev, x, f(x), error);
      if error >= tolerance {
        var rest := SecantFrom(f, x, next, tolerance, i + 1, iterations);
        assert SecantFrom(f, xPrev, x, tolerance, i, iterations) == Cons(row, rest);
        SecantFromSteps(f, x, next, tolerance, i + 1, iterations);
        SecantStepsCons(f, xPrev, x, row, rest.trace);
        if rest.trace != [] {
          LastOfCons(row, rest.trace);
        }
      }
    }
  }

  /** The secant method's skeleton: at most `iterations` passes, one row per
      pass, each pass shifts (x_{i-1}, x_i) to (x_i, x_{i+1}), a converged
      result is the update of the last row, and equal values of f stop a pass
      before its update and its row. */
  lemma SecantShape(f: real -> real, xPrev0: real, x0: real, tolerance: real, iterations: nat)
    ensures var run := SecantRun(f, xPrev0, x0, tolerance, iterations);
      && Skeleton(run, tolerance, 0, iterations)
      && SecantSteps(f, xPrev0, x0, run.trace)
      && (run.result.Converged? ==> run.result.value == SecantAfter(f, run.trace[|run.trace| - 1]))
      && (run.result.Failed? ==> run.result.kind == ZeroDenominator || run.result.kind == NonConvergence)
      && (run.result.Failed? && run.result.kind == ZeroDenominator ==>
            && |run.trace| < iterations
            && (run.trace == [] ==> f(xPrev0) == f(x0))
            && (run.trace != [] ==>
                  var r := run.trace[|run.trace| - 1];
                  f(r.x) == f(SecantAfter(f, r))))
  {
    SecantFromSkeleton(f, xPrev0, x0, tolerance, 0, iterations);
    SecantFromSteps(f, xPrev0, x0, tolerance, 0, iterations);
  }

  /** The secant method stops before any pass exactly when the cap allows a
      pass and the two starting points have equal values of f. */
  lemma SecantEqualValuesIff(f: real -> real, xPrev0: real, x0: real, tolerance: real, iterations: nat)
    ensures SecantRun(f, xPrev0, x0, tolerance, iterations).result == Failed(ZeroDenominator, 0)
      <==> iterations > 0 && f(xPrev0) == f(x0)
  {
    SecantShape(f, xPrev0, x0, tolerance, iterations);
    if iterations > 0 && f(xPrev0) != f(x0) {
      var run := SecantRun(f, xPrev0, x0, tolerance, iterations);
      var next := SecantStep(xPrev0, x0, f(xPrev0), f(x0));
      assert run.trace != [];
    }
  }
}
