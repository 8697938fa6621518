/** The two linear-system iterations, Jacobi and Gauss-Seidel, for A x = b with
    n = |b| unknowns, both started from the zero vector. */
module LinearSystems {
  import opened Iteration

  // ------------------------------------------------------- vectors and sums

  /** Every entry a[i][j] with i, j < n exists: at least n rows, each with at
      least n entries. */
  predicate Covers(a: seq<seq<real>>, n: nat) {
    |a| >= n && forall i :: 0 <= i < n ==> |a[i]| >= n
  }

  predicate NonZeroDiagonal(a: seq<seq<real>>, n: nat)
    requires Covers(a, n)
  {
    forall i :: 0 <= i < n ==> a[i][i] != 0.0
  }

  /** The sum of row[j] * x[j] for lo <= j < hi. */
  function Sum(row: seq<real>, x: seq<real>, lo: nat, hi: nat): real
    requires lo <= hi <= |row| && hi <= |x|
    decreases hi - lo
  {
    if lo == hi then 0.0 else Sum(row, x, lo, hi - 1) + row[hi - 1] * x[hi - 1]
  }

  /** The sum of row[j] * x[j] for j < n with j != i. */
  function OffDiagonal(row: seq<real>, x: seq<real>, i: nat, n: nat): real
    requires n <= |row| && n <= |x|
  {
    if n == 0 then 0.0
    else OffDiagonal(row, x, i, n - 1) + (if n - 1 == i then 0.0 else row[n - 1] * x[n - 1])
  }

  /** x solves the system: equation i, sum of a[i][j] * x[j] over j < n, equals b[i]. */
  predicate Solves(a: seq<seq<real>>, b: seq<real>, x: seq<real>)
    requires Covers(a, |b|) && |x| == |b|
  {
    forall i :: 0 <= i < |b| ==> Sum(a[i], x, 0, |b|) == b[i]
  }

  /** Every component of u is within the tolerance of the same component of v. */
  predicate Close(u: seq<real>, v: seq<real>, tolerance: real) {
    |u| == |v| && forall i :: 0 <= i < |u| ==> Abs(u[i] - v[i]) < tolerance
  }

  function Zeros(n: nat): (z: seq<real>)
    ensures |z| == n && forall i :: 0 <= i < n ==> z[i] == 0.0
  {
    seq(n, _ => 0.0)
  }

  lemma {:induction false} SumSplit(row: seq<real>, x: seq<real>, lo: nat, mid: nat, hi: nat)
    requires lo <= mid <= hi <= |row| && hi <= |x|
    ensures Sum(row, x, lo, hi) == Sum(row, x, lo, mid) + Sum(row, x, mid, hi)
    decreases hi - mid
  {
    if mid < hi {
      SumSplit(row, x, lo, mid, hi - 1);
    }
  }

  /** A sum reads x only at the indices it ranges over. */
  lemma {:induction false} SumFrame(row: seq<real>, x: seq<real>, y: seq<real>, lo: nat, hi: nat)
    requires lo <= hi <= |row| && hi <= |x| && hi <= |y|
    requires forall j :: lo <= j < hi ==> x[j] == y[j]
    ensures Sum(row, x, lo, hi) == Sum(row, y, lo, hi)
    decreases hi - lo
  {
    if lo < hi {
      SumFrame(row, x, y, lo, hi - 1);
    }
  }

  lemma {:induction false} OffDiagonalBelow(row: seq<real>, x: seq<real>, i: nat, n: nat)
    requires n <= i && n <= |row| && n <= |x|
    ensures OffDiagonal(row, x, i, n) == Sum(row, x, 0, n)
  {
    if n > 0 {
      OffDiagonalBelow(row, x, i, n - 1);
    }
  }

  /** The off-diagonal sum is the sum below i plus the sum above i. */
  lemma {:induction false} OffDiagonalSplit(row: seq<real>, x: seq<real>, i: nat, n: nat)
    requires i < n <= |row| && n <= |x|
    ensures OffDiagonal(row, x, i, n) == Sum(row, x, 0, i) + Sum(row, x, i + 1, n)
  {
    if n == i + 1 {
      OffDiagonalBelow(row, x, i, i);
    } else {
      OffDiagonalSplit(row, x, i, n - 1);
    }
  }

  /** The full sum is the off-diagonal sum plus the diagonal term. */
  lemma SumAroundDiagonal(row: seq<real>, x: seq<real>, i: nat, n: nat)
    requires i < n <= |row| && n <= |x|
    ensures Sum(row, x, 0, n) == OffDiagonal(row, x, i, n) + row[i] * x[i]
  {
    OffDiagonalSplit(row, x, i, n);
    SumSplit(row, x, 0, i + 1, n);
  }

  lemma DivisionIff(v: real, p: real, d: real)
    requires d != 0.0
    ensures v == p / d <==> v * d == p
  {
    if v * d == p {
      assert v == (v * d) / d;
    }
  }

  // ------------------------------------------------------------ the row update

  /** Equation i solved for x_i, with every other unknown at its value in x:
      (b[i] - sum of a[i][j] * x[j] over j != i) / a[i][i]. */
  function SolveRow(a: seq<seq<real>>, b: seq<real>, x: seq<real>, i: nat): real
    requires Covers(a, |b|) && |x| == |b| && i < |b| && a[i][i] != 0.0
  {
    RowUpdate(a, b, i, OffDiagonal(a[i], x, i, |b|))
  }

  /** Equation i solved for x_i, given the value `s` of its off-diagonal terms. */
  function RowUpdate(a: seq<seq<real>>, b: seq<real>, i: nat, s: real): real
    requires Covers(a, |b|) && i < |b| && a[i][i] != 0.0
  {
    (b[i] - s) / a[i][i]
  }

  /** x_i is left where it is by the update of row i exactly when x satisfies
      equation i. */
  lemma SolveRowKeepsIff(a: seq<seq<real>>, b: seq<real>, x: seq<real>, i: nat)
    requires Covers(a, |b|) && |x| == |b| && i < |b| && a[i][i] != 0.0
    ensures SolveRow(a, b, x, i) == x[i] <==> Sum(a[i], x, 0, |b|) == b[i]
  {
    SumAroundDiagonal(a[i], x, i, |b|);
    DivisionIff(x[i], b[i] - OffDiagonal(a[i], x, i, |b|), a[i][i]);
  }

  // ------------------------------------------------------- the largest change

  /** The largest |u[i] - v[i]| over i < m. */
  function MaxChangeTo(u: seq<real>, v: seq<real>, m: nat): (r: real)
    requires 0 < m <= |u| && |u| == |v|
    ensures forall i :: 0 <= i < m ==> Abs(u[i] - v[i]) <= r
    ensures exists i :: 0 <= i < m && r == Abs(u[i] - v[i])
  {
    if m == 1 then Abs(u[0] - v[0])
    else
      var rest := MaxChangeTo(u, v, m - 1);
      var last := Abs(u[m - 1] - v[m - 1]);
      if rest < last then last else rest
  }

  /** The error metric of both methods: the largest componentwise change. */
  function MaxChange(u: seq<real>, v: seq<real>): real
    requires 0 < |u| && |u| == |v|
  {
    MaxChangeTo(u, v, |u|)
  }

  /** The largest change is below the tolerance exactly when every change is. */
  lemma MaxChangeBelowIff(u: seq<real>, v: seq<real>, tolerance: real)
    requires 0 < |u| && |u| == |v|
    ensures MaxChange(u, v) < tolerance <==> Close(u, v, tolerance)
  {
    var i :| 0 <= i < |u| && MaxChange(u, v) == Abs(u[i] - v[i]);
  }

  // ------------------------------------------------------ the shared skeleton

  /** One trace row of either method: the pass number and the new iterate. */
  datatype VectorRow = VectorRow(iteration: nat, x: seq<real>)

  /** The iterate that row k's pass started from. */
  function Before(t: seq<VectorRow>, x0: seq<real>, k: nat): seq<real>
    requires k <= |t|
  {
    if k == 0 then x0 else t[k - 1].x
  }

  /** The loop skeleton of both methods, for the part of a run that starts at
      0-based pass `start` from iterate x0: one row per completed pass, numbered
      from 1, each holding an iterate of the same length; the result counts the
      rows and never exceeds the cap; every pass but the last changed some
      component by at least the tolerance; a converged result is the last
      iterate and changed every component by less than the tolerance; and a
      non-convergence failure means the cap was used up. */
  predicate VectorSkeleton(run: Run<seq<real>, VectorRow>, x0: seq<real>, tolerance: real, start: nat, iterations: nat) {
    var t := run.trace;
    && run.result.passes == start + |t| <= iterations
    && (forall k :: 0 <= k < |t| ==> t[k].iteration == start + k + 1 && |t[k].x| == |x0|)
    && (forall k :: 0 <= k < |t| - 1 ==> !Close(t[k].x, Before(t, x0, k), tolerance))
    && (run.result.Converged? ==>
          && |t| > 0
          && run.result.value == t[|t| - 1].x
          && Close(t[|t| - 1].x, Before(t, x0, |t| - 1), tolerance))
    && (run.result.Failed? && run.result.kind == NonConvergence ==>
          && start + |t| == iterations
          && forall k :: 0 <= k < |t| ==> !Close(t[k].x, Before(t, x0, k), tolerance))
  }

  lemma ConsKeepsVectorSkeleton(row: VectorRow, rest: Run<seq<real>, VectorRow>, x0: seq<real>, tolerance: real, start: nat, iterations: nat)
    requires VectorSkeleton(rest, row.x, tolerance, start + 1, iterations)
    requires row.iteration == start + 1 && |row.x| == |x0| && !Close(row.x, x0, tolerance)
    ensures VectorSkeleton(Cons(row, rest), x0, tolerance, start, iterations)
  {
    var t := Cons(row, rest).trace;
    assert forall k :: 1 <= k < |t| ==> t[k] == rest.trace[k - 1];
    assert forall k :: 1 <= k <= |t| ==> Before(t, x0, k) == Before(rest.trace, row.x, k - 1);
  }

  /** A pass that records the new iterate xNew after x, and either stops there
      (when the largest change is below the tolerance) or goes on as `rest`,
      keeps the skeleton. */
  lemma PassKeepsVectorSkeleton(run: Run<seq<real>, VectorRow>, x: seq<real>, xNew: seq<real>, rest: Run<seq<real>, VectorRow>,
                                tolerance: real, k: nat, iterations: nat)
    requires 0 < |x| == |xNew| && k < iterations
    requires MaxChange(xNew, x) < tolerance ==> run == Run(Converged(xNew, k + 1), [VectorRow(k + 1, xNew)])
    requires MaxChange(xNew, x) >= tolerance ==>
      run == Cons(VectorRow(k + 1, xNew), rest) && VectorSkeleton(rest, xNew, tolerance, k + 1, iterations)
    ensures VectorSkeleton(run, x, tolerance, k, iterations)
  {
    MaxChangeBelowIff(xNew, x, tolerance);
    if MaxChange(xNew, x) >= tolerance {
      ConsKeepsVectorSkeleton(VectorRow(k + 1, xNew), rest, x, tolerance, k, iterations);
    }
  }

  // ------------------------------------------------------------------- Jacobi

  /** The copy of xOld after rows 0 .. i-1 of one Jacobi pass have been
      written: each written row reads xOld only. */
  function JacobiPrefix(a: seq<seq<real>>, b: seq<real>, xOld: seq<real>, i: nat): (x: seq<real>)
    requires Covers(a, |b|) && |xOld| == |b| && i <= |b|
    requires forall j :: 0 <= j < i ==> a[j][j] != 0.0
    ensures |x| == |b|
    ensures forall j :: i <= j < |b| ==> x[j] == xOld[j]
  {
    if i == 0 then xOld
    else
      var r := i - 1;
      JacobiPrefix(a, b, xOld, r)[r := RowUpdate(a, b, r, OffDiagonal(a[r], xOld, r, |b|))]
  }

  /** One Jacobi pass: all n rows written. */
  function JacobiSweep(a: seq<seq<real>>, b: seq<real>, x: seq<real>): seq<real>
    requires Covers(a, |b|) && |x| == |b| && NonZeroDiagonal(a, |b|)
  {
    JacobiPrefix(a, b, x, |b|)
  }

  lemma {:induction false} JacobiPrefixRows(a: seq<seq<real>>, b: seq<real>, xOld: seq<real>, i: nat)
    requires Covers(a, |b|) && |xOld| == |b| && i <= |b|
    requires forall j :: 0 <= j < i ==> a[j][j] != 0.0
    ensures forall j :: 0 <= j < i ==> JacobiPrefix(a, b, xOld, i)[j] == SolveRow(a, b, xOld, j)
  {
    if i > 0 {
      JacobiPrefixRows(a, b, xOld, i - 1);
    }
  }

  /** Every component of a Jacobi sweep is its row update computed from the
      old iterate alone, so the order in which rows are written does not
      matter. */
  lemma JacobiSweepReadsOld(a: seq<seq<real>>, b: seq<real>, x: seq<real>)
    requires Covers(a, |b|) && |x| == |b| && NonZeroDiagonal(a, |b|)
    ensures |JacobiSweep(a, b, x)| == |x|
    ensures forall i :: 0 <= i < |b| ==> JacobiSweep(a, b, x)[i] == SolveRow(a, b, x, i)
  {
    JacobiPrefixRows(a, b, x, |b|);
  }

  /** The Jacobi loop from 0-based pass k on, at iterate x. */
  function JacobiFrom(a: seq<seq<real>>, b: seq<real>, x: seq<real>, tolerance: real, k: nat, iterations: nat)
    : Run<seq<real>, VectorRow>
    requires Covers(a, |b|) && |x| == |b|
    decreases iterations - k
  {
    if k >= iterations then Run(Failed(NonConvergence, iterations), [])
    else if !NonZeroDiagonal(a, |b|) then Run(Failed(SingularDiagonal, k), [])
    else
      var xNew := JacobiSweep(a, b, x);
      var row := VectorRow(k + 1, xNew);
      if |b| == 0 then Run(Failed(EmptySystem, k + 1), [row])
      else if MaxChange(xNew, x) < tolerance then Run(Converged(xNew, k + 1), [row])
      else Cons(row, JacobiFrom(a, b, xNew, tolerance, k + 1, iterations))
  }

  /** What one call of the Jacobi method computes. */
  function JacobiRun(a: seq<seq<real>>, b: seq<real>, tolerance: real, iterations: nat): Run<seq<real>, VectorRow>
    requires Covers(a, |b|)
  {
    JacobiFrom(a, b, Zeros(|b|), tolerance, 0, iterations)
  }

  /** The inner loop of one Jacobi pass: a copy of xOld written row by row,
      each row reading xOld only; the first zero on the diagonal stops it. */
  method JacobiPass(a: seq<seq<real>>, b: seq<real>, xOld: seq<real>) returns (singular: bool, xNew: seq<real>)
    requires Covers(a, |b|) && |xOld| == |b|
    ensures singular <==> !NonZeroDiagonal(a, |b|)
    ensures !singular ==> xNew == JacobiSweep(a, b, xOld)
  {
    var n := |b|;
    var next := new real[n];
    forall i | 0 <= i < n {
      next[i] := xOld[i];
    }
    assert next[..] == xOld;
    for i := 0 to n
      invariant forall j :: 0 <= j < i ==> a[j][j] != 0.0
      invariant next[..] == JacobiPrefix(a, b, xOld, i)
    {
      var sumTerms := OffDiagonal(a[i], xOld, i, n);
      if a[i][i] == 0.0 {
        return true, next[..];
      }
      next[i] := (b[i] - sumTerms) / a[i][i];
    }
    return false, next[..];
  }

  method Jacobi(a: seq<seq<real>>, b: seq<real>, tolerance: real := 0.000001, iterations: nat := 100)
    returns (result: Result<seq<real>>, trace: seq<VectorRow>)
    requires Covers(a, |b|)
    ensures Run(result, trace) == JacobiRun(a, b, tolerance, iterations)
  {
    var n := |b|;
    var xOld := Zeros(n);
    trace := [];
    for k := 0 to iterations
      invariant |xOld| == n
      invariant JacobiRun(a, b, tolerance, iterations)
        == Run(JacobiFrom(a, b, xOld, tolerance, k, iterations).result,
               trace + JacobiFrom(a, b, xOld, tolerance, k, iterations).trace)
    {
      var singular, xNew := JacobiPass(a, b, xOld);
      if singular {
        return Failed(SingularDiagonal, k), trace;
      }
      JacobiFromPass(a, b, xOld, xNew, tolerance, k, iterations);
      var row := VectorRow(k + 1, xNew);
      ghost var before := trace;
      trace := trace + [row];
      if n == 0 {
        return Failed(EmptySystem, k + 1), trace;
      }
      if MaxChange(xNew, xOld) < tolerance {
        return Converged(xNew, k + 1), trace;
      }
      xOld := xNew;
      ConsAppend(before, row, JacobiFrom(a, b, xOld, tolerance, k + 1, iterations));
    }
    result := Failed(NonConvergence, iterations);
  }

  /** One pass of the Jacobi loop past the diagonal check, stated with the
      new iterate xNew it computes. */
  lemma JacobiFromPass(a: seq<seq<real>>, b: seq<real>, x: seq<real>, xNew: seq<real>, tolerance: real, k: nat, iterations: nat)
    requires Covers(a, |b|) && |x| == |b| && k < iterations && NonZeroDiagonal(a, |b|)
    requires xNew == JacobiSweep(a, b, x)
    ensures |b| == 0 ==>
      JacobiFrom(a, b, x, tolerance, k, iterations) == Run(Failed(EmptySystem, k + 1), [VectorRow(k + 1, xNew)])
    ensures |b| > 0 && MaxChange(xNew, x) < tolerance ==>
      JacobiFrom(a, b, x, tolerance, k, iterations) == Run(Converged(xNew, k + 1), [VectorRow(k + 1, xNew)])
    ensures |b| > 0 && MaxChange(xNew, x) >= tolerance ==>
      JacobiFrom(a, b, x, tolerance, k, iterations)
        == Cons(VectorRow(k + 1, xNew), JacobiFrom(a, b, xNew, tolerance, k + 1, iterations))
  {
  }

  /** Every row of a Jacobi trace from x0 is the sweep of the iterate before it. */
  predicate JacobiSteps(a: seq<seq<real>>, b: seq<real>, x0: seq<real>, t: seq<VectorRow>)
    requires Covers(a, |b|) && |x0| == |b|
  {
    && (forall k :: 0 <= k < |t| ==> |t[k].x| == |b|)
    && (|t| > 0 ==> NonZeroDiagonal(a, |b|))
    && (forall k :: 0 <= k < |t| ==> t[k].x == JacobiSweep(a, b, Before(t, x0, k)))
  }

  lemma {:induction false} JacobiFromSkeleton(a: seq<seq<real>>, b: seq<real>, x: seq<real>, tolerance: real, k: nat, iterations: nat)
    requires Covers(a, |b|) && |x| == |b| && k <= iterations
    ensures VectorSkeleton(JacobiFrom(a, b, x, tolerance, k, iterations), x, tolerance, k, iterations)
    decreases iterations - k, 1
  {
    if k < iterations && NonZeroDiagonal(a, |b|) {
      if |b| > 0 {
        JacobiPassSkeleton(a, b, x, tolerance, k, iterations);
      } else {
        JacobiFromPass(a, b, x, JacobiSweep(a, b, x), tolerance, k, iterations);
      }
    }
  }

  /** The skeleton of a run whose first pass records a row (the system is not
      empty and the diagonal has no zero). */
  lemma {:induction false} JacobiPassSkeleton(a: seq<seq<real>>, b: seq<real>, x: seq<real>, tolerance: real, k: nat, iterations: nat)
    requires Covers(a, |b|) && |x| == |b| && k < iterations && NonZeroDiagonal(a, |b|) && |b| > 0
    ensures VectorSkeleton(JacobiFrom(a, b, x, tolerance, k, iterations), x, tolerance, k, iterations)
    decreases iterations - k, 0
  {
    var xNew := JacobiSweep(a, b, x);
    JacobiFromPass(a, b, x, xNew, tolerance, k, iterations);
    if MaxChange(xNew, x) >= tolerance {
      JacobiFromSkeleton(a, b, xNew, tolerance, k + 1, iterations);
    }
    PassKeepsVectorSkeleton(JacobiFrom(a, b, x, tolerance, k, iterations), x, xNew,
                            JacobiFrom(a, b, xNew, tolerance, k + 1, iterations), tolerance, k, iterations);
  }

  /** The three ways the loop can fail: the cap, a zero on the diagonal (only
      before any row, the diagonal never changes) and an empty system (only
      after its one row). */
  lemma {:induction false} JacobiFromFailures(a: seq<seq<real>>, b: seq<real>, x: seq<real>, tolerance: real, k: nat, iterations: nat)
    requires Covers(a, |b|) && |x| == |b| && k <= iterations
    ensures var run := JacobiFrom(a, b, x, tolerance, k, iterations);
      && (run.result.Failed? ==>
            run.result.kind == NonConvergence || run.result.kind == SingularDiagonal || run.result.kind == EmptySystem)
      && (run.result.Failed? && run.result.kind == SingularDiagonal ==>
            run.trace == [] && run.result.passes == k < iterations && !NonZeroDiagonal(a, |b|))
      && (run.result.Failed? && run.result.kind == EmptySystem ==>
            |b| == 0 && |run.trace| == 1 && k < iterations && NonZeroDiagonal(a, |b|))
    decreases iterations - k
  {
    if k < iterations && NonZeroDiagonal(a, |b|) {
      var xNew := JacobiSweep(a, b, x);
      JacobiFromPass(a, b, x, xNew, tolerance, k, iterations);
      if |b| > 0 {
        JacobiFromFailures(a, b, xNew, tolerance, k + 1, iterations);
      }
    }
  }

  lemma {:induction false} JacobiFromSteps(a: seq<seq<real>>, b: seq<real>, x: seq<real>, tolerance: real, k: nat, iterations: nat)
    requires Covers(a, |b|) && |x| == |b|
    ensures JacobiSteps(a, b, x, JacobiFrom(a, b, x, tolerance, k, iterations).trace)
    decreases iterations - k
  {
    if k < iterations && NonZeroDiagonal(a, |b|) {
      var xNew := JacobiSweep(a, b, x);
      var row := VectorRow(k + 1, xNew);
      JacobiFromPass(a, b, x, xNew, tolerance, k, iterations);
      if |b| > 0 && MaxChange(xNew, x) >= tolerance {
        JacobiFromSteps(a, b, xNew, tolerance, k + 1, iterations);
        JacobiStepsCons(a, b, x, row, JacobiFrom(a, b, xNew, tolerance, k + 1, iterations).trace);
      } else {
        JacobiStepsCons(a, b, x, row, []);
      }
    }
  }

  /** A row holding the sweep of x, put in front of steps that start from it,
      gives steps that start from x. */
  lemma JacobiStepsCons(a: seq<seq<real>>, b: seq<real>, x: seq<real>, row: VectorRow, rest: seq<VectorRow>)
    requires Covers(a, |b|) && |x| == |b| && NonZeroDiagonal(a, |b|)
    requires row.x == JacobiSweep(a, b, x) && |row.x| == |b| && JacobiSteps(a, b, row.x, rest)
    ensures JacobiSteps(a, b, x, [row] + rest)
  {
    var t := [row] + rest;
    assert forall j :: 1 <= j < |t| ==> t[j] == rest[j - 1];
    assert forall j :: 1 <= j <= |t| ==> Before(t, x, j) == Before(rest, row.x, j - 1);
  }

  /** Jacobi's skeleton from the zero vector: each row is the sweep of the
      iterate before it, a converged result is the last iterate and differs
      from the iterate before it by less than the tolerance in every
      component. */
  lemma JacobiShape(a: seq<seq<real>>, b: seq<real>, tolerance: real, iterations: nat)
    requires Covers(a, |b|)
    ensures var run := JacobiRun(a, b, tolerance, iterations);
      && VectorSkeleton(run, Zeros(|b|), tolerance, 0, iterations)
      && JacobiSteps(a, b, Zeros(|b|), run.trace)
  {
    JacobiFromSkeleton(a, b, Zeros(|b|), tolerance, 0, iterations);
    JacobiFromSteps(a, b, Zeros(|b|), tolerance, 0, iterations);
  }

  /** Jacobi fails only in three ways: a zero on the diagonal stops the first
      pass before its row, exactly when the cap allows a pass; an empty system
      fails right after the first row, exactly when the cap allows a pass and
      the (empty) diagonal has no zero; otherwise the cap is used up. */
  lemma JacobiFailures(a: seq<seq<real>>, b: seq<real>, tolerance: real, iterations: nat)
    requires Covers(a, |b|)
    ensures var run := JacobiRun(a, b, tolerance, iterations);
      && (run.result.Failed? ==>
            run.result.kind == NonConvergence || run.result.kind == SingularDiagonal || run.result.kind == EmptySystem)
      && (run.result.Failed? && run.result.kind == SingularDiagonal <==> iterations > 0 && !NonZeroDiagonal(a, |b|))
      && (run.result.Failed? && run.result.kind == SingularDiagonal ==> run == Run(Failed(SingularDiagonal, 0), []))
      && (run.result.Failed? && run.result.kind == EmptySystem <==> iterations > 0 && |b| == 0)
      && (run.result.Failed? && run.result.kind == EmptySystem ==>
            run == Run(Failed(EmptySystem, 1), [VectorRow(1, [])]))
  {
    JacobiFromFailures(a, b, Zeros(|b|), tolerance, 0, iterations);
    if iterations > 0 && NonZeroDiagonal(a, |b|) {
      JacobiFromPass(a, b, Zeros(|b|), JacobiSweep(a, b, Zeros(|b|)), tolerance, 0, iterations);
    }
  }


  /** The iterates Jacobi leaves in place are exactly the solutions. */
  lemma JacobiFixedPointSolves(a: seq<seq<real>>, b: seq<real>, x: seq<real>)
    requires Covers(a, |b|) && |x| == |b| && NonZeroDiagonal(a, |b|)
    ensures JacobiSweep(a, b, x) == x <==> Solves(a, b, x)
  {
    JacobiSweepReadsOld(a, b, x);
    forall i | 0 <= i < |b|
      ensures SolveRow(a, b, x, i) == x[i] <==> Sum(a[i], x, 0, |b|) == b[i]
    {
      SolveRowKeepsIff(a, b, x, i);
    }
    if Solves(a, b, x) {
      assert JacobiSweep(a, b, x) == x;
    }
  }

  // ------------------------------------------------------------- Gauss-Seidel

  /** The vector after the in-place updates of rows 0 .. i-1 of one sweep that
      started from xOld: row r reads the current (new) entries below r and the
      entries of xOld above r. */
  function GaussSeidelPrefix(a: seq<seq<real>>, b: seq<real>, xOld: seq<real>, i: nat): (x: seq<real>)
    requires Covers(a, |b|) && |xOld| == |b| && i <= |b|
    requires forall j :: 0 <= j < i ==> a[j][j] != 0.0
    ensures |x| == |b|
    ensures forall j :: i <= j < |b| ==> x[j] == xOld[j]
  {
    if i == 0 then xOld
    else
      var r := i - 1;
      var x := GaussSeidelPrefix(a, b, xOld, r);
      x[r := RowUpdate(a, b, r, Sum(a[r], x, 0, r) + Sum(a[r], xOld, r + 1, |b|))]
  }

  /** One Gauss-Seidel sweep: all n rows updated in place, in order. */
  function GaussSeidelSweep(a: seq<seq<real>>, b: seq<real>, x: seq<real>): seq<real>
    requires Covers(a, |b|) && |x| == |b| && NonZeroDiagonal(a, |b|)
  {
    GaussSeidelPrefix(a, b, x, |b|)
  }

  /** An entry, once its row has been updated, is not touched again. */
  lemma {:induction false} GaussSeidelPrefixStable(a: seq<seq<real>>, b: seq<real>, xOld: seq<real>, j: nat, i: nat)
    requires Covers(a, |b|) && |xOld| == |b| && j < i <= |b|
    requires forall r :: 0 <= r < i ==> a[r][r] != 0.0
    ensures GaussSeidelPrefix(a, b, xOld, i)[j] == GaussSeidelPrefix(a, b, xOld, j + 1)[j]
    decreases i
  {
    if i > j + 1 {
      GaussSeidelPrefixStable(a, b, xOld, j, i - 1);
    }
  }

  /** Reading new entries below i and old entries above i is reading the
      current vector throughout, because the entries above i are still the old
      ones when row i runs: the in-place row update is the row update of the
      current vector. */
  lemma GaussSeidelReadsCurrent(a: seq<seq<real>>, b: seq<real>, xOld: seq<real>, i: nat)
    requires Covers(a, |b|) && |xOld| == |b| && i < |b|
    requires forall r :: 0 <= r <= i ==> a[r][r] != 0.0
    ensures var x := GaussSeidelPrefix(a, b, xOld, i);
      GaussSeidelPrefix(a, b, xOld, i + 1) == x[i := SolveRow(a, b, x, i)]
  {
    var x := GaussSeidelPrefix(a, b, xOld, i);
    SumFrame(a[i], x, xOld, i + 1, |b|);
    OffDiagonalSplit(a[i], x, i, |b|);
  }

  /** Before row i runs, the vector holds the final entries below i and the
      old entries from i on. */
  lemma GaussSeidelPrefixMixes(a: seq<seq<real>>, b: seq<real>, x: seq<real>, i: nat)
    requires Covers(a, |b|) && |x| == |b| && NonZeroDiagonal(a, |b|) && i <= |b|
    ensures GaussSeidelPrefix(a, b, x, i) == GaussSeidelSweep(a, b, x)[..i] + x[i..]
  {
    var y := GaussSeidelSweep(a, b, x);
    var p := GaussSeidelPrefix(a, b, x, i);
    forall j | 0 <= j < i
      ensures p[j] == y[j]
    {
      GaussSeidelPrefixStable(a, b, x, j, i);
      GaussSeidelPrefixStable(a, b, x, j, |b|);
    }
  }

  /** After a full sweep, row i's new entry is the row update applied to the
      vector that holds the new entries below i and the old ones from i on. */
  lemma GaussSeidelSweepReadsNewBelow(a: seq<seq<real>>, b: seq<real>, x: seq<real>, i: nat)
    requires Covers(a, |b|) && |x| == |b| && NonZeroDiagonal(a, |b|) && i < |b|
    ensures GaussSeidelSweep(a, b, x)[i] == SolveRow(a, b, GaussSeidelSweep(a, b, x)[..i] + x[i..], i)
  {
    GaussSeidelPrefixMixes(a, b, x, i);
    GaussSeidelReadsCurrent(a, b, x, i);
    GaussSeidelPrefixStable(a, b, x, i, |b|);
  }

  /** A solution is left in place by every partial sweep. */
  lemma {:induction false} GaussSeidelPrefixKeepsSolution(a: seq<seq<real>>, b: seq<real>, x: seq<real>, i: nat)
    requires Covers(a, |b|) && |x| == |b| && NonZeroDiagonal(a, |b|) && i <= |b|
    requires Solves(a, b, x)
    ensures GaussSeidelPrefix(a, b, x, i) == x
  {
    if i > 0 {
      GaussSeidelPrefixKeepsSolution(a, b, x, i - 1);
      GaussSeidelReadsCurrent(a, b, x, i - 1);
      SolveRowKeepsIff(a, b, x, i - 1);
    }
  }

  /** The iterates Gauss-Seidel leaves in place are exactly the solutions. */
  lemma GaussSeidelFixedPointSolves(a: seq<seq<real>>, b: seq<real>, x: seq<real>)
    requires Covers(a, |b|) && |x| == |b| && NonZeroDiagonal(a, |b|)
    ensures GaussSeidelSweep(a, b, x) == x <==> Solves(a, b, x)
  {
    if GaussSeidelSweep(a, b, x) == x {
      forall i | 0 <= i < |b|
        ensures Sum(a[i], x, 0, |b|) == b[i]
      {
        var p := GaussSeidelPrefix(a, b, x, i);
        forall j | 0 <= j < i
          ensures p[j] == x[j]
        {
          GaussSeidelPrefixStable(a, b, x, j, i);
          GaussSeidelPrefixStable(a, b, x, j, |b|);
        }
        assert p == x;
        GaussSeidelReadsCurrent(a, b, x, i);
        GaussSeidelPrefixStable(a, b, x, i, |b|);
        SolveRowKeepsIff(a, b, x, i);
      }
    } else if Solves(a, b, x) {
      GaussSeidelPrefixKeepsSolution(a, b, x, |b|);
    }
  }

  /** Jacobi and Gauss-Seidel leave the same vectors in place. */
  lemma SameFixedPoints(a: seq<seq<real>>, b: seq<real>, x: seq<real>)
    requires Covers(a, |b|) && |x| == |b| && NonZeroDiagonal(a, |b|)
    ensures JacobiSweep(a, b, x) == x <==> GaussSeidelSweep(a, b, x) == x
  {
    JacobiFixedPointSolves(a, b, x);
    GaussSeidelFixedPointSolves(a, b, x);
  }

  /** The Gauss-Seidel loop from 0-based pass k on, at iterate x. */
  function GaussSeidelFrom(a: seq<seq<real>>, b: seq<real>, x: seq<real>, tolerance: real, k: nat, iterations: nat)
    : Run<seq<real>, VectorRow>
    requires Covers(a, |b|) && |x| == |b|
    decreases iterations - k
  {
    if k >= iterations then Run(Failed(NonConvergence, iterations), [])
    else if !NonZeroDiagonal(a, |b|) then Run(Failed(SingularDiagonal, k), [])
    else
      var xNew := GaussSeidelSweep(a, b, x);
      var row := VectorRow(k + 1, xNew);
      if |b| == 0 then Run(Failed(EmptySystem, k + 1), [row])
      else if MaxChange(xNew, x) < tolerance then Run(Converged(xNew, k + 1), [row])
      else Cons(row, GaussSeidelFrom(a, b, xNew, tolerance, k + 1, iterations))
  }

  /** What one call of the Gauss-Seidel method computes. */
  function GaussSeidelRun(a: seq<seq<real>>, b: seq<real>, tolerance: real, iterations: nat): Run<seq<real>, VectorRow>
    requires Covers(a, |b|)
  {
    GaussSeidelFrom(a, b, Zeros(|b|), tolerance, 0, iterations)
  }

  /** The inner loop of one Gauss-Seidel pass: rows updated in place, in
      order, each reading the current vector below its row and the pass's
      starting vector above it; the first zero on the diagonal stops it. */
  method GaussSeidelPass(a: seq<seq<real>>, b: seq<real>, x: array<real>) returns (singular: bool)
    requires Covers(a, |b|) && x.Length == |b|
    modifies x
    ensures singular <==> !NonZeroDiagonal(a, |b|)
    ensures !singular ==> x[..] == GaussSeidelSweep(a, b, old(x[..]))
  {
    var n := |b|;
    var xOld := x[..];
    for i := 0 to n
      invariant forall j :: 0 <= j < i ==> a[j][j] != 0.0
      invariant x[..] == GaussSeidelPrefix(a, b, xOld, i)
    {
      var sumTerms := Sum(a[i], x[..], 0, i) + Sum(a[i], xOld, i + 1, n);
      if a[i][i] == 0.0 {
        return true;
      }
      x[i] := (b[i] - sumTerms) / a[i][i];
    }
    return false;
  }

  /** The starting vector of both methods: n zeros, in a fresh array. */
  method ZeroVector(n: nat) returns (x: array<real>)
    ensures fresh(x) && x.Length == n && x[..] == Zeros(n)
  {
    x := new real[n];
    forall i | 0 <= i < n {
      x[i] := 0.0;
    }
  }

  method GaussSeidel(a: seq<seq<real>>, b: seq<real>, tolerance: real := 0.000001, iterations: nat := 100)
    returns (result: Result<seq<real>>, trace: seq<VectorRow>)
    requires Covers(a, |b|)
    ensures Run(result, trace) == GaussSeidelRun(a, b, tolerance, iterations)
  {
    var n := |b|;
    var x := ZeroVector(n);
    var xOld := x[..];
    trace := [];
    for k := 0 to iterations
      invariant x.Length == n && |xOld| == n && x[..] == xOld
      invariant GaussSeidelRun(a, b, tolerance, iterations)
        == Run(GaussSeidelFrom(a, b, xOld, tolerance, k, iterations).result,
               trace + GaussSeidelFrom(a, b, xOld, tolerance, k, iterations).trace)
    {
      var singular := GaussSeidelPass(a, b, x);
      if singular {
        return Failed(SingularDiagonal, k), trace;
      }
      assert x[..] == GaussSeidelSweep(a, b, xOld);
      var xNew := x[..];
      GaussSeidelFromPass(a, b, xOld, xNew, tolerance, k, iterations);
      var row := VectorRow(k + 1, xNew);
      ghost var before := trace;
      trace := trace + [row];
      if n == 0 {
        return Failed(EmptySystem, k + 1), trace;
      }
      if MaxChange(xNew, xOld) < tolerance {
        return Converged(xNew, k + 1), trace;
      }
      xOld := xNew;
      ConsAppend(before, row, GaussSeidelFrom(a, b, xOld, tolerance, k + 1, iterations));
    }
    result := Failed(NonConvergence, iterations);
  }

  /** Every row of a Gauss-Seidel trace from x0 is the sweep of the iterate
      before it. */
  predicate GaussSeidelSteps(a: seq<seq<real>>, b: seq<real>, x0: seq<real>, t: seq<VectorRow>)
    requires Covers(a, |b|) && |x0| == |b|
  {
    && (forall k :: 0 <= k < |t| ==> |t[k].x| == |b|)
    && (|t| > 0 ==> NonZeroDiagonal(a, |b|))
    && (forall k :: 0 <= k < |t| ==> t[k].x == GaussSeidelSweep(a, b, Before(t, x0, k)))
  }

  lemma {:induction false} GaussSeidelFromSkeleton(a: seq<seq<real>>, b: seq<real>, x: seq<real>, tolerance: real, k: nat, iterations: nat)
    requires Covers(a, |b|) && |x| == |b| && k <= iterations
    ensures VectorSkeleton(GaussSeidelFrom(a, b, x, tolerance, k, iterations), x, tolerance, k, iterations)
    decreases iterations - k, 1
  {
    if k < iterations && NonZeroDiagonal(a, |b|) {
      if |b| > 0 {
        GaussSeidelPassSkeleton(a, b, x, tolerance, k, iterations);
      } else {
        GaussSeidelFromPass(a, b, x, GaussSeidelSweep(a, b, x), tolerance, k, iterations);
      }
    }
  }

  /** The skeleton of a run whose first pass records a row (the system is not
      empty and the diagonal has no zero). */
  lemma {:induction false} GaussSeidelPassSkeleton(a: seq<seq<real>>, b: seq<real>, x: seq<real>, tolerance: real, k: nat, iterations: nat)
    requires Covers(a, |b|) && |x| == |b| && k < iterations && NonZeroDiagonal(a, |b|) && |b| > 0
    ensures VectorSkeleton(GaussSeidelFrom(a, b, x, tolerance, k, iterations), x, tolerance, k, iterations)
    decreases iterations - k, 0
  {
    var xNew := GaussSeidelSweep(a, b, x);
    GaussSeidelFromPass(a, b, x, xNew, tolerance, k, iterations);
    if MaxChange(xNew, x) >= tolerance {
      GaussSeidelFromSkeleton(a, b, xNew, tolerance, k + 1, iterations);
    }
    PassKeepsVectorSkeleton(GaussSeidelFrom(a, b, x, tolerance, k, iterations), x, xNew,
                            GaussSeidelFrom(a, b, xNew, tolerance, k + 1, iterations), tolerance, k, iterations);
  }

  /** The three ways the loop can fail: the cap, a zero on the diagonal (only
      before any row, the diagonal never changes) and an empty system (only
      after its one row). */
  lemma {:induction false} GaussSeidelFromFailures(a: seq<seq<real>>, b: seq<real>, x: seq<real>, tolerance: real, k: nat, iterations: nat)
    requires Covers(a, |b|) && |x| == |b| && k <= iterations
    ensures var run := GaussSeidelFrom(a, b, x, tolerance, k, iterations);
      && (run.result.Failed? ==>
            run.result.kind == NonConvergence || run.result.kind == SingularDiagonal || run.result.kind == EmptySystem)
      && (run.result.Failed? && run.result.kind == SingularDiagonal ==>
            run.trace == [] && run.result.passes == k < iterations && !NonZeroDiagonal(a, |b|))
      && (run.result.Failed? && run.result.kind == EmptySystem ==>
            |b| == 0 && |run.trace| == 1 && k < iterations && NonZeroDiagonal(a, |b|))
    decreases iterations - k
  {
    if k < iterations && NonZeroDiagonal(a, |b|) {
      var xNew := GaussSeidelSweep(a, b, x);
      GaussSeidelFromPass(a, b, x, xNew, tolerance, k, iterations);
      if |b| > 0 {
        GaussSeidelFromFailures(a, b, xNew, tolerance, k + 1, iterations);
      }
    }
  }

  /** One pass of the GaussSeidel loop past the diagonal check, stated with the
      new iterate xNew it computes. */
  lemma GaussSeidelFromPass(a: seq<seq<real>>, b: seq<real>, x: seq<real>, xNew: seq<real>, tolerance: real, k: nat, iterations: nat)
    requires Covers(a, |b|) && |x| == |b| && k < iterations && NonZeroDiagonal(a, |b|)
    requires xNew == GaussSeidelSweep(a, b, x)
    ensures |b| == 0 ==>
      GaussSeidelFrom(a, b, x, tolerance, k, iterations) == Run(Failed(EmptySystem, k + 1), [VectorRow(k + 1, xNew)])
    ensures |b| > 0 && MaxChange(xNew, x) < tolerance ==>
      GaussSeidelFrom(a, b, x, tolerance, k, iterations) == Run(Converged(xNew, k + 1), [VectorRow(k + 1, xNew)])
    ensures |b| > 0 && MaxChange(xNew, x) >= tolerance ==>
      GaussSeidelFrom(a, b, x, tolerance, k, iterations)
        == Cons(VectorRow(k + 1, xNew), GaussSeidelFrom(a, b, xNew, tolerance, k + 1, iterations))
  {
  }

  lemma {:induction false} GaussSeidelFromSteps(a: seq<seq<real>>, b: seq<real>, x: seq<real>, tolerance: real, k: nat, iterations: nat)
    requires Covers(a, |b|) && |x| == |b|
    ensures GaussSeidelSteps(a, b, x, GaussSeidelFrom(a, b, x, tolerance, k, iterations).trace)
    decreases iterations - k
  {
    if k < iterations && NonZeroDiagonal(a, |b|) {
      var xNew := GaussSeidelSweep(a, b, x);
      var row := VectorRow(k + 1, xNew);
      GaussSeidelFromPass(a, b, x, xNew, tolerance, k, iterations);
      if |b| > 0 && MaxChange(xNew, x) >= tolerance {
        GaussSeidelFromSteps(a, b, xNew, tolerance, k + 1, iterations);
        GaussSeidelStepsCons(a, b, x, row, GaussSeidelFrom(a, b, xNew, tolerance, k + 1, iterations).trace);
      } else {
        GaussSeidelStepsCons(a, b, x, row, []);
      }
    }
  }

  /** A row holding the sweep of x, put in front of steps that start from it,
      gives steps that start from x. */
  lemma GaussSeidelStepsCons(a: seq<seq<real>>, b: seq<real>, x: seq<real>, row: VectorRow, rest: seq<VectorRow>)
    requires Covers(a, |b|) && |x| == |b| && NonZeroDiagonal(a, |b|)
    requires row.x == GaussSeidelSweep(a, b, x) && |row.x| == |b| && GaussSeidelSteps(a, b, row.x, rest)
    ensures GaussSeidelSteps(a, b, x, [row] + rest)
  {
    var t := [row] + rest;
    assert forall j :: 1 <= j < |t| ==> t[j] == rest[j - 1];
    assert forall j :: 1 <= j <= |t| ==> Before(t, x, j) == Before(rest, row.x, j - 1);
  }

  /** Gauss-Seidel's skeleton from the zero vector: each row is the in-place
      sweep of the iterate before it, a converged result is the last iterate
      and differs from the iterate before it by less than the tolerance in
      every component. */
  lemma GaussSeidelShape(a: seq<seq<real>>, b: seq<real>, tolerance: real, iterations: nat)
    requires Covers(a, |b|)
    ensures var run := GaussSeidelRun(a, b, tolerance, iterations);
      && VectorSkeleton(run, Zeros(|b|), tolerance, 0, iterations)
      && GaussSeidelSteps(a, b, Zeros(|b|), run.trace)
  {
    GaussSeidelFromSkeleton(a, b, Zeros(|b|), tolerance, 0, iterations);
    GaussSeidelFromSteps(a, b, Zeros(|b|), tolerance, 0, iterations);
  }

  /** Gauss-Seidel fails only in three ways: a zero on the diagonal stops the first
      pass before its row, exactly when the cap allows a pass; an empty system
      fails right after the first row, exactly when the cap allows a pass and
      the (empty) diagonal has no zero; otherwise the cap is used up. */
  lemma GaussSeidelFailures(a: seq<seq<real>>, b: seq<real>, tolerance: real, iterations: nat)
    requires Covers(a, |b|)
    ensures var run := GaussSeidelRun(a, b, tolerance, iterations);
      && (run.result.Failed? ==>
            run.result.kind == NonConvergence || run.result.kind == SingularDiagonal || run.result.kind == EmptySystem)
      && (run.result.Failed? && run.result.kind == SingularDiagonal <==> iterations > 0 && !NonZeroDiagonal(a, |b|))
      && (run.result.Failed? && run.result.kind == SingularDiagonal ==> run == Run(Failed(SingularDiagonal, 0), []))
      && (run.result.Failed? && run.result.kind == EmptySystem <==> iterations > 0 && |b| == 0)
      && (run.result.Failed? && run.result.kind == EmptySystem ==>
            run == Run(Failed(EmptySystem, 1), [VectorRow(1, [])]))
  {
    GaussSeidelFromFailures(a, b, Zeros(|b|), tolerance, 0, iterations);
    if iterations > 0 && NonZeroDiagonal(a, |b|) {
      GaussSeidelFromPass(a, b, Zeros(|b|), GaussSeidelSweep(a, b, Zeros(|b|)), tolerance, 0, iterations);
    }
  }

}
