/** The bracketing root-finders of neoutils/numerics.py: bisection and false
    position. Each keeps an interval [lower, upper] and, after every pass that
    did not stop, replaces one endpoint with the pass's estimate. */
module Bracketing {
  import opened Iteration

  /** The bracket update both methods share: keep [lower, p] when f(lower) and
      f(p) have strictly opposite signs, otherwise keep [p, upper]. */
  function Narrow(f: real -> real, lower: real, upper: real, p: real): (real, real) {
    if f(lower) * f(p) < 0.0 then (lower, p) else (p, upper)
  }

  /** a * b <= 0, stated without the product. */
  predicate SignChange(a: real, b: real) {
    (a <= 0.0 && 0.0 <= b) || (b <= 0.0 && 0.0 <= a)
  }

  /** a * b < 0, stated without the product. */
  predicate StrictSignChange(a: real, b: real) {
    (a < 0.0 && 0.0 < b) || (b < 0.0 && 0.0 < a)
  }

  lemma ProductSign(a: real, b: real)
    ensures a * b <= 0.0 <==> SignChange(a, b)
    ensures a * b < 0.0 <==> StrictSignChange(a, b)
  {
    if a < 0.0 && b < 0.0 {
      assert (-a) * (-b) > 0.0;
    }
  }

  /** A strict sign change survives the update unless f vanishes at p. */
  lemma NarrowKeepsSignChange(f: real -> real, lower: real, upper: real, p: real)
    requires StrictSignChange(f(lower), f(upper)) && f(p) != 0.0
    ensures StrictSignChange(f(Narrow(f, lower, upper, p).0), f(Narrow(f, lower, upper, p).1))
  {
    ProductSign(f(lower), f(p));
  }

  /** The new bracket lies inside the old one when p does. */
  lemma NarrowStaysInside(f: real -> real, lower: real, upper: real, p: real, lo0: real, up0: real)
    requires Between(lower, lo0, up0) && Between(upper, lo0, up0) && Between(p, lower, upper)
    ensures Between(Narrow(f, lower, upper, p).0, lo0, up0) && Between(Narrow(f, lower, upper, p).1, lo0, up0)
  {
  }

  /** w * 2^k, as k doublings (kept free of products of unknowns). */
  function Doubled(w: real, k: nat): real
    decreases k
  {
    if k == 0 then w else Doubled(2.0 * w, k - 1)
  }

  /** Doubling k times keeps the order of two numbers, both ways. */
  lemma {:induction false} DoubledMonotone(e: real, d: real, k: nat)
    ensures e < d <==> Doubled(e, k) < Doubled(d, k)
    decreases k
  {
    if k > 0 {
      DoubledMonotone(2.0 * e, 2.0 * d, k - 1);
    }
  }

  /** Doubling commutes with taking the absolute value. */
  lemma {:induction false} DoubledAbs(w: real, k: nat)
    ensures Doubled(Abs(w), k) == Abs(Doubled(w, k))
    decreases k
  {
    if k > 0 {
      DoubledAbs(2.0 * w, k - 1);
      assert Abs(2.0 * w) == 2.0 * Abs(w);
    }
  }

  // ---------------------------------------------------------------- bisection

  /** The bisection loop from 0-based pass i on, with bracket [lower, upper]. */
  function BisectionFrom(f: real -> real, lower: real, upper: real, tolerance: real, i: nat, iterations: nat)
    : Run<real, RootRow>
    decreases iterations - i
  {
    if i >= iterations then Run(Failed(NonConvergence, iterations), [])
    else
      var mid := (lower + upper) / 2.0;
      var fMid := f(mid);
      var error := Abs(upper - lower) / 2.0;
      var row := BisectionRow(i + 1, lower, upper, mid, fMid, error);
      if error < tolerance then Run(Converged(mid, i + 1), [row])
      else
        var next := Narrow(f, lower, upper, mid);
        Cons(row, BisectionFrom(f, next.0, next.1, tolerance, i + 1, iterations))
  }

  /** What one call of the bisection method computes: the sign check, then the loop. */
  function BisectionRun(f: real -> real, lower: real, upper: real, tolerance: real, iterations: nat)
    : Run<real, RootRow>
  {
    if f(lower) * f(upper) > 0.0 then Run(Failed(SignCondition, 0), [])
    else BisectionFrom(f, lower, upper, tolerance, 0, iterations)
  }

  method Bisection(f: real -> real, lower: real, upper: real, tolerance: real := 0.000001, iterations: nat := 50)
    returns (result: Result<real>, trace: seq<RootRow>)
    ensures Run(result, trace) == BisectionRun(f, lower, upper, tolerance, iterations)
  {
    if f(lower) * f(upper) > 0.0 {
      return Failed(SignCondition, 0), [];
    }
    var lo, up := lower, upper;
    trace := [];
    for i := 0 to iterations
      invariant BisectionRun(f, lower, upper, tolerance, iterations)
        == Run(BisectionFrom(f, lo, up, tolerance, i, iterations).result,
               trace + BisectionFrom(f, lo, up, tolerance, i, iterations).trace)
    {
      var mid := (lo + up) / 2.0;
      var fMid := f(mid);
      var error := Abs(up - lo) / 2.0;
      var row := BisectionRow(i + 1, lo, up, mid, fMid, error);
      ghost var before := trace;
      trace := trace + [row];
      BisectionFromPass(f, lo, up, mid, fMid, error, tolerance, i, iterations);
      if error < tolerance {
        return Converged(mid, i + 1), trace;
      }
      if f(lo) * fMid < 0.0 {
        up := mid;
      } else {
        lo := mid;
      }
      ConsAppend(before, row, BisectionFrom(f, lo, up, tolerance, i + 1, iterations));
    }
    result := Failed(NonConvergence, iterations);
  }

  /** One pass of the bisection loop, stated with the values it computes:
      the row it records, and either the result or the bracket it hands on. */
  lemma BisectionFromPass(f: real -> real, lower: real, upper: real, mid: real, fMid: real, error: real,
                          tolerance: real, i: nat, iterations: nat)
    requires i < iterations && mid == (lower + upper) / 2.0 && fMid == f(mid)
    requires error == Abs(upper - lower) / 2.0
    ensures error < tolerance ==>
      BisectionFrom(f, lower, upper, tolerance, i, iterations)
        == Run(Converged(mid, i + 1), [BisectionRow(i + 1, lower, upper, mid, fMid, error)])
    ensures error >= tolerance ==>
      var next := if f(lower) * fMid < 0.0 then (lower, mid) else (mid, upper);
      BisectionFrom(f, lower, upper, tolerance, i, iterations)
        == Cons(BisectionRow(i + 1, lower, upper, mid, fMid, error),
                BisectionFrom(f, next.0, next.1, tolerance, i + 1, iterations))
  {
  }

  /** The rows of a bisection trace that starts from [lower, upper]: each row
      holds its bracket, the midpoint, f at the midpoint and the half-width,
      and the next row's bracket is the update of this row's bracket at its
      midpoint. */
  predicate BisectionSteps(f: real -> real, lower: real, upper: real, t: seq<RootRow>) {
    && (forall k :: 0 <= k < |t| ==>
          && t[k].BisectionRow?
          && t[k].mid == (t[k].lower + t[k].upper) / 2.0
          && t[k].fMid == f(t[k].mid)
          && t[k].error == Abs(t[k].upper - t[k].lower) / 2.0)
    && (|t| > 0 ==> t[0].lower == lower && t[0].upper == upper)
    && (forall k :: 0 <= k < |t| - 1 ==>
          (t[k + 1].lower, t[k + 1].upper) == Narrow(f, t[k].lower, t[k].upper, t[k].mid))
  }

  /** A bisection pass put in front of the rows of the passes after it. */
  lemma StepsCons(f: real -> real, lower: real, upper: real, row: RootRow, rest: seq<RootRow>)
    requires row.BisectionRow? && row.lower == lower && row.upper == upper
    requires row.mid == (lower + upper) / 2.0 && row.fMid == f(row.mid)
    requires row.error == Abs(upper - lower) / 2.0
    requires BisectionSteps(f, Narrow(f, lower, upper, row.mid).0, Narrow(f, lower, upper, row.mid).1, rest)
    ensures BisectionSteps(f, lower, upper, [row] + rest)
  {
    var t := [row] + rest;
    assert forall k :: 1 <= k < |t| ==> t[k] == rest[k - 1];
  }

  lemma {:induction false} BisectionFromSkeleton(f: real -> real, lower: real, upper: real, tolerance: real, i: nat, iterations: nat)
    requires i <= iterations
    ensures var run := BisectionFrom(f, lower, upper, tolerance, i, iterations);
      && Skeleton(run, tolerance, i, iterations)
      && (run.result.Failed? ==> run.result.kind == NonConvergence)
    decreases iterations - i
  {
    if i < iterations {
      var mid := (lower + upper) / 2.0;
      var fMid := f(mid);
      var error := Abs(upper - lower) / 2.0;
      var row := BisectionRow(i + 1, lower, upper, mid, fMid, error);
      BisectionFromPass(f, lower, upper, mid, fMid, error, tolerance, i, iterations);
      var next := if f(lower) * fMid < 0.0 then (lower, mid) else (mid, upper);
      if error >= tolerance {
        BisectionFromSkeleton(f, next.0, next.1, tolerance, i + 1, iterations);
      }
      PassKeepsSkeleton(BisectionFrom(f, lower, upper, tolerance, i, iterations), row,
                        BisectionFrom(f, next.0, next.1, tolerance, i + 1, iterations), mid, tolerance, i, iterations);
    }
  }

  /** A converged bisection run returns the midpoint of its last row. */
  lemma {:induction false} BisectionFromLast(f: real -> real, lower: real, upper: real, tolerance: real, i: nat, iterations: nat)
    ensures var run := BisectionFrom(f, lower, upper, tolerance, i, iterations);
      run.result.Converged? ==>
        && run.trace != []
        && run.trace[|run.trace| - 1].BisectionRow?
        && run.result.value == run.trace[|run.trace| - 1].mid
    decreases iterations - i
  {
    if i < iterations {
      var mid := (lower + upper) / 2.0;
      var error := Abs(upper - lower) / 2.0;
      var row := BisectionRow(i + 1, lower, upper, mid, f(mid), error);
      if error >= tolerance {
        var next := Narrow(f, lower, upper, mid);
        var rest := BisectionFrom(f, next.0, next.1, tolerance, i + 1, iterations);
        assert BisectionFrom(f, lower, upper, tolerance, i, iterations) == Cons(row, rest);
        BisectionFromLast(f, next.0, next.1, tolerance, i + 1, iterations);
        if rest.trace != [] {
          LastOfCons(row, rest.trace);
        }
      }
    }
  }

  lemma {:induction false} BisectionFromSteps(f: real -> real, lower: real, upper: real, tolerance: real, i: nat, iterations: nat)
    ensures BisectionSteps(f, lower, upper, BisectionFrom(f, lower, upper, tolerance, i, iterations).trace)
    decreases iterations - i
  {
    if i < iterations {
      var mid := (lower + upper) / 2.0;
      var error := Abs(upper - lower) / 2.0;
      var row := BisectionRow(i + 1, lower, upper, mid, f(mid), error);
      if error >= tolerance {
        var next := Narrow(f, lower, upper, mid);
        var rest := BisectionFrom(f, next.0, next.1, tolerance, i + 1, iterations);
        assert BisectionFrom(f, lower, upper, tolerance, i, iterations) == Cons(row, rest);
        BisectionFromSteps(f, next.0, next.1, tolerance, i + 1, iterations);
        StepsCons(f, lower, upper, row, rest.trace);
      }
    }
  }

  /** Bisection's loop skeleton: at most `iterations` passes, one row per pass,
      a converged result is the midpoint of the first pass whose half-width is
      below the tolerance, and the only failures are the sign check, which
      fires before any pass exactly when f(lower) * f(upper) > 0, and the
      exhausted cap. */
  lemma BisectionSkeleton(f: real -> real, lower: real, upper: real, tolerance: real, iterations: nat)
    ensures var run := BisectionRun(f, lower, upper, tolerance, iterations);
      && Skeleton(run, tolerance, 0, iterations)
      && BisectionSteps(f, lower, upper, run.trace)
      && (run.result.Converged? ==> run.result.value == run.trace[|run.trace| - 1].mid)
      && (run.result.Failed? ==> run.result.kind == SignCondition || run.result.kind == NonConvergence)
      && (run.result.Failed? && run.result.kind == SignCondition <==> f(lower) * f(upper) > 0.0)
      && (f(lower) * f(upper) > 0.0 ==> run.result.passes == 0 && run.trace == [])
  {
    BisectionFromSkeleton(f, lower, upper, tolerance, 0, iterations);
    BisectionFromLast(f, lower, upper, tolerance, 0, iterations);
    BisectionFromSteps(f, lower, upper, tolerance, 0, iterations);
  }

  /** The width of a bracket. */
  function Width(lower: real, upper: real): real {
    upper - lower
  }

  /** Either half of a bracket split at its midpoint is half as wide. */
  lemma NarrowHalves(f: real -> real, lower: real, upper: real, mid: real)
    requires mid == (lower + upper) / 2.0
    ensures Width(Narrow(f, lower, upper, mid).0, Narrow(f, lower, upper, mid).1) == Width(lower, upper) / 2.0
  {
  }

  /** Row k's bracket, doubled k times, is as wide as the original one. */
  lemma {:induction false} StepsHalve(f: real -> real, lower: real, upper: real, t: seq<RootRow>, k: nat)
    requires BisectionSteps(f, lower, upper, t) && k < |t|
    ensures Doubled(Width(t[k].lower, t[k].upper), k) == upper - lower
  {
    if k > 0 {
      StepsHalve(f, lower, upper, t, k - 1);
      var r := t[k - 1];
      assert (t[k].lower, t[k].upper) == Narrow(f, r.lower, r.upper, r.mid);
      NarrowHalves(f, r.lower, r.upper, r.mid);
    }
  }

  /** Every row's bracket lies between the original endpoints. */
  lemma {:induction false} StepsInside(f: real -> real, lower: real, upper: real, t: seq<RootRow>, k: nat)
    requires BisectionSteps(f, lower, upper, t) && k < |t|
    ensures Between(t[k].lower, lower, upper) && Between(t[k].upper, lower, upper)
  {
    if k > 0 {
      StepsInside(f, lower, upper, t, k - 1);
      var r := t[k - 1];
      NarrowStaysInside(f, r.lower, r.upper, r.mid, lower, upper);
    }
  }

  /** Row k of a bisection trace from [lower, upper] is 2^k times narrower than
      the original bracket, its error is 2^(k+1) times smaller than the
      original width, and its bracket and midpoint lie inside the original
      bracket. */
  predicate HalvedRow(row: RootRow, k: nat, lower: real, upper: real)
    requires row.BisectionRow?
  {
    && Doubled(Width(row.lower, row.upper), k) == upper - lower
    && Doubled(row.error, k + 1) == Abs(upper - lower)
    && Between(row.lower, lower, upper)
    && Between(row.upper, lower, upper)
    && Between(row.mid, lower, upper)
  }

  lemma RowHalves(f: real -> real, lower: real, upper: real, t: seq<RootRow>, k: nat)
    requires BisectionSteps(f, lower, upper, t) && k < |t|
    ensures HalvedRow(t[k], k, lower, upper)
  {
    StepsHalve(f, lower, upper, t, k);
    StepsInside(f, lower, upper, t, k);
    var r := t[k];
    assert 2.0 * r.error == Abs(Width(r.lower, r.upper));
    DoubledAbs(Width(r.lower, r.upper), k);
  }

  /** Width halves every pass: at 0-based row k the bracket is (upper - lower) / 2^k
      wide and the recorded error is |upper - lower| / 2^(k+1); every bracket and
      midpoint, and so a converged result, lies between the original endpoints. */
  lemma BisectionHalves(f: real -> real, lower: real, upper: real, tolerance: real, iterations: nat)
    ensures var run := BisectionRun(f, lower, upper, tolerance, iterations);
      && BisectionSteps(f, lower, upper, run.trace)
      && (forall k :: 0 <= k < |run.trace| ==> HalvedRow(run.trace[k], k, lower, upper))
      && (run.result.Converged? ==> Between(run.result.value, lower, upper))
  {
    var run := BisectionRun(f, lower, upper, tolerance, iterations);
    var t := run.trace;
    BisectionFromSteps(f, lower, upper, tolerance, 0, iterations);
    forall k | 0 <= k < |t|
      ensures HalvedRow(t[k], k, lower, upper)
    {
      RowHalves(f, lower, upper, t, k);
    }
    if run.result.Converged? {
      BisectionFromSkeleton(f, lower, upper, tolerance, 0, iterations);
      BisectionFromLast(f, lower, upper, tolerance, 0, iterations);
      assert HalvedRow(t[|t| - 1], |t| - 1, lower, upper);
    }
  }

  /** Bisection always stops in time, whatever f is: once tolerance * 2^k
      exceeds |upper - lower| for some k within the cap, the call converges
      in at most k passes. */
  lemma BisectionConvergesWithin(f: real -> real, lower: real, upper: real, tolerance: real, iterations: nat, k: nat)
    requires f(lower) * f(upper) <= 0.0
    requires 1 <= k <= iterations && Abs(upper - lower) < Doubled(tolerance, k)
    ensures BisectionRun(f, lower, upper, tolerance, iterations).result.Converged?
    ensures BisectionRun(f, lower, upper, tolerance, iterations).result.passes <= k
  {
    var run := BisectionFrom(f, lower, upper, tolerance, 0, iterations);
    assert run == BisectionRun(f, lower, upper, tolerance, iterations);
    BisectionFromSkeleton(f, lower, upper, tolerance, 0, iterations);
    var t := run.trace;
    if |t| >= k {
      BisectionFromSteps(f, lower, upper, tolerance, 0, iterations);
      RowHalves(f, lower, upper, t, k - 1);
      DoubledMonotone(t[k - 1].error, tolerance, k);
    }
  }

  lemma {:induction false} StepsKeepSignChange(f: real -> real, lower: real, upper: real, t: seq<RootRow>, k: nat)
    requires BisectionSteps(f, lower, upper, t) && k < |t|
    requires StrictSignChange(f(lower), f(upper))
    requires forall j :: 0 <= j < k ==> t[j].fMid != 0.0
    ensures StrictSignChange(f(t[k].lower), f(t[k].upper))
  {
    if k > 0 {
      StepsKeepSignChange(f, lower, upper, t, k - 1);
      NarrowKeepsSignChange(f, t[k - 1].lower, t[k - 1].upper, t[k - 1].mid);
    }
  }

  /** The sign change is preserved: starting from f(lower) * f(upper) < 0, every
      row's bracket still has a strict sign change as long as no earlier
      midpoint hit f == 0 exactly. */
  lemma BisectionKeepsSignChange(f: real -> real, lower: real, upper: real, tolerance: real, iterations: nat)
    requires f(lower) * f(upper) < 0.0
    ensures var t := BisectionRun(f, lower, upper, tolerance, iterations).trace;
      BisectionSteps(f, lower, upper, t) &&
      forall k :: 0 <= k < |t| && (forall j :: 0 <= j < k ==> t[j].fMid != 0.0) ==>
        StrictSignChange(f(t[k].lower), f(t[k].upper))
  {
    BisectionSkeleton(f, lower, upper, tolerance, iterations);
    ProductSign(f(lower), f(upper));
    var t := BisectionRun(f, lower, upper, tolerance, iterations).trace;
    forall k | 0 <= k < |t| && (forall j :: 0 <= j < k ==> t[j].fMid != 0.0)
      ensures StrictSignChange(f(t[k].lower), f(t[k].upper))
    {
      StepsKeepSignChange(f, lower, upper, t, k);
    }
  }

  // ----------------------------------------------------------- false position

  /** The false-position loop from 0-based pass i on, with bracket [lower, upper]. */
  function FalsePositionFrom(f: real -> real, lower: real, upper: real, tolerance: real, i: nat, iterations: nat)
    : Run<real, RootRow>
    decreases iterations - i
  {
    if i >= iterations then Run(Failed(NonConvergence, iterations), [])
    else
      var fLower, fUpper := f(lower), f(upper);
      if fUpper - fLower == 0.0 then Run(Failed(ZeroDenominator, i), [])
      else
        var root := ChordRoot(lower, upper, fLower, fUpper);
        var fRoot := f(root);
        var error := Abs(fRoot);
        var row := FalsePositionRow(i + 1, lower, upper, root, fRoot, error);
        if error < tolerance then Run(Converged(root, i + 1), [row])
        else
          var next := Narrow(f, lower, upper, root);
          Cons(row, FalsePositionFrom(f, next.0, next.1, tolerance, i + 1, iterations))
  }

  /** What one call of the false-position method computes (it has no sign check). */
  function FalsePositionRun(f: real -> real, lower: real, upper: real, tolerance: real, iterations: nat)
    : Run<real, RootRow>
  {
    FalsePositionFrom(f, lower, upper, tolerance, 0, iterations)
  }

  method FalsePosition(f: real -> real, lower: real, upper: real, tolerance: real := 0.000001, iterations: nat := 50)
    returns (result: Result<real>, trace: seq<RootRow>)
    ensures Run(result, trace) == FalsePositionRun(f, lower, upper, tolerance, iterations)
  {
    var lo, up := lower, upper;
    trace := [];
    for i := 0 to iterations
      invariant FalsePositionRun(f, lower, upper, tolerance, iterations)
        == Run(FalsePositionFrom(f, lo, up, tolerance, i, iterations).result,
               trace + FalsePositionFrom(f, lo, up, tolerance, i, iterations).trace)
    {
      var fLower := f(lo);
      var fUpper := f(up);
      if fUpper - fLower == 0.0 {
        return Failed(ZeroDenominator, i), trace;
      }
      var root := ChordRoot(lo, up, fLower, fUpper);
      var fRoot := f(root);
      var error := Abs(fRoot);
      var row := FalsePositionRow(i + 1, lo, up, root, fRoot, error);
      ghost var before := trace;
      trace := trace + [row];
      FalsePositionFromPass(f, lo, up, fLower, fUpper, root, fRoot, error, tolerance, i, iterations);
      if error < tolerance {
        return Converged(root, i + 1), trace;
      }
      if fLower * fRoot < 0.0 {
        up := root;
      } else {
        lo := root;
      }
      ConsAppend(before, row, FalsePositionFrom(f, lo, up, tolerance, i + 1, iterations));
    }
    result := Failed(NonConvergence, iterations);
  }

  /** One pass of the false-position loop, stated with the values the pass
      computes: the row it records, and either the result or the bracket it
      hands on. */
  lemma FalsePositionFromPass(f: real -> real, lower: real, upper: real, fLower: real, fUpper: real,
                              root: real, fRoot: real, error: real, tolerance: real, i: nat, iterations: nat)
    requires i < iterations && fLower == f(lower) && fUpper == f(upper) && fUpper - fLower != 0.0
    requires root == ChordRoot(lower, upper, fLower, fUpper) && fRoot == f(root) && error == Abs(fRoot)
    ensures error < tolerance ==>
      FalsePositionFrom(f, lower, upper, tolerance, i, iterations)
        == Run(Converged(root, i + 1), [FalsePositionRow(i + 1, lower, upper, root, fRoot, error)])
    ensures error >= tolerance ==>
      var next := if fLower * fRoot < 0.0 then (lower, root) else (root, upper);
      FalsePositionFrom(f, lower, upper, tolerance, i, iterations)
        == Cons(FalsePositionRow(i + 1, lower, upper, root, fRoot, error),
                FalsePositionFrom(f, next.0, next.1, tolerance, i + 1, iterations))
  {
  }

  /** The false-position estimate: the zero of the chord through
      (lower, fLower) and (upper, fUpper), which lies between lower and upper
      when the two values differ strictly in sign. */
  function ChordRoot(lower: real, upper: real, fLower: real, fUpper: real): (root: real)
    requires fUpper - fLower != 0.0
    ensures OnChordZero(root, lower, fLower, upper, fUpper)
    ensures StrictSignChange(fLower, fUpper) ==> Between(root, lower, upper)
  {
    var d := fUpper - fLower;
    var root := (lower * fUpper - upper * fLower) / d;
    assert root * d == lower * fUpper - upper * fLower;
    assert (root - lower) * d == -fLower * (upper - lower);
    assert (upper - root) * d == fUpper * (upper - lower);
    ProductSigns(root - lower, d);
    ProductSigns(upper - root, d);
    ProductSigns(-fLower, upper - lower);
    ProductSigns(fUpper, upper - lower);
    root
  }

  lemma ProductSigns(x: real, y: real)
    ensures x > 0.0 && y > 0.0 ==> x * y > 0.0
    ensures x < 0.0 && y < 0.0 ==> x * y > 0.0
    ensures x > 0.0 && y < 0.0 ==> x * y < 0.0
    ensures x < 0.0 && y > 0.0 ==> x * y < 0.0
    ensures x == 0.0 || y == 0.0 ==> x * y == 0.0
  {
    if x < 0.0 && y < 0.0 {
      assert (-x) * (-y) > 0.0;
    }
    if x > 0.0 && y < 0.0 {
      assert x * (-y) > 0.0;
    }
    if x < 0.0 && y > 0.0 {
      assert (-x) * y > 0.0;
    }
  }

  /** The rows of a false-position trace that starts from [lower, upper]: each
      row holds its bracket, f differs at its two ends, the estimate is the zero
      of their chord, the error is |f(root)|, and the next row's bracket is the
      update of this row's bracket at its estimate. */
  predicate FalsePositionSteps(f: real -> real, lower: real, upper: real, t: seq<RootRow>) {
    && (forall k :: 0 <= k < |t| ==>
          && t[k].FalsePositionRow?
          && f(t[k].upper) != f(t[k].lower)
          && t[k].root == ChordRoot(t[k].lower, t[k].upper, f(t[k].lower), f(t[k].upper))
          && t[k].fRoot == f(t[k].root)
          && t[k].error == Abs(t[k].fRoot))
    && (|t| > 0 ==> t[0].lower == lower && t[0].upper == upper)
    && (forall k :: 0 <= k < |t| - 1 ==>
          (t[k + 1].lower, t[k + 1].upper) == Narrow(f, t[k].lower, t[k].upper, t[k].root))
  }

  lemma {:induction false} FalsePositionFromSkeleton(f: real -> real, lower: real, upper: real, tolerance: real, i: nat, iterations: nat)
    requires i <= iterations
    ensures var run := FalsePositionFrom(f, lower, upper, tolerance, i, iterations);
      && Skeleton(run, tolerance, i, iterations)
      && (run.result.Failed? ==> run.result.kind == ZeroDenominator || run.result.kind == NonConvergence)
    decreases iterations - i
  {
    var fLower, fUpper := f(lower), f(upper);
    if i < iterations && fUpper - fLower != 0.0 {
      var root := ChordRoot(lower, upper, fLower, fUpper);
      var fRoot := f(root);
      var error := Abs(fRoot);
      var row := FalsePositionRow(i + 1, lower, upper, root, fRoot, error);
      FalsePositionFromPass(f, lower, upper, fLower, fUpper, root, fRoot, error, tolerance, i, iterations);
      var next := if fLower * fRoot < 0.0 then (lower, root) else (root, upper);
      if error >= tolerance {
        FalsePositionFromSkeleton(f, next.0, next.1, tolerance, i + 1, iterations);
      }
      PassKeepsSkeleton(FalsePositionFrom(f, lower, upper, tolerance, i, iterations), row,
                        FalsePositionFrom(f, next.0, next.1, tolerance, i + 1, iterations), root, tolerance, i, iterations);
    }
  }

  /** A converged false-position run returns the estimate of its last row. */
  lemma {:induction false} FalsePositionFromLast(f: real -> real, lower: real, upper: real, tolerance: real, i: nat, iterations: nat)
    ensures var run := FalsePositionFrom(f, lower, upper, tolerance, i, iterations);
      run.result.Converged? ==>
        && run.trace != []
        && run.trace[|run.trace| - 1].FalsePositionRow?
        && run.result.value == run.trace[|run.trace| - 1].root
    decreases iterations - i
  {
    var fLower, fUpper := f(lower), f(upper);
    if i < iterations && fUpper - fLower != 0.0 {
      var root := ChordRoot(lower, upper, fLower, fUpper);
      var fRoot := f(root);
      var error := Abs(fRoot);
      FalsePositionFromPass(f, lower, upper, fLower, fUpper, root, fRoot, error, tolerance, i, iterations);
      if error >= tolerance {
        var next := if fLower * fRoot < 0.0 then (lower, root) else (root, upper);
        var rest := FalsePositionFrom(f, next.0, next.1, tolerance, i + 1, iterations);
        FalsePositionFromLast(f, next.0, next.1, tolerance, i + 1, iterations);
        if rest.trace != [] {
          LastOfCons(FalsePositionRow(i + 1, lower, upper, root, fRoot, error), rest.trace);
        }
      }
    }
  }

  lemma {:induction false} FalsePositionFromSteps(f: real -> real, lower: real, upper: real, tolerance: real, i: nat, iterations: nat)
    ensures FalsePositionSteps(f, lower, upper, FalsePositionFrom(f, lower, upper, tolerance, i, iterations).trace)
    decreases iterations - i
  {
    if i < iterations && f(upper) - f(lower) != 0.0 {
      var root := ChordRoot(lower, upper, f(lower), f(upper));
      var error := Abs(f(root));
      var row := FalsePositionRow(i + 1, lower, upper, root, f(root), error);
      if error >= tolerance {
        var next := Narrow(f, lower, upper, root);
        var rest := FalsePositionFrom(f, next.0, next.1, tolerance, i + 1, iterations);
        assert FalsePositionFrom(f, lower, upper, tolerance, i, iterations) == Cons(row, rest);
        FalsePositionFromSteps(f, next.0, next.1, tolerance, i + 1, iterations);
        var t := Cons(row, rest).trace;
        assert forall k :: 1 <= k < |t| ==> t[k] == rest.trace[k - 1];
      }
    }
  }

  /** False position's loop skeleton: at most `iterations` passes, one row per
      pass, a converged result is the estimate of the first pass whose residual
      |f(root)| is below the tolerance, and the only failures are a vanishing
      denominator f(upper) - f(lower), which stops a pass before its row, and
      the exhausted cap. */
  lemma FalsePositionSkeleton(f: real -> real, lower: real, upper: real, tolerance: real, iterations: nat)
    ensures var run := FalsePositionRun(f, lower, upper, tolerance, iterations);
      && Skeleton(run, tolerance, 0, iterations)
      && FalsePositionSteps(f, lower, upper, run.trace)
      && (run.result.Converged? ==> run.result.value == run.trace[|run.trace| - 1].root)
      && (run.result.Converged? ==> Abs(f(run.result.value)) < tolerance)
      && (run.result.Failed? ==> run.result.kind == ZeroDenominator || run.result.kind == NonConvergence)
  {
    FalsePositionFromSkeleton(f, lower, upper, tolerance, 0, iterations);
    FalsePositionFromLast(f, lower, upper, tolerance, 0, iterations);
    FalsePositionFromSteps(f, lower, upper, tolerance, 0, iterations);
  }

  /** f takes equal values at the two ends of the bracket that follows row r. */
  predicate FlatAfter(f: real -> real, r: RootRow) {
    r.FalsePositionRow? &&
    var next := Narrow(f, r.lower, r.upper, r.root);
    f(next.1) == f(next.0)
  }

  /** The denominator failure fires exactly at a pass whose bracket has equal
      values of f at its ends: the starting bracket when no row was recorded,
      else the update of the last recorded row's bracket. */
  lemma {:induction false} FalsePositionFromZeroDenominator(f: real -> real, lower: real, upper: real, tolerance: real, i: nat, iterations: nat)
    requires i <= iterations
    ensures var run := FalsePositionFrom(f, lower, upper, tolerance, i, iterations);
      var t := run.trace;
      && (run.result == Failed(ZeroDenominator, i + |t|) ==>
            i + |t| < iterations &&
            (t == [] ==> f(upper) == f(lower)) &&
            (t != [] ==> FlatAfter(f, t[|t| - 1])))
      && (i < iterations && f(upper) == f(lower) ==> run == Run(Failed(ZeroDenominator, i), []))
    decreases iterations - i
  {
    if i < iterations && f(upper) - f(lower) != 0.0 {
      var root := ChordRoot(lower, upper, f(lower), f(upper));
      var error := Abs(f(root));
      var row := FalsePositionRow(i + 1, lower, upper, root, f(root), error);
      if error >= tolerance {
        var next := Narrow(f, lower, upper, root);
        var rest := FalsePositionFrom(f, next.0, next.1, tolerance, i + 1, iterations);
        assert FalsePositionFrom(f, lower, upper, tolerance, i, iterations) == Cons(row, rest);
        FalsePositionFromZeroDenominator(f, next.0, next.1, tolerance, i + 1, iterations);
        FalsePositionFromSkeleton(f, next.0, next.1, tolerance, i + 1, iterations);
      }
    }
  }

  lemma FalsePositionZeroDenominator(f: real -> real, lower: real, upper: real, tolerance: real, iterations: nat)
    ensures var run := FalsePositionRun(f, lower, upper, tolerance, iterations);
      var t := run.trace;
      && (run.result.Failed? && run.result.kind == ZeroDenominator ==>
            |t| < iterations &&
            (t == [] ==> f(upper) == f(lower)) &&
            (t != [] ==> FlatAfter(f, t[|t| - 1])))
      && (iterations > 0 && f(upper) == f(lower) ==> run == Run(Failed(ZeroDenominator, 0), []))
  {
    FalsePositionFromSkeleton(f, lower, upper, tolerance, 0, iterations);
    FalsePositionFromZeroDenominator(f, lower, upper, tolerance, 0, iterations);
  }

  /** Starting from a strict sign change with a positive tolerance, every
      bracket keeps a strict sign change and stays inside the original one,
      every estimate lies in its bracket, and the denominator never vanishes. */
  lemma {:induction false} FalsePositionFromKeepsBracket(f: real -> real, lower: real, upper: real, tolerance: real, i: nat, iterations: nat, lower0: real, upper0: real)
    requires StrictSignChange(f(lower), f(upper)) && tolerance > 0.0
    requires Between(lower, lower0, upper0) && Between(upper, lower0, upper0)
    ensures var run := FalsePositionFrom(f, lower, upper, tolerance, i, iterations);
      && !(run.result.Failed? && run.result.kind == ZeroDenominator)
      && BracketedRows(f, run.trace, lower0, upper0)
    decreases iterations - i
  {
    if i < iterations {
      var fLower, fUpper := f(lower), f(upper);
      ProductSign(fLower, fUpper);
      assert fUpper - fLower != 0.0;
      var root := ChordRoot(lower, upper, fLower, fUpper);
      var fRoot := f(root);
      var error := Abs(fRoot);
      var row := FalsePositionRow(i + 1, lower, upper, root, fRoot, error);
      FalsePositionFromPass(f, lower, upper, fLower, fUpper, root, fRoot, error, tolerance, i, iterations);
      if error >= tolerance {
        var next := if fLower * fRoot < 0.0 then (lower, root) else (root, upper);
        assert next == Narrow(f, lower, upper, root);
        var rest := FalsePositionFrom(f, next.0, next.1, tolerance, i + 1, iterations);
        NarrowKeepsSignChange(f, lower, upper, root);
        NarrowStaysInside(f, lower, upper, root, lower0, upper0);
        FalsePositionFromKeepsBracket(f, next.0, next.1, tolerance, i + 1, iterations, lower0, upper0);
        var t := Cons(row, rest).trace;
        assert forall k :: 1 <= k < |t| ==> t[k] == rest.trace[k - 1];
      }
    }
  }

  /** Every row is a false-position row whose bracket has a strict sign change
      and lies inside [lower0, upper0], with its estimate inside the bracket. */
  predicate BracketedRows(f: real -> real, t: seq<RootRow>, lower0: real, upper0: real) {
    forall k :: 0 <= k < |t| ==>
      && t[k].FalsePositionRow?
      && StrictSignChange(f(t[k].lower), f(t[k].upper))
      && Between(t[k].lower, lower0, upper0)
      && Between(t[k].upper, lower0, upper0)
      && Between(t[k].root, t[k].lower, t[k].upper)
  }

  lemma FalsePositionKeepsBracket(f: real -> real, lower: real, upper: real, tolerance: real, iterations: nat)
    requires f(lower) * f(upper) < 0.0 && tolerance > 0.0
    ensures var run := FalsePositionRun(f, lower, upper, tolerance, iterations);
      && !(run.result.Failed? && run.result.kind == ZeroDenominator)
      && BracketedRows(f, run.trace, lower, upper)
  {
    ProductSign(f(lower), f(upper));
    FalsePositionFromKeepsBracket(f, lower, upper, tolerance, 0, iterations, lower, upper);
  }

  // ------------------------------------------- bisection: a root at the midpoint

  /** As written, the update moves `lower` to the midpoint whenever
      f(lower) * f(mid) is not strictly negative, so a root that the midpoint
      (or `lower` itself) hits exactly is dropped from the bracket. For f(x) = x
      on [-1, 1] with tolerance 1/4 the first midpoint is the root 0, yet the
      call returns 7/8, from the bracket [3/4, 1] on which f never changes sign. */
  lemma BisectionLosesRootAtMidpoint()
    ensures BisectionRun(x => x, -1.0, 1.0, 0.25, 10) == Run(Converged(0.875, 4), [
      BisectionRow(1, -1.0, 1.0, 0.0, 0.0, 1.0), BisectionRow(2, 0.0, 1.0, 0.5, 0.5, 0.5),
      BisectionRow(3, 0.5, 1.0, 0.75, 0.75, 0.25), BisectionRow(4, 0.75, 1.0, 0.875, 0.875, 0.125)])
  {
    var f: real -> real := x => x;
    var r1 := BisectionRow(1, -1.0, 1.0, 0.0, 0.0, 1.0);
    var r2 := BisectionRow(2, 0.0, 1.0, 0.5, 0.5, 0.5);
    var r3 := BisectionRow(3, 0.5, 1.0, 0.75, 0.75, 0.25);
    var r4 := BisectionRow(4, 0.75, 1.0, 0.875, 0.875, 0.125);
    var done := Converged(0.875, 4);
    assert BisectionFrom(f, 0.75, 1.0, 0.25, 3, 10) == Run(done, [r4]);
    assert BisectionFrom(f, 0.5, 1.0, 0.25, 2, 10) == Run(done, [r3, r4]) by {
      assert Narrow(f, 0.5, 1.0, 0.75) == (0.75, 1.0);
      assert [r3] + [r4] == [r3, r4];
    }
    assert BisectionFrom(f, 0.0, 1.0, 0.25, 1, 10) == Run(done, [r2, r3, r4]) by {
      assert Narrow(f, 0.0, 1.0, 0.5) == (0.5, 1.0);
      assert [r2] + [r3, r4] == [r2, r3, r4];
    }
    assert BisectionFrom(f, -1.0, 1.0, 0.25, 0, 10) == Run(done, [r1, r2, r3, r4]) by {
      assert Narrow(f, -1.0, 1.0, 0.0) == (0.0, 1.0);
      assert [r1] + [r2, r3, r4] == [r1, r2, r3, r4];
    }
    assert BisectionRun(f, -1.0, 1.0, 0.25, 10) == BisectionFrom(f, -1.0, 1.0, 0.25, 0, 10) by {
      ProductSign(f(-1.0), f(1.0));
    }
  }

  /** The update that keeps a root met exactly: keep [lower, p] when f(lower) * f(p) <= 0. */
  function NarrowInclusive(f: real -> real, lower: real, upper: real, p: real): (real, real) {
    if f(lower) * f(p) <= 0.0 then (lower, p) else (p, upper)
  }

  lemma NarrowInclusiveKeepsSignChange(f: real -> real, lower: real, upper: real, p: real)
    requires SignChange(f(lower), f(upper))
    ensures SignChange(f(NarrowInclusive(f, lower, upper, p).0), f(NarrowInclusive(f, lower, upper, p).1))
  {
    ProductSign(f(lower), f(p));
  }

  /** Bisection with the inclusive update: the same passes, rows and stopping test. */
  function CorrectedBisectionFrom(f: real -> real, lower: real, upper: real, tolerance: real, i: nat, iterations: nat)
    : Run<real, RootRow>
    decreases iterations - i
  {
    if i >= iterations then Run(Failed(NonConvergence, iterations), [])
    else
      var mid := (lower + upper) / 2.0;
      var error := Abs(upper - lower) / 2.0;
      var row := BisectionRow(i + 1, lower, upper, mid, f(mid), error);
      if error < tolerance then Run(Converged(mid, i + 1), [row])
      else
        var next := NarrowInclusive(f, lower, upper, mid);
        Cons(row, CorrectedBisectionFrom(f, next.0, next.1, tolerance, i + 1, iterations))
  }

  function CorrectedBisectionRun(f: real -> real, lower: real, upper: real, tolerance: real, iterations: nat)
    : Run<real, RootRow>
  {
    if f(lower) * f(upper) > 0.0 then Run(Failed(SignCondition, 0), [])
    else CorrectedBisectionFrom(f, lower, upper, tolerance, 0, iterations)
  }

  /** Every row is a bisection row whose bracket has f(lower) * f(upper) <= 0,
      with its midpoint and half-width. */
  predicate SignChangeRows(f: real -> real, t: seq<RootRow>) {
    forall k :: 0 <= k < |t| ==>
      && t[k].BisectionRow?
      && SignChange(f(t[k].lower), f(t[k].upper))
      && t[k].mid == (t[k].lower + t[k].upper) / 2.0
      && t[k].error == Abs(t[k].upper - t[k].lower) / 2.0
  }

  lemma SignChangeRowsCons(f: real -> real, row: RootRow, rest: seq<RootRow>)
    requires row.BisectionRow? && SignChange(f(row.lower), f(row.upper))
    requires row.mid == (row.lower + row.upper) / 2.0 && row.error == Abs(row.upper - row.lower) / 2.0
    requires SignChangeRows(f, rest)
    ensures SignChangeRows(f, [row] + rest)
  {
    var t := [row] + rest;
    assert forall k :: 1 <= k < |t| ==> t[k] == rest[k - 1];
  }

  /** Every bracket of the corrected method keeps f(lower) * f(upper) <= 0. */
  lemma {:induction false} CorrectedBisectionFromKeepsSign(f: real -> real, lower: real, upper: real, tolerance: real, i: nat, iterations: nat)
    requires SignChange(f(lower), f(upper))
    ensures SignChangeRows(f, CorrectedBisectionFrom(f, lower, upper, tolerance, i, iterations).trace)
    decreases iterations - i
  {
    if i < iterations {
      var mid := (lower + upper) / 2.0;
      var error := Abs(upper - lower) / 2.0;
      if error >= tolerance {
        var row := BisectionRow(i + 1, lower, upper, mid, f(mid), error);
        var next := NarrowInclusive(f, lower, upper, mid);
        var rest := CorrectedBisectionFrom(f, next.0, next.1, tolerance, i + 1, iterations);
        assert CorrectedBisectionFrom(f, lower, upper, tolerance, i, iterations) == Cons(row, rest);
        NarrowInclusiveKeepsSignChange(f, lower, upper, mid);
        CorrectedBisectionFromKeepsSign(f, next.0, next.1, tolerance, i + 1, iterations);
        SignChangeRowsCons(f, row, rest.trace);
      }
    }
  }

  /** A converged corrected run returns the midpoint of its last row, whose
      error is below the tolerance; it never fails the sign check. */
  lemma {:induction false} CorrectedBisectionFromResult(f: real -> real, lower: real, upper: real, tolerance: real, i: nat, iterations: nat)
    ensures var run := CorrectedBisectionFrom(f, lower, upper, tolerance, i, iterations);
      && (run.result.Failed? ==> run.result.kind == NonConvergence)
      && (run.result.Converged? ==>
            && |run.trace| > 0
            && run.trace[|run.trace| - 1].BisectionRow?
            && run.result.value == run.trace[|run.trace| - 1].mid
            && run.trace[|run.trace| - 1].error < tolerance)
    decreases iterations - i
  {
    if i < iterations {
      var mid := (lower + upper) / 2.0;
      var error := Abs(upper - lower) / 2.0;
      if error >= tolerance {
        var row := BisectionRow(i + 1, lower, upper, mid, f(mid), error);
        var next := NarrowInclusive(f, lower, upper, mid);
        var rest := CorrectedBisectionFrom(f, next.0, next.1, tolerance, i + 1, iterations);
        assert CorrectedBisectionFrom(f, lower, upper, tolerance, i, iterations) == Cons(row, rest);
        CorrectedBisectionFromResult(f, next.0, next.1, tolerance, i + 1, iterations);
        if rest.trace != [] {
          LastOfCons(row, rest.trace);
        }
      }
    }
  }

  lemma CorrectedBisectionKeepsRoot(f: real -> real, lower: real, upper: real, tolerance: real, iterations: nat)
    ensures var run := CorrectedBisectionRun(f, lower, upper, tolerance, iterations);
      && (run.result.Failed? && run.result.kind == SignCondition <==> f(lower) * f(upper) > 0.0)
      && (run.result.Converged? ==>
            exists l: real, u: real :: SignChange(f(l), f(u)) && Between(run.result.value, l, u)
              && Abs(run.result.value - l) < tolerance && Abs(u - run.result.value) < tolerance)
  {
    var run := CorrectedBisectionRun(f, lower, upper, tolerance, iterations);
    ProductSign(f(lower), f(upper));
    if f(lower) * f(upper) <= 0.0 {
      CorrectedBisectionFromKeepsSign(f, lower, upper, tolerance, 0, iterations);
      CorrectedBisectionFromResult(f, lower, upper, tolerance, 0, iterations);
      if run.result.Converged? {
        var r := run.trace[|run.trace| - 1];
        assert Between(run.result.value, r.lower, r.upper);
      }
    }
  }

  /** On the input that defeats the method as written, the corrected update
      keeps the root 0 and returns -1/8, within the tolerance of it. */
  lemma CorrectedBisectionKeepsRootAtMidpoint()
    ensures CorrectedBisectionRun(x => x, -1.0, 1.0, 0.25, 10) == Run(Converged(-0.125, 4), [
      BisectionRow(1, -1.0, 1.0, 0.0, 0.0, 1.0), BisectionRow(2, -1.0, 0.0, -0.5, -0.5, 0.5),
      BisectionRow(3, -0.5, 0.0, -0.25, -0.25, 0.25), BisectionRow(4, -0.25, 0.0, -0.125, -0.125, 0.125)])
  {
    var f: real -> real := x => x;
    var r1 := BisectionRow(1, -1.0, 1.0, 0.0, 0.0, 1.0);
    var r2 := BisectionRow(2, -1.0, 0.0, -0.5, -0.5, 0.5);
    var r3 := BisectionRow(3, -0.5, 0.0, -0.25, -0.25, 0.25);
    var r4 := BisectionRow(4, -0.25, 0.0, -0.125, -0.125, 0.125);
    var done := Converged(-0.125, 4);
    assert CorrectedBisectionFrom(f, -0.25, 0.0, 0.25, 3, 10) == Run(done, [r4]);
    assert CorrectedBisectionFrom(f, -0.5, 0.0, 0.25, 2, 10) == Run(done, [r3, r4]) by {
      assert NarrowInclusive(f, -0.5, 0.0, -0.25) == (-0.25, 0.0);
      assert [r3] + [r4] == [r3, r4];
    }
    assert CorrectedBisectionFrom(f, -1.0, 0.0, 0.25, 1, 10) == Run(done, [r2, r3, r4]) by {
      assert NarrowInclusive(f, -1.0, 0.0, -0.5) == (-0.5, 0.0);
      assert [r2] + [r3, r4] == [r2, r3, r4];
    }
    assert CorrectedBisectionFrom(f, -1.0, 1.0, 0.25, 0, 10) == Run(done, [r1, r2, r3, r4]) by {
      assert NarrowInclusive(f, -1.0, 1.0, 0.0) == (-1.0, 0.0);
      assert [r1] + [r2, r3, r4] == [r1, r2, r3, r4];
    }
    assert CorrectedBisectionRun(f, -1.0, 1.0, 0.25, 10) == CorrectedBisectionFrom(f, -1.0, 1.0, 0.25, 0, 10) by {
      ProductSign(f(-1.0), f(1.0));
    }
  }
}
