/** Fixed-point endpoint fit of packed columns: a line through the first and last
    value, lowered so that every residual is a small non-negative number. */
module LinearFit {
  import opened Bits
  import opened Options

  datatype Plan = Plan(intercept: int, scaledSlope: int, bits: nat)

  const INT64_MAX: int := 0x7FFF_FFFF_FFFF_FFFF
  const INT64_MIN: int := -0x8000_0000_0000_0000
  const MAX_BITS: nat := 57

  predicate InInt64(x: int) { INT64_MIN <= x <= INT64_MAX }

  /** Values a plan can be made for. */
  predicate Plannable(values: seq<nat>) {
    values != [] && forall i | 0 <= i < |values| :: values[i] <= INT64_MAX
  }

  /** The line at `rank`; the shift of the product rounds down. */
  function Predict(intercept: int, scaledSlope: int, rank: nat, shift: nat): (v: int) {
    intercept + rank * scaledSlope / Pow2(shift)
  }

  /** The prediction is the line rounded down, for rising and falling lines. */
  lemma PredictRoundsDown(intercept: int, scaledSlope: int, rank: nat, shift: nat)
    ensures
      var p, s := Predict(intercept, scaledSlope, rank, shift), Pow2(shift);
      p * s <= intercept * s + rank * scaledSlope < (p + 1) * s
  {
    var x, s := rank * scaledSlope, Pow2(shift);
    FloorSpec(x, s);
    Distribute(s, intercept, x / s);
    Distribute(s, intercept + x / s, 1);
  }

  function Residual(plan: Plan, rank: nat, value: nat, shift: nat): (r: int) {
    value - Predict(plan.intercept, plan.scaledSlope, rank, shift)
  }

  // ----- the slope between the endpoints

  /** Integer division rounding toward zero. */
  function TruncDiv(a: int, d: int): (q: int)
    requires d > 0
  {
    if a >= 0 then a / d else -(-a / d)
  }

  function EndpointSlope(first: int, last: int, count: nat, shift: nat): (r: Option<int>)
    requires count > 0
  {
    if count == 1 then Some(0)
    else
      var denominator := count - 1;
      var numerator := (last - first) * Pow2(shift);
      var rounded := if numerator >= 0 then numerator + denominator / 2 else numerator - denominator / 2;
      var scaledSlope := TruncDiv(rounded, denominator);
      if InInt64(scaledSlope) then Some(scaledSlope) else None
  }

  lemma TruncDivSpec(a: int, d: int)
    requires d > 0
    ensures
      var q := TruncDiv(a, d);
      && (a >= 0 ==> q * d <= a < q * d + d)
      && (a <= 0 ==> q * d - d < a <= q * d)
  {
    var x := if a >= 0 then a else -a;
    assert x == x / d * d + x % d;
    assert -(x / d) * d == -(x / d * d);
  }

  /** The slope is the nearest fixed-point number to the true one. */
  lemma SlopeIsNearest(first: int, last: int, count: nat, shift: nat)
    requires count > 1 && EndpointSlope(first, last, count, shift).Some?
    ensures
      var slope, n := EndpointSlope(first, last, count, shift).value, count - 1;
      -n <= 2 * (slope * n - (last - first) * Pow2(shift)) <= n
  {
    hide Pow2, InInt64, TruncDiv;
    var n, numerator := count - 1, (last - first) * Pow2(shift);
    var rounded := if numerator >= 0 then numerator + n / 2 else numerator - n / 2;
    TruncDivSpec(rounded, n);
  }

  /** Fixed-point drift from the true line at rank i is at most i / 2^(shift + 1). */
  lemma DriftBound(first: int, last: int, count: nat, shift: nat, i: nat)
    requires count > 1 && EndpointSlope(first, last, count, shift).Some?
    ensures
      var slope, n := EndpointSlope(first, last, count, shift).value, count - 1;
      -(i * n) <= 2 * (i * slope * n - i * (last - first) * Pow2(shift)) <= i * n
  {
    hide Pow2, EndpointSlope;
    var slope, n := EndpointSlope(first, last, count, shift).value, count - 1;
    SlopeIsNearest(first, last, count, shift);
    var e := slope * n - (last - first) * Pow2(shift);
    assert i * slope * n - i * (last - first) * Pow2(shift) == i * e;
    ScaleBounds(i, e, n);
  }

  lemma ScaleBounds(i: nat, e: int, n: int)
    requires -n <= 2 * e <= n
    ensures -(i * n) <= 2 * (i * e) <= i * n
  {
  }

  // ----- plans

  function FinishPlan(intercept: int, scaledSlope: int, minError: int, maxError: int): (r: Option<Plan>) {
    var lowered := intercept + minError;
    var range := maxError - minError;
    if !InInt64(lowered) || range < 0 || range > 0xFFFF_FFFF_FFFF_FFFF then None
    else
      var bits := BitWidth(range);
      if bits > MAX_BITS then None else Some(Plan(lowered, scaledSlope, bits))
  }

  function ErrorAt(values: seq<nat>, intercept: int, slope: int, shift: nat, i: nat): (e: int)
    requires i < |values|
  {
    values[i] - Predict(intercept, slope, i, shift)
  }

  /** lo and hi are the least and greatest error of the line over the values. */
  ghost predicate ErrorRange(values: seq<nat>, intercept: int, slope: int, shift: nat, lo: int, hi: int) {
    && (forall i | 0 <= i < |values| :: lo <= ErrorAt(values, intercept, slope, shift, i) <= hi)
    && (exists i | 0 <= i < |values| :: ErrorAt(values, intercept, slope, shift, i) == lo)
    && (exists i | 0 <= i < |values| :: ErrorAt(values, intercept, slope, shift, i) == hi)
  }

  /** The source asserts that every prediction is an int64. */
  ghost predicate Predictable(count: nat, intercept: int, slope: int, shift: nat) {
    forall i: nat | i < count :: InInt64(Predict(intercept, slope, i, shift))
  }

  method Evaluate(values: seq<nat>, intercept: int, slope: int, shift: nat)
    returns (plan: Option<Plan>, ghost lo: int, ghost hi: int)
    requires Plannable(values) && Predictable(|values|, intercept, slope, shift)
    ensures ErrorRange(values, intercept, slope, shift, lo, hi)
    ensures plan == FinishPlan(intercept, slope, lo, hi)
    ensures plan.Some? ==>
      forall i | 0 <= i < |values| :: 0 <= Residual(plan.value, i, values[i], shift) < Pow2(plan.value.bits)
  {
    hide Predict, FinishPlan, Residual, Pow2;
    var minError, maxError := 0x7FFF_FFFF_FFFF_FFFF_FFFF_FFFF_FFFF_FFFF, -0x8000_0000_0000_0000_0000_0000_0000_0000;
    for i := 0 to |values|
      invariant i == 0 ==> minError == 0x7FFF_FFFF_FFFF_FFFF_FFFF_FFFF_FFFF_FFFF
      invariant i == 0 ==> maxError == -0x8000_0000_0000_0000_0000_0000_0000_0000
      invariant forall k | 0 <= k < i :: minError <= ErrorAt(values, intercept, slope, shift, k) <= maxError
      invariant i > 0 ==> exists k | 0 <= k < i :: ErrorAt(values, intercept, slope, shift, k) == minError
      invariant i > 0 ==> exists k | 0 <= k < i :: ErrorAt(values, intercept, slope, shift, k) == maxError
    {
      var error := ErrorAt(values, intercept, slope, shift, i);
      assert InInt64(Predict(intercept, slope, i, shift));
      minError := if error < minError then error else minError;
      maxError := if error > maxError then error else maxError;
    }
    lo, hi := minError, maxError;
    plan := FinishPlan(intercept, slope, minError, maxError);
    if plan.Some? { ResidualsFitExactly(values, intercept, slope, shift, lo, hi, plan.value); }
  }

  /** A plan exists exactly when the lowered intercept is an int64 and the error
      spread needs at most 57 bits. */
  lemma PlanExistsIff(intercept: int, slope: int, lo: int, hi: int)
    requires lo <= hi
    ensures FinishPlan(intercept, slope, lo, hi).Some?
       <==> InInt64(intercept + lo) && hi - lo < 0x200_0000_0000_0000
  {
    hide Pow2, BitWidth, InInt64;
    Pow57();
    WidthIsLeast(hi - lo, MAX_BITS);
  }

  lemma Pow57()
    ensures Pow2(57) == 0x200_0000_0000_0000
  {
    assert Pow2(8) == 0x100;
    assert Pow2(16) == 0x1_0000;
    assert Pow2(24) == 0x100_0000;
    assert Pow2(32) == 0x1_0000_0000;
    assert Pow2(40) == 0x100_0000_0000;
    assert Pow2(48) == 0x1_0000_0000_0000;
  }

  /** Lowering the intercept lowers every prediction by the same amount. */
  lemma LoweredResidual(values: seq<nat>, intercept: int, slope: int, shift: nat, lo: int, bits: nat, i: nat)
    requires i < |values|
    ensures Residual(Plan(intercept + lo, slope, bits), i, values[i], shift)
         == ErrorAt(values, intercept, slope, shift, i) - lo
  {
  }

  /** Every residual of a plan fits its width, one is zero, and one needs the
      whole width. */
  lemma ResidualsFitExactly(values: seq<nat>, intercept: int, slope: int, shift: nat, lo: int, hi: int, plan: Plan)
    requires ErrorRange(values, intercept, slope, shift, lo, hi)
    requires FinishPlan(intercept, slope, lo, hi) == Some(plan)
    ensures forall i | 0 <= i < |values| :: 0 <= Residual(plan, i, values[i], shift) < Pow2(plan.bits)
    ensures exists i | 0 <= i < |values| :: Residual(plan, i, values[i], shift) == 0
    ensures exists i | 0 <= i < |values| ::
      Residual(plan, i, values[i], shift) >= 0 && BitWidth(Residual(plan, i, values[i], shift)) == plan.bits
  {
    hide Pow2, BitWidth, Residual, ErrorAt;
    forall i | 0 <= i < |values|
      ensures Residual(plan, i, values[i], shift) == ErrorAt(values, intercept, slope, shift, i) - lo
    {
      LoweredResidual(values, intercept, slope, shift, lo, plan.bits, i);
    }
    WidthIsLeast(hi - lo, plan.bits);
    var i :| 0 <= i < |values| && ErrorAt(values, intercept, slope, shift, i) == lo;
    assert Residual(plan, i, values[i], shift) == 0;
    var k :| 0 <= k < |values| && ErrorAt(values, intercept, slope, shift, k) == hi;
    assert Residual(plan, k, values[k], shift) == hi - lo;
  }

  // ----- the two plans of a block

  /** A constant line predicts the first value everywhere. */
  lemma ConstantPredictable(values: seq<nat>, shift: nat)
    requires Plannable(values)
    ensures Predictable(|values|, values[0], 0, shift)
    ensures forall i | 0 <= i < |values| :: ErrorAt(values, values[0], 0, shift, i) == values[i] as int - values[0]
  {
    hide Pow2;
    forall i: nat | i < |values| ensures Predict(values[0], 0, i, shift) == values[0] {
      assert i * 0 == 0;
    }
  }

  lemma CancelFactor(n: int, a: int, b: int)
    requires n > 0 && n * a < n * b
    ensures a < b
  {
  }

  /** Predictions of an endpoint line overshoot neither endpoint by a whole unit. */
  lemma EndpointStep(d: int, n: int, s: int, slope: int, i: nat)
    requires n > 0 && s > 0 && i <= n && i < 2 * s
    requires -n <= 2 * (slope * n - d * s) <= n
    ensures
      var lo, hi := if d < 0 then d else 0, if d < 0 then 0 else d;
      lo * s - s < i * slope < hi * s + s
  {
    var e, x := slope * n - d * s, d * s;
    var lo, hi := if d < 0 then d else 0, if d < 0 then 0 else d;
    ScaleBounds(i, e, n);
    ScaledError(i, slope, n, x);
    SignOfProduct(d, s);
    Between(x, i, n, lo * s, hi * s);
    Halves(i, n, s);
    WithinUnit(n, i * e, i * x, i * n, i * slope, lo * s, hi * s, s);
  }

  lemma WithinUnit(n: int, ie: int, ix: int, inn: int, p: int, lo: int, hi: int, s: int)
    requires n > 0 && n * p == ie + ix && n * lo <= ix <= n * hi && -inn <= 2 * ie <= inn && inn < 2 * (n * s)
    ensures lo - s < p < hi + s
  {
    Distribute(n, hi, s);
    Distribute(n, lo, -s);
    CancelFactor(n, p, hi + s);
    CancelFactor(n, lo - s, p);
  }

  lemma ScaledError(i: int, slope: int, n: int, x: int)
    ensures n * (i * slope) == i * (slope * n - x) + i * x
  {
  }

  lemma SignOfProduct(d: int, s: int)
    requires s > 0
    ensures d < 0 ==> d * s < 0
    ensures d >= 0 ==> d * s >= 0
  {
  }

  lemma Halves(i: int, n: int, s: int)
    requires n > 0 && i < 2 * s
    ensures i * n < 2 * (n * s)
  {
    assert (2 * s - i) * n > 0;
  }

  lemma Distribute(n: int, a: int, b: int)
    ensures n * (a + b) == n * a + n * b
  {
  }

  /** A fraction i / n of x lies between 0 and x. */
  lemma Between(x: int, i: nat, n: int, lo: int, hi: int)
    requires i <= n && lo <= 0 <= hi && lo <= x <= hi && (x == lo || x == hi)
    ensures n * lo <= i * x <= n * hi
  {
  }

  lemma FloorBetween(x: int, s: int, lo: int, hi: int)
    requires s > 0 && lo * s - s < x < hi * s + s
    ensures lo - 1 <= x / s <= hi
  {
    var q := x / s;
    FloorSpec(x, s);
    if q > hi { MulGap(hi, q, s); }
    if q < lo - 1 {
      MulGap(q + 1, lo, s);
      Distribute(s, q, 1);
    }
  }

  lemma FloorSpec(x: int, s: int)
    requires s > 0
    ensures x / s * s <= x < x / s * s + s
  {
    assert x == x / s * s + x % s;
  }

  lemma MulGap(a: int, b: int, s: int)
    requires a < b && s > 0
    ensures a * s + s <= b * s
  {
    var c := b - a - 1;
    assert b * s == a * s + s + c * s by { assert b == a + 1 + c; }
    assert c * s >= 0;
  }

  /** For up to 2^(shift + 1) values the endpoint line stays an int64. */
  lemma EndpointPredictable(first: nat, last: nat, count: nat, shift: nat)
    requires 0 < count <= 2 * Pow2(shift) && first <= INT64_MAX && last <= INT64_MAX
    requires EndpointSlope(first, last, count, shift).Some?
    ensures Predictable(count, first, EndpointSlope(first, last, count, shift).value, shift)
  {
    var slope, d, s := EndpointSlope(first, last, count, shift).value, last - first, Pow2(shift);
    forall i: nat | i < count ensures InInt64(Predict(first, slope, i, shift)) {
      if count == 1 {
        assert i * 0 == 0;
      } else {
        SlopeIsNearest(first, last, count, shift);
        hide Pow2, EndpointSlope;
        EndpointStep(d, count - 1, s, slope, i);
        FloorBetween(i * slope, s, if d < 0 then d else 0, if d < 0 then 0 else d);
      }
    }
  }

  /** The endpoint line of every pair of endpoints stays an int64. */
  ghost predicate AlwaysPredictable(count: nat, shift: nat)
    requires count > 0
  {
    forall first: nat, last: nat | first <= INT64_MAX && last <= INT64_MAX ::
      var slope := EndpointSlope(first, last, count, shift);
      slope.Some? ==> Predictable(count, first, slope.value, shift)
  }

  /** With count - 1 steps for a rise of count - 2, rounding can lift the slope to one
      per step, and the line passes the last value by one. */
  lemma EndpointOvershoots(count: nat, shift: nat)
    requires 2 * Pow2(shift) < count <= INT64_MAX + 2
    ensures
      var first, s := INT64_MAX - (count - 2), Pow2(shift);
      && EndpointSlope(first, INT64_MAX, count, shift) == Some(s)
      && Predict(first, s, count - 1, shift) == INT64_MAX + 1
  {
    hide Pow2, TruncDiv;
    var n, s := count - 1, Pow2(shift);
    RoundedUp(n, s);
    ExactQuotient(n, s);
  }

  lemma RoundedUp(n: nat, s: nat)
    requires s > 0 && 2 * s <= n
    ensures (n - 1) * s >= 0 && TruncDiv((n - 1) * s + n / 2, n) == s
  {
    Distribute(s, n - 1, 1);
    var x := (n - 1) * s + n / 2;
    assert x == s * n + (n / 2 - s);
    QuotientIs(x, n, s);
  }

  lemma QuotientIs(x: int, n: int, q: int)
    requires n > 0 && q * n <= x < q * n + n
    ensures x / n == q
  {
    var r := x / n;
    FloorSpec(x, n);
    if r < q { MulGap(r, q, n); }
    if r > q { MulGap(q, r, n); }
  }

  /** 2^(shift + 1) values are exactly as many as every endpoint line can span. No
      array of 64-bit values has more than INT64_MAX + 2 of them. */
  lemma EndpointLimit(count: nat, shift: nat)
    requires 0 < count <= INT64_MAX + 2
    ensures AlwaysPredictable(count, shift) <==> count <= 2 * Pow2(shift)
  {
    hide Pow2, EndpointSlope, Predictable;
    if count <= 2 * Pow2(shift) {
      forall first: nat, last: nat | first <= INT64_MAX && last <= INT64_MAX && EndpointSlope(first, last, count, shift).Some?
        ensures Predictable(count, first, EndpointSlope(first, last, count, shift).value, shift)
      {
        EndpointPredictable(first, last, count, shift);
      }
    } else {
      EndpointOvershoots(count, shift);
      NotPredictable(count, INT64_MAX - (count - 2), Pow2(shift), shift);
    }
  }

  lemma NotPredictable(count: nat, first: int, slope: int, shift: nat)
    requires count > 0 && Predict(first, slope, count - 1, shift) > INT64_MAX
    ensures !Predictable(count, first, slope, shift)
  {
    hide Predict;
  }

  /** Plan from the line through the first and last value. */
  method PlanLinearFit(values: seq<nat>, shift: nat) returns (plan: Option<Plan>, ghost lo: int, ghost hi: int)
    requires Plannable(values)
    requires
      var slope := EndpointSlope(values[0], values[|values| - 1], |values|, shift);
      slope.Some? ==> Predictable(|values|, values[0], slope.value, shift)
    ensures
      var slope := EndpointSlope(values[0], values[|values| - 1], |values|, shift);
      if slope.None? then plan == None
      else ErrorRange(values, values[0], slope.value, shift, lo, hi) && plan == FinishPlan(values[0], slope.value, lo, hi)
    ensures plan.Some? ==>
      forall i | 0 <= i < |values| :: 0 <= Residual(plan.value, i, values[i], shift) < Pow2(plan.value.bits)
  {
    hide EndpointSlope, FinishPlan, ErrorRange, Predictable, Residual, Pow2;
    lo, hi := 0, 0;
    var slope := EndpointSlope(values[0], values[|values| - 1], |values|, shift);
    if slope.None? { return None, 0, 0; }
    plan, lo, hi := Evaluate(values, values[0], slope.value, shift);
  }

  /** Integer arithmetic progressions whose slope is representable need no bits. */
  lemma ProgressionNeedsNoBits(values: seq<nat>, shift: nat, d: int, lo: int, hi: int)
    requires |values| > 1 && Plannable(values)
    requires forall i | 0 <= i < |values| :: values[i] == values[0] + i * d
    requires InInt64(d * Pow2(shift))
    requires ErrorRange(values, values[0], d * Pow2(shift), shift, lo, hi)
    ensures EndpointSlope(values[0], values[|values| - 1], |values|, shift) == Some(d * Pow2(shift))
    ensures FinishPlan(values[0], d * Pow2(shift), lo, hi) == Some(Plan(values[0], d * Pow2(shift), 0))
  {
    ProgressionSlope(values[0], |values| - 1, d, shift);
    hide Pow2, EndpointSlope, ErrorAt;
    forall i | 0 <= i < |values| ensures ErrorAt(values, values[0], d * Pow2(shift), shift, i) == 0 {
      ProgressionError(values, d, shift, i);
    }
  }

  lemma ProgressionError(values: seq<nat>, d: int, shift: nat, i: nat)
    requires i < |values| && values[i] == values[0] + i * d
    ensures ErrorAt(values, values[0], d * Pow2(shift), shift, i) == 0
  {
    hide Pow2;
    Reorder(i, d, Pow2(shift));
    ExactQuotient(i * d, Pow2(shift));
  }

  lemma ProgressionSlope(first: int, n: int, d: int, shift: nat)
    requires n > 0 && InInt64(d * Pow2(shift))
    ensures EndpointSlope(first, first + n * d, n + 1, shift) == Some(d * Pow2(shift))
  {
    hide Pow2, TruncDiv, InInt64;
    Reorder(n, d, Pow2(shift));
    RoundedQuotient(d * Pow2(shift), n);
  }

  lemma Reorder(i: int, d: int, s: int)
    ensures i * (d * s) == (i * d) * s && (d * s) * i == (i * d) * s
  {
  }

  lemma ExactQuotient(a: int, s: int)
    requires s > 0
    ensures a * s / s == a
  {
    var q := a * s / s;
    FloorSpec(a * s, s);
    if q < a { MulGap(q, a, s); }
    if q > a { MulGap(a, q, s); }
  }

  /** Rounding away from zero by less than one unit does not change an exact
      quotient. */
  lemma RoundedQuotient(x: int, n: int)
    requires n > 0
    ensures TruncDiv(if x * n >= 0 then x * n + n / 2 else x * n - n / 2, n) == x
  {
    hide TruncDiv;
    var r := if x * n >= 0 then x * n + n / 2 else x * n - n / 2;
    TruncDivSpec(r, n);
    var q := TruncDiv(r, n);
    if q > x { MulGap(x, q, n); }
    if q < x { MulGap(q, x, n); }
  }
}
