/** Ordinal columns: per block, the narrower of a constant and an endpoint fit,
    with residuals in a linear pack. */
module OrdColumn {
  import opened Bits
  import opened Bytes
  import opened LinearFit
  import opened Options
  import LinearPack

  const BLOCK_SIZE: nat := 4096
  const BLOCK_SLOPE_SHIFT: nat := 14

  /** Some value exceeds another by 2^57 or more. */
  ghost predicate TooWide(values: seq<nat>) {
    exists i, k :: 0 <= i < |values| && 0 <= k < |values| && values[i] >= values[k] + 0x200_0000_0000_0000
  }

  /** The plan reproduces every value from a residual of its width. */
  ghost predicate Covers(plan: Plan, values: seq<nat>, shift: nat) {
    && InInt64(plan.intercept) && plan.bits <= MAX_BITS
    && forall i | 0 <= i < |values| :: 0 <= Residual(plan, i, values[i], shift) < Pow2(plan.bits)
  }

  lemma PlanCovers(values: seq<nat>, intercept: int, slope: int, shift: nat, lo: int, hi: int, plan: Plan)
    requires ErrorRange(values, intercept, slope, shift, lo, hi)
    requires FinishPlan(intercept, slope, lo, hi) == Some(plan)
    ensures Covers(plan, values, shift)
  {
    ResidualsFitExactly(values, intercept, slope, shift, lo, hi, plan);
  }

  /** The constant plan exists exactly when the spread is below 2^57. */
  lemma ConstantPlanIff(values: seq<nat>, lo: int, hi: int)
    requires Plannable(values) && ErrorRange(values, values[0], 0, BLOCK_SLOPE_SHIFT, lo, hi)
    ensures FinishPlan(values[0], 0, lo, hi).Some? <==> !TooWide(values)
  {
    hide FinishPlan, ErrorAt;
    ConstantPredictable(values, BLOCK_SLOPE_SHIFT);
    var i :| 0 <= i < |values| && ErrorAt(values, values[0], 0, BLOCK_SLOPE_SHIFT, i) == lo;
    var k :| 0 <= k < |values| && ErrorAt(values, values[0], 0, BLOCK_SLOPE_SHIFT, k) == hi;
    assert values[0] + lo == values[i] && values[0] + hi == values[k];
    PlanExistsIff(values[0], 0, lo, hi);
    if !TooWide(values) { assert hi - lo == values[k] as int - values[i]; }
    forall a, b | 0 <= a < |values| && 0 <= b < |values| ensures values[a] as int - values[b] <= hi - lo {
      assert lo <= ErrorAt(values, values[0], 0, BLOCK_SLOPE_SHIFT, a) <= hi;
      assert lo <= ErrorAt(values, values[0], 0, BLOCK_SLOPE_SHIFT, b) <= hi;
    }
  }

  /** Plan of one block. None stands for the source's failed assertion: no
      constant plan, which happens exactly for spreads of 2^57 and more. */
  method PlanBlock(values: seq<nat>) returns (plan: Option<Plan>, ghost constant: Option<Plan>, ghost linear: Option<Plan>)
    requires Plannable(values) && |values| <= BLOCK_SIZE
    ensures plan.Some? <==> !TooWide(values)
    ensures plan.Some? ==> Covers(plan.value, values, BLOCK_SLOPE_SHIFT)
    ensures plan.Some? ==> constant.Some? && plan.value.bits <= constant.value.bits
    ensures plan.Some? && linear.Some? ==> plan.value.bits <= linear.value.bits
    ensures plan.Some? ==> plan == constant || plan == linear
  {
    hide FinishPlan, ErrorRange, Predictable, EndpointSlope, TooWide, Covers, Pow2;
    var shift := BLOCK_SLOPE_SHIFT;
    ConstantPredictable(values, shift);
    var flat, lo, hi := Evaluate(values, values[0], 0, shift);
    ConstantPlanIff(values, lo, hi);
    EndpointInRange(values);
    var fitted, lo', hi' := PlanLinearFit(values, shift);
    constant, linear := flat, fitted;
    if flat.None? { return None, flat, fitted; }
    plan := if fitted.Some? && fitted.value.bits < flat.value.bits then fitted else flat;
    PlanCovers(values, values[0], 0, shift, lo, hi, flat.value);
    if fitted.Some? {
      var slope := EndpointSlope(values[0], values[|values| - 1], |values|, shift);
      PlanCovers(values, values[0], slope.value, shift, lo', hi', fitted.value);
    }
  }

  /** Two values 2^57 apart have no plan, one less apart they have. */
  lemma SpreadLimit()
    ensures Plannable([0, 0x200_0000_0000_0000]) && TooWide([0, 0x200_0000_0000_0000])
    ensures Plannable([0, 0x1FF_FFFF_FFFF_FFFF]) && !TooWide([0, 0x1FF_FFFF_FFFF_FFFF])
  {
    var wide := [0, 0x200_0000_0000_0000];
    assert wide[1] - wide[0] >= 0x200_0000_0000_0000;
  }

  lemma EndpointInRange(values: seq<nat>)
    requires Plannable(values) && |values| <= BLOCK_SIZE
    ensures
      var slope := EndpointSlope(values[0], values[|values| - 1], |values|, BLOCK_SLOPE_SHIFT);
      slope.Some? ==> Predictable(|values|, values[0], slope.value, BLOCK_SLOPE_SHIFT)
  {
    assert Pow2(8) == 256;
    assert Pow2(14) == 16384;
    hide EndpointSlope, Predictable, Pow2;
    var slope := EndpointSlope(values[0], values[|values| - 1], |values|, BLOCK_SLOPE_SHIFT);
    if slope.Some? { EndpointPredictable(values[0], values[|values| - 1], |values|, BLOCK_SLOPE_SHIFT); }
  }

  function Residuals(plan: Plan, values: seq<nat>, shift: nat): (r: seq<nat>)
    requires forall i | 0 <= i < |values| :: 0 <= Residual(plan, i, values[i], shift)
    ensures |r| == |values|
  {
    seq(|values|, i requires 0 <= i < |values| => Residual(plan, i, values[i], shift))
  }

  /** Prediction plus the residual read back from the packed bytes is the value. */
  lemma ColumnRoundTrip(plan: Plan, values: seq<nat>, shift: nat, pad: bool, rest: seq<Byte>, i: nat)
    requires Covers(plan, values, shift) && i < |values| && (pad || |rest| >= 7)
    ensures
      var base := LinearPack.Encoded(Residuals(plan, values, shift), plan.bits, pad) + rest;
      && (plan.bits > 0 ==> i * plan.bits / 8 + 8 <= |base|)
      && Predict(plan.intercept, plan.scaledSlope, i, shift) + LinearPack.Select64(base, i, plan.bits) == values[i]
  {
    hide Predict, Pow2, LinearPack.Select64, LinearPack.Encoded;
    LinearPack.SelectInvertsWriter(Residuals(plan, values, shift), plan.bits, pad, rest, i);
  }

  /** A covering plan's predictions are int64s, so the source's assertions hold. */
  lemma CoveredPredictions(plan: Plan, values: seq<nat>, shift: nat, i: nat)
    requires Plannable(values) && Covers(plan, values, shift) && i < |values|
    ensures InInt64(Predict(plan.intercept, plan.scaledSlope, i, shift))
  {
    hide Predict, Pow2;
    Pow57();
    Pow2Monotone(plan.bits, MAX_BITS);
    assert 0 <= Residual(plan, i, values[i], shift) < Pow2(plan.bits);
  }
}
