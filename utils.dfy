/** The eligibility-masked weight pipeline of `utils.py`: hard eligibility
    masking, renormalization of weight rows by their absolute sum, one-period
    execution weights, masked cross-sectional demeaning, and the masking step
    of the cross-sectional rank. Every operation is a row-wise function lifted
    to a panel; only the execution weights read a neighbouring row. */
module Utils {
  import opened Frame

  // ==================================================================
  // apply_eligibility
  // ==================================================================

  /** One row of `apply_eligibility`: `where(elig, 0.0)` then `fillna(0.0)`. */
  function EligibleRow(x: Row, e: MaskRow): (r: Row)
    requires |x| == |e|
    ensures |r| == |x| && Complete(r)
    ensures forall i :: 0 <= i < |x| ==>
      r[i] == (if e[i] && x[i].Some? then x[i] else Some(0.0))
  {
    FillNa(WhereElse(x, e, 0.0), 0.0)
  }

  /** `apply_eligibility(df, elig)`: never missing; an entry keeps its value
      exactly when it is eligible and present, and is 0 otherwise. */
  function ApplyEligibility(df: Panel, elig: Mask): (r: Panel)
    requires Conforms(df, elig)
    ensures Conforms(r, df) && CompletePanel(r)
    ensures forall t, i :: 0 <= t < |df| && 0 <= i < |df[t]| ==>
      r[t][i] == (if elig[t][i] && df[t][i].Some? then df[t][i] else Some(0.0))
  {
    seq(|df|, t requires 0 <= t < |df| => EligibleRow(df[t], elig[t]))
  }

  /** Masking a second time with the same eligibility changes nothing. */
  lemma ApplyEligibilityIdempotent(df: Panel, elig: Mask)
    requires Conforms(df, elig)
    ensures ApplyEligibility(ApplyEligibility(df, elig), elig) == ApplyEligibility(df, elig)
  {
    var once := ApplyEligibility(df, elig);
    var twice := ApplyEligibility(once, elig);
    forall t | 0 <= t < |df| ensures twice[t] == once[t] {
      assert twice[t] == EligibleRow(once[t], elig[t]);
    }
  }

  // ==================================================================
  // normalize_weights
  // ==================================================================

  /** The absolute sum of `w` divided through by itself, with the zero
      denominator replaced by NaN and the NaNs filled, is 1 or 0. */
  lemma DivByAbsSum(w: Row)
    ensures AbsSum(FillNa(Div(w, ReplaceZero(AbsSum(w))), 0.0)) ==
      (if AbsSum(w) == 0.0 then 0.0 else 1.0)
  {
    var d := AbsSum(w);
    var r := FillNa(Div(w, ReplaceZero(d)), 0.0);
    AbsSumZeroIff(w);
    if d == 0.0 {
      AbsSumZeroIff(r);
    } else {
      forall i | 0 <= i < |w| ensures AbsCell(r[i]) == AbsCell(w[i]) / d {
        if w[i].Some? {
          AbsCellDiv(w[i].value, d);
        }
      }
      AbsSumScaled(w, r, d);
      DivSelf(d);
    }
  }

  /** One row of `normalize_weights`: `denom = |w|.sum().replace(0, nan)`,
      then `w / denom` and `fillna(0.0)`. The result is never missing; its
      absolute values sum to 1 when the row holds a present non-zero weight
      and to 0 (every entry 0) otherwise; a missing or zero weight stays 0. */
  function NormalizeRow(w: Row): (r: Row)
    ensures |r| == |w| && Complete(r)
    ensures AbsSum(r) == 0.0 || AbsSum(r) == 1.0
    ensures AbsSum(r) == 1.0 <==> exists i :: 0 <= i < |w| && AbsCell(w[i]) != 0.0
    ensures AbsSum(r) == 0.0 ==> AllZero(r)
    ensures AbsSum(w) == 0.0 ==> AllZero(r)
    ensures forall i :: 0 <= i < |w| && AbsCell(w[i]) == 0.0 ==> r[i] == Some(0.0)
  {
    var denom := ReplaceZero(AbsSum(w));
    var r := FillNa(Div(w, denom), 0.0);
    DivByAbsSum(w);
    AbsSumZeroIff(w);
    r
  }

  /** `normalize_weights(w)`: every row of the result is complete and sums
      in absolute value to 1 when its input row holds a present non-zero
      weight, and to 0 (every entry 0) otherwise. */
  function NormalizeWeights(w: Panel): (r: Panel)
    ensures Conforms(r, w) && CompletePanel(r)
    ensures forall t :: 0 <= t < |r| ==> AbsSum(r[t]) == 0.0 || AbsSum(r[t]) == 1.0
    ensures forall t :: 0 <= t < |r| && AbsSum(r[t]) == 0.0 ==> AllZero(r[t])
    ensures forall t :: 0 <= t < |r| ==>
      (AbsSum(r[t]) == 1.0 <==> exists i :: 0 <= i < |w[t]| && AbsCell(w[t][i]) != 0.0)
  {
    seq(|w|, t requires 0 <= t < |w| => NormalizeRow(w[t]))
  }

  /** An entry of a renormalized row: a present weight divided by the
      row's absolute sum, or 0 when the weight is missing or the sum is 0. */
  lemma NormalizeRowEntry(w: Row, i: nat)
    requires i < |w|
    ensures NormalizeRow(w)[i] ==
      if w[i].Some? && AbsSum(w) != 0.0 then Some(w[i].value / AbsSum(w)) else Some(0.0)
  {
  }

  /** Renormalizing keeps every entry's sign and the ratio between any two
      entries: the result is the row scaled by one positive factor. */
  lemma NormalizeKeepsSignAndRatio(w: Row, i: nat, j: nat)
    requires i < |w| && j < |w| && w[i].Some? && w[j].Some?
    ensures var r := NormalizeRow(w);
      && (r[i].value > 0.0 <==> w[i].value > 0.0)
      && (r[i].value < 0.0 <==> w[i].value < 0.0)
      && Proportional(r[i].value, w[i].value, r[j].value, w[j].value)
  {
    var d := AbsSum(w);
    NormalizeRowEntry(w, i);
    NormalizeRowEntry(w, j);
    AbsSumZeroIff(w);
    if d == 0.0 {
      assert AbsCell(w[i]) == 0.0;
      ProportionalZero(w[i].value, w[j].value);
    } else {
      DivPair(w[i].value, w[j].value, NormalizeRow(w)[i].value, NormalizeRow(w)[j].value, d);
    }
  }

  /** A complete row that already sums to 1 in absolute value, and an
      all-zero row, are returned unchanged. */
  lemma NormalizeFixedPoint(w: Row)
    requires Complete(w) && (AbsSum(w) == 1.0 || AllZero(w))
    ensures NormalizeRow(w) == w
  {
    var r := NormalizeRow(w);
    AbsSumZeroIff(w);
    forall i | 0 <= i < |w| ensures r[i] == w[i] {
    }
  }

  /** Renormalizing a renormalized row gives the identical row. */
  lemma NormalizeIdempotent(w: Row)
    ensures NormalizeRow(NormalizeRow(w)) == NormalizeRow(w)
  {
    NormalizeFixedPoint(NormalizeRow(w));
  }

  /** `normalize_weights` is idempotent on whole panels. */
  lemma NormalizeWeightsIdempotent(w: Panel)
    ensures NormalizeWeights(NormalizeWeights(w)) == NormalizeWeights(w)
  {
    var once := NormalizeWeights(w);
    forall t | 0 <= t < |w| ensures NormalizeWeights(once)[t] == once[t] {
      NormalizeIdempotent(w[t]);
    }
  }

  /** A missing weight is renormalized exactly as a zero weight is:
      filling the NaNs with 0 first changes nothing. */
  lemma NormalizeIgnoresMissing(w: Row)
    ensures NormalizeRow(FillNa(w, 0.0)) == NormalizeRow(w)
  {
    var f := FillNa(w, 0.0);
    forall i | 0 <= i < |w| ensures AbsCell(f[i]) == AbsCell(w[i]) / 1.0 {
    }
    AbsSumScaled(w, f, 1.0);
  }

  // ==================================================================
  // normalize_weights_masked
  // ==================================================================

  /** One row of `normalize_weights_masked`: `x = w.where(mask, 0.0)`, then
      the three steps of `normalize_weights` on `x`. The result is never
      missing, is 0 wherever the mask is false or the weight is missing,
      and sums in absolute value to 1 exactly when some eligible, present
      weight is non-zero, and to 0 otherwise. */
  function NormalizeMaskedRow(w: Row, m: MaskRow): (r: Row)
    requires |w| == |m|
    ensures |r| == |w| && Complete(r)
    ensures forall i :: 0 <= i < |w| && !(m[i] && w[i].Some?) ==> r[i] == Some(0.0)
    ensures AbsSum(r) == 0.0 || AbsSum(r) == 1.0
    ensures AbsSum(r) == 1.0 <==> exists i :: 0 <= i < |w| && m[i] && AbsCell(w[i]) != 0.0
    ensures AbsSum(r) == 0.0 ==> AllZero(r)
  {
    var x := WhereElse(w, m, 0.0);
    assert forall i :: 0 <= i < |w| ==> AbsCell(x[i]) == (if m[i] then AbsCell(w[i]) else 0.0);
    NormalizeRow(x)
  }

  /** `normalize_weights_masked(w, mask)`: complete, 0 wherever the mask is
      false, and every row summing in absolute value to 1 when some eligible
      weight of it is non-zero, and to 0 (every entry 0) otherwise. */
  function NormalizeWeightsMasked(w: Panel, mask: Mask): (r: Panel)
    requires Conforms(w, mask)
    ensures Conforms(r, w) && CompletePanel(r)
    ensures forall t, i :: 0 <= t < |r| && 0 <= i < |r[t]| && !mask[t][i] ==> r[t][i] == Some(0.0)
    ensures forall t, i :: 0 <= t < |r| && 0 <= i < |r[t]| && w[t][i].None? ==> r[t][i] == Some(0.0)
    ensures forall t :: 0 <= t < |r| ==> AbsSum(r[t]) == 0.0 || AbsSum(r[t]) == 1.0
    ensures forall t :: 0 <= t < |r| && AbsSum(r[t]) == 0.0 ==> AllZero(r[t])
    ensures forall t :: 0 <= t < |r| ==>
      (AbsSum(r[t]) == 1.0 <==> exists i :: 0 <= i < |w[t]| && mask[t][i] && AbsCell(w[t][i]) != 0.0)
  {
    seq(|w|, t requires 0 <= t < |w| => NormalizeMaskedRow(w[t], mask[t]))
  }

  /** Among eligible, present weights the masked renormalizer keeps every
      sign and every ratio. */
  lemma NormalizeMaskedKeepsSignAndRatio(w: Row, m: MaskRow, i: nat, j: nat)
    requires |w| == |m| && i < |w| && j < |w|
    requires m[i] && m[j] && w[i].Some? && w[j].Some?
    ensures var r := NormalizeMaskedRow(w, m);
      && (r[i].value > 0.0 <==> w[i].value > 0.0)
      && (r[i].value < 0.0 <==> w[i].value < 0.0)
      && Proportional(r[i].value, w[i].value, r[j].value, w[j].value)
  {
    NormalizeKeepsSignAndRatio(WhereElse(w, m, 0.0), i, j);
  }

  /** The denominator of the masked renormalizer is the absolute sum of the
      eligible entries alone: an eligible, present weight is divided by it,
      and every other entry is 0, as is every entry when that sum is 0. */
  lemma NormalizeMaskedRowEntry(w: Row, m: MaskRow, i: nat)
    requires |w| == |m| && i < |w|
    ensures var d := AbsSum(Where(w, m));
      NormalizeMaskedRow(w, m)[i] ==
        if m[i] && w[i].Some? && d != 0.0 then Some(w[i].value / d) else Some(0.0)
  {
    var x := WhereElse(w, m, 0.0);
    var y := Where(w, m);
    forall k | 0 <= k < |w| ensures AbsCell(y[k]) == AbsCell(x[k]) / 1.0 {
    }
    AbsSumScaled(x, y, 1.0);
    NormalizeRowEntry(x, i);
  }

  /** Ineligible entries cannot leak into the result: two weight rows that
      agree on every eligible entry renormalize to the same row. */
  lemma NormalizeMaskedIgnoresIneligible(w1: Row, w2: Row, m: MaskRow)
    requires |w1| == |m| && |w2| == |m|
    requires forall i :: 0 <= i < |m| && m[i] ==> w1[i] == w2[i]
    ensures NormalizeMaskedRow(w1, m) == NormalizeMaskedRow(w2, m)
  {
    assert WhereElse(w1, m, 0.0) == WhereElse(w2, m, 0.0);
  }

  /** Masking a row that the masked renormalizer produced is a no-op. */
  lemma WhereElseOfMaskedRow(w: Row, m: MaskRow)
    requires |w| == |m|
    ensures WhereElse(NormalizeMaskedRow(w, m), m, 0.0) == NormalizeMaskedRow(w, m)
  {
    var r := NormalizeMaskedRow(w, m);
    assert forall i :: 0 <= i < |r| ==> WhereElse(r, m, 0.0)[i] == r[i];
  }

  /** Renormalizing twice with unchanged eligibility gives the identical row. */
  lemma NormalizeMaskedIdempotent(w: Row, m: MaskRow)
    requires |w| == |m|
    ensures NormalizeMaskedRow(NormalizeMaskedRow(w, m), m) == NormalizeMaskedRow(w, m)
  {
    var r := NormalizeMaskedRow(w, m);
    WhereElseOfMaskedRow(w, m);
    NormalizeFixedPoint(r);
  }

  /** `normalize_weights_masked` is idempotent on whole panels. */
  lemma NormalizeWeightsMaskedIdempotent(w: Panel, mask: Mask)
    requires Conforms(w, mask)
    ensures NormalizeWeightsMasked(NormalizeWeightsMasked(w, mask), mask) == NormalizeWeightsMasked(w, mask)
  {
    var once := NormalizeWeightsMasked(w, mask);
    forall t | 0 <= t < |w| ensures NormalizeWeightsMasked(once, mask)[t] == once[t] {
      NormalizeMaskedIdempotent(w[t], mask[t]);
    }
  }

  /** The masked renormalizer is the plain one applied after the hard
      eligibility mask of `apply_eligibility`. */
  lemma NormalizeMaskedIsNormalizeOfEligible(w: Panel, mask: Mask)
    requires Conforms(w, mask)
    ensures NormalizeWeightsMasked(w, mask) == NormalizeWeights(ApplyEligibility(w, mask))
  {
    forall t | 0 <= t < |w|
      ensures NormalizeWeightsMasked(w, mask)[t] == NormalizeWeights(ApplyEligibility(w, mask))[t]
    {
      NormalizeIgnoresMissing(WhereElse(w[t], mask[t], 0.0));
    }
  }

  /** Weights [0.5, NaN, 0.5] with
      eligibility [true, true, false] renormalize to [1, 0, 0]. */
  lemma NormalizeMaskedScenario()
    ensures NormalizeMaskedRow([Some(0.5), None, Some(0.5)], [true, true, false])
      == [Some(1.0), Some(0.0), Some(0.0)]
  {
    var x := WhereElse([Some(0.5), None, Some(0.5)], [true, true, false], 0.0);
    assert x == [Some(0.5), None, Some(0.0)];
    assert AbsSum(x) == 0.5 by {
      assert x[1..] == [None, Some(0.0)] && x[2..] == [Some(0.0)] && x[3..] == [];
    }
  }

  // ==================================================================
  // calc_exec_weights
  // ==================================================================

  /** One row of `calc_exec_weights`, from the shifted decision row and the
      current eligibility row: `fillna(0)`, `where(elig, 0.0)`,
      `normalize_weights`. */
  function ExecRow(lagged: Row, e: MaskRow): (r: Row)
    requires |lagged| == |e|
    ensures |r| == |e| && Complete(r)
    ensures forall i :: 0 <= i < |e| && !e[i] ==> r[i] == Some(0.0)
    ensures AbsSum(r) == 0.0 || AbsSum(r) == 1.0
    ensures AbsSum(r) == 1.0 <==> exists i :: 0 <= i < |e| && e[i] && AbsCell(lagged[i]) != 0.0
    ensures AbsSum(r) == 0.0 ==> AllZero(r)
    ensures r == NormalizeMaskedRow(FillNa(lagged, 0.0), e)
  {
    var filled := FillNa(lagged, 0.0);
    var masked := WhereElse(filled, e, 0.0);
    assert forall i :: 0 <= i < |e| ==>
      AbsCell(masked[i]) == (if e[i] then AbsCell(lagged[i]) else 0.0);
    NormalizeRow(masked)
  }

  /** `calc_exec_weights(port, elig)`: yesterday's decisions, held only where
      eligible today, renormalized. The result has the shape of `elig`, is
      never missing, its first row is all zeros whatever `port` holds, and
      every later row t is decision row t-1, missing entries read as 0,
      renormalized over today's eligible assets. So it is 0 wherever today's
      eligibility is false, and every row sums in absolute value to 1 when
      some asset eligible today had a non-zero decision yesterday, and is all
      zeros otherwise. */
  function CalcExecWeights(port: Panel, elig: Mask): (r: Panel)
    requires Conforms(port, elig) && Rectangular(port)
    ensures Conforms(r, elig) && CompletePanel(r)
    ensures |r| > 0 ==> AllZero(r[0])
    ensures forall t, i :: 0 <= t < |r| && 0 <= i < |r[t]| && !elig[t][i] ==> r[t][i] == Some(0.0)
    ensures forall t :: 0 <= t < |r| ==> AbsSum(r[t]) == 0.0 || AbsSum(r[t]) == 1.0
    ensures forall t :: 0 <= t < |r| && AbsSum(r[t]) == 0.0 ==> AllZero(r[t])
    ensures forall t :: 0 < t < |r| ==> r[t] == NormalizeMaskedRow(FillNa(port[t - 1], 0.0), elig[t])
    ensures forall t :: 0 < t < |r| ==>
      (AbsSum(r[t]) == 1.0 <==> exists i :: 0 <= i < |elig[t]| && elig[t][i] && AbsCell(port[t - 1][i]) != 0.0)
  {
    var lagged := Shift(port);
    var r := seq(|port|, t requires 0 <= t < |port| => ExecRow(lagged[t], elig[t]));
    if |port| > 0 then
      ExecFirstRow(|port[0]|, elig[0]);
      r
    else
      r
  }

  /** A row with no earlier decision executes nothing. */
  lemma ExecFirstRow(n: nat, e: MaskRow)
    requires n == |e|
    ensures AllZero(ExecRow(NaNRow(n), e))
  {
    var masked := WhereElse(FillNa(NaNRow(n), 0.0), e, 0.0);
    assert forall i :: 0 <= i < n ==> AbsCell(masked[i]) == 0.0;
    AbsSumZeroIff(masked);
  }

  /** No look-ahead: row t of the execution weights is determined by the
      decision row t-1 and the eligibility row t alone (row 0 by its
      eligibility row only). */
  lemma CalcExecWeightsNoLookAhead(p1: Panel, e1: Mask, p2: Panel, e2: Mask, t: nat)
    requires Conforms(p1, e1) && Rectangular(p1)
    requires Conforms(p2, e2) && Rectangular(p2)
    requires t < |p1| && t < |p2| && e1[t] == e2[t]
    requires t > 0 ==> p1[t - 1] == p2[t - 1]
    ensures CalcExecWeights(p1, e1)[t] == CalcExecWeights(p2, e2)[t]
  {
    if t == 0 {
      assert |p1[0]| == |p2[0]|;
    }
  }

  /** Appending later periods to both inputs leaves every earlier row of the
      execution weights as it was. */
  lemma CalcExecWeightsPrefix(port: Panel, elig: Mask, k: nat)
    requires Conforms(port, elig) && Rectangular(port) && k <= |port|
    ensures Conforms(port[..k], elig[..k]) && Rectangular(port[..k])
    ensures CalcExecWeights(port[..k], elig[..k]) == CalcExecWeights(port, elig)[..k]
  {
    var whole := CalcExecWeights(port, elig);
    forall t | 0 <= t < k ensures CalcExecWeights(port[..k], elig[..k])[t] == whole[t] {
      CalcExecWeightsNoLookAhead(port[..k], elig[..k], port, elig, t);
    }
  }

  /** The execution row is the masked renormalizer applied, with today's
      eligibility, to the masked lagged row: the plain renormalizer in the
      code and the masked one give the same weights. */
  lemma ExecRowIsMaskedNormalize(lagged: Row, e: MaskRow)
    requires |lagged| == |e|
    ensures ExecRow(lagged, e) == NormalizeMaskedRow(WhereElse(FillNa(lagged, 0.0), e, 0.0), e)
  {
    var masked := WhereElse(FillNa(lagged, 0.0), e, 0.0);
    assert WhereElse(masked, e, 0.0) == masked;
  }

  /** Decisions [[0.6, 0.4], [0.3, 0.7]] with eligibility
      [[true, true], [true, false]] execute as [[0, 0], [1, 0]]. */
  lemma CalcExecWeightsScenario()
    ensures CalcExecWeights([[Some(0.6), Some(0.4)], [Some(0.3), Some(0.7)]],
                            [[true, true], [true, false]])
      == [[Some(0.0), Some(0.0)], [Some(1.0), Some(0.0)]]
  {
    var port := [[Some(0.6), Some(0.4)], [Some(0.3), Some(0.7)]];
    var elig := [[true, true], [true, false]];
    var r := CalcExecWeights(port, elig);
    var masked := WhereElse(FillNa(port[0], 0.0), elig[1], 0.0);
    assert masked == [Some(0.6), Some(0.0)];
    assert AbsSum(masked) == 0.6 by {
      assert masked[1..] == [Some(0.0)] && masked[2..] == [];
    }
    assert Shift(port)[1] == port[0];
    assert Div(masked, ReplaceZero(0.6)) == [Some(1.0), Some(0.0)];
    assert r[1] == [Some(1.0), Some(0.0)];
    assert r[0] == [Some(0.0), Some(0.0)];
  }

  // ==================================================================
  // demean_xs_masked
  // ==================================================================

  /** The masked demeaning, as written, sums to 0: subtracting the mean of
      the eligible, present entries from each of them cancels their sum. */
  lemma DemeanSum(x: Row, m: MaskRow)
    requires |x| == |m|
    ensures var y := Where(x, m);
      Sum(FillNa(WhereElse(Sub(y, Mean(y)), m, 0.0), 0.0)) == 0.0
  {
    var y := Where(x, m);
    var mu := Mean(y);
    var r := FillNa(WhereElse(Sub(y, mu), m, 0.0), 0.0);
    CountZeroIff(y);
    if mu.Some? {
      SumShifted(y, r, mu.value);
      var n := Count(y) as real;
      assert n * (Sum(y) / n) == Sum(y);
    } else {
      SumShifted(y, r, 0.0);
    }
  }

  /** One row of `demean_xs_masked`: `x = df.where(mask)`, `mu` the mean of
      `x` skipping NaN, `x - mu`, `where(mask, 0.0)`, `fillna(0.0)`. The
      result is never missing; an entry that is masked out or missing is 0;
      an eligible, present entry is its value minus the mean of the eligible,
      present entries; and the row sums to 0. */
  function DemeanMaskedRow(x: Row, m: MaskRow): (r: Row)
    requires |x| == |m|
    ensures |r| == |x| && Complete(r)
    ensures forall i :: 0 <= i < |x| && !(m[i] && x[i].Some?) ==> r[i] == Some(0.0)
    ensures forall i :: 0 <= i < |x| && m[i] && x[i].Some? ==>
      Mean(Where(x, m)).Some? && r[i] == Some(x[i].value - Mean(Where(x, m)).value)
    ensures Sum(r) == 0.0
  {
    var y := Where(x, m);
    var mu := Mean(y);
    DemeanSum(x, m);
    CountZeroIff(y);
    assert forall i :: 0 <= i < |x| && m[i] && x[i].Some? ==> y[i].Some?;
    FillNa(WhereElse(Sub(y, mu), m, 0.0), 0.0)
  }

  /** `demean_xs_masked(df, mask)`: complete, 0 wherever the mask is false or
      the entry is missing, every eligible present entry less the mean of its
      row's eligible present entries, and every row sums to 0. */
  function DemeanXsMasked(df: Panel, mask: Mask): (r: Panel)
    requires Conforms(df, mask)
    ensures Conforms(r, df) && CompletePanel(r)
    ensures forall t, i :: 0 <= t < |r| && 0 <= i < |r[t]| && !(mask[t][i] && df[t][i].Some?) ==>
      r[t][i] == Some(0.0)
    ensures forall t, i :: 0 <= t < |r| && 0 <= i < |r[t]| && mask[t][i] && df[t][i].Some? ==>
      Mean(Where(df[t], mask[t])).Some? &&
      r[t][i] == Some(df[t][i].value - Mean(Where(df[t], mask[t])).value)
    ensures forall t :: 0 <= t < |r| ==> Sum(r[t]) == 0.0
  {
    seq(|df|, t requires 0 <= t < |df| => DemeanMaskedRow(df[t], mask[t]))
  }

  /** Demeaning a demeaned row with the same mask gives the identical row:
      its eligible entries already have mean 0. */
  lemma DemeanMaskedIdempotent(x: Row, m: MaskRow)
    requires |x| == |m|
    ensures DemeanMaskedRow(DemeanMaskedRow(x, m), m) == DemeanMaskedRow(x, m)
  {
    var r := DemeanMaskedRow(x, m);
    var y := Where(r, m);
    var r2 := DemeanMaskedRow(r, m);
    SumShifted(y, r, 0.0);
    CountZeroIff(y);
    if Count(y) == 0 {
      forall i | 0 <= i < |x| ensures r2[i] == r[i] {
        assert y[i].None?;
      }
    } else {
      assert Mean(y).value == 0.0;
      forall i | 0 <= i < |x| ensures r2[i] == r[i] {
      }
    }
  }

  /** Values on masked-out entries cannot leak into the result: two rows
      that agree on every eligible entry demean to the same row. */
  lemma DemeanMaskedIgnoresIneligible(x1: Row, x2: Row, m: MaskRow)
    requires |x1| == |m| && |x2| == |m|
    requires forall i :: 0 <= i < |m| && m[i] ==> x1[i] == x2[i]
    ensures DemeanMaskedRow(x1, m) == DemeanMaskedRow(x2, m)
  {
    assert Where(x1, m) == Where(x2, m);
  }

  /** `c` added to every present entry of the row. */
  function Offset(x: Row, c: real): (r: Row)
    ensures |r| == |x|
  {
    seq(|x|, i requires 0 <= i < |x| => if x[i].Some? then Some(x[i].value + c) else None)
  }

  /** Demeaning removes a common offset: adding the same constant to every
      present entry leaves the masked demeaned row unchanged. */
  lemma DemeanMaskedOffsetInvariant(x: Row, m: MaskRow, c: real)
    requires |x| == |m|
    ensures DemeanMaskedRow(Offset(x, c), m) == DemeanMaskedRow(x, m)
  {
    var y := Where(x, m);
    var z := Where(Offset(x, c), m);
    SumShifted(y, z, -c);
    CountSamePresence(y, z);
    if Count(y) > 0 {
      var n := Count(y) as real;
      assert Sum(z) == Sum(y) + n * c;
      OffsetMean(Sum(y), Sum(z), n, c);
      assert Mean(z).value == Sum(z) / Count(y) as real;
    }
    var r1 := DemeanMaskedRow(Offset(x, c), m);
    var r2 := DemeanMaskedRow(x, m);
    forall i | 0 <= i < |x| ensures r1[i] == r2[i] {
    }
  }

  /** The mean of `n` values each raised by `c` is raised by `c`. */
  lemma OffsetMean(s: real, t: real, n: real, c: real)
    requires n > 0.0 && t == s + n * c
    ensures t / n == s / n + c
  {
    var q := s / n;
    assert q * n == s;
    assert (q + c) * n == t;
  }

  // ==================================================================
  // rank_signal_xs: the eligibility step
  // ==================================================================

  /** The masking step of `rank_signal_xs`: without an eligibility frame the
      signal is passed on as it is; with one, every ineligible entry becomes
      missing, so that the ranking skips it, and every eligible entry is
      kept as it was, missing or not. */
  function RankSignalMask(sig: Panel, elig: Option<Mask>): (r: Panel)
    requires elig.Some? ==> Conforms(sig, elig.value)
    ensures Conforms(r, sig)
    ensures elig.None? ==> r == sig
    ensures elig.Some? ==> forall t, i :: 0 <= t < |sig| && 0 <= i < |sig[t]| ==>
      (r[t][i].None? <==> !elig.value[t][i] || sig[t][i].None?) &&
      (elig.value[t][i] ==> r[t][i] == sig[t][i])
  {
    match elig
    case None => sig
    case Some(e) => seq(|sig|, t requires 0 <= t < |sig| => Where(sig[t], e[t]))
  }

  /** Masking a signal to NaN and then filling the NaNs with 0 is the hard
      eligibility mask of `apply_eligibility`. */
  lemma RankMaskThenFillIsApplyEligibility(sig: Panel, elig: Mask)
    requires Conforms(sig, elig)
    ensures var masked := RankSignalMask(sig, Some(elig));
      forall t :: 0 <= t < |sig| ==> FillNa(masked[t], 0.0) == ApplyEligibility(sig, elig)[t]
  {
    var masked := RankSignalMask(sig, Some(elig));
    var hard := ApplyEligibility(sig, elig);
    forall t | 0 <= t < |sig| ensures FillNa(masked[t], 0.0) == hard[t] {
      assert forall i :: 0 <= i < |sig[t]| ==> FillNa(masked[t], 0.0)[i] == hard[t][i];
    }
  }
}
