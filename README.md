# Eligibility-masked weight pipeline

A Dafny model of the weight pipeline in `utils.py` of a crypto momentum
backtest. The pipeline works on time x asset panels (pandas DataFrames):

- **apply_eligibility** turns every entry that is not eligible, or is
  missing, into a hard 0.
- **normalize_weights** divides each row by its sum of absolute values.
  A row whose sum is 0 becomes all zeros: the denominator is replaced by
  NaN and the NaNs are filled with 0.
- **normalize_weights_masked** does the same after zeroing the entries
  the mask excludes.
- **calc_exec_weights** executes yesterday's decisions today. It shifts
  the decision panel one period, fills every missing entry with 0 (the empty
  first row and any NaN inside yesterday's decisions), masks by today's
  eligibility and renormalizes.
- **demean_xs_masked** subtracts, in every row, the mean of the eligible,
  present entries, and writes 0 for everything else.
- **rank_signal_xs** first masks ineligible entries to missing; only that
  step is modelled.

A panel is `seq<seq<Option<real>>>`; `None` is NaN, so "missing" and
"zero" are different values. Eligibility is `seq<seq<bool>>` of the same
shape. Arithmetic is on Dafny `real`.

Module `Frame` (`frame.dfy`) holds the pandas operations the code composes:
`where`, `where(…, other)`, `fillna`, `div`/`sub` along axis 0,
`replace(0, nan)`, the NaN-skipping reductions `abs().sum` and `mean`, and
`shift(1)`. It also defines a NaN-skipping `Sum` and `Count`; `utils.py`
calls neither, they exist to define `Mean` and to reason about it. It also holds lemmas about the reductions. Module
`Utils` (`utils.dfy`) holds the source's functions. Each is written as a
function on one row, made of the same chain of operations as the source
line, and lifted to a panel. `CalcExecWeights` is the one function that
reads the previous row, through `Shift`.

Two facts about the code that the model follows:

- `apply_eligibility` ends in `fillna(0.0)` (utils.py:87), so an eligible
  but missing entry becomes 0; `ApplyEligibility` states this. The bare
  `where(mask, 0.0)` step inside the other functions keeps such an entry
  missing, as `WhereElse` does.
- `calc_exec_weights` calls the plain `normalize_weights` (utils.py:77) on
  the panel it has just masked. `ExecRowIsMaskedNormalize` proves that this
  gives the same weights as the masked renormalizer with today's
  eligibility.

The renormalizer divides by the sum of ABSOLUTE values. So a row with
offsetting weights such as +0.5/-0.5 has denominator 1 and is renormalized
normally. Only a row whose eligible, present weights are all 0 goes to the
all-zero row (`NormalizeRow`, `NormalizeMaskedRow`: the absolute sum is 1
exactly when such a non-zero weight exists).

`Div` requires a denominator other than 0. Every call of it passes a
denominator that went through `ReplaceZero`. So the verified
well-formedness of `NormalizeRow` is the proof that the
`replace(0, np.nan)` guard rules out division by zero.

## Model

| member | source | states |
|---|---|---|
| `Utils.EligibleRow` | utils.py:86-87 | one row of `apply_eligibility`: never missing; each entry is the input value when eligible and present, 0 otherwise |
| `Utils.ApplyEligibility` | utils.py:86-87 | same shape as the input, no missing entry; every entry is the input value when eligible and present, 0 otherwise |
| `Utils.ApplyEligibilityIdempotent` | utils.py:86-87 | applying the hard eligibility mask twice equals applying it once |
| `Utils.DivByAbsSum` | utils.py:63-64 | dividing a row by its absolute sum, after the zero-to-NaN replacement and the final fill, gives absolute sum 1, or 0 when the row's absolute sum was 0 |
| `Utils.NormalizeRow` | utils.py:62-64 | the renormalized row is never missing; its absolute sum is 0 or 1, and it is 1 exactly when the row has a present non-zero weight; a zero-sum row becomes all zeros; a missing or zero weight stays 0 |
| `Utils.NormalizeWeights` | utils.py:62-64 | on a panel: same shape, no missing entry; a row sums in absolute value to 1 exactly when its input row has a present non-zero weight, and is otherwise all zeros |
| `Utils.NormalizeRowEntry` | utils.py:63-64 | an output entry is the present weight divided by the row's absolute sum, and 0 when the weight is missing or the sum is 0 |
| `Utils.NormalizeKeepsSignAndRatio` | utils.py:63-64 | renormalizing keeps each present weight's sign and the proportion between any two present weights |
| `Utils.NormalizeFixedPoint` | utils.py:62-64 | a complete row with absolute sum 1, and an all-zero row, come back identical |
| `Utils.NormalizeIdempotent` | utils.py:62-64 | renormalizing a renormalized row returns the identical row, for every input row |
| `Utils.NormalizeWeightsIdempotent` | utils.py:62-64 | `normalize_weights` applied twice equals applying it once, on any panel |
| `Utils.NormalizeIgnoresMissing` | utils.py:63-64 | a missing weight is renormalized exactly as a zero weight: filling NaNs with 0 first changes nothing |
| `Utils.NormalizeMaskedRow` | utils.py:56-59 | never missing; 0 wherever the mask is false or the weight is missing; absolute sum 0 or 1, and 1 exactly when some eligible present weight is non-zero; all zeros when the sum is 0 |
| `Utils.NormalizeWeightsMasked` | utils.py:56-59 | on a panel: same shape, no missing entry, 0 where the mask is false and where the weight is missing; a row sums in absolute value to 1 exactly when some eligible weight of its input row is non-zero, and is otherwise all zeros |
| `Utils.NormalizeMaskedKeepsSignAndRatio` | utils.py:57-59 | among eligible present weights, signs and proportions are kept |
| `Utils.NormalizeMaskedRowEntry` | utils.py:57-59 | the denominator is the absolute sum over eligible entries only; an eligible present weight is divided by it, every other entry is 0, and all are 0 when that sum is 0 |
| `Utils.NormalizeMaskedIgnoresIneligible` | utils.py:57-59 | two weight rows that agree on every eligible entry give the same output: ineligible values never reach it |
| `Utils.WhereElseOfMaskedRow` | utils.py:57 | masking the masked renormalizer's output with the same mask changes nothing |
| `Utils.NormalizeMaskedIdempotent` | utils.py:56-59 | renormalizing twice with unchanged eligibility returns the identical row |
| `Utils.NormalizeWeightsMaskedIdempotent` | utils.py:56-59 | `normalize_weights_masked` twice with the same mask equals once, on any panel |
| `Utils.NormalizeMaskedIsNormalizeOfEligible` | utils.py:56-64 | `normalize_weights_masked(w, m)` equals `normalize_weights(apply_eligibility(w, m))` |
| `Utils.NormalizeMaskedScenario` | utils.py:56-59 | the row [0.5, NaN, 0.5] with eligibility [true, true, false] renormalizes to [1, 0, 0] |
| `Utils.ExecRow` | utils.py:70-77 | one execution row: never missing, 0 wherever today's eligibility is false; it is the masked renormalizer applied to the lagged row with NaNs read as 0; absolute sum 1 exactly when an asset eligible today has a non-zero lagged weight, otherwise all zeros |
| `Utils.CalcExecWeights` | utils.py:66-79 | shape of the eligibility panel, no missing entry; the first row is all zeros whatever the decisions; every later row t is `normalize_weights_masked` of decision row t-1 (NaNs read as 0) under eligibility row t; 0 wherever today's eligibility is false; a row sums in absolute value to 1 exactly when an asset eligible at t had a non-zero decision at t-1, and is all zeros otherwise |
| `Utils.ExecFirstRow` | utils.py:70 | a row with no prior decision (all NaN after the shift) executes as all zeros under any eligibility |
| `Utils.CalcExecWeightsNoLookAhead` | utils.py:70-77 | row t of the output is determined by decision row t-1 and eligibility row t alone (row 0 by its eligibility row) |
| `Utils.CalcExecWeightsPrefix` | utils.py:70-77 | truncating both inputs after k periods gives the first k output rows unchanged: later periods never affect earlier rows |
| `Utils.ExecRowIsMaskedNormalize` | utils.py:73-77 | the plain renormalizer applied after masking gives the same weights as the masked renormalizer with today's eligibility |
| `Utils.CalcExecWeightsScenario` | utils.py:66-79 | decisions [[0.6, 0.4], [0.3, 0.7]] with eligibility [[true, true], [true, false]] execute as [[0, 0], [1, 0]] |
| `Utils.DemeanSum` | utils.py:51-54 | the chain where, mean, sub, where(mask, 0), fillna(0) yields a row whose sum is 0 |
| `Utils.DemeanMaskedRow` | utils.py:50-54 | never missing; 0 wherever the entry is masked out or missing; an eligible present entry is its value minus the mean of the eligible present entries; the row sums to 0 |
| `Utils.DemeanXsMasked` | utils.py:50-54 | on a panel: same shape, no missing entry, 0 where masked or missing; an eligible present entry is its value minus the mean of its row's eligible present entries; every row sums to 0 |
| `Utils.DemeanMaskedIdempotent` | utils.py:50-54 | demeaning a demeaned row with the same mask returns the identical row |
| `Utils.DemeanMaskedIgnoresIneligible` | utils.py:51-54 | two rows that agree on every eligible entry demean to the same row |
| `Utils.DemeanMaskedOffsetInvariant` | utils.py:51-53 | adding one constant to every present entry leaves the masked demeaned row unchanged |
| `Utils.RankSignalMask` | utils.py:40-42 | with no eligibility panel the signal passes unchanged; with one, an entry is missing exactly when it is ineligible or was missing, and eligible entries are kept |
| `Utils.RankMaskThenFillIsApplyEligibility` | utils.py:42 | masking to NaN as the rank step does, then filling with 0, is `apply_eligibility` |
| `Frame.Where` | utils.py:42 | `where(cond)`: an entry is kept where the mask holds and becomes NaN elsewhere |
| `Frame.WhereElse` | utils.py:54 | `where(cond, 0.0)`: an entry is kept where the mask holds, a NaN there included, and becomes the given value elsewhere |
| `Frame.FillNa` | utils.py:64 | `fillna(v)`: a NaN becomes `v`, every present entry is kept |
| `Frame.Div` | utils.py:59 | `div(denom, axis=0)`: NaN over anything, or anything over a NaN denominator, is NaN; the denominator is never 0, which `ReplaceZero` guarantees at every call |
| `Frame.Sub` | utils.py:53 | `sub(mu, axis=0)`: a present entry less a present mean; NaN when either is NaN |
| `Frame.Shift` | utils.py:70 | `shift(1)`: same length; row t holds input row t-1; row 0 is all missing, of the first row's width |
| `Frame.ReplaceZero` | utils.py:58 | the denominator after `replace(0, np.nan)` is never 0, and it is missing exactly when the sum was 0 |
| `Frame.AbsSum` | utils.py:58 | `abs().sum(axis=1)` skipping NaN is never negative |
| `Frame.Mean` | utils.py:52 | `mean(axis=1, skipna=True)` is missing exactly when no entry of the row is present |
| `Frame.AbsSumZeroIff` | utils.py:58 | a row's absolute sum is 0 exactly when every entry is missing or 0 |
| `Frame.AbsSumScaled` | utils.py:59 | dividing every entry's absolute value by d > 0 divides the absolute sum by d |

## Left out

- `calc_returns` (utils.py:4-5): unmasked price division. Its zero-price
  behaviour follows IEEE infinity and NaN rules, which reals do not have.
- `calc_stats` (utils.py:7-29): floating-point statistics (standard
  deviation, square root, cumulative products and maxima, annualization).
  It has no structural invariant to verify.
- `winsorize_xs` (utils.py:31-34): depends on pandas' interpolated
  `quantile`, a library algorithm not part of this model.
- `winsorize_ts` (utils.py:36-38): a plain clip, outside the weight pipeline.
- `demean_xs` (utils.py:47-48): the unmasked demeaning, outside the pipeline.
- `zscore_xs` (utils.py:81-84): needs a sample standard deviation, hence a
  square root.
- The ranking in `rank_signal_xs` (utils.py:44): `rank(pct=True)` has
  pandas' average-ties semantics, not shown. Only the masking at
  utils.py:42 is modelled.
- pandas label alignment and broadcasting in `where`, `div` and `sub`.
  The model requires equal-shape panels (`Conforms`), and rectangular
  decision panels for `CalcExecWeights`.
- Floating point: rounding, signed zero and infinities are not modelled.
  Arithmetic is exact, so the absolute sums are exactly 0 or 1 rather
  than within a tolerance.
- `Frame.Shift` models `shift(1)` only, the one lag the code uses.
