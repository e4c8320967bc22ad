/** The DataFrame operations the weight pipeline is built from, on a
    time x asset panel of optional reals. `None` is pandas' NaN: a missing
    entry, distinct from 0. Every row-wise operation (`where`, `fillna`,
    `div` and `sub` along axis 0, the axis-1 reductions) is a function on
    one row; `Shift` is the only operation that moves data between rows. */
module Frame {

  datatype Option<+T> = None | Some(value: T)

  /** One entry of a frame; `None` is NaN. */
  type Cell = Option<real>
  /** One time period of a frame, one cell per asset. */
  type Row = seq<Cell>
  /** A frame: rows are time periods, oldest first. */
  type Panel = seq<Row>
  /** One time period of a boolean frame (eligibility or mask). */
  type MaskRow = seq<bool>
  /** A boolean frame. */
  type Mask = seq<MaskRow>

  /** Two frames with the same index and the same columns, so that pandas'
      label alignment never has to invent or drop an entry. */
  predicate Conforms<A, B>(a: seq<seq<A>>, b: seq<seq<B>>)
  {
    |a| == |b| && forall t :: 0 <= t < |a| ==> |a[t]| == |b[t]|
  }

  /** Every row has the columns of the first one, as in any DataFrame. */
  predicate Rectangular<A>(a: seq<seq<A>>)
  {
    forall t :: 0 <= t < |a| ==> |a[t]| == |a[0]|
  }

  /** No entry of the row is NaN. */
  predicate Complete(x: Row)
  {
    forall i :: 0 <= i < |x| ==> x[i].Some?
  }

  /** No entry of the frame is NaN. */
  predicate CompletePanel(p: Panel)
  {
    forall t :: 0 <= t < |p| ==> Complete(p[t])
  }

  /** Every entry of the row is exactly 0 (and not NaN). */
  predicate AllZero(x: Row)
  {
    forall i :: 0 <= i < |x| ==> x[i] == Some(0.0)
  }

  /** A row of `n` NaNs. */
  function NaNRow(n: nat): Row
  {
    seq(n, _ => None)
  }

  // ------------------------------------------------------------------
  // Element-wise operations
  // ------------------------------------------------------------------

  /** `x.where(m)`: keeps an entry where the mask holds, NaN elsewhere. */
  function Where(x: Row, m: MaskRow): Row
    requires |x| == |m|
  {
    seq(|x|, i requires 0 <= i < |x| => if m[i] then x[i] else None)
  }

  /** `x.where(m, other)`: keeps an entry where the mask holds, `other`
      elsewhere; a NaN where the mask holds stays NaN. */
  function WhereElse(x: Row, m: MaskRow, other: real): Row
    requires |x| == |m|
  {
    seq(|x|, i requires 0 <= i < |x| => if m[i] then x[i] else Some(other))
  }

  /** `x.fillna(v)`. */
  function FillNa(x: Row, v: real): Row
  {
    seq(|x|, i requires 0 <= i < |x| => if x[i].Some? then x[i] else Some(v))
  }

  /** `x.div(d, axis=0)` for one row: NaN over anything and anything over a
      NaN denominator are NaN. The denominator reaching this operation has
      been through `ReplaceZero`, so it is never 0. */
  function Div(x: Row, d: Cell): Row
    requires d != Some(0.0)
  {
    seq(|x|, i requires 0 <= i < |x| =>
      if x[i].Some? && d.Some? then Some(x[i].value / d.value) else None)
  }

  /** `x.sub(mu, axis=0)` for one row, NaN propagating from either side. */
  function Sub(x: Row, mu: Cell): Row
  {
    seq(|x|, i requires 0 <= i < |x| =>
      if x[i].Some? && mu.Some? then Some(x[i].value - mu.value) else None)
  }

  /** `.replace(0, np.nan)` applied to one row's reduction. */
  function ReplaceZero(d: real): (r: Cell)
    ensures r != Some(0.0)
    ensures r.Some? <==> d != 0.0
  {
    if d == 0.0 then None else Some(d)
  }

  // ------------------------------------------------------------------
  // Reductions along axis 1, skipping NaN
  // ------------------------------------------------------------------

  /** What one entry contributes to `x.abs().sum(axis=1)`: NaN adds nothing. */
  function AbsCell(c: Cell): real
  {
    match c
    case None => 0.0
    case Some(v) => if v < 0.0 then -v else v
  }

  /** What one entry contributes to `x.sum(axis=1)`: NaN adds nothing. */
  function ValueCell(c: Cell): real
  {
    match c
    case None => 0.0
    case Some(v) => v
  }

  /** `x.abs().sum(axis=1)` for one row; an all-NaN or empty row sums to 0. */
  function AbsSum(x: Row): (r: real)
    ensures r >= 0.0
  {
    if |x| == 0 then 0.0 else AbsCell(x[0]) + AbsSum(x[1..])
  }

  /** `x.sum(axis=1)` for one row, skipping NaN. */
  function Sum(x: Row): real
  {
    if |x| == 0 then 0.0 else ValueCell(x[0]) + Sum(x[1..])
  }

  /** `x.count(axis=1)`: how many entries of the row are not NaN. */
  function Count(x: Row): (n: nat)
    ensures n <= |x|
  {
    if |x| == 0 then 0 else (if x[0].Some? then 1 else 0) + Count(x[1..])
  }

  /** `x.mean(axis=1, skipna=True)` for one row: NaN when no entry is present. */
  function Mean(x: Row): (r: Cell)
    ensures r.Some? <==> Count(x) > 0
  {
    if Count(x) == 0 then None else Some(Sum(x) / Count(x) as real)
  }

  // ------------------------------------------------------------------
  // The one operation across rows
  // ------------------------------------------------------------------

  /** `p.shift(1)`: row t holds row t-1 of `p`; row 0 is all NaN. */
  function Shift(p: Panel): (r: Panel)
    ensures |r| == |p|
    ensures |p| > 0 ==> r[0] == NaNRow(|p[0]|)
    ensures forall t :: 0 < t < |p| ==> r[t] == p[t - 1]
  {
    seq(|p|, t requires 0 <= t < |p| => if t == 0 then NaNRow(|p[0]|) else p[t - 1])
  }

  // ------------------------------------------------------------------
  // Facts about the reductions
  // ------------------------------------------------------------------

  /** The absolute sum is 0 exactly when every entry is NaN or 0. */
  lemma {:induction false} AbsSumZeroIff(x: Row)
    ensures AbsSum(x) == 0.0 <==> forall i :: 0 <= i < |x| ==> AbsCell(x[i]) == 0.0
  {
    if |x| > 0 {
      AbsSumZeroIff(x[1..]);
      assert forall i :: 1 <= i < |x| ==> x[1..][i - 1] == x[i];
    }
  }

  /** Dividing every entry's absolute value by `d` divides the absolute sum by `d`. */
  lemma {:induction false} AbsSumScaled(x: Row, r: Row, d: real)
    requires |r| == |x| && d > 0.0
    requires forall i :: 0 <= i < |x| ==> AbsCell(r[i]) == AbsCell(x[i]) / d
    ensures AbsSum(r) == AbsSum(x) / d
  {
    if |x| > 0 {
      assert forall i :: 0 <= i < |x| - 1 ==> x[1..][i] == x[i + 1] && r[1..][i] == r[i + 1];
      AbsSumScaled(x[1..], r[1..], d);
      DivAdd(AbsCell(x[0]), AbsSum(x[1..]), d);
    }
  }

  /** No entry present means nothing counted and a sum of 0. */
  lemma {:induction false} CountZeroIff(x: Row)
    ensures Count(x) == 0 <==> forall i :: 0 <= i < |x| ==> x[i].None?
    ensures Count(x) == 0 ==> Sum(x) == 0.0
  {
    if |x| > 0 {
      CountZeroIff(x[1..]);
      assert forall i :: 1 <= i < |x| ==> x[1..][i - 1] == x[i];
    }
  }

  /** Rows with the same missing entries have the same count. */
  lemma {:induction false} CountSamePresence(x: Row, y: Row)
    requires |x| == |y|
    requires forall i :: 0 <= i < |x| ==> x[i].Some? == y[i].Some?
    ensures Count(x) == Count(y)
  {
    if |x| > 0 {
      assert forall i :: 0 <= i < |x| - 1 ==> x[1..][i] == x[i + 1] && y[1..][i] == y[i + 1];
      CountSamePresence(x[1..], y[1..]);
    }
  }

  /** Subtracting `c` from every present entry of `y`, and writing 0 for
      every missing one, lowers the sum by `c` once per present entry. */
  lemma {:induction false} SumShifted(y: Row, r: Row, c: real)
    requires |r| == |y|
    requires forall i :: 0 <= i < |y| ==>
      ValueCell(r[i]) == (if y[i].Some? then y[i].value - c else 0.0)
    ensures Sum(r) == Sum(y) - Count(y) as real * c
  {
    if |y| > 0 {
      assert forall i :: 0 <= i < |y| - 1 ==> y[1..][i] == y[i + 1] && r[1..][i] == r[i + 1];
      SumShifted(y[1..], r[1..], c);
    }
  }

  // ------------------------------------------------------------------
  // Division of reals by a positive denominator
  // ------------------------------------------------------------------

  /** Division by a positive constant distributes over a sum. */
  lemma DivAdd(a: real, b: real, d: real)
    requires d > 0.0
    ensures a / d + b / d == (a + b) / d
  {
  }

  /** A non-zero number divided by itself is 1. */
  lemma DivSelf(d: real)
    requires d != 0.0
    ensures d / d == 1.0
  {
  }

  /** Division by a positive number keeps the sign. */
  lemma DivSign(a: real, d: real)
    requires d > 0.0
    ensures a / d > 0.0 <==> a > 0.0
    ensures a / d < 0.0 <==> a < 0.0
    ensures a / d == 0.0 <==> a == 0.0
  {
    var p := a / d;
    assert p * d == a;
    if p > 0.0 { assert p * d > 0.0; }
    if p < 0.0 { assert p * d < 0.0; }
  }

  /** Division by a positive number keeps cross products, hence ratios. */
  lemma DivCross(a: real, b: real, d: real)
    requires d > 0.0
    ensures (a / d) * b == (b / d) * a
  {
    var p, q := a / d, b / d;
    assert p * d == a && q * d == b;
    calc {
      p * b;
      p * (q * d);
      (p * d) * q;
      a * q;
    }
  }

  /** `p` is to `u` as `q` is to `v`, stated without division. */
  predicate Proportional(p: real, u: real, q: real, v: real)
  {
    p * v == q * u
  }

  /** Two zeros are in proportion to any two numbers. */
  lemma ProportionalZero(u: real, v: real)
    ensures Proportional(0.0, u, 0.0, v)
  {
  }

  /** Two numbers divided by the same positive number keep their signs and
      their proportion. */
  lemma DivPair(a: real, b: real, ra: real, rb: real, d: real)
    requires d > 0.0 && ra == a / d && rb == b / d
    ensures (ra > 0.0 <==> a > 0.0) && (ra < 0.0 <==> a < 0.0)
    ensures Proportional(ra, a, rb, b)
  {
    DivSign(a, d);
    DivCross(a, b, d);
  }

  /** The absolute value of a quotient by a positive number. */
  lemma AbsCellDiv(v: real, d: real)
    requires d > 0.0
    ensures AbsCell(Some(v / d)) == AbsCell(Some(v)) / d
  {
    DivSign(v, d);
    var p := v / d;
    assert p * d == v;
    assert (-p) * d == -v;
  }
}
