/** Sums and means of real-valued columns, with pandas' treatment of missing
    cells: aggregates skip them, and the mean of a column with no present
    value is itself missing.
 */
module Numbers {
  import opened Options

  /** Sum of a sequence, folded from the right end so that appending one value
      adds exactly that value. */
  function Sum(xs: seq<real>): real {
    if |xs| == 0 then 0.0 else Sum(xs[..|xs| - 1]) + xs[|xs| - 1]
  }

  /** Arithmetic mean of a non-empty sequence. */
  function Mean(xs: seq<real>): real
    requires |xs| > 0
  {
    Sum(xs) / (|xs| as real)
  }

  /** The present values of a column, in row order. */
  function Present(col: seq<Option<real>>): (xs: seq<real>)
    ensures |xs| <= |col|
  {
    if |col| == 0 then []
    else Present(col[..|col| - 1]) + (if col[|col| - 1].Some? then [col[|col| - 1].value] else [])
  }

  /** The number of missing cells in a column. */
  function MissingCount(col: seq<Option<real>>): nat {
    if |col| == 0 then 0
    else MissingCount(col[..|col| - 1]) + (if col[|col| - 1].None? then 1 else 0)
  }

  /** The column mean as pandas computes it: over present cells only, and
      missing when there is none. */
  function ObservedMean(col: seq<Option<real>>): Option<real> {
    if |Present(col)| == 0 then None else Some(Mean(Present(col)))
  }

  /** Every cell of a column is missing; exactly the case in which the
      observed mean is missing. */
  predicate AllMissing(col: seq<Option<real>>) {
    forall i :: 0 <= i < |col| ==> col[i].None?
  }

  /** Replaces every missing cell by `v` (pandas `fillna(v)`; filling with
      NaN leaves the cell missing). */
  function FillMissing(col: seq<Option<real>>, v: Option<real>): (r: seq<Option<real>>)
    ensures |r| == |col|
    ensures forall i :: 0 <= i < |col| && col[i].Some? ==> r[i] == col[i]
    ensures forall i :: 0 <= i < |col| && col[i].None? ==> r[i] == v
  {
    seq(|col|, i requires 0 <= i < |col| => if col[i].None? then v else col[i])
  }

  lemma {:induction false} SumAppend(xs: seq<real>, ys: seq<real>)
    ensures Sum(xs + ys) == Sum(xs) + Sum(ys)
    decreases |ys|
  {
    if |ys| == 0 {
      assert xs + ys == xs;
    } else {
      var n := |ys| - 1;
      assert (xs + ys)[..|xs + ys| - 1] == xs + ys[..n];
      SumAppend(xs, ys[..n]);
    }
  }

  /** Present cells plus missing cells account for every row. */
  lemma {:induction false} PresentPlusMissing(col: seq<Option<real>>)
    ensures |Present(col)| + MissingCount(col) == |col|
    decreases |col|
  {
    if |col| > 0 {
      PresentPlusMissing(col[..|col| - 1]);
    }
  }

  /** The observed mean is missing exactly when every cell is missing. */
  lemma {:induction false} ObservedMeanMissingIff(col: seq<Option<real>>)
    ensures ObservedMean(col).None? <==> AllMissing(col)
    decreases |col|
  {
    if |col| > 0 {
      var init := col[..|col| - 1];
      ObservedMeanMissingIff(init);
      if col[|col| - 1].None? {
        assert AllMissing(col) <==> AllMissing(init) by {
          if AllMissing(init) {
            forall i | 0 <= i < |col| ensures col[i].None? {
              if i < |col| - 1 { assert col[i] == init[i]; }
            }
          }
          if AllMissing(col) {
            forall i | 0 <= i < |init| ensures init[i].None? {
              assert init[i] == col[i];
            }
          }
        }
      } else {
        assert !AllMissing(col);
      }
    }
  }

  /** The column read with `v` in place of each missing cell. */
  function WithDefault(col: seq<Option<real>>, v: real): (xs: seq<real>)
    ensures |xs| == |col|
  {
    if |col| == 0 then [] else WithDefault(col[..|col| - 1], v) + [col[|col| - 1].GetOr(v)]
  }

  /** Once the missing cells are filled with `v`, the present values are the
      whole column read with `v` in place of each missing cell. */
  lemma {:induction false} PresentOfFilled(col: seq<Option<real>>, v: real)
    ensures Present(FillMissing(col, Some(v))) == WithDefault(col, v)
    decreases |col|
  {
    var filled := FillMissing(col, Some(v));
    if |col| > 0 {
      var n := |col| - 1;
      PresentOfFilled(col[..n], v);
      assert filled[..n] == FillMissing(col[..n], Some(v));
    }
  }

  /** `v` added to itself `n` times. */
  function Repeat(n: nat, v: real): real {
    if n == 0 then 0.0 else Repeat(n - 1, v) + v
  }

  lemma {:induction false} RepeatIsProduct(n: nat, v: real)
    ensures Repeat(n, v) == (n as real) * v
  {
    if n > 0 {
      RepeatIsProduct(n - 1, v);
      assert (n as real) * v == ((n - 1) as real) * v + v;
    }
  }

  /** Reading the column with `v` in place of each missing cell adds `v`
      once per missing cell to the sum of the present values. */
  lemma {:induction false} SumWithDefault(col: seq<Option<real>>, v: real)
    ensures Sum(WithDefault(col, v)) == Sum(Present(col)) + Repeat(MissingCount(col), v)
    decreases |col|
  {
    if |col| > 0 {
      SumWithDefault(col[..|col| - 1], v);
      SumWithDefaultStep(col, v);
    }
  }

  /** The last cell of a column, present or missing, adds the same amount
      to both sides of `SumWithDefault`. */
  lemma SumWithDefaultStep(col: seq<Option<real>>, v: real)
    requires |col| > 0
    ensures var init := col[..|col| - 1];
      Sum(WithDefault(col, v)) - Sum(Present(col)) - Repeat(MissingCount(col), v)
      == Sum(WithDefault(init, v)) - Sum(Present(init)) - Repeat(MissingCount(init), v)
  {
    var n := |col| - 1;
    WithDefaultSnoc(col, v);
    if col[n].Some? {
      PresentSnocSome(col);
    } else {
      assert Present(col) == Present(col[..n]);
      RepeatSucc(MissingCount(col[..n]), v);
    }
  }

  lemma WithDefaultSnoc(col: seq<Option<real>>, v: real)
    requires |col| > 0
    ensures Sum(WithDefault(col, v)) == Sum(WithDefault(col[..|col| - 1], v)) + col[|col| - 1].GetOr(v)
  {
    var n := |col| - 1;
    assert WithDefault(col, v)[..n] == WithDefault(col[..n], v);
  }

  lemma PresentSnocSome(col: seq<Option<real>>)
    requires |col| > 0 && col[|col| - 1].Some?
    ensures Sum(Present(col)) == Sum(Present(col[..|col| - 1])) + col[|col| - 1].value
  {
    var n := |col| - 1;
    assert Present(col) == Present(col[..n]) + [col[n].value];
    SumSnoc(Present(col[..n]), col[n].value);
  }

  lemma SumSnoc(xs: seq<real>, x: real)
    ensures Sum(xs + [x]) == Sum(xs) + x
  {
    assert (xs + [x])[..|xs|] == xs;
  }

  lemma RepeatSucc(k: nat, v: real)
    ensures Repeat(k + 1, v) == Repeat(k, v) + v
  {
  }

  /** Filling the missing cells with `v` makes every cell present and adds
      `v` once per missing cell to the sum. */
  lemma FillMissingSum(col: seq<Option<real>>, v: real)
    ensures Sum(Present(FillMissing(col, Some(v)))) == Sum(Present(col)) + Repeat(MissingCount(col), v)
    ensures |Present(FillMissing(col, Some(v)))| == |col|
  {
    PresentOfFilled(col, v);
    SumWithDefault(col, v);
  }

  /** Padding `p` values of mean `m` with `k` copies of `m` keeps the mean. */
  lemma PaddedMean(s: real, p: nat, k: nat, m: real)
    requires p > 0 && m == s / (p as real)
    ensures (s + (k as real) * m) / ((p + k) as real) == m
  {
    assert s == m * (p as real);
    assert s + (k as real) * m == m * ((p + k) as real);
  }

  /** Mean imputation keeps the mean: after every missing cell is filled with
      the observed mean, the mean of the whole column is that same value. */
  lemma MeanImputationKeepsMean(col: seq<Option<real>>)
    requires ObservedMean(col).Some?
    ensures ObservedMean(FillMissing(col, ObservedMean(col))) == ObservedMean(col)
  {
    var m := ObservedMean(col).value;
    var p := |Present(col)|;
    var k := MissingCount(col);
    var s := Sum(Present(col));
    FillMissingSum(col, m);
    RepeatIsProduct(k, m);
    PresentPlusMissing(col);
    PaddedMean(s, p, k, m);
    var filled := Present(FillMissing(col, Some(m)));
    assert Sum(filled) == s + (k as real) * m;
    assert |filled| == p + k;
    assert Mean(filled) == m;
  }

  /** `(v - mean) / scale`: a value in units of `scale` from `mean`. */
  function ToStandard(v: real, mean: real, scale: real): real
    requires scale != 0.0
  {
    (v - mean) / scale
  }

  /** `z * scale + mean`: the value `z` standard units away from `mean`. */
  function FromStandard(z: real, mean: real, scale: real): real {
    z * scale + mean
  }

  lemma {:induction false} FromToStandard(v: real, mean: real, scale: real)
    requires scale != 0.0
    ensures FromStandard(ToStandard(v, mean, scale), mean, scale) == v
  {
    QuotientTimesDivisor(v - mean, scale);
  }

  /** Standard scaling of one cell; a missing cell stays missing. */
  function Standardize(x: Option<real>, mean: real, scale: real): (y: Option<real>)
    requires scale != 0.0
    ensures y.Some? <==> x.Some?
  {
    match x
    case Some(v) => Some(ToStandard(v, mean, scale))
    case None => None
  }

  /** The inverse of standard scaling. */
  function Destandardize(y: Option<real>, mean: real, scale: real): Option<real> {
    match y
    case Some(z) => Some(FromStandard(z, mean, scale))
    case None => None
  }

  lemma StandardizeRoundTrip(x: Option<real>, mean: real, scale: real)
    requires scale != 0.0
    ensures Destandardize(Standardize(x, mean, scale), mean, scale) == x
  {
    if x.Some? {
      FromToStandard(x.value, mean, scale);
    }
  }

  /** Standard scaling of a whole column. */
  function StandardizeColumn(col: seq<Option<real>>, mean: real, scale: real): (r: seq<Option<real>>)
    requires scale != 0.0
    ensures |r| == |col|
  {
    if |col| == 0 then []
    else StandardizeColumn(col[..|col| - 1], mean, scale) + [Standardize(col[|col| - 1], mean, scale)]
  }

  /** Every value of `xs` standardized. */
  function Shifted(xs: seq<real>, mean: real, scale: real): (ys: seq<real>)
    requires scale != 0.0
    ensures |ys| == |xs|
  {
    if |xs| == 0 then []
    else Shifted(xs[..|xs| - 1], mean, scale) + [ToStandard(xs[|xs| - 1], mean, scale)]
  }

  /** The present cells of a standardized column are the standardized
      present cells. */
  lemma {:induction false} PresentOfStandardized(col: seq<Option<real>>, mean: real, scale: real)
    requires scale != 0.0
    ensures Present(StandardizeColumn(col, mean, scale)) == Shifted(Present(col), mean, scale)
    decreases |col|
  {
    if |col| > 0 {
      PresentOfStandardized(col[..|col| - 1], mean, scale);
      StandardizedSnoc(col, mean, scale);
      ShiftedPresentSnoc(col, mean, scale);
    }
  }

  /** The standardized last cell, as a list of zero or one present values. */
  function LastStandardized(col: seq<Option<real>>, mean: real, scale: real): seq<real>
    requires |col| > 0 && scale != 0.0
  {
    var x := col[|col| - 1];
    if x.Some? then [ToStandard(x.value, mean, scale)] else []
  }

  lemma StandardizedSnoc(col: seq<Option<real>>, mean: real, scale: real)
    requires |col| > 0 && scale != 0.0
    ensures Present(StandardizeColumn(col, mean, scale))
      == Present(StandardizeColumn(col[..|col| - 1], mean, scale)) + LastStandardized(col, mean, scale)
  {
    var n := |col| - 1;
    var std := StandardizeColumn(col, mean, scale);
    assert std[..n] == StandardizeColumn(col[..n], mean, scale);
  }

  lemma ShiftedPresentSnoc(col: seq<Option<real>>, mean: real, scale: real)
    requires |col| > 0 && scale != 0.0
    ensures Shifted(Present(col), mean, scale)
      == Shifted(Present(col[..|col| - 1]), mean, scale) + LastStandardized(col, mean, scale)
  {
    var n := |col| - 1;
    var p := Present(col[..n]);
    if col[n].Some? {
      assert Present(col) == p + [col[n].value];
      assert (p + [col[n].value])[..|p|] == p;
    } else {
      assert Present(col) == p;
    }
  }

  /** Standardizing `n` values shifts their sum by `n` means and divides it
      by the scale. */
  lemma {:induction false} SumShifted(xs: seq<real>, mean: real, scale: real)
    requires scale != 0.0
    ensures Sum(Shifted(xs, mean, scale)) == (Sum(xs) - Repeat(|xs|, mean)) / scale
    decreases |xs|
  {
    if |xs| == 0 {
      assert Sum(Shifted(xs, mean, scale)) == 0.0;
    } else {
      var n := |xs| - 1;
      SumShifted(xs[..n], mean, scale);
      var ys := Shifted(xs, mean, scale);
      assert ys[..n] == Shifted(xs[..n], mean, scale);
      AddQuotients(Sum(xs[..n]) - Repeat(n, mean), xs[n] - mean, scale);
    }
  }

  /** Scaling a column by its own observed mean centres it: the observed
      mean of the scaled column is zero. */
  lemma StandardizedColumnCentred(col: seq<Option<real>>, mean: real, scale: real)
    requires scale != 0.0 && ObservedMean(col) == Some(mean)
    ensures ObservedMean(StandardizeColumn(col, mean, scale)) == Some(0.0)
  {
    PresentOfStandardized(col, mean, scale);
    ShiftedByMean(Present(col), mean, scale);
  }

  /** Values standardized by their own mean have mean zero. */
  lemma ShiftedByMean(xs: seq<real>, mean: real, scale: real)
    requires scale != 0.0 && |xs| > 0 && mean == Mean(xs)
    ensures Mean(Shifted(xs, mean, scale)) == 0.0
  {
    SumShifted(xs, mean, scale);
    RepeatIsProduct(|xs|, mean);
    CentredQuotient(Sum(Shifted(xs, mean, scale)), Sum(xs), Repeat(|xs|, mean), |xs| as real, mean, scale);
  }

  /** The arithmetic of centring: `n` values of sum `s`, less `n` times
      their mean, sum to zero however they are scaled. */
  lemma CentredQuotient(total: real, s: real, shift: real, n: real, mean: real, scale: real)
    requires scale != 0.0 && n > 0.0
    requires total == (s - shift) / scale && shift == n * mean && mean == s / n
    ensures total / n == 0.0
  {
    CountTimesMean(s, n);
  }

  lemma QuotientTimesDivisor(a: real, b: real)
    requires b != 0.0
    ensures (a / b) * b == a
  {
  }

  lemma AddQuotients(a: real, b: real, c: real)
    requires c != 0.0
    ensures a / c + b / c == (a + b) / c
  {
  }

  lemma CountTimesMean(s: real, n: real)
    requires n > 0.0
    ensures n * (s / n) == s
  {
  }
}
