/**
 * Evaluation protocol of the forecaster (src/forecast_model.py): the
 * chronological 90/10 split of the hourly series and the zero-safe mean
 * absolute percentage error. Fitting and predicting are foreign calls; the
 * forecast enters only as the sequence of its `yhat` values.
 */
module Forecast {
  import Seqs
  import Hourly

  /** `int(n * 0.9)`: the length of the training prefix. */
  function SplitPoint(n: nat): (k: nat)
    ensures k <= n
    ensures 10 * k <= 9 * n < 10 * k + 10
    ensures n >= 1 ==> k < n
  {
    n * 9 / 10
  }

  /** `df.iloc[:split_point]` and `df.iloc[split_point:]`. */
  function TrainTestSplit<T>(series: seq<T>): (r: (seq<T>, seq<T>))
    ensures r.0 + r.1 == series
    ensures |r.0| == SplitPoint(|series|)
    ensures |series| >= 1 ==> |r.1| >= 1
  {
    var k := SplitPoint(|series|);
    (series[..k], series[k..])
  }

  /** The training rows of an hourly series all precede its held-out rows in time. */
  lemma HourlySplitIsChronological(ts: seq<int>, i: nat, j: nat)
    requires i < |TrainTestSplit(Hourly.HourlyDemand(ts)).0|
    requires j < |TrainTestSplit(Hourly.HourlyDemand(ts)).1|
    ensures TrainTestSplit(Hourly.HourlyDemand(ts)).0[i].ds < TrainTestSplit(Hourly.HourlyDemand(ts)).1[j].ds
  {
    var series := Hourly.HourlyDemand(ts);
    var k := SplitPoint(|series|);
    Hourly.HoursIncrease(ts, i, k + j);
  }

  /** Python's `xs[-k:]`: the last `k` elements, except that `xs[-0:]` is all of `xs`. */
  function LastItems<T>(xs: seq<T>, k: nat): (r: seq<T>)
    ensures 0 < k <= |xs| ==> |r| == k && r == xs[|xs| - k..]
    ensures k == 0 ==> r == xs
    ensures k >= |xs| ==> r == xs
  {
    if k == 0 || k >= |xs| then xs else xs[|xs| - k..]
  }

  /**
   * `y_true = test_df['y']` and `y_pred = forecast_eval['yhat'][-len(test_df):]`,
   * where the forecast covers the training history plus the held-out horizon.
   * The held-out suffix is never empty for a non-empty series, so the slice
   * picks exactly the predictions for the held-out hours.
   */
  function EvaluationPairs(series: seq<Hourly.DemandPoint>, yhat: seq<real>): (r: (seq<real>, seq<real>))
    requires |yhat| == |series|
    ensures |r.0| == |r.1| == |series| - SplitPoint(|series|)
    ensures forall i :: 0 <= i < |r.0| ==>
      r.0[i] == series[SplitPoint(|series|) + i].y as real && r.1[i] == yhat[SplitPoint(|series|) + i]
  {
    var test := TrainTestSplit(series).1;
    var yTrue := seq(|test|, i requires 0 <= i < |test| => test[i].y as real);
    (yTrue, LastItems(yhat, |test|))
  }

  function Abs(x: real): (r: real)
    ensures r >= 0.0 && (r == x || r == -x)
  {
    if x < 0.0 then -x else x
  }

  /** Pairs (actual, predicted). */
  function Zip(actual: seq<real>, predicted: seq<real>): (r: seq<(real, real)>)
    requires |actual| == |predicted|
    ensures |r| == |actual| && forall i :: 0 <= i < |r| ==> r[i] == (actual[i], predicted[i])
  {
    seq(|actual|, i requires 0 <= i < |actual| => (actual[i], predicted[i]))
  }

  /** `non_zero_mask`. */
  predicate ActualNonZero(pair: (real, real)) {
    pair.0 != 0.0
  }

  /** Sum of |(actual - predicted) / actual| over pairs with a non-zero actual. */
  function AbsPctErrorSum(pairs: seq<(real, real)>): (s: real)
    requires forall i :: 0 <= i < |pairs| ==> ActualNonZero(pairs[i])
    ensures s >= 0.0
  {
    if pairs == [] then 0.0
    else
      assert ActualNonZero(pairs[0]);
      Abs((pairs[0].0 - pairs[0].1) / pairs[0].0) + AbsPctErrorSum(pairs[1..])
  }

  /** The pairs kept by `non_zero_mask`. */
  function Masked(actual: seq<real>, predicted: seq<real>): (r: seq<(real, real)>)
    requires |actual| == |predicted|
    ensures r == [] <==> forall i :: 0 <= i < |actual| ==> actual[i] == 0.0
  {
    var pairs := Zip(actual, predicted);
    var kept := Seqs.Filter(pairs, ActualNonZero);
    if kept != [] then
      Seqs.FilterMembership(pairs, ActualNonZero, kept[0]);
      kept
    else
      assert forall i :: 0 <= i < |actual| ==> actual[i] == 0.0 by {
        forall i | 0 <= i < |actual| ensures actual[i] == 0.0 {
          Seqs.FilterMembership(pairs, ActualNonZero, pairs[i]);
        }
      }
      kept
  }

  /** `calculate_mape`: 0 when every actual is zero, else 100 times the mean over the masked pairs. */
  function Mape(actual: seq<real>, predicted: seq<real>): (m: real)
    requires |actual| == |predicted|
    ensures m >= 0.0
    ensures (forall i :: 0 <= i < |actual| ==> actual[i] == 0.0) ==> m == 0.0
  {
    var masked := Masked(actual, predicted);
    if |masked| == 0 then 0.0
    else AbsPctErrorSum(masked) / (|masked| as real) * 100.0
  }

  lemma {:induction false} ZipConcat(a1: seq<real>, p1: seq<real>, a2: seq<real>, p2: seq<real>)
    requires |a1| == |p1| && |a2| == |p2|
    ensures Zip(a1 + a2, p1 + p2) == Zip(a1, p1) + Zip(a2, p2)
  {
  }

  /** A pair whose actual is zero does not affect MAPE, wherever it is inserted. */
  lemma ZeroActualIsIgnored(actual: seq<real>, predicted: seq<real>, k: nat, guess: real)
    requires |actual| == |predicted| && k <= |actual|
    ensures Mape(actual[..k] + [0.0] + actual[k..], predicted[..k] + [guess] + predicted[k..])
         == Mape(actual, predicted)
  {
    var a1, a2, p1, p2 := actual[..k], actual[k..], predicted[..k], predicted[k..];
    var actual', predicted' := a1 + [0.0] + a2, p1 + [guess] + p2;
    var z1, z2, zero := Zip(a1, p1), Zip(a2, p2), Zip([0.0], [guess]);
    assert Zip(actual', predicted') == z1 + zero + z2 by {
      ZipConcat(a1 + [0.0], p1 + [guess], a2, p2);
      ZipConcat(a1, p1, [0.0], [guess]);
    }
    assert Zip(actual, predicted) == z1 + z2 by {
      assert actual == a1 + a2 && predicted == p1 + p2;
      ZipConcat(a1, p1, a2, p2);
    }
    assert Seqs.Filter(zero, ActualNonZero) == [];
    calc {
      Masked(actual', predicted');
      Seqs.Filter(z1 + zero + z2, ActualNonZero);
      { Seqs.FilterConcat(z1 + zero, z2, ActualNonZero);
        Seqs.FilterConcat(z1, zero, ActualNonZero); }
      Seqs.Filter(z1, ActualNonZero) + [] + Seqs.Filter(z2, ActualNonZero);
      { assert Seqs.Filter(z1, ActualNonZero) + [] == Seqs.Filter(z1, ActualNonZero);
        Seqs.FilterConcat(z1, z2, ActualNonZero); }
      Seqs.Filter(z1 + z2, ActualNonZero);
      Masked(actual, predicted);
    }
  }

  /** A perfect forecast scores 0, even where actuals are zero. */
  lemma PerfectForecastScoresZero(actual: seq<real>)
    ensures Mape(actual, actual) == 0.0
  {
    var masked := Masked(actual, actual);
    forall i | 0 <= i < |masked| ensures masked[i].0 == masked[i].1 {
      Seqs.FilterMembership(Zip(actual, actual), ActualNonZero, masked[i]);
    }
    SumOfExactPairs(masked);
  }

  lemma {:induction false} SumOfExactPairs(pairs: seq<(real, real)>)
    requires forall i :: 0 <= i < |pairs| ==> ActualNonZero(pairs[i]) && pairs[i].0 == pairs[i].1
    ensures AbsPctErrorSum(pairs) == 0.0
  {
    if pairs != [] {
      SumOfExactPairs(pairs[1..]);
    }
  }

  /** With no zero actual, nothing is masked: MAPE is 100 times the plain mean over all pairs. */
  lemma NoZeroActualIsPlainMean(actual: seq<real>, predicted: seq<real>)
    requires |actual| == |predicted| && |actual| > 0
    requires forall i :: 0 <= i < |actual| ==> actual[i] != 0.0
    ensures Mape(actual, predicted) == AbsPctErrorSum(Zip(actual, predicted)) / (|actual| as real) * 100.0
  {
    Seqs.FilterKeepsAll(Zip(actual, predicted), ActualNonZero);
  }
}
