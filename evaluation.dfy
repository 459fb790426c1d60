/**
 * How the error measures pair observations with forecasts.
 * `mean_squared_error(y, predictions)` in the grid search, and the
 * `mean_squared_error`, `r2_score` and `mean_absolute_error` calls in
 * `calculate_metrics_and_print`, receive two series; that library turns
 * them into plain arrays, so observations and forecasts are paired by
 * position, not by index label, and unequal lengths are an error. (The
 * MAPE of the same function is pandas arithmetic and aligns by label.)
 */
module Evaluation {
  import opened TimeSeries
  import opened Split
  import opened Residuals

  /**
   * The pairs handed to a metric, or one of the library's two input
   * errors: "inconsistent numbers of samples", checked first, and
   * "found array with 0 sample(s)".
   */
  datatype Pairing = Paired(pairs: seq<(real, real)>) | InconsistentLengths(actual: nat, predicted: nat) | NoSamples

  /** Position-by-position pairing, ignoring index labels. */
  function PositionalPairs(actual: Series, predicted: Series): (r: Pairing)
    ensures r.InconsistentLengths? <==> |actual.values| != |predicted.values|
    ensures r.InconsistentLengths? ==> r.actual == |actual.values| && r.predicted == |predicted.values|
    ensures r.NoSamples? <==> |actual.values| == |predicted.values| == 0
    ensures r.Paired? ==>
      && |r.pairs| == |actual.values|
      && forall k :: 0 <= k < |r.pairs| ==> r.pairs[k] == (actual.values[k], predicted.values[k])
  {
    if |actual.values| != |predicted.values| then InconsistentLengths(|actual.values|, |predicted.values|)
    else if |actual.values| == 0 then NoSamples
    else Paired(seq(|actual.values|, k requires 0 <= k < |actual.values| => (actual.values[k], predicted.values[k])))
  }

  /**
   * None of the four positional metric calls raises the length error: the grid-search
   * score and the full-series metrics (forecast 1 .. N against the series),
   * the training metrics (forecast 1 .. train_size against the training
   * part) and the validation metrics. Each call is paired exactly when its
   * part of the series is not empty, and raises the zero-sample error otherwise.
   */
  lemma MetricCallsHaveConsistentLengths(data: Series, searchForecast: int -> real, forecast: int -> real)
    requires data.start == 0
    ensures var n := |data.values|;
      var (train, val) := SplitSeries(data);
      && (PositionalPairs(data, Predict(searchForecast, 1, n)).Paired? <==> n > 0)
      && (PositionalPairs(data, Predict(forecast, 1, n)).Paired? <==> n > 0)
      && (PositionalPairs(train, Predict(forecast, 1, |train.values|)).Paired? <==> |train.values| > 0)
      && (PositionalPairs(val, Predict(forecast, |train.values|, n - 1)).Paired? <==> |val.values| > 0)
      && !PositionalPairs(data, Predict(searchForecast, 1, n)).InconsistentLengths?
      && !PositionalPairs(data, Predict(forecast, 1, n)).InconsistentLengths?
      && !PositionalPairs(train, Predict(forecast, 1, |train.values|)).InconsistentLengths?
      && !PositionalPairs(val, Predict(forecast, |train.values|, n - 1)).InconsistentLengths?
  {
  }

  /**
   * As written, the grid-search score and the full-series positional
   * metrics pair the observation at label k with the forecast for label k + 1
   * (an empty series is the zero-sample error).
   */
  lemma {:induction false} EntireScorePairsAreShifted(data: Series, forecast: int -> real)
    requires data.start == 0
    ensures var r := PositionalPairs(data, Predict(forecast, 1, |data.values|));
      && (r.Paired? <==> |data.values| > 0)
      && (r.Paired? ==> forall k :: 0 <= k < |data.values| ==> r.pairs[k] == (data.At(k), forecast(k + 1)))
  {
    var n := |data.values|;
    var predicted := Predict(forecast, 1, n);
    var r := PositionalPairs(data, predicted);
    if r.Paired? {
      forall k | 0 <= k < n ensures r.pairs[k] == (data.At(k), forecast(k + 1)) {
        PredictValue(forecast, 1, n, k);
      }
    }
  }

  /**
   * A forecast that is exact on every label of the series [10, 12] is
   * still paired with a value it did not forecast: position 0 pairs the
   * observation 10 (label 0) with the forecast 12 (label 1).
   */
  lemma ExactForecastIsMispaired()
    ensures var data := Series(0, [10.0, 12.0]);
      var exact := (i: int) => if i <= 0 then 10.0 else 12.0;
      var r := PositionalPairs(data, Predict(exact, 1, 2));
      && (forall i :: data.Has(i) ==> exact(i) == data.At(i))
      && r.Paired? && r.pairs[0] == (10.0, 12.0)
  {
    var data := Series(0, [10.0, 12.0]);
    var exact := (i: int) => if i <= 0 then 10.0 else 12.0;
    EntireScorePairsAreShifted(data, exact);
  }

  /**
   * The intended pairing, by index label: the same exact forecast is
   * paired only with the observation of its own label, and agrees with it.
   */
  lemma ExactForecastAlignedPairsAgree()
    ensures var data := Series(0, [10.0, 12.0]);
      var exact := (i: int) => if i <= 0 then 10.0 else 12.0;
      var r := AlignedPairs(data, Predict(exact, 1, 2));
      && |r| == 1 && r[0] == Aligned(1, 12.0, 12.0)
  {
  }

  /**
   * Pairing by label, as the residual computation does: the full-series
   * forecast (labels 1 .. N) meets the series (labels 0 .. N-1) on the N-1
   * labels 1 .. N-1, and each pair joins the observation and the forecast
   * of the same label.
   */
  lemma {:induction false} EntireAlignedPairsMatchLabels(data: Series, forecast: int -> real)
    requires data.start == 0 && |data.values| >= 1
    ensures var r := AlignedPairs(data, Predict(forecast, 1, |data.values|));
      && |r| == |data.values| - 1
      && forall k :: 0 <= k < |r| ==> r[k] == Aligned(k + 1, data.At(k + 1), forecast(k + 1))
  {
    var n := |data.values|;
    var predicted := Predict(forecast, 1, n);
    var r := AlignedPairs(data, predicted);
    assert Max(data.start, predicted.start) == 1;
    if 0 < |r| {
      assert r[|r| - 1].index == |r| && data.Has(|r|);
    }
    if n > 1 {
      assert data.Has(n - 1) && predicted.Has(n - 1);
      var k :| 0 <= k < |r| && r[k].index == n - 1;
      assert k == n - 2;
    }
    assert |r| == n - 1;
    forall k | 0 <= k < |r| ensures r[k] == Aligned(k + 1, data.At(k + 1), forecast(k + 1)) {
      assert r[k].index == k + 1;
      assert predicted.At(k + 1) == forecast(k + 1);
    }
  }
}
