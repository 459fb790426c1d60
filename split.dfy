/**
 * The 80/20 train/validation split of the series and the index ranges of
 * the three forecasts made from the model fitted on the training part.
 */
module Split {
  import opened TimeSeries

  /** `train_percentage`. */
  const TrainPercentage: real := 0.8

  /**
   * `int(len(series) * train_percentage)`: the product truncated to an
   * integer. The real here is exact; see the README for the float.
   */
  function TrainSize(n: nat): (size: nat)
    ensures size <= n
    ensures size as real <= n as real * TrainPercentage < size as real + 1.0
  {
    (n as real * TrainPercentage).Floor
  }

  /** The truncated product is four fifths of the length, rounded down. */
  lemma TrainSizeIsFourFifths(n: nat)
    ensures TrainSize(n) == (4 * n) / 5
  {
    var size, exact := TrainSize(n), (4 * n) / 5;
    assert 5 * exact <= 4 * n < 5 * exact + 5;
    assert n as real * TrainPercentage == (4 * n) as real / 5.0;
    assert exact as real <= n as real * TrainPercentage;
    assert n as real * TrainPercentage < exact as real + 1.0;
  }

  /**
   * `series[:train_size]` and `series[train_size:]`: positional slices
   * that keep their index labels, so the validation part starts at label
   * `start + train_size`.
   */
  function SplitSeries(data: Series): (parts: (Series, Series))
    ensures var (train, val) := parts;
      && train.values + val.values == data.values
      && |train.values| == TrainSize(|data.values|)
      && |train.values| + |val.values| == |data.values|
      && train.start == data.start && train.End() == val.start && val.End() == data.End()
      && (forall i :: data.Has(i) <==> train.Has(i) || val.Has(i))
      && (forall i :: !(train.Has(i) && val.Has(i)))
      && (forall i :: train.Has(i) ==> train.At(i) == data.At(i))
      && (forall i :: val.Has(i) ==> val.At(i) == data.At(i))
  {
    var size := TrainSize(|data.values|);
    assert data.values[..size] + data.values[size..] == data.values;
    (Series(data.start, data.values[..size]), Series(data.start + size, data.values[size..]))
  }

  /**
   * `predict(start=len(train_data), end=len(series)-1)`: the validation
   * forecast has exactly the validation part's index labels,
   * train_size .. len-1, and as many points.
   */
  lemma ValidationForecastMatchesValidation(data: Series, forecast: int -> real)
    requires data.start == 0
    ensures var (train, val) := SplitSeries(data);
      var predicted := Predict(forecast, |train.values|, |data.values| - 1);
      && predicted.start == val.start == TrainSize(|data.values|)
      && |predicted.values| == |val.values| == |data.values| - TrainSize(|data.values|)
      && (forall i :: predicted.Has(i) <==> val.Has(i))
  {
  }

  /**
   * `predict(start=1, end=len(train_data))`: as many points as the
   * training part, on the labels one step later (1 .. train_size against
   * 0 .. train_size-1).
   */
  lemma TrainingForecastLength(data: Series, forecast: int -> real)
    requires data.start == 0
    ensures var (train, _) := SplitSeries(data);
      var predicted := Predict(forecast, 1, |train.values|);
      && |predicted.values| == |train.values|
      && predicted.start == train.start + 1
  {
  }

  /**
   * `predict(start=1, end=len(series))`: as many points as the series, on
   * the labels 1 .. len against the series' 0 .. len-1.
   */
  lemma EntireForecastLength(data: Series, forecast: int -> real)
    requires data.start == 0
    ensures var predicted := Predict(forecast, 1, |data.values|);
      && |predicted.values| == |data.values|
      && predicted.start == data.start + 1
      && predicted.End() == data.End() + 1
  {
  }
}
