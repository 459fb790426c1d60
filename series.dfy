/**
 * A pandas Series whose index is a contiguous run of integers: the
 * RangeIndex 0..N-1 that `read_excel` gives the loaded column, a
 * positional slice of it, or the index of a forecast over an inclusive
 * range. Values are exact reals; the floating-point representation of
 * the observations is not modelled.
 */
module TimeSeries {

  datatype Series = Series(start: int, values: seq<real>) {

    /** One past the last index label. */
    function End(): int {
      start + |values|
    }

    /** Whether `i` is an index label of this series. */
    predicate Has(i: int) {
      start <= i < End()
    }

    /** The value stored under index label `i`. */
    function At(i: int): real
      requires Has(i)
    {
      values[i - start]
    }
  }

  /**
   * `fitted.predict(start=lo, end=hi)`: one forecast for every index
   * label from `lo` to `hi`, both ends included. The fitted model itself
   * is the uninterpreted `forecast`.
   */
  function Predict(forecast: int -> real, lo: int, hi: int): (r: Series)
    ensures r.start == lo
    ensures |r.values| == if lo <= hi then hi - lo + 1 else 0
    ensures forall i :: r.Has(i) <==> lo <= i <= hi
    ensures forall i :: lo <= i <= hi ==> r.At(i) == forecast(i)
  {
    Series(lo, seq(if lo <= hi then hi - lo + 1 else 0, k => forecast(lo + k)))
  }

  /** The k-th point of a forecast over lo..hi is the forecast for label lo + k. */
  lemma PredictValue(forecast: int -> real, lo: int, hi: int, k: nat)
    requires lo + k <= hi
    ensures k < |Predict(forecast, lo, hi).values|
    ensures Predict(forecast, lo, hi).values[k] == forecast(lo + k)
  {
  }
}
