/**
 * Index-aligned subtraction of two series, as pandas does it for
 * `series - predictions`, and the residual series left after `dropna()`.
 */
module Residuals {
  import opened Wrappers
  import opened TimeSeries

  function Max(a: int, b: int): int { if a < b then b else a }

  function Min(a: int, b: int): int { if a < b then a else b }

  /** An observation and a forecast that share the index label `index`. */
  datatype Aligned = Aligned(index: int, actual: real, predicted: real)

  /**
   * The labels the two series have in common, in ascending order from the
   * first shared label, each with its value on both sides.
   */
  function AlignedPairs(a: Series, b: Series): (r: seq<Aligned>)
    ensures forall k :: 0 <= k < |r| ==>
      && a.Has(r[k].index) && b.Has(r[k].index)
      && r[k].actual == a.At(r[k].index) && r[k].predicted == b.At(r[k].index)
    ensures forall k :: 0 <= k < |r| ==> r[k].index == Max(a.start, b.start) + k
    ensures forall i :: a.Has(i) && b.Has(i) ==> exists k :: 0 <= k < |r| && r[k].index == i
  {
    var lo, hi := Max(a.start, b.start), Min(a.End(), b.End());
    var count := if lo < hi then hi - lo else 0;
    var r := seq(count, k requires 0 <= k < count => Aligned(lo + k, a.At(lo + k), b.At(lo + k)));
    assert forall i :: a.Has(i) && b.Has(i) ==> r[i - lo].index == i;
    r
  }

  /**
   * `a - b` on two series: the union of their labels, with a difference
   * where both have the label and a missing value (NaN) where only one does.
   */
  function Subtract(a: Series, b: Series): (m: map<int, Option<real>>)
    ensures forall i :: i in m <==> a.Has(i) || b.Has(i)
    ensures forall i :: i in m ==> (m[i].Some? <==> a.Has(i) && b.Has(i))
    ensures forall i :: a.Has(i) && b.Has(i) ==> m[i] == Some(a.At(i) - b.At(i))
  {
    map i | Min(a.start, b.start) <= i < Max(a.End(), b.End()) && (a.Has(i) || b.Has(i)) ::
      if a.Has(i) && b.Has(i) then Some(a.At(i) - b.At(i)) else None
  }

  /** `dropna()`: keep exactly the labels that carry a value. */
  function DropNa(m: map<int, Option<real>>): (r: map<int, real>)
    ensures forall i :: i in r <==> i in m && m[i].Some?
    ensures forall i :: i in r ==> r[i] == m[i].value
  {
    map i | i in m && m[i].Some? :: m[i].value
  }

  /**
   * `(a - b).dropna()` as a series: one residual per label both series
   * have, actual minus forecast, none imputed.
   */
  function ResidualSeries(a: Series, b: Series): (r: Series)
    ensures forall i :: r.Has(i) <==> a.Has(i) && b.Has(i)
    ensures forall i :: r.Has(i) ==> r.At(i) == a.At(i) - b.At(i)
  {
    var pairs := AlignedPairs(a, b);
    var lo := Max(a.start, b.start);
    assert forall k :: 0 <= k < |pairs| ==> pairs[k].index == lo + k;
    Series(lo, seq(|pairs|, k requires 0 <= k < |pairs| => pairs[k].actual - pairs[k].predicted))
  }

  /** The labels and values of a series as a map. */
  function ToMap(s: Series): (m: map<int, real>)
    ensures forall i :: i in m <==> s.Has(i)
    ensures forall i :: s.Has(i) ==> m[i] == s.At(i)
  {
    map i | s.start <= i < s.End() :: s.At(i)
  }

  /** The residual series is exactly what `dropna()` leaves of the aligned subtraction. */
  lemma ResidualSeriesIsDropNa(a: Series, b: Series)
    ensures ToMap(ResidualSeries(a, b)) == DropNa(Subtract(a, b))
  {
    var r := ResidualSeries(a, b);
    var m := Subtract(a, b);
    var left, right := ToMap(r), DropNa(m);
    forall i
      ensures i in left <==> i in right
      ensures i in left ==> left[i] == right[i]
    {
      assert i in left <==> r.Has(i);
      assert i in right <==> i in m && m[i].Some?;
    }
  }

  /**
   * `series - predictions_entire` followed by `dropna()`: the data has
   * labels 0 .. N-1 and the forecast 1 .. N, so the residuals are the N-1
   * labels 1 .. N-1, each the observation minus the forecast for the same
   * label.
   */
  lemma EntireResiduals(data: Series, forecast: int -> real)
    requires data.start == 0
    ensures var n := |data.values|;
      var r := ResidualSeries(data, Predict(forecast, 1, n));
      && (forall i :: r.Has(i) <==> 1 <= i < n)
      && (forall i :: 1 <= i < n ==> r.At(i) == data.values[i] - forecast(i))
  {
  }

  /** The same residuals counted and placed: they start at label 1 and there are N-1 of them. */
  lemma {:induction false} EntireResidualsCount(data: Series, forecast: int -> real)
    requires data.start == 0 && |data.values| >= 1
    ensures var r := ResidualSeries(data, Predict(forecast, 1, |data.values|));
      r.start == 1 && |r.values| == |data.values| - 1
  {
    var n := |data.values|;
    var r := ResidualSeries(data, Predict(forecast, 1, n));
    EntireResiduals(data, forecast);
    if n > 1 {
      assert r.Has(1) && r.Has(n - 1);
      assert !r.Has(0) && !r.Has(n);
    } else {
      assert !r.Has(r.start);
    }
  }
}
