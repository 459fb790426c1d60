/**
 * The ARIMA order grid search: every (p, d, q) of the Cartesian product
 * of three candidate lists is fitted and scored, and the first order with
 * the smallest mean squared error is kept. Fitting and scoring belong to
 * external libraries and are uninterpreted functions here.
 */
module GridSearch {
  import opened Wrappers

  /** An ARIMA order: autoregressive lags, differencing degree, moving-average lags. */
  datatype Order = Order(p: nat, d: nat, q: nat)

  // ---------------------------------------------------------------------
  // itertools.product(p_values, d_values, q_values)
  // ---------------------------------------------------------------------

  /** The orders with fixed p and d, one per q, in the order of `qs`. */
  function Row(p: nat, d: nat, qs: seq<nat>): (r: seq<Order>)
    ensures |r| == |qs|
    ensures forall k :: 0 <= k < |qs| ==> r[k] == Order(p, d, qs[k])
  {
    seq(|qs|, k requires 0 <= k < |qs| => Order(p, d, qs[k]))
  }

  /** The orders with fixed p: for each d in turn, every q. */
  function Block(p: nat, ds: seq<nat>, qs: seq<nat>): (r: seq<Order>)
    ensures |r| == |ds| * |qs|
  {
    if ds == [] then []
    else
      var rest := Block(p, ds[1..], qs);
      assert |ds| * |qs| == |qs| + |ds[1..]| * |qs|;
      Row(p, ds[0], qs) + rest
  }

  /** The candidate list: for each p in turn, every d and, within it, every q. */
  function Product(ps: seq<nat>, ds: seq<nat>, qs: seq<nat>): (r: seq<Order>)
    ensures |r| == |ps| * |ds| * |qs|
  {
    if ps == [] then []
    else
      var rest := Product(ps[1..], ds, qs);
      assert |ps| * |ds| * |qs| == |ds| * |qs| + |ps[1..]| * |ds| * |qs|;
      Block(ps[0], ds, qs) + rest
  }

  /** Position of the combination (ps[i], ds[j], qs[k]) in the product. */
  function FlatIndex(i: nat, j: nat, k: nat, nd: nat, nq: nat): nat {
    (i * nd + j) * nq + k
  }

  lemma {:induction false} BlockAt(p: nat, ds: seq<nat>, qs: seq<nat>, j: nat, k: nat)
    requires j < |ds| && k < |qs|
    ensures j * |qs| + k < |Block(p, ds, qs)|
    ensures Block(p, ds, qs)[j * |qs| + k] == Order(p, ds[j], qs[k])
  {
    if j > 0 {
      BlockAt(p, ds[1..], qs, j - 1, k);
      assert j * |qs| + k == |qs| + ((j - 1) * |qs| + k);
    }
  }

  /** Every combination sits at its lexicographic position: p slowest, q fastest. */
  lemma {:induction false} ProductAt(ps: seq<nat>, ds: seq<nat>, qs: seq<nat>, i: nat, j: nat, k: nat)
    requires i < |ps| && j < |ds| && k < |qs|
    ensures FlatIndex(i, j, k, |ds|, |qs|) < |Product(ps, ds, qs)|
    ensures Product(ps, ds, qs)[FlatIndex(i, j, k, |ds|, |qs|)] == Order(ps[i], ds[j], qs[k])
  {
    if i == 0 {
      BlockAt(ps[0], ds, qs, j, k);
      assert FlatIndex(i, j, k, |ds|, |qs|) == j * |qs| + k;
    } else {
      ProductAt(ps[1..], ds, qs, i - 1, j, k);
      FlatIndexStep(i, j, k, |ds|, |qs|);
    }
  }

  /** Moving past one whole block of `nd * nq` orders. */
  lemma FlatIndexStep(i: nat, j: nat, k: nat, nd: nat, nq: nat)
    requires i >= 1
    ensures FlatIndex(i, j, k, nd, nq) == nd * nq + FlatIndex(i - 1, j, k, nd, nq)
  {
    var a := (i - 1) * nd + j;
    assert i * nd + j == a + nd;
    assert (a + nd) * nq == a * nq + nd * nq;
  }

  lemma {:induction false} RowMember(p: nat, d: nat, qs: seq<nat>, o: Order)
    requires o in Row(p, d, qs)
    ensures o.p == p && o.d == d && o.q in qs
  {
    var k :| 0 <= k < |qs| && Row(p, d, qs)[k] == o;
  }

  lemma {:induction false} BlockMember(p: nat, ds: seq<nat>, qs: seq<nat>, o: Order)
    requires o in Block(p, ds, qs)
    ensures o.p == p && o.d in ds && o.q in qs
  {
    if o in Row(p, ds[0], qs) {
      RowMember(p, ds[0], qs, o);
    } else {
      BlockMember(p, ds[1..], qs, o);
    }
  }

  /** The product holds exactly the triples whose components come from the three lists. */
  lemma {:induction false} ProductMember(ps: seq<nat>, ds: seq<nat>, qs: seq<nat>, o: Order)
    ensures o in Product(ps, ds, qs) <==> o.p in ps && o.d in ds && o.q in qs
  {
    if o in Product(ps, ds, qs) {
      if o in Block(ps[0], ds, qs) {
        BlockMember(ps[0], ds, qs, o);
      } else {
        ProductMember(ps[1..], ds, qs, o);
      }
    }
    if o.p in ps && o.d in ds && o.q in qs {
      var i :| 0 <= i < |ps| && ps[i] == o.p;
      var j :| 0 <= j < |ds| && ds[j] == o.d;
      var k :| 0 <= k < |qs| && qs[k] == o.q;
      ProductAt(ps, ds, qs, i, j, k);
    }
  }

  /**
   * The position order of the product is the lexicographic order of the
   * component positions: an earlier p comes first, then an earlier d, then
   * an earlier q.
   */
  lemma FlatIndexLexicographic(i: nat, j: nat, k: nat, i': nat, j': nat, k': nat, nd: nat, nq: nat)
    requires j < nd && j' < nd && k < nq && k' < nq
    ensures FlatIndex(i, j, k, nd, nq) < FlatIndex(i', j', k', nd, nq)
        <==> i < i' || (i == i' && j < j') || (i == i' && j == j' && k < k')
  {
    var a, b := i * nd + j, i' * nd + j';
    assert FlatIndex(i, j, k, nd, nq) == a * nq + k;
    assert FlatIndex(i', j', k', nd, nq) == b * nq + k';
    RowMajorLess(a, k, b, k', nq);
    RowMajorLess(i, j, i', j', nd);
    RowMajorLess(i', j', i, j, nd);
  }

  /** Row-major positions `a * n + x` (with `x < n`) compare lexicographically. */
  lemma RowMajorLess(a: nat, x: nat, b: nat, y: nat, n: nat)
    requires x < n && y < n
    ensures a * n + x < b * n + y <==> a < b || (a == b && x < y)
  {
    if a < b {
      assert a * n + n <= b * n by {
        assert (b - a) * n >= n by { MulAtLeast(b - a, n); }
      }
    } else if b < a {
      assert b * n + n <= a * n by {
        assert (a - b) * n >= n by { MulAtLeast(a - b, n); }
      }
    }
  }

  lemma MulAtLeast(m: nat, n: nat)
    requires m >= 1
    ensures m * n >= n
  {
  }

  /** The grid the notebook searches: p in [13, 25], d in [0, 1], q in [12, 24]. */
  lemma NotebookGrid()
    ensures Product([13, 25], [0, 1], [12, 24]) == [
      Order(13, 0, 12), Order(13, 0, 24), Order(13, 1, 12), Order(13, 1, 24),
      Order(25, 0, 12), Order(25, 0, 24), Order(25, 1, 12), Order(25, 1, 24)]
  {
  }

  // ---------------------------------------------------------------------
  // Scores and Python's float comparison
  // ---------------------------------------------------------------------

  /**
   * A mean squared error as a Python float: a finite value, +infinity
   * (the `float('inf')` sentinel), or NaN.
   */
  datatype Score = Finite(value: real) | PosInf | NaN

  /** Python's `a < b` on floats: NaN compares false both ways, nothing is below a finite value but a smaller one. */
  predicate Less(a: Score, b: Score)
    ensures a.NaN? || b.NaN? ==> !Less(a, b)
    ensures Less(a, b) ==> a.Finite? && a != b
  {
    match (a, b)
    case (Finite(x), Finite(y)) => x < y
    case (Finite(_), PosInf) => true
    case _ => false
  }

  /** Equal to, or strictly below. */
  predicate AtMost(a: Score, b: Score) {
    a == b || Less(a, b)
  }

  /** Only a finite score is below anything, and nothing is below itself or NaN. */
  lemma LessFacts(a: Score, b: Score)
    ensures Less(a, b) ==> a.Finite? && !b.NaN?
    ensures !Less(a, a)
    ensures a.Finite? ==> Less(a, PosInf)
  {
  }

  /**
   * The reference meaning of the selection: index `i` holds a finite score,
   * no finite score is smaller, and every earlier finite score is larger
   * (so among equal minima the earliest wins).
   */
  predicate IsFirstMinimum(scores: seq<Score>, i: int)
  {
    && 0 <= i < |scores|
    && scores[i].Finite?
    && (forall j :: 0 <= j < |scores| && scores[j].Finite? ==> scores[i].value <= scores[j].value)
    && (forall j :: 0 <= j < i && scores[j].Finite? ==> scores[i].value < scores[j].value)
  }

  /** There is at most one first minimum. */
  lemma FirstMinimumUnique(scores: seq<Score>, i: int, j: int)
    requires IsFirstMinimum(scores, i) && IsFirstMinimum(scores, j)
    ensures i == j
  {
  }

  /**
   * The value of `best_mse` after the loop has seen `scores`: starting from
   * +infinity, replaced by each score strictly below it.
   */
  function BestScore(scores: seq<Score>): (b: Score)
    ensures b.PosInf? || b.Finite?
  {
    if scores == [] then PosInf
    else
      var prev := BestScore(scores[..|scores| - 1]);
      var s := scores[|scores| - 1];
      if Less(s, prev) then s else prev
  }

  /** `best_mse` stays +infinity exactly when no score is finite; otherwise it is the first minimum's score. */
  lemma {:induction false} BestScoreIsFirstMinimum(scores: seq<Score>)
    ensures BestScore(scores).PosInf? <==> forall j :: 0 <= j < |scores| ==> !scores[j].Finite?
    ensures BestScore(scores).Finite? ==>
      exists i :: IsFirstMinimum(scores, i) && scores[i] == BestScore(scores)
  {
    if scores != [] {
      var n := |scores| - 1;
      var init, last := scores[..n], scores[n];
      assert scores == init + [last];
      BestScoreIsFirstMinimum(init);
      var prev := BestScore(init);
      assert BestScore(scores) == if Less(last, prev) then last else prev;
      if prev.Finite? {
        var i :| IsFirstMinimum(init, i) && init[i] == prev;
        FirstMinimumExtend(init, last, i);
        if Less(last, prev) {
          assert IsFirstMinimum(scores, n) && scores[n] == BestScore(scores);
        } else {
          assert IsFirstMinimum(scores, i) && scores[i] == BestScore(scores);
        }
        assert scores[i].Finite?;
      } else {
        assert forall j :: 0 <= j < n ==> !scores[j].Finite? by {
          forall j | 0 <= j < n ensures !scores[j].Finite? { assert scores[j] == init[j]; }
        }
        if last.Finite? {
          assert IsFirstMinimum(scores, n) && scores[n] == BestScore(scores);
        }
      }
    }
  }

  /** One more score either becomes the first minimum (strictly below it) or leaves it where it was. */
  lemma FirstMinimumExtend(init: seq<Score>, s: Score, i: nat)
    requires IsFirstMinimum(init, i)
    ensures Less(s, init[i]) ==> IsFirstMinimum(init + [s], |init|)
    ensures !Less(s, init[i]) ==> IsFirstMinimum(init + [s], i)
  {
    var all := init + [s];
    assert forall j :: 0 <= j < |init| ==> all[j] == init[j];
  }

  /** `best_mse` never increases: after more candidates it is at most what it was after fewer. */
  lemma {:induction false} BestScoreNonIncreasing(scores: seq<Score>, k: nat)
    requires k <= |scores|
    ensures AtMost(BestScore(scores), BestScore(scores[..k]))
  {
    if k < |scores| {
      var n := |scores| - 1;
      assert scores[..n][..k] == scores[..k];
      BestScoreNonIncreasing(scores[..n], k);
      var prev := BestScore(scores[..n]);
      var last := BestScore(scores[..k]);
      assert AtMost(prev, last);
      assert AtMost(BestScore(scores), prev);
      if BestScore(scores) != prev && prev != last {
        assert Less(BestScore(scores), last);
      }
    } else {
      assert scores[..k] == scores;
    }
  }

  // ---------------------------------------------------------------------
  // The search loop
  // ---------------------------------------------------------------------

  /** The score of each candidate: fit the order, then compute its mean squared error. */
  function ScoresOf<M>(candidates: seq<Order>, fit: Order -> M, mse: M -> Score): (r: seq<Score>)
    ensures |r| == |candidates|
    ensures forall i :: 0 <= i < |candidates| ==> r[i] == mse(fit(candidates[i]))
  {
    seq(|candidates|, i requires 0 <= i < |candidates| => mse(fit(candidates[i])))
  }

  /**
   * What the code after the loop sees: the best order with its fitted model
   * and error, or nothing, in which case the printing of `best_params`
   * fails because the name was never bound.
   */
  datatype SearchResult<M> = Found(params: Order, model: M, mse: real) | NoResult

  /**
   * The loop over `param_combinations`: fit and score each candidate and
   * keep it when its error is strictly below the best so far. The fitting
   * procedure and the error measure are the parameters `fit` and `mse`.
   */
  method Search<M>(candidates: seq<Order>, fit: Order -> M, mse: M -> Score) returns (result: SearchResult<M>)
    ensures result.NoResult? <==> forall i :: 0 <= i < |candidates| ==> !mse(fit(candidates[i])).Finite?
    ensures result.Found? ==>
      && Finite(result.mse) == BestScore(ScoresOf(candidates, fit, mse))
      && exists i :: && IsFirstMinimum(ScoresOf(candidates, fit, mse), i)
                     && result.params == candidates[i]
                     && result.model == fit(candidates[i])
                     && result.mse == mse(fit(candidates[i])).value
  {
    ghost var scores := ScoresOf(candidates, fit, mse);
    var bestMse := PosInf;
    var bestModel: Option<M> := None;
    var bestParams: Option<Order> := None;
    ghost var bestIndex := 0;
    for n := 0 to |candidates|
      invariant bestMse == BestScore(scores[..n])
      invariant bestParams.None? <==> bestModel.None?
      invariant bestParams.None? <==> bestMse.PosInf?
      invariant bestParams.None? ==> forall j :: 0 <= j < n ==> !scores[j].Finite?
      invariant bestParams.Some? ==>
        && IsFirstMinimum(scores[..n], bestIndex)
        && bestParams.value == candidates[bestIndex]
        && bestModel.value == fit(candidates[bestIndex])
        && bestMse == scores[bestIndex]
    {
      assert scores[..n + 1][..n] == scores[..n];
      var params := candidates[n];
      var model := fit(params);
      var score := mse(model);
      if Less(score, bestMse) {
        bestMse := score;
        bestModel := Some(model);
        bestParams := Some(params);
        bestIndex := n;
      }
    }
    assert scores[..|candidates|] == scores;
    if bestParams.None? {
      result := NoResult;
    } else {
      result := Found(bestParams.value, bestModel.value, bestMse.value);
    }
  }

  /** A grid in which only one candidate gets a finite error selects that candidate, whatever its value. */
  lemma SoleFiniteIsSelected(scores: seq<Score>, i: nat)
    requires i < |scores| && scores[i].Finite?
    requires forall j :: 0 <= j < |scores| && j != i ==> !scores[j].Finite?
    ensures IsFirstMinimum(scores, i)
  {
  }

  /** When every candidate ties, the first in enumeration order is selected. */
  lemma {:induction false} AllTiedSelectsFirst(scores: seq<Score>, v: real)
    requires scores != []
    requires forall j :: 0 <= j < |scores| ==> scores[j] == Finite(v)
    ensures IsFirstMinimum(scores, 0)
    ensures BestScore(scores) == Finite(v)
  {
    BestScoreIsFirstMinimum(scores);
  }
}
