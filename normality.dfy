/**
 * The verdicts drawn from the two normality tests run on the residuals.
 * The test statistics, p-value and critical values come from the
 * statistics library and are inputs here.
 */
module Normality {

  /**
   * The significance threshold of the Shapiro-Wilk verdict: the double
   * nearest 0.05, written out exactly, since the comparison is made
   * between floats.
   */
  const Alpha: real := 0.05000000000000000277555756156289135105907917022705078125

  /** The Shapiro-Wilk verdict: "appear to be normally distributed" iff the p-value exceeds the float 0.05. */
  predicate ShapiroAppearsNormal(pValue: real)
    ensures ShapiroAppearsNormal(pValue) ==> pValue > 0.05
  {
    pValue > Alpha
  }

  /** The threshold is strict, and a larger p-value never turns a "normal" verdict into "not normal". */
  lemma ShapiroThreshold(p: real, p': real)
    ensures !ShapiroAppearsNormal(Alpha)
    ensures ShapiroAppearsNormal(p) && p <= p' ==> ShapiroAppearsNormal(p')
    ensures !ShapiroAppearsNormal(p) <==> p <= Alpha
  {
  }

  /** One Anderson-Darling verdict: the significance level (in percent) and whether the data "may be normal" at it. */
  datatype AndersonVerdict = AndersonVerdict(level: real, mayBeNormal: bool)

  /**
   * The loop over `enumerate(critical_values)`: one verdict per critical
   * value, in order, "may be normal" exactly when the statistic is strictly
   * below that critical value. The level is read from the same position of
   * the significance levels, which must therefore be at least as many.
   */
  method AndersonVerdicts(statistic: real, criticalValues: seq<real>, significanceLevels: seq<real>)
    returns (verdicts: seq<AndersonVerdict>)
    requires |criticalValues| <= |significanceLevels|
    ensures |verdicts| == |criticalValues|
    ensures forall i :: 0 <= i < |verdicts| ==>
      verdicts[i].level == significanceLevels[i] && (verdicts[i].mayBeNormal <==> statistic < criticalValues[i])
  {
    verdicts := [];
    for i := 0 to |criticalValues|
      invariant |verdicts| == i
      invariant forall j :: 0 <= j < i ==>
        verdicts[j].level == significanceLevels[j] && (verdicts[j].mayBeNormal <==> statistic < criticalValues[j])
    {
      var cv := criticalValues[i];
      if statistic < cv {
        verdicts := verdicts + [AndersonVerdict(significanceLevels[i], true)];
      } else {
        verdicts := verdicts + [AndersonVerdict(significanceLevels[i], false)];
      }
    }
  }

  /**
   * With critical values in ascending order (as the library lists them,
   * from the largest significance level to the smallest), a "may be
   * normal" verdict at one level holds at every later, stricter level.
   */
  lemma {:induction false} AndersonVerdictsMonotone(statistic: real, criticalValues: seq<real>,
                                                   significanceLevels: seq<real>, verdicts: seq<AndersonVerdict>)
    requires forall i, j :: 0 <= i < j < |criticalValues| ==> criticalValues[i] <= criticalValues[j]
    requires |verdicts| == |criticalValues|
    requires forall i :: 0 <= i < |verdicts| ==> (verdicts[i].mayBeNormal <==> statistic < criticalValues[i])
    ensures forall i, j :: 0 <= i < j < |verdicts| && verdicts[i].mayBeNormal ==> verdicts[j].mayBeNormal
  {
  }
}
