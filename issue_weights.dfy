/** The variance-to-weight arithmetic that OpponentUtilityModel.updateWeightsFromCounters
    and Opponent.calculateUtilitySpace share: each issue's value counts are
    divided by the number of offers seen, the population variance of those
    frequencies is the issue's raw importance, and each issue's weight is its
    variance plus an equal share of what is left of 1 after all variances. */
module IssueWeights {
  import opened Numerics
  import Statistics

  /** Each count divided by the number of observations. */
  function Frequencies(counts: seq<int>, total: nat): (r: seq<real>)
    requires total > 0
    ensures |r| == |counts|
    ensures forall j :: 0 <= j < |counts| ==> r[j] == counts[j] as real / total as real
  {
    seq(|counts|, j requires 0 <= j < |counts| => counts[j] as real / total as real)
  }

  /** The variance of one issue's frequencies, as a Java double.  With no
      observations every frequency is 0.0 / 0 or a positive count / 0, and with
      no values the mean is 0.0 / 0: both give NaN. */
  function IssueVariance(counts: seq<int>, total: nat): (r: Double)
    ensures r.Finite? <==> total > 0 && |counts| > 0
    ensures r.Finite? ==> r.value >= 0.0
  {
    if total == 0 || |counts| == 0 then NaN
    else
      Statistics.VarianceNonNegative(Frequencies(counts, total));
      Finite(Statistics.Variance(Frequencies(counts, total)))
  }

  /** The sum of a sequence of doubles, accumulated left to right. */
  function DoubleSum(s: seq<Double>): Double
  {
    if |s| == 0 then Finite(0.0) else DoubleSum(s[..|s| - 1]).Plus(s[|s| - 1])
  }

  predicate AllFinite(s: seq<Double>)
  {
    forall i :: 0 <= i < |s| ==> s[i].Finite?
  }

  /** The numbers inside a sequence of finite doubles. */
  function Values(s: seq<Double>): (r: seq<real>)
    requires AllFinite(s)
    ensures |r| == |s|
    ensures forall i :: 0 <= i < |s| ==> r[i] == s[i].value
  {
    seq(|s|, i requires 0 <= i < |s| => s[i].value)
  }

  /** A sum of doubles is finite exactly when every term is, and is then the
      sum of the terms. */
  lemma {:induction false} DoubleSumOf(s: seq<Double>)
    ensures DoubleSum(s).Finite? <==> AllFinite(s)
    ensures AllFinite(s) ==> DoubleSum(s).value == Sum(Values(s))
  {
    if |s| > 0 {
      var n := |s| - 1;
      DoubleSumOf(s[..n]);
      if AllFinite(s) {
        assert Values(s)[..n] == Values(s[..n]);
      }
    }
  }

  /** The share of what is left of 1 that each of k issues receives. */
  function ExtraPerIssue(vars: seq<Double>): Double
    requires |vars| > 0
  {
    var total := DoubleSum(vars);
    if total.Finite? then Finite((1.0 - total.value) / |vars| as real) else NaN
  }

  /** weight_i = variance_i + (1 - total variance) / k, for every issue that has
      a variance.  No issue, no weight. */
  function Spread(vars: seq<Double>): (r: seq<Double>)
    ensures |r| == |vars|
    ensures forall i :: 0 <= i < |vars| ==> r[i] == vars[i].Plus(ExtraPerIssue(vars))
  {
    if |vars| == 0 then []
    else seq(|vars|, i requires 0 <= i < |vars| => vars[i].Plus(ExtraPerIssue(vars)))
  }

  /** The weights sum to exactly 1 (in exact arithmetic) when every variance is
      a number; one NaN variance makes every weight NaN. */
  lemma SpreadSumsToOne(vars: seq<Double>)
    requires |vars| > 0
    ensures AllFinite(vars) ==> AllFinite(Spread(vars)) && Sum(Values(Spread(vars))) == 1.0
    ensures !AllFinite(vars) ==> forall i :: 0 <= i < |vars| ==> Spread(vars)[i].NaN?
  {
    DoubleSumOf(vars);
    if AllFinite(vars) {
      var k := |vars| as real;
      var extra := (1.0 - Sum(Values(vars))) / k;
      SumShift(Values(vars), Values(Spread(vars)), extra);
      assert k * extra == 1.0 - Sum(Values(vars));
    }
  }

  lemma {:induction false} DoubleSumOfZeros(vars: seq<Double>)
    requires forall i :: 0 <= i < |vars| ==> vars[i] == Finite(0.0)
    ensures DoubleSum(vars) == Finite(0.0)
  {
    if |vars| > 0 {
      DoubleSumOfZeros(vars[..|vars| - 1]);
    }
  }

  /** When every issue has variance 0, every weight is exactly 1 / k. */
  lemma SpreadOfZeroVariances(vars: seq<Double>)
    requires |vars| > 0
    requires forall i :: 0 <= i < |vars| ==> vars[i] == Finite(0.0)
    ensures forall i :: 0 <= i < |vars| ==> Spread(vars)[i] == Finite(1.0 / |vars| as real)
  {
    var share := 1.0 / |vars| as real;
    assert ExtraPerIssue(vars) == Finite(share) by {
      DoubleSumOfZeros(vars);
    }
    forall i | 0 <= i < |vars|
      ensures Spread(vars)[i] == Finite(share)
    {
      assert vars[i] == Finite(0.0);
    }
  }

  /** Fills a double[] with count / total and takes its population
      variance.  With total 0 each entry is 0.0 / 0 (NaN) or a positive
      count / 0 (Infinity), and the mean and variance of such an array are
      NaN. */
  method GetIssueVariance(counts: seq<int>, total: nat) returns (v: Double)
    ensures v == IssueVariance(counts, total)
  {
    if total == 0 {
      return NaN;
    }
    var issueValueCounts := new real[|counts|];
    var j := 0;
    while j < |counts|
      invariant 0 <= j <= |counts|
      invariant issueValueCounts[..j] == Frequencies(counts, total)[..j]
    {
      issueValueCounts[j] := counts[j] as real / total as real;
      j := j + 1;
    }
    assert issueValueCounts[..] == Frequencies(counts, total) by {
      assert issueValueCounts[..j] == issueValueCounts[..];
    }
    v := Statistics.GetVariance(issueValueCounts);
  }

  /** Sums the variances, then gives each issue its variance plus an equal
      share of 1 minus that total. */
  method SpreadVariances(vars: seq<Double>) returns (weights: seq<Double>)
    ensures weights == Spread(vars)
  {
    if |vars| == 0 {
      return [];
    }
    var totalVariance := Finite(0.0);
    var i := 0;
    while i < |vars|
      invariant 0 <= i <= |vars|
      invariant totalVariance == DoubleSum(vars[..i])
    {
      assert vars[..i + 1][..i] == vars[..i];
      totalVariance := totalVariance.Plus(vars[i]);
      i := i + 1;
    }
    assert vars[..i] == vars;
    var extra := if totalVariance.Finite?
      then Finite((1.0 - totalVariance.value) / |vars| as real) else NaN;
    weights := [];
    i := 0;
    while i < |vars|
      invariant 0 <= i <= |vars|
      invariant weights == Spread(vars)[..i]
    {
      weights := weights + [vars[i].Plus(extra)];
      i := i + 1;
    }
  }
}
