/** src/negotiator/group11/OpponentUtilityModel.java: a frequency model of
    one opponent over a domain of discrete issues.  It counts how often each
    value of each issue was offered (an offer counts once, an accept twice),
    weighs each issue by the variance of its value frequencies plus an equal
    share of what is left of 1, and scores a value by its count over the
    largest count of its issue.

    The HashMaps are keyed by issue and by value content, as the framework's
    `equals` compares them.  Where the source iterates a HashMap to sum or to
    fill an array, the model iterates the domain's issue order and each
    issue's value order instead: the sums and variances do not depend on the
    order in exact arithmetic, and the maps hold exactly those keys (see
    Valid). */
module UtilityModel {
  import opened Numerics
  import opened Domain
  import opened BidSequences
  import opened IssueWeights
  import BidHistory

  type Counts = map<Issue, map<Content, int>>

  // ---------------------------------------------------------------------------
  // The initial state

  /** A zero count for each value of the issue. */
  function ZeroCounts(issue: Issue): map<Content, int>
  {
    map c | c in Contents(issue) :: 0
  }

  function InitialCounts(issues: seq<Issue>): Counts
  {
    map i | i in issues :: ZeroCounts(i)
  }

  /** Weight 1 / n for each of the n issues. */
  function DefaultWeights(issues: seq<Issue>): map<Issue, Double>
  {
    map i | i in issues :: Finite(1.0 / |issues| as real)
  }

  /** The constructor's maps after its loop has visited the first k issues. */
  function WeightsUpTo(issues: seq<Issue>, k: nat): map<Issue, Double>
    requires k <= |issues|
  {
    map i | i in issues[..k] :: Finite(1.0 / |issues| as real)
  }

  function CountsUpTo(issues: seq<Issue>, k: nat): Counts
    requires k <= |issues|
  {
    map i | i in issues[..k] :: ZeroCounts(i)
  }

  lemma UpToStep(issues: seq<Issue>, k: nat)
    requires k < |issues|
    ensures WeightsUpTo(issues, k + 1) == WeightsUpTo(issues, k)[issues[k] := Finite(1.0 / |issues| as real)]
    ensures CountsUpTo(issues, k + 1) == CountsUpTo(issues, k)[issues[k] := ZeroCounts(issues[k])]
  {
    assert issues[..k + 1] == issues[..k] + [issues[k]];
  }

  lemma UpToAll(issues: seq<Issue>)
    ensures WeightsUpTo(issues, |issues|) == DefaultWeights(issues)
    ensures CountsUpTo(issues, |issues|) == InitialCounts(issues)
  {
    assert issues[..|issues|] == issues;
  }

  /** The initial counts hold a zero for exactly each value of each issue. */
  lemma InitialCountsShape(issues: seq<Issue>)
    ensures forall i :: i in InitialCounts(issues) <==> i in issues
    ensures forall i :: i in InitialCounts(issues) ==>
      InitialCounts(issues)[i].Keys == (set c | c in Contents(i)) && NonNegativeCounts(InitialCounts(issues)[i])
  {
  }

  /** A map that sends issues[j] to w[j] for every j, and has no other key,
      is the map comprehension ModelWeights builds. */
  lemma AssignedWeights(m: map<Issue, Double>, issues: seq<Issue>, w: seq<Double>)
    requires Distinct(issues) && |w| == |issues|
    requires forall i :: i in m <==> i in issues
    requires forall j :: 0 <= j < |issues| ==> m[issues[j]] == w[j]
    ensures m == WeightsMap(issues, w)
  {
    var n := WeightsMap(issues, w);
    forall i | i in m
      ensures i in n && n[i] == m[i]
    {
      var j :| 0 <= j < |issues| && issues[j] == i;
    }
  }

  lemma WellFormedIssuesDistinct(issues: seq<Issue>)
    requires WellFormed(issues)
    ensures Distinct(issues)
  {
    forall a, b | 0 <= a < b < |issues|
      ensures issues[a] != issues[b]
    {
      assert IssueNumbers(issues)[a] != IssueNumbers(issues)[b];
    }
  }

  // ---------------------------------------------------------------------------
  // updateCountersFromBid

  /** The try block for one discrete issue i: the issue's count map, the
      bid's value for i's number, cast to a discrete value, and its count.
      A missing count map or count (NullPointerException), a failed lookup
      or a non-discrete value (ClassCastException) is caught, and nothing
      changes. */
  function CountStep(counts: Counts, b: Bid, i: Issue): Counts
  {
    if i in counts && i.number in b.values && b.values[i.number].content.DiscreteValue?
       && b.values[i.number].content in counts[i]
    then
      var c := b.values[i.number].content;
      counts[i := counts[i][c := counts[i][c] + 1]]
    else counts
  }

  /** The counts after the loop has run over `issues`, in order. */
  function CountsAfter(counts: Counts, b: Bid, issues: seq<Issue>): Counts
  {
    if |issues| == 0 then counts
    else CountStep(CountsAfter(counts, b, issues[..|issues| - 1]), b, issues[|issues| - 1])
  }

  lemma CountsAfterExtend(counts: Counts, b: Bid, s: seq<Issue>, k: nat)
    requires k < |s|
    ensures CountsAfter(counts, b, s[..k + 1]) == CountStep(CountsAfter(counts, b, s[..k]), b, s[k])
  {
    assert s[..k + 1][..k] == s[..k];
  }

  /** The position of the first non-discrete issue, where the loop throws
      InvalidBidException, or the length when there is none. */
  function FirstNonDiscrete(issues: seq<Issue>): (p: nat)
    ensures p <= |issues|
    ensures AllDiscrete(issues[..p])
    ensures p < |issues| ==> issues[p].kind != Discrete
    ensures p == |issues| <==> AllDiscrete(issues)
  {
    if |issues| == 0 then 0
    else if issues[0].kind != Discrete then 0
    else
      var p := 1 + FirstNonDiscrete(issues[1..]);
      assert issues[..p] == [issues[0]] + issues[1..][..p - 1];
      p
  }

  /** The bid offers content c for issue i. */
  predicate Offers(b: Bid, i: Issue, c: Content)
  {
    i.number in b.values && b.values[i.number].content == c
  }

  /** Counting never adds or removes an issue or a value, and an issue's
      value count grows by exactly one when the bid offers that value for an
      issue the loop visits, and is otherwise unchanged. */
  lemma {:induction false} CountsAfterDelta(counts: Counts, b: Bid, s: seq<Issue>)
    requires Distinct(s)
    ensures forall i :: i in CountsAfter(counts, b, s) <==> i in counts
    ensures forall i :: i in counts ==> CountsAfter(counts, b, s)[i].Keys == counts[i].Keys
    ensures forall i, c :: i in counts && c in counts[i] && c.DiscreteValue? ==>
      CountsAfter(counts, b, s)[i][c] == counts[i][c] + (if i in s && Offers(b, i, c) then 1 else 0)
  {
    if |s| > 0 {
      var t := s[..|s| - 1];
      var last := s[|s| - 1];
      assert s == t + [last];
      CountsAfterDelta(counts, b, t);
      assert last !in t;
    }
  }

  /** An accept counts the bid twice: each offered value of a visited issue
      grows by two. */
  lemma AcceptCountsTwice(counts: Counts, b: Bid, s: seq<Issue>)
    requires Distinct(s)
    ensures forall i, c :: i in counts && c in counts[i] && c.DiscreteValue? ==>
      && i in CountsAfter(CountsAfter(counts, b, s), b, s)
      && c in CountsAfter(CountsAfter(counts, b, s), b, s)[i]
      && CountsAfter(CountsAfter(counts, b, s), b, s)[i][c] == counts[i][c] + (if i in s && Offers(b, i, c) then 2 else 0)
  {
    CountsAfterDelta(counts, b, s);
    CountsAfterDelta(CountsAfter(counts, b, s), b, s);
  }

  // ---------------------------------------------------------------------------
  // updateWeightsFromCounters

  /** An issue's value counts in the issue's value order (0 for a value
      without a count, which the model's invariant rules out). */
  function IssueCounts(counts: Counts, i: Issue): (r: seq<int>)
    ensures |r| == |i.values|
  {
    seq(|i.values|, j requires 0 <= j < |i.values| =>
      var c := i.values[j].content;
      if i in counts && c in counts[i] then counts[i][c] else 0)
  }

  /** Every issue's variance of count / total. */
  function ModelVariances(counts: Counts, total: nat, issues: seq<Issue>): (r: seq<Double>)
    ensures |r| == |issues|
    ensures forall k :: 0 <= k < |issues| ==> r[k] == IssueVariance(IssueCounts(counts, issues[k]), total)
  {
    seq(|issues|, k requires 0 <= k < |issues| => IssueVariance(IssueCounts(counts, issues[k]), total))
  }

  /** The weight of every issue: its variance plus (1 - total variance) / k. */
  function ModelWeights(counts: Counts, total: nat, issues: seq<Issue>): map<Issue, Double>
    requires Distinct(issues)
  {
    WeightsMap(issues, Spread(ModelVariances(counts, total, issues)))
  }

  /** The map that sends issues[k] to w[k]. */
  function WeightsMap(issues: seq<Issue>, w: seq<Double>): map<Issue, Double>
    requires Distinct(issues) && |w| == |issues|
  {
    map k | 0 <= k < |issues| :: issues[k] := w[k]
  }

  /** With at least one offer and every issue having a value, the weights
      are numbers that add up to 1. */
  lemma ModelWeightsSumToOne(counts: Counts, total: nat, issues: seq<Issue>)
    requires Distinct(issues)
    requires total > 0 && |issues| > 0
    requires forall k :: 0 <= k < |issues| ==> |issues[k].values| > 0
    ensures forall k :: 0 <= k < |issues| ==> ModelWeights(counts, total, issues)[issues[k]].Finite?
    ensures AllFinite(Spread(ModelVariances(counts, total, issues)))
    ensures Sum(Values(Spread(ModelVariances(counts, total, issues)))) == 1.0
  {
    var vars := ModelVariances(counts, total, issues);
    assert AllFinite(vars);
    SpreadSumsToOne(vars);
  }

  /** Before the first offer is recorded (an accept can come first), every
      frequency divides by 0 and every weight becomes NaN. */
  lemma ModelWeightsWithoutOffers(counts: Counts, issues: seq<Issue>)
    requires Distinct(issues) && |issues| > 0
    ensures forall k :: 0 <= k < |issues| ==> ModelWeights(counts, 0, issues)[issues[k]].NaN?
  {
    var vars := ModelVariances(counts, 0, issues);
    assert vars[0].NaN?;
    SpreadSumsToOne(vars);
  }

  // ---------------------------------------------------------------------------
  // getMaxValue, getIssueEvaluation and getUtility

  /** The largest count, and 0 when there is none or every count is negative. */
  ghost function MaxCount(counts: map<Content, int>): (m: int)
    ensures m >= 0
    ensures forall c :: c in counts ==> counts[c] <= m
    ensures m == 0 || exists c :: c in counts && counts[c] == m
    decreases |counts|
  {
    if |counts| == 0 then 0
    else
      var c :| c in counts;
      var rest := counts - {c};
      assert |rest| < |counts| by {
        assert rest.Keys < counts.Keys;
      }
      assert forall d :: d in counts && d != c ==> d in rest && rest[d] == counts[d];
      var m := MaxCount(rest);
      if counts[c] > m then counts[c] else m
  }

  /** getIssueEvaluation(i, b) on the model's counts.  A failed lookup, a
      missing count map and a missing count are caught and give 0; a
      non-discrete value is rethrown; otherwise count / max, which is 0 / 0
      (NaN) while the issue has no positive count. */
  ghost function IssueEvaluation(counts: Counts, i: Issue, b: Bid): Result<Double>
  {
    if i.number !in b.values then Ok(Finite(0.0))
    else
      var v := b.values[i.number].content;
      if !v.DiscreteValue? then Err(InvalidBid)
      else if i !in counts then Ok(Finite(0.0))
      else
        var max := MaxCount(counts[i]);
        if v !in counts[i] then Ok(Finite(0.0))
        else if max == 0 then Ok(NaN)
        else Ok(Finite(counts[i][v] as real / max as real))
  }

  /** getUtility's loop over `issues`: a non-discrete issue throws
      InvalidBidException, a missing weight is unboxed from null, and
      otherwise weight * evaluation is added. */
  ghost function UtilityOf(weights: map<Issue, Double>, counts: Counts, b: Bid, issues: seq<Issue>): Result<Double>
  {
    if |issues| == 0 then Ok(Finite(0.0))
    else AddIssue(UtilityOf(weights, counts, b, issues[..|issues| - 1]), weights, counts, b, issues[|issues| - 1])
  }

  /** One pass of getUtility's loop, from the utility so far. */
  ghost function AddIssue(prefix: Result<Double>, weights: map<Issue, Double>, counts: Counts, b: Bid, i: Issue): Result<Double>
  {
    if prefix.Err? then prefix
    else if i.kind != Discrete then Err(InvalidBid)
    else if i !in weights then Err(NullPointer)
    else
      var e := IssueEvaluation(counts, i, b);
      if e.Err? then Err(e.fault) else Ok(prefix.value.Plus(weights[i].Times(e.value)))
  }

  predicate NonNegativeCounts(counts: map<Content, int>)
  {
    forall c :: c in counts ==> counts[c] >= 0
  }

  /** One count map per issue, holding a non-negative count for exactly the
      values of that issue. */
  ghost predicate CountsShaped(counts: Counts, issues: seq<Issue>)
  {
    && (forall i :: i in counts <==> i in issues)
    && (forall i :: i in counts ==> counts[i].Keys == (set c | c in Contents(i)))
    && (forall i :: i in counts ==> NonNegativeCounts(counts[i]))
  }

  /** Counting a value keeps the shape of the counts. */
  lemma CountStepKeepsShape(counts: Counts, b: Bid, i: Issue, issues: seq<Issue>)
    requires CountsShaped(counts, issues)
    ensures CountsShaped(CountStep(counts, b, i), issues)
  {
  }

  /** A numeric evaluation lies in [0, 1]. */
  lemma EvaluationInUnitRange(counts: Counts, i: Issue, b: Bid)
    requires i in counts ==> NonNegativeCounts(counts[i])
    ensures IssueEvaluation(counts, i, b).Ok? && IssueEvaluation(counts, i, b).value.Finite? ==>
      0.0 <= IssueEvaluation(counts, i, b).value.value <= 1.0
  {
    if i.number in b.values && i in counts && b.values[i.number].content in counts[i] {
      var c := b.values[i.number].content;
      var max := MaxCount(counts[i]);
      if max > 0 {
        assert 0 <= counts[i][c] <= max;
        assert counts[i][c] as real / max as real <= 1.0 by {
          assert counts[i][c] as real <= max as real;
        }
      }
    }
  }

  /** The most frequent value of an issue with a positive count scores 1. */
  lemma MostFrequentValueScoresOne(counts: Counts, i: Issue, b: Bid)
    requires i in counts && i.number in b.values
    requires b.values[i.number].content.DiscreteValue?
    requires b.values[i.number].content in counts[i]
    requires counts[i][b.values[i.number].content] == MaxCount(counts[i]) > 0
    ensures IssueEvaluation(counts, i, b) == Ok(Finite(1.0))
  {
    var max := MaxCount(counts[i]);
    DivideBySelf(max as real);
  }

  lemma DivideBySelf(x: real)
    requires x > 0.0
    ensures x / x == 1.0
  {
  }

  /** While an issue has no positive count, every value that has a count
      evaluates to NaN. */
  lemma NoCountsEvaluateToNaN(counts: Counts, i: Issue, b: Bid)
    requires i in counts && i.number in b.values
    requires b.values[i.number].content.DiscreteValue?
    requires b.values[i.number].content in counts[i]
    requires forall c :: c in counts[i] ==> counts[i][c] == 0
    ensures IssueEvaluation(counts, i, b) == Ok(NaN)
  {
    MaxCountUnique(counts[i], 0);
  }

  /** The largest count is the one number that is at least 0 and every
      count and is 0 or some count. */
  lemma MaxCountUnique(counts: map<Content, int>, m: int)
    requires m >= 0
    requires forall c :: c in counts ==> counts[c] <= m
    requires m == 0 || exists c :: c in counts && counts[c] == m
    ensures m == MaxCount(counts)
  {
    var best := MaxCount(counts);
    if m != 0 {
      var c :| c in counts && counts[c] == m;
      assert m <= best;
    }
    if best != 0 {
      var c :| c in counts && counts[c] == best;
      assert best <= m;
    }
  }

  /** A bid with a non-discrete issue never gets a utility. */
  lemma {:induction false} NonDiscreteBidHasNoUtility(weights: map<Issue, Double>, counts: Counts, b: Bid, s: seq<Issue>)
    requires !AllDiscrete(s)
    ensures UtilityOf(weights, counts, b, s).Err?
  {
    var t := s[..|s| - 1];
    if s[|s| - 1].kind == Discrete {
      var k :| 0 <= k < |s| && s[k].kind != Discrete;
      assert t[k] == s[k];
      NonDiscreteBidHasNoUtility(weights, counts, b, t);
    }
  }

  /** The sum of the weights of `issues` that are numbers. */
  function WeightSum(weights: map<Issue, Double>, issues: seq<Issue>): real
  {
    if |issues| == 0 then 0.0
    else
      var i := issues[|issues| - 1];
      WeightSum(weights, issues[..|issues| - 1]) + Weight(weights, i)
  }

  /** The weight of an issue as a number, 0 when it has none. */
  function Weight(weights: map<Issue, Double>, i: Issue): real
  {
    if i in weights && weights[i].Finite? then weights[i].value else 0.0
  }

  /** With non-negative weights and counts, a numeric utility lies between 0
      and the sum of the weights of the bid's issues. */
  lemma {:induction false} UtilityWithinWeights(weights: map<Issue, Double>, counts: Counts, b: Bid, s: seq<Issue>)
    requires forall i :: i in weights && weights[i].Finite? ==> weights[i].value >= 0.0
    requires forall i :: i in counts ==> NonNegativeCounts(counts[i])
    ensures UtilityOf(weights, counts, b, s).Ok? && UtilityOf(weights, counts, b, s).value.Finite? ==>
      0.0 <= UtilityOf(weights, counts, b, s).value.value <= WeightSum(weights, s)
  {
    if |s| > 0 {
      var t := s[..|s| - 1];
      UtilityWithinWeights(weights, counts, b, t);
      AddIssueWithinWeight(UtilityOf(weights, counts, b, t), WeightSum(weights, t), weights, counts, b, s[|s| - 1]);
    }
  }

  /** The inductive step of UtilityWithinWeights: adding one issue adds at
      most its weight. */
  lemma AddIssueWithinWeight(p: Result<Double>, bound: real, weights: map<Issue, Double>, counts: Counts, b: Bid, i: Issue)
    requires i in weights && weights[i].Finite? ==> weights[i].value >= 0.0
    requires i in counts ==> NonNegativeCounts(counts[i])
    requires p.Ok? && p.value.Finite? ==> 0.0 <= p.value.value <= bound
    ensures var r := AddIssue(p, weights, counts, b, i);
      r.Ok? && r.value.Finite? ==> 0.0 <= r.value.value <= bound + Weight(weights, i)
  {
    var r := AddIssue(p, weights, counts, b, i);
    if r.Ok? && r.value.Finite? {
      var ev := IssueEvaluation(counts, i, b);
      EvaluationInUnitRange(counts, i, b);
      AddWeighted(p.value.value, bound, weights[i].value, ev.value.value);
    }
  }

  /** A partial sum within its bound stays within the bound plus w when
      w times a number in [0, 1] is added. */
  lemma AddWeighted(partial: real, bound: real, w: real, e: real)
    requires 0.0 <= partial <= bound && w >= 0.0 && 0.0 <= e <= 1.0
    ensures 0.0 <= partial + w * e <= bound + w
  {
    NonNegativeProduct(w, e);
    NonNegativeProduct(w, 1.0 - e);
    assert w * (1.0 - e) == w - w * e;
  }

  lemma NonNegativeProduct(x: real, y: real)
    requires x >= 0.0 && y >= 0.0
    ensures x * y >= 0.0
  {
  }

  // ---------------------------------------------------------------------------
  // The model object

  class OpponentUtilityModel {
    /** The domain's issues, in its order. */
    const issues: seq<Issue>
    const allBids: BidHistory.OpponentBidHistory
    const acceptedBids: BidHistory.OpponentBidHistory
    var issueWeights: map<Issue, Double>
    var valueCounts: Counts
    ghost const Repr: set<object>

    /** Every issue of the domain is discrete and has a weight and a count
        map; each count map holds a count for exactly the issue's values, and
        no count is negative. */
    ghost predicate Valid()
      reads this
    {
      && Repr == {this, allBids, acceptedBids} && allBids != acceptedBids
      && WellFormed(issues) && AllDiscrete(issues) && Distinct(issues)
      && (forall i :: i in issueWeights <==> i in issues)
      && CountsShaped(valueCounts, issues)
    }

    /** The constructor for a domain of discrete issues: weight 1 / n and a
        zero count for every value of every issue. */
    constructor(domainIssues: seq<Issue>)
      requires WellFormed(domainIssues) && AllDiscrete(domainIssues)
      ensures Valid() && fresh(Repr)
      ensures issues == domainIssues
      ensures allBids.bids == [] && acceptedBids.bids == []
      ensures valueCounts == InitialCounts(domainIssues)
      ensures issueWeights == DefaultWeights(domainIssues)
    {
      WellFormedIssuesDistinct(domainIssues);
      InitialCountsShape(domainIssues);
      var weights: map<Issue, Double> := map[];
      var counts: Counts := map[];
      var k := 0;
      while k < |domainIssues|
        invariant 0 <= k <= |domainIssues|
        invariant weights == WeightsUpTo(domainIssues, k)
        invariant counts == CountsUpTo(domainIssues, k)
      {
        var id := domainIssues[k];
        UpToStep(domainIssues, k);
        // defaultIssueWeight = 1.0 / d.getIssues().size()
        weights := weights[id := Finite(1.0 / |domainIssues| as real)];
        var valueCount := ZeroCountsOf(id);
        counts := counts[id := valueCount];
        k := k + 1;
      }
      UpToAll(domainIssues);
      issues := domainIssues;
      issueWeights := weights;
      valueCounts := counts;
      allBids := new BidHistory.OpponentBidHistory();
      acceptedBids := new BidHistory.OpponentBidHistory();
      Repr := {this, allBids, acceptedBids};
    }

    /** The constructor's inner loop: a zero count for each value. */
    static method ZeroCountsOf(id: Issue) returns (valueCount: map<Content, int>)
      ensures valueCount == ZeroCounts(id)
    {
      valueCount := map[];
      var j := 0;
      while j < |id.values|
        invariant 0 <= j <= |id.values|
        invariant valueCount == map c | c in Contents(id)[..j] :: 0
      {
        assert Contents(id)[..j + 1] == Contents(id)[..j] + [id.values[j].content];
        valueCount := valueCount[id.values[j].content := 0];
        j := j + 1;
      }
      assert Contents(id)[..j] == Contents(id);
    }

    /** The constructor with its InvalidDomainException: a domain with a
        non-discrete issue gives no model. */
    static method Create(domainIssues: seq<Issue>) returns (r: Result<OpponentUtilityModel>)
      requires WellFormed(domainIssues)
      ensures r.Err? <==> !AllDiscrete(domainIssues)
      ensures r.Err? ==> r.fault == InvalidDomain
      ensures r.Ok? ==> (
        && fresh(r.value.Repr) && r.value.Valid() && r.value.issues == domainIssues
        && r.value.valueCounts == InitialCounts(domainIssues)
        && r.value.issueWeights == DefaultWeights(domainIssues))
    {
      var k := 0;
      while k < |domainIssues|
        invariant 0 <= k <= |domainIssues|
        invariant AllDiscrete(domainIssues[..k])
      {
        if domainIssues[k].kind != Discrete {
          return Err(InvalidDomain);
        }
        assert domainIssues[..k + 1] == domainIssues[..k] + [domainIssues[k]];
        k := k + 1;
      }
      assert domainIssues[..k] == domainIssues;
      var m := new OpponentUtilityModel(domainIssues);
      r := Ok(m);
    }

    /** getMostLikelyStrategy: the classifier of the offer history alone. */
    method GetMostLikelyStrategy() returns (r: Result<Strategy>)
      ensures |allBids.bids| < 2 ==> r == Ok(Unknown)
      ensures |allBids.bids| >= 2 ==> r == Err(NullPointer)
    {
      r := allBids.GetMostLikelyStrategy();
    }

    /** updateWeightsFromCounters: recomputes every issue's weight from the
        counts and the number of offers. */
    method UpdateWeightsFromCounters()
      requires Valid()
      modifies this
      ensures Valid()
      ensures valueCounts == old(valueCounts)
      ensures issueWeights == ModelWeights(valueCounts, |allBids.bids|, issues)
    {
      var total := allBids.GetSize();
      var variances := IssueVariances(total);
      var weights := SpreadVariances(variances);
      StoreWeights(weights);
      AssignedWeights(issueWeights, issues, weights);
    }

    /** The first loop of updateWeightsFromCounters: each issue's counts
        divided by the number of offers, and their variance. */
    method IssueVariances(total: nat) returns (variances: seq<Double>)
      ensures variances == ModelVariances(valueCounts, total, issues)
    {
      variances := [];
      var k := 0;
      while k < |issues|
        invariant 0 <= k <= |issues|
        invariant variances == ModelVariances(valueCounts, total, issues)[..k]
      {
        var issueValueCounts := CountsOfIssue(issues[k]);
        var variance := GetIssueVariance(issueValueCounts, total);
        variances := variances + [variance];
        k := k + 1;
      }
    }

    /** The last loop of updateWeightsFromCounters: puts each issue's weight. */
    method StoreWeights(weights: seq<Double>)
      requires Valid() && |weights| == |issues|
      modifies this
      ensures Valid()
      ensures valueCounts == old(valueCounts)
      ensures forall j :: 0 <= j < |issues| ==> issueWeights[issues[j]] == weights[j]
    {
      var k := 0;
      while k < |issues|
        invariant 0 <= k <= |issues|
        invariant Valid()
        invariant valueCounts == old(valueCounts)
        invariant forall j :: 0 <= j < k ==> issueWeights[issues[j]] == weights[j]
      {
        issueWeights := issueWeights[issues[k] := weights[k]];
        k := k + 1;
      }
    }

    /** The counts of one issue's values, read from its count map. */
    method CountsOfIssue(i: Issue) returns (r: seq<int>)
      ensures r == IssueCounts(valueCounts, i)
    {
      r := [];
      var j := 0;
      while j < |i.values|
        invariant 0 <= j <= |i.values|
        invariant r == IssueCounts(valueCounts, i)[..j]
      {
        var c := i.values[j].content;
        r := r + [if i in valueCounts && c in valueCounts[i] then valueCounts[i][c] else 0];
        j := j + 1;
      }
    }

    /** updateCountersFromBid: counts the bid's value of each discrete
        issue; a non-discrete issue throws InvalidBidException after the
        issues before it have been counted and before the weights are
        recomputed.  A null bid throws at once. */
    method UpdateCountersFromBid(b: Option<Bid>) returns (outcome: Outcome)
      requires Valid()
      modifies this
      ensures Valid()
      ensures b.None? ==> outcome == Thrown(NullPointer) && valueCounts == old(valueCounts) && issueWeights == old(issueWeights)
      ensures b.Some? ==> valueCounts == CountsAfter(old(valueCounts), b.value, b.value.issues[..FirstNonDiscrete(b.value.issues)])
      ensures b.Some? && AllDiscrete(b.value.issues) ==>
        outcome == Done && issueWeights == ModelWeights(valueCounts, |allBids.bids|, issues)
      ensures b.Some? && !AllDiscrete(b.value.issues) ==>
        outcome == Thrown(InvalidBid) && issueWeights == old(issueWeights)
    {
      if b.None? {
        return Thrown(NullPointer);
      }
      var bid := b.value;
      var complete := CountBidIssues(bid);
      if !complete {
        return Thrown(InvalidBid);
      }
      UpdateWeightsFromCounters();
      outcome := Done;
    }

    /** updateCountersFromBid's loop: counts the issues of `bid` up to the
        first one that is not discrete, and says whether it reached the end. */
    method CountBidIssues(bid: Bid) returns (complete: bool)
      requires Valid()
      modifies this
      ensures Valid()
      ensures issueWeights == old(issueWeights)
      ensures valueCounts == CountsAfter(old(valueCounts), bid, bid.issues[..FirstNonDiscrete(bid.issues)])
      ensures complete <==> AllDiscrete(bid.issues)
    {
      var k := 0;
      while k < |bid.issues|
        invariant 0 <= k <= FirstNonDiscrete(bid.issues)
        invariant Valid()
        invariant issueWeights == old(issueWeights)
        invariant valueCounts == CountsAfter(old(valueCounts), bid, bid.issues[..k])
      {
        var i := bid.issues[k];
        if i.kind != Discrete {
          assert k == FirstNonDiscrete(bid.issues);
          return false;
        }
        assert k < FirstNonDiscrete(bid.issues);
        CountIssue(bid, i);
        CountsAfterExtend(old(valueCounts), bid, bid.issues, k);
        k := k + 1;
      }
      assert k == FirstNonDiscrete(bid.issues);
      return true;
    }

    /** One iteration of updateCountersFromBid's loop for a discrete issue. */
    method CountIssue(b: Bid, i: Issue)
      requires Valid()
      modifies this
      ensures Valid()
      ensures issueWeights == old(issueWeights)
      ensures valueCounts == CountStep(old(valueCounts), b, i)
    {
      CountStepKeepsShape(valueCounts, b, i, issues);
      if i !in valueCounts || i.number !in b.values {
        return;
      }
      var v := b.values[i.number];
      if !v.content.DiscreteValue? || v.content !in valueCounts[i] {
        return;
      }
      var valueCount := valueCounts[i];
      var currentCount := valueCount[v.content];
      currentCount := currentCount + 1;
      var updated := valueCounts[i := valueCount[v.content := currentCount]];
      assert updated == CountStep(valueCounts, b, i);
      valueCounts := updated;
    }

    /** addOffer: records (previous, offer) and counts the offer once. */
    method AddOffer(previousBid: Option<Bid>, offerBid: Option<Bid>) returns (outcome: Outcome)
      requires Valid()
      modifies Repr
      ensures Valid()
      ensures allBids.bids == old(allBids.bids) + [BidSequence(previousBid, offerBid)]
      ensures acceptedBids.bids == old(acceptedBids.bids)
      ensures offerBid.Some? ==>
        valueCounts == CountsAfter(old(valueCounts), offerBid.value, offerBid.value.issues[..FirstNonDiscrete(offerBid.value.issues)])
      ensures offerBid.None? ==>
        outcome == Thrown(NullPointer) && valueCounts == old(valueCounts) && issueWeights == old(issueWeights)
      ensures offerBid.Some? && AllDiscrete(offerBid.value.issues) ==>
        outcome == Done && issueWeights == ModelWeights(valueCounts, |allBids.bids|, issues)
      ensures offerBid.Some? && !AllDiscrete(offerBid.value.issues) ==>
        outcome == Thrown(InvalidBid) && issueWeights == old(issueWeights)
    {
      allBids.Add(previousBid, offerBid);
      outcome := UpdateCountersFromBid(offerBid);
    }

    /** addAccept: records (b, b) as accepted and counts b twice; the second
        count is not reached when the first throws. */
    method AddAccept(acceptBid: Option<Bid>) returns (outcome: Outcome)
      requires Valid()
      modifies Repr
      ensures Valid()
      ensures acceptedBids.bids == old(acceptedBids.bids) + [BidSequence(acceptBid, acceptBid)]
      ensures allBids.bids == old(allBids.bids)
      ensures acceptBid.None? ==>
        outcome == Thrown(NullPointer) && valueCounts == old(valueCounts) && issueWeights == old(issueWeights)
      ensures acceptBid.Some? && AllDiscrete(acceptBid.value.issues) ==> (
        && outcome == Done
        && valueCounts == CountsAfter(CountsAfter(old(valueCounts), acceptBid.value, acceptBid.value.issues),
                                      acceptBid.value, acceptBid.value.issues)
        && issueWeights == ModelWeights(valueCounts, |allBids.bids|, issues))
      ensures acceptBid.Some? && !AllDiscrete(acceptBid.value.issues) ==> (
        && outcome == Thrown(InvalidBid)
        && valueCounts == CountsAfter(old(valueCounts), acceptBid.value,
                                      acceptBid.value.issues[..FirstNonDiscrete(acceptBid.value.issues)])
        && issueWeights == old(issueWeights))
    {
      acceptedBids.Add(acceptBid, acceptBid);
      outcome := UpdateCountersFromBid(acceptBid);
      if outcome.Done? {
        assert acceptBid.value.issues[..|acceptBid.value.issues|] == acceptBid.value.issues;
        outcome := UpdateCountersFromBid(acceptBid);
      }
    }

    /** getMaxValue: the largest count, starting from 0. */
    static method GetMaxValue(counts: map<Content, int>) returns (max: real)
      ensures max == MaxCount(counts) as real
    {
      var m := 0;
      var remaining := counts.Keys;
      while remaining != {}
        invariant remaining <= counts.Keys
        invariant m >= 0
        invariant forall c :: c in counts.Keys - remaining ==> counts[c] <= m
        invariant m == 0 || exists c :: c in counts.Keys - remaining && counts[c] == m
        decreases |remaining|
      {
        var e :| e in remaining;
        m := if m >= counts[e] then m else counts[e];
        remaining := remaining - {e};
      }
      MaxCountUnique(counts, m);
      max := m as real;
    }

    /** getIssueEvaluation(i, b). */
    method GetIssueEvaluation(i: Issue, b: Bid) returns (r: Result<Double>)
      requires Valid()
      ensures r == IssueEvaluation(valueCounts, i, b)
    {
      if i.number !in b.values {
        return Ok(Finite(0.0));
      }
      var v := b.values[i.number];
      if !v.content.DiscreteValue? {
        return Err(InvalidBid);
      }
      if i !in valueCounts {
        return Ok(Finite(0.0));
      }
      var valueCount := valueCounts[i];
      var max := GetMaxValue(valueCount);
      if v.content !in valueCount {
        return Ok(Finite(0.0));
      }
      var count := valueCount[v.content];
      if max == 0.0 {
        // count is 0 here: 0.0 / 0.0
        return Ok(NaN);
      }
      r := Ok(Finite(count as real / max));
    }

    /** getUtility(b): the sum over the bid's issues of weight * evaluation. */
    method GetUtility(b: Option<Bid>) returns (r: Result<Double>)
      requires Valid()
      ensures b.None? ==> r == Err(NullPointer)
      ensures b.Some? ==> r == UtilityOf(issueWeights, valueCounts, b.value, b.value.issues)
    {
      if b.None? {
        return Err(NullPointer);
      }
      var bid := b.value;
      var utility := Finite(0.0);
      var k := 0;
      while k < |bid.issues|
        invariant 0 <= k <= |bid.issues|
        invariant UtilityOf(issueWeights, valueCounts, bid, bid.issues[..k]) == Ok(utility)
      {
        assert bid.issues[..k + 1][..k] == bid.issues[..k];
        var i := bid.issues[k];
        if i.kind != Discrete {
          assert UtilityOf(issueWeights, valueCounts, bid, bid.issues[..k + 1]) == Err(InvalidBid);
          NonDiscreteSuffix(bid, k);
          return Err(InvalidBid);
        }
        if i !in issueWeights {
          assert UtilityOf(issueWeights, valueCounts, bid, bid.issues[..k + 1]) == Err(NullPointer);
          FailureSticks(bid, k);
          return Err(NullPointer);
        }
        var weight := issueWeights[i];
        var evaluation := GetIssueEvaluation(i, bid);
        if evaluation.Err? {
          assert UtilityOf(issueWeights, valueCounts, bid, bid.issues[..k + 1]) == Err(evaluation.fault);
          FailureSticks(bid, k);
          return Err(evaluation.fault);
        }
        utility := utility.Plus(weight.Times(evaluation.value));
        k := k + 1;
      }
      assert bid.issues[..k] == bid.issues;
      r := Ok(utility);
    }

    lemma NonDiscreteSuffix(b: Bid, k: nat)
      requires k < |b.issues|
      requires UtilityOf(issueWeights, valueCounts, b, b.issues[..k + 1]) == Err(InvalidBid)
      ensures UtilityOf(issueWeights, valueCounts, b, b.issues) == Err(InvalidBid)
    {
      FailureSticks(b, k);
    }

    /** Once the loop has thrown, later issues do not change the outcome. */
    lemma FailureSticks(b: Bid, k: nat)
      requires k < |b.issues|
      requires UtilityOf(issueWeights, valueCounts, b, b.issues[..k + 1]).Err?
      ensures UtilityOf(issueWeights, valueCounts, b, b.issues) == UtilityOf(issueWeights, valueCounts, b, b.issues[..k + 1])
      decreases |b.issues| - k
    {
      if k + 1 < |b.issues| {
        assert b.issues[..k + 2][..k + 1] == b.issues[..k + 1];
        FailureSticks(b, k + 1);
      } else {
        assert b.issues[..k + 1] == b.issues;
      }
    }
  }
}
