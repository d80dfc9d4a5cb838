/** src/negotiator/group11/Opponent.java: the older per-opponent record that
    Group11 keeps.  It stores the opponent's offers and accepts in two
    histories and tries to count how often each value was offered, but the
    count map starts empty and a missing count is unboxed from null, which
    throws and is swallowed: the map never receives an entry.  The
    variance-to-weight arithmetic of calculateUtilitySpace is modelled; the
    utility space it writes the weights into is not. */
module OpponentRecord {
  import opened Numerics
  import opened Domain
  import opened BidSequences
  import opened IssueWeights
  import BidHistory

  // ---------------------------------------------------------------------------
  // updateIssueValueCounter

  /** One iteration for `issue`: a failed lookup of the bid's value, or a
      value with no stored count (null unboxed into int), throws and the
      exception is swallowed; otherwise the count grows by one. */
  function CountIssue(counter: map<Content, int>, b: Bid, issue: Issue): map<Content, int>
  {
    var n := issue.number;
    if n in b.values && b.values[n].content in counter then
      counter[b.values[n].content := counter[b.values[n].content] + 1]
    else counter
  }

  /** The counter after the loop has run over `issues`, in order. */
  function CounterAfter(counter: map<Content, int>, b: Bid, issues: seq<Issue>): map<Content, int>
  {
    if |issues| == 0 then counter
    else CountIssue(CounterAfter(counter, b, issues[..|issues| - 1]), b, issues[|issues| - 1])
  }

  /** The loop never adds a key: it only ever increments a count that is
      already there. */
  lemma {:induction false} CounterAfterKeys(counter: map<Content, int>, b: Bid, issues: seq<Issue>)
    ensures CounterAfter(counter, b, issues).Keys == counter.Keys
  {
    if |issues| > 0 {
      CounterAfterKeys(counter, b, issues[..|issues| - 1]);
    }
  }

  /** The loop never decreases a count. */
  lemma {:induction false} CounterAfterGrows(counter: map<Content, int>, b: Bid, issues: seq<Issue>)
    ensures forall c :: c in counter ==> c in CounterAfter(counter, b, issues) && CounterAfter(counter, b, issues)[c] >= counter[c]
  {
    if |issues| > 0 {
      CounterAfterGrows(counter, b, issues[..|issues| - 1]);
      CounterAfterKeys(counter, b, issues[..|issues| - 1]);
    }
  }

  /** Starting from the empty map, which is where every Opponent starts, the
      counter stays empty whatever bids are counted. */
  lemma CounterStaysEmpty(b: Bid, issues: seq<Issue>)
    ensures CounterAfter(map[], b, issues) == map[]
  {
    CounterAfterKeys(map[], b, issues);
  }

  // ---------------------------------------------------------------------------
  // The weights of calculateUtilitySpace

  /** The counts of an issue's values in the issue's order; a missing count
      is read as 0. */
  function CountsOf(counter: map<Content, int>, issue: Issue): (r: seq<int>)
    ensures |r| == |issue.values|
    ensures forall j :: 0 <= j < |r| ==>
      r[j] == if issue.values[j].content in counter then counter[issue.values[j].content] else 0
  {
    seq(|issue.values|, j requires 0 <= j < |issue.values| =>
      var c := issue.values[j].content;
      if c in counter then counter[c] else 0)
  }

  /** The variance of every discrete issue, in the domain's order; other
      issues get no entry. */
  function DiscreteVariances(counter: map<Content, int>, total: nat, issues: seq<Issue>): (r: seq<Double>)
    ensures |r| == |DiscreteIssues(issues)|
    ensures forall j :: 0 <= j < |r| ==> r[j] == IssueVariance(CountsOf(counter, DiscreteIssues(issues)[j]), total)
  {
    var discrete := DiscreteIssues(issues);
    seq(|discrete|, j requires 0 <= j < |discrete| => IssueVariance(CountsOf(counter, discrete[j]), total))
  }

  /** The weight of every discrete issue, in the domain's order. */
  function OpponentWeights(counter: map<Content, int>, total: nat, issues: seq<Issue>): (r: seq<Double>)
    ensures |r| == |DiscreteIssues(issues)|
  {
    Spread(DiscreteVariances(counter, total, issues))
  }

  lemma DiscreteVariancesStep(counter: map<Content, int>, total: nat, issues: seq<Issue>, k: nat)
    requires k < |issues|
    ensures DiscreteVariances(counter, total, issues[..k + 1]) ==
      DiscreteVariances(counter, total, issues[..k]) +
      (if issues[k].kind == Discrete then [IssueVariance(CountsOf(counter, issues[k]), total)] else [])
  {
    assert issues[..k + 1][..k] == issues[..k];
    assert DiscreteIssues(issues[..k + 1]) ==
      DiscreteIssues(issues[..k]) + (if issues[k].kind == Discrete then [issues[k]] else []);
  }

  predicate EveryDiscreteIssueHasValues(issues: seq<Issue>)
  {
    forall k :: 0 <= k < |issues| && issues[k].kind == Discrete ==> |issues[k].values| > 0
  }

  lemma DiscreteIssuesHaveValues(issues: seq<Issue>)
    requires EveryDiscreteIssueHasValues(issues)
    ensures forall j :: 0 <= j < |DiscreteIssues(issues)| ==> |DiscreteIssues(issues)[j].values| > 0
  {
    forall j | 0 <= j < |DiscreteIssues(issues)|
      ensures |DiscreteIssues(issues)[j].values| > 0
    {
      var x := DiscreteIssues(issues)[j];
      assert x in DiscreteIssues(issues);
      var k :| 0 <= k < |issues| && issues[k] == x;
    }
  }

  /** After at least one offer, with at least one discrete issue that has
      values, the weights are numbers that sum to 1. */
  lemma OpponentWeightsSumToOne(counter: map<Content, int>, total: nat, issues: seq<Issue>)
    requires total > 0
    requires |DiscreteIssues(issues)| > 0
    requires EveryDiscreteIssueHasValues(issues)
    ensures AllFinite(OpponentWeights(counter, total, issues))
    ensures Sum(Values(OpponentWeights(counter, total, issues))) == 1.0
  {
    DiscreteIssuesHaveValues(issues);
    var vars := DiscreteVariances(counter, total, issues);
    assert AllFinite(vars);
    SpreadSumsToOne(vars);
  }

  /** With no count stored (the only counter an Opponent ever has) and at
      least one offer, every discrete issue's frequencies are all 0, its
      variance is 0 and every weight is exactly 1 / k. */
  lemma EmptyCounterGivesEqualWeights(total: nat, issues: seq<Issue>)
    requires total > 0
    requires |DiscreteIssues(issues)| > 0
    requires EveryDiscreteIssueHasValues(issues)
    ensures forall j :: 0 <= j < |DiscreteIssues(issues)| ==>
      OpponentWeights(map[], total, issues)[j] == Finite(1.0 / |DiscreteIssues(issues)| as real)
  {
    DiscreteIssuesHaveValues(issues);
    var vars := DiscreteVariances(map[], total, issues);
    forall j | 0 <= j < |vars|
      ensures vars[j] == Finite(0.0)
    {
      var counts := CountsOf(map[], DiscreteIssues(issues)[j]);
      var freqs := Frequencies(counts, total);
      Statistics.VarianceOfConstant(freqs, 0.0);
    }
    SpreadOfZeroVariances(vars);
  }

  /** Before the first offer every frequency is a division by 0, so every
      weight is NaN. */
  lemma NoOffersGivesNaNWeights(counter: map<Content, int>, issues: seq<Issue>)
    requires |DiscreteIssues(issues)| > 0
    ensures forall j :: 0 <= j < |DiscreteIssues(issues)| ==> OpponentWeights(counter, 0, issues)[j].NaN?
  {
    var vars := DiscreteVariances(counter, 0, issues);
    assert vars[0].NaN?;
    SpreadSumsToOne(vars);
  }

  class Opponent {
    const allBids: BidHistory.OpponentBidHistory
    const acceptedBids: BidHistory.OpponentBidHistory
    /** issueValueCounter, keyed by value content (Value.equals). */
    var issueValueCounter: map<Content, int>
    ghost const Repr: set<object>

    ghost predicate Valid()
    {
      Repr == {this, allBids, acceptedBids} && allBids != acceptedBids
    }

    constructor()
      ensures Valid() && fresh(Repr)
      ensures allBids.bids == [] && acceptedBids.bids == []
      ensures issueValueCounter == map[]
    {
      allBids := new BidHistory.OpponentBidHistory();
      acceptedBids := new BidHistory.OpponentBidHistory();
      issueValueCounter := map[];
      Repr := {this, allBids, acceptedBids};
    }

    /** updateIssueValueCounter: a null bid throws at b.getIssues(), which
        nothing catches. */
    method UpdateIssueValueCounter(b: Option<Bid>) returns (outcome: Outcome)
      modifies this
      ensures b.None? ==> outcome == Thrown(NullPointer) && issueValueCounter == old(issueValueCounter)
      ensures b.Some? ==> outcome == Done && issueValueCounter == CounterAfter(old(issueValueCounter), b.value, b.value.issues)
    {
      if b.None? {
        return Thrown(NullPointer);
      }
      var bid := b.value;
      var k := 0;
      while k < |bid.issues|
        invariant 0 <= k <= |bid.issues|
        invariant issueValueCounter == CounterAfter(old(issueValueCounter), bid, bid.issues[..k])
      {
        assert bid.issues[..k + 1][..k] == bid.issues[..k];
        var n := bid.issues[k].number;
        if n in bid.values {
          var v := bid.values[n];
          if v.content in issueValueCounter {
            var currentCount := issueValueCounter[v.content];
            currentCount := currentCount + 1;
            issueValueCounter := issueValueCounter[v.content := currentCount];
          }
          // else: get(v) is null and unboxing it throws; the catch ignores it
        }
        // else: getValue throws; the catch ignores it
        k := k + 1;
      }
      assert bid.issues[..k] == bid.issues;
      outcome := Done;
    }

    /** addAccept: records (b, b) as accepted, then counts b twice. */
    method AddAccept(acceptBid: Option<Bid>) returns (outcome: Outcome)
      requires Valid()
      modifies Repr
      ensures acceptedBids.bids == old(acceptedBids.bids) + [BidSequence(acceptBid, acceptBid)]
      ensures allBids.bids == old(allBids.bids)
      ensures acceptBid.None? ==> outcome == Thrown(NullPointer) && issueValueCounter == old(issueValueCounter)
      ensures acceptBid.Some? ==> (
        && outcome == Done
        && issueValueCounter ==
             CounterAfter(CounterAfter(old(issueValueCounter), acceptBid.value, acceptBid.value.issues),
                          acceptBid.value, acceptBid.value.issues))
      ensures old(issueValueCounter) == map[] ==> issueValueCounter == map[]
    {
      acceptedBids.Add(acceptBid, acceptBid);
      outcome := UpdateIssueValueCounter(acceptBid);
      if outcome.Done? {
        outcome := UpdateIssueValueCounter(acceptBid);
        CounterStaysEmpty(acceptBid.value, acceptBid.value.issues);
      }
    }

    /** addOffer: records (previous, offer) as an offer, then counts the offer. */
    method AddOffer(previousBid: Option<Bid>, offerBid: Option<Bid>) returns (outcome: Outcome)
      requires Valid()
      modifies Repr
      ensures allBids.bids == old(allBids.bids) + [BidSequence(previousBid, offerBid)]
      ensures acceptedBids.bids == old(acceptedBids.bids)
      ensures offerBid.None? ==> outcome == Thrown(NullPointer) && issueValueCounter == old(issueValueCounter)
      ensures offerBid.Some? ==> (
        && outcome == Done
        && issueValueCounter == CounterAfter(old(issueValueCounter), offerBid.value, offerBid.value.issues))
      ensures old(issueValueCounter) == map[] ==> issueValueCounter == map[]
    {
      allBids.Add(previousBid, offerBid);
      outcome := UpdateIssueValueCounter(offerBid);
      if outcome.Done? {
        CounterStaysEmpty(offerBid.value, offerBid.value.issues);
      }
    }

    /** The inner loop of calculateUtilitySpace for one discrete issue: the
        stored count of each value, or 0 when get returns null. */
    method ValueCounts(issue: Issue) returns (counts: seq<int>)
      ensures counts == CountsOf(issueValueCounter, issue)
    {
      counts := [];
      var j := 0;
      while j < |issue.values|
        invariant 0 <= j <= |issue.values|
        invariant counts == CountsOf(issueValueCounter, issue)[..j]
      {
        var vd := issue.values[j];
        var valueCountSomething := if vd.content in issueValueCounter then Some(issueValueCounter[vd.content]) else None;
        var valueCount := if valueCountSomething.None? then 0 else valueCountSomething.value;
        counts := counts + [valueCount];
        j := j + 1;
      }
    }

    /** The loop of calculateUtilitySpace over the issues: the variance of
        each discrete issue's value frequencies, in issue order. */
    method IssueVariances(issues: seq<Issue>, total: nat) returns (variances: seq<Double>)
      ensures variances == DiscreteVariances(issueValueCounter, total, issues)
    {
      variances := [];
      var k := 0;
      while k < |issues|
        invariant 0 <= k <= |issues|
        invariant variances == DiscreteVariances(issueValueCounter, total, issues[..k])
      {
        DiscreteVariancesStep(issueValueCounter, total, issues, k);
        var issue := issues[k];
        if issue.kind == Discrete {
          var counts := ValueCounts(issue);
          var variance := GetIssueVariance(counts, total);
          variances := variances + [variance];
        }
        k := k + 1;
      }
      assert issues[..k] == issues;
    }

    /** The counts and weights of calculateUtilitySpace(d): for each discrete
        issue, the count of each of its values (0 when none is stored)
        divided by the number of offers, the population variance of those
        frequencies, and then variance + (1 - total variance) / k for each
        of the k discrete issues. */
    method CalculateIssueWeights(issues: seq<Issue>) returns (weights: seq<Double>)
      requires Valid()
      ensures weights == OpponentWeights(issueValueCounter, |allBids.bids|, issues)
    {
      var total := allBids.GetSize();
      var variances := IssueVariances(issues, total);
      weights := SpreadVariances(variances);
    }
  }
}
