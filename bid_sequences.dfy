/** What both versions of OpponentBidHistory share: the (previous, current)
    pair that is stored per offer, the three bid-modification strategies,
    getBidDifference (how many issues two bids assign different value
    objects to) and the max-tracking loop over the strategy tallies. */
module BidSequences {
  import opened Numerics
  import opened Domain

  /** BidSequence: the bid that was on the table and the bid that answered
      it.  Either may be null. */
  datatype BidSequence = BidSequence(previous: Option<Bid>, current: Option<Bid>)

  /** BidModificationStrategy. */
  datatype Strategy = Unknown | ModifySelf | ModifyPrevious

  // ---------------------------------------------------------------------------
  // getBidDifference

  /** Both value lookups for issue number n succeed: bid1 has a value for n,
      bid2 is not null and has one too.  Otherwise the lookup throws inside
      the try block and the issue is skipped. */
  predicate Comparable(bid1: Bid, bid2: Option<Bid>, n: int)
  {
    n in bid1.values && bid2.Some? && n in bid2.value.values
  }

  /** `value1 == value2`: reference equality of the two value objects. */
  predicate SameObject(bid1: Bid, bid2: Option<Bid>, n: int)
    requires Comparable(bid1, bid2, n)
  {
    bid1.values[n].ref == bid2.value.values[n].ref
  }

  /** The issue numbers of `issues` for which both lookups succeed: the keys
      of the `counts` map after the first loop has run over `issues`. */
  function Compared(bid1: Bid, bid2: Option<Bid>, issues: seq<Issue>): set<int>
  {
    set n | n in IssueNumbers(issues) && Comparable(bid1, bid2, n)
  }

  /** The issue numbers of bid1 whose two value objects are different
      objects: what getBidDifference counts. */
  function DifferingIssues(bid1: Bid, bid2: Option<Bid>): set<int>
  {
    set n | n in IssueNumbers(bid1.issues) && Comparable(bid1, bid2, n) && !SameObject(bid1, bid2, n)
  }

  lemma IssueNumbersPrefix(issues: seq<Issue>, k: nat)
    requires k < |issues|
    ensures IssueNumbers(issues[..k + 1]) == IssueNumbers(issues[..k]) + [issues[k].number]
  {
  }

  /** The entries of the map whose flag is false: the issues whose two value
      objects differ. */
  function Differing(counts: map<int, bool>): set<int>
  {
    set n | n in counts && !counts[n]
  }

  /** getBidDifference(bid1, bid2).  A null bid1 throws at bid1.getIssues();
      a null bid2 only makes every lookup throw, which is caught. */
  method GetBidDifference(bid1: Option<Bid>, bid2: Option<Bid>) returns (r: Result<nat>)
    ensures bid1.None? ==> r == Err(NullPointer)
    ensures bid1.Some? ==> r == Ok(|DifferingIssues(bid1.value, bid2)|)
  {
    if bid1.None? {
      return Err(NullPointer);
    }
    var counts := CompareValues(bid1.value, bid2);
    assert Differing(counts) == DifferingIssues(bid1.value, bid2);
    var differenceCount := CountDifferences(counts);
    r := Ok(differenceCount);
  }

  /** The first loop of getBidDifference: for every issue of bid1 whose two
      lookups succeed, whether both bids hold the same value object. */
  method CompareValues(b1: Bid, bid2: Option<Bid>) returns (counts: map<int, bool>)
    ensures counts.Keys == Compared(b1, bid2, b1.issues)
    ensures forall n :: n in counts ==> Comparable(b1, bid2, n) && counts[n] == SameObject(b1, bid2, n)
  {
    counts := map[];
    var k := 0;
    while k < |b1.issues|
      invariant 0 <= k <= |b1.issues|
      invariant counts.Keys == Compared(b1, bid2, b1.issues[..k])
      invariant forall n :: n in counts ==> Comparable(b1, bid2, n) && counts[n] == SameObject(b1, bid2, n)
    {
      var n := b1.issues[k].number;
      IssueNumbersPrefix(b1.issues, k);
      if n in b1.values && bid2.Some? && n in bid2.value.values {
        counts := counts[n := b1.values[n].ref == bid2.value.values[n].ref];
      }
      k := k + 1;
    }
    assert b1.issues[..k] == b1.issues;
  }

  /** Some element of a non-empty set (the next entry of an iteration). */
  method PickOne<T>(s: set<T>) returns (e: T)
    requires s != {}
    ensures e in s
  {
    e :| e in s;
  }

  /** The second loop of getBidDifference: counts the false entries. */
  method CountDifferences(counts: map<int, bool>) returns (differenceCount: nat)
    ensures differenceCount == |Differing(counts)|
  {
    differenceCount := 0;
    var remaining: set<int> := counts.Keys;
    while remaining != {}
      invariant remaining <= counts.Keys
      invariant differenceCount == |set m | m in counts.Keys - remaining && !counts[m]|
      decreases |remaining|
    {
      var e := PickOne(remaining);
      var before := set m | m in counts.Keys - remaining && !counts[m];
      var after := set m | m in counts.Keys - (remaining - {e}) && !counts[m];
      if !counts[e] {
        assert after == before + {e};
        differenceCount := differenceCount + 1;
      } else {
        assert after == before;
      }
      remaining := remaining - {e};
    }
    assert (set m | m in counts.Keys - {} && !counts[m]) == Differing(counts);
  }

  lemma {:induction false} DistinctElementsBound(s: seq<int>)
    ensures |set x | x in s| <= |s|
  {
    if |s| > 0 {
      var t := s[..|s| - 1];
      DistinctElementsBound(t);
      assert (set x | x in s) == (set x | x in t) + {s[|s| - 1]} by {
        assert s == t + [s[|s| - 1]];
      }
    }
  }

  /** The difference lies between 0 and the number of issues of bid1; a bid
      compared with itself, or with a null bid, differs in no issue. */
  lemma DifferenceBounds(bid1: Bid, bid2: Option<Bid>)
    ensures |DifferingIssues(bid1, bid2)| <= |bid1.issues|
    ensures bid2 == Some(bid1) ==> DifferingIssues(bid1, bid2) == {}
    ensures bid2.None? ==> DifferingIssues(bid1, bid2) == {}
  {
    var all := set x | x in IssueNumbers(bid1.issues);
    var differing := DifferingIssues(bid1, bid2);
    assert differing <= all;
    assert all == differing + (all - differing);
    DistinctElementsBound(IssueNumbers(bid1.issues));
  }

  /** A value object is counted as a difference only by identity: two bids
      that hold equal contents in distinct objects differ in every issue
      both of them have. */
  lemma EqualContentsStillDiffer(bid1: Bid, bid2: Bid)
    requires bid1.issues == bid2.issues && bid1.values.Keys == bid2.values.Keys
    requires forall n :: n in bid1.values ==>
      bid1.values[n].content == bid2.values[n].content && bid1.values[n].ref != bid2.values[n].ref
    ensures DifferingIssues(bid1, Some(bid2)) == set n | n in IssueNumbers(bid1.issues) && n in bid1.values
  {
  }

  // ---------------------------------------------------------------------------
  // Classifying one step and picking the most frequent strategy

  /** The branch taken for one step: equal distances are UNKNOWN, a smaller
      distance to the opponent's own previous bid is MODIFY_PREVIOUS and a
      larger one MODIFY_SELF. */
  function Classify(currentDistance: nat, previousDistance: nat): (s: Strategy)
    ensures s == Unknown <==> currentDistance == previousDistance
    ensures s == ModifyPrevious <==> currentDistance < previousDistance
    ensures s == ModifySelf <==> currentDistance > previousDistance
  {
    if currentDistance == previousDistance then Unknown
    else if currentDistance < previousDistance then ModifyPrevious
    else ModifySelf
  }

  /** A step i >= 1 throws when a bid it compares from is null: the previous
      bid of pair i, or the current bid of pair i - 1. */
  predicate NullAnchorAt(bids: seq<BidSequence>, i: int)
    requires 1 <= i < |bids|
  {
    bids[i].previous.None? || bids[i - 1].current.None?
  }

  predicate HasNullAnchor(bids: seq<BidSequence>)
  {
    exists i :: 1 <= i < |bids| && NullAnchorAt(bids, i)
  }

  /** The second loop of getMostLikelyStrategy: the first strategy (in map
      order) whose tally is strictly larger than every tally before it,
      starting from a maximum of 0 and UNKNOWN. */
  method MostFrequentStrategy(counts: map<Strategy, int>) returns (s: Strategy)
    ensures (forall k :: k in counts ==> counts[k] <= 0) ==> s == Unknown
    ensures (exists k :: k in counts && counts[k] > 0) ==>
      s in counts && counts[s] > 0 && forall k :: k in counts ==> counts[k] <= counts[s]
  {
    var maxCount := 0;
    s := Unknown;
    var remaining := counts.Keys;
    while remaining != {}
      invariant remaining <= counts.Keys
      invariant maxCount >= 0
      invariant forall k :: k in counts.Keys - remaining ==> counts[k] <= maxCount
      invariant maxCount == 0 ==> s == Unknown
      invariant maxCount > 0 ==> s in counts && counts[s] == maxCount
      decreases |remaining|
    {
      var e :| e in remaining;
      if counts[e] > maxCount {
        s := e;
        maxCount := counts[e];
      }
      remaining := remaining - {e};
    }
  }
}
