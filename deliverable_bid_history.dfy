/** Deliverable/2/negotiator/group11/OpponentBidHistory.java: the history of
    (previous, current) bid pairs of one opponent and the strategy
    classifier over it.  The tallies are stored with a post-increment
    (`put(k, currentCount++)` stores the old value), so every tally stays 0
    and the classifier can only ever answer UNKNOWN. */
module DeliverableBidHistory {
  import opened Numerics
  import opened Domain
  import opened BidSequences

  class OpponentBidHistory {
    var bids: seq<BidSequence>

    constructor()
      ensures bids == []
    {
      bids := [];
    }

    /** add: appends exactly one pair. */
    method Add(previousBid: Option<Bid>, newBid: Option<Bid>)
      modifies this
      ensures bids == old(bids) + [BidSequence(previousBid, newBid)]
    {
      bids := bids + [BidSequence(previousBid, newBid)];
    }

    /** getSize: the number of stored pairs. */
    method GetSize() returns (n: nat)
      ensures n == |bids|
    {
      n := |bids|;
    }

    /** getMostLikelyStrategy.  Fewer than two pairs give UNKNOWN at once.
        Otherwise every step i compares the distance of pair i's bid to the
        bid it answered with its distance to pair i - 1's bid; a null bid to
        compare from throws.  Whichever branch a step takes, it stores the
        tally it read, so all tallies stay 0 and the strict `> maxCount`
        test never fires: a run that does not throw answers UNKNOWN. */
    method GetMostLikelyStrategy() returns (r: Result<Strategy>)
      ensures |bids| < 2 ==> r == Ok(Unknown)
      ensures |bids| >= 2 && HasNullAnchor(bids) ==> r == Err(NullPointer)
      ensures |bids| >= 2 && !HasNullAnchor(bids) ==> r == Ok(Unknown)
    {
      var counts: map<Strategy, int> := map[];
      if |bids| < 2 {
        return Ok(Unknown);
      }
      var i := 1;
      while i < |bids|
        invariant 1 <= i <= |bids|
        invariant forall j :: 1 <= j < i ==> !NullAnchorAt(bids, j)
        invariant forall s :: s in counts ==> counts[s] == 0
      {
        var bsCurrent := bids[i];
        var bsPrevious := bids[i - 1];
        var currentDistance := GetBidDifference(bsCurrent.previous, bsCurrent.current);
        if currentDistance.Err? {
          assert NullAnchorAt(bids, i);
          return Err(currentDistance.fault);
        }
        var previousDistance := GetBidDifference(bsPrevious.current, bsCurrent.current);
        if previousDistance.Err? {
          assert NullAnchorAt(bids, i);
          return Err(previousDistance.fault);
        }
        var strategy := Classify(currentDistance.value, previousDistance.value);
        var currentCount := if strategy in counts then counts[strategy] else 0;
        // put(strategy, currentCount++) stores the value before the increment
        counts := counts[strategy := currentCount];
        currentCount := currentCount + 1;
        i := i + 1;
      }
      var maxStrategy := MostFrequentStrategy(counts);
      r := Ok(maxStrategy);
    }
  }
}
