/** src/negotiator/group11/OpponentBidHistory.java: the same history of
    (previous, current) bid pairs, whose classifier reads every tally with
    `int currentCount = counts.get(k)`.  The map starts empty, so the first
    step that gets that far unboxes null and throws: with two or more pairs
    the classifier never returns. */
module BidHistory {
  import opened Numerics
  import opened Domain
  import opened BidSequences

  /** HashMap.get: the stored tally, or null. */
  function Lookup(counts: map<Strategy, int>, s: Strategy): (r: Option<int>)
    ensures r.Some? <==> s in counts
    ensures r.Some? ==> r.value == counts[s]
  {
    if s in counts then Some(counts[s]) else None
  }

  class OpponentBidHistory {
    var bids: seq<BidSequence>

    constructor()
      ensures bids == []
    {
      bids := [];
    }

    /** add: appends exactly one pair. */
    method Add(previousBid: Option<Bid>, newBid: Option<Bid>)
      modifies this
      ensures bids == old(bids) + [BidSequence(previousBid, newBid)]
    {
      bids := bids + [BidSequence(previousBid, newBid)];
    }

    /** getSize: the number of stored pairs. */
    method GetSize() returns (n: nat)
      ensures n == |bids|
    {
      n := |bids|;
    }

    /** getMostLikelyStrategy.  Fewer than two pairs give UNKNOWN.  Otherwise
        the first step either throws on a null bid inside getBidDifference or
        unboxes the missing tally: both are a NullPointerException. */
    method GetMostLikelyStrategy() returns (r: Result<Strategy>)
      ensures |bids| < 2 ==> r == Ok(Unknown)
      ensures |bids| >= 2 ==> r == Err(NullPointer)
    {
      var counts: map<Strategy, int> := map[];
      if |bids| < 2 {
        return Ok(Unknown);
      }
      for i := 1 to |bids|
        invariant i == 1 && counts == map[]
      {
        var bsCurrent := bids[i];
        var bsPrevious := bids[i - 1];
        var currentDistance := GetBidDifference(bsCurrent.previous, bsCurrent.current);
        if currentDistance.Err? {
          return Err(currentDistance.fault);
        }
        var previousDistance := GetBidDifference(bsPrevious.current, bsCurrent.current);
        if previousDistance.Err? {
          return Err(previousDistance.fault);
        }
        var strategy := Classify(currentDistance.value, previousDistance.value);
        var tally := Lookup(counts, strategy);
        // nothing has been stored yet, so the tally is null and unboxing it
        // into `int currentCount` throws before anything is stored
        assert tally.None?;
        return Err(NullPointer);
      }
      // the first step always leaves the method
      assert false;
    }
  }
}
