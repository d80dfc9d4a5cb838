/** src/negotiator/group11/Group11.java: the negotiating party.  Each turn it
    accepts the last bid on the table when that bid is worth more to it than
    its reservation utility, and otherwise picks a tactic from the round
    number and the time: the bid with the best estimated Nash product, a
    concession from its previous offer, or its best bid.  It records every
    bid on the table in a ledger and keeps one Opponent record per sender.

    The outcome space (SortedOutcomeSpace) is the sequence of all bids with
    the party's own utility, best first; the party's utility function, the
    round deadline, the timeline's clock and the opponents' utility spaces
    are parameters. */
module Group11Agent {
  import opened Numerics
  import opened Domain
  import opened BidSequences
  import OpponentRecord

  /** A bid with the party's own utility of it (BidDetails). */
  datatype BidDetails = BidDetails(bid: Bid, utility: real)

  /** A bid with its estimated Nash product (BidDetailsWithNash). */
  datatype NashBid = NashBid(bid: Bid, nash: real)

  /** The actions the party sends and receives; any other action is only
      logged. */
  datatype Action = Accept | Offer(bid: Bid) | OtherAction

  /** One step of a tactic: its action or exception, the ledger after it
      and the last utility the party conceded to. */
  datatype Step = Step(result: Result<Action>, ledger: seq<BidDetails>, lastUtility: real)

  datatype Tactic = BestNash | Nostalgian | Asocial | HardToGet | EdgePusher | GiveIn | TheFinger

  const StartReservationUtility: real := 0.9

  // ---------------------------------------------------------------------------
  // Time, trust and the tactic

  /** getTime: the fraction of the round deadline that has passed, or the
      timeline's clock when there is no round deadline. */
  function Time(round: int, deadline: int, clock: real): (t: real)
    ensures deadline != 0 ==> t * deadline as real == round as real
    ensures deadline == 0 ==> t == clock
  {
    if deadline != 0 then round as real / deadline as real else clock
  }

  /** weTrustOurOpponentModel. */
  predicate WeTrustOurOpponentModel(round: int)
  {
    round > 10
  }

  /** thereWillNeverBeATrustedOpponentModel: round / t < 20 in double
      arithmetic, where a time of 0 makes the quotient +Infinity for a
      positive round, NaN for round 0 and -Infinity for a negative round. */
  predicate ThereWillNeverBeATrustedOpponentModel(round: int, t: real)
  {
    if t == 0.0 then round < 0 else round as real / t < 20.0
  }

  /** The branch of chooseAction that picks a tactic once the last bid is
      not accepted. */
  function SelectTactic(round: int, t: real): Tactic
  {
    if WeTrustOurOpponentModel(round) then BestNash
    else if ThereWillNeverBeATrustedOpponentModel(round, t) then (if t < 0.5 then HardToGet else GiveIn)
    else HardToGet
  }

  /** With a round deadline, t = round / deadline, so round / t is the
      deadline itself: the model is "never trusted" exactly when the deadline
      is under 20 rounds. */
  lemma NeverTrustedWithRoundDeadline(round: int, deadline: int, clock: real)
    requires round > 0 && deadline != 0
    ensures ThereWillNeverBeATrustedOpponentModel(round, Time(round, deadline, clock)) <==> deadline < 20
  {
    var t := Time(round, deadline, clock);
    assert t != 0.0;
    assert round as real / t == deadline as real by {
      assert t * deadline as real == round as real;
    }
  }

  /** With a round deadline the tactic is BESTNASH after round 10, GIVEIN
      when the deadline is under 20 rounds and at least half of it has
      passed, and HARDTOGET otherwise. */
  lemma TacticWithRoundDeadline(round: int, deadline: int, clock: real)
    requires round > 0 && deadline != 0
    ensures SelectTactic(round, Time(round, deadline, clock)) ==
      if round > 10 then BestNash
      else if deadline < 20 && Time(round, deadline, clock) >= 0.5 then GiveIn
      else HardToGet
  {
    NeverTrustedWithRoundDeadline(round, deadline, clock);
  }

  /** The concession factor of GIVEIN at time t; none (accept) from 0.95 on. */
  function GiveInFactor(t: real): (m: Option<real>)
    ensures m.None? <==> t >= 0.95
    ensures m.Some? ==> 0.7 <= m.value <= 0.99
  {
    if t < 0.5 then Some(0.99)
    else if t < 0.7 then Some(0.95)
    else if t < 0.8 then Some(0.9)
    else if t < 0.9 then Some(0.8)
    else if t < 0.95 then Some(0.7)
    else None
  }

  /** GIVEIN never concedes less as time goes on. */
  lemma GiveInConcedesMoreOverTime(t1: real, t2: real)
    requires t1 <= t2
    ensures GiveInFactor(t2).Some? ==> GiveInFactor(t1).Some? && GiveInFactor(t2).value <= GiveInFactor(t1).value
  {
  }

  /** The reservation utility after the update at time t. */
  function NextReservation(reservation: real, t: real): real
  {
    if t > 0.75 then StartReservationUtility - (t - 0.75) else reservation
  }

  /** The reservation utility never rises above its start value 0.9, and
      while t <= 1 it stays at least 0.65 once it has been lowered. */
  lemma ReservationBounds(reservation: real, t: real)
    requires reservation <= StartReservationUtility
    ensures NextReservation(reservation, t) <= StartReservationUtility
    ensures t > 0.75 && t <= 1.0 ==> 0.65 <= NextReservation(reservation, t) < StartReservationUtility
    ensures t <= 0.75 ==> NextReservation(reservation, t) == reservation
  {
  }

  // ---------------------------------------------------------------------------
  // The outcome space

  predicate SortedDescending(outcomes: seq<BidDetails>)
  {
    forall i, j :: 0 <= i < j < |outcomes| ==> outcomes[i].utility >= outcomes[j].utility
  }

  /** getMaxBidPossible: the first bid of the sorted outcome space. */
  function MaxBid(outcomes: seq<BidDetails>): (r: BidDetails)
    requires |outcomes| > 0 && SortedDescending(outcomes)
    ensures r in outcomes
    ensures forall o :: o in outcomes ==> o.utility <= r.utility
  {
    outcomes[0]
  }

  function Distance(u: real, target: real): real
  {
    if u >= target then u - target else target - u
  }

  /** getBidNearUtility: a bid whose utility is closest to the target (the
      first such bid). */
  function NearUtility(outcomes: seq<BidDetails>, target: real): (r: BidDetails)
    requires |outcomes| > 0
    ensures r in outcomes
    ensures forall o :: o in outcomes ==> Distance(r.utility, target) <= Distance(o.utility, target)
  {
    if |outcomes| == 1 then outcomes[0]
    else
      var rest := NearUtility(outcomes[1..], target);
      assert forall o :: o in outcomes ==> o == outcomes[0] || o in outcomes[1..];
      if Distance(outcomes[0].utility, target) <= Distance(rest.utility, target) then outcomes[0] else rest
  }

  /** getBestBidDetails of the ledger: a bid of highest utility (the first
      one), or null for an empty ledger. */
  function BestOf(ledger: seq<BidDetails>): (r: Option<BidDetails>)
    ensures r.None? <==> |ledger| == 0
    ensures r.Some? ==> r.value in ledger && forall o :: o in ledger ==> o.utility <= r.value.utility
  {
    if |ledger| == 0 then None
    else
      var rest := BestOf(ledger[1..]);
      assert forall o :: o in ledger ==> o == ledger[0] || o in ledger[1..];
      if rest.None? || ledger[0].utility >= rest.value.utility then Some(ledger[0]) else rest
  }

  /** getLastBid: the last bid of the ledger, or null. */
  function LastBid(ledger: seq<BidDetails>): (r: Option<Bid>)
    ensures r.None? <==> |ledger| == 0
    ensures r.Some? ==> r.value == ledger[|ledger| - 1].bid
  {
    if |ledger| == 0 then None else Some(ledger[|ledger| - 1].bid)
  }

  // ---------------------------------------------------------------------------
  // The Nash product

  /** getNashUtilityProduct: the party's utility times every opponent
      utility that could be computed; a space that throws is skipped. */
  function NashProduct(own: real, b: Bid, spaces: seq<Bid -> Option<real>>): real
  {
    if |spaces| == 0 then own
    else
      var res := NashProduct(own, b, spaces[..|spaces| - 1]);
      match spaces[|spaces| - 1](b)
      case None => res
      case Some(u) => res * u
  }

  /** The opponent utilities of b that could be computed, in order. */
  function Successes(b: Bid, spaces: seq<Bid -> Option<real>>): seq<real>
  {
    if |spaces| == 0 then []
    else
      var rest := Successes(b, spaces[..|spaces| - 1]);
      match spaces[|spaces| - 1](b)
      case None => rest
      case Some(u) => rest + [u]
  }

  /** start times each element of s, from left to right. */
  function ProductFrom(start: real, s: seq<real>): real
  {
    if |s| == 0 then start else ProductFrom(start, s[..|s| - 1]) * s[|s| - 1]
  }

  /** A failing opponent space does not zero the product: the product is the
      party's utility multiplied by exactly the utilities that could be
      computed, in order, and equals the party's own utility when none
      could. */
  lemma {:induction false} NashProductSkipsFailures(own: real, b: Bid, spaces: seq<Bid -> Option<real>>)
    ensures NashProduct(own, b, spaces) == ProductFrom(own, Successes(b, spaces))
    ensures Successes(b, spaces) == [] ==> NashProduct(own, b, spaces) == own
  {
    if |spaces| > 0 {
      var prefix := spaces[..|spaces| - 1];
      NashProductSkipsFailures(own, b, prefix);
      var s := Successes(b, prefix);
      match spaces[|spaces| - 1](b)
      case None =>
      case Some(u) =>
        assert (s + [u])[..|s + [u]| - 1] == s;
    }
  }

  /** Successes keeps exactly the answers of the spaces that answered. */
  lemma {:induction false} SuccessesAreAnswers(b: Bid, spaces: seq<Bid -> Option<real>>)
    ensures |Successes(b, spaces)| <= |spaces|
    ensures forall k :: 0 <= k < |spaces| && spaces[k](b).Some? ==> spaces[k](b).value in Successes(b, spaces)
    ensures forall x :: x in Successes(b, spaces) ==> exists k :: 0 <= k < |spaces| && spaces[k](b) == Some(x)
    ensures (forall k :: 0 <= k < |spaces| ==> spaces[k](b).None?) ==> Successes(b, spaces) == []
  {
    if |spaces| > 0 {
      var prefix := spaces[..|spaces| - 1];
      SuccessesAreAnswers(b, prefix);
      assert forall k :: 0 <= k < |prefix| ==> prefix[k] == spaces[k];
    }
  }

  /** When the party's utility and every computed opponent utility lie in
      [0, 1], so does the product. */
  lemma {:induction false} NashProductInUnitRange(own: real, b: Bid, spaces: seq<Bid -> Option<real>>)
    requires 0.0 <= own <= 1.0
    requires forall k :: 0 <= k < |spaces| && spaces[k](b).Some? ==> 0.0 <= spaces[k](b).value <= 1.0
    ensures 0.0 <= NashProduct(own, b, spaces) <= 1.0
  {
    if |spaces| > 0 {
      var prefix := spaces[..|spaces| - 1];
      assert forall k :: 0 <= k < |prefix| ==> prefix[k] == spaces[k];
      NashProductInUnitRange(own, b, prefix);
      var res := NashProduct(own, b, prefix);
      match spaces[|spaces| - 1](b)
      case None =>
      case Some(u) =>
        assert 0.0 <= u <= 1.0;
        assert NashProduct(own, b, spaces) == res * u;
        ScaleWithinUnit(res, u);
    }
  }

  lemma ScaleWithinUnit(x: real, y: real)
    requires 0.0 <= x <= 1.0 && 0.0 <= y <= 1.0
    ensures 0.0 <= x * y <= x
  {
    var d := 1.0 - y;
    assert 0.0 <= x * d;
    assert x * y == x - x * d;
  }

  /** Every outcome with its Nash product, in the outcome space's order. */
  function Scored(outcomes: seq<BidDetails>, own: Bid -> real, spaces: seq<Bid -> Option<real>>): (r: seq<NashBid>)
    ensures |r| == |outcomes|
    ensures forall k :: 0 <= k < |outcomes| ==>
      r[k] == NashBid(outcomes[k].bid, NashProduct(own(outcomes[k].bid), outcomes[k].bid, spaces))
  {
    seq(|outcomes|, k requires 0 <= k < |outcomes| =>
      NashBid(outcomes[k].bid, NashProduct(own(outcomes[k].bid), outcomes[k].bid, spaces)))
  }

  // ---------------------------------------------------------------------------
  // The comparator and the sort

  /** The comparator: (int) (left - right), truncated toward zero. */
  function Compare(left: NashBid, right: NashBid): (c: int)
    ensures c == 0 <==> -1.0 < left.nash - right.nash < 1.0
    ensures c > 0 <==> left.nash - right.nash >= 1.0
    ensures c < 0 <==> left.nash - right.nash <= -1.0
  {
    TruncateToInt(left.nash - right.nash)
  }

  /** Every two elements compare as equal. */
  predicate AllTied(s: seq<NashBid>)
  {
    forall i, j :: 0 <= i < |s| && 0 <= j < |s| ==> Compare(s[i], s[j]) == 0
  }

  /** Each element compares as at most its right neighbour. */
  predicate AdjacentOrdered(s: seq<NashBid>)
  {
    forall k :: 0 <= k < |s| - 1 ==> Compare(s[k], s[k + 1]) <= 0
  }

  /** Products that all lie in [0, 1) differ by less than 1, so the
      comparator calls every pair equal. */
  lemma ProductsBelowOneAllTied(s: seq<NashBid>)
    requires forall k :: 0 <= k < |s| ==> 0.0 <= s[k].nash < 1.0
    ensures AllTied(s)
  {
  }

  /** A stable sort under a comparator that ties everything keeps the order:
      the last bid of the sorted list is the last outcome. */
  lemma AllTiedKeepsLast(outcomes: seq<BidDetails>, own: Bid -> real, spaces: seq<Bid -> Option<real>>)
    requires |outcomes| > 0
    requires forall k :: 0 <= k < |outcomes| ==> 0.0 <= own(outcomes[k].bid) <= 1.0
    requires forall k, m :: 0 <= k < |outcomes| && 0 <= m < |spaces| && spaces[m](outcomes[k].bid).Some? ==>
      0.0 <= spaces[m](outcomes[k].bid).value <= 1.0
    requires forall k :: 0 <= k < |outcomes| ==> Scored(outcomes, own, spaces)[k].nash < 1.0
    ensures AllTied(Scored(outcomes, own, spaces))
    ensures Scored(outcomes, own, spaces)[|outcomes| - 1].bid == outcomes[|outcomes| - 1].bid
  {
    var s := Scored(outcomes, own, spaces);
    forall k | 0 <= k < |outcomes|
      ensures 0.0 <= s[k].nash < 1.0
    {
      var b := outcomes[k].bid;
      NashProductInUnitRange(own(b), b, spaces);
    }
    ProductsBelowOneAllTied(s);
  }

  method SwapNash(a: array<NashBid>, i: nat, j: nat)
    requires i < a.Length && j < a.Length
    modifies a
    ensures a[..] == old(a[..])[i := old(a[j])][j := old(a[i])]
    ensures multiset(a[..]) == multiset(old(a[..]))
  {
    a[i], a[j] := a[j], a[i];
  }

  /** The state of InsertNash while a[i] travels left and sits at j: every
      neighbour pair of s[..i + 1] but the one ending at j is in order, and
      so is the pair bridging j. */
  predicate Inserting(s: seq<NashBid>, i: nat, j: nat)
  {
    && j <= i < |s|
    && (forall k :: 0 <= k < i && k != j - 1 ==> s[k].nash - s[k + 1].nash < 1.0)
    && (0 < j < i ==> s[j - 1].nash - s[j + 1].nash < 1.0)
  }

  lemma InsertingStarts(s: seq<NashBid>, i: nat)
    requires i < |s| && AdjacentOrdered(s[..i])
    ensures Inserting(s, i, i)
  {
    var prefix := s[..i];
    assert forall k :: 0 <= k < i ==> prefix[k] == s[k];
  }

  lemma InsertingSwaps(s: seq<NashBid>, i: nat, j: nat)
    requires Inserting(s, i, j) && 0 < j && s[j - 1].nash - s[j].nash >= 1.0
    ensures Inserting(s[j - 1 := s[j]][j := s[j - 1]], i, j - 1)
  {
  }

  lemma InsertingEnds(s: seq<NashBid>, i: nat, j: nat)
    requires Inserting(s, i, j) && (j == 0 || s[j - 1].nash - s[j].nash < 1.0)
    ensures AdjacentOrdered(s[..i + 1])
  {
    var prefix := s[..i + 1];
    assert forall k :: 0 <= k <= i ==> prefix[k] == s[k];
  }

  /** Moves a[i] left past every element that compares greater than it. */
  method InsertNash(a: array<NashBid>, i: nat)
    requires i < a.Length
    requires AdjacentOrdered(a[..i])
    modifies a
    ensures AdjacentOrdered(a[..i + 1])
    ensures a[i + 1..] == old(a[i + 1..])
    ensures multiset(a[..]) == multiset(old(a[..]))
    ensures AllTied(old(a[..])) ==> a[..] == old(a[..])
  {
    ghost var tied := AllTied(a[..]);
    InsertingStarts(a[..], i);
    var j: nat := i;
    while j > 0 && Compare(a[j - 1], a[j]) > 0
      invariant Inserting(a[..], i, j)
      invariant a[i + 1..] == old(a[i + 1..])
      invariant multiset(a[..]) == multiset(old(a[..]))
      invariant tied ==> a[..] == old(a[..]) && j == i
    {
      InsertingSwaps(a[..], i, j);
      SwapNash(a, j - 1, j);
      j := j - 1;
    }
    InsertingEnds(a[..], i, j);
  }

  /** Collections.sort with the comparator, as a stable insertion sort: the
      result is a permutation whose neighbours are in comparator order, and
      when the comparator ties every pair nothing moves. */
  method SortOnNash(a: array<NashBid>)
    modifies a
    ensures multiset(a[..]) == multiset(old(a[..]))
    ensures AdjacentOrdered(a[..])
    ensures AllTied(old(a[..])) ==> a[..] == old(a[..])
  {
    var i := 0;
    while i < a.Length
      invariant 0 <= i <= a.Length
      invariant AdjacentOrdered(a[..i])
      invariant multiset(a[..]) == multiset(old(a[..]))
      invariant AllTied(old(a[..])) ==> a[..] == old(a[..])
    {
      InsertNash(a, i);
      i := i + 1;
    }
    assert a[..i] == a[..];
  }

  // ---------------------------------------------------------------------------
  // The party

  class Group11 {
    /** The round deadline (0 when the deadline is not in rounds). */
    const deadline: int
    /** getUtility: the party's own utility of a bid. */
    const ownUtility: Bid -> real
    /** possibleBids.getAllOutcomes(): every bid, best first. */
    const outcomes: seq<BidDetails>

    /** The outcome space ordered by estimated Nash product; empty until the
        first sort (a null list in the source). */
    var nashBids: seq<NashBid>
    var opponents: map<nat, OpponentRecord.Opponent>
    /** The ledger of every bid that was on the table (BidHistory allBids). */
    var allBids: seq<BidDetails>
    var round: int
    var lastUtility: real
    var reservationUtility: real

    ghost predicate Valid()
      reads this
    {
      && |outcomes| > 0 && SortedDescending(outcomes)
      && (forall k :: 0 <= k < |outcomes| ==> outcomes[k].utility == ownUtility(outcomes[k].bid))
      && reservationUtility <= StartReservationUtility
      && (forall s :: s in opponents ==> opponents[s].Valid() && this !in opponents[s].Repr)
      && (forall s, s' :: s in opponents && s' in opponents && s != s' ==> opponents[s].Repr !! opponents[s'].Repr)
    }

    /** The opponent objects receiveMessage may change for this sender. */
    ghost function OpponentFootprint(sender: nat): set<object>
      reads this
    {
      if sender in opponents then opponents[sender].Repr else {}
    }

    constructor(roundDeadline: int, utility: Bid -> real, allOutcomes: seq<BidDetails>)
      requires |allOutcomes| > 0 && SortedDescending(allOutcomes)
      requires forall k :: 0 <= k < |allOutcomes| ==> allOutcomes[k].utility == utility(allOutcomes[k].bid)
      ensures Valid()
      ensures deadline == roundDeadline && ownUtility == utility && outcomes == allOutcomes
      ensures round == 0 && lastUtility == 1.0 && reservationUtility == StartReservationUtility
      ensures allBids == [] && opponents == map[] && nashBids == []
    {
      deadline := roundDeadline;
      ownUtility := utility;
      outcomes := allOutcomes;
      round := 0;
      lastUtility := 1.0;
      reservationUtility := StartReservationUtility;
      allBids := [];
      opponents := map[];
      nashBids := [];
    }

    /** The ledger entry for a bid: the bid with the party's utility of it. */
    function Details(b: Bid): BidDetails
    {
      BidDetails(b, ownUtility(b))
    }

    /** The fields a bid or a tactic leaves alone. */
    twostate predicate KeepsSettings()
      reads this
    {
      && round == old(round) && reservationUtility == old(reservationUtility)
      && nashBids == old(nashBids) && opponents == old(opponents)
    }

    /** What getActionForTactic does, given the ledger, the last utility
        the party conceded to and the Nash list: the action (or the exception
        it throws), the new ledger and the new last utility.  The tactics
        without an implementation fall back to ASOCIAL. */
    function TacticStep(tactic: Tactic, t: real, ledger: seq<BidDetails>, last: real, nash: seq<NashBid>): Step
      requires |outcomes| > 0
      decreases if tactic == Asocial then 0 else 1
    {
      match tactic
      case BestNash =>
        if |nash| == 0 then Step(Err(NullPointer), ledger, last)
        else
          var b := nash[|nash| - 1].bid;
          Step(Ok(Offer(b)), ledger + [Details(b)], last)
      case Nostalgian =>
        var best := BestOf(ledger);
        if best.None? then Step(Err(NullPointer), ledger, last)
        else Step(Ok(Offer(best.value.bid)), ledger + [Details(best.value.bid)], last)
      case Asocial =>
        Step(Ok(Offer(outcomes[0].bid)), ledger + [Details(outcomes[0].bid)], last)
      case GiveIn =>
        (match GiveInFactor(t)
         case None => Step(Ok(Accept), ledger, last)
         case Some(m) => Concede(m, ledger, last))
      case _ =>
        TacticStep(Asocial, t, ledger, last, nash)
    }

    /** getOfferFromPreviousUtil as a step: offers a bid nearest to the
        factor times the last utility, which becomes the new last utility. */
    function Concede(m: real, ledger: seq<BidDetails>, last: real): Step
      requires |outcomes| > 0
    {
      var bd := NearUtility(outcomes, m * last);
      Step(Ok(Offer(bd.bid)), ledger + [Details(bd.bid)], bd.utility)
    }

    /** Whatever the tactic, an offer is recorded in the ledger and is the
        only thing added to it; an accept or an exception leaves the ledger
        alone; only GIVEIN moves the last utility, and only to the utility
        of the bid it offers. */
    lemma TacticStepRecordsOffers(tactic: Tactic, t: real, ledger: seq<BidDetails>, last: real, nash: seq<NashBid>)
      requires Valid()
      ensures var s := TacticStep(tactic, t, ledger, last, nash);
        && (s.result.Ok? && s.result.value.Offer? ==> s.ledger == ledger + [Details(s.result.value.bid)])
        && (!(s.result.Ok? && s.result.value.Offer?) ==> s.ledger == ledger)
        && (s.lastUtility != last ==> tactic == GiveIn && s.result.Ok? && s.result.value.Offer?
                                      && s.lastUtility == ownUtility(s.result.value.bid))
    {
      var s := TacticStep(tactic, t, ledger, last, nash);
      if tactic == GiveIn && GiveInFactor(t).Some? {
        var bd := NearUtility(outcomes, GiveInFactor(t).value * last);
        var k :| 0 <= k < |outcomes| && outcomes[k] == bd;
      }
    }

    /** HARDTOGET, ASOCIAL and the unimplemented tactics offer a bid of the
        highest own utility; GIVEIN offers a bid whose utility is nearest to
        its factor times the last utility and accepts from t = 0.95 on; an
        exception comes only from BESTNASH before any Nash list or from
        NOSTALGIAN on an empty ledger. */
    lemma TacticStepOffers(tactic: Tactic, t: real, ledger: seq<BidDetails>, last: real, nash: seq<NashBid>)
      requires Valid()
      ensures var s := TacticStep(tactic, t, ledger, last, nash);
        && (tactic in {Asocial, HardToGet, EdgePusher, TheFinger} ==>
              s.result.Ok? && s.result.value.Offer?
              && forall o :: o in outcomes ==> o.utility <= ownUtility(s.result.value.bid))
        && (tactic == GiveIn ==>
              (s.result == Ok(Accept) <==> t >= 0.95)
              && (t < 0.95 ==>
                    && s.result.Ok? && s.result.value.Offer?
                    && Details(s.result.value.bid) in outcomes
                    && forall o :: o in outcomes ==>
                         Distance(s.lastUtility, GiveInFactor(t).value * last) <= Distance(o.utility, GiveInFactor(t).value * last)))
        && (s.result.Err? <==> (tactic == BestNash && |nash| == 0) || (tactic == Nostalgian && |ledger| == 0))
    {
      var s := TacticStep(tactic, t, ledger, last, nash);
      if tactic == GiveIn && t < 0.95 {
        var bd := NearUtility(outcomes, GiveInFactor(t).value * last);
        var k :| 0 <= k < |outcomes| && outcomes[k] == bd;
        assert Details(bd.bid) == bd;
      }
      if tactic in {Asocial, HardToGet, EdgePusher, TheFinger} {
        assert outcomes[0] == MaxBid(outcomes);
      }
    }

    /** bid: records the bid in the ledger and offers it. */
    method PlaceBid(b: Bid) returns (a: Action)
      requires Valid()
      modifies this
      ensures Valid() && KeepsSettings()
      ensures a == Offer(b)
      ensures allBids == old(allBids) + [Details(b)]
      ensures lastUtility == old(lastUtility)
    {
      allBids := allBids + [Details(b)];
      a := Offer(b);
    }

    /** getOfferFromPreviousUtil: offers the bid nearest to factor *
        lastUtility and remembers its utility. */
    method GetOfferFromPreviousUtil(prevUtil: real) returns (a: Action)
      requires Valid()
      modifies this
      ensures Valid() && KeepsSettings()
      ensures Step(Ok(a), allBids, lastUtility) == Concede(prevUtil, old(allBids), old(lastUtility))
    {
      var bd := NearUtility(outcomes, prevUtil * lastUtility);
      lastUtility := bd.utility;
      a := PlaceBid(bd.bid);
    }

    /** getActionForTactic, as TacticStep describes it. */
    method GetActionForTactic(tactic: Tactic, t: real) returns (r: Result<Action>)
      requires Valid()
      modifies this
      decreases if tactic == Asocial then 0 else 1
      ensures Valid() && KeepsSettings()
      ensures Step(r, allBids, lastUtility) == TacticStep(tactic, t, old(allBids), old(lastUtility), nashBids)
    {
      match tactic {
        case BestNash =>
          if |nashBids| == 0 {
            // nashBids is still null
            return Err(NullPointer);
          }
          r := OfferLastNashBid();
        case Nostalgian =>
          r := OfferBestOfLedger();
        case Asocial =>
          var a := PlaceBid(outcomes[0].bid);
          return Ok(a);
        case GiveIn =>
          r := GiveInAction(t);
        case _ =>
          r := GetActionForTactic(Asocial, t);
      }
    }

    /** BESTNASH on a Nash list: offers its last bid. */
    method OfferLastNashBid() returns (r: Result<Action>)
      requires Valid() && |nashBids| > 0
      modifies this
      ensures Valid() && KeepsSettings()
      ensures Step(r, allBids, lastUtility) == TacticStep(BestNash, 0.0, old(allBids), old(lastUtility), nashBids)
    {
      var a := PlaceBid(nashBids[|nashBids| - 1].bid);
      r := Ok(a);
    }

    /** NOSTALGIAN: offers the best bid of the ledger. */
    method OfferBestOfLedger() returns (r: Result<Action>)
      requires Valid()
      modifies this
      ensures Valid() && KeepsSettings()
      ensures Step(r, allBids, lastUtility) == TacticStep(Nostalgian, 0.0, old(allBids), old(lastUtility), nashBids)
    {
      var best := BestOf(allBids);
      if best.None? {
        // getBestBidDetails() is null
        return Err(NullPointer);
      }
      var a := PlaceBid(best.value.bid);
      r := Ok(a);
    }

    /** GIVEIN: concedes from the last utility, and accepts from t = 0.95. */
    method GiveInAction(t: real) returns (r: Result<Action>)
      requires Valid()
      modifies this
      ensures Valid() && KeepsSettings()
      ensures Step(r, allBids, lastUtility) == TacticStep(GiveIn, t, old(allBids), old(lastUtility), nashBids)
    {
      var factor := GiveInFactor(t);
      if factor.None? {
        return Ok(Accept);
      }
      var a := GetOfferFromPreviousUtil(factor.value);
      r := Ok(a);
    }

    /** getNashUtilityProduct: own utility times each opponent utility that
        could be computed. */
    method GetNashUtilityProduct(b: Bid, spaces: seq<Bid -> Option<real>>) returns (res: real)
      ensures res == NashProduct(ownUtility(b), b, spaces)
    {
      res := ownUtility(b);
      var k := 0;
      while k < |spaces|
        invariant 0 <= k <= |spaces|
        invariant res == NashProduct(ownUtility(b), b, spaces[..k])
      {
        assert spaces[..k + 1][..k] == spaces[..k];
        var u := spaces[k](b);
        if u.Some? {
          res := res * u.value;
        }
        k := k + 1;
      }
      assert spaces[..k] == spaces;
    }

    /** The first loop of sortOutcomeSpaceOnNashProduct: every outcome with
        its Nash product, in a new list. */
    method ScoreOutcomes(spaces: seq<Bid -> Option<real>>) returns (nashes: array<NashBid>)
      ensures fresh(nashes)
      ensures nashes[..] == Scored(outcomes, ownUtility, spaces)
    {
      nashes := new NashBid[|outcomes|];
      var k := 0;
      while k < |outcomes|
        invariant 0 <= k <= |outcomes|
        invariant nashes[..k] == Scored(outcomes, ownUtility, spaces)[..k]
      {
        var bd := outcomes[k];
        var product := GetNashUtilityProduct(bd.bid, spaces);
        nashes[k] := NashBid(bd.bid, product);
        k := k + 1;
      }
      assert nashes[..k] == nashes[..];
    }

    /** sortOutcomeSpaceOnNashProduct: scores every outcome and sorts the
        scored list with the truncating comparator. */
    method SortOutcomeSpaceOnNashProduct(spaces: seq<Bid -> Option<real>>)
      requires Valid()
      modifies this
      ensures Valid()
      ensures multiset(nashBids) == multiset(Scored(outcomes, ownUtility, spaces))
      ensures |nashBids| == |outcomes|
      ensures AdjacentOrdered(nashBids)
      ensures AllTied(Scored(outcomes, ownUtility, spaces)) ==> nashBids == Scored(outcomes, ownUtility, spaces)
      ensures allBids == old(allBids) && round == old(round) && lastUtility == old(lastUtility)
      ensures reservationUtility == old(reservationUtility) && opponents == old(opponents)
    {
      var nashes := ScoreOutcomes(spaces);
      SortOnNash(nashes);
      assert |multiset(nashes[..])| == |outcomes|;
      nashBids := nashes[..];
    }

    /** The part of chooseAction after the last bid was not accepted: BESTNASH
        on a freshly sorted Nash list once the opponent model is trusted,
        otherwise HARDTOGET, or GIVEIN from t = 0.5 on when the model will
        never be trusted. */
    method FollowTactic(t: real, spaces: seq<Bid -> Option<real>>) returns (r: Result<Action>)
      requires Valid()
      modifies this
      ensures Valid()
      ensures round == old(round) && reservationUtility == old(reservationUtility) && opponents == old(opponents)
      ensures Step(r, allBids, lastUtility) ==
        TacticStep(SelectTactic(round, t), t, old(allBids), old(lastUtility), nashBids)
      ensures SelectTactic(round, t) == BestNash ==>
        && multiset(nashBids) == multiset(Scored(outcomes, ownUtility, spaces))
        && |nashBids| == |outcomes|
        && AdjacentOrdered(nashBids)
        && (AllTied(Scored(outcomes, ownUtility, spaces)) ==> nashBids == Scored(outcomes, ownUtility, spaces))
      ensures SelectTactic(round, t) != BestNash ==> nashBids == old(nashBids)
    {
      if WeTrustOurOpponentModel(round) {
        SortOutcomeSpaceOnNashProduct(spaces);
        r := GetActionForTactic(BestNash, t);
      } else if ThereWillNeverBeATrustedOpponentModel(round, t) {
        if t < 0.5 {
          r := GetActionForTactic(HardToGet, t);
        } else {
          r := GetActionForTactic(GiveIn, t);
        }
      } else {
        r := GetActionForTactic(HardToGet, t);
      }
    }

    /** chooseAction.  The round counter goes up first.  Without Accept among
        the valid actions the party offers its best bid.  Otherwise, after
        the reservation update, it accepts when the last bid on the table is
        worth strictly more than the reservation utility, and else follows
        the tactic chosen from the round and the time. */
    method ChooseAction(acceptValid: bool, clock: real, spaces: seq<Bid -> Option<real>>) returns (r: Result<Action>)
      requires Valid()
      modifies this
      ensures Valid()
      ensures round == old(round) + 1
      ensures opponents == old(opponents)
      ensures !acceptValid ==>
        && r == Ok(Offer(MaxBid(outcomes).bid))
        && allBids == old(allBids) + [MaxBid(outcomes)]
        && reservationUtility == old(reservationUtility) && lastUtility == old(lastUtility)
        && nashBids == old(nashBids)
      ensures acceptValid ==>
        reservationUtility == NextReservation(old(reservationUtility), Time(round, deadline, clock))
      ensures acceptValid && |old(allBids)| == 0 ==>
        r == Err(NullPointer) && allBids == old(allBids) && lastUtility == old(lastUtility) && nashBids == old(nashBids)
      ensures acceptValid && |old(allBids)| > 0 && old(allBids)[|old(allBids)| - 1].utility > reservationUtility ==>
        r == Ok(Accept) && allBids == old(allBids) && lastUtility == old(lastUtility) && nashBids == old(nashBids)
      ensures acceptValid && |old(allBids)| > 0 && old(allBids)[|old(allBids)| - 1].utility <= reservationUtility ==>
        && Step(r, allBids, lastUtility) ==
             TacticStep(SelectTactic(round, Time(round, deadline, clock)), Time(round, deadline, clock),
                        old(allBids), old(lastUtility), nashBids)
        && (SelectTactic(round, Time(round, deadline, clock)) == BestNash ==>
              && multiset(nashBids) == multiset(Scored(outcomes, ownUtility, spaces))
              && |nashBids| == |outcomes|
              && AdjacentOrdered(nashBids)
              && (AllTied(Scored(outcomes, ownUtility, spaces)) ==> nashBids == Scored(outcomes, ownUtility, spaces)))
        && (SelectTactic(round, Time(round, deadline, clock)) != BestNash ==> nashBids == old(nashBids))
    {
      round := round + 1;
      if !acceptValid {
        var a := PlaceBid(outcomes[0].bid);
        assert Details(outcomes[0].bid) == MaxBid(outcomes);
        return Ok(a);
      }
      var t := Time(round, deadline, clock);
      ReservationBounds(reservationUtility, t);
      if t > 0.75 {
        reservationUtility := StartReservationUtility - (t - 0.75);
      }
      if |allBids| == 0 {
        // getLastBidDetails() is null
        return Err(NullPointer);
      }
      var lastBid := allBids[|allBids| - 1];
      if lastBid.utility > reservationUtility {
        return Ok(Accept);
      }
      r := FollowTactic(t, spaces);
    }

    /** The start of receiveMessage: the sender's Opponent record, created
        with empty histories the first time the sender is heard from. */
    method LookUpOpponent(sender: nat) returns (opponent: OpponentRecord.Opponent)
      requires Valid()
      modifies this
      ensures Valid()
      ensures sender in opponents && opponent == opponents[sender]
      ensures sender in old(opponents) ==> opponents == old(opponents)
      ensures sender !in old(opponents) ==>
        && opponents == old(opponents)[sender := opponent] && fresh(opponent.Repr)
        && opponent.allBids.bids == [] && opponent.acceptedBids.bids == []
        && opponent.issueValueCounter == map[]
      ensures allBids == old(allBids) && KeepsLedgerState()
    {
      if sender in opponents {
        opponent := opponents[sender];
      } else {
        opponent := new OpponentRecord.Opponent();
        opponents := opponents[sender := opponent];
      }
    }

    /** The fields receiveMessage leaves alone. */
    twostate predicate KeepsLedgerState()
      reads this
    {
      && round == old(round) && lastUtility == old(lastUtility)
      && reservationUtility == old(reservationUtility) && nashBids == old(nashBids)
    }

    /** receiveMessage: looks the sender up, creating its Opponent record the
        first time; an Offer is added to the ledger and to the sender's
        offers, paired with the bid that was on the table before it; an
        Accept is recorded as accepting the bid on the table, and throws when
        there is none; anything else is only logged. */
    method ReceiveMessage(sender: nat, action: Action) returns (outcome: Outcome)
      requires Valid()
      modifies this, OpponentFootprint(sender)
      ensures Valid()
      ensures sender in opponents
      ensures sender in old(opponents) ==> opponents == old(opponents)
      ensures sender !in old(opponents) ==>
        opponents == old(opponents)[sender := opponents[sender]] && fresh(opponents[sender].Repr)
      ensures KeepsLedgerState()
      ensures forall s :: s in old(opponents) && s != sender ==>
        && opponents[s].allBids.bids == old(opponents[s].allBids.bids)
        && opponents[s].acceptedBids.bids == old(opponents[s].acceptedBids.bids)
        && opponents[s].issueValueCounter == old(opponents[s].issueValueCounter)
      ensures (sender !in old(opponents) || old(opponents[sender].issueValueCounter) == map[]) ==>
        opponents[sender].issueValueCounter == map[]
      ensures action.Offer? ==>
        opponents[sender].issueValueCounter ==
          OpponentRecord.CounterAfter(if sender in old(opponents) then old(opponents[sender].issueValueCounter) else map[],
                                      action.bid, action.bid.issues)
      ensures action.Accept? && |old(allBids)| > 0 ==>
        var b := old(allBids)[|old(allBids)| - 1].bid;
        opponents[sender].issueValueCounter ==
          OpponentRecord.CounterAfter(
            OpponentRecord.CounterAfter(if sender in old(opponents) then old(opponents[sender].issueValueCounter) else map[],
                                        b, b.issues),
            b, b.issues)
      ensures action.Accept? && |old(allBids)| == 0 ==>
        opponents[sender].issueValueCounter ==
          (if sender in old(opponents) then old(opponents[sender].issueValueCounter) else map[])
      ensures action.OtherAction? ==>
        opponents[sender].issueValueCounter ==
          (if sender in old(opponents) then old(opponents[sender].issueValueCounter) else map[])
      ensures action.Offer? ==> (
        && outcome == Done
        && allBids == old(allBids) + [Details(action.bid)]
        && opponents[sender].allBids.bids ==
             (if sender in old(opponents) then old(opponents[sender].allBids.bids) else [])
             + [BidSequence(LastBid(old(allBids)), Some(action.bid))]
        && opponents[sender].acceptedBids.bids ==
             (if sender in old(opponents) then old(opponents[sender].acceptedBids.bids) else []))
      ensures action.Accept? ==> (
        && allBids == old(allBids)
        && (outcome == Thrown(NullPointer) <==> |old(allBids)| == 0)
        && (outcome == Done <==> |old(allBids)| > 0)
        && opponents[sender].acceptedBids.bids ==
             (if sender in old(opponents) then old(opponents[sender].acceptedBids.bids) else [])
             + [BidSequence(LastBid(old(allBids)), LastBid(old(allBids)))]
        && opponents[sender].allBids.bids ==
             (if sender in old(opponents) then old(opponents[sender].allBids.bids) else []))
      ensures action.OtherAction? ==> outcome == Done && allBids == old(allBids)
    {
      var opponent := LookUpOpponent(sender);
      ghost var offers, accepts, counter := opponent.allBids.bids, opponent.acceptedBids.bids, opponent.issueValueCounter;
      assert offers == (if sender in old(opponents) then old(opponents[sender].allBids.bids) else []);
      assert accepts == (if sender in old(opponents) then old(opponents[sender].acceptedBids.bids) else []);
      assert counter == (if sender in old(opponents) then old(opponents[sender].issueValueCounter) else map[]);
      // looking up the sender touches no existing record
      assert forall s :: s in old(opponents) && s != sender ==>
        && s in opponents && opponents[s] == old(opponents[s])
        && opponents[s].allBids.bids == old(opponents[s].allBids.bids)
        && opponents[s].acceptedBids.bids == old(opponents[s].acceptedBids.bids)
        && opponents[s].issueValueCounter == old(opponents[s].issueValueCounter);
      outcome := Dispatch(sender, opponent, action);
    }

    /** The switch of receiveMessage, once the sender's record is known. */
    method Dispatch(sender: nat, opponent: OpponentRecord.Opponent, action: Action) returns (outcome: Outcome)
      requires Valid() && sender in opponents && opponent == opponents[sender]
      modifies this, opponent.Repr
      ensures Valid() && KeepsLedgerState() && opponents == old(opponents)
      ensures forall s :: s in opponents && s != sender ==>
        && opponents[s].allBids.bids == old(opponents[s].allBids.bids)
        && opponents[s].acceptedBids.bids == old(opponents[s].acceptedBids.bids)
        && opponents[s].issueValueCounter == old(opponents[s].issueValueCounter)
      ensures old(opponent.issueValueCounter) == map[] ==> opponent.issueValueCounter == map[]
      ensures action.Offer? ==> (
        && outcome == Done
        && allBids == old(allBids) + [Details(action.bid)]
        && opponent.allBids.bids == old(opponent.allBids.bids) + [BidSequence(LastBid(old(allBids)), Some(action.bid))]
        && opponent.acceptedBids.bids == old(opponent.acceptedBids.bids)
        && opponent.issueValueCounter ==
             OpponentRecord.CounterAfter(old(opponent.issueValueCounter), action.bid, action.bid.issues))
      ensures action.Accept? ==> (
        && allBids == old(allBids)
        && (outcome == Thrown(NullPointer) <==> |allBids| == 0)
        && (outcome == Done <==> |allBids| > 0)
        && opponent.acceptedBids.bids == old(opponent.acceptedBids.bids) + [BidSequence(LastBid(allBids), LastBid(allBids))]
        && opponent.allBids.bids == old(opponent.allBids.bids))
      ensures action.Accept? && |allBids| == 0 ==> opponent.issueValueCounter == old(opponent.issueValueCounter)
      ensures action.Accept? && |allBids| > 0 ==>
        var b := allBids[|allBids| - 1].bid;
        opponent.issueValueCounter ==
          OpponentRecord.CounterAfter(OpponentRecord.CounterAfter(old(opponent.issueValueCounter), b, b.issues), b, b.issues)
      ensures action.OtherAction? ==> (
        && outcome == Done && allBids == old(allBids)
        && opponent.allBids.bids == old(opponent.allBids.bids)
        && opponent.acceptedBids.bids == old(opponent.acceptedBids.bids)
        && opponent.issueValueCounter == old(opponent.issueValueCounter))
    {
      match action {
        case Offer(b) =>
          outcome := RecordOffer(sender, opponent, b);
        case Accept =>
          outcome := RecordAccept(sender, opponent);
        case OtherAction =>
          // only logged
          outcome := Done;
      }
    }

    /** The Offer branch of receiveMessage: the bid goes into the ledger and,
        paired with the bid that was on the table, into the sender's offers. */
    method RecordOffer(sender: nat, opponent: OpponentRecord.Opponent, b: Bid) returns (outcome: Outcome)
      requires Valid() && sender in opponents && opponent == opponents[sender]
      modifies this, opponent.Repr
      ensures Valid() && KeepsLedgerState() && opponents == old(opponents)
      ensures outcome == Done
      ensures allBids == old(allBids) + [Details(b)]
      ensures opponent.allBids.bids == old(opponent.allBids.bids) + [BidSequence(LastBid(old(allBids)), Some(b))]
      ensures opponent.acceptedBids.bids == old(opponent.acceptedBids.bids)
      ensures opponent.issueValueCounter == OpponentRecord.CounterAfter(old(opponent.issueValueCounter), b, b.issues)
      ensures old(opponent.issueValueCounter) == map[] ==> opponent.issueValueCounter == map[]
      ensures forall s :: s in opponents && s != sender ==>
        && opponents[s].allBids.bids == old(opponents[s].allBids.bids)
        && opponents[s].acceptedBids.bids == old(opponents[s].acceptedBids.bids)
        && opponents[s].issueValueCounter == old(opponents[s].issueValueCounter)
    {
      var previousBid := LastBid(allBids);
      allBids := allBids + [Details(b)];
      outcome := opponent.AddOffer(previousBid, Some(b));
    }

    /** The Accept branch of receiveMessage: the bid on the table is recorded
        as accepted by the sender; with no bid on the table this throws. */
    method RecordAccept(sender: nat, opponent: OpponentRecord.Opponent) returns (outcome: Outcome)
      requires Valid() && sender in opponents && opponent == opponents[sender]
      modifies opponent.Repr
      ensures Valid() && opponents == old(opponents)
      ensures outcome == Thrown(NullPointer) <==> |allBids| == 0
      ensures outcome == Done <==> |allBids| > 0
      ensures opponent.acceptedBids.bids == old(opponent.acceptedBids.bids) + [BidSequence(LastBid(allBids), LastBid(allBids))]
      ensures opponent.allBids.bids == old(opponent.allBids.bids)
      ensures |allBids| == 0 ==> opponent.issueValueCounter == old(opponent.issueValueCounter)
      ensures |allBids| > 0 ==>
        var b := allBids[|allBids| - 1].bid;
        opponent.issueValueCounter ==
          OpponentRecord.CounterAfter(OpponentRecord.CounterAfter(old(opponent.issueValueCounter), b, b.issues), b, b.issues)
      ensures old(opponent.issueValueCounter) == map[] ==> opponent.issueValueCounter == map[]
      ensures forall s :: s in opponents && s != sender ==>
        && opponents[s].allBids.bids == old(opponents[s].allBids.bids)
        && opponents[s].acceptedBids.bids == old(opponents[s].acceptedBids.bids)
        && opponents[s].issueValueCounter == old(opponents[s].issueValueCounter)
    {
      outcome := opponent.AddAccept(LastBid(allBids));
    }
  }
}
