# Group11 negotiation agent — a Dafny model

This project models the decision and opponent-modelling core of the Group11
negotiating party, written for the Genius negotiation framework. It covers:

- **The party.** `Group11`, in `group11.dfy`:
  - the round counter, reservation utility, last conceded utility, bid ledger and lazy opponent registry;
  - the accept test and the tactic chosen from round and time;
  - the GIVEIN concession schedule;
  - the Nash product, which skips opponent spaces that throw;
  - the sort of the outcome space on the Nash product, with a comparator that truncates to `int`.
- **The frequency-based opponent utility model.** `OpponentUtilityModel`, in `opponent_utility_model.dfy`:
  - value counters that grow once per offer and twice per accept;
  - issue weights, each of which is the issue's variance plus an equal share of what is left of 1;
  - an evaluation per value, which is its count divided by the largest count of its issue.
- **The older per-opponent record.** `Opponent`, in `opponent.dfy`. Its value counter starts empty and can never receive an entry. The variance-to-weight arithmetic of `calculateUtilitySpace` is modelled.
- **The two versions of the opponent bid history and its strategy classifier:**
  - `deliverable_bid_history.dfy`: every tally stays 0, so a run that does not throw answers UNKNOWN;
  - `bid_history.dfy`: the first tally read unboxes null, so any history of two or more pairs throws;
  - `bid_sequences.dfy`: what both share. This is the (previous, current) pair, the strategies, `getBidDifference` with reference equality on values, and the max-tracking loop.
- **Statistics.** Mean, population variance and median, in `statistics.dfy`.
- **Shared files:**
  - `issue_weights.dfy` holds the variance-to-weight arithmetic that the two opponent models share;
  - `domain.dfy` holds issues, values and bids;
  - `numbers.dfy` holds Option, Result and the exceptions, a Java double that may be NaN, sums, and Java's `(int)` cast.

Java `null` is `None`. An exception is an `Err`/`Thrown` value naming the fault. A double that the core can turn into NaN is `Double = Finite(real) | NaN`; all other doubles are `real`. The model follows the source code as written, quirks included:

- **Empty ledger.** `chooseAction` reads `getLastBidDetails()` and NOSTALGIAN reads `getBestBidDetails()` without a null check (src/negotiator/group11/Group11.java:96-97 and 162). On an empty ledger both dereference null, so `ChooseAction` and `TacticStep` return `Err(NullPointer)`.
- **Strategy classifier.** In Deliverable/2/negotiator/group11/OpponentBidHistory.java:63-76 every tally is stored back with a post-increment, so it stays 0 and the answer is UNKNOWN. In src/negotiator/group11/OpponentBidHistory.java:28 and 42-45 the tally map starts empty and a missing tally is unboxed without a null check, so the first unboxing throws.
- **Utility with no data.** `getIssueEvaluation` divides a count by the largest count of the issue (src/negotiator/group11/OpponentUtilityModel.java:207-208). While every count is 0 this is 0 / 0, so `IssueEvaluation` is NaN.
- **Tactic schedule.** BESTNASH after round 10. Otherwise, when round / t < 20, HARDTOGET for t < 0.5 and GIVEIN from then on; in every other case HARDTOGET (src/negotiator/group11/Group11.java:100-117). The reservation utility decays only for t > 0.75 (lines 89-92), and the only time-triggered accept is GIVEIN's from t = 0.95.
- **Comparator.** The Nash sort compares by `(int)` of the raw difference of two Nash products (src/negotiator/group11/Group11.java:280-281). Products in [0, 1) therefore all tie.

## Model

| member | source | states |
|---|---|---|
| Numerics.TruncateToInt | src/negotiator/group11/Group11.java:280-281 | Java's `(int)` cast: it lies in the 32-bit range, and is 0 exactly when \|x\| < 1, positive exactly when x ≥ 1, and negative exactly when x ≤ -1. Inside the range it truncates toward zero: r ≤ x < r + 1 for positive r and r - 1 < x ≤ r for negative r. It saturates at the bounds only for x beyond them. |
| Numerics.Double.Plus | src/negotiator/group11/OpponentUtilityModel.java:157 | A double sum is a number exactly when both terms are, and is then their sum (NaN absorbs). |
| Numerics.Double.Times | src/negotiator/group11/OpponentUtilityModel.java:182 | A double product is a number exactly when both factors are, and is then their product. |
| Domain.GetValue | src/negotiator/group11/OpponentUtilityModel.java:109 | Bid.getValue gives a value exactly when the bid assigns one to the issue number, and it is that value. |
| Domain.DiscreteIssues | src/negotiator/group11/Opponent.java:76-111 | The issues that take the DISCRETE branch, in domain order: all discrete, no more than the domain has, and exactly the domain's discrete issues. |
| Statistics.GetMean | Deliverable/negotiator/group11/Statistics.java:18-23 | The mean times the length is the sum of the array. An empty array gives NaN. |
| Statistics.GetVariance | Deliverable/negotiator/group11/Statistics.java:30-36 | The population variance: the squared deviations from the mean, divided by n. It is never negative. An empty array gives NaN. |
| Statistics.VarianceNonNegative | Deliverable/negotiator/group11/Statistics.java:30-36 | A variance is at least 0. |
| Statistics.VarianceOfConstant | Deliverable/negotiator/group11/Statistics.java:18-36 | An array of equal elements has that element as mean and variance 0. |
| Statistics.SortInPlace | Deliverable/negotiator/group11/Statistics.java:55 | Arrays.sort leaves the array ascending and a permutation of what it was. |
| Statistics.SortSeqSortedPermutation | Deliverable/negotiator/group11/Statistics.java:55 | The reference sort gives an ascending permutation of its input. |
| Statistics.SortedPermutationsEqual | Deliverable/negotiator/group11/Statistics.java:55 | Two ascending sequences with the same elements are equal, so the sorted copy does not depend on how it was sorted. |
| Statistics.Median | Deliverable/negotiator/group11/Statistics.java:52-62 | The median is the middle element of the sorted copy for odd length, and the mean of the two middle elements for even length. The argument array is not modified. An empty array throws an index exception. |
| Statistics.MedianWithinRange | Deliverable/negotiator/group11/Statistics.java:52-62 | Some element of the data is at most the median, and some element is at least it. |
| BidSequences.GetBidDifference | Deliverable/2/negotiator/group11/OpponentBidHistory.java:100-120 | The number of issues of bid1 whose two value lookups succeed and give different objects. A null bid1 throws. |
| BidSequences.CompareValues | Deliverable/2/negotiator/group11/OpponentBidHistory.java:101-110 | The map is keyed by exactly the issue numbers whose lookups succeed, and each entry says whether both bids hold the same value object. |
| BidSequences.CountDifferences | Deliverable/2/negotiator/group11/OpponentBidHistory.java:112-119 | The count is the number of false entries of the map. |
| BidSequences.DifferenceBounds | Deliverable/2/negotiator/group11/OpponentBidHistory.java:100-120 | The difference is at most the number of issues of bid1. It is 0 for a bid against itself, and 0 against a null bid. |
| BidSequences.EqualContentsStillDiffer | Deliverable/2/negotiator/group11/OpponentBidHistory.java:106 | Values are compared by reference: equal contents held in distinct objects differ in every issue that both bids have. |
| BidSequences.Classify | Deliverable/2/negotiator/group11/OpponentBidHistory.java:62-77 | UNKNOWN iff the two distances are equal, MODIFY_PREVIOUS iff the current distance is smaller, MODIFY_SELF iff it is larger. |
| BidSequences.MostFrequentStrategy | Deliverable/2/negotiator/group11/OpponentBidHistory.java:80-89 | With no positive tally, UNKNOWN. Otherwise a strategy with a positive tally that no other tally exceeds. |
| DeliverableBidHistory.OpponentBidHistory.constructor | Deliverable/2/negotiator/group11/OpponentBidHistory.java:18-20 | A new history is empty. |
| DeliverableBidHistory.OpponentBidHistory.Add | Deliverable/2/negotiator/group11/OpponentBidHistory.java:27-29 | Appends exactly the pair (previous, new). |
| DeliverableBidHistory.OpponentBidHistory.GetSize | Deliverable/2/negotiator/group11/OpponentBidHistory.java:34-36 | The number of stored pairs. |
| DeliverableBidHistory.OpponentBidHistory.GetMostLikelyStrategy | Deliverable/2/negotiator/group11/OpponentBidHistory.java:47-91 | Fewer than two pairs give UNKNOWN. A null bid to compare from (the previous bid of pair i, or the current bid of pair i - 1) throws. Every other history gives UNKNOWN, because every tally stays 0. |
| BidHistory.Lookup | src/negotiator/group11/OpponentBidHistory.java:43-44 | HashMap.get returns the stored tally exactly when there is one. |
| BidHistory.OpponentBidHistory.constructor | src/negotiator/group11/OpponentBidHistory.java:15-17 | A new history is empty. |
| BidHistory.OpponentBidHistory.Add | src/negotiator/group11/OpponentBidHistory.java:19-21 | Appends exactly the pair (previous, new). |
| BidHistory.OpponentBidHistory.GetSize | src/negotiator/group11/OpponentBidHistory.java:23-25 | The number of stored pairs. |
| BidHistory.OpponentBidHistory.GetMostLikelyStrategy | src/negotiator/group11/OpponentBidHistory.java:27-70 | Fewer than two pairs give UNKNOWN. Two or more always throw a NullPointerException. |
| OpponentRecord.CounterAfterKeys | src/negotiator/group11/Opponent.java:48-59 | updateIssueValueCounter never adds or removes a key. |
| OpponentRecord.CounterAfterGrows | src/negotiator/group11/Opponent.java:48-59 | No count ever decreases. |
| OpponentRecord.CounterStaysEmpty | src/negotiator/group11/Opponent.java:33 | Starting from the empty map, the counter stays empty whatever bid is counted. |
| OpponentRecord.CountsOf | src/negotiator/group11/Opponent.java:84-89 | One count per value of the issue, in the issue's order. A missing count is read as 0. |
| OpponentRecord.DiscreteVariances | src/negotiator/group11/Opponent.java:71-117 | One variance per discrete issue, in domain order: the variance of count / number of offers. Other issues get no entry. |
| OpponentRecord.OpponentWeights | src/negotiator/group11/Opponent.java:119-130 | One weight per discrete issue. |
| OpponentRecord.OpponentWeightsSumToOne | src/negotiator/group11/Opponent.java:119-130 | After an offer, with a discrete issue that has values, every weight is a number and the weights sum to exactly 1. |
| OpponentRecord.EmptyCounterGivesEqualWeights | src/negotiator/group11/Opponent.java:77-130 | With the always-empty counter and at least one offer, every one of the k discrete issues gets weight exactly 1 / k. |
| OpponentRecord.NoOffersGivesNaNWeights | src/negotiator/group11/Opponent.java:69-91 | Before the first offer every frequency divides by 0 and every weight is NaN. |
| OpponentRecord.Opponent.constructor | src/negotiator/group11/Opponent.java:30-34 | Two empty histories and an empty counter. |
| OpponentRecord.Opponent.UpdateIssueValueCounter | src/negotiator/group11/Opponent.java:48-59 | The counter after the loop over the bid's issues. A failed lookup or a missing count is swallowed. A null bid throws. |
| OpponentRecord.Opponent.AddAccept | src/negotiator/group11/Opponent.java:36-41 | Appends (b, b) to the accepts, leaves the offers alone, and counts b twice. An empty counter stays empty. |
| OpponentRecord.Opponent.AddOffer | src/negotiator/group11/Opponent.java:43-46 | Appends (previous, offer) to the offers, leaves the accepts alone, and counts the offer once. An empty counter stays empty. |
| OpponentRecord.Opponent.ValueCounts | src/negotiator/group11/Opponent.java:81-92 | The loop reads exactly CountsOf of the counter. |
| OpponentRecord.Opponent.IssueVariances | src/negotiator/group11/Opponent.java:71-117 | The loop over the domain yields exactly DiscreteVariances. |
| OpponentRecord.Opponent.CalculateIssueWeights | src/negotiator/group11/Opponent.java:65-140 | The weights written are exactly OpponentWeights of the counter and the number of offers. |
| IssueWeights.Frequencies | src/negotiator/group11/OpponentUtilityModel.java:145-146 | Each frequency is its count divided by the number of offers. |
| IssueWeights.IssueVariance | src/negotiator/group11/OpponentUtilityModel.java:140-151 | The variance is a number exactly when there is an offer and a value, and is then at least 0. |
| IssueWeights.DoubleSumOf | src/negotiator/group11/OpponentUtilityModel.java:155-158 | The total variance is a number exactly when every variance is, and is then their sum. |
| IssueWeights.Spread | src/negotiator/group11/OpponentUtilityModel.java:160-166 | weight_i = variance_i + (1 - total) / k for each of the k issues. |
| IssueWeights.SpreadSumsToOne | src/negotiator/group11/OpponentUtilityModel.java:155-167 | With numeric variances the weights are numbers summing to exactly 1. One NaN variance makes every weight NaN. |
| IssueWeights.SpreadOfZeroVariances | src/negotiator/group11/OpponentUtilityModel.java:160-166 | All-zero variances give every issue weight exactly 1 / k. |
| IssueWeights.GetIssueVariance | src/negotiator/group11/OpponentUtilityModel.java:138-151 | Filling the double[] with count / total and taking its variance gives IssueVariance. |
| IssueWeights.SpreadVariances | src/negotiator/group11/OpponentUtilityModel.java:155-167 | The summing loop and the weighting loop give exactly Spread. |
| UtilityModel.InitialCountsShape | src/negotiator/group11/OpponentUtilityModel.java:38-53 | The initial counts have exactly the domain's issues, each with a 0 for exactly its values. |
| UtilityModel.FirstNonDiscrete | src/negotiator/group11/OpponentUtilityModel.java:103-123 | The position where updateCountersFromBid throws. All issues before it are discrete and the one at it is not. It equals the length exactly when all issues are discrete. |
| UtilityModel.CountsAfterDelta | src/negotiator/group11/OpponentUtilityModel.java:102-124 | Counting adds no issue or value. A value's count grows by exactly 1 when the bid offers it for a visited issue, and is unchanged otherwise. |
| UtilityModel.AcceptCountsTwice | src/negotiator/group11/OpponentUtilityModel.java:75-80 | An accept raises each offered value's count by exactly 2 and leaves every other count alone. |
| UtilityModel.ModelVariances | src/negotiator/group11/OpponentUtilityModel.java:136-153 | One variance per issue, computed from the issue's counts divided by the number of offers. |
| UtilityModel.ModelWeightsSumToOne | src/negotiator/group11/OpponentUtilityModel.java:131-167 | After an offer, with every issue having values, every weight is a number and the weights sum to exactly 1. |
| UtilityModel.ModelWeightsWithoutOffers | src/negotiator/group11/OpponentUtilityModel.java:132-151 | Before the first offer (an accept can come first) every weight is NaN. |
| UtilityModel.MaxCount | src/negotiator/group11/OpponentUtilityModel.java:226-231 | getMaxValue is at least 0 and every count. It is 0 or one of the counts. |
| UtilityModel.MaxCountUnique | src/negotiator/group11/OpponentUtilityModel.java:226-231 | Any number with those properties is the maximum. |
| UtilityModel.CountStepKeepsShape | src/negotiator/group11/OpponentUtilityModel.java:106-119 | One counting step keeps the counts shaped like the domain and non-negative. |
| UtilityModel.EvaluationInUnitRange | src/negotiator/group11/OpponentUtilityModel.java:199-219 | A numeric evaluation lies in [0, 1]. |
| UtilityModel.MostFrequentValueScoresOne | src/negotiator/group11/OpponentUtilityModel.java:207-208 | The value with the largest positive count scores exactly 1. |
| UtilityModel.NoCountsEvaluateToNaN | src/negotiator/group11/OpponentUtilityModel.java:207-208 | While an issue has no positive count, its values evaluate to 0 / 0, which is NaN. |
| UtilityModel.NonDiscreteBidHasNoUtility | src/negotiator/group11/OpponentUtilityModel.java:184-185 | A bid with a non-discrete issue never gets a utility. |
| UtilityModel.UtilityWithinWeights | src/negotiator/group11/OpponentUtilityModel.java:176-190 | With non-negative weights and counts, a numeric utility lies between 0 and the sum of the weights of the bid's issues. |
| UtilityModel.AddIssueWithinWeight | src/negotiator/group11/OpponentUtilityModel.java:182 | One issue adds between 0 and its weight to a numeric utility. |
| UtilityModel.OpponentUtilityModel.constructor | src/negotiator/group11/OpponentUtilityModel.java:28-54 | A discrete domain gets weight 1 / n per issue and a zero count for every value, with empty histories. |
| UtilityModel.OpponentUtilityModel.ZeroCountsOf | src/negotiator/group11/OpponentUtilityModel.java:44-46 | A 0 for exactly the values of the issue. |
| UtilityModel.OpponentUtilityModel.Create | src/negotiator/group11/OpponentUtilityModel.java:38-53 | InvalidDomainException exactly when some issue is not discrete. Otherwise a model in its initial state. |
| UtilityModel.OpponentUtilityModel.GetMostLikelyStrategy | src/negotiator/group11/OpponentUtilityModel.java:65-67 | The offer history's classifier: UNKNOWN for fewer than two offers, and an exception otherwise. |
| UtilityModel.OpponentUtilityModel.UpdateWeightsFromCounters | src/negotiator/group11/OpponentUtilityModel.java:131-168 | The counts are unchanged and the weights become exactly ModelWeights. |
| UtilityModel.OpponentUtilityModel.IssueVariances | src/negotiator/group11/OpponentUtilityModel.java:136-153 | The first loop yields exactly ModelVariances. |
| UtilityModel.OpponentUtilityModel.StoreWeights | src/negotiator/group11/OpponentUtilityModel.java:164-167 | Each issue's weight is the one computed for it, and the counts are unchanged. |
| UtilityModel.OpponentUtilityModel.CountsOfIssue | src/negotiator/group11/OpponentUtilityModel.java:140-148 | The counts of the issue's values as stored. |
| UtilityModel.OpponentUtilityModel.UpdateCountersFromBid | src/negotiator/group11/OpponentUtilityModel.java:102-126 | Counts the issues up to the first non-discrete one. With all issues discrete, recomputes the weights; otherwise throws InvalidBid with the weights untouched. A null bid throws and changes nothing. |
| UtilityModel.OpponentUtilityModel.CountBidIssues | src/negotiator/group11/OpponentUtilityModel.java:103-124 | The counts after the issues before the first non-discrete one. Reports whether every issue was discrete. |
| UtilityModel.OpponentUtilityModel.CountIssue | src/negotiator/group11/OpponentUtilityModel.java:106-119 | One try block: the offered value's count grows by one. A failed lookup or missing count changes nothing. |
| UtilityModel.OpponentUtilityModel.AddOffer | src/negotiator/group11/OpponentUtilityModel.java:89-93 | Appends (previous, offer) and leaves the accepts alone. A discrete offer is counted once and the weights are recomputed. A null offer throws with counts and weights unchanged. A non-discrete offer is counted up to its first non-discrete issue, then throws InvalidBid with the weights unchanged. |
| UtilityModel.OpponentUtilityModel.AddAccept | src/negotiator/group11/OpponentUtilityModel.java:75-80 | Appends (b, b) to the accepts and leaves the offers alone. A discrete bid is counted twice and the weights are recomputed. A null bid throws with counts and weights unchanged. A non-discrete bid is counted once, up to its first non-discrete issue, before the first call throws InvalidBid; the weights are unchanged. |
| UtilityModel.OpponentUtilityModel.GetMaxValue | src/negotiator/group11/OpponentUtilityModel.java:226-231 | The loop over the counts yields MaxCount. |
| UtilityModel.OpponentUtilityModel.GetIssueEvaluation | src/negotiator/group11/OpponentUtilityModel.java:199-219 | count / max, with caught lookups giving 0, a non-discrete value rethrown, and 0 / 0 giving NaN. |
| UtilityModel.OpponentUtilityModel.GetUtility | src/negotiator/group11/OpponentUtilityModel.java:176-190 | The sum over the bid's issues of weight × evaluation, throwing on a non-discrete issue or a missing weight. A null bid throws. |
| UtilityModel.OpponentUtilityModel.FailureSticks | src/negotiator/group11/OpponentUtilityModel.java:184-185 | Once getUtility has thrown, the remaining issues do not change the outcome. |
| Group11Agent.Time | src/negotiator/group11/Group11.java:207-215 | getTime is round / deadline for a round deadline (t × deadline = round), and the clock otherwise. |
| Group11Agent.NeverTrustedWithRoundDeadline | src/negotiator/group11/Group11.java:143-145 | With a round deadline, round / t < 20 holds exactly when the deadline is under 20 rounds. |
| Group11Agent.TacticWithRoundDeadline | src/negotiator/group11/Group11.java:100-118 | With a round deadline: BESTNASH after round 10, GIVEIN when the deadline is under 20 and t ≥ 0.5, and HARDTOGET otherwise. |
| Group11Agent.GiveInFactor | src/negotiator/group11/Group11.java:171-185 | GIVEIN accepts exactly when t ≥ 0.95, and otherwise concedes by a factor in [0.7, 0.99]. |
| Group11Agent.GiveInConcedesMoreOverTime | src/negotiator/group11/Group11.java:171-185 | A later time never gives a larger factor. |
| Group11Agent.ReservationBounds | src/negotiator/group11/Group11.java:89-92 | The reservation utility never exceeds 0.9. It is unchanged for t ≤ 0.75 and lies in [0.65, 0.9) for 0.75 < t ≤ 1. |
| Group11Agent.MaxBid | src/negotiator/group11/Group11.java:86 | getMaxBidPossible is an outcome of the highest own utility. |
| Group11Agent.NearUtility | src/negotiator/group11/Group11.java:198 | getBidNearUtility is an outcome whose utility is nearest to the target. |
| Group11Agent.BestOf | src/negotiator/group11/Group11.java:162 | getBestBidDetails is a ledger entry of the highest utility, or null exactly for an empty ledger. |
| Group11Agent.LastBid | src/negotiator/group11/Group11.java:240 | getLastBid is the last entry's bid, or null exactly for an empty ledger. |
| Group11Agent.NashProductSkipsFailures | src/negotiator/group11/Group11.java:288-301 | The product is own utility times exactly the opponent utilities that could be computed, in order. It is the own utility when none could. |
| Group11Agent.SuccessesAreAnswers | src/negotiator/group11/Group11.java:292-298 | The factors used are exactly the answers of the spaces that did not throw. |
| Group11Agent.NashProductInUnitRange | src/negotiator/group11/Group11.java:288-301 | Utilities in [0, 1] give a product in [0, 1]. |
| Group11Agent.Scored | src/negotiator/group11/Group11.java:268-274 | Every outcome paired with its Nash product, in outcome-space order. |
| Group11Agent.Compare | src/negotiator/group11/Group11.java:276-283 | The comparator is 0 exactly when the products differ by less than 1, and otherwise has the sign of the difference. |
| Group11Agent.ProductsBelowOneAllTied | src/negotiator/group11/Group11.java:276-283 | Products in [0, 1) are all tied under the comparator. |
| Group11Agent.AllTiedKeepsLast | src/negotiator/group11/Group11.java:158-160 | With utilities in [0, 1] and products below 1, everything ties, and the last Nash bid is the last outcome. |
| Group11Agent.InsertNash | src/negotiator/group11/Group11.java:276 | One insertion step extends the comparator-ordered prefix, keeps the multiset, and moves nothing when all elements tie. |
| Group11Agent.SortOnNash | src/negotiator/group11/Group11.java:276-283 | Collections.sort gives a permutation ordered by the comparator, and is stable: it moves nothing when all elements tie. |
| Group11Agent.Group11.constructor | src/negotiator/group11/Group11.java:51-65 | Round 0, last utility 1, reservation 0.9, an empty ledger and no opponents. |
| Group11Agent.Group11.TacticStepRecordsOffers | src/negotiator/group11/Group11.java:156-201 | A tactic adds exactly its offered bid to the ledger, and nothing for an accept or exception. Only GIVEIN changes the last utility, and only to the utility of its offer. |
| Group11Agent.Group11.TacticStepOffers | src/negotiator/group11/Group11.java:156-195 | ASOCIAL and the fall-through tactics offer a best bid. GIVEIN accepts exactly from t = 0.95 and otherwise offers an outcome nearest to factor × last utility. Only BESTNASH without a Nash list and NOSTALGIAN on an empty ledger throw. |
| Group11Agent.Group11.PlaceBid | src/negotiator/group11/Group11.java:67-70 | bid appends exactly one ledger entry with the own utility and offers the bid. |
| Group11Agent.Group11.GetOfferFromPreviousUtil | src/negotiator/group11/Group11.java:197-201 | Offers the outcome nearest to factor × last utility, and its utility becomes the last utility. |
| Group11Agent.Group11.GetActionForTactic | src/negotiator/group11/Group11.java:156-195 | The action, ledger and last utility are exactly those of TacticStep. |
| Group11Agent.Group11.OfferLastNashBid | src/negotiator/group11/Group11.java:158-160 | BESTNASH offers the last bid of the Nash list. |
| Group11Agent.Group11.OfferBestOfLedger | src/negotiator/group11/Group11.java:161-162 | NOSTALGIAN offers the best ledger bid, and throws on an empty ledger. |
| Group11Agent.Group11.GiveInAction | src/negotiator/group11/Group11.java:171-185 | GIVEIN as TacticStep describes it. |
| Group11Agent.Group11.GetNashUtilityProduct | src/negotiator/group11/Group11.java:288-301 | The accumulator loop yields NashProduct. |
| Group11Agent.Group11.ScoreOutcomes | src/negotiator/group11/Group11.java:268-274 | A fresh list of every outcome with its Nash product. |
| Group11Agent.Group11.SortOutcomeSpaceOnNashProduct | src/negotiator/group11/Group11.java:261-286 | nashBids becomes a comparator-ordered permutation of the scored outcomes, unchanged in order when all tie. Nothing else changes. |
| Group11Agent.Group11.FollowTactic | src/negotiator/group11/Group11.java:100-118 | The tactic chosen from round and time, carried out as TacticStep, with a fresh Nash sort exactly for BESTNASH. |
| Group11Agent.Group11.ChooseAction | src/negotiator/group11/Group11.java:82-141 | See the details below this table. |
| Group11Agent.Group11.LookUpOpponent | src/negotiator/group11/Group11.java:234-238 | The sender's record, created with empty histories and an empty value counter only when the sender is new. Nothing else changes. |
| Group11Agent.Group11.ReceiveMessage | src/negotiator/group11/Group11.java:228-259 | See the details below this table. |
| Group11Agent.Group11.RecordOffer | src/negotiator/group11/Group11.java:243-249 | The Offer branch: one ledger entry, (previous, bid) appended to the sender's offers, and the sender's value counter after counting the bid (an empty counter stays empty). Other senders' records are unchanged. |
| Group11Agent.Group11.RecordAccept | src/negotiator/group11/Group11.java:250-254 | The Accept branch: (last, last) appended to the sender's accepts, and the last bid counted twice in the sender's value counter (an empty counter stays empty). It throws exactly when the ledger is empty, leaving the counter unchanged. Other senders' records are unchanged. |
| Group11Agent.Group11.Dispatch | src/negotiator/group11/Group11.java:240-257 | The switch on the action for a known sender: Offer and Accept as in RecordOffer and RecordAccept, anything else changes no record and leaves the ledger alone. |

What the contract of `Group11Agent.Group11.ChooseAction` states:

- `round` grows by exactly 1.
- Without Accept among the valid actions, it offers and records the best bid.
- Otherwise the reservation utility is updated first.
- An empty ledger throws.
- It accepts exactly when the last bid is worth more than the reservation utility.
- Otherwise it carries out the selected tactic as TacticStep describes it, sorting the Nash list for BESTNASH.
- The Nash list changes only when BESTNASH is selected: not on the empty-ledger, Accept or other-tactic paths.

What the contract of `Group11Agent.Group11.ReceiveMessage` states:

- The sender's record is created at most once.
- An Offer adds one ledger entry, and appends (previous last bid, bid) to the sender's offers.
- An Accept leaves the ledger alone, and appends (last, last) to the sender's accepts.
- The sender's value counter is the old counter (empty for a new sender) after counting the offered bid once, or the accepted bid twice. It is unchanged for an Accept on an empty ledger and for any other action.
- A new sender's counter, and any counter that was empty, is still empty afterwards.
- Other senders' records, value counters included, are unchanged.

## Left out

- Logging, `printStackTrace` and the wall-clock timing around the Nash sort are not modelled. They have no effect on state.
- The Genius framework types are given abstractly:
  - the outcome space is a non-empty, descending sequence of (bid, own utility);
  - the party's utility function is a function;
  - each opponent utility space is a function that may fail;
  - the round deadline is a number.
- `Group11Agent.Group11.ChooseAction`: the timeline clock is a parameter and is read once per call. The source may read the clock several times in one turn when there is no round deadline.
- `Group11Agent.Group11.ChooseAction`: the opponent utility spaces are a parameter. `Opponent.calculateUtilitySpace` builds a `UtilitySpace` and sets evaluators, and only its weight arithmetic is modelled (`OpponentRecord.Opponent.CalculateIssueWeights`). The evaluator writes, `getEvaluator` and `normalizeChildren` are foreign calls.
- A missing ROUND entry in the deadline map, which would make the `(int)` cast throw, is not modelled. The deadline is always present.
- `Group11Agent.NearUtility` and `Group11Agent.BestOf` state nearest and best, but not which of several tied bids the framework returns.
- `Group11Agent.SortOnNash` models Collections.sort as a stable insertion sort. The comparator is not transitive across ties, so TimSort may instead throw IllegalArgumentException on some inputs, and this is not modelled. Between non-adjacent elements the model promises only the multiset and the adjacent comparator order.
- The HashMap iteration order is replaced by the domain's issue order and each issue's value order. Sums and variances do not depend on the order in exact arithmetic.
- Floating point is not modelled:
  - doubles are exact reals;
  - only NaN from 0 / 0 is represented;
  - a positive count divided by 0 is treated as NaN, since its variance is NaN anyway;
  - rounding is not modelled, so "sums to 1" holds in exact arithmetic only.
- `round` is an unbounded integer. The 32-bit overflow after 2^31 rounds is not modelled.
- `Statistics.getStdDev` (a square root) is not modelled.
- `src/negotiator/group11/Opponent.java` calls a `Statistics` constructor that is not part of this model. Its `getVariance` is assumed to be the population variance of `Deliverable/negotiator/group11/Statistics.java`.
- `UtilityModel.OpponentUtilityModel.Create` and the constructor require a well-formed domain: unique issue numbers, and distinct discrete labels within an issue. The framework guarantees this.
- The opaque `Object` sender identity is a natural number.
- `BidDetailsWithNash` and `ValuedBid` are plain (bid, value) datatypes.
- The commented-out withdrawal and reoffer code is not modelled.
