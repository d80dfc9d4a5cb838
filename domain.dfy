/** The negotiation domain as the core sees it: issues, values and bids.
    Java object identity of a value (what `==` compares) is kept apart from
    its content (what `equals` and `hashCode` compare, and so what a HashMap
    keyed by values looks up). */
module Domain {
  import opened Numerics

  datatype IssueType = Discrete | Integer | Real

  /** What a value object holds. */
  datatype Content = DiscreteValue(name: string) | IntegerValue(i: int) | RealValue(x: real)

  /** A value object: `ref` is its identity, `content` what it holds. */
  datatype Value = Value(ref: nat, content: Content)

  /** An issue: its number, its type and, for a discrete issue, its values in
      the domain's order. */
  datatype Issue = Issue(number: int, kind: IssueType, values: seq<Value>)

  /** A bid: the issues it ranges over and the value it assigns to each issue
      number.  A number missing from `values` is a lookup that throws. */
  datatype Bid = Bid(issues: seq<Issue>, values: map<int, Value>)

  /** Bid.getValue(number): the value, or None when the lookup throws. */
  function GetValue(b: Bid, number: int): (r: Option<Value>)
    ensures r.Some? <==> number in b.values
    ensures r.Some? ==> r.value == b.values[number]
  {
    if number in b.values then Some(b.values[number]) else None
  }

  /** The issue numbers of a list of issues. */
  function IssueNumbers(issues: seq<Issue>): (r: seq<int>)
    ensures |r| == |issues|
    ensures forall k :: 0 <= k < |issues| ==> r[k] == issues[k].number
  {
    seq(|issues|, k requires 0 <= k < |issues| => issues[k].number)
  }

  /** The contents of an issue's values, in the issue's order. */
  function Contents(issue: Issue): (r: seq<Content>)
    ensures |r| == |issue.values|
    ensures forall j :: 0 <= j < |issue.values| ==> r[j] == issue.values[j].content
  {
    seq(|issue.values|, j requires 0 <= j < |issue.values| => issue.values[j].content)
  }

  predicate Distinct<T(==)>(s: seq<T>)
  {
    forall i, j :: 0 <= i < j < |s| ==> s[i] != s[j]
  }

  /** A domain as the negotiation framework builds it: issue numbers are
      unique, and a discrete issue's values are discrete values with distinct
      labels. */
  predicate WellFormed(issues: seq<Issue>)
  {
    && Distinct(IssueNumbers(issues))
    && forall k :: 0 <= k < |issues| && issues[k].kind == Discrete ==>
         && Distinct(Contents(issues[k]))
         && forall j :: 0 <= j < |issues[k].values| ==> issues[k].values[j].content.DiscreteValue?
  }

  predicate AllDiscrete(issues: seq<Issue>)
  {
    forall k :: 0 <= k < |issues| ==> issues[k].kind == Discrete
  }

  /** The discrete issues of a domain, in the domain's order. */
  function DiscreteIssues(issues: seq<Issue>): (r: seq<Issue>)
    ensures AllDiscrete(r)
    ensures |r| <= |issues|
    ensures forall x :: x in r <==> x in issues && x.kind == Discrete
  {
    if |issues| == 0 then []
    else
      var rest := DiscreteIssues(issues[..|issues| - 1]);
      var last := issues[|issues| - 1];
      assert issues == issues[..|issues| - 1] + [last];
      if last.kind == Discrete then rest + [last] else rest
  }
}
