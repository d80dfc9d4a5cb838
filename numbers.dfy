/** Shared value types: optional values, results of operations that can throw,
    Java doubles restricted to what the negotiation core produces, sums over
    sequences and Java's (int) cast of a double. */
module Numerics {

  datatype Option<+T> = None | Some(value: T)

  /** The exceptions the core can raise or let escape. */
  datatype Fault =
    | NullPointer        // a null reference dereferenced or a null Integer unboxed
    | InvalidBid         // OpponentUtilityModel.InvalidBidException
    | InvalidDomain      // OpponentUtilityModel.InvalidDomainException
    | IndexOutOfBounds   // an array indexed outside its bounds

  /** The outcome of a Java method that returns a value or throws. */
  datatype Result<+T> = Ok(value: T) | Err(fault: Fault)

  /** The outcome of a Java void method: it returns or it throws. */
  datatype Outcome = Done | Thrown(fault: Fault)

  /** A Java double as it occurs in the opponent model: a finite number or
      NaN (the result of 0.0 / 0.0).  No operation of the core produces an
      infinity where it is later used, so none is represented. */
  datatype Double = Finite(value: real) | NaN {

    /** IEEE addition: NaN absorbs. */
    function Plus(other: Double): (r: Double)
      ensures r.Finite? <==> Finite? && other.Finite?
      ensures r.Finite? ==> r.value == value + other.value
    {
      if Finite? && other.Finite? then Finite(value + other.value) else NaN
    }

    /** IEEE multiplication: NaN absorbs. */
    function Times(other: Double): (r: Double)
      ensures r.Finite? <==> Finite? && other.Finite?
      ensures r.Finite? ==> r.value == value * other.value
    {
      if Finite? && other.Finite? then Finite(value * other.value) else NaN
    }
  }

  /** The sum of a sequence, added left to right as a Java accumulator loop does. */
  function Sum(s: seq<real>): real
  {
    if |s| == 0 then 0.0 else Sum(s[..|s| - 1]) + s[|s| - 1]
  }

  /** The sum of the first i + 1 elements extends the sum of the first i. */
  lemma SumPrefix(s: seq<real>, i: nat)
    requires i < |s|
    ensures Sum(s[..i + 1]) == Sum(s[..i]) + s[i]
  {
    assert s[..i + 1][..i] == s[..i];
  }

  /** Adding a constant to every element adds n times that constant to the sum. */
  lemma {:induction false} SumShift(s: seq<real>, t: seq<real>, c: real)
    requires |s| == |t|
    requires forall i :: 0 <= i < |s| ==> t[i] == s[i] + c
    ensures Sum(t) == Sum(s) + |s| as real * c
  {
    if |s| > 0 {
      var n := |s| - 1;
      SumShift(s[..n], t[..n], c);
    }
  }

  /** A sequence of non-negative numbers has a non-negative sum. */
  lemma {:induction false} SumNonNegative(s: seq<real>)
    requires forall i :: 0 <= i < |s| ==> s[i] >= 0.0
    ensures Sum(s) >= 0.0
  {
    if |s| > 0 {
      SumNonNegative(s[..|s| - 1]);
    }
  }

  /** A sequence of one repeated value sums to its length times that value. */
  lemma {:induction false} SumConstant(s: seq<real>, c: real)
    requires forall i :: 0 <= i < |s| ==> s[i] == c
    ensures Sum(s) == |s| as real * c
  {
    if |s| > 0 {
      SumConstant(s[..|s| - 1], c);
    }
  }

  const IntMin: int := -0x8000_0000
  const IntMax: int := 0x7fff_ffff

  /** Java's (int) cast of a double: truncation toward zero, saturating at the
      bounds of a 32-bit int. */
  function TruncateToInt(x: real): (r: int)
    ensures IntMin <= r <= IntMax
    ensures r == 0 <==> -1.0 < x < 1.0
    ensures r > 0 <==> x >= 1.0
    ensures r < 0 <==> x <= -1.0
    ensures 0 < r < IntMax ==> r as real <= x < r as real + 1.0
    ensures IntMin < r < 0 ==> r as real - 1.0 < x <= r as real
    ensures r == IntMax ==> x >= IntMax as real
    ensures r == IntMin ==> x <= IntMin as real
  {
    if x >= 0.0 then
      (if x.Floor > IntMax then IntMax else x.Floor)
    else
      var m := -((-x).Floor);
      if m < IntMin then IntMin else m
  }
}
