/** Statistics.java: mean, population variance and median of a sample held in
    a double[] (doubles modelled as reals). */
module Statistics {
  import opened Numerics

  /** The arithmetic mean of a non-empty sample. */
  function Mean(s: seq<real>): real
    requires |s| > 0
  {
    Sum(s) / |s| as real
  }

  /** The sum of squared deviations of the sample from m, accumulated left to right. */
  function SquaredDeviations(s: seq<real>, m: real): real
  {
    if |s| == 0 then 0.0
    else SquaredDeviations(s[..|s| - 1], m) + (m - s[|s| - 1]) * (m - s[|s| - 1])
  }

  /** The population variance: squared deviations from the mean divided by n (not n - 1). */
  function Variance(s: seq<real>): real
    requires |s| > 0
  {
    SquaredDeviations(s, Mean(s)) / |s| as real
  }

  /** getMean: sums the array left to right and divides by its length; an
      empty array divides 0.0 by 0, which is NaN. */
  method GetMean(data: array<real>) returns (mean: Double)
    ensures data.Length == 0 ==> mean == NaN
    ensures data.Length > 0 ==> mean == Finite(Mean(data[..]))
    ensures data.Length > 0 ==> mean.value * data.Length as real == Sum(data[..])
  {
    var sum := 0.0;
    var i := 0;
    while i < data.Length
      invariant 0 <= i <= data.Length
      invariant sum == Sum(data[..i])
    {
      SumPrefix(data[..], i);
      assert data[..][..i] == data[..i] && data[..][..i + 1] == data[..i + 1];
      sum := sum + data[i];
      i := i + 1;
    }
    assert data[..i] == data[..];
    if data.Length == 0 {
      return NaN;
    }
    mean := Finite(sum / data.Length as real);
  }

  /** getVariance: the mean of the squared deviations from the mean; NaN for
      an empty array. */
  method GetVariance(data: array<real>) returns (variance: Double)
    ensures data.Length == 0 ==> variance == NaN
    ensures data.Length > 0 ==> variance == Finite(Variance(data[..]))
    ensures variance.Finite? ==> variance.value >= 0.0
  {
    var mean := GetMean(data);
    if mean.NaN? {
      // every (NaN - a) * (NaN - a) and NaN / 0 is NaN again
      return NaN;
    }
    var temp := 0.0;
    var i := 0;
    while i < data.Length
      invariant 0 <= i <= data.Length
      invariant temp == SquaredDeviations(data[..i], mean.value)
    {
      assert data[..i + 1][..i] == data[..i];
      temp := temp + (mean.value - data[i]) * (mean.value - data[i]);
      i := i + 1;
    }
    assert data[..i] == data[..];
    variance := Finite(temp / data.Length as real);
    VarianceNonNegative(data[..]);
  }

  lemma SquareNonNegative(d: real)
    ensures d * d >= 0.0
  {
    if d < 0.0 {
      assert d * d == (-d) * (-d);
    }
  }

  lemma {:induction false} SquaredDeviationsNonNegative(s: seq<real>, m: real)
    ensures SquaredDeviations(s, m) >= 0.0
  {
    if |s| > 0 {
      SquaredDeviationsNonNegative(s[..|s| - 1], m);
      SquareNonNegative(m - s[|s| - 1]);
    }
  }

  /** A variance is never negative. */
  lemma VarianceNonNegative(s: seq<real>)
    requires |s| > 0
    ensures Variance(s) >= 0.0
  {
    SquaredDeviationsNonNegative(s, Mean(s));
  }

  lemma {:induction false} SquaredDeviationsFromOwnValue(s: seq<real>, c: real)
    requires forall i :: 0 <= i < |s| ==> s[i] == c
    ensures SquaredDeviations(s, c) == 0.0
  {
    if |s| > 0 {
      SquaredDeviationsFromOwnValue(s[..|s| - 1], c);
    }
  }

  /** A sample whose elements are all equal has that element as its mean and
      variance 0. */
  lemma VarianceOfConstant(s: seq<real>, c: real)
    requires |s| > 0
    requires forall i :: 0 <= i < |s| ==> s[i] == c
    ensures Mean(s) == c
    ensures Variance(s) == 0.0
  {
    SumConstant(s, c);
    SquaredDeviationsFromOwnValue(s, c);
  }

  // ---------------------------------------------------------------------------
  // Sorting and the median

  predicate Sorted(s: seq<real>)
  {
    forall i, j :: 0 <= i < j < |s| ==> s[i] <= s[j]
  }

  /** Inserting x into a sorted sequence before its first larger element. */
  function Insert(x: real, s: seq<real>): seq<real>
  {
    if |s| == 0 then [x]
    else if x <= s[0] then [x] + s
    else [s[0]] + Insert(x, s[1..])
  }

  /** The sample in ascending order. */
  function SortSeq(s: seq<real>): seq<real>
  {
    if |s| == 0 then [] else Insert(s[0], SortSeq(s[1..]))
  }

  lemma {:induction false} InsertSortedPermutation(x: real, s: seq<real>)
    requires Sorted(s)
    ensures Sorted(Insert(x, s))
    ensures multiset(Insert(x, s)) == multiset(s) + multiset{x}
    ensures |Insert(x, s)| == |s| + 1
    ensures Insert(x, s)[0] == if |s| == 0 || x <= s[0] then x else s[0]
  {
    if |s| == 0 {
    } else if x <= s[0] {
      assert Insert(x, s) == [x] + s;
    } else {
      var tail := s[1..];
      assert s == [s[0]] + tail;
      InsertSortedPermutation(x, tail);
      var r := Insert(x, tail);
      assert Insert(x, s) == [s[0]] + r;
      assert s[0] <= r[0];
    }
  }

  /** SortSeq yields an ascending permutation of its input. */
  lemma {:induction false} SortSeqSortedPermutation(s: seq<real>)
    ensures Sorted(SortSeq(s))
    ensures multiset(SortSeq(s)) == multiset(s)
    ensures |SortSeq(s)| == |s|
  {
    if |s| > 0 {
      SortSeqSortedPermutation(s[1..]);
      InsertSortedPermutation(s[0], SortSeq(s[1..]));
      assert s == [s[0]] + s[1..];
    }
  }

  /** Two ascending sequences with the same elements are equal: the order a
      sort produces does not depend on how it sorts. */
  lemma {:induction false} SortedPermutationsEqual(a: seq<real>, b: seq<real>)
    requires Sorted(a) && Sorted(b)
    requires multiset(a) == multiset(b)
    ensures a == b
  {
    if |a| == 0 {
      assert |b| == |multiset(b)| == 0;
    } else {
      assert |b| == |multiset(b)| == |multiset(a)| == |a|;
      SortedHeadsEqual(a, b);
      TailMultiset(a);
      TailMultiset(b);
      assert Sorted(a[1..]) && Sorted(b[1..]);
      SortedPermutationsEqual(a[1..], b[1..]);
      assert a == [a[0]] + a[1..];
      assert b == [b[0]] + b[1..];
    }
  }

  /** Two non-empty ascending sequences with the same elements start alike. */
  lemma SortedHeadsEqual(a: seq<real>, b: seq<real>)
    requires |a| > 0 && |b| > 0
    requires Sorted(a) && Sorted(b)
    requires multiset(a) == multiset(b)
    ensures a[0] == b[0]
  {
    assert a[0] in multiset(b);
    assert b[0] in multiset(a);
    var i :| 0 <= i < |b| && b[i] == a[0];
    var j :| 0 <= j < |a| && a[j] == b[0];
  }

  lemma TailMultiset(a: seq<real>)
    requires |a| > 0
    ensures multiset(a[1..]) == multiset(a) - multiset{a[0]}
  {
    assert a == [a[0]] + a[1..];
  }

  /** The median of an ascending sequence: the middle element for odd length,
      the average of the two middle elements for even length. */
  function MiddleOf(t: seq<real>): real
    requires |t| > 0
  {
    if |t| % 2 == 0 then (t[|t| / 2 - 1] + t[|t| / 2]) / 2.0 else t[|t| / 2]
  }

  /** The median of a sample. */
  function MedianOf(s: seq<real>): real
    requires |s| > 0
  {
    SortSeqSortedPermutation(s);
    MiddleOf(SortSeq(s))
  }

  /** The median lies between the least and the greatest element of the
      sample: some element is at most it and some element is at least it. */
  lemma MedianWithinRange(s: seq<real>)
    requires |s| > 0
    ensures exists i :: 0 <= i < |s| && s[i] <= MedianOf(s)
    ensures exists i :: 0 <= i < |s| && s[i] >= MedianOf(s)
  {
    SortSeqSortedPermutation(s);
    var t := SortSeq(s);
    var n := |t|;
    assert t[0] <= MiddleOf(t) <= t[n - 1];
    assert t[0] in multiset(s) && t[n - 1] in multiset(s);
    var lo :| 0 <= lo < |s| && s[lo] == t[0];
    var hi :| 0 <= hi < |s| && s[hi] == t[n - 1];
  }

  method Swap(a: array<real>, i: nat, j: nat)
    requires i < a.Length && j < a.Length
    modifies a
    ensures a[..] == old(a[..])[i := old(a[j])][j := old(a[i])]
    ensures multiset(a[..]) == multiset(old(a[..]))
  {
    a[i], a[j] := a[j], a[i];
  }

  /** Moves a[i] left into the sorted prefix a[..i]. */
  method InsertInPlace(a: array<real>, i: nat)
    requires i < a.Length
    requires Sorted(a[..i])
    modifies a
    ensures Sorted(a[..i + 1])
    ensures a[i + 1..] == old(a[i + 1..])
    ensures multiset(a[..]) == multiset(old(a[..]))
  {
    var j := i;
    while j > 0 && a[j - 1] > a[j]
      invariant 0 <= j <= i
      invariant forall k, l :: 0 <= k < l <= i && k != j && l != j ==> a[k] <= a[l]
      invariant forall l :: j < l <= i ==> a[j] < a[l]
      invariant a[i + 1..] == old(a[i + 1..])
      invariant multiset(a[..]) == multiset(old(a[..]))
    {
      Swap(a, j - 1, j);
      j := j - 1;
    }
  }

  /** Arrays.sort on a double[]: ascending, in place. */
  method SortInPlace(a: array<real>)
    modifies a
    ensures Sorted(a[..])
    ensures multiset(a[..]) == multiset(old(a[..]))
  {
    var i := 0;
    while i < a.Length
      invariant 0 <= i <= a.Length
      invariant Sorted(a[..i])
      invariant multiset(a[..]) == multiset(old(a[..]))
    {
      InsertInPlace(a, i);
      i := i + 1;
    }
    assert a[..i] == a[..];
  }

  /** median: sorts a fresh copy of the sample (the argument is left as it
      is) and takes its middle.  An empty array has even length and is
      indexed at -1, which throws ArrayIndexOutOfBoundsException. */
  method Median(data: array<real>) returns (r: Result<real>)
    ensures data.Length == 0 ==> r == Err(IndexOutOfBounds)
    ensures data.Length > 0 ==> r == Ok(MedianOf(data[..]))
    ensures data.Length > 0 ==> r.value == MiddleOf(SortSeq(data[..]))
  {
    var b := CopyOf(data);
    SortInPlace(b);
    if b.Length == 0 {
      // b[(b.length / 2) - 1] is b[-1]
      return Err(IndexOutOfBounds);
    }
    ghost var sorted := b[..];
    SortSeqSortedPermutation(data[..]);
    SortedPermutationsEqual(sorted, SortSeq(data[..]));
    if b.Length % 2 == 0 {
      r := Ok((b[(b.Length / 2) - 1] + b[b.Length / 2]) / 2.0);
    } else {
      r := Ok(b[b.Length / 2]);
    }
    assert r.value == MiddleOf(sorted);
  }

  /** data.clone(): a fresh array with the same elements. */
  method CopyOf(data: array<real>) returns (b: array<real>)
    ensures fresh(b) && b[..] == data[..]
  {
    b := new real[data.Length];
    var i := 0;
    while i < b.Length
      invariant 0 <= i <= b.Length
      invariant b[..i] == data[..i]
    {
      b[i] := data[i];
      i := i + 1;
    }
    assert b[..i] == b[..] && data[..i] == data[..];
  }
}
