/** The two statistics of function_practice.py: `get_mean` and `get_median`
    over a list of numbers, each with its failure on the empty list. */
module FunctionPractice {
  import opened Sequences
  import opened Sorting

  /** The Python exceptions the two functions raise on an empty list. */
  datatype Error = ZeroDivisionError | IndexError

  datatype Result<T> = Success(value: T) | Failure(error: Error)

  /** `list(range(0, n, 1))`: the numbers 0, 1, ..., n - 1 in order. */
  function Range(n: nat): (r: seq<real>)
    ensures |r| == n
  {
    if n == 0 then [] else Range(n - 1) + [(n - 1) as real]
  }

  /** The sample list `x` that the module builds and passes to both functions. */
  function SampleInput(): seq<real>
  {
    Range(10)
  }

  /** Python's `s[i]` on a list: an index below zero counts from the end, and
      an index outside [-len(s), len(s)) raises IndexError. */
  function PyIndex(s: seq<real>, i: int): (r: Result<real>)
    ensures r.Success? <==> -|s| <= i < |s|
  {
    if 0 <= i < |s| then Success(s[i])
    else if -|s| <= i < 0 then Success(s[|s| + i])
    else Failure(IndexError)
  }

  /** `get_mean(data)`: `sum(data) / len(data)`; dividing by a zero length
      raises ZeroDivisionError. */
  function GetMean(data: seq<real>): Result<real>
  {
    if |data| == 0 then Failure(ZeroDivisionError)
    else Success(Sum(data) / (|data| as real))
  }

  /** Lines 23-28 of `get_median`, applied to the sorted copy: n // 2 is
      the middle index; odd n gives the element there, even n the average
      of the elements at mid_index - 1 and mid_index. The left operand of
      `+` is indexed first, so its IndexError is the one raised. */
  function MiddleOf(sortedData: seq<real>): Result<real>
  {
    var n := |sortedData|;
    var midIndex := n / 2;
    if n % 2 == 0 then
      var lower := PyIndex(sortedData, midIndex - 1);
      var upper := PyIndex(sortedData, midIndex);
      if lower.Failure? then Failure(lower.error)
      else if upper.Failure? then Failure(upper.error)
      else Success((lower.value + upper.value) / 2.0)
    else
      PyIndex(sortedData, midIndex)
  }

  /** `get_median(data)`: the middle of a sorted copy of `data`. Ghost,
      because the sorted copy is given by what `sorted` promises. */
  ghost function GetMedian(data: seq<real>): Result<real>
  {
    MiddleOf(Sort(data))
  }

  /** Both functions fail exactly on the empty list: the mean by dividing by
      zero, the median by indexing sorted_data[-1] of an empty list. */
  lemma EmptyInputFails(s: seq<real>)
    ensures GetMean(s).Failure? <==> |s| == 0
    ensures GetMedian(s).Failure? <==> |s| == 0
    ensures |s| == 0 ==> GetMean(s).error == ZeroDivisionError
    ensures |s| == 0 ==> GetMedian(s).error == IndexError
  {
  }

  /** On a non-empty list the mean is the number that, taken len(data)
      times, gives the sum. */
  lemma MeanIsAverage(s: seq<real>)
    requires |s| >= 1
    ensures GetMean(s).Success?
    ensures (|s| as real) * GetMean(s).value == Sum(s)
  {
  }

  /** The mean is the balance point of the list: the deviations of the
      values from it add up to zero. */
  lemma MeanBalances(s: seq<real>, m: real)
    requires GetMean(s) == Success(m)
    ensures Sum(Deviations(s, m)) == 0.0
  {
    SumDeviations(s, m);
    MeanIsAverage(s);
  }

  /** The mean depends only on the multiset of values, not on their order. */
  lemma MeanPermutation(a: seq<real>, b: seq<real>)
    requires multiset(a) == multiset(b)
    ensures GetMean(a) == GetMean(b)
  {
    assert |a| == |multiset(a)| == |multiset(b)| == |b|;
    SumPermutation(a, b);
  }

  /** The mean lies between the least and the greatest value. */
  lemma MeanBetweenMinMax(s: seq<real>)
    requires |s| >= 1
    ensures GetMean(s).Success?
    ensures Min(s) <= GetMean(s).value <= Max(s)
  {
    AverageBounds(s, Min(s), Max(s));
  }

  /** For n >= 1 the negative-index path of Python indexing is never taken:
      odd n gives the middle element of the sorted copy, even n the average
      of the two central ones. */
  lemma MedianRule(s: seq<real>)
    requires |s| >= 1
    ensures |s| % 2 == 1 ==> GetMedian(s) == Success(Sort(s)[|s| / 2])
    ensures |s| % 2 == 0 ==>
      GetMedian(s) == Success((Sort(s)[|s| / 2 - 1] + Sort(s)[|s| / 2]) / 2.0)
  {
  }

  /** The median depends only on the multiset of values: only the sorted
      copy is indexed. */
  lemma MedianPermutation(a: seq<real>, b: seq<real>)
    requires multiset(a) == multiset(b)
    ensures GetMedian(a) == GetMedian(b)
  {
    SortPermutation(a, b);
  }

  /** For odd n the median is one of the input values. */
  lemma MedianOddIsElement(s: seq<real>)
    requires |s| % 2 == 1
    ensures GetMedian(s).Success?
    ensures GetMedian(s).value in s
  {
    var t := Sort(s);
    assert t[|s| / 2] in multiset(t);
  }

  /** The median splits the input in half: at least half of the values,
      rounded up, are at most the median, and at least as many are at least
      the median. For odd n that is n // 2 + 1 on each side. */
  lemma MedianSplitsInput(s: seq<real>)
    requires |s| >= 1
    ensures GetMedian(s).Success?
    ensures Count(s, AtMost(GetMedian(s).value)) >= (|s| + 1) / 2
    ensures Count(s, AtLeast(GetMedian(s).value)) >= (|s| + 1) / 2
  {
    var t := Sort(s);
    var n, m := |s|, |s| / 2;
    var v := GetMedian(s).value;
    CountPermutation(s, t, AtMost(v));
    CountPermutation(s, t, AtLeast(v));
    if n % 2 == 1 {
      assert v == t[m];
      CountRange(t, AtMost(v), 0, m + 1);
      CountRange(t, AtLeast(v), m, n);
    } else {
      assert t[m - 1] <= v <= t[m];
      CountRange(t, AtMost(v), 0, m);
      CountRange(t, AtLeast(v), m, n);
    }
  }

  /** The median lies between the least and the greatest value. */
  lemma MedianBetweenMinMax(s: seq<real>)
    requires |s| >= 1
    ensures GetMedian(s).Success?
    ensures Min(s) <= GetMedian(s).value <= Max(s)
  {
    var t := Sort(s);
    forall k | 0 <= k < |t|
      ensures Min(s) <= t[k] <= Max(s)
    {
      assert t[k] in multiset(t);
      var i :| 0 <= i < |s| && s[i] == t[k];
    }
  }

  /** A non-empty list whose values are all `x` (such as [7] or
      [2, 2, 2, 2]) has `x` as both its mean and its median. */
  lemma ConstantMeanMedian(s: seq<real>, x: real)
    requires |s| >= 1
    requires forall i :: 0 <= i < |s| ==> s[i] == x
    ensures GetMean(s) == Success(x)
    ensures GetMedian(s) == Success(x)
  {
    AverageBounds(s, x, x);
    var t := Sort(s);
    forall k | 0 <= k < |t|
      ensures t[k] == x
    {
      assert t[k] in multiset(s);
    }
  }

  /** Sum of 0, 1, ..., n - 1 is n * (n - 1) / 2. */
  lemma {:induction false} SumRange(n: nat)
    ensures 2.0 * Sum(Range(n)) == (n as real) * (n as real - 1.0)
  {
    if n > 0 {
      var k := (n - 1) as real;
      SumRange(n - 1);
      SumRangeStep(n);
      assert k * (k - 1.0) + 2.0 * k == (k + 1.0) * k;
    }
  }

  /** Range(n) is Range(n - 1) followed by n - 1. */
  lemma SumRangeStep(n: nat)
    requires n > 0
    ensures Sum(Range(n)) == Sum(Range(n - 1)) + (n - 1) as real
  {
    assert Range(n)[..n - 1] == Range(n - 1);
  }

  /** Range(n) holds i at index i, so it is already ascending. */
  lemma {:induction false} RangeAt(n: nat)
    ensures forall i :: 0 <= i < n ==> Range(n)[i] == i as real
  {
    if n > 0 {
      RangeAt(n - 1);
    }
  }

  /** The module's call `get_mean(x)` on x = [0, ..., 9] gives 45 / 10 = 4.5. */
  lemma SampleMean()
    ensures GetMean(SampleInput()) == Success(4.5)
  {
    SumRange(10);
  }

  /** The module's call `get_median(x)` on x = [0, ..., 9]: x is already
      sorted, n = 10 is even, and the result is (x[4] + x[5]) / 2 = 4.5. */
  lemma SampleMedian()
    ensures GetMedian(SampleInput()) == Success(4.5)
  {
    var x := SampleInput();
    RangeAt(10);
    SortIsUnique(x, x);
    assert x[4] == 4.0 && x[5] == 5.0;
  }

  /** An unsorted odd-length list: the median of [5, 3, 1] is the middle of
      its sorted copy [1, 3, 5]. */
  lemma UnsortedOddExample()
    ensures GetMedian([5.0, 3.0, 1.0]) == Success(3.0)
  {
    var s, t := [5.0, 3.0, 1.0], [1.0, 3.0, 5.0];
    assert multiset(t) == multiset(s);
    SortIsUnique(s, t);
  }
}
