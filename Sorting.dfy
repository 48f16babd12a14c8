/** The sorted copy that `get_median` takes with Python's `sorted`: an
    ascending permutation of the input. Python uses Timsort; the model
    specifies the result only by what `sorted` promises, shows with an
    insertion sort that such a permutation exists, and shows with
    SortIsUnique that there is only one, so every sorting algorithm yields
    the same copy. */
module Sorting {

  /** Every element is at most every later element. */
  predicate Ascending(s: seq<real>)
  {
    forall i, j :: 0 <= i < j < |s| ==> s[i] <= s[j]
  }

  /** Puts `x` into an ascending sequence at its place. */
  function Insert(x: real, s: seq<real>): (r: seq<real>)
    requires Ascending(s)
    ensures Ascending(r)
    ensures multiset(r) == multiset(s) + multiset{x}
  {
    if |s| == 0 then [x]
    else if x <= s[0] then
      PrependAscending(x, s);
      [x] + s
    else
      var t := Insert(x, s[1..]);
      HeadBoundsInsert(x, s, t);
      PrependAscending(s[0], t);
      assert s == [s[0]] + s[1..];
      [s[0]] + t
  }

  /** An ascending sequence stays ascending with a smaller element in front. */
  lemma PrependAscending(h: real, t: seq<real>)
    requires Ascending(t)
    requires forall k :: 0 <= k < |t| ==> h <= t[k]
    ensures Ascending([h] + t)
  {
    var r := [h] + t;
    forall i, j | 0 <= i < j < |r|
      ensures r[i] <= r[j]
    {
      if i > 0 {
        assert r[i] == t[i - 1] && r[j] == t[j - 1];
      } else {
        assert r[j] == t[j - 1];
      }
    }
  }

  /** When `x` goes after the head of `s`, every element of the rest,
      `x` included, is at least that head. */
  lemma HeadBoundsInsert(x: real, s: seq<real>, t: seq<real>)
    requires Ascending(s) && |s| > 0 && s[0] < x
    requires multiset(t) == multiset(s[1..]) + multiset{x}
    ensures forall k :: 0 <= k < |t| ==> s[0] <= t[k]
  {
    forall k | 0 <= k < |t|
      ensures s[0] <= t[k]
    {
      assert t[k] in multiset(t);
      if t[k] != x {
        assert t[k] in multiset(s[1..]);
        var i :| 0 <= i < |s| - 1 && s[1..][i] == t[k];
        assert s[i + 1] == t[k];
      }
    }
  }

  /** Insertion sort: builds an ascending copy of `s`, holding the same
      elements as often as `s` does. */
  function InsertionSort(s: seq<real>): (r: seq<real>)
    ensures Ascending(r)
    ensures multiset(r) == multiset(s)
  {
    if |s| == 0 then []
    else
      assert s == [s[0]] + s[1..];
      Insert(s[0], InsertionSort(s[1..]))
  }

  /** Python's `sorted(s)`: a fresh ascending copy of `s` with the same
      elements, as often as `s` has them. */
  ghost function Sort(s: seq<real>): (r: seq<real>)
    ensures Ascending(r)
    ensures multiset(r) == multiset(s)
    ensures |r| == |s|
  {
    var byInsertion := InsertionSort(s);
    assert Ascending(byInsertion) && multiset(byInsertion) == multiset(s);
    var r :| Ascending(r) && multiset(r) == multiset(s);
    assert |r| == |multiset(r)| == |multiset(s)| == |s|;
    r
  }

  /** Two ascending sequences with the same elements are equal. */
  lemma {:induction false} AscendingUnique(a: seq<real>, b: seq<real>)
    requires Ascending(a) && Ascending(b)
    requires multiset(a) == multiset(b)
    ensures a == b
    decreases |a|
  {
    assert |a| == |multiset(a)| == |multiset(b)| == |b|;
    if |a| > 0 {
      SameHead(a, b);
      assert a == [a[0]] + a[1..];
      assert b == [b[0]] + b[1..];
      assert multiset(a[1..]) == multiset(a) - multiset{a[0]};
      assert multiset(b[1..]) == multiset(b) - multiset{b[0]};
      AscendingUnique(a[1..], b[1..]);
    }
  }

  /** Two non-empty ascending sequences with the same elements start with
      the same, least, element. */
  lemma SameHead(a: seq<real>, b: seq<real>)
    requires Ascending(a) && Ascending(b)
    requires multiset(a) == multiset(b) && |a| > 0 && |b| > 0
    ensures a[0] == b[0]
  {
    assert a[0] in multiset(b) && b[0] in multiset(a);
    var j :| 0 <= j < |b| && b[j] == a[0];
    var k :| 0 <= k < |a| && a[k] == b[0];
  }

  /** Any ascending permutation of `s` is Sort(s): whatever algorithm produces
      the sorted copy, it produces this one (insertion sort included). */
  lemma SortIsUnique(s: seq<real>, r: seq<real>)
    requires Ascending(r) && multiset(r) == multiset(s)
    ensures r == Sort(s)
  {
    AscendingUnique(r, Sort(s));
  }

  /** The computable insertion sort yields exactly the specified sorted copy. */
  lemma InsertionSortIsSort(s: seq<real>)
    ensures InsertionSort(s) == Sort(s)
  {
    SortIsUnique(s, InsertionSort(s));
  }

  /** Sorting depends only on the multiset of the input. */
  lemma SortPermutation(a: seq<real>, b: seq<real>)
    requires multiset(a) == multiset(b)
    ensures Sort(a) == Sort(b)
  {
    AscendingUnique(Sort(a), Sort(b));
  }
}
