/** Facts about sequences of numbers that the mean and the median rest on:
    the running total that Python's `sum` computes, counting the elements that
    satisfy a predicate, the least and greatest element, and the fact that all
    of these depend only on the multiset of the elements, not on their order. */
module Sequences {

  /** Python's `sum(data)`: a left fold that starts at 0 and adds the
      elements from first to last. */
  function Sum(s: seq<real>): real
  {
    if |s| == 0 then 0.0 else Sum(s[..|s| - 1]) + s[|s| - 1]
  }

  /** Each element's deviation `s[i] - c` from a centre `c`, in order. */
  function Deviations(s: seq<real>, c: real): (r: seq<real>)
    ensures |r| == |s|
  {
    if |s| == 0 then [] else Deviations(s[..|s| - 1], c) + [s[|s| - 1] - c]
  }

  /** The number of elements of `s` that satisfy `p`. */
  function Count(s: seq<real>, p: real -> bool): nat
  {
    if |s| == 0 then 0 else (if p(s[0]) then 1 else 0) + Count(s[1..], p)
  }

  /** The predicate "at most v" as a value, so that counts against it can be named. */
  function AtMost(v: real): real -> bool
  {
    y => y <= v
  }

  /** The predicate "at least v" as a value. */
  function AtLeast(v: real): real -> bool
  {
    y => y >= v
  }

  /** The least element of a non-empty sequence. */
  function Min(s: seq<real>): (r: real)
    requires |s| > 0
    ensures r in s
    ensures forall i :: 0 <= i < |s| ==> r <= s[i]
  {
    if |s| == 1 then s[0]
    else
      var m := Min(s[1..]);
      if s[0] <= m then s[0] else m
  }

  /** The greatest element of a non-empty sequence. */
  function Max(s: seq<real>): (r: real)
    requires |s| > 0
    ensures r in s
    ensures forall i :: 0 <= i < |s| ==> s[i] <= r
  {
    if |s| == 1 then s[0]
    else
      var m := Max(s[1..]);
      if s[0] >= m then s[0] else m
  }

  /** The sum of a concatenation is the sum of its parts. */
  lemma {:induction false} SumConcat(a: seq<real>, b: seq<real>)
    ensures Sum(a + b) == Sum(a) + Sum(b)
    decreases |b|
  {
    if |b| == 0 {
      assert a + b == a;
    } else {
      var b' := b[..|b| - 1];
      assert (a + b)[..|a + b| - 1] == a + b';
      SumConcat(a, b');
    }
  }

  /** The count over a concatenation is the count over its parts. */
  lemma {:induction false} CountConcat(a: seq<real>, b: seq<real>, p: real -> bool)
    ensures Count(a + b, p) == Count(a, p) + Count(b, p)
    decreases |a|
  {
    if |a| == 0 {
      assert a + b == b;
    } else {
      assert (a + b)[1..] == a[1..] + b;
      CountConcat(a[1..], b, p);
    }
  }

  /** Two sequences with the same multiset: the first element of one sits at
      some index of the other, and the rests are again permutations. */
  lemma MatchFirst(a: seq<real>, b: seq<real>) returns (i: nat)
    requires |a| > 0 && multiset(a) == multiset(b)
    ensures i < |b| && b[i] == a[0]
    ensures multiset(a[1..]) == multiset(b[..i] + b[i + 1..])
  {
    assert a == [a[0]] + a[1..];
    assert a[0] in multiset(b);
    i :| 0 <= i < |b| && b[i] == a[0];
    assert b == b[..i] + [b[i]] + b[i + 1..];
    assert multiset(b) == multiset(b[..i]) + multiset{b[i]} + multiset(b[i + 1..]);
    assert multiset(a) == multiset{a[0]} + multiset(a[1..]);
    assert multiset(a[1..]) == multiset(a) - multiset{a[0]};
    assert multiset(b[..i] + b[i + 1..]) == multiset(b[..i]) + multiset(b[i + 1..]);
    assert multiset(b[..i] + b[i + 1..]) == multiset(b) - multiset{b[i]};
  }

  /** `sum` does not depend on the order of the elements. */
  lemma {:induction false} SumPermutation(a: seq<real>, b: seq<real>)
    requires multiset(a) == multiset(b)
    ensures Sum(a) == Sum(b)
    decreases |a|
  {
    if |a| == 0 {
      assert |b| == |multiset(b)| == 0;
    } else {
      var i := MatchFirst(a, b);
      var rest := b[..i] + b[i + 1..];
      SumPermutation(a[1..], rest);
      assert a == [a[0]] + a[1..];
      SumConcat([a[0]], a[1..]);
      assert Sum([a[0]]) == Sum([]) + a[0];
      assert b == (b[..i] + [b[i]]) + b[i + 1..];
      SumConcat(b[..i] + [b[i]], b[i + 1..]);
      SumConcat(b[..i], [b[i]]);
      assert Sum([b[i]]) == Sum([]) + b[i];
      SumConcat(b[..i], b[i + 1..]);
    }
  }

  /** A count does not depend on the order of the elements. */
  lemma {:induction false} CountPermutation(a: seq<real>, b: seq<real>, p: real -> bool)
    requires multiset(a) == multiset(b)
    ensures Count(a, p) == Count(b, p)
    decreases |a|
  {
    if |a| == 0 {
      assert |b| == |multiset(b)| == 0;
    } else {
      var i := MatchFirst(a, b);
      var rest := b[..i] + b[i + 1..];
      CountPermutation(a[1..], rest, p);
      assert b == b[..i] + ([b[i]] + b[i + 1..]);
      CountConcat(b[..i], [b[i]] + b[i + 1..], p);
      CountConcat([b[i]], b[i + 1..], p);
      CountConcat(b[..i], b[i + 1..], p);
    }
  }

  /** If every element of `s` satisfies `p`, the count is the length. */
  lemma {:induction false} CountAll(s: seq<real>, p: real -> bool)
    requires forall i :: 0 <= i < |s| ==> p(s[i])
    ensures Count(s, p) == |s|
    decreases |s|
  {
    if |s| > 0 {
      CountAll(s[1..], p);
    }
  }

  /** If every element in the index range [lo, hi) satisfies `p`, at least
      hi - lo elements do. */
  lemma CountRange(s: seq<real>, p: real -> bool, lo: nat, hi: nat)
    requires lo <= hi <= |s|
    requires forall i :: lo <= i < hi ==> p(s[i])
    ensures Count(s, p) >= hi - lo
  {
    assert s == s[..lo] + (s[lo..hi] + s[hi..]);
    CountConcat(s[..lo], s[lo..hi] + s[hi..], p);
    CountConcat(s[lo..hi], s[hi..], p);
    CountAll(s[lo..hi], p);
  }

  /** A sum of |s| terms, each between lo and hi, lies between |s| * lo and |s| * hi. */
  lemma {:induction false} SumBounds(s: seq<real>, lo: real, hi: real)
    requires forall i :: 0 <= i < |s| ==> lo <= s[i] <= hi
    ensures (|s| as real) * lo <= Sum(s) <= (|s| as real) * hi
    decreases |s|
  {
    if |s| > 0 {
      var n := (|s| - 1) as real;
      SumBounds(s[..|s| - 1], lo, hi);
      assert (|s| as real) * lo == n * lo + lo;
      assert (|s| as real) * hi == n * hi + hi;
    }
  }

  /** The deviations from `c` add up to the sum less |s| copies of `c`. */
  lemma SumDeviations(s: seq<real>, c: real)
    ensures Sum(Deviations(s, c)) == Sum(s) - (|s| as real) * c
  {
    SumDeviationsCopies(s, c);
    CopiesIsProduct(|s|, c);
  }

  /** `c` added to itself `n` times, starting from 0. */
  function Copies(n: nat, c: real): real
  {
    if n == 0 then 0.0 else Copies(n - 1, c) + c
  }

  /** Adding up `n` copies of `c` gives n * c. */
  lemma {:induction false} CopiesIsProduct(n: nat, c: real)
    ensures Copies(n, c) == (n as real) * c
  {
    if n > 0 {
      var k := (n - 1) as real;
      CopiesIsProduct(n - 1, c);
      assert (n as real) * c == k * c + c;
    }
  }

  /** SumDeviations with the product written as repeated addition. */
  lemma {:induction false} SumDeviationsCopies(s: seq<real>, c: real)
    ensures Sum(Deviations(s, c)) == Sum(s) - Copies(|s|, c)
    decreases |s|
  {
    if |s| > 0 {
      SumDeviationsCopies(s[..|s| - 1], c);
      SumDeviationsLast(s, c);
    }
  }

  /** The last element contributes its own deviation to the total. */
  lemma SumDeviationsLast(s: seq<real>, c: real)
    requires |s| > 0
    ensures Sum(Deviations(s, c)) == Sum(Deviations(s[..|s| - 1], c)) + (s[|s| - 1] - c)
  {
    assert Deviations(s, c)[..|s| - 1] == Deviations(s[..|s| - 1], c);
  }

  /** If every element lies between lo and hi, so does Sum(s) / |s|. */
  lemma AverageBounds(s: seq<real>, lo: real, hi: real)
    requires |s| >= 1
    requires forall i :: 0 <= i < |s| ==> lo <= s[i] <= hi
    ensures lo <= Sum(s) / (|s| as real) <= hi
  {
    SumBounds(s, lo, hi);
    QuotientBounds(Sum(s), |s| as real, lo, hi);
  }

  /** A total between n * lo and n * hi, divided by n > 0, lies between lo and hi. */
  lemma QuotientBounds(total: real, n: real, lo: real, hi: real)
    requires n > 0.0
    requires n * lo <= total <= n * hi
    ensures lo <= total / n <= hi
  {
    var q := total / n;
    assert n * q == total;
    assert n * (q - lo) >= 0.0;
    assert n * (hi - q) >= 0.0;
  }
}
