/**
  `calculateMedianPrice`: sort the decoded prices ascending and take the middle
  one, or the mean of the two middle ones for an even count; 0 for no prices.
  Prices are exact reals, so the even-count mean is exact.
 */
module Median {

  predicate Sorted(s: seq<real>) {
    forall i, j :: 0 <= i < j < |s| ==> s[i] <= s[j]
  }

  /** x placed into an ascending sequence at its place. */
  function Insert(x: real, s: seq<real>): (r: seq<real>)
    requires Sorted(s)
    ensures |r| == |s| + 1 && Sorted(r) && multiset(r) == multiset(s) + multiset{x}
  {
    if s == [] || x <= s[0] then
      SortedCons(x, s);
      [x] + s
    else
      var tail := Insert(x, s[1..]);
      assert multiset(s) == multiset{s[0]} + multiset(s[1..]) by { assert s == [s[0]] + s[1..]; }
      LowerBoundOfInsert(s, x, tail);
      SortedCons(s[0], tail);
      [s[0]] + tail
  }

  /** A least element put in front of an ascending sequence keeps it ascending. */
  lemma SortedCons(h: real, t: seq<real>)
    requires Sorted(t) && (t == [] || h <= t[0])
    ensures Sorted([h] + t)
  {
  }

  /** What x is inserted into after the head of s stays at or above that head. */
  lemma LowerBoundOfInsert(s: seq<real>, x: real, tail: seq<real>)
    requires Sorted(s) && s != [] && s[0] < x
    requires tail != [] && multiset(tail) == multiset(s[1..]) + multiset{x}
    ensures s[0] <= tail[0]
  {
    assert tail[0] in multiset(tail);
    if tail[0] != x {
      assert tail[0] in multiset(s[1..]);
      assert tail[0] in s[1..];
    }
  }

  function Sort(s: seq<real>): (r: seq<real>)
    ensures |r| == |s| && Sorted(r) && multiset(r) == multiset(s)
  {
    if s == [] then []
    else
      assert multiset(s) == multiset(s[1..]) + multiset{s[0]} by { assert s == [s[0]] + s[1..]; }
      Insert(s[0], Sort(s[1..]))
  }

  /** The median of the values: 0 when there are none. */
  function Median(values: seq<real>): (m: real)
    ensures |values| == 0 ==> m == 0.0
    ensures |values| > 0 ==> exists lo, hi :: lo in values && hi in values && lo <= m <= hi
  {
    var v := Sort(values);
    var n := |v|;
    if n == 0 then 0.0
    else
      assert v[0] in multiset(values) && v[n - 1] in multiset(values);
      assert v[0] in values && v[n - 1] in values;
      if n % 2 == 0 then
        assert v[0] <= v[n / 2 - 1] <= v[n / 2] <= v[n - 1];
        (v[n / 2 - 1] + v[n / 2]) / 2.0
      else
        assert v[0] <= v[n / 2] <= v[n - 1];
        v[n / 2]
  }

  /** The head of an ascending sequence is at most any of its elements. */
  lemma SortedHeadIsLeast(s: seq<real>, x: real)
    requires Sorted(s) && x in multiset(s)
    ensures s[0] <= x
  {
    var i :| 0 <= i < |s| && s[i] == x;
  }

  lemma SortedTail(s: seq<real>)
    requires Sorted(s) && s != []
    ensures Sorted(s[1..])
  {
    assert forall i, j :: 0 <= i < j < |s| - 1 ==> s[1..][i] == s[i + 1] && s[1..][j] == s[j + 1];
  }

  lemma TailMultiset(s: seq<real>)
    requires s != []
    ensures multiset(s[1..]) == multiset(s) - multiset{s[0]}
  {
    assert s == [s[0]] + s[1..];
  }

  /** Two ascending sequences with the same elements are the same sequence: sorting has one answer. */
  lemma {:induction false} SortedUnique(a: seq<real>, b: seq<real>)
    requires Sorted(a) && Sorted(b) && multiset(a) == multiset(b)
    ensures a == b
  {
    if a != [] || b != [] {
      SortedSameHead(a, b);
      SortedUnique(a[1..], b[1..]);
      assert a == [a[0]] + a[1..] && b == [b[0]] + b[1..];
    }
  }

  /** Two non-empty ascending sequences with the same elements share their head, and their tails are alike again. */
  lemma SortedSameHead(a: seq<real>, b: seq<real>)
    requires Sorted(a) && Sorted(b) && multiset(a) == multiset(b) && (a != [] || b != [])
    ensures a != [] && b != [] && a[0] == b[0]
    ensures Sorted(a[1..]) && Sorted(b[1..]) && multiset(a[1..]) == multiset(b[1..])
  {
    assert |a| == |multiset(a)| == |multiset(b)| == |b|;
    assert a[0] in multiset(a) && b[0] in multiset(b);
    SortedHeadIsLeast(a, b[0]);
    SortedHeadIsLeast(b, a[0]);
    TailMultiset(a);
    TailMultiset(b);
    SortedTail(a);
    SortedTail(b);
  }

  /** The median does not depend on the order of the values. */
  lemma MedianOrderIndependent(s: seq<real>, t: seq<real>)
    requires multiset(s) == multiset(t)
    ensures Median(s) == Median(t)
  {
    SortedUnique(Sort(s), Sort(t));
  }

  /** How many of the values are at most m. */
  function CountAtMost(s: seq<real>, m: real): (c: nat)
    ensures c <= |s|
  {
    if s == [] then 0 else (if s[0] <= m then 1 else 0) + CountAtMost(s[1..], m)
  }

  /** How many of the values are at least m. */
  function CountAtLeast(s: seq<real>, m: real): (c: nat)
    ensures c <= |s|
  {
    if s == [] then 0 else (if s[0] >= m then 1 else 0) + CountAtLeast(s[1..], m)
  }

  lemma {:induction false} CountConcat(a: seq<real>, b: seq<real>, m: real)
    ensures CountAtMost(a + b, m) == CountAtMost(a, m) + CountAtMost(b, m)
    ensures CountAtLeast(a + b, m) == CountAtLeast(a, m) + CountAtLeast(b, m)
  {
    if a != [] {
      assert (a + b)[1..] == a[1..] + b;
      CountConcat(a[1..], b, m);
    } else {
      assert a + b == b;
    }
  }

  lemma {:induction false} CountInsert(x: real, s: seq<real>, m: real)
    requires Sorted(s)
    ensures CountAtMost(Insert(x, s), m) == CountAtMost(s, m) + (if x <= m then 1 else 0)
    ensures CountAtLeast(Insert(x, s), m) == CountAtLeast(s, m) + (if x >= m then 1 else 0)
  {
    if s == [] || x <= s[0] {
      assert (([x] + s)[1..]) == s;
    } else {
      var r := Insert(x, s);
      assert r[1..] == Insert(x, s[1..]);
      CountInsert(x, s[1..], m);
    }
  }

  /** Sorting keeps every count. */
  lemma {:induction false} CountSort(s: seq<real>, m: real)
    ensures CountAtMost(Sort(s), m) == CountAtMost(s, m)
    ensures CountAtLeast(Sort(s), m) == CountAtLeast(s, m)
  {
    if s != [] {
      CountSort(s[1..], m);
      CountInsert(s[0], Sort(s[1..]), m);
    }
  }

  lemma {:induction false} CountAllAtMost(s: seq<real>, m: real)
    requires forall i :: 0 <= i < |s| ==> s[i] <= m
    ensures CountAtMost(s, m) == |s|
  {
    if s != [] { CountAllAtMost(s[1..], m); }
  }

  lemma {:induction false} CountAllAtLeast(s: seq<real>, m: real)
    requires forall i :: 0 <= i < |s| ==> s[i] >= m
    ensures CountAtLeast(s, m) == |s|
  {
    if s != [] { CountAllAtLeast(s[1..], m); }
  }

  /** In ascending values, the first k are at most m when the k-th is. */
  lemma SortedPrefixAtMost(v: seq<real>, k: nat, m: real)
    requires Sorted(v) && 0 < k <= |v| && v[k - 1] <= m
    ensures CountAtMost(v, m) >= k
  {
    var low := v[..k];
    assert forall i :: 0 <= i < |low| ==> low[i] <= m by {
      forall i | 0 <= i < |low| ensures low[i] <= m { assert low[i] == v[i] <= v[k - 1]; }
    }
    CountAllAtMost(low, m);
    assert v == low + v[k..];
    CountConcat(low, v[k..], m);
  }

  /** In ascending values, the ones from index k on are at least m when the k-th is. */
  lemma SortedSuffixAtLeast(v: seq<real>, k: nat, m: real)
    requires Sorted(v) && k < |v| && v[k] >= m
    ensures CountAtLeast(v, m) >= |v| - k
  {
    var high := v[k..];
    assert forall i :: 0 <= i < |high| ==> high[i] >= m by {
      forall i | 0 <= i < |high| ensures high[i] >= m { assert high[i] == v[k + i] >= v[k]; }
    }
    CountAllAtLeast(high, m);
    assert v == v[..k] + high;
    CountConcat(v[..k], high, m);
  }

  /**
    The median is the middle sorted value for an odd count and the mean of the
    two middle sorted values for an even count.
   */
  lemma MedianOfMiddles(values: seq<real>)
    requires |values| > 0
    ensures var v, n := Sort(values), |values|;
      && (n % 2 == 1 ==> Median(values) == v[n / 2])
      && (n % 2 == 0 ==> Median(values) == (v[n / 2 - 1] + v[n / 2]) / 2.0)
  {
  }

  /** Hence the median lies between the two middle sorted values. */
  lemma MedianBetweenMiddles(values: seq<real>)
    requires |values| > 0
    ensures var v, n := Sort(values), |values|;
      var lowMiddle := if n % 2 == 0 then n / 2 - 1 else n / 2;
      v[lowMiddle] <= Median(values) <= v[n / 2]
  {
    var v, n := Sort(values), |values|;
    MedianOfMiddles(values);
    if n % 2 == 0 {
      assert v[n / 2 - 1] <= v[n / 2];
    }
  }

  /** Two prices: their mean. */
  lemma MedianOfTwo()
    ensures Median([10.0, 20.0]) == 15.0
  {
    assert Sorted([10.0, 20.0]);
    SortedUnique(Sort([10.0, 20.0]), [10.0, 20.0]);
    MedianOfMiddles([10.0, 20.0]);
  }

  /**
    Reference definition of a median: at least half of the values are at most
    the result, and at least half are at least the result.
   */
  lemma MedianSplitsValues(values: seq<real>)
    requires |values| > 0
    ensures 2 * CountAtMost(values, Median(values)) >= |values|
    ensures 2 * CountAtLeast(values, Median(values)) >= |values|
  {
    var v := Sort(values);
    var n := |v|;
    var m := Median(values);
    MedianBetweenMiddles(values);
    if n % 2 == 0 {
      SortedPrefixAtMost(v, n / 2, m);
    } else {
      SortedPrefixAtMost(v, n / 2 + 1, m);
    }
    SortedSuffixAtLeast(v, n / 2, m);
    CountSort(values, m);
  }
}
