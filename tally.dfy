/**
 * Counting, as pandas' `value_counts`, `groupby(...).size()` and `nunique`
 * do it: how often a value occurs, the distinct values in order of first
 * occurrence, and totals of counts.
 */
module Tally {
  import opened Sorting

  function Count<T(==)>(xs: seq<T>, x: T): (n: nat)
    ensures n == multiset(xs)[x]
  {
    if xs == [] then 0
    else
      assert xs == xs[..|xs| - 1] + [xs[|xs| - 1]];
      Count(xs[..|xs| - 1], x) + (if xs[|xs| - 1] == x then 1 else 0)
  }

  predicate NoDuplicates<T(==)>(s: seq<T>) {
    forall i, j :: 0 <= i < j < |s| ==> s[i] != s[j]
  }

  /** The distinct values of `xs` in order of first occurrence. */
  function Distinct<T(==)>(xs: seq<T>): (d: seq<T>)
    ensures NoDuplicates(d)
    ensures forall i :: 0 <= i < |d| ==> d[i] in xs
    ensures forall i :: 0 <= i < |xs| ==> xs[i] in d
    ensures |d| <= |xs|
  {
    if xs == [] then []
    else
      var p := Distinct(xs[..|xs| - 1]);
      assert forall i :: 0 <= i < |xs| - 1 ==> xs[i] == xs[..|xs| - 1][i];
      if xs[|xs| - 1] in p then p else p + [xs[|xs| - 1]]
  }

  /** The total of the counts of the keys `keys` in `xs`. */
  function SumCounts<T(==)>(xs: seq<T>, keys: seq<T>): int {
    if keys == [] then 0 else Count(xs, keys[0]) + SumCounts(xs, keys[1..])
  }

  lemma {:induction false} SumCountsAppend<T>(xs: seq<T>, x: T, keys: seq<T>)
    requires NoDuplicates(keys)
    ensures SumCounts(xs + [x], keys) == SumCounts(xs, keys) + (if x in keys then 1 else 0)
  {
    if keys != [] {
      assert (xs + [x])[..|xs + [x]| - 1] == xs;
      SumCountsAppend(xs, x, keys[1..]);
      assert x in keys <==> x == keys[0] || x in keys[1..];
      assert forall j :: 0 <= j < |keys[1..]| ==> keys[1..][j] == keys[j + 1];
    }
  }

  /** Counting every value against a duplicate-free list of keys that covers them all counts each element once. */
  lemma {:induction false} SumCountsCovers<T>(xs: seq<T>, keys: seq<T>)
    requires NoDuplicates(keys)
    requires forall x :: x in xs ==> x in keys
    ensures SumCounts(xs, keys) == |xs|
    decreases |xs|
  {
    if xs == [] {
      SumCountsZero(xs, keys);
    } else {
      var p := xs[..|xs| - 1];
      assert xs == p + [xs[|xs| - 1]];
      SumCountsCovers(p, keys);
      SumCountsAppend(p, xs[|xs| - 1], keys);
    }
  }

  lemma {:induction false} SumCountsZero<T>(xs: seq<T>, keys: seq<T>)
    requires xs == []
    ensures SumCounts(xs, keys) == 0
  {
    if keys != [] {
      SumCountsZero(xs, keys[1..]);
    }
  }

  /** The counts over the distinct values add up to the number of values. */
  lemma SumCountsDistinct<T>(xs: seq<T>)
    ensures SumCounts(xs, Distinct(xs)) == |xs|
  {
    SumCountsCovers(xs, Distinct(xs));
  }

  /** `0, 1, ..., n - 1`. */
  function Range(n: nat): (r: seq<int>)
    ensures |r| == n
    ensures forall i :: 0 <= i < n ==> r[i] == i
    ensures NoDuplicates(r)
  {
    if n == 0 then [] else Range(n - 1) + [n - 1]
  }

  /** One `(key, count)` row per key, as `groupby(...).size()` gives them. */
  function CountRows<T(==)>(xs: seq<T>, keys: seq<T>): (rows: seq<(T, nat)>)
    ensures |rows| == |keys|
    ensures forall k :: 0 <= k < |keys| ==> rows[k] == (keys[k], Count(xs, keys[k]))
  {
    if keys == [] then [] else [(keys[0], Count(xs, keys[0]))] + CountRows(xs, keys[1..])
  }

  function RowCount<T>(row: (T, nat)): int {
    row.1
  }

  /** The count column of a table of rows. */
  function RowCounts<T>(rows: seq<(T, nat)>): (cs: seq<int>)
    ensures |cs| == |rows| && forall k :: 0 <= k < |rows| ==> cs[k] == rows[k].1
  {
    if rows == [] then [] else [rows[0].1] + RowCounts(rows[1..])
  }

  lemma {:induction false} SumOfCountRows<T>(xs: seq<T>, keys: seq<T>)
    ensures SumOf(CountRows(xs, keys), RowCount) == SumCounts(xs, keys)
  {
    if keys != [] {
      SumOfCountRows(xs, keys[1..]);
      assert CountRows(xs, keys)[1..] == CountRows(xs, keys[1..]);
    }
  }

  lemma NoDuplicatesByMultiset<T>(s: seq<T>)
    ensures NoDuplicates(s) <==> forall i :: 0 <= i < |s| ==> multiset(s)[s[i]] == 1
  {
    if NoDuplicates(s) {
      forall i | 0 <= i < |s| ensures multiset(s)[s[i]] == 1 {
        NoDuplicatesCount(s, i);
      }
    } else {
      var i, j :| 0 <= i < j < |s| && s[i] == s[j];
      assert s == s[..j] + [s[j]] + s[j + 1..];
      assert s[i] in s[..j] by { assert s[..j][i] == s[i]; }
      assert multiset(s)[s[i]] >= multiset(s[..j])[s[i]] + 1;
    }
  }

  lemma {:induction false} NoDuplicatesCount<T>(s: seq<T>, i: int)
    requires NoDuplicates(s) && 0 <= i < |s|
    ensures multiset(s)[s[i]] == 1
  {
    assert s == s[..i] + [s[i]] + s[i + 1..];
    assert s[i] !in s[..i];
    assert s[i] !in s[i + 1..];
  }

  /** A reordering of a duplicate-free sequence is duplicate-free. */
  lemma NoDuplicatesPermutation<T>(s: seq<T>, t: seq<T>)
    requires NoDuplicates(s) && multiset(s) == multiset(t)
    ensures NoDuplicates(t)
  {
    NoDuplicatesByMultiset(s);
    NoDuplicatesByMultiset(t);
    forall i | 0 <= i < |t| ensures multiset(t)[t[i]] == 1 {
      assert t[i] in multiset(s);
      var j :| 0 <= j < |s| && s[j] == t[i];
    }
  }

  /**
   * Two sequences that agree on which positions hold equal values have the
   * same number of distinct values.
   */
  lemma {:induction false} DistinctSameShape<A, B>(a: seq<A>, b: seq<B>)
    requires |a| == |b|
    requires forall i, j :: 0 <= i < |a| && 0 <= j < |a| ==> (a[i] == a[j] <==> b[i] == b[j])
    ensures |Distinct(a)| == |Distinct(b)|
  {
    if a != [] {
      var n := |a| - 1;
      DistinctSameShape(a[..n], b[..n]);
      assert a[n] in a[..n] <==> b[n] in b[..n] by {
        if a[n] in a[..n] {
          var j :| 0 <= j < n && a[..n][j] == a[n];
          assert b[..n][j] == b[n];
        }
        if b[n] in b[..n] {
          var j :| 0 <= j < n && b[..n][j] == b[n];
          assert a[..n][j] == a[n];
        }
      }
    }
  }

  /** The smallest value, as `min()` gives it. */
  function Minimum(xs: seq<int>): (m: int)
    requires |xs| > 0
    ensures m in xs && forall x :: x in xs ==> m <= x
  {
    if |xs| == 1 then xs[0]
    else
      var r := Minimum(xs[1..]);
      assert forall x :: x in xs ==> x == xs[0] || x in xs[1..];
      if xs[0] <= r then xs[0] else r
  }

  /** The largest value, as `max()` gives it. */
  function Maximum(xs: seq<int>): (m: int)
    requires |xs| > 0
    ensures m in xs && forall x :: x in xs ==> x <= m
  {
    if |xs| == 1 then xs[0]
    else
      var r := Maximum(xs[1..]);
      assert forall x :: x in xs ==> x == xs[0] || x in xs[1..];
      if xs[0] >= r then xs[0] else r
  }
}
