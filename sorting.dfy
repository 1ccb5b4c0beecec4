/**
 * The stable sort behind every ordering step of the pipeline: pandas'
 * `sort_values` and Python's `sorted`, given as a "less or equal" on keys.
 * Ties are kept in input order, which is what Python's `sorted` and pandas'
 * multi-column sort guarantee.
 */
module Sorting {

  /** `leq` compares keys: every two elements are comparable and it is transitive. */
  ghost predicate TotalPreorder<T(!new)>(leq: (T, T) -> bool) {
    && (forall a, b :: leq(a, b) || leq(b, a))
    && (forall a, b, c :: leq(a, b) && leq(b, c) ==> leq(a, c))
  }

  ghost predicate SortedBy<T>(s: seq<T>, leq: (T, T) -> bool) {
    forall i, j :: 0 <= i < j < |s| ==> leq(s[i], s[j])
  }

  /** Elements with the same key. */
  predicate Tied<T>(leq: (T, T) -> bool, a: T, b: T) {
    leq(a, b) && leq(b, a)
  }

  /** The elements of `s` whose key ties with that of `e`, in their order in `s`. */
  function TiedWith<T>(s: seq<T>, leq: (T, T) -> bool, e: T): seq<T> {
    if s == [] then []
    else (if Tied(leq, s[0], e) then [s[0]] else []) + TiedWith(s[1..], leq, e)
  }

  /** Puts `x` in front of the first element whose key is not smaller than its own. */
  function Insert<T>(x: T, s: seq<T>, leq: (T, T) -> bool): seq<T> {
    if s == [] then [x]
    else if leq(x, s[0]) then [x] + s
    else [s[0]] + Insert(x, s[1..], leq)
  }

  function Sort<T>(s: seq<T>, leq: (T, T) -> bool): seq<T> {
    if s == [] then [] else Insert(s[0], Sort(s[1..], leq), leq)
  }

  lemma {:induction false} InsertPermutes<T>(x: T, s: seq<T>, leq: (T, T) -> bool)
    ensures multiset(Insert(x, s, leq)) == multiset(s) + multiset{x}
  {
    if s != [] && !leq(x, s[0]) {
      InsertPermutes(x, s[1..], leq);
      assert s == [s[0]] + s[1..];
    }
  }

  /** The sorted sequence holds exactly the input's elements. */
  lemma {:induction false} SortPermutes<T>(s: seq<T>, leq: (T, T) -> bool)
    ensures multiset(Sort(s, leq)) == multiset(s)
  {
    if s != [] {
      SortPermutes(s[1..], leq);
      InsertPermutes(s[0], Sort(s[1..], leq), leq);
      assert s == [s[0]] + s[1..];
    }
  }

  lemma SortLength<T>(s: seq<T>, leq: (T, T) -> bool)
    ensures |Sort(s, leq)| == |s|
  {
    SortPermutes(s, leq);
    assert |multiset(Sort(s, leq))| == |multiset(s)|;
  }

  lemma {:induction false} InsertSorted<T(!new)>(x: T, s: seq<T>, leq: (T, T) -> bool)
    requires TotalPreorder(leq)
    requires SortedBy(s, leq)
    ensures SortedBy(Insert(x, s, leq), leq)
  {
    if s != [] && !leq(x, s[0]) {
      InsertSorted(x, s[1..], leq);
      InsertPermutes(x, s[1..], leq);
      var r := Insert(x, s[1..], leq);
      forall k | 0 <= k < |r| ensures leq(s[0], r[k]) {
        assert r[k] in multiset(r);
        assert r[k] in multiset(s[1..]) + multiset{x};
      }
    }
  }

  /** The output is in key order. */
  lemma {:induction false} SortSorted<T(!new)>(s: seq<T>, leq: (T, T) -> bool)
    requires TotalPreorder(leq)
    ensures SortedBy(Sort(s, leq), leq)
  {
    if s != [] {
      SortSorted(s[1..], leq);
      InsertSorted(s[0], Sort(s[1..], leq), leq);
    }
  }

  lemma {:induction false} TiedWithAppend<T>(a: seq<T>, b: seq<T>, leq: (T, T) -> bool, e: T)
    ensures TiedWith(a + b, leq, e) == TiedWith(a, leq, e) + TiedWith(b, leq, e)
  {
    if a != [] {
      assert (a + b)[1..] == a[1..] + b;
      TiedWithAppend(a[1..], b, leq, e);
    } else {
      assert a + b == b;
    }
  }

  lemma {:induction false} InsertStable<T(!new)>(x: T, s: seq<T>, leq: (T, T) -> bool, e: T)
    requires TotalPreorder(leq)
    ensures TiedWith(Insert(x, s, leq), leq, e) == TiedWith([x] + s, leq, e)
  {
    if s != [] && !leq(x, s[0]) {
      InsertStable(x, s[1..], leq, e);
      // s[0] sorts strictly before x, so at most one of them ties with e
      assert !(Tied(leq, s[0], e) && Tied(leq, x, e));
      calc {
        TiedWith(Insert(x, s, leq), leq, e);
        TiedWith([s[0]] + Insert(x, s[1..], leq), leq, e);
        { TiedWithAppend([s[0]], Insert(x, s[1..], leq), leq, e); }
        TiedWith([s[0]], leq, e) + TiedWith([x] + s[1..], leq, e);
        { TiedWithAppend([x], s[1..], leq, e); }
        TiedWith([s[0]], leq, e) + TiedWith([x], leq, e) + TiedWith(s[1..], leq, e);
        TiedWith([x], leq, e) + TiedWith([s[0]], leq, e) + TiedWith(s[1..], leq, e);
        { TiedWithAppend([s[0]], s[1..], leq, e); assert [s[0]] + s[1..] == s; }
        TiedWith([x], leq, e) + TiedWith(s, leq, e);
        { TiedWithAppend([x], s, leq, e); }
        TiedWith([x] + s, leq, e);
      }
    }
  }

  /** Stability: the elements of each tie class come out in their input order. */
  lemma {:induction false} SortStable<T(!new)>(s: seq<T>, leq: (T, T) -> bool, e: T)
    requires TotalPreorder(leq)
    ensures TiedWith(Sort(s, leq), leq, e) == TiedWith(s, leq, e)
  {
    if s != [] {
      SortStable(s[1..], leq, e);
      InsertStable(s[0], Sort(s[1..], leq), leq, e);
      TiedWithAppend([s[0]], Sort(s[1..], leq), leq, e);
      TiedWithAppend([s[0]], s[1..], leq, e);
      assert [s[0]] + s[1..] == s;
    }
  }

  /** Sorting an already sorted sequence changes nothing. */
  lemma {:induction false} SortOfSorted<T>(s: seq<T>, leq: (T, T) -> bool)
    requires SortedBy(s, leq)
    ensures Sort(s, leq) == s
  {
    if s != [] {
      SortOfSorted(s[1..], leq);
      assert s == [s[0]] + s[1..];
    }
  }

  /** The sum of `f` over a sequence. */
  function SumOf<T>(s: seq<T>, f: T -> int): int {
    if s == [] then 0 else f(s[0]) + SumOf(s[1..], f)
  }

  lemma {:induction false} SumOfInsert<T>(x: T, s: seq<T>, leq: (T, T) -> bool, f: T -> int)
    ensures SumOf(Insert(x, s, leq), f) == f(x) + SumOf(s, f)
  {
    if s != [] && !leq(x, s[0]) {
      SumOfInsert(x, s[1..], leq, f);
    }
  }

  lemma {:induction false} SumOfAppend<T>(s: seq<T>, x: T, f: T -> int)
    ensures SumOf(s + [x], f) == SumOf(s, f) + f(x)
  {
    if s != [] {
      assert (s + [x])[1..] == s[1..] + [x];
      SumOfAppend(s[1..], x, f);
    }
  }

  /** Two sequences whose elements correspond value for value have the same total. */
  lemma {:induction false} SumOfPointwise<A, B>(s: seq<A>, f: A -> int, t: seq<B>, g: B -> int)
    requires |s| == |t| && forall i :: 0 <= i < |s| ==> f(s[i]) == g(t[i])
    ensures SumOf(s, f) == SumOf(t, g)
  {
    if s != [] {
      assert forall i :: 0 <= i < |s| - 1 ==> s[1..][i] == s[i + 1] && t[1..][i] == t[i + 1];
      SumOfPointwise(s[1..], f, t[1..], g);
    }
  }

  /** Reordering does not change a total. */
  lemma {:induction false} SumOfSort<T>(s: seq<T>, leq: (T, T) -> bool, f: T -> int)
    ensures SumOf(Sort(s, leq), f) == SumOf(s, f)
  {
    if s != [] {
      SumOfSort(s[1..], leq, f);
      SumOfInsert(s[0], Sort(s[1..], leq), leq, f);
    }
  }
}
