/**
 * `analyze_trace_variants` (lines 537-580): cases grouped by their sequence of
 * activities, variants ranked by how many cases follow them, and the
 * cumulative coverage of the ranking.
 */
module TraceVariants {
  import opened Common
  import opened Sorting

  /** The activities of one case, in event order. */
  type Trace = seq<string>

  /** A distinct trace and the indices of the cases that follow it, in log order. */
  datatype Variant = Variant(trace: Trace, cases: seq<nat>)

  /** Reference definition: the indices of the cases whose trace is `t`, in increasing order. */
  function IndicesOf(traces: seq<Trace>, t: Trace): (ix: seq<nat>)
    ensures forall k :: 0 <= k < |ix| ==> ix[k] < |traces| && traces[ix[k]] == t
    ensures forall i :: 0 <= i < |traces| && traces[i] == t ==> i in ix
    ensures forall k, l :: 0 <= k < l < |ix| ==> ix[k] < ix[l]
  {
    if traces == [] then []
    else
      var n := |traces| - 1;
      assert forall i :: 0 <= i < n ==> traces[..n][i] == traces[i];
      IndicesOf(traces[..n], t) + (if traces[n] == t then [n] else [])
  }

  predicate DistinctTraces(vs: seq<Variant>) {
    forall v, w :: 0 <= v < w < |vs| ==> vs[v].trace != vs[w].trace
  }

  /** Files case `i`, whose trace is `t`, under its variant, opening a new variant at the end if `t` is new. */
  function AddCase(vs: seq<Variant>, t: Trace, i: nat): seq<Variant> {
    if vs == [] then [Variant(t, [i])]
    else if vs[0].trace == t then [Variant(t, vs[0].cases + [i])] + vs[1..]
    else [vs[0]] + AddCase(vs[1..], t, i)
  }

  /** Line 550: the variants of the log, in order of first appearance. */
  function GroupVariants(traces: seq<Trace>): seq<Variant> {
    if traces == [] then []
    else
      var n := |traces| - 1;
      AddCase(GroupVariants(traces[..n]), traces[n], n)
  }

  function CaseCount(v: Variant): int {
    |v.cases|
  }

  predicate HasTrace(vs: seq<Variant>, t: Trace) {
    exists v :: 0 <= v < |vs| && vs[v].trace == t
  }

  /** A new trace adds one variant; a known one adds none. */
  lemma {:induction false} AddCaseLength(vs: seq<Variant>, t: Trace, i: nat)
    ensures |AddCase(vs, t, i)| == |vs| + (if HasTrace(vs, t) then 0 else 1)
    ensures SumOf(AddCase(vs, t, i), CaseCount) == SumOf(vs, CaseCount) + 1
  {
    if vs != [] {
      if vs[0].trace == t {
        assert AddCase(vs, t, i)[1..] == vs[1..];
      } else {
        AddCaseLength(vs[1..], t, i);
        assert AddCase(vs, t, i)[1..] == AddCase(vs[1..], t, i);
        if HasTrace(vs, t) {
          var v :| 0 <= v < |vs| && vs[v].trace == t;
          assert vs[1..][v - 1].trace == t;
        }
        if HasTrace(vs[1..], t) {
          var v :| 0 <= v < |vs[1..]| && vs[1..][v].trace == t;
          assert vs[v + 1].trace == t;
        }
      }
    }
  }

  /** Only the variant of trace `t` changes: it gains case `i` at the end of its list. */
  lemma {:induction false} AddCaseAt(vs: seq<Variant>, t: Trace, i: nat, v: int)
    requires DistinctTraces(vs) && 0 <= v < |vs|
    ensures |AddCase(vs, t, i)| >= |vs|
    ensures AddCase(vs, t, i)[v] == (if vs[v].trace == t then Variant(t, vs[v].cases + [i]) else vs[v])
  {
    AddCaseLength(vs, t, i);
    if vs[0].trace != t && v > 0 {
      var tail := vs[1..];
      assert DistinctTraces(tail) by {
        forall a, b | 0 <= a < b < |tail| ensures tail[a].trace != tail[b].trace {
          assert tail[a] == vs[a + 1] && tail[b] == vs[b + 1];
        }
      }
      AddCaseAt(tail, t, i, v - 1);
      assert AddCase(vs, t, i)[v] == AddCase(tail, t, i)[v - 1];
    } else if vs[0].trace == t && v > 0 {
      assert vs[v].trace != t;
    }
  }

  /** An unknown trace opens a variant at the end. */
  lemma {:induction false} AddCaseNew(vs: seq<Variant>, t: Trace, i: nat)
    requires !HasTrace(vs, t)
    ensures AddCase(vs, t, i) == vs + [Variant(t, [i])]
  {
    if vs != [] {
      assert vs[0].trace != t;
      AddCaseNew(vs[1..], t, i);
      assert vs == [vs[0]] + vs[1..];
    }
  }

  lemma AddCaseDistinct(vs: seq<Variant>, t: Trace, i: nat)
    requires DistinctTraces(vs)
    ensures DistinctTraces(AddCase(vs, t, i))
  {
    var r := AddCase(vs, t, i);
    AddCaseLength(vs, t, i);
    if !HasTrace(vs, t) {
      AddCaseNew(vs, t, i);
    }
    forall v, w | 0 <= v < w < |r| ensures r[v].trace != r[w].trace {
      AddCaseAt(vs, t, i, v);
      if w < |vs| {
        AddCaseAt(vs, t, i, w);
      } else {
        assert r[w].trace == t;
      }
    }
  }

  lemma {:induction false} GroupVariantsDistinct(traces: seq<Trace>)
    ensures DistinctTraces(GroupVariants(traces))
  {
    if traces != [] {
      var n := |traces| - 1;
      GroupVariantsDistinct(traces[..n]);
      AddCaseDistinct(GroupVariants(traces[..n]), traces[n], n);
    }
  }

  /** Every case is counted once: the case counts add up to the number of cases. */
  lemma {:induction false} GroupVariantsCount(traces: seq<Trace>)
    ensures SumOf(GroupVariants(traces), CaseCount) == |traces|
    ensures |GroupVariants(traces)| <= |traces|
  {
    if traces != [] {
      var n := |traces| - 1;
      GroupVariantsCount(traces[..n]);
      AddCaseLength(GroupVariants(traces[..n]), traces[n], n);
    }
  }

  /** Every case's trace is the trace of some variant. */
  lemma {:induction false} GroupVariantsCover(traces: seq<Trace>)
    ensures forall i :: 0 <= i < |traces| ==> HasTrace(GroupVariants(traces), traces[i])
  {
    if traces != [] {
      var n := |traces| - 1;
      var p, t := traces[..n], traces[n];
      GroupVariantsCover(p);
      GroupVariantsDistinct(p);
      var g := GroupVariants(p);
      forall i | 0 <= i < |traces| ensures HasTrace(GroupVariants(traces), traces[i]) {
        if i < n {
          assert p[i] == traces[i];
          HasTraceKept(g, t, n, traces[i]);
        } else if HasTrace(g, t) {
          HasTraceKept(g, t, n, t);
        } else {
          AddCaseNew(g, t, n);
          assert AddCase(g, t, n)[|g|].trace == t;
        }
      }
    }
  }

  lemma HasTraceKept(vs: seq<Variant>, t: Trace, i: nat, u: Trace)
    requires DistinctTraces(vs) && HasTrace(vs, u)
    ensures HasTrace(AddCase(vs, t, i), u)
  {
    var v :| 0 <= v < |vs| && vs[v].trace == u;
    AddCaseAt(vs, t, i, v);
    assert AddCase(vs, t, i)[v].trace == u;
  }

  /** Each variant lists exactly the cases with its trace, in log order, and at least one. */
  lemma {:induction false} GroupVariantsCases(traces: seq<Trace>)
    ensures forall v :: 0 <= v < |GroupVariants(traces)| ==>
      GroupVariants(traces)[v].cases == IndicesOf(traces, GroupVariants(traces)[v].trace)
      && |GroupVariants(traces)[v].cases| >= 1
  {
    if traces != [] {
      var n := |traces| - 1;
      GroupVariantsCases(traces[..n]);
      GroupVariantsDistinct(traces[..n]);
      assert traces == traces[..n] + [traces[n]];
      forall v | 0 <= v < |GroupVariants(traces)|
        ensures GroupVariants(traces)[v].cases == IndicesOf(traces, GroupVariants(traces)[v].trace)
        ensures |GroupVariants(traces)[v].cases| >= 1
      {
        VariantCasesStep(traces[..n], traces[n], v);
      }
    }
  }

  /** The inductive step of `GroupVariantsCases` for one variant, the last case having trace `t`. */
  lemma VariantCasesStep(p: seq<Trace>, t: Trace, v: int)
    requires DistinctTraces(GroupVariants(p))
    requires forall w :: 0 <= w < |GroupVariants(p)| ==>
      GroupVariants(p)[w].cases == IndicesOf(p, GroupVariants(p)[w].trace) && |GroupVariants(p)[w].cases| >= 1
    requires 0 <= v < |GroupVariants(p + [t])|
    ensures GroupVariants(p + [t])[v].cases == IndicesOf(p + [t], GroupVariants(p + [t])[v].trace)
    ensures |GroupVariants(p + [t])[v].cases| >= 1
  {
    var n := |p|;
    var traces := p + [t];
    assert traces[..n] == p && traces[n] == t;
    var g := GroupVariants(p);
    var r := GroupVariants(traces);
    AddCaseLength(g, t, n);
    if v < |g| {
      AddCaseAt(g, t, n, v);
    } else {
      AddCaseNew(g, t, n);
      assert r[v] == Variant(t, [n]);
      UnseenTrace(p, t);
    }
  }

  /** A trace no variant has belongs to no case. */
  lemma UnseenTrace(traces: seq<Trace>, t: Trace)
    requires !HasTrace(GroupVariants(traces), t)
    ensures IndicesOf(traces, t) == []
  {
    if IndicesOf(traces, t) != [] {
      var j := IndicesOf(traces, t)[0];
      GroupVariantsCover(traces);
    }
  }

  /**
   * The variants partition the cases: their traces are distinct, each lists
   * exactly the cases with its trace in log order, and every case's trace is
   * one of them.
   */
  lemma GroupVariantsSpec(traces: seq<Trace>)
    ensures DistinctTraces(GroupVariants(traces))
    ensures forall v :: 0 <= v < |GroupVariants(traces)| ==>
      GroupVariants(traces)[v].cases == IndicesOf(traces, GroupVariants(traces)[v].trace)
      && |GroupVariants(traces)[v].cases| >= 1
    ensures forall i :: 0 <= i < |traces| ==>
      exists v :: 0 <= v < |GroupVariants(traces)| && GroupVariants(traces)[v].trace == traces[i]
    ensures SumOf(GroupVariants(traces), CaseCount) == |traces|
    ensures |GroupVariants(traces)| <= |traces|
  {
    GroupVariantsDistinct(traces);
    GroupVariantsCases(traces);
    GroupVariantsCover(traces);
    GroupVariantsCount(traces);
  }

  /** Each case belongs to exactly the variant of its own trace. */
  lemma CaseMembership(traces: seq<Trace>, i: int, v: int)
    requires 0 <= i < |traces| && 0 <= v < |GroupVariants(traces)|
    ensures i in GroupVariants(traces)[v].cases <==> traces[i] == GroupVariants(traces)[v].trace
  {
    GroupVariantsSpec(traces);
    var ix := GroupVariants(traces)[v].cases;
    if i in ix {
      var k :| 0 <= k < |ix| && ix[k] == i;
    }
  }

  /** A non-empty log has at least one variant and never more variants than cases. */
  lemma VariantCount(traces: seq<Trace>)
    requires |traces| > 0
    ensures 1 <= |GroupVariants(traces)| <= |traces|
  {
    GroupVariantsSpec(traces);
    var v :| 0 <= v < |GroupVariants(traces)| && GroupVariants(traces)[v].trace == traces[0];
  }

  /** Line 555: distinct variants per case. */
  function Complexity(traces: seq<Trace>): (c: real)
    requires |traces| > 0
    ensures 0.0 < c <= 1.0
  {
    VariantCount(traces);
    |GroupVariants(traces)| as real / |traces| as real
  }

  /** Descending by number of cases. */
  predicate MoreCases(a: Variant, b: Variant) {
    |a.cases| >= |b.cases|
  }

  /** Line 558: variants by number of cases, most frequent first; ties keep first-appearance order. */
  function Ranked(vs: seq<Variant>): (r: seq<Variant>)
    ensures |r| == |vs|
  {
    SortLength(vs, MoreCases);
    Sort(vs, MoreCases)
  }

  lemma MoreCasesIsTotalPreorder()
    ensures TotalPreorder(MoreCases)
  {
  }

  /** The ranking reorders the variants, by non-increasing case count, stably, and keeps the total. */
  lemma RankedShape(vs: seq<Variant>, e: Variant)
    ensures multiset(Ranked(vs)) == multiset(vs)
    ensures forall k, l :: 0 <= k < l < |Ranked(vs)| ==> |Ranked(vs)[k].cases| >= |Ranked(vs)[l].cases|
    ensures TiedWith(Ranked(vs), MoreCases, e) == TiedWith(vs, MoreCases, e)
    ensures SumOf(Ranked(vs), CaseCount) == SumOf(vs, CaseCount)
  {
    MoreCasesIsTotalPreorder();
    SortPermutes(vs, MoreCases);
    SortSorted(vs, MoreCases);
    SortStable(vs, MoreCases, e);
    SumOfSort(vs, MoreCases, CaseCount);
  }

  /** Cases covered by the first `n` variants. */
  function Covered(vs: seq<Variant>, n: nat): int
    requires n <= |vs|
  {
    SumOf(vs[..n], CaseCount)
  }

  /** Line 575: coverage in percent. */
  function Coverage(covered: int, total: int): real
    requires total > 0
  {
    (covered as real / total as real) * 100.0
  }

  /** The numbers `i` in `1..n` for which line 577 reports that `i` variants reach 80% coverage. */
  function Reported(vs: seq<Variant>, total: int, n: nat): (r: seq<nat>)
    requires n <= |vs| && total > 0
    ensures |r| <= n
    ensures forall k :: 0 <= k < |r| ==> 1 <= r[k] <= n
  {
    if n == 0 then []
    else Reported(vs, total, n - 1) + (if Coverage(Covered(vs, n), total) >= 80.0 then [n] else [])
  }

  /** Lines 568-578: the running totals and the reports, for `total` cases. */
  method VariantCoverage(ranked: seq<Variant>, total: int) returns (cumulative: seq<(nat, real)>, reported: seq<nat>)
    requires total > 0
    ensures |cumulative| == |ranked|
    ensures forall k :: 0 <= k < |ranked| ==> cumulative[k] == (k + 1, Coverage(Covered(ranked, k + 1), total))
    ensures reported == Reported(ranked, total, |ranked|)
  {
    cumulative := [];
    reported := [];
    var cumulativeCases := 0;
    var i := 0;
    while i < |ranked|
      invariant 0 <= i <= |ranked|
      invariant cumulativeCases == Covered(ranked, i)
      invariant |cumulative| == i
      invariant forall k :: 0 <= k < i ==> cumulative[k] == (k + 1, Coverage(Covered(ranked, k + 1), total))
      invariant reported == Reported(ranked, total, i)
    {
      assert ranked[..i + 1] == ranked[..i] + [ranked[i]];
      SumOfAppend(ranked[..i], ranked[i], CaseCount);
      cumulativeCases := cumulativeCases + |ranked[i].cases|;
      var coverage := (cumulativeCases as real / total as real) * 100.0;
      cumulative := cumulative + [(i + 1, coverage)];
      if coverage >= 80.0 && |cumulative| == i + 1 {
        reported := reported + [i + 1];
      }
      i := i + 1;
    }
  }

  /** The 80% test on coverage is the exact integer test `100 * covered >= 80 * total`. */
  lemma CoverageThreshold(covered: int, total: int)
    requires total > 0
    ensures Coverage(covered, total) >= 80.0 <==> covered * 100 >= 80 * total
  {
    var q := covered as real / total as real;
    assert q * total as real == covered as real;
    if q * 100.0 >= 80.0 {
      assert q * 100.0 * total as real >= 80.0 * total as real;
    } else {
      assert q * 100.0 * total as real < 80.0 * total as real;
    }
  }

  lemma {:induction false} CoveredMonotone(vs: seq<Variant>, m: nat, n: nat)
    requires m <= n <= |vs|
    ensures Covered(vs, m) <= Covered(vs, n)
    decreases n
  {
    if m < n {
      CoveredMonotone(vs, m, n - 1);
      assert vs[..n] == vs[..n - 1] + [vs[n - 1]];
      SumOfAppend(vs[..n - 1], vs[n - 1], CaseCount);
    }
  }

  /**
   * A count is reported exactly when that many variants cover at least 80%
   * of the cases; since coverage never decreases, the reports are every
   * count from the first one reached up to `n`.
   */
  lemma {:induction false} ReportedMembers(vs: seq<Variant>, total: int, n: nat)
    requires n <= |vs| && total > 0
    ensures forall j :: j in Reported(vs, total, n) <==> 1 <= j <= n && Covered(vs, j) * 100 >= 80 * total
    ensures forall k, l :: 0 <= k < l < |Reported(vs, total, n)| ==> Reported(vs, total, n)[k] < Reported(vs, total, n)[l]
  {
    if n > 0 {
      var p := Reported(vs, total, n - 1);
      ReportedMembers(vs, total, n - 1);
      CoverageThreshold(Covered(vs, n), total);
      forall k | 0 <= k < |p| ensures p[k] < n {
        assert p[k] in p;
      }
    }
  }

  lemma ReportedIsSuffix(vs: seq<Variant>, total: int, n: nat, j: nat, l: nat)
    requires n <= |vs| && total > 0
    requires j in Reported(vs, total, n) && j <= l <= n
    ensures l in Reported(vs, total, n)
  {
    ReportedMembers(vs, total, n);
    CoveredMonotone(vs, j, l);
  }

  lemma CoveredAll(vs: seq<Variant>)
    ensures Covered(vs, |vs|) == SumOf(vs, CaseCount)
  {
    assert vs[..|vs|] == vs;
  }

  /** All ranked variants together cover every case: 100%, so the full count is always reported. */
  lemma FullCoverage(traces: seq<Trace>)
    requires |traces| > 0
    ensures Covered(Ranked(GroupVariants(traces)), |GroupVariants(traces)|) == |traces|
    ensures Coverage(|traces|, |traces|) == 100.0
    ensures |GroupVariants(traces)| in Reported(Ranked(GroupVariants(traces)), |traces|, |GroupVariants(traces)|)
  {
    var vs := GroupVariants(traces);
    var ranked := Ranked(vs);
    GroupVariantsCount(traces);
    VariantCount(traces);
    RankedShape(vs, Variant([], []));
    CoveredAll(ranked);
    CoverageOfAll(|traces|);
    ReportedLast(ranked, |traces|, |vs|);
  }

  lemma CoverageOfAll(total: int)
    requires total > 0
    ensures Coverage(total, total) == 100.0
  {
    assert total as real / total as real == 1.0;
  }

  lemma ReportedLast(vs: seq<Variant>, total: int, n: nat)
    requires 0 < n <= |vs| && total > 0
    requires Coverage(Covered(vs, n), total) >= 80.0
    ensures n in Reported(vs, total, n)
  {
  }

  /** Eight variants of one case each: 7 and 8 variants reach 80% (87.5% and 100%), 6 do not (75%). */
  lemma EightSingletons(vs: seq<Variant>)
    requires |vs| == 8 && forall v :: 0 <= v < 8 ==> |vs[v].cases| == 1
    ensures Reported(vs, 8, 8) == [7, 8]
  {
    forall n | 0 <= n <= 8 ensures Covered(vs, n) == n {
      CoveredSingletons(vs, n);
    }
    ReportedNone(vs, 8, 6);
    CoverageThreshold(7, 8);
    CoverageThreshold(8, 8);
    assert Reported(vs, 8, 7) == [7];
  }

  /** Nothing is reported while coverage stays under 80%. */
  lemma {:induction false} ReportedNone(vs: seq<Variant>, total: int, n: nat)
    requires n <= |vs| && total > 0
    requires forall j :: 1 <= j <= n ==> Covered(vs, j) * 100 < 80 * total
    ensures Reported(vs, total, n) == []
  {
    if n > 0 {
      ReportedNone(vs, total, n - 1);
      CoverageThreshold(Covered(vs, n), total);
    }
  }

  lemma {:induction false} CoveredSingletons(vs: seq<Variant>, n: nat)
    requires n <= |vs| && forall v :: 0 <= v < |vs| ==> |vs[v].cases| == 1
    ensures Covered(vs, n) == n
  {
    if n > 0 {
      CoveredSingletons(vs, n - 1);
      assert vs[..n] == vs[..n - 1] + [vs[n - 1]];
      SumOfAppend(vs[..n - 1], vs[n - 1], CaseCount);
    }
  }

  /** What `analyze_trace_variants` computes: the variants and the counts reported as reaching 80% coverage. */
  datatype VariantReport = VariantReport(variants: seq<Variant>, reported: seq<nat>)

  /**
   * Lines 550-580. An empty log has no report: line 555 divides by the
   * number of cases and raises `ZeroDivisionError`.
   */
  method AnalyzeTraceVariants(traces: seq<Trace>) returns (r: Option<VariantReport>)
    ensures r.None? <==> traces == []
    ensures r.Some? ==> r.value.variants == GroupVariants(traces)
    ensures r.Some? ==> r.value.reported == Reported(Ranked(r.value.variants), |traces|, |r.value.variants|)
    ensures r.Some? ==> |r.value.variants| in r.value.reported
  {
    if |traces| == 0 {
      return None;
    }
    var variants := GroupVariants(traces);
    var ranked := Ranked(variants);
    var cumulative, reported := VariantCoverage(ranked, |traces|);
    FullCoverage(traces);
    r := Some(VariantReport(variants, reported));
  }
}
