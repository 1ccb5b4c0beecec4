/**
 * `analyze_activity_frequency` (lines 498-534): `value_counts()` of the
 * activity column, and the first `top_n` rows of it for display.
 */
module ActivityFrequency {
  import opened Sorting
  import opened Tally
  import opened CaseSegmenter

  function Activities(log: seq<LogRecord>): (acts: seq<string>)
    ensures |acts| == |log| && forall i :: 0 <= i < |log| ==> acts[i] == log[i].activity
  {
    if log == [] then [] else [log[0].activity] + Activities(log[1..])
  }

  /** Descending by count. */
  predicate CountGeq(a: (string, nat), b: (string, nat)) {
    a.1 >= b.1
  }

  lemma CountGeqIsTotalPreorder()
    ensures TotalPreorder(CountGeq)
  {
  }

  /**
   * Line 513: one row per distinct activity with its number of occurrences,
   * most frequent first; equal counts stay in order of first occurrence.
   */
  function ActivityCounts(log: seq<LogRecord>): (rows: seq<(string, nat)>)
    ensures |rows| == |Distinct(Activities(log))|
  {
    SortLength(CountRows(Activities(log), Distinct(Activities(log))), CountGeq);
    Sort(CountRows(Activities(log), Distinct(Activities(log))), CountGeq)
  }

  /** `Series.head(n)`: the first `n` rows; a negative `n` drops the last `-n` rows. */
  function Head<T>(s: seq<T>, n: int): (h: seq<T>)
    ensures n >= 0 ==> |h| == (if n < |s| then n else |s|)
    ensures n < 0 ==> |h| == (if |s| + n > 0 then |s| + n else 0)
    ensures h <= s
  {
    if n >= 0 then (if n < |s| then s[..n] else s)
    else if |s| + n > 0 then s[..|s| + n]
    else []
  }

  /** Lines 515-519: the rows printed. */
  function TopActivities(log: seq<LogRecord>, topN: int): (t: seq<(string, nat)>)
    ensures t <= ActivityCounts(log)
    ensures topN >= 0 ==> |t| == (if topN < |ActivityCounts(log)| then topN else |ActivityCounts(log)|)
  {
    Head(ActivityCounts(log), topN)
  }

  lemma {:induction false} CountRowsDistinctKeys(xs: seq<string>, keys: seq<string>)
    requires NoDuplicates(keys)
    ensures NoDuplicates(CountRows(xs, keys))
  {
  }

  lemma ActivityRow(log: seq<LogRecord>, k: int)
    requires 0 <= k < |ActivityCounts(log)|
    ensures ActivityCounts(log)[k].0 in Activities(log)
    ensures ActivityCounts(log)[k] == (ActivityCounts(log)[k].0, Count(Activities(log), ActivityCounts(log)[k].0))
    ensures ActivityCounts(log)[k].1 >= 1
  {
    var acts := Activities(log);
    var rows := CountRows(acts, Distinct(acts));
    var row := ActivityCounts(log)[k];
    SortPermutes(rows, CountGeq);
    assert row in multiset(rows);
    var j :| 0 <= j < |rows| && rows[j] == row;
    assert row.0 in multiset(acts);
  }

  lemma ActivityHasRow(log: seq<LogRecord>, i: int) returns (k: int)
    requires 0 <= i < |log|
    ensures 0 <= k < |ActivityCounts(log)| && ActivityCounts(log)[k].0 == log[i].activity
  {
    var acts := Activities(log);
    var d := Distinct(acts);
    var rows := CountRows(acts, d);
    var sorted := ActivityCounts(log);
    SortPermutes(rows, CountGeq);
    assert acts[i] in d;
    var j :| 0 <= j < |d| && d[j] == acts[i];
    assert rows[j] in multiset(sorted);
    k :| 0 <= k < |sorted| && sorted[k] == rows[j];
  }

  /** Every row is an activity of the log with its exact number of occurrences, and every activity has a row. */
  lemma ActivityCountsRows(log: seq<LogRecord>)
    ensures forall k :: 0 <= k < |ActivityCounts(log)| ==>
      ActivityCounts(log)[k].0 in Activities(log)
      && ActivityCounts(log)[k] == (ActivityCounts(log)[k].0, Count(Activities(log), ActivityCounts(log)[k].0))
      && ActivityCounts(log)[k].1 >= 1
    ensures forall i :: 0 <= i < |log| ==> exists k :: 0 <= k < |ActivityCounts(log)| && ActivityCounts(log)[k].0 == log[i].activity
  {
    forall k | 0 <= k < |ActivityCounts(log)|
      ensures ActivityCounts(log)[k].0 in Activities(log)
      ensures ActivityCounts(log)[k] == (ActivityCounts(log)[k].0, Count(Activities(log), ActivityCounts(log)[k].0))
      ensures ActivityCounts(log)[k].1 >= 1
    {
      ActivityRow(log, k);
    }
    forall i | 0 <= i < |log| ensures exists k :: 0 <= k < |ActivityCounts(log)| && ActivityCounts(log)[k].0 == log[i].activity {
      var k := ActivityHasRow(log, i);
    }
    assert forall i :: 0 <= i < |log| ==> exists k :: 0 <= k < |ActivityCounts(log)| && ActivityCounts(log)[k].0 == log[i].activity;
  }

  /** No activity has two rows. */
  lemma ActivityCountsDistinct(log: seq<LogRecord>)
    ensures forall k, l :: 0 <= k < l < |ActivityCounts(log)| ==> ActivityCounts(log)[k].0 != ActivityCounts(log)[l].0
  {
    var acts := Activities(log);
    var rows := CountRows(acts, Distinct(acts));
    var sorted := ActivityCounts(log);
    SortPermutes(rows, CountGeq);
    CountRowsDistinctKeys(acts, Distinct(acts));
    NoDuplicatesPermutation(rows, sorted);
    ActivityCountsRows(log);
    forall k, l | 0 <= k < l < |sorted| ensures sorted[k].0 != sorted[l].0 {
      assert sorted[k] != sorted[l];
    }
  }

  /**
   * Counts never increase down the table and add up to the number of events;
   * rows with equal counts keep their order of first occurrence.
   */
  lemma ActivityCountsOrder(log: seq<LogRecord>, e: (string, nat))
    ensures forall k, l :: 0 <= k < l < |ActivityCounts(log)| ==> ActivityCounts(log)[k].1 >= ActivityCounts(log)[l].1
    ensures SumOf(ActivityCounts(log), RowCount) == |log|
    ensures TiedWith(ActivityCounts(log), CountGeq, e) == TiedWith(CountRows(Activities(log), Distinct(Activities(log))), CountGeq, e)
  {
    var acts := Activities(log);
    var d := Distinct(acts);
    var rows := CountRows(acts, d);
    CountGeqIsTotalPreorder();
    SortSorted(rows, CountGeq);
    SortStable(rows, CountGeq, e);
    SumOfSort(rows, CountGeq, RowCount);
    SumOfCountRows(acts, d);
    SumCountsDistinct(acts);
  }

  /** The printed rows are the first `min(top_n, #activities)` rows of the full table. */
  lemma TopActivitiesArePrefix(log: seq<LogRecord>, topN: int)
    requires topN >= 0
    ensures TopActivities(log, topN) == ActivityCounts(log)[..if topN < |ActivityCounts(log)| then topN else |ActivityCounts(log)|]
  {
  }
}
