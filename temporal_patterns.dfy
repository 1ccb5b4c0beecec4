/**
 * `analyze_temporal_patterns` (lines 639-702): events counted by hour of
 * day, by day of the week and by calendar date, and the text bar chart of
 * the hourly counts.
 */
module TemporalPatterns {
  import opened Common
  import opened Calendar
  import opened Sorting
  import opened Tally
  import opened CaseSegmenter

  /** Line 653: the hour of each event. */
  function HoursOf(log: seq<LogRecord>): (hs: seq<int>)
    ensures |hs| == |log| && forall i :: 0 <= i < |log| ==> hs[i] == HourOf(log[i].timestamp)
  {
    if log == [] then [] else [HourOf(log[0].timestamp)] + HoursOf(log[1..])
  }

  /** Lines 657-664: `(hour, events_per_hour.get(hour, 0))` for the 24 hours in order. */
  function HourTable(log: seq<LogRecord>): (t: seq<(int, nat)>)
    ensures |t| == 24
  {
    CountRows(HoursOf(log), Range(24))
  }

  /** Every event falls in exactly one of the 24 rows, so the table totals the number of events. */
  lemma HourTableShape(log: seq<LogRecord>)
    ensures forall h :: 0 <= h < 24 ==> HourTable(log)[h] == (h, Count(HoursOf(log), h))
    ensures SumOf(HourTable(log), RowCount) == |log|
  {
    var hs := HoursOf(log);
    SumOfCountRows(hs, Range(24));
    forall x | x in hs ensures x in Range(24) {
      var i :| 0 <= i < |hs| && hs[i] == x;
      assert Range(24)[x] == x;
    }
    SumCountsCovers(hs, Range(24));
  }

  /** Line 664: `events_per_hour.max()`, the largest count of the hour table. */
  function PeakHourCount(log: seq<LogRecord>): (m: nat)
    ensures exists h :: 0 <= h < 24 && HourTable(log)[h].1 == m
    ensures forall h :: 0 <= h < 24 ==> HourTable(log)[h].1 <= m
  {
    var cs := RowCounts(HourTable(log));
    assert forall k :: 0 <= k < 24 ==> cs[k] in cs;
    var m := Maximum(cs);
    assert exists h :: 0 <= h < 24 && cs[h] == m;
    m
  }

  /** A non-empty log has a busiest hour with at least one event, and no hour has more. */
  lemma PeakHourShape(log: seq<LogRecord>)
    requires |log| > 0
    ensures PeakHourCount(log) >= 1
    ensures forall h :: 0 <= h < 24 ==> Count(HoursOf(log), h) <= PeakHourCount(log)
    ensures exists h :: 0 <= h < 24 && Count(HoursOf(log), h) == PeakHourCount(log)
  {
    HourTableShape(log);
    var h := HourOf(log[0].timestamp);
    assert HoursOf(log)[0] == h;
    assert h in multiset(HoursOf(log));
    assert HourTable(log)[h].1 >= 1;
  }

  /**
   * Line 664: the bar of hour `h` is `count / max * 50` blocks, rounded down.
   * For an empty log `max()` is NaN and `int(NaN)` raises, hence the
   * precondition.
   */
  function BarLength(log: seq<LogRecord>, h: int): int
    requires |log| > 0 && 0 <= h < 24
  {
    PeakHourShape(log);
    Bar(HourTable(log)[h].1, PeakHourCount(log))
  }

  /** `int(count / peak * 50)`, exactly. */
  function Bar(count: int, peak: int): int
    requires peak > 0
  {
    count * 50 / peak
  }

  /**
   * Every bar is between 0 and 50 blocks; exactly the busiest hours get all
   * 50; an hour without events gets none; a busier hour never gets a
   * shorter bar.
   */
  lemma BarBounds(log: seq<LogRecord>, h: int, g: int)
    requires |log| > 0 && 0 <= h < 24 && 0 <= g < 24
    ensures 0 <= BarLength(log, h) <= 50
    ensures BarLength(log, h) == 50 <==> Count(HoursOf(log), h) == PeakHourCount(log)
    ensures Count(HoursOf(log), h) == 0 ==> BarLength(log, h) == 0
    ensures Count(HoursOf(log), h) <= Count(HoursOf(log), g) ==> BarLength(log, h) <= BarLength(log, g)
  {
    HourTableShape(log);
    PeakHourShape(log);
    BarArithmetic(Count(HoursOf(log), h), Count(HoursOf(log), g), PeakHourCount(log));
  }

  lemma MulMonotone(x: int, y: int, p: int)
    requires x <= y && p > 0
    ensures x * p <= y * p
  {
    assert y * p - x * p == (y - x) * p;
  }

  /** Floor division by a positive number is monotone. */
  lemma DivMonotone(a: int, b: int, p: int)
    requires a <= b && p > 0
    ensures a / p <= b / p
  {
    var qa, qb := a / p, b / p;
    if qa > qb {
      MulMonotone(qb + 1, qa, p);
    }
  }

  /** `q` is `a / p` when `q * p <= a < (q + 1) * p`. */
  lemma DivUnique(a: int, p: int, q: int)
    requires p > 0 && q * p <= a < q * p + p
    ensures a / p == q
  {
    var r := a / p;
    if r < q {
      MulMonotone(r + 1, q, p);
    } else if r > q {
      MulMonotone(q + 1, r, p);
    }
  }

  lemma BarArithmetic(c: int, d: int, p: int)
    requires 0 <= c <= p && 0 <= d <= p && p >= 1
    ensures 0 <= Bar(c, p) <= 50
    ensures Bar(c, p) == 50 <==> c == p
    ensures c <= d ==> Bar(c, p) <= Bar(d, p)
    ensures c == 0 ==> Bar(c, p) == 0
  {
    DivUnique(0, p, 0);
    MulMonotone(c, p, 50);
    DivMonotone(0, c * 50, p);
    DivMonotone(c * 50, p * 50, p);
    DivUnique(p * 50, p, 50);
    if c < p {
      MulMonotone(c, p - 1, 50);
      DivMonotone(c * 50, p * 50 - 1, p);
      assert 49 * p <= p * 50 - 1 < 49 * p + p;
      DivUnique(p * 50 - 1, p, 49);
    }
    if c <= d {
      MulMonotone(c, d, 50);
      DivMonotone(c * 50, d * 50, p);
    }
  }

  /** Line 654: the weekday of each event, Monday = 0 .. Sunday = 6. */
  function WeekdaysOf(log: seq<LogRecord>): (ws: seq<int>)
    ensures |ws| == |log| && forall i :: 0 <= i < |log| ==> ws[i] == WeekdayOf(log[i].timestamp)
  {
    if log == [] then [] else [WeekdayOf(log[0].timestamp)] + WeekdaysOf(log[1..])
  }

  /**
   * Lines 680-681: `value_counts().reindex(day_order)`: the count of each
   * weekday from Monday to Sunday, `NaN` (here `None`) for a weekday
   * without events.
   */
  function WeekdayCounts(log: seq<LogRecord>): (w: seq<Option<nat>>)
    ensures |w| == 7
  {
    var ws := WeekdaysOf(log);
    seq(7, d requires 0 <= d < 7 => if Count(ws, d) > 0 then Some(Count(ws, d)) else None)
  }

  function PresentValue(o: Option<nat>): int {
    if o.Some? then o.value else 0
  }

  lemma WeekdayPresent(log: seq<LogRecord>, d: int)
    requires 0 <= d < 7
    ensures WeekdayCounts(log)[d].Some? <==> exists i :: 0 <= i < |log| && WeekdayOf(log[i].timestamp) == d
    ensures WeekdayCounts(log)[d].Some? ==> WeekdayCounts(log)[d].value == Count(WeekdaysOf(log), d) >= 1
  {
    var ws := WeekdaysOf(log);
    if Count(ws, d) > 0 {
      assert d in multiset(ws);
      var i :| 0 <= i < |ws| && ws[i] == d;
    }
    if exists i :: 0 <= i < |log| && WeekdayOf(log[i].timestamp) == d {
      var i :| 0 <= i < |log| && WeekdayOf(log[i].timestamp) == d;
      assert ws[i] in multiset(ws);
    }
  }

  /** A weekday has a count exactly when some event falls on it, and that count is the number of such events. */
  lemma WeekdayCountsShape(log: seq<LogRecord>)
    ensures forall d :: 0 <= d < 7 ==>
      (WeekdayCounts(log)[d].Some? <==> exists i :: 0 <= i < |log| && WeekdayOf(log[i].timestamp) == d)
    ensures forall d :: 0 <= d < 7 && WeekdayCounts(log)[d].Some? ==>
      WeekdayCounts(log)[d].value == Count(WeekdaysOf(log), d) >= 1
  {
    forall d | 0 <= d < 7
      ensures WeekdayCounts(log)[d].Some? <==> exists i :: 0 <= i < |log| && WeekdayOf(log[i].timestamp) == d
      ensures WeekdayCounts(log)[d].Some? ==> WeekdayCounts(log)[d].value == Count(WeekdaysOf(log), d) >= 1
    {
      WeekdayPresent(log, d);
    }
  }

  /** The weekday counts present total the number of events. */
  lemma WeekdayTotal(log: seq<LogRecord>)
    ensures SumOf(WeekdayCounts(log), PresentValue) == |log|
  {
    var ws := WeekdaysOf(log);
    var rows := CountRows(ws, Range(7));
    SumOfPointwise(WeekdayCounts(log), PresentValue, rows, RowCount);
    SumOfCountRows(ws, Range(7));
    forall x | x in ws ensures x in Range(7) {
      var i :| 0 <= i < |ws| && ws[i] == x;
      assert Range(7)[x] == x;
    }
    SumCountsCovers(ws, Range(7));
  }

  predicate IntLeq(a: int, b: int) {
    a <= b
  }

  /** The dates present, each once, in calendar order. */
  function DatesPresent(log: seq<LogRecord>): (d: seq<int>)
    ensures |d| == |Distinct(DaysOf(log))|
  {
    SortLength(Distinct(DaysOf(log)), IntLeq);
    Sort(Distinct(DaysOf(log)), IntLeq)
  }

  /** Line 691: `groupby('date').size()`, one `(day, count)` row per date present, in calendar order. */
  function DateCounts(log: seq<LogRecord>): (rows: seq<(int, nat)>)
    ensures |rows| == |DatesPresent(log)|
  {
    CountRows(DaysOf(log), DatesPresent(log))
  }

  lemma DatesPresentShape(log: seq<LogRecord>)
    ensures forall k :: 0 <= k < |DatesPresent(log)| ==> DatesPresent(log)[k] in DaysOf(log)
    ensures forall i :: 0 <= i < |log| ==> DayNumber(log[i].timestamp) in DatesPresent(log)
    ensures forall k, l :: 0 <= k < l < |DatesPresent(log)| ==> DatesPresent(log)[k] < DatesPresent(log)[l]
  {
    var days := DaysOf(log);
    var d := Distinct(days);
    var keys := DatesPresent(log);
    assert TotalPreorder(IntLeq);
    SortPermutes(d, IntLeq);
    SortSorted(d, IntLeq);
    NoDuplicatesPermutation(d, keys);
    forall k | 0 <= k < |keys| ensures keys[k] in days {
      assert keys[k] in multiset(d);
    }
    forall i | 0 <= i < |log| ensures days[i] in keys {
      assert days[i] in multiset(d);
    }
    forall k, l | 0 <= k < l < |keys| ensures keys[k] < keys[l] {
      assert IntLeq(keys[k], keys[l]) && keys[k] != keys[l];
    }
  }

  /** Each row is a day on which events occurred, with its number of events. */
  lemma DateCountsRows(log: seq<LogRecord>)
    ensures forall k :: 0 <= k < |DateCounts(log)| ==>
      DateCounts(log)[k].0 in DaysOf(log) && DateCounts(log)[k].1 == Count(DaysOf(log), DateCounts(log)[k].0) >= 1
  {
    DatesPresentShape(log);
    forall k | 0 <= k < |DateCounts(log)|
      ensures DateCounts(log)[k].0 in DaysOf(log) && DateCounts(log)[k].1 == Count(DaysOf(log), DateCounts(log)[k].0) >= 1
    {
      DateRow(log, k);
    }
  }

  lemma DateRow(log: seq<LogRecord>, k: int)
    requires 0 <= k < |DateCounts(log)|
    ensures DateCounts(log)[k].0 in DaysOf(log) && DateCounts(log)[k].1 == Count(DaysOf(log), DateCounts(log)[k].0) >= 1
  {
    DatesPresentShape(log);
    var x := DatesPresent(log)[k];
    assert DateCounts(log)[k] == (x, Count(DaysOf(log), x));
    assert x in multiset(DaysOf(log));
  }

  /** The rows are in strictly increasing calendar order. */
  lemma DateCountsChronological(log: seq<LogRecord>)
    ensures forall k, l :: 0 <= k < l < |DateCounts(log)| ==>
      Before(CivilDate(DateCounts(log)[k].0), CivilDate(DateCounts(log)[l].0))
  {
    var keys := DatesPresent(log);
    DatesPresentShape(log);
    forall k, l | 0 <= k < l < |DateCounts(log)| ensures Before(CivilDate(DateCounts(log)[k].0), CivilDate(DateCounts(log)[l].0)) {
      assert DateCounts(log)[k].0 == keys[k] && DateCounts(log)[l].0 == keys[l];
      CivilDateIncreasing(keys[k], keys[l]);
    }
  }

  /** The daily counts total the number of events. */
  lemma DateCountsTotal(log: seq<LogRecord>)
    ensures SumOf(DateCounts(log), RowCount) == |log|
  {
    var days := DaysOf(log);
    var keys := DatesPresent(log);
    DatesPresentShape(log);
    SumOfCountRows(days, keys);
    forall x | x in days ensures x in keys {
      var i :| 0 <= i < |days| && days[i] == x;
    }
    SortPermutes(Distinct(days), IntLeq);
    NoDuplicatesPermutation(Distinct(days), keys);
    SumCountsCovers(days, keys);
  }
}
