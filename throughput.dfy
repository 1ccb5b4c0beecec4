/**
 * `analyze_throughput_time` (lines 583-636): each case's first and last
 * timestamp and the time between them, and the extremes and mean of those
 * durations.
 */
module Throughput {
  import opened Common
  import opened Calendar
  import opened Sorting
  import opened Tally
  import opened Strings
  import opened NoiseFilter
  import opened CaseSegmenter
  import opened EventLog

  /** The events of case `c`, in log order. */
  function CaseEvents(log: seq<LogRecord>, c: string): (es: seq<LogRecord>)
    ensures forall r :: r in es <==> r in log && r.caseId == c
    ensures |es| == Count(CaseIds(log), c)
  {
    if log == [] then []
    else
      assert CaseIds(log) == [log[0].caseId] + CaseIds(log[1..]);
      assert forall r :: r in log <==> r == log[0] || r in log[1..];
      (if log[0].caseId == c then [log[0]] else []) + CaseEvents(log[1..], c)
  }

  function Timestamps(es: seq<LogRecord>): (ts: seq<int>)
    ensures |ts| == |es| && forall k :: 0 <= k < |es| ==> ts[k] == es[k].timestamp
  {
    if es == [] then [] else [es[0].timestamp] + Timestamps(es[1..])
  }

  lemma TimestampsMembers(es: seq<LogRecord>)
    ensures forall x :: x in Timestamps(es) ==> exists r :: r in es && r.timestamp == x
    ensures forall r :: r in es ==> r.timestamp in Timestamps(es)
  {
    var ts := Timestamps(es);
    forall x | x in ts ensures exists r :: r in es && r.timestamp == x {
      var k :| 0 <= k < |ts| && ts[k] == x;
      assert es[k] in es;
    }
    forall r | r in es ensures r.timestamp in ts {
      var k :| 0 <= k < |es| && es[k] == r;
      assert ts[k] == r.timestamp;
    }
  }

  /** One row of `case_times`: the case, its `min` and `max` timestamp and the `duration` between, in microseconds. */
  datatype CaseTime = CaseTime(caseId: string, start: int, end: int, duration: int)

  /** Lines 597-598 for the case `c`. */
  function CaseTimeOf(log: seq<LogRecord>, c: string): (ct: CaseTime)
    requires c in CaseIds(log)
    ensures ct.caseId == c && ct.start <= ct.end && ct.duration == ct.end - ct.start
  {
    assert c in multiset(CaseIds(log));
    var ts := Timestamps(CaseEvents(log, c));
    CaseTime(c, Minimum(ts), Maximum(ts), Maximum(ts) - Minimum(ts))
  }

  /** Line 597: `groupby('case_id')`, one row per case in case id order. */
  function CaseTimes(log: seq<LogRecord>): (rows: seq<CaseTime>)
    ensures |rows| == |Distinct(CaseIds(log))|
    ensures forall k :: 0 <= k < |rows| ==> rows[k].caseId in CaseIds(log) && rows[k].duration >= 0
  {
    var keys := Sort(Distinct(CaseIds(log)), StrLeq);
    CaseKeys(log);
    SortLength(Distinct(CaseIds(log)), StrLeq);
    seq(|keys|, k requires 0 <= k < |keys| => CaseTimeOf(log, keys[k]))
  }

  /**
   * A case starts at the earliest and ends at the latest of its events'
   * timestamps, both of which are timestamps of its events.
   */
  lemma CaseTimeSpec(log: seq<LogRecord>, c: string)
    requires c in CaseIds(log)
    ensures exists r :: r in log && r.caseId == c && r.timestamp == CaseTimeOf(log, c).start
    ensures exists r :: r in log && r.caseId == c && r.timestamp == CaseTimeOf(log, c).end
    ensures forall r :: r in log && r.caseId == c ==> CaseTimeOf(log, c).start <= r.timestamp <= CaseTimeOf(log, c).end
    ensures CaseTimeOf(log, c).caseId == c
    ensures CaseTimeOf(log, c).duration == CaseTimeOf(log, c).end - CaseTimeOf(log, c).start >= 0
  {
    assert c in multiset(CaseIds(log));
    TimestampsMembers(CaseEvents(log, c));
  }

  /** A duration is zero exactly when all the case's events share one timestamp. */
  lemma ZeroDuration(log: seq<LogRecord>, c: string)
    requires c in CaseIds(log)
    ensures CaseTimeOf(log, c).duration == 0 <==>
      forall r1, r2 :: r1 in log && r2 in log && r1.caseId == c && r2.caseId == c ==> r1.timestamp == r2.timestamp
  {
    CaseTimeSpec(log, c);
  }

  /** A case of one event lasts zero time. */
  lemma SingleEventCase(log: seq<LogRecord>, c: string)
    requires c in CaseIds(log) && Count(CaseIds(log), c) == 1
    ensures CaseTimeOf(log, c).duration == 0
  {
    var ts := Timestamps(CaseEvents(log, c));
    assert ts == [ts[0]];
  }

  /** The table has one row per case of the log, in strictly increasing case id order. */
  lemma CaseTimesShape(log: seq<LogRecord>)
    ensures |CaseTimes(log)| == |CaseLengths(log)|
    ensures forall k :: 0 <= k < |CaseTimes(log)| ==> CaseTimes(log)[k].caseId == CaseLengths(log)[k].0
    ensures forall k :: 0 <= k < |CaseTimes(log)| ==>
      CaseTimes(log)[k].caseId in CaseIds(log) && CaseTimes(log)[k] == CaseTimeOf(log, CaseTimes(log)[k].caseId)
  {
    var keys := Sort(Distinct(CaseIds(log)), StrLeq);
    CaseKeys(log);
    forall k | 0 <= k < |CaseTimes(log)|
      ensures CaseTimes(log)[k].caseId == CaseLengths(log)[k].0
      ensures CaseTimes(log)[k].caseId in CaseIds(log) && CaseTimes(log)[k] == CaseTimeOf(log, CaseTimes(log)[k].caseId)
    {
      assert CaseTimes(log)[k] == CaseTimeOf(log, keys[k]);
      CaseTimeSpec(log, keys[k]);
    }
  }

  /** Every case of the log has a row, and the case ids strictly increase down the table. */
  lemma CaseTimesCover(log: seq<LogRecord>)
    ensures forall i :: 0 <= i < |log| ==> exists k :: 0 <= k < |CaseTimes(log)| && CaseTimes(log)[k].caseId == log[i].caseId
    ensures forall k, l :: 0 <= k < l < |CaseTimes(log)| ==> StrLt(CaseTimes(log)[k].caseId, CaseTimes(log)[l].caseId)
  {
    CaseTimesShape(log);
    CaseLengthsRows(log);
    CaseLengthsOrdered(log);
    forall i | 0 <= i < |log| ensures exists k :: 0 <= k < |CaseTimes(log)| && CaseTimes(log)[k].caseId == log[i].caseId {
      var k := CaseHasRow(log, i);
      assert CaseTimes(log)[k].caseId == log[i].caseId;
    }
    assert forall i :: 0 <= i < |log| ==> exists k :: 0 <= k < |CaseTimes(log)| && CaseTimes(log)[k].caseId == log[i].caseId;
  }

  /** Under the daily strategy every case lies within one calendar day: it lasts less than 24 hours. */
  lemma DailyCasesWithinADay(events: seq<Event>, c: string)
    requires c in CaseIds(Assemble(DailyTagged(events)))
    ensures CaseTimeOf(Assemble(DailyTagged(events)), c).duration < MicrosPerDay
    ensures Hours(CaseTimeOf(Assemble(DailyTagged(events)), c).duration) < 24.0
  {
    var tagged := DailyTagged(events);
    var log := Assemble(tagged);
    AssembleShape(tagged, LogRecord("", "", 0));
    CaseTimeSpec(log, c);
    var r1 :| r1 in log && r1.caseId == c && r1.timestamp == CaseTimeOf(log, c).start;
    var r2 :| r2 in log && r2.caseId == c && r2.timestamp == CaseTimeOf(log, c).end;
    DailyRecord(events, r1);
    DailyRecord(events, r2);
    DateOfSameDay(r1.timestamp, r2.timestamp);
    HoursBound(CaseTimeOf(log, c).duration);
  }

  /** A record of the daily log is labelled with the date of its own timestamp. */
  lemma DailyRecord(events: seq<Event>, r: LogRecord)
    requires r in multiset(DailyTagged(events))
    ensures r.caseId == DateOf(r.timestamp)
  {
    var k :| 0 <= k < |DailyTagged(events)| && DailyTagged(events)[k] == r;
  }

  function Durations(rows: seq<CaseTime>): (ds: seq<int>)
    ensures |ds| == |rows| && forall k :: 0 <= k < |rows| ==> ds[k] == rows[k].duration
  {
    if rows == [] then [] else [rows[0].duration] + Durations(rows[1..])
  }

  /** Line 604: the shortest duration; `NaN` (here `None`) for a table without rows. */
  function MinDuration(rows: seq<CaseTime>): (m: Option<int>)
    ensures m.None? <==> rows == []
    ensures m.Some? ==> exists k :: 0 <= k < |rows| && rows[k].duration == m.value
    ensures m.Some? ==> forall k :: 0 <= k < |rows| ==> m.value <= rows[k].duration
  {
    if rows == [] then None
    else
      var ds := Durations(rows);
      assert forall k :: 0 <= k < |rows| ==> ds[k] in ds;
      Some(Minimum(ds))
  }

  /** Line 605: the longest duration; `None` for a table without rows. */
  function MaxDuration(rows: seq<CaseTime>): (m: Option<int>)
    ensures m.None? <==> rows == []
    ensures m.Some? ==> exists k :: 0 <= k < |rows| && rows[k].duration == m.value
    ensures m.Some? ==> forall k :: 0 <= k < |rows| ==> rows[k].duration <= m.value
  {
    if rows == [] then None
    else
      var ds := Durations(rows);
      assert forall k :: 0 <= k < |rows| ==> ds[k] in ds;
      Some(Maximum(ds))
  }

  function Duration(row: CaseTime): int {
    row.duration
  }

  /** Line 602: the mean duration; `None` for a table without rows. */
  function MeanDuration(rows: seq<CaseTime>): (m: Option<real>)
    ensures m.None? <==> rows == []
    ensures m.Some? ==> m.value * |rows| as real == SumOf(rows, Duration) as real
  {
    if rows == [] then None else Some(SumOf(rows, Duration) as real / |rows| as real)
  }

  /** Line 598: microseconds as (fractional) hours. */
  function Hours(micros: int): (h: real)
    ensures h * MicrosPerHour as real == micros as real
  {
    micros as real / MicrosPerHour as real
  }

  /** Hours are monotone in microseconds, and a duration of less than a day is less than 24 hours. */
  lemma HoursBound(micros: int)
    requires 0 <= micros < MicrosPerDay
    ensures 0.0 <= Hours(micros) < 24.0
  {
    var h := Hours(micros);
    assert h * MicrosPerHour as real < 24.0 * MicrosPerHour as real;
  }

  lemma {:induction false} SumOfDurationBounds(rows: seq<CaseTime>, lo: int, hi: int)
    requires forall k :: 0 <= k < |rows| ==> lo <= rows[k].duration <= hi
    ensures |rows| * lo <= SumOf(rows, Duration) <= |rows| * hi
  {
    if rows != [] {
      assert forall k :: 0 <= k < |rows[1..]| ==> rows[1..][k] == rows[k + 1];
      SumOfDurationBounds(rows[1..], lo, hi);
      assert |rows| * lo == (|rows| - 1) * lo + lo;
      assert |rows| * hi == (|rows| - 1) * hi + hi;
    }
  }

  lemma MeanBounds(sum: int, n: int, lo: int, hi: int)
    requires n > 0 && n * lo <= sum <= n * hi
    ensures lo as real <= sum as real / n as real <= hi as real
  {
    var mean := sum as real / n as real;
    assert mean * n as real == sum as real;
    assert (n * lo) as real == n as real * lo as real;
    assert (n * hi) as real == n as real * hi as real;
  }

  /** The mean lies between the shortest and the longest duration. */
  lemma MeanBetweenExtremes(rows: seq<CaseTime>)
    requires rows != []
    ensures MinDuration(rows).value as real <= MeanDuration(rows).value <= MaxDuration(rows).value as real
  {
    SumOfDurationBounds(rows, MinDuration(rows).value, MaxDuration(rows).value);
    MeanBounds(SumOf(rows, Duration), |rows|, MinDuration(rows).value, MaxDuration(rows).value);
  }

  /** Every case's duration is non-negative, so the shortest one is too. */
  lemma DurationsNonNegative(log: seq<LogRecord>)
    ensures forall k :: 0 <= k < |CaseTimes(log)| ==> CaseTimes(log)[k].duration >= 0
    ensures CaseTimes(log) != [] ==> MinDuration(CaseTimes(log)).value >= 0
  {
    CaseTimesShape(log);
    forall k | 0 <= k < |CaseTimes(log)| ensures CaseTimes(log)[k].duration >= 0 {
      CaseTimeSpec(log, CaseTimes(log)[k].caseId);
    }
  }
}
