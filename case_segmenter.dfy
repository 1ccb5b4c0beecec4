/**
 * The case segmenter of `create_event_log`: the two ways of giving every
 * cleaned event a `case_id`.
 *
 * - daily: the event's date, `YYYY-MM-DD`;
 * - session: sessions are split where the gap to the previous event of any
 *   sensor is more than two hours, numbered from 1 by a running count, and
 *   each event is labelled with ITS OWN date plus `_S` plus the number, so a
 *   session that runs past midnight carries two case ids.
 */
module CaseSegmenter {
  import opened Calendar
  import opened Decimal
  import opened Sorting
  import opened Tally
  import opened NoiseFilter

  /** Line 222: a session ends after a gap of more than 7200 seconds. */
  const SessionGap: int := 7200 * MicrosPerSecond

  /** A row of the event log: `case_id`, `activity`, `timestamp`. */
  datatype LogRecord = LogRecord(caseId: string, activity: string, timestamp: Instant)

  function CaseIds(log: seq<LogRecord>): (ids: seq<string>)
    ensures |ids| == |log| && forall i :: 0 <= i < |log| ==> ids[i] == log[i].caseId
  {
    if log == [] then [] else [log[0].caseId] + CaseIds(log[1..])
  }

  /** Line 655 (`.dt.date`): the day of each event, as days since 1970-01-01. */
  function DaysOf(log: seq<LogRecord>): (ds: seq<int>)
    ensures |ds| == |log| && forall i :: 0 <= i < |log| ==> ds[i] == DayNumber(log[i].timestamp)
  {
    if log == [] then [] else [DayNumber(log[0].timestamp)] + DaysOf(log[1..])
  }

  /** Line 211: the daily strategy, in input order. */
  function DailyTagged(events: seq<Event>): (t: seq<LogRecord>)
    ensures |t| == |events|
    ensures forall i :: 0 <= i < |events| ==> t[i].activity == events[i].activity && t[i].timestamp == events[i].timestamp
  {
    seq(|events|, i requires 0 <= i < |events| =>
      LogRecord(DateOf(events[i].timestamp), events[i].activity, events[i].timestamp))
  }

  /** Two events share a daily case iff they fall on the same calendar day. */
  lemma DailyCasesAreDays(events: seq<Event>)
    ensures forall i, j :: 0 <= i < |events| && 0 <= j < |events| ==>
      (DailyTagged(events)[i].caseId == DailyTagged(events)[j].caseId <==>
       DayNumber(events[i].timestamp) == DayNumber(events[j].timestamp))
  {
    forall i, j | 0 <= i < |events| && 0 <= j < |events| {
      DateOfSameDay(events[i].timestamp, events[j].timestamp);
    }
  }

  /** The number of daily cases is the number of distinct dates present. */
  lemma DailyCaseCount(events: seq<Event>)
    ensures |Distinct(CaseIds(DailyTagged(events)))| == |Distinct(DaysOf(DailyTagged(events)))|
  {
    DailyCasesAreDays(events);
    DistinctSameShape(CaseIds(DailyTagged(events)), DaysOf(DailyTagged(events)));
  }

  /** Line 222: the first event, or one more than two hours after its predecessor. */
  predicate StartsSession(es: seq<Event>, j: int)
    requires 0 <= j < |es|
  {
    j == 0 || es[j].timestamp - es[j - 1].timestamp > SessionGap
  }

  /** Line 223: the running count (`cumsum`) of session starts among the first `n` events. */
  function SessionCount(es: seq<Event>, n: int): (c: nat)
    requires 0 <= n <= |es|
    ensures c <= n
    ensures n > 0 ==> c >= 1
  {
    if n == 0 then 0 else SessionCount(es, n - 1) + (if StartsSession(es, n - 1) then 1 else 0)
  }

  /** Lines 226-227: the event's own date, `_S`, the session number. */
  function SessionCaseId(t: Instant, session: nat): string {
    DateOf(t) + "_S" + Digits(session)
  }

  function SessionRecord(es: seq<Event>, i: int): LogRecord
    requires 0 <= i < |es|
  {
    LogRecord(SessionCaseId(es[i].timestamp, SessionCount(es, i + 1)), es[i].activity, es[i].timestamp)
  }

  /** The session strategy applied to time-sorted events. */
  function SessionTagged(es: seq<Event>): (t: seq<LogRecord>)
    ensures |t| == |es|
  {
    seq(|es|, i requires 0 <= i < |es| => SessionRecord(es, i))
  }

  /** Lines 216-227: sort by time, then one pass with a running session counter. */
  method TagSessions(events: seq<Event>) returns (tagged: seq<LogRecord>)
    ensures tagged == SessionTagged(Sort(events, EventTimeLeq))
  {
    var es := Sort(events, EventTimeLeq);
    tagged := NumberSessions(es);
  }

  /** Lines 222-227 on time-sorted events `es`. */
  method NumberSessions(es: seq<Event>) returns (tagged: seq<LogRecord>)
    ensures tagged == SessionTagged(es)
  {
    tagged := [];
    var session: nat := 0;
    for i := 0 to |es|
      invariant |tagged| == i
      invariant session == SessionCount(es, i)
      invariant forall k :: 0 <= k < i ==> tagged[k] == SessionRecord(es, k)
    {
      if i == 0 || es[i].timestamp - es[i - 1].timestamp > SessionGap {
        session := session + 1;
      }
      tagged := tagged + [LogRecord(SessionCaseId(es[i].timestamp, session), es[i].activity, es[i].timestamp)];
    }
  }

  /** The session number of event `i` is at least 1 (the first event opens session 1) and at most `i + 1`. */
  lemma {:induction false} SessionNumberBounds(es: seq<Event>, i: int)
    requires 0 <= i < |es|
    ensures 1 <= SessionCount(es, i + 1) <= i + 1
  {
    if i > 0 {
      SessionNumberBounds(es, i - 1);
    }
  }

  /** Session numbers never decrease; they stay equal exactly across a stretch with no session start. */
  lemma {:induction false} SessionCountSteady(es: seq<Event>, m: int, n: int)
    requires 0 <= m <= n <= |es|
    ensures SessionCount(es, m) <= SessionCount(es, n)
    ensures SessionCount(es, m) == SessionCount(es, n) <==> forall j :: m <= j < n ==> !StartsSession(es, j)
    decreases n - m
  {
    if m < n {
      SessionCountSteady(es, m, n - 1);
    }
  }

  /** A session case id determines the day and the session number, and is determined by them. */
  lemma SessionCaseIdParts(t1: Instant, n1: nat, t2: Instant, n2: nat)
    ensures SessionCaseId(t1, n1) == SessionCaseId(t2, n2) <==> DayNumber(t1) == DayNumber(t2) && n1 == n2
  {
    var s1, s2 := SessionCaseId(t1, n1), SessionCaseId(t2, n2);
    assert s1[..10] == DateOf(t1) && s1[12..] == Digits(n1);
    assert s2[..10] == DateOf(t2) && s2[12..] == Digits(n2);
    DateOfSameDay(t1, t2);
    ParseDigitsOfDigits(n1);
    ParseDigitsOfDigits(n2);
  }

  /**
   * Two events share a session case iff they are on the same day and no
   * session starts between them.
   */
  lemma SessionCases(es: seq<Event>, i: int, k: int)
    requires 0 <= i < k < |es|
    ensures SessionTagged(es)[i].caseId == SessionTagged(es)[k].caseId
      <==> DayNumber(es[i].timestamp) == DayNumber(es[k].timestamp) && forall j :: i < j <= k ==> !StartsSession(es, j)
  {
    SessionCaseIdParts(es[i].timestamp, SessionCount(es, i + 1), es[k].timestamp, SessionCount(es, k + 1));
    SessionCountSteady(es, i + 1, k + 1);
  }

  /** Within a session case, no gap between consecutive events exceeds two hours. */
  lemma SessionCaseGaps(es: seq<Event>, i: int, k: int)
    requires 0 <= i < k < |es|
    requires SessionTagged(es)[i].caseId == SessionTagged(es)[k].caseId
    ensures forall j :: i < j <= k ==> es[j].timestamp - es[j - 1].timestamp <= SessionGap
  {
    SessionCases(es, i, k);
    forall j | i < j <= k ensures es[j].timestamp - es[j - 1].timestamp <= SessionGap {
      assert !StartsSession(es, j);
    }
  }
}
