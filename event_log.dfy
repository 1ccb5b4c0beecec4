/**
 * Event-log assembly (`create_event_log`, lines 178-261): choose the case
 * strategy, project every event to (case_id, activity, timestamp), sort by
 * case id (as text) and then timestamp, and count the events of each case.
 */
module EventLog {
  import opened Common
  import opened Sorting
  import opened Strings
  import opened Tally
  import opened NoiseFilter
  import opened CaseSegmenter

  /** The order of `sort_values(['case_id', 'timestamp'])`. */
  predicate RecordLeq(a: LogRecord, b: LogRecord) {
    StrLt(a.caseId, b.caseId) || (a.caseId == b.caseId && a.timestamp <= b.timestamp)
  }

  lemma StrLeqIsTotalPreorder()
    ensures TotalPreorder(StrLeq)
  {
    forall a, b ensures StrLeq(a, b) || StrLeq(b, a) {
      StrLeqTotal(a, b);
    }
    forall a, b, c | StrLeq(a, b) && StrLeq(b, c) ensures StrLeq(a, c) {
      StrLeqTransitive(a, b, c);
    }
  }

  lemma RecordLeqIsTotalPreorder()
    ensures TotalPreorder(RecordLeq)
  {
    forall a: LogRecord, b: LogRecord ensures RecordLeq(a, b) || RecordLeq(b, a) {
      StrLeqTotal(a.caseId, b.caseId);
    }
    forall a: LogRecord, b: LogRecord, c: LogRecord | RecordLeq(a, b) && RecordLeq(b, c)
      ensures RecordLeq(a, c)
    {
      if a.caseId != b.caseId && b.caseId != c.caseId {
        StrLeqTransitive(a.caseId, b.caseId, c.caseId);
        if a.caseId == c.caseId {
          StrLeqAntisymmetric(a.caseId, b.caseId);
        }
      }
    }
  }

  /** Line 240. */
  function Assemble(tagged: seq<LogRecord>): (a: seq<LogRecord>)
    ensures |a| == |tagged|
  {
    SortLength(tagged, RecordLeq);
    Sort(tagged, RecordLeq)
  }

  /**
   * The assembled log holds every tagged event exactly once, is ordered by
   * (case id, timestamp), and events with equal case id and timestamp keep
   * their relative order.
   */
  lemma AssembleShape(tagged: seq<LogRecord>, e: LogRecord)
    ensures multiset(Assemble(tagged)) == multiset(tagged)
    ensures SortedBy(Assemble(tagged), RecordLeq)
    ensures TiedWith(Assemble(tagged), RecordLeq, e) == TiedWith(tagged, RecordLeq, e)
  {
    RecordLeqIsTotalPreorder();
    SortPermutes(tagged, RecordLeq);
    SortSorted(tagged, RecordLeq);
    SortStable(tagged, RecordLeq, e);
  }

  /** Within the assembled log the events of a case are contiguous and in time order. */
  lemma AssembledCasesContiguous(tagged: seq<LogRecord>, i: int, j: int, k: int)
    requires 0 <= i < j < k < |Assemble(tagged)|
    requires Assemble(tagged)[i].caseId == Assemble(tagged)[k].caseId
    ensures Assemble(tagged)[j].caseId == Assemble(tagged)[i].caseId
    ensures Assemble(tagged)[i].timestamp <= Assemble(tagged)[j].timestamp <= Assemble(tagged)[k].timestamp
  {
    var log := Assemble(tagged);
    RecordLeqIsTotalPreorder();
    SortSorted(tagged, RecordLeq);
    assert RecordLeq(log[i], log[j]) && RecordLeq(log[j], log[k]);
    if log[j].caseId != log[i].caseId {
      StrLeqAntisymmetric(log[i].caseId, log[j].caseId);
    }
  }

  datatype LogError =
    | UnknownStrategy(strategy: string)  // the ValueError of line 233
    | NoEvents                           // the division by zero of line 251

  /** `create_event_log(df, case_strategy)`; `events` are the rows of `df`. */
  method CreateEventLog(events: seq<Event>, strategy: string) returns (r: Result<seq<LogRecord>, LogError>)
    ensures strategy != "daily" && strategy != "session" ==> r == Failure(UnknownStrategy(strategy))
    ensures (strategy == "daily" || strategy == "session") && events == [] ==> r == Failure(NoEvents)
    ensures strategy == "daily" && events != [] ==> r == Success(Assemble(DailyTagged(events)))
    ensures strategy == "session" && events != [] ==> r == Success(Assemble(SessionTagged(Sort(events, EventTimeLeq))))
  {
    var tagged: seq<LogRecord>;
    if strategy == "daily" {
      tagged := DailyTagged(events);
    } else if strategy == "session" {
      tagged := TagSessions(events);
    } else {
      return Failure(UnknownStrategy(strategy));
    }
    var log := Assemble(tagged);
    if |Distinct(CaseIds(log))| == 0 {
      return Failure(NoEvents);
    }
    r := Success(log);
  }

  /** Line 254: `groupby('case_id').size()`, in case id order. */
  function CaseLengths(log: seq<LogRecord>): (rows: seq<(string, nat)>)
    ensures |rows| == |Distinct(CaseIds(log))|
  {
    SortLength(Distinct(CaseIds(log)), StrLeq);
    CountRows(CaseIds(log), Sort(Distinct(CaseIds(log)), StrLeq))
  }

  /** The case ids of a log, each once, in increasing order. */
  lemma CaseKeys(log: seq<LogRecord>)
    ensures NoDuplicates(Sort(Distinct(CaseIds(log)), StrLeq))
    ensures SortedBy(Sort(Distinct(CaseIds(log)), StrLeq), StrLeq)
    ensures forall k :: 0 <= k < |Sort(Distinct(CaseIds(log)), StrLeq)| ==> Sort(Distinct(CaseIds(log)), StrLeq)[k] in CaseIds(log)
    ensures forall i :: 0 <= i < |log| ==> log[i].caseId in Sort(Distinct(CaseIds(log)), StrLeq)
  {
    var ids := CaseIds(log);
    var d := Distinct(ids);
    var keys := Sort(d, StrLeq);
    SortPermutes(d, StrLeq);
    StrLeqIsTotalPreorder();
    SortSorted(d, StrLeq);
    NoDuplicatesPermutation(d, keys);
    forall k | 0 <= k < |keys| ensures keys[k] in ids {
      assert keys[k] in multiset(d);
    }
    forall i | 0 <= i < |log| ensures ids[i] in keys {
      assert ids[i] in multiset(d);
    }
  }

  lemma CaseRow(log: seq<LogRecord>, k: int)
    requires 0 <= k < |CaseLengths(log)|
    ensures CaseLengths(log)[k].0 in CaseIds(log)
    ensures CaseLengths(log)[k].1 == Count(CaseIds(log), CaseLengths(log)[k].0) >= 1
  {
    var keys := Sort(Distinct(CaseIds(log)), StrLeq);
    CaseKeys(log);
    assert CaseLengths(log)[k].0 == keys[k];
    assert keys[k] in multiset(CaseIds(log));
  }

  lemma CaseHasRow(log: seq<LogRecord>, i: int) returns (k: int)
    requires 0 <= i < |log|
    ensures 0 <= k < |CaseLengths(log)| && CaseLengths(log)[k].0 == log[i].caseId
  {
    var keys := Sort(Distinct(CaseIds(log)), StrLeq);
    CaseKeys(log);
    k :| 0 <= k < |keys| && keys[k] == log[i].caseId;
  }

  /** Every row is a case of the log with its number of events, at least one; every case has a row. */
  lemma CaseLengthsRows(log: seq<LogRecord>)
    ensures forall k :: 0 <= k < |CaseLengths(log)| ==>
      CaseLengths(log)[k].0 in CaseIds(log) && CaseLengths(log)[k].1 == Count(CaseIds(log), CaseLengths(log)[k].0) >= 1
    ensures forall i :: 0 <= i < |log| ==> exists k :: 0 <= k < |CaseLengths(log)| && CaseLengths(log)[k].0 == log[i].caseId
  {
    forall k | 0 <= k < |CaseLengths(log)|
      ensures CaseLengths(log)[k].0 in CaseIds(log) && CaseLengths(log)[k].1 == Count(CaseIds(log), CaseLengths(log)[k].0) >= 1
    {
      CaseRow(log, k);
    }
    forall i | 0 <= i < |log| ensures exists k :: 0 <= k < |CaseLengths(log)| && CaseLengths(log)[k].0 == log[i].caseId {
      var k := CaseHasRow(log, i);
    }
    assert forall i :: 0 <= i < |log| ==> exists k :: 0 <= k < |CaseLengths(log)| && CaseLengths(log)[k].0 == log[i].caseId;
  }

  /** Rows come in strictly increasing case id order, so no case has two rows. */
  lemma CaseLengthsOrdered(log: seq<LogRecord>)
    ensures forall k, l :: 0 <= k < l < |CaseLengths(log)| ==> StrLt(CaseLengths(log)[k].0, CaseLengths(log)[l].0)
  {
    var keys := Sort(Distinct(CaseIds(log)), StrLeq);
    var rows := CaseLengths(log);
    CaseKeys(log);
    forall k, l | 0 <= k < l < |rows| ensures StrLt(rows[k].0, rows[l].0) {
      assert rows[k].0 == keys[k] && rows[l].0 == keys[l];
    }
  }

  /** The case lengths add up to the number of events. */
  lemma CaseLengthsSum(log: seq<LogRecord>)
    ensures SumOf(CaseLengths(log), RowCount) == |log|
  {
    var ids := CaseIds(log);
    var keys := Sort(Distinct(ids), StrLeq);
    CaseKeys(log);
    SumOfCountRows(ids, keys);
    forall x | x in ids ensures x in keys {
      var i :| 0 <= i < |ids| && ids[i] == x;
    }
    SumCountsCovers(ids, keys);
  }

  /** An event log never has more cases than events. */
  lemma FewerCasesThanEvents(log: seq<LogRecord>)
    ensures |CaseLengths(log)| <= |log|
  {
    SortLength(Distinct(CaseIds(log)), StrLeq);
  }
}
