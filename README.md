# Aruba smart-home process mining: the event-log pipeline

This project models the data-curation and analytics core of
`process_mining_aruba.py`. That script turns the CASAS Aruba smart-home
sensor stream into a process-mining event log and then summarises that log.
The model covers these stages:

- **Noise filter** (`preprocess_data`, module `NoiseFilter`):
  - sort the raw readings by timestamp, with missing timestamps last;
  - drop rows with a missing timestamp, sensor or value;
  - drop debounce noise;
  - label each event `sensor + "_" + value`.

  A reading is kept when it is the first reading of its sensor, or when it
  comes at least the threshold after the previous reading of the same
  sensor. "Previous reading" means the one before it in the input, whether
  that reading was kept or not. This is what
  `groupby('sensor_id')['timestamp'].diff()` computes. `Debounce` is the
  one-pass loop with a map from each sensor to the last time it was seen.
  It is proved equal to the function `Debounced`.
- **Case segmenter** (`create_event_log`, module `CaseSegmenter`). It gives
  each event a `case_id` in one of two ways:
  - `daily`: the event's date as `YYYY-MM-DD`;
  - `session`: sort by time, start a new session when there is no previous
    event or the gap is more than 7200 s, and number the sessions by a
    running count. Each event is labelled with its own date, `_S` and the
    session number. A session that crosses midnight therefore carries two
    case ids. `NumberSessions` is the loop with the running counter.
- **Event-log assembly** (module `EventLog`):
  - project the events to (case id, activity, timestamp);
  - sort by case id as text, then by timestamp, so `..._S10` sorts before
    `..._S2`;
  - count the events of each case;
  - fail on an unknown strategy (`ValueError`) or an empty log (division by
    zero).
- **Analyzers**:
  - activity frequencies (`ActivityFrequency`);
  - trace variants, their ranking and the cumulative-coverage loop
    (`TraceVariants`);
  - per-case throughput times (`Throughput`);
  - hour, weekday and date histograms, with the text bar chart
    (`TemporalPatterns`).

Supporting modules:

- `Calendar`: microsecond timestamps, the proleptic Gregorian date of a day
  number, `strftime('%Y-%m-%d')`, hour and weekday;
- `Decimal`: decimal rendering of numbers and its inverse;
- `Strings`: Python's string order;
- `Sorting`: one stable sort used for every ordering step;
- `Tally`: counts and distinct values;
- `Common`: `Option` and `Result`.

Timestamps are integer microseconds since 1970-01-01. They are bounded by
the range of pandas' nanosecond timestamps. Thresholds and durations are
integer microseconds too. The ratios printed as percentages are `real`, so
their arithmetic is exact.

Two points where the model follows the code rather than a looser reading of
its intent:

- The debounce compares with the previous reading of the same sensor, not
  with the last reading that was kept.
- The 80% message at line 577 is guarded by `len(cumulative_coverage) == i`,
  which always holds. The model therefore reports every prefix length from
  the first one that reaches 80% onward, not only the first one.
  `TraceVariants.EightSingletons` shows this on eight one-case variants: it
  reports `[7, 8]`.

## Model

| member | source | states |
|---|---|---|
| NoiseFilter.RawLeqIsTotalPreorder | process_mining_aruba.py:128 | the timestamp order with missing timestamps last is total and transitive |
| Sorting.SortPermutes | process_mining_aruba.py:128 | sorting returns exactly the input rows, each as often as it occurred |
| Sorting.SortSorted | process_mining_aruba.py:128 | under a total preorder the sorted rows are in key order |
| Sorting.SortStable | process_mining_aruba.py:240 | rows with equal keys come out in their input order |
| Sorting.SortOfSorted | process_mining_aruba.py:128 | sorting rows that are already in order changes nothing |
| Sorting.SumOfSort | process_mining_aruba.py:558 | reordering rows does not change a total over them |
| NoiseFilter.Complete | process_mining_aruba.py:133 | `dropna` never adds rows; which rows survive, and how often, is stated by `CompleteCounts` |
| NoiseFilter.CompleteCounts | process_mining_aruba.py:133 | after `dropna` each complete row occurs as often as in the input, and no other row survives |
| NoiseFilter.CompleteFromInput | process_mining_aruba.py:133 | every surviving row is an input row |
| NoiseFilter.CompleteSorted | process_mining_aruba.py:128-133 | dropping incomplete rows from time-sorted input leaves the rows in time order |
| NoiseFilter.CompleteOfSorted | process_mining_aruba.py:128-133 | sorting and then dropping incomplete rows gives time-sorted readings |
| NoiseFilter.LastSeenSpec | process_mining_aruba.py:141 | a sensor has a previous time iff it has a reading, and that time is the timestamp of its latest reading |
| NoiseFilter.LastSeenIsLatest | process_mining_aruba.py:141 | in time order, a sensor's latest timestamp is no earlier than any of its readings |
| NoiseFilter.KeepRule | process_mining_aruba.py:141-144 | a reading is kept iff it is its sensor's first reading or its gap to the previous reading of that sensor is at least the threshold |
| NoiseFilter.KeptIndicesMembers | process_mining_aruba.py:144-147 | a position is kept iff the rule of line 144 holds there |
| NoiseFilter.Debounced | process_mining_aruba.py:141-147 | the debounce step never adds readings; the readings it keeps are stated by `KeepRule` and `DebouncedSelects` |
| NoiseFilter.DebouncedSelects | process_mining_aruba.py:147 | the output is the subsequence of the input at the kept positions, which strictly increase |
| NoiseFilter.SubsequenceSorted | process_mining_aruba.py:147 | debouncing time-sorted readings keeps them in time order |
| NoiseFilter.DebouncedSpaced | process_mining_aruba.py:141-147 | any two kept readings of one sensor are at least the threshold apart |
| NoiseFilter.NonPositiveThresholdKeepsAll | process_mining_aruba.py:144 | a threshold of zero or less keeps every reading of a time-sorted stream |
| NoiseFilter.SpacedIsKept | process_mining_aruba.py:144-147 | a stream whose readings per sensor are already spaced by the threshold passes unchanged |
| NoiseFilter.DebounceIdempotent | process_mining_aruba.py:141-147 | debouncing a debounced time-sorted stream again changes nothing |
| NoiseFilter.Debounce | process_mining_aruba.py:141-147 | the loop over a sensor-to-last-time map returns exactly the debounced readings |
| NoiseFilter.Label | process_mining_aruba.py:157 | each event carries its reading's fields and the label `sensor + "_" + value` |
| NoiseFilter.Unlabel | process_mining_aruba.py:157 | dropping the label gives back each reading, position by position |
| NoiseFilter.AsRaws | process_mining_aruba.py:133 | a clean reading as a row with all three cells present, position by position |
| NoiseFilter.CompleteOfComplete | process_mining_aruba.py:133 | `dropna` on rows that are all complete returns them unchanged |
| NoiseFilter.Cleaned | process_mining_aruba.py:94-171 | what `preprocess_data` returns has no more rows than the input, and every event is labelled `sensor_value` |
| NoiseFilter.Preprocess | process_mining_aruba.py:94-171 | fails exactly when duplicates are removed and no complete row is left (the division at line 150); otherwise returns the sorted, complete, debounced and labelled events, each labelled `sensor_value` |
| NoiseFilter.CleanedShape | process_mining_aruba.py:128-157 | the cleaned events are in time order and each is a complete input row |
| NoiseFilter.PreprocessIdempotent | process_mining_aruba.py:94-171 | running the whole noise filter on its own output with the same threshold gives the same events |
| Calendar.HourOf | process_mining_aruba.py:653 | the hour is in 0..23 and its hour interval contains the instant's time of day |
| Calendar.WeekdayOf | process_mining_aruba.py:654 | the weekday is in 0..6, Monday being 0 |
| Calendar.WeekdayNextDay | process_mining_aruba.py:654 | the weekday advances by one each day, Sunday wrapping to Monday |
| Calendar.WeekdayAfterDays | process_mining_aruba.py:654 | `k` days later the weekday has advanced by `k`, modulo 7 |
| Calendar.WeekdayAnchor | process_mining_aruba.py:654 | 1970-01-01 is a Thursday (3) and 1970-01-05 is a Monday (0), so the numbering starts the week on Monday |
| Calendar.NextDate | process_mining_aruba.py:211 | the next calendar date is a valid date and later |
| Calendar.PrevDate | process_mining_aruba.py:211 | the previous calendar date is valid and its next date is the given date |
| Calendar.CivilDate | process_mining_aruba.py:211 | every day number has a valid Gregorian date |
| Calendar.CivilDateIncreasing | process_mining_aruba.py:691 | later days have strictly later dates |
| Calendar.CivilDateInjective | process_mining_aruba.py:211 | two day numbers have the same date iff they are equal |
| Calendar.InstantYear | process_mining_aruba.py:211 | every representable instant falls in a year 1677..2262 |
| Calendar.DateStringRoundTrip | process_mining_aruba.py:211 | the rendered `YYYY-MM-DD` string parses back to the date |
| Calendar.DateStringInjective | process_mining_aruba.py:211 | two valid dates render to the same string iff they are equal |
| Calendar.DateStringLength | process_mining_aruba.py:211 | a four-digit year renders in exactly ten characters, none of them `_` |
| Calendar.DateOf | process_mining_aruba.py:211 | the date string of an instant has ten characters |
| Calendar.DateOfSameDay | process_mining_aruba.py:211 | two instants render to the same date string iff they fall on the same day |
| Decimal.Digits | process_mining_aruba.py:227 | `str(n)` is a non-empty string of digits, one digit iff `n < 10` |
| Decimal.ParseDigitsOfDigits | process_mining_aruba.py:227 | the decimal rendering of a session number parses back to it |
| Decimal.Padded | process_mining_aruba.py:211 | zero padding yields digits only and at least the field width |
| Decimal.PaddedRoundTrip | process_mining_aruba.py:211 | a zero-padded field parses back to its number |
| Decimal.DigitsLength | process_mining_aruba.py:211 | months and days take at most two digits, and four-digit years exactly four |
| CaseSegmenter.CaseIds | process_mining_aruba.py:236 | the case id column, position by position |
| CaseSegmenter.DaysOf | process_mining_aruba.py:655 | the date column as day numbers, position by position |
| CaseSegmenter.DailyTagged | process_mining_aruba.py:211 | one record per event, keeping its activity and timestamp; its case id is its date (`Throughput.DailyRecord`, `DailyCasesAreDays`) |
| CaseSegmenter.DailyCasesAreDays | process_mining_aruba.py:211 | two events share a daily case iff they fall on the same calendar day |
| CaseSegmenter.DailyCaseCount | process_mining_aruba.py:211 | the number of daily cases is the number of distinct days present |
| CaseSegmenter.NumberSessions | process_mining_aruba.py:219-227 | the loop with a running session counter labels each event with its own date, `_S` and its session number |
| CaseSegmenter.TagSessions | process_mining_aruba.py:216-227 | the session strategy is the time sort followed by that labelling |
| CaseSegmenter.SessionCount | process_mining_aruba.py:222-223 | among the first `n` events there are at most `n` session starts, and at least one when `n > 0` |
| CaseSegmenter.SessionTagged | process_mining_aruba.py:216-227 | one record per time-sorted event; which events share a case is stated by `SessionCases` |
| CaseSegmenter.SessionNumberBounds | process_mining_aruba.py:222-223 | the session number of the `i`-th event is between 1 and `i + 1`; the first event is in session 1 |
| CaseSegmenter.SessionCountSteady | process_mining_aruba.py:222-223 | session numbers never decrease, and stay equal across a stretch exactly when no session starts in it |
| CaseSegmenter.SessionCaseIdParts | process_mining_aruba.py:226-227 | two session case ids are equal iff they have the same day and the same session number |
| CaseSegmenter.SessionCases | process_mining_aruba.py:219-227 | two events share a session case iff they are on the same day and no gap of more than 7200 s lies between them |
| CaseSegmenter.SessionCaseGaps | process_mining_aruba.py:219-227 | within a session case no gap between consecutive events exceeds 7200 s |
| Strings.StrLeqTotal | process_mining_aruba.py:240 | any two strings are comparable |
| Strings.StrLeqTransitive | process_mining_aruba.py:240 | the string order is transitive |
| Strings.StrLeqAntisymmetric | process_mining_aruba.py:240 | strings that sort both ways are equal |
| Strings.StrLeqCommonPrefix | process_mining_aruba.py:240 | a shared prefix does not decide the order |
| Strings.SessionTenBeforeTwo | process_mining_aruba.py:240 | a day's session 10 sorts before its session 2 |
| EventLog.StrLeqIsTotalPreorder | process_mining_aruba.py:240 | the case id order is a total preorder |
| EventLog.RecordLeqIsTotalPreorder | process_mining_aruba.py:240 | the (case id, timestamp) order is a total preorder |
| EventLog.Assemble | process_mining_aruba.py:236-240 | the assembled log has one record per tagged event; its contents and order are stated by `AssembleShape` |
| EventLog.AssembleShape | process_mining_aruba.py:236-240 | the log holds every tagged event exactly once, in (case id, timestamp) order, with ties in input order |
| EventLog.AssembledCasesContiguous | process_mining_aruba.py:240 | the events of a case are contiguous in the log and in time order |
| EventLog.CreateEventLog | process_mining_aruba.py:208-251 | an unknown strategy raises; an empty input fails at the division of line 251; otherwise the result is the assembled daily or session log |
| EventLog.CaseKeys | process_mining_aruba.py:254 | the case keys are the log's case ids, each once, in increasing order |
| EventLog.CaseLengths | process_mining_aruba.py:254 | one row per distinct case id; the rows themselves are stated by `CaseLengthsRows` |
| EventLog.CaseLengthsRows | process_mining_aruba.py:254 | each row is a case of the log with its number of events, at least one, and every case has a row |
| EventLog.CaseLengthsOrdered | process_mining_aruba.py:254 | the rows come in strictly increasing case id order |
| EventLog.CaseLengthsSum | process_mining_aruba.py:254 | the case lengths add up to the number of events |
| EventLog.FewerCasesThanEvents | process_mining_aruba.py:249-254 | a log never has more cases than events |
| Tally.Count | process_mining_aruba.py:513 | the count of a value is its number of occurrences |
| Tally.Distinct | process_mining_aruba.py:513 | the distinct values hold no duplicates and exactly the input's values |
| Tally.SumCountsDistinct | process_mining_aruba.py:513 | the counts of the distinct values add up to the number of values |
| Tally.Range | process_mining_aruba.py:662 | `range(n)` lists `0..n-1` without duplicates |
| Tally.CountRows | process_mining_aruba.py:254 | one row per key, holding the key and its count |
| Tally.NoDuplicatesPermutation | process_mining_aruba.py:513 | reordering a duplicate-free sequence keeps it duplicate-free |
| Tally.DistinctSameShape | process_mining_aruba.py:211 | sequences that agree on which positions are equal have equally many distinct values |
| Tally.Minimum | process_mining_aruba.py:597 | `min()` is an element and no element is smaller |
| Tally.Maximum | process_mining_aruba.py:597 | `max()` is an element and no element is larger |
| ActivityFrequency.Activities | process_mining_aruba.py:513 | the activity column, position by position |
| ActivityFrequency.CountGeqIsTotalPreorder | process_mining_aruba.py:513 | descending count order is a total preorder |
| ActivityFrequency.ActivityCounts | process_mining_aruba.py:513 | one row per distinct activity; the rows and their order are stated by `ActivityCountsRows` and `ActivityCountsOrder` |
| ActivityFrequency.ActivityCountsRows | process_mining_aruba.py:513 | each row is an activity of the log with its exact number of occurrences, at least one, and every activity has a row |
| ActivityFrequency.ActivityCountsDistinct | process_mining_aruba.py:513 | no activity has two rows |
| ActivityFrequency.ActivityCountsOrder | process_mining_aruba.py:513 | counts never increase down the table and add up to the number of events; equal counts keep first-occurrence order |
| ActivityFrequency.Head | process_mining_aruba.py:517 | `head(n)` is a prefix of `min(n, len)` rows, or for negative `n` all but the last `-n` rows |
| ActivityFrequency.TopActivities | process_mining_aruba.py:515-519 | the rows listed are a prefix of the activity table, of length `min(top_n, #activities)` for non-negative `top_n` |
| ActivityFrequency.TopActivitiesArePrefix | process_mining_aruba.py:515-519 | the listed rows are the first `min(top_n, #activities)` rows of the table |
| TraceVariants.IndicesOf | process_mining_aruba.py:550 | the reference grouping: exactly the cases with a given trace, in increasing order |
| TraceVariants.GroupVariants | process_mining_aruba.py:550 | the grouping of cases by trace; what it holds is stated by `GroupVariantsSpec`, `GroupVariantsCases` and `VariantCount` |
| TraceVariants.AddCaseLength | process_mining_aruba.py:550 | a new trace adds one variant, a known one none, and the case total grows by one |
| TraceVariants.AddCaseAt | process_mining_aruba.py:550 | filing a case changes only the variant of its trace, which gains the case at the end |
| TraceVariants.AddCaseNew | process_mining_aruba.py:550 | an unknown trace opens a new variant at the end |
| TraceVariants.AddCaseDistinct | process_mining_aruba.py:550 | filing a case keeps the variants' traces distinct |
| TraceVariants.GroupVariantsDistinct | process_mining_aruba.py:550 | no two variants have the same trace |
| TraceVariants.GroupVariantsCount | process_mining_aruba.py:550 | the variants' case counts add up to the number of cases, and there are no more variants than cases |
| TraceVariants.GroupVariantsCover | process_mining_aruba.py:550 | every case's trace is the trace of some variant |
| TraceVariants.GroupVariantsCases | process_mining_aruba.py:550 | each variant lists exactly the cases with its trace, in log order, at least one |
| TraceVariants.UnseenTrace | process_mining_aruba.py:550 | a trace with no variant belongs to no case |
| TraceVariants.GroupVariantsSpec | process_mining_aruba.py:550 | the variants partition the cases by trace |
| TraceVariants.CaseMembership | process_mining_aruba.py:550 | a case belongs to a variant iff the variant's trace is the case's trace |
| TraceVariants.VariantCount | process_mining_aruba.py:553-554 | a non-empty log has between 1 and #cases variants |
| TraceVariants.Complexity | process_mining_aruba.py:555 | variants per case lies in (0, 1] |
| TraceVariants.MoreCasesIsTotalPreorder | process_mining_aruba.py:558 | descending case count order is a total preorder |
| TraceVariants.Ranked | process_mining_aruba.py:558 | the ranking has as many variants as the grouping |
| TraceVariants.RankedShape | process_mining_aruba.py:558 | the ranking is a permutation with non-increasing case counts, stable on ties, with the same case total |
| TraceVariants.VariantCoverage | process_mining_aruba.py:571-578 | the `i`-th cumulative entry is `(i, coverage of the first i variants)`, and the reports are exactly those of the reference definition |
| TraceVariants.Covered | process_mining_aruba.py:574 | the cases covered by the first `n` variants; it never decreases in `n` (`CoveredMonotone`) and reaches the case total (`CoveredAll`) |
| TraceVariants.Coverage | process_mining_aruba.py:575 | coverage in percent; its 80% test is exact integer arithmetic (`CoverageThreshold`) |
| TraceVariants.Reported | process_mining_aruba.py:577 | at most `n` reports, each between 1 and `n`; exactly which counts are reported is stated by `ReportedMembers` |
| TraceVariants.CoverageThreshold | process_mining_aruba.py:575-577 | coverage is at least 80% iff `100 * covered >= 80 * total` |
| TraceVariants.CoveredMonotone | process_mining_aruba.py:574 | cumulative case counts never decrease |
| TraceVariants.ReportedMembers | process_mining_aruba.py:577 | a count is reported iff that many variants cover at least 80% of the cases; reports strictly increase |
| TraceVariants.ReportedIsSuffix | process_mining_aruba.py:577 | once a count is reported, every larger count up to the number of variants is too |
| TraceVariants.ReportedNone | process_mining_aruba.py:577 | nothing is reported while coverage stays below 80% |
| TraceVariants.ReportedLast | process_mining_aruba.py:577 | the last count is reported when it reaches 80% |
| TraceVariants.CoveredAll | process_mining_aruba.py:574 | all variants together cover their whole case total |
| TraceVariants.CoverageOfAll | process_mining_aruba.py:575 | covering every case is 100% |
| TraceVariants.CoveredSingletons | process_mining_aruba.py:574 | with one case per variant, `n` variants cover `n` cases |
| TraceVariants.FullCoverage | process_mining_aruba.py:571-578 | the ranked variants together cover every case, so the full count is always reported |
| TraceVariants.EightSingletons | process_mining_aruba.py:571-578 | eight one-case variants report 7 and 8, not 6 |
| TraceVariants.AnalyzeTraceVariants | process_mining_aruba.py:550-580 | an empty log fails at line 555; otherwise returns the variants and the reports of the ranked coverage loop, which include the number of variants |
| Throughput.CaseEvents | process_mining_aruba.py:597 | the events of a case are exactly the log's events with that case id, and as many as the case's count |
| Throughput.Timestamps | process_mining_aruba.py:597 | the timestamp column, position by position |
| Throughput.CaseTimeOf | process_mining_aruba.py:597-598 | the row of case `c`: start no later than end and the duration their difference; start and end are attained bounds (`CaseTimeSpec`) |
| Throughput.CaseTimes | process_mining_aruba.py:597 | one row per distinct case id, each a case of the log with a non-negative duration |
| Throughput.TimestampsMembers | process_mining_aruba.py:597 | the timestamps are exactly those of the events |
| Throughput.CaseTimeSpec | process_mining_aruba.py:597-598 | a case starts at the earliest and ends at the latest timestamp of its events, both attained, and its duration is end minus start, never negative |
| Throughput.ZeroDuration | process_mining_aruba.py:598 | a duration is zero iff all the case's events share one timestamp |
| Throughput.SingleEventCase | process_mining_aruba.py:598 | a one-event case lasts zero time |
| Throughput.CaseTimesShape | process_mining_aruba.py:597 | one row per case in case id order, each the min/max/duration of that case |
| Throughput.CaseTimesCover | process_mining_aruba.py:597 | every case has a row and case ids strictly increase down the table |
| Throughput.DailyRecord | process_mining_aruba.py:211 | a daily log record is labelled with the date of its own timestamp |
| Throughput.DailyCasesWithinADay | process_mining_aruba.py:211 | under the daily strategy every case lasts less than a day, so less than 24 hours |
| Throughput.Durations | process_mining_aruba.py:598 | the duration column, position by position |
| Throughput.MinDuration | process_mining_aruba.py:604 | the minimum is missing iff there are no rows, else it is a duration and no duration is smaller |
| Throughput.MaxDuration | process_mining_aruba.py:605 | the maximum is missing iff there are no rows, else it is a duration and no duration is larger |
| Throughput.SumOfDurationBounds | process_mining_aruba.py:602 | the total of durations lies between `n * lo` and `n * hi` |
| Throughput.MeanDuration | process_mining_aruba.py:602 | the mean is missing iff there are no rows; otherwise it times the number of rows is the total duration |
| Throughput.MeanBounds | process_mining_aruba.py:602 | a mean of values between `lo` and `hi` lies between them |
| Throughput.MeanBetweenExtremes | process_mining_aruba.py:602-605 | the mean duration lies between the minimum and the maximum |
| Throughput.DurationsNonNegative | process_mining_aruba.py:598-604 | every duration, and so the minimum, is non-negative |
| Throughput.Hours | process_mining_aruba.py:598 | a duration in hours, multiplied by the microseconds per hour, gives back the microseconds |
| Throughput.HoursBound | process_mining_aruba.py:598 | a duration of less than a day is between 0 and 24 hours |
| TemporalPatterns.HoursOf | process_mining_aruba.py:653 | the hour column, position by position |
| TemporalPatterns.HourTableShape | process_mining_aruba.py:658-663 | 24 rows `(h, count of hour h)` in hour order, totalling the number of events |
| TemporalPatterns.HourTable | process_mining_aruba.py:657-663 | 24 rows, one per hour; their contents are stated by `HourTableShape` |
| TemporalPatterns.PeakHourShape | process_mining_aruba.py:664 | a non-empty log has a busiest hour with at least one event, and no hour has more |
| TemporalPatterns.PeakHourCount | process_mining_aruba.py:664 | `max()` of the hour table: some hour has that count and none has more |
| TemporalPatterns.BarLength | process_mining_aruba.py:664 | the bar of an hour, from its table row and the peak; its bounds and monotonicity are stated by `BarBounds` |
| TemporalPatterns.BarBounds | process_mining_aruba.py:664 | bars are 0..50 blocks, exactly the busiest hours get 50, an empty hour gets 0, and a busier hour never gets a shorter bar |
| TemporalPatterns.BarArithmetic | process_mining_aruba.py:664 | `count * 50 / peak` rounded down is 0..50, 50 iff `count == peak`, 0 for no events, monotone in the count |
| TemporalPatterns.WeekdaysOf | process_mining_aruba.py:654 | the weekday column, position by position |
| TemporalPatterns.WeekdayCounts | process_mining_aruba.py:680-681 | seven entries, Monday to Sunday |
| TemporalPatterns.WeekdayPresent | process_mining_aruba.py:681 | a weekday has a count iff some event falls on it, and the count is that weekday's number of events |
| TemporalPatterns.WeekdayCountsShape | process_mining_aruba.py:680-681 | the same for all seven weekdays at once |
| TemporalPatterns.WeekdayTotal | process_mining_aruba.py:681 | the weekday counts that are present total the number of events |
| TemporalPatterns.DatesPresent | process_mining_aruba.py:691 | one entry per distinct date present; which dates and their order are stated by `DatesPresentShape` |
| TemporalPatterns.DateCounts | process_mining_aruba.py:691 | one row per date present; the rows are stated by `DateCountsRows` |
| TemporalPatterns.DatesPresentShape | process_mining_aruba.py:691 | every date present is listed once, in increasing order, and nothing else |
| TemporalPatterns.DateCountsRows | process_mining_aruba.py:691 | each row is a day with events and its number of events, at least one |
| TemporalPatterns.DateCountsChronological | process_mining_aruba.py:691 | rows are in strictly increasing calendar order |
| TemporalPatterns.DateCountsTotal | process_mining_aruba.py:691 | the daily counts total the number of events |

## Left out

- `load_aruba_data` (lines 52-91) is CSV reading and printing, so it is not modelled.
- Timestamp parsing by `pd.to_datetime` (line 124) is not modelled: the model takes timestamps as already parsed. Unparsable strings would raise there.
- `convert_to_pm4py_log`, the `discover_process_*` functions and the `visualize_*` functions (lines 264-491) wrap pm4py and graphviz, which are not part of this model.
- The input of the variant analysis is given as one activity sequence per case. The grouping by `variants_module.get_variants` (line 550) is modelled by its meaning: cases with identical activity sequences, in order of first appearance.
- Plotting and file saving (lines 521-532, 615-634, 667-702) are not modelled.
- The printed summaries are not modelled. These are:
  - the rows removed by `dropna` and their count (line 134);
  - the count and percentage of debounced readings (line 150); only the failure of that division on an empty frame is modelled, by `NoiseFilter.Preprocess`;
  - the final counts, time span and top-10 sensor table (lines 159-169);
  - the log summary (lines 247-251); only the failure of the division at line 251 is modelled, by `EventLog.CreateEventLog`;
  - the case-length min/max/mean/median (lines 255-259); the case-length table itself is modelled;
  - the activity percentages (line 518);
  - the top-10 variant display with percentages and truncated traces (lines 560-568); the ranking itself is modelled.
- Median, standard deviation and percentiles of the durations (lines 603, 606, 609-613) are not modelled: they need interpolation or square roots and are only printed.
- Floating point is not modelled:
  - `total_seconds()` and the conversion to hours (line 598) become exact integer microseconds (`Throughput.Hours` converts a duration to exact `real` hours);
  - coverage and means are exact `real`s;
  - `TemporalPatterns.Bar` is the exact floor of `count * 50 / peak`, where a float product might round one block lower.
- Sort stability: pandas sorts a single column (lines 128, 216) and `value_counts` (line 513) with an unstable quicksort. The model uses one stable sort, so it fixes the tie order of equal timestamps and of equal counts. Which of two same-sensor readings with one timestamp is kept therefore follows input order.
- `NoiseFilter.Preprocess`: `time_threshold_seconds` is an integer number of microseconds; fractions of a microsecond are not modelled.
- `EventLog.CreateEventLog`: the `activity_column` parameter is always `activity`, the column the noise filter creates. The pm4py alias columns (lines 243-245) are copies and are left out.
- `TraceVariants.Complexity` requires a non-empty log: line 555 divides by the number of cases.
- `TemporalPatterns.BarLength` requires a non-empty log: `max()` of no hours is NaN, and `int(NaN)` raises at line 664.
- `TemporalPatterns.PeakHourShape` and `TemporalPatterns.BarBounds` are stated for non-empty logs, for the same reason.
- Timestamps are limited to the range of pandas' nanosecond timestamps (years 1677-2262), in whole microseconds.
- `quick_start_examples.py` is not part of this model: it is an interactive menu and demo calls of the functions above.
