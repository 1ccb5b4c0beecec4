/**
 * Timestamps and the proleptic Gregorian calendar that pandas' `.dt`
 * accessors use: day number, calendar date, `YYYY-MM-DD` rendering, hour of
 * day and weekday.
 *
 * A timestamp is an integer count of microseconds since 1970-01-01 00:00:00
 * (the readings carry `HH:MM:SS.ffffff` times and no time zone), restricted to
 * the range that pandas' nanosecond `datetime64` can hold.
 */
module Calendar {
  import opened Decimal

  const MicrosPerSecond: int := 1_000_000
  const MicrosPerHour: int := 3_600_000_000
  const MicrosPerDay: int := 86_400_000_000

  /** The first and last microsecond of pandas' `Timestamp.min` .. `Timestamp.max`. */
  const MinInstant: int := -9_223_372_036_854_775
  const MaxInstant: int := 9_223_372_036_854_775

  type Instant = t: int | MinInstant <= t <= MaxInstant

  /** Days since 1970-01-01 (floor division, so instants before 1970 go to earlier days). */
  function DayNumber(t: int): int {
    t / MicrosPerDay
  }

  function MicroOfDay(t: int): (m: int)
    ensures 0 <= m < MicrosPerDay
  {
    t % MicrosPerDay
  }

  /** `Timestamp.hour`. */
  function HourOf(t: int): (h: int)
    ensures 0 <= h < 24
    ensures MicrosPerHour * h <= MicroOfDay(t) < MicrosPerHour * (h + 1)
  {
    MicroOfDay(t) / MicrosPerHour
  }

  /** `Timestamp.weekday()`: 0 is Monday; 1970-01-01 was a Thursday (3). */
  function WeekdayOf(t: int): (w: int)
    ensures 0 <= w < 7
  {
    (DayNumber(t) + 3) % 7
  }

  /** The weekday advances by one, Sunday wrapping to Monday, from one day to the next. */
  lemma WeekdayNextDay(t: int)
    ensures WeekdayOf(t + MicrosPerDay) == (WeekdayOf(t) + 1) % 7
  {
    assert DayNumber(t + MicrosPerDay) == DayNumber(t) + 1;
  }

  /** Counting `k` days on from any instant advances the weekday by `k`, modulo 7. */
  lemma {:induction false} WeekdayAfterDays(t: int, k: nat)
    ensures WeekdayOf(t + k * MicrosPerDay) == (WeekdayOf(t) + k) % 7
  {
    if k > 0 {
      var u := t + (k - 1) * MicrosPerDay;
      var w := WeekdayOf(t) + k - 1;
      WeekdayAfterDays(t, k - 1);
      WeekdayNextDay(u);
      assert u + MicrosPerDay == t + k * MicrosPerDay;
      assert (w % 7 + 1) % 7 == (w + 1) % 7;
    }
  }

  /**
   * The numbering agrees with the calendar: 1970-01-01 (the epoch) is a
   * Thursday, 3, and the following Monday, 1970-01-05, is 0.
   */
  lemma WeekdayAnchor()
    ensures CivilDate(0) == Date(1970, 1, 1) && WeekdayOf(0) == 3
    ensures CivilDate(4) == Date(1970, 1, 5) && WeekdayOf(4 * MicrosPerDay) == 0
  {
    assert CivilDate(1) == Date(1970, 1, 2);
    assert CivilDate(2) == Date(1970, 1, 3);
    assert CivilDate(3) == Date(1970, 1, 4);
    WeekdayAfterDays(0, 4);
  }

  lemma InstantDays(t: Instant)
    ensures -106752 <= DayNumber(t) <= 106751
  {
  }

  datatype Date = Date(year: int, month: int, day: int)

  predicate IsLeapYear(y: int) {
    y % 4 == 0 && (y % 100 != 0 || y % 400 == 0)
  }

  function DaysInMonth(y: int, m: int): (n: int)
    requires 1 <= m <= 12
    ensures 28 <= n <= 31
  {
    if m == 2 then (if IsLeapYear(y) then 29 else 28)
    else if m == 4 || m == 6 || m == 9 || m == 11 then 30
    else 31
  }

  predicate ValidDate(d: Date) {
    1 <= d.month <= 12 && 1 <= d.day <= DaysInMonth(d.year, d.month)
  }

  /** Chronological order of calendar dates. */
  predicate Before(a: Date, b: Date) {
    a.year < b.year
    || (a.year == b.year && a.month < b.month)
    || (a.year == b.year && a.month == b.month && a.day < b.day)
  }

  function NextDate(d: Date): (r: Date)
    requires ValidDate(d)
    ensures ValidDate(r) && Before(d, r)
  {
    if d.day < DaysInMonth(d.year, d.month) then d.(day := d.day + 1)
    else if d.month < 12 then Date(d.year, d.month + 1, 1)
    else Date(d.year + 1, 1, 1)
  }

  function PrevDate(d: Date): (r: Date)
    requires ValidDate(d)
    ensures ValidDate(r) && NextDate(r) == d
  {
    if d.day > 1 then d.(day := d.day - 1)
    else if d.month > 1 then Date(d.year, d.month - 1, DaysInMonth(d.year, d.month - 1))
    else Date(d.year - 1, 12, 31)
  }

  /** The calendar date of day number `z` (0 is 1970-01-01), one day at a time. */
  function CivilDate(z: int): (d: Date)
    ensures ValidDate(d)
    decreases if z < 0 then -z else z
  {
    if z == 0 then Date(1970, 1, 1)
    else if z > 0 then NextDate(CivilDate(z - 1))
    else PrevDate(CivilDate(z + 1))
  }

  lemma CivilDateStep(z: int)
    ensures CivilDate(z + 1) == NextDate(CivilDate(z))
  {
  }

  /** Later days have later dates, so distinct days have distinct dates. */
  lemma {:induction false} CivilDateIncreasing(z1: int, z2: int)
    requires z1 < z2
    ensures Before(CivilDate(z1), CivilDate(z2))
    decreases z2 - z1
  {
    CivilDateStep(z2 - 1);
    if z1 < z2 - 1 {
      CivilDateIncreasing(z1, z2 - 1);
    }
  }

  lemma CivilDateInjective(z1: int, z2: int)
    ensures CivilDate(z1) == CivilDate(z2) <==> z1 == z2
  {
    if z1 < z2 {
      CivilDateIncreasing(z1, z2);
    } else if z2 < z1 {
      CivilDateIncreasing(z2, z1);
    }
  }

  /** Days of the non-leap year before month `m`. */
  function DaysBeforeMonth(m: int): int
    requires 1 <= m <= 12
  {
    [0, 31, 59, 90, 120, 151, 181, 212, 243, 273, 304, 334][m - 1]
  }

  /** A day count that advances by at most one per calendar day. */
  function Progress(d: Date): int
    requires ValidDate(d)
  {
    365 * (d.year - 1970) + DaysBeforeMonth(d.month) + d.day - 1
  }

  lemma ProgressStep(d: Date)
    requires ValidDate(d)
    ensures Progress(d) <= Progress(NextDate(d)) <= Progress(d) + 1
  {
  }

  lemma {:induction false} ProgressBounds(z: int)
    ensures z >= 0 ==> 0 <= Progress(CivilDate(z)) <= z
    ensures z <= 0 ==> z <= Progress(CivilDate(z)) <= 0
    decreases if z < 0 then -z else z
  {
    if z > 0 {
      ProgressBounds(z - 1);
      ProgressStep(CivilDate(z - 1));
    } else if z < 0 {
      ProgressBounds(z + 1);
      ProgressStep(CivilDate(z));
      CivilDateStep(z);
    }
  }

  /** Every representable instant falls in a year 1677 .. 2262. */
  lemma InstantYear(t: Instant)
    ensures 1677 <= CivilDate(DayNumber(t)).year <= 2262
  {
    InstantDays(t);
    ProgressBounds(DayNumber(t));
  }

  /** `strftime('%Y-%m-%d')`. */
  function DateString(d: Date): (s: string)
    requires ValidDate(d) && d.year >= 0
  {
    Padded(d.year, 4) + "-" + Padded(d.month, 2) + "-" + Padded(d.day, 2)
  }

  /** Reads a `YYYY-MM-DD` string back. */
  function ParseDate(s: string): Date
    requires |s| >= 6
  {
    Date(ParseDigits(s[..|s| - 6]), ParseDigits(s[|s| - 5..|s| - 3]), ParseDigits(s[|s| - 2..]))
  }

  lemma DateStringRoundTrip(d: Date)
    requires ValidDate(d) && d.year >= 0
    ensures |DateString(d)| >= 6 && ParseDate(DateString(d)) == d
  {
    DigitsLength(d.month);
    DigitsLength(d.day);
    var s := DateString(d);
    var y, m, dd := Padded(d.year, 4), Padded(d.month, 2), Padded(d.day, 2);
    assert s == y + "-" + m + "-" + dd;
    assert s[..|s| - 6] == y;
    assert s[|s| - 5..|s| - 3] == m;
    assert s[|s| - 2..] == dd;
    PaddedRoundTrip(d.year, 4);
    PaddedRoundTrip(d.month, 2);
    PaddedRoundTrip(d.day, 2);
  }

  lemma DateStringInjective(a: Date, b: Date)
    requires ValidDate(a) && a.year >= 0 && ValidDate(b) && b.year >= 0
    ensures DateString(a) == DateString(b) <==> a == b
  {
    DateStringRoundTrip(a);
    DateStringRoundTrip(b);
  }

  /** A date string of a representable instant is exactly ten characters. */
  lemma DateStringLength(d: Date)
    requires ValidDate(d) && 1000 <= d.year < 10000
    ensures |DateString(d)| == 10
    ensures forall i :: 0 <= i < 10 ==> DateString(d)[i] != '_'
  {
    DigitsLength(d.year);
    DigitsLength(d.month);
    DigitsLength(d.day);
  }

  /** `timestamp.dt.strftime('%Y-%m-%d')` of an instant. */
  function DateOf(t: Instant): (s: string)
    ensures |s| == 10
  {
    InstantYear(t);
    DateStringLength(CivilDate(DayNumber(t)));
    DateString(CivilDate(DayNumber(t)))
  }

  /** Two instants render to the same date string iff they fall on the same day. */
  lemma DateOfSameDay(t1: Instant, t2: Instant)
    ensures DateOf(t1) == DateOf(t2) <==> DayNumber(t1) == DayNumber(t2)
  {
    InstantYear(t1);
    InstantYear(t2);
    DateStringInjective(CivilDate(DayNumber(t1)), CivilDate(DayNumber(t2)));
    CivilDateInjective(DayNumber(t1), DayNumber(t2));
   }
}
