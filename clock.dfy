/** The instants the punch rows carry, as the UTC fields toISOString
    exposes (the engine reads those fields as local wall-clock time), with
    the calendar arithmetic a JavaScript Date performs on them. */
module Clock {

  datatype Stamp = Stamp(year: int, month: int, day: int,
                         hour: int, minute: int, second: int, millis: int)

  datatype Date = Date(year: int, month: int, day: int)

  predicate IsLeapYear(y: int) {
    y % 4 == 0 && (y % 100 != 0 || y % 400 == 0)
  }

  function DaysInMonth(y: int, m: int): (n: int)
    requires 1 <= m <= 12
    ensures 28 <= n <= 31
  {
    if m == 2 then (if IsLeapYear(y) then 29 else 28)
    else if m == 4 || m == 6 || m == 9 || m == 11 then 30
    else 31
  }

  /** A date toISOString writes with a four-digit year. */
  predicate ValidDate(d: Date) {
    0 <= d.year <= 9999 && 1 <= d.month <= 12 && 1 <= d.day <= DaysInMonth(d.year, d.month)
  }

  predicate ValidStamp(t: Stamp) {
    && ValidDate(Date(t.year, t.month, t.day))
    && 0 <= t.hour < 24 && 0 <= t.minute < 60 && 0 <= t.second < 60 && 0 <= t.millis < 1000
  }

  type CalendarDate = d: Date | ValidDate(d) witness Date(1970, 1, 1)

  type Instant = t: Stamp | ValidStamp(t) witness Stamp(1970, 1, 1, 0, 0, 0, 0)

  function DateOf(t: Instant): CalendarDate {
    Date(t.year, t.month, t.day)
  }

  /** The clock reading in minutes since midnight, seconds dropped. */
  function MinuteOfDay(t: Instant): (r: int)
    ensures 0 <= r < 24 * 60
  {
    t.hour * 60 + t.minute
  }

  /** The clock reading in seconds since midnight. */
  function SecondOfDay(t: Instant): (r: int)
    ensures 0 <= r < 24 * 60 * 60
    ensures r / 60 == MinuteOfDay(t)
  {
    t.hour * 3600 + t.minute * 60 + t.second
  }

  /** Days since 1970-01-01 in the proleptic Gregorian calendar. */
  function EpochDays(d: CalendarDate): int {
    var y := if d.month <= 2 then d.year - 1 else d.year;
    var era := y / 400;
    var yearOfEra := y - era * 400;
    var dayOfYear := (153 * (if d.month > 2 then d.month - 3 else d.month + 9) + 2) / 5 + d.day - 1;
    var dayOfEra := yearOfEra * 365 + yearOfEra / 4 - yearOfEra / 100 + dayOfYear;
    era * 146097 + dayOfEra - 719468
  }

  /** The number a Date stands for in arithmetic and comparisons
      (milliseconds since the epoch). */
  function EpochMs(t: Instant): (ms: int)
    ensures EpochDays(DateOf(t)) * 86400000 <= ms < EpochDays(DateOf(t)) * 86400000 + 86400000
  {
    EpochDays(DateOf(t)) * 86400000 + SecondOfDay(t) * 1000 + t.millis
  }

  /** Day of the week, 0 for Sunday (1970-01-01 was a Thursday). */
  function Weekday(d: CalendarDate): (w: nat)
    ensures w < 7
  {
    (EpochDays(d) + 4) % 7
  }

  /** Calendar order of dates. */
  predicate DateLt(a: Date, b: Date) {
    a.year < b.year
    || (a.year == b.year && a.month < b.month)
    || (a.year == b.year && a.month == b.month && a.day < b.day)
  }

  /** On one calendar date, an instant that does not come after another in
      Date order does not have a later clock minute either. */
  lemma SameDayOrder(a: Instant, b: Instant)
    requires DateOf(a) == DateOf(b)
    requires EpochMs(a) <= EpochMs(b)
    ensures MinuteOfDay(a) <= MinuteOfDay(b)
  {
    assert SecondOfDay(a) * 1000 + a.millis <= SecondOfDay(b) * 1000 + b.millis;
    assert SecondOfDay(a) <= SecondOfDay(b);
  }

  lemma KnownWeekdays()
    ensures Weekday(Date(1970, 1, 1)) == 4
    ensures Weekday(Date(2024, 5, 1)) == 3
    ensures Weekday(Date(2000, 2, 29)) == 2
  {
    assert EpochDays(Date(1970, 1, 1)) == 0;
    assert EpochDays(Date(2024, 5, 1)) == 19844;
    assert EpochDays(Date(2000, 2, 29)) == 11016;
  }
}
