/**
 * Instants as Go's time.Time holds them in UTC: a valid civil date and the
 * nanoseconds elapsed since that day's midnight. Time.After and Time.Before
 * compare instants; Time.AddDate goes through time.Date's normalisation.
 */
module Clock {
  import opened Calendar

  const NanosPerDay: int := 86_400_000_000_000

  type DayNanos = n: int | 0 <= n < NanosPerDay

  type ValidDate = d: Date | Valid(d) witness Date(1, 1, 1)

  /** t.Date() is date; t's time of day is nanos after midnight. */
  datatype Instant = Instant(date: ValidDate, nanos: DayNanos)

  /** A date at midnight, as time.Parse with a date-only layout returns it. */
  function Midnight(d: ValidDate): (t: Instant)
    ensures t.date == d && t.nanos == 0
  {
    Instant(d, 0)
  }

  /** The day number of t's date. */
  function Day(t: Instant): int {
    DayNumber(t.date)
  }

  /** t.After(u): t is strictly later than u. */
  predicate After(t: Instant, u: Instant) {
    Earlier(u.date, t.date) || (t.date == u.date && t.nanos > u.nanos)
  }

  /** t.Before(u): t is strictly earlier than u. */
  predicate Before(t: Instant, u: Instant) {
    After(u, t)
  }

  /** After compares day numbers first and the time of day second. */
  lemma AfterByDay(t: Instant, u: Instant)
    ensures After(t, u) <==> Day(t) > Day(u) || (Day(t) == Day(u) && t.nanos > u.nanos)
  {
    DayNumberOrder(u.date, t.date);
    if Day(t) == Day(u) {
      DayNumberInjective(t.date, u.date);
    }
  }

  /** t.AddDate(years, months, days): time.Date(y+years, m+months, d+days) at t's time of day. */
  function AddDate(t: Instant, years: int, months: int, days: int): Instant {
    Instant(Normalize(t.date.year + years, t.date.month + months, t.date.day + days), t.nanos)
  }

  /** Adding n days moves the day number by n and keeps the time of day. */
  lemma AddDateDays(t: Instant, n: int)
    ensures Day(AddDate(t, 0, 0, n)) == Day(t) + n
    ensures AddDate(t, 0, 0, n).nanos == t.nanos
  {
    NormalizeDayNumber(t.date.year, t.date.month, t.date.day + n);
  }

  /** Adding a days and then b days adds a + b days. */
  lemma AddDateDaysTwice(t: Instant, a: int, b: int)
    ensures AddDate(AddDate(t, 0, 0, a), 0, 0, b) == AddDate(t, 0, 0, a + b)
  {
    var u := AddDate(t, 0, 0, a);
    AddDateDays(t, a);
    AddDateDays(u, b);
    AddDateDays(t, a + b);
    DayNumberInjective(AddDate(u, 0, 0, b).date, AddDate(t, 0, 0, a + b).date);
  }

  /** Adding no days changes nothing. */
  lemma AddDateNoDays(t: Instant)
    ensures AddDate(t, 0, 0, 0) == t
  {
  }

  /** Go's rule for one more year: same month and day, except that February 29 overflows into March 1. */
  function OneYearLater(c: ValidDate): (r: ValidDate)
    ensures r.year == c.year + 1
    ensures r == c.(year := c.year + 1) || (c.month == 2 && c.day == 29 && r == Date(c.year + 1, 3, 1))
  {
    if c.month == 2 && c.day == 29 && !IsLeap(c.year + 1) then Date(c.year + 1, 3, 1)
    else Date(c.year + 1, c.month, c.day)
  }

  /** AddDate(1, 0, 0) follows OneYearLater and keeps the time of day. */
  lemma AddDateYear(t: Instant)
    ensures AddDate(t, 1, 0, 0) == Instant(OneYearLater(t.date), t.nanos)
  {
  }
}
