/**
 * The proleptic Gregorian calendar as Go's time package uses it: civil dates
 * (year, month, day), their day numbers (day 0 is 0000-01-01), which order
 * and count days, the normalisation that time.Date applies to out-of-range
 * months and days, and weekdays.
 */
module Calendar {

  datatype Date = Date(year: int, month: int, day: int)

  predicate IsLeap(y: int) {
    y % 4 == 0 && (y % 100 != 0 || y % 400 == 0)
  }

  /** Days in month m (1..12) of year y. */
  function DaysIn(m: int, y: int): (n: int)
    ensures 28 <= n <= 31
    ensures n == 29 <==> m == 2 && IsLeap(y)
  {
    if m == 2 then (if IsLeap(y) then 29 else 28)
    else if m == 4 || m == 6 || m == 9 || m == 11 then 30
    else 31
  }

  predicate Valid(d: Date) {
    1 <= d.month <= 12 && 1 <= d.day <= DaysIn(d.month, d.year)
  }

  function DaysInYear(y: int): int {
    if IsLeap(y) then 366 else 365
  }

  /** Days from 0000-01-01 to January 1st of year y (negative before year 0). */
  function YearStart(y: int): int {
    365 * y + (y + 3) / 4 - (y + 99) / 100 + (y + 399) / 400
  }

  /** Days before month m (1..12) in a common year. */
  const CumulativeDays: seq<int> := [0, 31, 59, 90, 120, 151, 181, 212, 243, 273, 304, 334]

  /** Days from January 1st to the first day of month m in year y. */
  function MonthStart(m: int, y: int): (n: int)
    requires 1 <= m <= 12
  {
    CumulativeDays[m - 1] + (if m > 2 && IsLeap(y) then 1 else 0)
  }

  /** The day number of a valid date. */
  function DayNumber(d: Date): int
    requires Valid(d)
  {
    YearStart(d.year) + MonthStart(d.month, d.year) + d.day - 1
  }

  lemma MonthStartStep(m: int, y: int)
    requires 1 <= m < 12
    ensures MonthStart(m + 1, y) == MonthStart(m, y) + DaysIn(m, y)
  {
  }

  lemma MonthStartLast(y: int)
    ensures MonthStart(12, y) + DaysIn(12, y) == DaysInYear(y)
  {
  }

  /** The number of multiples of 4, 100 and 400 below y grows by one exactly at a multiple. */
  lemma CeilStep4(y: int)
    ensures (y + 4) / 4 == (y + 3) / 4 + (if y % 4 == 0 then 1 else 0)
  {
    var q, r := (y + 3) / 4, (y + 3) % 4;
    if r == 3 {
      assert y == 4 * q && y + 4 == 4 * (q + 1);
    } else {
      assert y + 4 == 4 * q + (r + 1);
    }
  }

  lemma CeilStep100(y: int)
    ensures (y + 100) / 100 == (y + 99) / 100 + (if y % 100 == 0 then 1 else 0)
  {
    var q, r := (y + 99) / 100, (y + 99) % 100;
    if r == 99 {
      assert y == 100 * q && y + 100 == 100 * (q + 1);
    } else {
      assert y + 100 == 100 * q + (r + 1);
    }
  }

  lemma CeilStep400(y: int)
    ensures (y + 400) / 400 == (y + 399) / 400 + (if y % 400 == 0 then 1 else 0)
  {
    var q, r := (y + 399) / 400, (y + 399) % 400;
    if r == 399 {
      assert y == 400 * q && y + 400 == 400 * (q + 1);
    } else {
      assert y + 400 == 400 * q + (r + 1);
    }
  }

  /** A multiple of 400 is a multiple of 100. */
  lemma Multiple400Of100(y: int)
    ensures y % 400 == 0 ==> y % 100 == 0
  {
    if y % 400 == 0 {
      var q := y / 400;
      assert y == 100 * (4 * q) + 0;
    }
  }

  /** A multiple of 100 is a multiple of 4. */
  lemma Multiple100Of4(y: int)
    ensures y % 100 == 0 ==> y % 4 == 0
  {
    if y % 100 == 0 {
      var q := y / 100;
      assert y == 4 * (25 * q) + 0;
    }
  }

  /** Consecutive years start DaysInYear days apart. */
  lemma YearStartStep(y: int)
    ensures YearStart(y + 1) == YearStart(y) + DaysInYear(y)
  {
    CeilStep4(y);
    CeilStep100(y);
    CeilStep400(y);
    Multiple400Of100(y);
    Multiple100Of4(y);
  }

  lemma {:induction false} YearStartMonotone(a: int, b: int)
    requires a <= b
    ensures YearStart(a) + 365 * (b - a) <= YearStart(b)
    decreases b - a
  {
    if a < b {
      YearStartStep(a);
      YearStartMonotone(a + 1, b);
    }
  }

  /** The day numbers of a valid date stay within its year. */
  lemma DayNumberInYear(d: Date)
    requires Valid(d)
    ensures YearStart(d.year) <= DayNumber(d) < YearStart(d.year + 1)
  {
    YearStartStep(d.year);
    if d.month < 12 {
      MonthStartStep(d.month, d.year);
      MonthStartBelow(d.month + 1, d.year);
    } else {
      MonthStartLast(d.year);
    }
  }

  lemma {:induction false} MonthStartBelow(m: int, y: int)
    requires 1 <= m <= 12
    ensures MonthStart(m, y) + DaysIn(m, y) <= DaysInYear(y)
    decreases 12 - m
  {
    if m < 12 {
      MonthStartStep(m, y);
      MonthStartBelow(m + 1, y);
    } else {
      MonthStartLast(y);
    }
  }

  lemma {:induction false} MonthStartIncreasing(a: int, b: int, y: int)
    requires 1 <= a < b <= 12
    ensures MonthStart(a, y) + DaysIn(a, y) <= MonthStart(b, y)
    decreases b - a
  {
    MonthStartStep(a, y);
    if a + 1 < b {
      MonthStartIncreasing(a + 1, b, y);
    }
  }

  /** (year, month, day) order. */
  predicate Earlier(a: Date, b: Date) {
    a.year < b.year || (a.year == b.year && (a.month < b.month || (a.month == b.month && a.day < b.day)))
  }

  /** Valid dates are ordered by their day numbers as they are by (year, month, day). */
  lemma DayNumberOrder(a: Date, b: Date)
    requires Valid(a) && Valid(b)
    ensures DayNumber(a) < DayNumber(b) <==> Earlier(a, b)
  {
    DayNumberInYear(a);
    DayNumberInYear(b);
    if a.year < b.year {
      YearStartMonotone(a.year + 1, b.year);
    } else if b.year < a.year {
      YearStartMonotone(b.year + 1, a.year);
    } else if a.month < b.month {
      MonthStartIncreasing(a.month, b.month, a.year);
    } else if b.month < a.month {
      MonthStartIncreasing(b.month, a.month, a.year);
    }
  }

  /** Distinct valid dates have distinct day numbers. */
  lemma DayNumberInjective(a: Date, b: Date)
    requires Valid(a) && Valid(b) && DayNumber(a) == DayNumber(b)
    ensures a == b
  {
    DayNumberOrder(a, b);
    DayNumberOrder(b, a);
  }

  /**
   * time.Date(y, m, d) as a civil date: a month outside 1..12 carries into
   * the year, then a day outside its month carries into the neighbouring
   * months (October 32 is November 1, March 0 is the last day of February).
   */
  function Normalize(y: int, m: int, d: int): (r: Date)
    ensures Valid(r)
    decreases if m < 1 then 1 - m else if m > 12 then m - 12 else 0, if d < 1 then 1 - d else 0, if d > 0 then d else 0
  {
    if m < 1 then Normalize(y - 1, m + 12, d)
    else if m > 12 then Normalize(y + 1, m - 12, d)
    else if d < 1 then
      (if m == 1 then Normalize(y - 1, 12, d + 31) else Normalize(y, m - 1, d + DaysIn(m - 1, y)))
    else if d > DaysIn(m, y) then
      (if m == 12 then Normalize(y + 1, 1, d - 31) else Normalize(y, m + 1, d - DaysIn(m, y)))
    else Date(y, m, d)
  }

  /** December of year y ends where year y + 1 starts. */
  lemma DecemberEnd(y: int)
    ensures YearStart(y) + MonthStart(12, y) + 31 == YearStart(y + 1)
  {
    YearStartStep(y);
    MonthStartLast(y);
  }

  /** Normalising counts d - 1 days on from the first of month m. */
  lemma {:induction false} NormalizeDayNumber(y: int, m: int, d: int)
    requires 1 <= m <= 12
    ensures DayNumber(Normalize(y, m, d)) == YearStart(y) + MonthStart(m, y) + d - 1
    decreases if d < 1 then 1 - d else 0, if d > 0 then d else 0
  {
    var n := Normalize(y, m, d);
    if d < 1 && m == 1 {
      assert n == Normalize(y - 1, 12, d + 31);
      NormalizeDayNumber(y - 1, 12, d + 31);
      DecemberEnd(y - 1);
    } else if d < 1 {
      var e := d + DaysIn(m - 1, y);
      assert n == Normalize(y, m - 1, e);
      NormalizeDayNumber(y, m - 1, e);
      MonthStartStep(m - 1, y);
    } else if d > DaysIn(m, y) && m == 12 {
      assert n == Normalize(y + 1, 1, d - 31);
      NormalizeDayNumber(y + 1, 1, d - 31);
      DecemberEnd(y);
    } else if d > DaysIn(m, y) {
      var e := d - DaysIn(m, y);
      assert n == Normalize(y, m + 1, e);
      NormalizeDayNumber(y, m + 1, e);
      MonthStartStep(m, y);
    } else {
      assert n == Date(y, m, d);
    }
  }

  /** Go's Weekday(): Sunday is 0, Monday 1, ..., Saturday 6 (day 0 is a Saturday). */
  function GoWeekday(n: int): (w: int)
    ensures 0 <= w <= 6
  {
    (n + 6) % 7
  }

  /** ISO 8601 weekday: Monday is 1, ..., Sunday is 7. */
  function IsoWeekday(n: int): (w: int)
    ensures 1 <= w <= 7
  {
    (n + 5) % 7 + 1
  }

  /** The ISO weekday moves on by one each day, wrapping from Sunday to Monday. */
  lemma IsoWeekdayShift(n: int, k: int)
    ensures IsoWeekday(n + k) - 1 == (IsoWeekday(n) - 1 + k) % 7
  {
  }

  /** A week later falls on the same weekday. */
  lemma IsoWeekdayWeek(n: int)
    ensures IsoWeekday(n + 7) == IsoWeekday(n)
  {
  }

  /** Sunday-as-7 conversion of Go's weekday is the ISO weekday. */
  lemma GoWeekdayToIso(n: int)
    ensures (if GoWeekday(n) == 0 then 7 else GoWeekday(n)) == IsoWeekday(n)
  {
  }
}
