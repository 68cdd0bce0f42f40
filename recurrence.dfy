/**
 * What the next-occurrence loops compute, stated without loops: stepping
 * an instant forward by a fixed number of days, stepping it by whole years
 * with Go's February 29 overflow, and the weekday offset search. Each
 * iterator's loop is proved to compute one of these, and the lemmas here
 * say what they mean: the least number of steps after which now is no
 * longer after the date, the weekday that is reached, and that no date in
 * between qualifies.
 */
module Recurrence {
  import opened Calendar
  import opened Clock

  /** Go's `a % 7` on int: truncated toward zero, so the remainder takes the sign of a. */
  function GoRem7(a: int): int {
    if a >= 0 then a % 7 else -((-a) % 7)
  }

  /** The truncated remainder differs from a by a multiple of 7, is below 7 in size and takes a's sign. */
  lemma GoRem7Meaning(a: int)
    ensures var r := GoRem7(a);
      (a - r) % 7 == 0 && -7 < r < 7 && (a >= 0 ==> r >= 0) && (a <= 0 ==> r <= 0)
  {
  }

  lemma MulMono(a: int, b: int, c: int)
    requires a <= b && c >= 0
    ensures a * c <= b * c
  {
  }

  lemma MulPred(a: int, c: int)
    ensures (a - 1) * c == a * c - c
  {
  }

  // ------------------------------------------------------------ day steps

  /** Days from t to now, counting a started day when now's time of day is later than t's. */
  function Gap(now: Instant, t: Instant): int {
    Day(now) - Day(t) + (if now.nanos > t.nanos then 1 else 0)
  }

  /** now is after t plus n days exactly when n falls short of the gap. */
  lemma AfterShift(now: Instant, t: Instant, n: int)
    ensures After(now, AddDate(t, 0, 0, n)) <==> n < Gap(now, t)
  {
    AddDateDays(t, n);
    AfterByDay(now, AddDate(t, 0, 0, n));
  }

  /** How many steps of `step` days it takes before now is no longer after the date. */
  function StepsNeeded(now: Instant, t: Instant, step: int): nat
    requires step >= 1 || !After(now, t)
  {
    AfterByDay(now, t);
    var g := Gap(now, t);
    if g <= 0 then 0 else (g + step - 1) / step
  }

  /** The first t + k·step days (k >= 0) that now is not after. */
  function NextByDays(now: Instant, t: Instant, step: int): Instant
    requires step >= 1 || !After(now, t)
  {
    AddDate(t, 0, 0, StepsNeeded(now, t, step) * step)
  }

  /** j steps of `step` fall short of a gap g exactly when j is below the rounded-up quotient. */
  lemma StepsBelowGap(g: int, step: int, j: nat)
    requires step >= 1
    ensures j * step < g <==> j < (if g <= 0 then 0 else (g + step - 1) / step)
  {
    if g > 0 {
      var k := (g + step - 1) / step;
      assert step * k <= g + step - 1 < step * (k + 1);
      if j < k {
        MulMono(j, k - 1, step);
      } else {
        MulMono(k, j, step);
      }
    } else {
      MulMono(0, j, step);
    }
  }

  /** Exactly the first StepsNeeded dates of the series are before now. */
  lemma StepsNeededLeast(now: Instant, t: Instant, step: int, j: nat)
    requires step >= 1
    ensures After(now, AddDate(t, 0, 0, j * step)) <==> j < StepsNeeded(now, t, step)
  {
    AfterShift(now, t, j * step);
    StepsBelowGap(Gap(now, t), step, j);
  }

  /**
   * NextByDays is the first date of the series t, t + step, t + 2·step, ...
   * that now is not after: every earlier date of the series is before now,
   * and t itself is returned when now is not after it.
   */
  lemma NextByDaysLeast(now: Instant, t: Instant, step: int)
    requires step >= 1
    ensures var r := NextByDays(now, t, step);
      var k := StepsNeeded(now, t, step);
      r == AddDate(t, 0, 0, k * step) && !After(now, r)
      && (forall j: nat :: j < k ==> After(now, AddDate(t, 0, 0, j * step)))
      && (k == 0 <==> !After(now, t))
  {
    var k := StepsNeeded(now, t, step);
    StepsNeededLeast(now, t, step, k);
    StepsNeededLeast(now, t, step, 0);
    AddDateNoDays(t);
    forall j: nat | j < k ensures After(now, AddDate(t, 0, 0, j * step)) {
      StepsNeededLeast(now, t, step, j);
    }
  }

  /**
   * When a step was taken, the result lies after t, keeps t's time of day,
   * and one step back from it is before now.
   */
  lemma NextByDaysMinimal(now: Instant, t: Instant, step: int)
    requires step >= 1 && After(now, t)
    ensures var r := NextByDays(now, t, step);
      After(now, AddDate(r, 0, 0, -step)) && Day(t) < Day(r) && r.nanos == t.nanos
  {
    var k := StepsNeeded(now, t, step);
    var n := k * step;
    var r := NextByDays(now, t, step);
    assert r == AddDate(t, 0, 0, n);
    StepsNeededPositive(now, t, step);
    assert Day(t) < Day(r) && r.nanos == t.nanos by {
      MulMono(1, k, step);
      AddDateDays(t, n);
    }
    assert After(now, AddDate(r, 0, 0, -step)) by {
      StepsNeededLeast(now, t, step, k - 1);
      MulPred(k, step);
      AddDateDaysTwice(t, n, -step);
    }
  }

  /** When now is not after t, no step is taken, whatever the step. */
  lemma NextByDaysUnmoved(now: Instant, t: Instant, step: int)
    requires !After(now, t)
    ensures StepsNeeded(now, t, step) == 0 && NextByDays(now, t, step) == t
  {
    AfterByDay(now, t);
    assert StepsNeeded(now, t, step) == 0;
    assert 0 * step == 0;
    AddDateNoDays(t);
  }

  /**
   * One turn of `for now.After(date) { date = date.AddDate(0, 0, step) }`:
   * the step is positive, the gap to now shrinks by the step, and the
   * series from the new date reaches the same NextByDays.
   */
  lemma DayStepTurn(now: Instant, t: Instant, step: int)
    requires step >= 1 || !After(now, t)
    requires After(now, t)
    ensures step >= 1 && Gap(now, t) > 0
    ensures var u := AddDate(t, 0, 0, step);
      Gap(now, u) == Gap(now, t) - step && NextByDays(now, u, step) == NextByDays(now, t, step)
  {
    var u := AddDate(t, 0, 0, step);
    assert Gap(now, t) > 0 by {
      AfterByDay(now, t);
    }
    assert Gap(now, u) == Gap(now, t) - step by {
      AddDateDays(t, step);
    }
    var k := StepsNeeded(now, t, step);
    var k2 := StepsNeeded(now, u, step);
    assert k2 == k - 1 by {
      StepsNeededShift(now, t, u, step);
    }
    assert step + k2 * step == k * step by {
      MulPred(k, step);
    }
    AddDateDaysTwice(t, step, k2 * step);
  }

  /** From a date one step closer to now, one step fewer is needed. */
  lemma StepsNeededShift(now: Instant, t: Instant, u: Instant, step: int)
    requires step >= 1 && Gap(now, t) > 0 && Gap(now, u) == Gap(now, t) - step
    ensures StepsNeeded(now, u, step) == StepsNeeded(now, t, step) - 1
  {
    CeilShift(Gap(now, t), step);
  }

  /** A gap one step shorter needs one step fewer. */
  lemma CeilShift(g: int, step: int)
    requires step >= 1 && g > 0
    ensures (if g - step <= 0 then 0 else (g - step + step - 1) / step) == (g + step - 1) / step - 1
  {
    var k := (g + step - 1) / step;
    var k2 := if g - step <= 0 then 0 else (g - step + step - 1) / step;
    StepsBelowGap(g, step, k - 1);
    StepsBelowGap(g, step, k);
    StepsBelowGap(g - step, step, k - 1);
    MulPred(k, step);
    if k >= 2 {
      StepsBelowGap(g - step, step, k - 2);
      MulPred(k - 1, step);
    }
  }

  /** A step is taken exactly when now is after t. */
  lemma StepsNeededPositive(now: Instant, t: Instant, step: int)
    requires step >= 1
    ensures StepsNeeded(now, t, step) >= 1 <==> After(now, t)
  {
    AddDateNoDays(t);
    StepsNeededLeast(now, t, step, 0);
  }

  // ------------------------------------------------------------ year steps

  /** The civil date k years after c: February 29 lands on March 1 and stays there. */
  function ShiftYears(c: ValidDate, k: nat): (r: ValidDate)
    ensures r.year == c.year + k
  {
    if k >= 1 && c.month == 2 && c.day == 29 then Date(c.year + k, 3, 1)
    else Date(c.year + k, c.month, c.day)
  }

  lemma LeapYearsApart(y: int)
    requires IsLeap(y)
    ensures !IsLeap(y + 1)
  {
  }

  /** One more year on the ShiftYears date is OneYearLater of it. */
  lemma ShiftYearsStep(c: ValidDate, k: nat)
    requires k >= 1
    ensures ShiftYears(c, k) == OneYearLater(ShiftYears(c, k - 1))
  {
    if c.month == 2 && c.day == 29 {
      LeapYearsApart(c.year);
    }
  }

  /** The instant k years after t: ShiftYears of its date, at the same time of day. */
  function YearsLater(t: Instant, k: nat): Instant {
    Instant(ShiftYears(t.date, k), t.nanos)
  }

  /** One AddDate(1, 0, 0) moves YearsLater on by one year. */
  lemma YearsLaterStep(t: Instant, k: nat)
    ensures AddDate(YearsLater(t, k), 1, 0, 0) == YearsLater(t, k + 1)
  {
    AddDateYear(YearsLater(t, k));
    ShiftYearsStep(t.date, k + 1);
  }

  /** How many years must be added before now is no longer after the date. */
  function YearsNeeded(now: Instant, t: Instant): nat {
    var k0: nat := if now.date.year > t.date.year then now.date.year - t.date.year else 0;
    if After(now, YearsLater(t, k0)) then k0 + 1 else k0
  }

  /** The first t + k years (k >= 0) that now is not after. */
  function NextByYears(now: Instant, t: Instant): Instant {
    YearsLater(t, YearsNeeded(now, t))
  }

  /** Exactly the first YearsNeeded anniversaries of t are before now. */
  lemma YearsNeededLeast(now: Instant, t: Instant, j: nat)
    ensures After(now, YearsLater(t, j)) <==> j < YearsNeeded(now, t)
  {
  }

  /**
   * NextByYears is the first yearly anniversary of t that now is not
   * after: every earlier one is before now, t itself is returned when now
   * is not after it, and its date is ShiftYears of t's.
   */
  lemma NextByYearsLeast(now: Instant, t: Instant)
    ensures var r := NextByYears(now, t);
      var k := YearsNeeded(now, t);
      !After(now, r)
      && (forall j: nat :: j < k ==> After(now, YearsLater(t, j)))
      && (k == 0 <==> !After(now, t))
      && r.date == ShiftYears(t.date, k) && r.nanos == t.nanos
  {
    var k := YearsNeeded(now, t);
    YearsNeededLeast(now, t, k);
    YearsNeededLeast(now, t, 0);
    forall j: nat | j < k ensures After(now, YearsLater(t, j)) {
      YearsNeededLeast(now, t, j);
    }
  }

  /** Anniversaries counted from one year on are those counted from t, one further on. */
  lemma YearsLaterOfNext(t: Instant, j: nat)
    ensures YearsLater(AddDate(t, 1, 0, 0), j) == YearsLater(t, j + 1)
  {
    AddDateYear(t);
    if t.date.month == 2 && t.date.day == 29 {
      LeapYearsApart(t.date.year);
    }
  }

  /**
   * One turn of `for now.After(date) { date = date.AddDate(1, 0, 0) }`:
   * one year fewer is needed, and the series from the new date reaches
   * the same NextByYears.
   */
  lemma YearStepTurn(now: Instant, t: Instant)
    requires After(now, t)
    ensures var u := AddDate(t, 1, 0, 0);
      YearsNeeded(now, u) == YearsNeeded(now, t) - 1 && NextByYears(now, u) == NextByYears(now, t)
  {
    var u := AddDate(t, 1, 0, 0);
    var k := YearsNeeded(now, t);
    var k2 := YearsNeeded(now, u);
    YearsNeededLeast(now, t, 0);
    YearsNeededLeast(now, u, k2);
    YearsLaterOfNext(t, k2);
    YearsNeededLeast(now, t, k2 + 1);
    YearsNeededLeast(now, u, k - 1);
    YearsLaterOfNext(t, k - 1);
    YearsNeededLeast(now, t, k);
  }

  /** When now is not after t, no year is added. */
  lemma NextByYearsUnmoved(now: Instant, t: Instant)
    requires !After(now, t)
    ensures YearsNeeded(now, t) == 0 && NextByYears(now, t) == t
  {
    YearsNeededLeast(now, t, 0);
  }

  // ------------------------------------------------------- weekday search

  /** `(target - sw + 7) % 7` with Go's remainder: days from ISO weekday sw forward to target. */
  function Offset(target: int, sw: int): int {
    GoRem7(target - sw + 7)
  }

  /** 7, lowered by `min` to every non-zero offset of the list, taken in order. */
  function MinOffset(ws: seq<int>, sw: int): int {
    if |ws| == 0 then 7
    else
      var m := MinOffset(ws[..|ws| - 1], sw);
      var d := Offset(ws[|ws| - 1], sw);
      if d != 0 && d < m then d else m
  }

  /** MinOffset is the least non-zero offset of the list, or 7 when it is at least that. */
  lemma {:induction false} MinOffsetLeast(ws: seq<int>, sw: int)
    ensures var r := MinOffset(ws, sw);
      r <= 7
      && (forall i :: 0 <= i < |ws| && Offset(ws[i], sw) != 0 ==> r <= Offset(ws[i], sw))
      && (r == 7 || exists i :: 0 <= i < |ws| && Offset(ws[i], sw) == r && r != 0)
  {
    if |ws| > 0 {
      var p := ws[..|ws| - 1];
      MinOffsetLeast(p, sw);
      assert forall i :: 0 <= i < |p| ==> p[i] == ws[i];
      var m := MinOffset(p, sw);
      if m != 7 {
        var i :| 0 <= i < |p| && Offset(p[i], sw) == m && m != 0;
        assert Offset(ws[i], sw) == m;
      }
    }
  }

  predicate HasZeroOffset(ws: seq<int>, sw: int) {
    exists i :: 0 <= i < |ws| && Offset(ws[i], sw) == 0
  }

  /** Extending the prefix ws[..i] by ws[i] lowers MinOffset to ws[i]'s offset when that is non-zero and smaller. */
  lemma MinOffsetSnoc(ws: seq<int>, i: int, sw: int)
    requires 0 <= i < |ws|
    ensures var d := Offset(ws[i], sw);
      MinOffset(ws[..i + 1], sw) == if d != 0 && d < MinOffset(ws[..i], sw) then d else MinOffset(ws[..i], sw)
  {
    assert ws[..i + 1][..i] == ws[..i];
  }

  /** ws[..i + 1] has a zero offset when ws[..i] has one or ws[i]'s offset is zero. */
  lemma HasZeroOffsetSnoc(ws: seq<int>, i: int, sw: int)
    requires 0 <= i < |ws|
    ensures HasZeroOffset(ws[..i + 1], sw) <==> HasZeroOffset(ws[..i], sw) || Offset(ws[i], sw) == 0
  {
    if HasZeroOffset(ws[..i + 1], sw) {
      var k :| 0 <= k < i + 1 && Offset(ws[..i + 1][k], sw) == 0;
      if k < i {
        assert ws[..i][k] == ws[k];
      }
    }
    if HasZeroOffset(ws[..i], sw) {
      var k :| 0 <= k < i && Offset(ws[..i][k], sw) == 0;
      assert ws[..i + 1][k] == ws[k];
    }
    if Offset(ws[i], sw) == 0 {
      assert ws[..i + 1][i] == ws[i];
    }
  }

  /**
   * The weekday search from date: date itself when date's own weekday is
   * listed and now is before date, otherwise date plus the least non-zero
   * offset to a listed weekday (7 when there is none).
   */
  function WeekdayNext(now: Instant, date: Instant, ws: seq<int>): Instant {
    var sw := IsoWeekday(Day(date));
    if Before(now, date) && HasZeroOffset(ws, sw) then date else AddDate(date, 0, 0, MinOffset(ws, sw))
  }

  /** The offset k from day n's weekday to weekday w lands on w, and is zero only when w is n's weekday. */
  lemma OffsetLands(n: int, w: int, k: int)
    requires 1 <= w <= 7 && k == Offset(w, IsoWeekday(n))
    ensures 0 <= k < 7 && IsoWeekday(n + k) == w
    ensures k == 0 <==> w == IsoWeekday(n)
  {
    var s := (n + 5) % 7;
    assert k == (w - s + 6) % 7;
    IsoWeekdayShift(n, k);
  }

  /** The weekday k days on has offset k. */
  lemma OffsetOfShift(n: int, k: int)
    requires 0 <= k < 7
    ensures Offset(IsoWeekday(n + k), IsoWeekday(n)) == k
  {
    var s := (n + 5) % 7;
    IsoWeekdayShift(n, k);
    assert IsoWeekday(n + k) == (s + k) % 7 + 1;
    if s + k >= 7 {
      assert (s + k) % 7 == s + k - 7;
    }
  }

  /** A zero offset from weekday sw exists exactly when sw is listed. */
  lemma HasZeroOffsetListed(ws: seq<int>, sw: int)
    requires 1 <= sw <= 7 && forall i :: 0 <= i < |ws| ==> 1 <= ws[i] <= 7
    ensures HasZeroOffset(ws, sw) <==> sw in ws
  {
    forall i | 0 <= i < |ws|
      ensures Offset(ws[i], sw) == 0 <==> ws[i] == sw
    {
      assert 0 < ws[i] - sw + 7 < 14;
    }
  }

  lemma InSeq(ws: seq<int>, i: int, x: int)
    requires 0 <= i < |ws| && ws[i] == x
    ensures x in ws
  {
  }

  /** From day n0, the least non-zero offset to a listed weekday lands on a listed weekday 1..7 days on. */
  lemma MinOffsetLands(n0: int, ws: seq<int>)
    requires |ws| >= 1 && forall i :: 0 <= i < |ws| ==> 1 <= ws[i] <= 7
    ensures 1 <= MinOffset(ws, IsoWeekday(n0)) <= 7
    ensures IsoWeekday(n0 + MinOffset(ws, IsoWeekday(n0))) in ws
  {
    var sw := IsoWeekday(n0);
    var m := MinOffset(ws, sw);
    MinOffsetLeast(ws, sw);
    if m == 7 {
      OffsetLands(n0, ws[0], Offset(ws[0], sw));
      assert ws[0] == sw;
      IsoWeekdayWeek(n0);
      InSeq(ws, 0, IsoWeekday(n0 + m));
    } else {
      var i :| 0 <= i < |ws| && Offset(ws[i], sw) == m && m != 0;
      OffsetLands(n0, ws[i], m);
      InSeq(ws, i, IsoWeekday(n0 + m));
    }
  }

  /** No listed weekday lies strictly between day n0 and the least non-zero offset from it. */
  lemma MinOffsetSkipsNone(n0: int, ws: seq<int>)
    requires forall i :: 0 <= i < |ws| ==> 1 <= ws[i] <= 7
    ensures var m := MinOffset(ws, IsoWeekday(n0));
      forall n :: n0 < n < n0 + m ==> IsoWeekday(n) !in ws
  {
    var sw := IsoWeekday(n0);
    var m := MinOffset(ws, sw);
    MinOffsetLeast(ws, sw);
    forall n | n0 < n < n0 + m
      ensures IsoWeekday(n) !in ws
    {
      OffsetOfShift(n0, n - n0);
    }
  }

  /**
   * For a non-empty list of ISO weekdays, WeekdayNext keeps date's time of
   * day, lands on a listed weekday at most 7 days on, equals date exactly
   * when date's own weekday is listed and now is before date, and skips no
   * listed weekday strictly after date.
   */
  lemma WeekdayNextMeaning(now: Instant, date: Instant, ws: seq<int>)
    requires |ws| >= 1 && forall i :: 0 <= i < |ws| ==> 1 <= ws[i] <= 7
    ensures var r := WeekdayNext(now, date, ws);
      r.nanos == date.nanos && Day(date) <= Day(r) <= Day(date) + 7
      && (r == date || Day(date) < Day(r))
      && IsoWeekday(Day(r)) in ws
      && (r == date <==> IsoWeekday(Day(date)) in ws && Before(now, date))
      && (forall n :: Day(date) < n < Day(r) ==> IsoWeekday(n) !in ws)
  {
    MinOffsetLands(Day(date), ws);
    MinOffsetSkipsNone(Day(date), ws);
    HasZeroOffsetListed(ws, IsoWeekday(Day(date)));
    AddDateDays(date, MinOffset(ws, IsoWeekday(Day(date))));
  }

  /** The search does not look at now beyond the single test whether now is before date. */
  lemma WeekdayNextIgnoresNow(now1: Instant, now2: Instant, date: Instant, ws: seq<int>)
    requires Before(now1, date) == Before(now2, date)
    ensures WeekdayNext(now1, date, ws) == WeekdayNext(now2, date, ws)
  {
  }

  /** From a date now is not after, the search ends strictly after now. */
  lemma WeekdayNextAfterNow(now: Instant, c: Instant, ws: seq<int>)
    requires |ws| >= 1 && forall i :: 0 <= i < |ws| ==> 1 <= ws[i] <= 7
    requires !After(now, c)
    ensures After(WeekdayNext(now, c, ws), now)
  {
    var r := WeekdayNext(now, c, ws);
    WeekdayNextMeaning(now, c, ws);
    if r != c {
      AfterByDay(now, c);
      AfterByDay(r, now);
    }
  }

  /**
   * Catching the date up to now day by day and then searching gives an
   * instant strictly after now, on a listed weekday, no earlier than t.
   */
  lemma CaughtUpWeekdayNextAfterNow(now: Instant, t: Instant, ws: seq<int>)
    requires |ws| >= 1 && forall i :: 0 <= i < |ws| ==> 1 <= ws[i] <= 7
    ensures var c := NextByDays(now, t, 1);
      var r := WeekdayNext(now, c, ws);
      After(r, now) && IsoWeekday(Day(r)) in ws && Day(t) <= Day(c) <= Day(r)
  {
    var k := StepsNeeded(now, t, 1);
    var c := NextByDays(now, t, 1);
    StepsNeededLeast(now, t, 1, k);
    AddDateDays(t, k);
    WeekdayNextMeaning(now, c, ws);
    WeekdayNextAfterNow(now, c, ws);
  }
}
