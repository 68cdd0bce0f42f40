/**
 * internal/services/nextdate/dateiters/weekly/weekly.go: the `w d1,d2,...`
 * iterator. Next first catches the start date up to now one day at a
 * time, then searches the listed weekdays for the nearest one.
 */
module DateitersWeekly {
  import opened Wrappers
  import opened Text
  import opened Calendar
  import opened Clock
  import opened Errors
  import opened Grammars
  import opened Recurrence

  const FormatHint := ": weekly format is `w [1-7]`"

  /** The error New returns: fmt.Errorf("%w: weekly format ...", nextdate.Validate's error). */
  const InvalidRule := Wrapf("", RepeatRuleIsNotValid, FormatHint)

  datatype Weekly = Weekly(Weekdays: seq<int>) {
    /**
     * Next: the start date caught up to the first day now is not after,
     * then the weekday search from there.
     */
    method Next(now: Instant, startDate: Instant) returns (r: Instant)
      ensures r == WeekdayNext(now, NextByDays(now, startDate, 1), Weekdays)
    {
      var date := startDate;
      while After(now, date)
        invariant NextByDays(now, date, 1) == NextByDays(now, startDate, 1)
        decreases Gap(now, date)
      {
        DayStepTurn(now, date, 1);
        date := AddDate(date, 0, 0, 1);
      }
      NextByDaysUnmoved(now, date, 1);

      var startWeekday := GoWeekday(Day(date));
      if startWeekday == 0 {
        startWeekday := 7;
      }
      GoWeekdayToIso(Day(date));

      var minDaysToAdd := 7;
      for i := 0 to |Weekdays|
        invariant minDaysToAdd == MinOffset(Weekdays[..i], startWeekday)
        invariant !(Before(now, date) && HasZeroOffset(Weekdays[..i], startWeekday))
      {
        var diff := GoRem7(Weekdays[i] - startWeekday + 7);
        MinOffsetSnoc(Weekdays, i, startWeekday);
        HasZeroOffsetSnoc(Weekdays, i, startWeekday);
        if diff == 0 && Before(now, date) {
          assert HasZeroOffset(Weekdays[..i + 1], startWeekday);
          assert Weekdays[..i + 1][i] == Weekdays[i];
          return date;
        }
        if diff != 0 {
          minDaysToAdd := if diff < minDaysToAdd then diff else minDaysToAdd;
        }
      }
      assert Weekdays[..|Weekdays|] == Weekdays;
      r := AddDate(date, 0, 0, minDaysToAdd);
    }
  }

  /**
   * New: a rule outside `^w ([1-7](,[1-7])*)$` gives the zero Weekly and
   * the wrapped validation error; an accepted rule is "w " followed by the
   * comma-separated texts of its weekdays, each in 1..7, kept in order.
   */
  method New(timeStep: string) returns (weekly: Weekly, err: Option<Error>)
    ensures !WeeklyPattern(timeStep) ==> weekly == Weekly([]) && err == Some(InvalidRule)
    ensures WeeklyPattern(timeStep) ==>
      err == None && |weekly.Weekdays| >= 1
      && (forall i :: 0 <= i < |weekly.Weekdays| ==> IsWeekday(weekly.Weekdays[i]))
      && timeStep == "w " + ListText(weekly.Weekdays)
  {
    if !WeeklyPattern(timeStep) {
      return Weekly([]), Some(InvalidRule);
    }
    var weekdays := Split(timeStep[2..], ',');
    var values := new int[|weekdays|];
    for i := 0 to |weekdays|
      invariant forall k :: 0 <= k < i ==> values[k] == AtoiOrZero(weekdays[k])
    {
      values[i] := AtoiOrZero(weekdays[i]);
    }
    assert values[..] == ParseInts(weekdays);
    WeeklyPatternParse(timeStep);
    weekly := Weekly(values[..]);
    err := None;
  }

  /** The single-weekday case: a Saturday start moves to the Sunday after. */
  lemma SingleDayExample()
    ensures WeekdayNext(Midnight(Date(2024, 1, 27)), NextByDays(Midnight(Date(2024, 1, 27)), Midnight(Date(2024, 1, 26)), 1), [7])
      == Midnight(Date(2024, 1, 28))
  {
    var now := Midnight(Date(2024, 1, 27));
    var c := NextByDays(now, Midnight(Date(2024, 1, 26)), 1);
    assert c == now;
    assert IsoWeekday(Day(c)) == 6;
    assert [7][..0] == [];
    assert MinOffset([7], 6) == 1;
  }

  /** The several-weekdays case: from a Friday, Monday is the nearest of Monday to Wednesday. */
  lemma ManyDaysExample()
    ensures WeekdayNext(Midnight(Date(2024, 1, 26)), NextByDays(Midnight(Date(2024, 1, 26)), Midnight(Date(2024, 1, 25)), 1), [1, 2, 3])
      == Midnight(Date(2024, 1, 29))
  {
    var now := Midnight(Date(2024, 1, 26));
    var c := NextByDays(now, Midnight(Date(2024, 1, 25)), 1);
    assert c == now;
    assert IsoWeekday(Day(c)) == 5;
    assert [1, 2, 3][..2] == [1, 2] && [1, 2][..1] == [1] && [1][..0] == [];
    assert MinOffset([1, 2, 3], 5) == 3;
  }

  /** A start date eleven days back is caught up to Wednesday, then moved to Monday. */
  lemma MonthAgoExample()
    ensures WeekdayNext(Midnight(Date(2025, 2, 5)), NextByDays(Midnight(Date(2025, 2, 5)), Midnight(Date(2025, 1, 25)), 1), [1, 2])
      == Midnight(Date(2025, 2, 10))
  {
    var now := Midnight(Date(2025, 2, 5));
    var c := NextByDays(now, Midnight(Date(2025, 1, 25)), 1);
    assert c == now;
    assert IsoWeekday(Day(c)) == 3;
    assert [1, 2][..1] == [1] && [1][..0] == [];
    assert MinOffset([1, 2], 3) == 5;
  }
}
