/**
 * pkg/nextdate/dateiters/weekly.go: the `w d1,d2,...` iterator of the
 * public package. Next searches from the date it is given; it does not
 * first catch the date up to now.
 */
module PkgWeekly {
  import opened Wrappers
  import opened Text
  import opened Calendar
  import opened Clock
  import opened Errors
  import opened Grammars
  import opened Recurrence

  const InvalidWeeklyTimeStepFormat := New("The format for weekly task is 'w [1-7]'")

  /** errors.Join(ErrInvalidTimeStepFormat, ErrInvalidWeeklyTimeStepFormat). */
  const InvalidRule := Joined(InvalidTimeStepFormat, InvalidWeeklyTimeStepFormat)

  datatype Weekly = Weekly(Weekdays: seq<int>) {
    /** Next: the weekday search from date itself. */
    method Next(now: Instant, date: Instant) returns (r: Instant)
      ensures r == WeekdayNext(now, date, Weekdays)
    {
      var startWeekday := GoWeekday(Day(date));
      if startWeekday == 0 {
        startWeekday := 7;
      }
      GoWeekdayToIso(Day(date));

      var minDaysToAdd := 7;
      for i := 0 to |Weekdays|
        invariant minDaysToAdd == MinOffset(Weekdays[..i], startWeekday)
        invariant !(Before(now, date) && HasZeroOffset(Weekdays[..i], startWeekday))
      {
        var diff := GoRem7(Weekdays[i] - startWeekday + 7);
        MinOffsetSnoc(Weekdays, i, startWeekday);
        HasZeroOffsetSnoc(Weekdays, i, startWeekday);
        if diff == 0 && Before(now, date) {
          assert HasZeroOffset(Weekdays[..i + 1], startWeekday);
          assert Weekdays[..i + 1][i] == Weekdays[i];
          return date;
        }
        if diff != 0 {
          minDaysToAdd := if diff < minDaysToAdd then diff else minDaysToAdd;
        }
      }
      assert Weekdays[..|Weekdays|] == Weekdays;
      r := AddDate(date, 0, 0, minDaysToAdd);
    }
  }

  /**
   * NewWeekly: a rule outside `^w ([1-7](,[1-7])*)$` gives the zero Weekly
   * and the joined error; an accepted rule is "w " followed by the
   * comma-separated texts of its weekdays, each in 1..7, kept in order.
   */
  method NewWeekly(timeStep: string) returns (weekly: Weekly, err: Option<Error>)
    ensures !WeeklyPattern(timeStep) ==> weekly == Weekly([]) && err == Some(InvalidRule)
    ensures WeeklyPattern(timeStep) ==>
      err == None && |weekly.Weekdays| >= 1
      && (forall i :: 0 <= i < |weekly.Weekdays| ==> IsWeekday(weekly.Weekdays[i]))
      && timeStep == "w " + ListText(weekly.Weekdays)
  {
    if !WeeklyPattern(timeStep) {
      return Weekly([]), Some(InvalidRule);
    }
    var weekdays := Split(timeStep[2..], ',');
    var values := new int[|weekdays|];
    for i := 0 to |weekdays|
      invariant forall k :: 0 <= k < i ==> values[k] == AtoiOrZero(weekdays[k])
    {
      values[i] := AtoiOrZero(weekdays[i]);
    }
    assert values[..] == ParseInts(weekdays);
    WeeklyPatternParse(timeStep);
    weekly := Weekly(values[..]);
    err := None;
  }

  /**
   * Without a catch-up, a date more than a week before now yields a date
   * that now is still after: the search never moves more than 7 days.
   */
  lemma NextStaysBeforeNow(now: Instant, date: Instant, ws: seq<int>)
    requires |ws| >= 1 && forall i :: 0 <= i < |ws| ==> IsWeekday(ws[i])
    requires Day(date) + 7 < Day(now)
    ensures After(now, WeekdayNext(now, date, ws))
  {
    WeekdayNextMeaning(now, date, ws);
    AfterByDay(now, WeekdayNext(now, date, ws));
  }
}
