/**
 * internal/services/nextdate/dateiters/daily/daily.go: the `d n` iterator.
 * New validates the rule and reads the step; Next steps the start date
 * forward by that many days until now is no longer after it.
 */
module DateitersDaily {
  import opened Wrappers
  import opened Text
  import opened Calendar
  import opened Clock
  import opened Errors
  import opened Grammars
  import opened Recurrence

  const FormatHint := ": daily format is d <number> where number in range [1, 400]"

  /** The error New returns: fmt.Errorf("%w: daily format ...", nextdate.Validate's error). */
  const InvalidRule := Wrapf("", RepeatRuleIsNotValid, FormatHint)

  datatype Daily = Daily(DayStep: int) {
    /** Next: the first startDate + k·DayStep days (k >= 0) that now is not after. */
    method Next(now: Instant, startDate: Instant) returns (r: Instant)
      requires DayStep >= 1 || !After(now, startDate)
      ensures r == NextByDays(now, startDate, DayStep)
    {
      r := startDate;
      while After(now, r)
        invariant DayStep >= 1 || r == startDate
        invariant NextByDays(now, r, DayStep) == NextByDays(now, startDate, DayStep)
        decreases Gap(now, r)
      {
        DayStepTurn(now, r, DayStep);
        r := AddDate(r, 0, 0, DayStep);
      }
      NextByDaysUnmoved(now, r, DayStep);
    }
  }

  /**
   * New: a rule outside `^d (?:[1-9]|[1-9][0-9]|[1-3][0-9]{2}|400)$` gives
   * the zero Daily and the wrapped validation error; an accepted rule is
   * "d " followed by the decimal text of its step, which lies in 1..400.
   */
  function New(timeStep: string): (res: (Daily, Option<Error>))
    ensures !DailyPattern(timeStep) ==> res == (Daily(0), Some(InvalidRule))
    ensures DailyPattern(timeStep) ==>
      res.1 == None && IsDayStep(res.0.DayStep) && timeStep == "d " + FormatInt(res.0.DayStep)
  {
    if !DailyPattern(timeStep) then (Daily(0), Some(InvalidRule))
    else
      DailyPatternParse(timeStep);
      (Daily(AtoiOrZero(timeStep[2..])), None)
  }

  /** Every step 1..400 written as "d n" is accepted and read back as n. */
  lemma NewAcceptsEveryStep(n: int)
    requires IsDayStep(n)
    ensures New("d " + FormatInt(n)) == (Daily(n), None)
  {
    DailyPatternPrint(n);
  }

  /** A start equal to now is kept. */
  lemma NowEqualsStartExample()
    ensures NextByDays(Midnight(Date(2024, 2, 1)), Midnight(Date(2024, 2, 1)), 1) == Midnight(Date(2024, 2, 1))
  {
  }

  /** A start one day before now moves on by one whole step of seven days. */
  lemma SevenDayExample()
    ensures NextByDays(Midnight(Date(2024, 2, 2)), Midnight(Date(2024, 2, 1)), 7) == Midnight(Date(2024, 2, 8))
  {
  }

  /** A start after now is kept, whatever the step. */
  lemma StartAfterNowExample()
    ensures NextByDays(Midnight(Date(2024, 2, 1)), Midnight(Date(2024, 2, 5)), 10) == Midnight(Date(2024, 2, 5))
  {
  }

  /** A 28-day step from 2025-02-01 crosses into March. */
  lemma LargeStepExample()
    ensures NextByDays(Midnight(Date(2025, 2, 2)), Midnight(Date(2025, 2, 1)), 28) == Midnight(Date(2025, 3, 1))
  {
  }
}
