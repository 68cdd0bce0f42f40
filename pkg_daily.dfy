/**
 * pkg/nextdate/dateiters/daily.go: the `d n` iterator of the public
 * package, whose rejection joins two sentinel errors.
 */
module PkgDaily {
  import opened Wrappers
  import opened Text
  import opened Clock
  import opened Errors
  import opened Grammars
  import opened Recurrence

  const InvalidDailyTimeStepFormat := New("The format for daily task is 'd [1-400]'")

  /** errors.Join(ErrInvalidTimeStepFormat, ErrInvalidDailyTimeStepFormat). */
  const InvalidRule := Joined(InvalidTimeStepFormat, InvalidDailyTimeStepFormat)

  datatype Daily = Daily(DayStep: int) {
    /** Next: the first date + k·DayStep days (k >= 0) that now is not after. */
    method Next(now: Instant, date: Instant) returns (r: Instant)
      requires DayStep >= 1 || !After(now, date)
      ensures r == NextByDays(now, date, DayStep)
    {
      r := date;
      while After(now, r)
        invariant DayStep >= 1 || r == date
        invariant NextByDays(now, r, DayStep) == NextByDays(now, date, DayStep)
        decreases Gap(now, r)
      {
        DayStepTurn(now, r, DayStep);
        r := AddDate(r, 0, 0, DayStep);
      }
      NextByDaysUnmoved(now, r, DayStep);
    }
  }

  /**
   * NewDaily: a rule outside the daily pattern gives the zero Daily and the
   * joined error; an
   * accepted rule is "d " followed by the decimal text of its step, in 1..400.
   */
  function NewDaily(timeStep: string): (res: (Daily, Option<Error>))
    ensures !DailyPattern(timeStep) ==>
      res == (Daily(0), Some(InvalidRule))
    ensures DailyPattern(timeStep) ==>
      res.1 == None && IsDayStep(res.0.DayStep) && timeStep == "d " + FormatInt(res.0.DayStep)
  {
    if !DailyPattern(timeStep) then (Daily(0), Some(InvalidRule))
    else
      DailyPatternParse(timeStep);
      (Daily(AtoiOrZero(timeStep[2..])), None)
  }

  /** Every step 1..400 written as "d n" is accepted and read back as n. */
  lemma NewDailyAcceptsEveryStep(n: int)
    requires IsDayStep(n)
    ensures NewDaily("d " + FormatInt(n)) == (Daily(n), None)
  {
    DailyPatternPrint(n);
  }
}
