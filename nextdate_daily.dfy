/**
 * internal/services/nextdate/daily.go: the `d n` iterator of package
 * nextdate. NewDaily returns nextdate.Validate's error unwrapped.
 */
module NextdateDaily {
  import opened Wrappers
  import opened Text
  import opened Clock
  import opened Errors
  import opened Grammars
  import opened Recurrence

  datatype Daily = Daily(DayStep: int) {
    /** Next: the first startDate + k·DayStep days (k >= 0) that now is not after. */
    method Next(now: Instant, startDate: Instant) returns (r: Instant)
      requires DayStep >= 1 || !After(now, startDate)
      ensures r == NextByDays(now, startDate, DayStep)
    {
      r := startDate;
      while After(now, r)
        invariant DayStep >= 1 || r == startDate
        invariant NextByDays(now, r, DayStep) == NextByDays(now, startDate, DayStep)
        decreases Gap(now, r)
      {
        DayStepTurn(now, r, DayStep);
        r := AddDate(r, 0, 0, DayStep);
      }
      NextByDaysUnmoved(now, r, DayStep);
    }
  }

  /**
   * NewDaily: a rule outside the daily pattern gives the zero Daily and
   * ErrRepeatRuleIsNotValid itself; an accepted rule is "d " followed by
   * the decimal text of its step, which lies in 1..400.
   */
  function NewDaily(timeStep: string): (res: (Daily, Option<Error>))
    ensures !DailyPattern(timeStep) ==> res == (Daily(0), Some(RepeatRuleIsNotValid))
    ensures DailyPattern(timeStep) ==>
      res.1 == None && IsDayStep(res.0.DayStep) && timeStep == "d " + FormatInt(res.0.DayStep)
  {
    if !DailyPattern(timeStep) then (Daily(0), Some(RepeatRuleIsNotValid))
    else
      DailyPatternParse(timeStep);
      (Daily(AtoiOrZero(timeStep[2..])), None)
  }

  /** Every step 1..400 written as "d n" is accepted and read back as n. */
  lemma NewDailyAcceptsEveryStep(n: int)
    requires IsDayStep(n)
    ensures NewDaily("d " + FormatInt(n)) == (Daily(n), None)
  {
    DailyPatternPrint(n);
  }
}
