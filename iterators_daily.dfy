/**
 * internal/services/nextdate/iterators/daily.go: the `d n` iterator working
 * on YYYYMMDD texts. The clock that NextDate reads with time.Now() is the
 * parameter now.
 */
module IteratorsDaily {
  import opened Wrappers
  import opened Text
  import opened Clock
  import opened Layout
  import opened Errors
  import opened Grammars
  import opened Recurrence

  datatype Daily = Daily(DayStep: int) {
    /**
     * NextDate: an unparseable start date gives "" and StringToTime's
     * error; otherwise the first start + k·DayStep days that the clock is
     * not after, written as YYYYMMDD.
     */
    method NextDate(now: Instant, startDate: string) returns (next: string, err: Option<Error>)
      requires ParseDate(startDate).Some? ==> DayStep >= 1 || !After(now, Midnight(ParseDate(startDate).value))
      ensures ParseDate(startDate).None? ==> next == "" && err == Some(StartDateError(startDate))
      ensures ParseDate(startDate).Some? ==>
        err == None && next == FormatDate(NextByDays(now, Midnight(ParseDate(startDate).value), DayStep).date)
    {
      var parsed := ParseDate(startDate);
      if parsed.None? {
        return "", Some(StartDateError(startDate));
      }
      var start := Midnight(parsed.value);
      var parsedStartDate := start;
      while After(now, parsedStartDate)
        invariant DayStep >= 1 || parsedStartDate == start
        invariant NextByDays(now, parsedStartDate, DayStep) == NextByDays(now, start, DayStep)
        decreases Gap(now, parsedStartDate)
      {
        DayStepTurn(now, parsedStartDate, DayStep);
        parsedStartDate := AddDate(parsedStartDate, 0, 0, DayStep);
      }
      NextByDaysUnmoved(now, parsedStartDate, DayStep);
      return FormatDate(parsedStartDate.date), None;
    }
  }

  /**
   * NewDaily: a rule outside the daily pattern gives the zero Daily and
   * ErrRepeatRuleIsNotValid; an accepted rule is "d " followed by the
   * decimal text of its step, which lies in 1..400.
   */
  function NewDaily(repeatRule: string): (res: (Daily, Option<Error>))
    ensures !DailyPattern(repeatRule) ==> res == (Daily(0), Some(RepeatRuleIsNotValid))
    ensures DailyPattern(repeatRule) ==>
      res.1 == None && IsDayStep(res.0.DayStep) && repeatRule == "d " + FormatInt(res.0.DayStep)
  {
    if !DailyPattern(repeatRule) then (Daily(0), Some(RepeatRuleIsNotValid))
    else
      var sliced := Split(repeatRule, ' ');
      DailyPatternSplit(repeatRule);
      DailyPatternParse(repeatRule);
      (Daily(AtoiOrZero(sliced[1])), None)
  }

  /** Every step 1..400 written as "d n" is accepted and read back as n. */
  lemma NewDailyAcceptsEveryStep(n: int)
    requires IsDayStep(n)
    ensures NewDaily("d " + FormatInt(n)) == (Daily(n), None)
  {
    DailyPatternPrint(n);
    DailyPatternSplit("d " + FormatInt(n));
  }
}
