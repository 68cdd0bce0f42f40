/**
 * internal/services/nextdate/iterators/yearly.go: the `y` iterator working
 * on YYYYMMDD texts, with the anchored pattern `^y$`. The clock that
 * NextDate reads with time.Now() is the parameter now.
 */
module IteratorsYearly {
  import opened Wrappers
  import opened Clock
  import opened Layout
  import opened Errors
  import opened Grammars
  import opened Recurrence

  datatype Yearly = Yearly {
    /**
     * NextDate: an unparseable start date gives "" and StringToTime's
     * error; otherwise the first anniversary of the start that the clock
     * is not after, written as YYYYMMDD.
     */
    method NextDate(now: Instant, startDate: string) returns (next: string, err: Option<Error>)
      ensures ParseDate(startDate).None? ==> next == "" && err == Some(StartDateError(startDate))
      ensures ParseDate(startDate).Some? ==>
        err == None && next == FormatDate(NextByYears(now, Midnight(ParseDate(startDate).value)).date)
    {
      var parsed := ParseDate(startDate);
      if parsed.None? {
        return "", Some(StartDateError(startDate));
      }
      var start := Midnight(parsed.value);
      var parsedStartDate := start;
      while After(now, parsedStartDate)
        invariant NextByYears(now, parsedStartDate) == NextByYears(now, start)
        decreases YearsNeeded(now, parsedStartDate)
      {
        YearStepTurn(now, parsedStartDate);
        parsedStartDate := AddDate(parsedStartDate, 1, 0, 0);
      }
      NextByYearsUnmoved(now, parsedStartDate);
      return FormatDate(parsedStartDate.date), None;
    }
  }

  /** NewYearly: always the empty Yearly, with no error exactly for the text "y". */
  function NewYearly(repeatRule: string): (res: (Yearly, Option<Error>))
    ensures res.0 == Yearly
    ensures res.1 == None <==> repeatRule == "y"
    ensures res.1 != None ==> res.1 == Some(RepeatRuleIsNotValid)
  {
    (Yearly, if YearlyPattern(repeatRule) then None else Some(RepeatRuleIsNotValid))
  }
}
