/**
 * internal/services/nextdate/dateiters/yearly/yearly.go: the `y` iterator.
 * Its pattern `y` carries no anchors, so New accepts any text holding a
 * 'y'; Next adds whole years until now is no longer after the date.
 */
module DateitersYearly {
  import opened Wrappers
  import opened Calendar
  import opened Clock
  import opened Errors
  import opened Grammars
  import opened Recurrence

  const FormatHint := ": yearly format is y"

  /** The error New returns: fmt.Errorf("%w: yearly format is y", nextdate.Validate's error). */
  const InvalidRule := Wrapf("", RepeatRuleIsNotValid, FormatHint)

  datatype Yearly = Yearly {
    /** Next: the first anniversary of startDate (Go's AddDate(1, 0, 0) each year) that now is not after. */
    method Next(now: Instant, startDate: Instant) returns (r: Instant)
      ensures r == NextByYears(now, startDate)
    {
      r := startDate;
      while After(now, r)
        invariant NextByYears(now, r) == NextByYears(now, startDate)
        decreases YearsNeeded(now, r)
      {
        YearStepTurn(now, r);
        r := AddDate(r, 1, 0, 0);
      }
      NextByYearsUnmoved(now, r);
    }
  }

  /** New: always the empty Yearly; the error is nil exactly when the text holds a 'y'. */
  function New(timeStep: string): (res: (Yearly, Option<Error>))
    ensures res.0 == Yearly
    ensures res.1 == None <==> 'y' in timeStep
    ensures res.1 != None ==> res.1 == Some(InvalidRule)
  {
    var err := if ContainsY(timeStep) then None else Some(RepeatRuleIsNotValid);
    (Yearly, if err.Some? then Some(Wrapf("", err.value, FormatHint)) else None)
  }

  /** The unanchored pattern accepts texts that are no yearly rule at all. */
  lemma NewAcceptsAnyY()
    ensures New("every day").1 == None
    ensures New("daily").1 == None
  {
    assert "every day"[4] == 'y';
    assert "daily"[4] == 'y';
  }

  /** Next on the dates of the package's table of cases, all at midnight. */
  lemma NextExamples()
    ensures NextByYears(Midnight(Date(2024, 2, 1)), Midnight(Date(2024, 2, 1))) == Midnight(Date(2024, 2, 1))
    ensures NextByYears(Midnight(Date(2024, 2, 1)), Midnight(Date(2024, 2, 2))) == Midnight(Date(2024, 2, 2))
    ensures NextByYears(Midnight(Date(2024, 2, 2)), Midnight(Date(2024, 2, 1))) == Midnight(Date(2025, 2, 1))
    ensures NextByYears(Midnight(Date(2024, 2, 2)), Midnight(Date(1024, 2, 1))) == Midnight(Date(2025, 2, 1))
  {
  }

  /** A February 29 start overflows into March 1 of the following, non-leap, year. */
  lemma LeapDayExample()
    ensures NextByYears(Midnight(Date(2024, 3, 1)), Midnight(Date(2024, 2, 29))) == Midnight(Date(2025, 3, 1))
  {
  }
}
