/**
 * pkg/nextdate/dateiters/yearly.go: the `y` iterator of the public
 * package. Its pattern `y` carries no anchors, so any text holding a 'y'
 * is accepted.
 */
module PkgYearly {
  import opened Wrappers
  import opened Clock
  import opened Errors
  import opened Grammars
  import opened Recurrence

  const InvalidYearlyTimeStepFormat := New("The format fir yearly tasks is `y`")

  /** errors.Join(ErrInvalidTimeStepFormat, ErrInvalidYearlyTimeStepFormat). */
  const InvalidRule := Joined(InvalidTimeStepFormat, InvalidYearlyTimeStepFormat)

  datatype Yearly = Yearly {
    /** Next: the first anniversary of date (Go's AddDate(1, 0, 0) each year) that now is not after. */
    method Next(now: Instant, date: Instant) returns (r: Instant)
      ensures r == NextByYears(now, date)
    {
      r := date;
      while After(now, r)
        invariant NextByYears(now, r) == NextByYears(now, date)
        decreases YearsNeeded(now, r)
      {
        YearStepTurn(now, r);
        r := AddDate(r, 1, 0, 0);
      }
      NextByYearsUnmoved(now, r);
    }
  }

  /** NewYearly: always the empty Yearly; the error is nil exactly when the text holds a 'y'. */
  function NewYearly(timeStep: string): (res: (Yearly, Option<Error>))
    ensures res.0 == Yearly
    ensures res.1 == None <==> 'y' in timeStep
    ensures res.1 != None ==> res.1 == Some(InvalidRule)
  {
    if !ContainsY(timeStep) then (Yearly, Some(InvalidRule)) else (Yearly, None)
  }

  /** The unanchored pattern accepts texts that are no yearly rule at all. */
  lemma NewYearlyAcceptsAnyY()
    ensures NewYearly("every day").1 == None
    ensures NewYearly("daily").1 == None
  {
    assert "every day"[4] == 'y';
    assert "daily"[4] == 'y';
  }
}
