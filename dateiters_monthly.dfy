/**
 * internal/services/nextdate/dateiters/monthly.go: the `m <days> [<months>]`
 * rule read into two integer lists. Next is a stub that returns its date.
 */
module DateitersMonthly {
  import opened Wrappers
  import opened Text
  import opened Clock
  import opened Errors
  import opened Grammars

  const InvalidMonthlyTimeStepFormat := New("The format for monthly task is `m [1-31, -1, -2] [1-12]`")

  /** The error NewMonthly returns: errors.Join(nextdate.Validate's error, ErrInvalidMonthlyTimeStepFormat). */
  const InvalidRule := Joined(RepeatRuleIsNotValid, InvalidMonthlyTimeStepFormat)

  datatype Monthly = Monthly(Days: seq<int>, Months: seq<int>) {
    /** Next: a stub; the date comes back unchanged. */
    function Next(now: Instant, date: Instant): (r: Instant)
      ensures r == date
    {
      date
    }
  }

  /**
   * NewMonthly: a rule outside the pattern gives the zero Monthly and the
   * joined error. An accepted rule keeps one day per comma-separated day
   * token, in order, each in -9..-1 or 1..31, and the listed months in
   * order with duplicates, none when there is no month segment; the rule is
   * the text of those days and months.
   */
  method NewMonthly(timeStep: string) returns (monthly: Monthly, err: Option<Error>)
    ensures !MonthlyPattern(timeStep, SignedMonthDayToken) ==>
      monthly == Monthly([], []) && err == Some(InvalidRule)
    ensures MonthlyPattern(timeStep, SignedMonthDayToken) ==>
      err == None && |monthly.Days| >= 1
      && (forall i :: 0 <= i < |monthly.Days| ==> IsSignedMonthDay(monthly.Days[i]))
      && (forall i :: 0 <= i < |monthly.Months| ==> IsMonth(monthly.Months[i]))
      && timeStep == MonthlyText(monthly.Days, monthly.Months)
  {
    if !MonthlyPattern(timeStep, SignedMonthDayToken) {
      return Monthly([], []), Some(InvalidRule);
    }
    SignedMonthDayTokensDenote();
    MonthlyPatternParse(timeStep, SignedMonthDayToken);

    var sliced := Split(timeStep, ' ');
    var days := ReadInts(Split(sliced[1], ','));
    forall i | 0 <= i < |days| ensures IsSignedMonthDay(days[i]) {
      SignedMonthDayOfToken(days[i]);
    }
    var months: seq<string> := [];
    if |sliced| > 2 {
      months := Split(sliced[2], ',');
    }
    var monthValues := ReadInts(months);
    monthly := Monthly(days, monthValues);
    err := None;
  }

  /** The loops filling Days and Months: `make([]int, len(parts))`, then `v[i], _ = strconv.Atoi(p)` for each piece. */
  method ReadInts(parts: seq<string>) returns (values: seq<int>)
    ensures values == ParseInts(parts)
  {
    var a := new int[|parts|];
    for i := 0 to |parts|
      invariant forall k :: 0 <= k < i ==> a[k] == AtoiOrZero(parts[k])
    {
      a[i] := AtoiOrZero(parts[i]);
    }
    values := a[..];
  }
}
