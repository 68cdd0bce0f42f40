/**
 * internal/services/nextdate/dateiters/monthly/monthly.go: the
 * `m <days> [<months>]` rule read into a day list and a set of months
 * kept as a map to true. Next is a stub that returns its start date.
 */
module DateitersMonthlyMap {
  import opened Wrappers
  import opened Text
  import opened Clock
  import opened Errors
  import opened Grammars

  const FormatHint := ": monthly format is m <1-31,-1,-2> [1-12]"

  /** The error New returns: fmt.Errorf("%w: monthly format ...", nextdate.Validate's error). */
  const InvalidRule := Wrapf("", RepeatRuleIsNotValid, FormatHint)

  /** Months is None for a nil map. */
  datatype Monthly = Monthly(Days: seq<int>, Months: Option<map<int, bool>>) {
    /** Next: a stub; the start date comes back unchanged. */
    function Next(now: Instant, startDate: Instant): (r: Instant)
      ensures r == startDate
    {
      startDate
    }
  }

  /**
   * New: a rule outside the pattern gives the zero Monthly and the wrapped
   * validation error. An accepted rule keeps its day tokens in order, each
   * in -9..-1 or 1..31; the month map stays nil without a month segment and
   * otherwise holds exactly the listed months, each mapped to true. The rule
   * is the text of those days and months.
   */
  method New(timeStep: string) returns (monthly: Monthly, err: Option<Error>)
    ensures !MonthlyPattern(timeStep, SignedMonthDayToken) ==>
      monthly == Monthly([], None) && err == Some(InvalidRule)
    ensures MonthlyPattern(timeStep, SignedMonthDayToken) ==>
      var months := MonthlyMonthList(timeStep);
      err == None && |monthly.Days| >= 1
      && (forall i :: 0 <= i < |monthly.Days| ==> IsSignedMonthDay(monthly.Days[i]))
      && timeStep == MonthlyText(monthly.Days, months)
      && (monthly.Months.None? <==> months == [])
      && (monthly.Months.Some? ==>
            monthly.Months.value.Keys == (set i | 0 <= i < |months| :: months[i])
            && (forall k :: k in monthly.Months.value ==> monthly.Months.value[k]))
  {
    if !MonthlyPattern(timeStep, SignedMonthDayToken) {
      return Monthly([], None), Some(InvalidRule);
    }
    SignedMonthDayTokensDenote();
    MonthlyPatternParse(timeStep, SignedMonthDayToken);

    var slicedStep := Split(timeStep, ' ');
    var days := ReadDays(Split(slicedStep[1], ','));
    forall i | 0 <= i < |days| ensures IsSignedMonthDay(days[i]) {
      SignedMonthDayOfToken(days[i]);
    }
    if |slicedStep| < 3 {
      return Monthly(days, None), None;
    }
    var months := ReadMonths(Split(slicedStep[2], ','));
    monthly := Monthly(days, Some(months));
    err := None;
  }

  /** The loop filling Days: `monthly.Days[i], _ = strconv.Atoi(day)` for each piece. */
  method ReadDays(days: seq<string>) returns (values: seq<int>)
    ensures values == ParseInts(days)
  {
    var a := new int[|days|];
    for i := 0 to |days|
      invariant forall k :: 0 <= k < i ==> a[k] == AtoiOrZero(days[k])
    {
      a[i] := AtoiOrZero(days[i]);
    }
    values := a[..];
  }

  /** The loop filling Months: each piece's integer is entered once, mapped to true. */
  method ReadMonths(months: seq<string>) returns (m: map<int, bool>)
    ensures var listed := ParseInts(months);
      m.Keys == (set i | 0 <= i < |listed| :: listed[i]) && forall k :: k in m ==> m[k]
  {
    m := map[];
    for i := 0 to |months|
      invariant m.Keys == (set k | 0 <= k < i :: AtoiOrZero(months[k]))
      invariant forall key :: key in m ==> m[key]
    {
      var convertedMonth := AtoiOrZero(months[i]);
      if convertedMonth !in m {
        m := m[convertedMonth := true];
      }
    }
  }
}
