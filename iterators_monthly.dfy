/**
 * internal/services/nextdate/iterators/monthly.go: the `m <days> [<months>]`
 * rule of the iterators package, whose day tokens are -1, -2 and 1..31.
 * It has no next-date method.
 */
module IteratorsMonthly {
  import opened Wrappers
  import opened Text
  import opened Errors
  import opened Grammars

  /** TargetMonths is None for a nil slice. */
  datatype Monthly = Monthly(TargetDays: seq<int>, TargetMonths: Option<seq<int>>)

  /** convert: one integer per comma-separated field, in order; a field strconv.Atoi rejects gives 0. */
  method Convert(source: string) returns (result: seq<int>)
    ensures |result| == |Split(source, ',')|
    ensures forall i :: 0 <= i < |result| ==> result[i] == AtoiOrZero(Split(source, ',')[i])
    ensures result == ParseInts(Split(source, ','))
  {
    var sliced := Split(source, ',');
    var a := new int[|sliced|];
    for i := 0 to |sliced|
      invariant forall k :: 0 <= k < i ==> a[k] == AtoiOrZero(sliced[k])
    {
      a[i] := AtoiOrZero(sliced[i]);
    }
    result := a[..];
    assert result == ParseInts(sliced);
  }

  /** convert reads back the values a comma list of canonical numerals was written from. */
  lemma ConvertListText(vs: seq<int>)
    requires |vs| >= 1
    ensures ParseInts(Split(ListText(vs), ',')) == vs
  {
    CommaListPrint(vs, (t: string) => true);
  }

  /** What an accepted rule holds: days -2, -1 or 1..31, months 1..12, and the rule is their text. */
  lemma AcceptedRule(s: string)
    requires MonthlyPattern(s, MonthDayToken)
    ensures var days, months := MonthlyDayList(s), MonthlyMonthList(s);
      |days| >= 1 && (forall i :: 0 <= i < |days| ==> IsMonthDay(days[i]))
      && (forall i :: 0 <= i < |months| ==> IsMonth(months[i]))
      && (|Split(s, ' ')| > 2 <==> months != [])
      && s == MonthlyText(days, months)
  {
    MonthDayTokensDenote();
    MonthlyPatternParse(s, MonthDayToken);
    var days := MonthlyDayList(s);
    forall i | 0 <= i < |days| ensures IsMonthDay(days[i]) {
      MonthDayOfToken(days[i]);
    }
  }

  /**
   * NewMonthly: a rule outside the pattern gives the zero Monthly and
   * ErrRepeatRuleIsNotValid. An accepted rule gives the day values in
   * order, each -2, -1 or 1..31, and TargetMonths set, to the listed
   * months, exactly when there is a month segment; the rule is the text of
   * those days and months.
   */
  method NewMonthly(repeatRule: string) returns (monthly: Monthly, err: Option<Error>)
    ensures !MonthlyPattern(repeatRule, MonthDayToken) ==>
      monthly == Monthly([], None) && err == Some(RepeatRuleIsNotValid)
    ensures MonthlyPattern(repeatRule, MonthDayToken) ==>
      err == None && |monthly.TargetDays| >= 1
      && (forall i :: 0 <= i < |monthly.TargetDays| ==> IsMonthDay(monthly.TargetDays[i]))
      && (monthly.TargetMonths.None? <==> MonthlyMonthList(repeatRule) == [])
      && (monthly.TargetMonths.Some? ==>
            monthly.TargetMonths.value == MonthlyMonthList(repeatRule)
            && forall i :: 0 <= i < |monthly.TargetMonths.value| ==> IsMonth(monthly.TargetMonths.value[i]))
      && repeatRule == MonthlyText(monthly.TargetDays, MonthlyMonthList(repeatRule))
  {
    if !MonthlyPattern(repeatRule, MonthDayToken) {
      return Monthly([], None), Some(RepeatRuleIsNotValid);
    }
    AcceptedRule(repeatRule);
    var sliced := Split(repeatRule, ' ');
    var days := Convert(sliced[1]);
    var months: Option<seq<int>> := None;
    if |sliced| > 2 {
      var converted := Convert(sliced[2]);
      months := Some(converted);
    }
    monthly := Monthly(days, months);
    err := None;
  }
}
