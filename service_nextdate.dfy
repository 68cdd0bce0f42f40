/**
 * internal/service/nextdate.go: the string-level entry point NextDate.
 * The rule is checked first (empty, unknown option letter, then the
 * option's own pattern), the date is parsed next, and only the 'd' and
 * 'y' options compute a date; a valid 'w' or 'm' rule yields the empty
 * string and no error.
 */
module ServiceNextDate {
  import opened Wrappers
  import opened Text
  import opened Calendar
  import opened Clock
  import opened Layout
  import opened Errors
  import opened Grammars
  import opened Recurrence

  const EmptyRepeat := New("Can not compute next date. Repeat rule is empty.")
  const UnknownOption := New("Can not compute next date. Option is unknown")
  const IllegalRepeat := New("Gotten repeat rule is illegal")

  /** The option letters the `regexps` table has a pattern for. */
  predicate KnownOption(c: char) {
    c == 'd' || c == 'y' || c == 'w' || c == 'm'
  }

  /** The pattern `regexps` holds for a known option letter. */
  predicate OptionPattern(option: char, s: string) {
    match option
    case 'd' => DailyPattern(s)
    case 'y' => YearlyPattern(s)
    case 'w' => SingleWeekdayPattern(s)
    case _ => MonthlyPattern(s, MonthDayToken)
  }

  /** A rule in the `m` grammar starts with its letter. */
  lemma MonthlyPatternHead(s: string, dayToken: string -> bool)
    requires MonthlyPattern(s, dayToken)
    ensures |s| >= 1 && s[0] == 'm'
  {
    var parts := Split(s, ' ');
    JoinSplit(s, ' ');
    assert s == parts[0] + [' '] + Join(parts[1..], [' ']);
  }

  /**
   * isRepeatValid: None for a valid rule. The empty rule and an unknown
   * option letter are reported before any pattern is tried.
   */
  function IsRepeatValid(repeat: string): (err: Option<Error>)
    ensures repeat == [] ==> err == Some(EmptyRepeat)
    ensures repeat != [] && !KnownOption(repeat[0]) ==> err == Some(UnknownOption)
    ensures repeat != [] && KnownOption(repeat[0]) && err.Some? ==> err == Some(IllegalRepeat)
  {
    if |repeat| < 1 then Some(EmptyRepeat)
    else if !KnownOption(repeat[0]) then Some(UnknownOption)
    else if !OptionPattern(repeat[0], repeat) then Some(IllegalRepeat)
    else None
  }

  /** A rule is valid exactly when it is in one of the four grammars. */
  lemma IsRepeatValidMeaning(repeat: string)
    ensures IsRepeatValid(repeat).None? <==>
      DailyPattern(repeat) || YearlyPattern(repeat) || SingleWeekdayPattern(repeat) || MonthlyPattern(repeat, MonthDayToken)
  {
    if MonthlyPattern(repeat, MonthDayToken) {
      MonthlyPatternHead(repeat, MonthDayToken);
    }
  }

  /** computeDayRepeat: step `dayRepeat` days at a time until now is not after the date. */
  method ComputeDayRepeat(now: Instant, date: Instant, dayRepeat: int) returns (r: string)
    requires dayRepeat >= 1 || !After(now, date)
    ensures r == FormatDate(NextByDays(now, date, dayRepeat).date)
  {
    var d := date;
    while After(now, d)
      invariant dayRepeat >= 1 || d == date
      invariant NextByDays(now, d, dayRepeat) == NextByDays(now, date, dayRepeat)
      decreases Gap(now, d)
    {
      DayStepTurn(now, d, dayRepeat);
      d := AddDate(d, 0, 0, dayRepeat);
    }
    NextByDaysUnmoved(now, d, dayRepeat);
    r := FormatDate(d.date);
  }

  /** computeYearRepeat: add one year at a time until now is not after the date. */
  method ComputeYearRepeat(now: Instant, date: Instant) returns (r: string)
    ensures r == FormatDate(NextByYears(now, date).date)
  {
    var d := date;
    while After(now, d)
      invariant NextByYears(now, d) == NextByYears(now, date)
      decreases YearsNeeded(now, d)
    {
      YearStepTurn(now, d);
      d := AddDate(d, 1, 0, 0);
    }
    NextByYearsUnmoved(now, d);
    r := FormatDate(d.date);
  }

  /** fmt.Errorf("Can not parse date, %w", err) around time.Parse's error. */
  function ParseDateError(date: string): (e: Error)
    ensures Is(e, TimeParse(date)) && !Printable(e)
  {
    Wrapf("Can not parse date, ", TimeParse(date), "")
  }

  /**
   * NextDate: a rule error is returned first; then a date that does not
   * parse; otherwise 'd' gives the first date + k·n that now is not after,
   * 'y' the first yearly anniversary now is not after, both written as
   * YYYYMMDD, and 'w' and 'm' give the empty text without an error.
   */
  method NextDate(now: Instant, date: string, repeat: string) returns (next: string, err: Option<Error>)
    ensures IsRepeatValid(repeat).Some? ==> next == "" && err == IsRepeatValid(repeat)
    ensures IsRepeatValid(repeat).None? && ParseDate(date).None? ==> next == "" && err == Some(ParseDateError(date))
    ensures IsRepeatValid(repeat).None? && ParseDate(date).Some? ==>
      var start := Midnight(ParseDate(date).value);
      err == None
      && (repeat[0] == 'd' ==>
            IsDayStep(AtoiOrZero(repeat[2..])) && next == FormatDate(NextByDays(now, start, AtoiOrZero(repeat[2..])).date))
      && (repeat[0] == 'y' ==> next == FormatDate(NextByYears(now, start).date))
      && (repeat[0] == 'w' || repeat[0] == 'm' ==> next == "")
  {
    err := IsRepeatValid(repeat);
    if err.Some? {
      return "", err;
    }
    var parsed := ParseDate(date);
    if parsed.None? {
      return "", Some(ParseDateError(date));
    }
    var start := Midnight(parsed.value);
    next := "";
    var option := repeat[0];
    if option == 'd' {
      DailyPatternParse(repeat);
      var dayRepeat := AtoiOrZero(repeat[2..]);
      next := ComputeDayRepeat(now, start, dayRepeat);
    } else if option == 'y' {
      next := ComputeYearRepeat(now, start);
    }
  }

  /** Noon, the time of day of the instant the service's own cases run at. */
  const Noon: DayNanos := 12 * 3600 * 1_000_000_000

  /** 20240113 with `d 7`, at noon on 2024-01-26, gives 20240127. */
  lemma SevenDayExample()
    ensures NextByDays(Instant(Date(2024, 1, 26), Noon), Midnight(Date(2024, 1, 13)), 7) == Midnight(Date(2024, 1, 27))
  {
  }

  /** 20240120 with `d 20`, at noon on 2024-01-26, gives 20240209. */
  lemma TwentyDayExample()
    ensures NextByDays(Instant(Date(2024, 1, 26), Noon), Midnight(Date(2024, 1, 20)), 20) == Midnight(Date(2024, 2, 9))
  {
  }

  /** 20231225 with `d 12`, at noon on 2024-01-26, gives 20240130: the noon clock is after 20240118 at midnight. */
  lemma TwelveDayExample()
    ensures NextByDays(Instant(Date(2024, 1, 26), Noon), Midnight(Date(2023, 12, 25)), 12) == Midnight(Date(2024, 1, 30))
  {
    assert StepsNeeded(Instant(Date(2024, 1, 26), Noon), Midnight(Date(2023, 12, 25)), 12) == 3;
  }

  /** The service's year cases, run at noon on 2024-01-26. */
  lemma YearRepeatExamples()
    ensures NextByYears(Instant(Date(2024, 1, 26), Noon), Midnight(Date(1689, 2, 20))) == Midnight(Date(2024, 2, 20))
    ensures NextByYears(Instant(Date(2024, 1, 26), Noon), Midnight(Date(2024, 1, 1))) == Midnight(Date(2025, 1, 1))
  {
  }

  /** The answer of the third day case, written as the service writes it. */
  lemma FormatExample()
    ensures FormatDate(Date(2024, 1, 30)) == "20240130"
  {
  }

  /** The empty rule, a bare 'd' and a step over 400 are refused. */
  lemma RejectedRules()
    ensures IsRepeatValid("") == Some(EmptyRepeat)
    ensures IsRepeatValid("d") == Some(IllegalRepeat)
    ensures IsRepeatValid("d 555") == Some(IllegalRepeat)
  {
  }
}
