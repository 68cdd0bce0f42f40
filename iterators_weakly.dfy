/**
 * internal/services/nextdate/iterators/weakly.go: a single-weekday
 * iterator working on YYYYMMDD texts. Its pattern `^w [1-7]&` asks for a
 * literal '&' after the digit, and its offset uses Go's truncated `%`.
 * The clock that NextDate reads with time.Now() is the parameter now.
 */
module IteratorsWeakly {
  import opened Wrappers
  import opened Text
  import opened Calendar
  import opened Clock
  import opened Layout
  import opened Errors
  import opened Grammars
  import opened Recurrence

  /** Convert: Go's Weekday with Sunday (0) moved to 7. */
  function Convert(base: int): (converted: int)
    ensures base == 0 ==> converted == 7
    ensures base != 0 ==> converted == base
  {
    if base == 0 then 7 else base
  }

  /** Converting Go's weekday of a day gives its ISO weekday. */
  lemma ConvertIsIso(n: int)
    ensures Convert(GoWeekday(n)) == IsoWeekday(n)
  {
    GoWeekdayToIso(n);
  }

  /** The date moved by `(target - Convert(wd)) % 7` days, with Go's truncated remainder. */
  function TruncatedShift(c: Instant, target: int): Instant {
    AddDate(c, 0, 0, GoRem7(target - IsoWeekday(Day(c))))
  }

  datatype Weakly = Weakly(TargetWeekday: int) {
    /**
     * NextDate: an unparseable start date gives "" and StringToTime's
     * error; otherwise the start caught up one day at a time to the first
     * day the clock is not after, then moved by the truncated offset to the
     * target weekday, written as YYYYMMDD.
     */
    method NextDate(now: Instant, startDate: string) returns (next: string, err: Option<Error>)
      ensures ParseDate(startDate).None? ==> next == "" && err == Some(StartDateError(startDate))
      ensures ParseDate(startDate).Some? ==>
        var c := NextByDays(now, Midnight(ParseDate(startDate).value), 1);
        err == None && next == FormatDate(TruncatedShift(c, TargetWeekday).date)
    {
      var parsed := ParseDate(startDate);
      if parsed.None? {
        return "", Some(StartDateError(startDate));
      }
      var start := Midnight(parsed.value);
      var parsedStartDate := start;
      while After(now, parsedStartDate)
        invariant NextByDays(now, parsedStartDate, 1) == NextByDays(now, start, 1)
        decreases Gap(now, parsedStartDate)
      {
        DayStepTurn(now, parsedStartDate, 1);
        parsedStartDate := AddDate(parsedStartDate, 0, 0, 1);
      }
      NextByDaysUnmoved(now, parsedStartDate, 1);

      var c := parsedStartDate;
      var diff := GoRem7(TargetWeekday - Convert(GoWeekday(Day(c))));
      assert AddDate(c, 0, 0, diff) == TruncatedShift(c, TargetWeekday) by {
        ConvertIsIso(Day(c));
      }
      parsedStartDate := AddDate(c, 0, 0, diff);
      return FormatDate(parsedStartDate.date), None;
    }
  }

  /**
   * NewWeakly: the rule must be "w ", a digit 1..7 and a '&', followed by
   * anything; otherwise the zero Weakly and ErrRepeatRuleIsNotValid. For an
   * accepted rule the second space-separated piece starts with the digit and
   * the '&', so strconv.Atoi fails on it and TargetWeekday stays 0.
   */
  function NewWeakly(repeatRule: string): (res: (Weakly, Option<Error>))
    ensures !AmpersandWeekdayPattern(repeatRule) ==> res == (Weakly(0), Some(RepeatRuleIsNotValid))
    ensures AmpersandWeekdayPattern(repeatRule) ==> res == (Weakly(0), None)
  {
    if !AmpersandWeekdayPattern(repeatRule) then (Weakly(0), Some(RepeatRuleIsNotValid))
    else
      var sliced := Split(repeatRule, ' ');
      AmpersandSecondPiece(repeatRule);
      (Weakly(AtoiOrZero(sliced[1])), None)
  }

  /** The second piece of an accepted rule is a digit, '&' and whatever follows up to the next space: not a number. */
  lemma AmpersandSecondPiece(s: string)
    requires AmpersandWeekdayPattern(s)
    ensures |Split(s, ' ')| >= 2 && AtoiOrZero(Split(s, ' ')[1]) == 0
  {
    var rest := s[2..];
    SplitAtSeparator("w", ' ', rest);
    assert s == "w" + [' '] + rest;
    SplitHead(rest, ' ');
    SplitHead(rest[1..], ' ');
    var p := Split(s, ' ')[1];
    assert p == Split(rest, ' ')[0];
    assert p[1] == '&';
    assert !AllDigits(p);
  }

  // ------------------------------------------------------------- findings

  /**
   * As written, the plain rule "w 3" is rejected, and the rule "w 3&" that
   * is accepted yields TargetWeekday 0, which is no ISO weekday.
   */
  lemma NewWeaklyMissesItsRule()
    ensures NewWeakly("w 3").1 == Some(RepeatRuleIsNotValid)
    ensures NewWeakly("w 3&") == (Weakly(0), None)
  {
  }

  /**
   * NewWeakly with the evidently intended `^w [1-7]$`: the digit after
   * "w " becomes TargetWeekday.
   */
  function NewSingleWeekday(repeatRule: string): (res: (Weakly, Option<Error>))
    ensures !SingleWeekdayPattern(repeatRule) ==> res == (Weakly(0), Some(RepeatRuleIsNotValid))
    ensures SingleWeekdayPattern(repeatRule) ==>
      res.1 == None && IsWeekday(res.0.TargetWeekday) && repeatRule == "w " + FormatInt(res.0.TargetWeekday)
  {
    if !SingleWeekdayPattern(repeatRule) then (Weakly(0), Some(RepeatRuleIsNotValid))
    else
      var t := repeatRule[2..];
      SplitAtSeparator("w", ' ', t);
      SplitNoSeparator(t, ' ');
      assert repeatRule == "w" + [' '] + t;
      WeekdayTokenValue(t);
      (Weakly(AtoiOrZero(Split(repeatRule, ' ')[1])), None)
  }

  /** Every weekday n written as "w n" is accepted by the corrected rule and read back as n. */
  lemma NewSingleWeekdayAcceptsEveryDay(n: int)
    requires IsWeekday(n)
    ensures NewSingleWeekday("w " + FormatInt(n)) == (Weakly(n), None)
  {
    var s := "w " + FormatInt(n);
    assert s[2..] == FormatInt(n);
    AtoiFormatInt(n);
    assert Denotes(FormatInt(n), n);
    WeekdayTokenMeaning(FormatInt(n));
  }

  /**
   * As written, the truncated remainder is negative when the caught-up
   * day's ISO weekday is past the target, so from a start date before now
   * NextDate moves back to a date that now is after.
   */
  lemma TruncatedShiftBeforeNow(now: Instant, start: Instant, target: int)
    requires IsWeekday(target) && After(now, start)
    requires IsoWeekday(Day(NextByDays(now, start, 1))) > target
    ensures After(now, TruncatedShift(NextByDays(now, start, 1), target))
  {
    NextByDaysMinimal(now, start, 1);
    ShiftBackBeforeNow(now, NextByDays(now, start, 1), target);
  }

  /** From a date whose previous day now is after, the truncated move to an earlier weekday goes before now. */
  lemma ShiftBackBeforeNow(now: Instant, c: Instant, target: int)
    requires IsWeekday(target) && IsoWeekday(Day(c)) > target
    requires After(now, AddDate(c, 0, 0, -1))
    ensures After(now, TruncatedShift(c, target))
  {
    var a := target - IsoWeekday(Day(c));
    assert 1 <= -a <= 6 && (-a) % 7 == -a;
    assert GoRem7(a) == a;
    AddDateDays(c, -1);
    AddDateDays(c, a);
    AfterByDay(now, AddDate(c, 0, 0, -1));
    AfterByDay(now, AddDate(c, 0, 0, a));
  }

  /** The evidently intended move: forward by `(target - wd + 7) % 7` days. */
  function ForwardShift(c: Instant, target: int): Instant {
    AddDate(c, 0, 0, Offset(target, IsoWeekday(Day(c))))
  }

  /**
   * The forward move keeps the time of day, lands on the target weekday
   * within the coming week and passes no earlier day of that weekday, so a
   * caught-up date stays one that now is not after.
   */
  lemma ForwardShiftLands(now: Instant, c: Instant, target: int)
    requires IsWeekday(target) && !After(now, c)
    ensures var r := ForwardShift(c, target);
      !After(now, r) && r.nanos == c.nanos && IsoWeekday(Day(r)) == target
      && Day(c) <= Day(r) < Day(c) + 7
      && forall n :: Day(c) <= n < Day(r) ==> IsoWeekday(n) != target
  {
    var k := Offset(target, IsoWeekday(Day(c)));
    var r := ForwardShift(c, target);
    OffsetLands(Day(c), target, k);
    AddDateDays(c, k);
    AfterByDay(now, c);
    AfterByDay(now, r);
    forall n | Day(c) <= n < Day(r) ensures IsoWeekday(n) != target {
      OffsetOfShift(Day(c), n - Day(c));
    }
  }
}
