/**
 * internal/delivery/http/validation/validation.go: the request-field
 * checks of the HTTP layer (a date in YYYYMMDD form, a non-empty title, a
 * repeat rule in one of four grammars or empty) and the message built
 * from a list of failed checks.
 */
module HttpValidation {
  import opened Text
  import opened Calendar
  import opened Layout
  import opened Grammars

  // ------------------------------------------------------------ field checks

  /** IsDateValid: time.Parse("20060102", date) succeeds. */
  predicate IsDateValid(date: string) {
    ParseDate(date).Some?
  }

  /** A date text is valid exactly when it is the YYYYMMDD text of a calendar date of years 0..9999. */
  lemma IsDateValidMeaning(date: string)
    ensures IsDateValid(date) <==>
      exists d: Date :: Valid(d) && 0 <= d.year <= 9999 && FormatDate(d) == date
  {
    if IsDateValid(date) {
      FormatParse(date);
      var d := ParseDate(date).value;
      assert Valid(d) && 0 <= d.year <= 9999 && FormatDate(d) == date;
    }
    if d: Date :| Valid(d) && 0 <= d.year <= 9999 && FormatDate(d) == date {
      ParseFormat(d);
    }
  }

  /** IsTitleValid: the title has at least one byte. */
  function IsTitleValid(title: string): (ok: bool)
    ensures ok <==> title != []
  {
    |title| > 0
  }

  /**
   * IsRepeatValid: the empty rule is accepted; otherwise the rule must be
   * in the daily, weekly, monthly (with the `-?[1-9]` day tokens) or
   * yearly grammar.
   */
  predicate IsRepeatValid(repeat: string) {
    repeat == ""
    || DailyPattern(repeat)
    || WeeklyPattern(repeat)
    || MonthlyPattern(repeat, SignedMonthDayToken)
    || YearlyPattern(repeat)
  }

  /** "d n" for a step n in 1..400. */
  ghost predicate DailyRule(repeat: string) {
    exists n :: IsDayStep(n) && repeat == "d " + FormatInt(n)
  }

  /** "w " and a non-empty comma-separated list of weekdays 1..7. */
  ghost predicate WeeklyRule(repeat: string) {
    exists ws: seq<int> :: |ws| >= 1 && (forall i :: 0 <= i < |ws| ==> IsWeekday(ws[i])) && repeat == "w " + ListText(ws)
  }

  /** "m ", a non-empty list of days -9..-1 or 1..31, and an optional list of months 1..12. */
  ghost predicate MonthlyRule(repeat: string) {
    exists days: seq<int>, months: seq<int> ::
      |days| >= 1 && (forall i :: 0 <= i < |days| ==> IsSignedMonthDay(days[i]))
      && (forall i :: 0 <= i < |months| ==> IsMonth(months[i]))
      && repeat == MonthlyText(days, months)
  }

  /** The text of a day -9..-1 or 1..31 is a token of the signed day grammar. */
  lemma SignedMonthDayTokenOf(v: int)
    requires IsSignedMonthDay(v)
    ensures SignedMonthDayToken(FormatInt(v))
  {
    AtoiFormatInt(v);
    assert Denotes(FormatInt(v), v);
    SignedMonthDayTokenMeaning(FormatInt(v));
  }

  /** The daily grammar holds exactly the texts "d n" of the steps 1..400. */
  lemma DailyRuleMeaning(repeat: string)
    ensures DailyPattern(repeat) <==> DailyRule(repeat)
  {
    if DailyPattern(repeat) {
      DailyPatternParse(repeat);
      assert IsDayStep(AtoiOrZero(repeat[2..])) && repeat == "d " + FormatInt(AtoiOrZero(repeat[2..]));
    }
    if n :| IsDayStep(n) && repeat == "d " + FormatInt(n) {
      DailyPatternPrint(n);
    }
  }

  /** The weekly grammar holds exactly the texts of the non-empty weekday lists. */
  lemma WeeklyRuleMeaning(repeat: string)
    ensures WeeklyPattern(repeat) <==> WeeklyRule(repeat)
  {
    if WeeklyPattern(repeat) {
      WeeklyPatternParse(repeat);
      var ws := ParseInts(Split(repeat[2..], ','));
      assert |ws| >= 1 && (forall i :: 0 <= i < |ws| ==> IsWeekday(ws[i])) && repeat == "w " + ListText(ws);
    }
    if ws: seq<int> :| |ws| >= 1 && (forall i :: 0 <= i < |ws| ==> IsWeekday(ws[i])) && repeat == "w " + ListText(ws) {
      WeeklyPatternPrint(ws);
    }
  }

  /** The monthly grammar with the `-?[1-9]` day tokens holds exactly the texts of the monthly day and month lists. */
  lemma MonthlyRuleMeaning(repeat: string)
    ensures MonthlyPattern(repeat, SignedMonthDayToken) <==> MonthlyRule(repeat)
  {
    if MonthlyPattern(repeat, SignedMonthDayToken) {
      SignedMonthDayTokensDenote();
      MonthlyPatternParse(repeat, SignedMonthDayToken);
      var days, months := MonthlyDayList(repeat), MonthlyMonthList(repeat);
      forall i | 0 <= i < |days| ensures IsSignedMonthDay(days[i]) {
        SignedMonthDayOfToken(days[i]);
      }
      assert repeat == MonthlyText(days, months);
    }
    if days: seq<int>, months: seq<int> :|
      |days| >= 1 && (forall i :: 0 <= i < |days| ==> IsSignedMonthDay(days[i]))
      && (forall i :: 0 <= i < |months| ==> IsMonth(months[i]))
      && repeat == MonthlyText(days, months)
    {
      forall i | 0 <= i < |days| ensures SignedMonthDayToken(FormatInt(days[i])) {
        SignedMonthDayTokenOf(days[i]);
      }
      MonthlyPatternPrint(days, months, SignedMonthDayToken);
    }
  }

  /**
   * A repeat rule is valid exactly when it is empty, "y", or the text of
   * a daily step, of a weekday list or of a monthly day and month list.
   */
  lemma IsRepeatValidMeaning(repeat: string)
    ensures IsRepeatValid(repeat) <==>
      repeat == "" || repeat == "y" || DailyRule(repeat) || WeeklyRule(repeat) || MonthlyRule(repeat)
  {
    DailyRuleMeaning(repeat);
    WeeklyRuleMeaning(repeat);
    MonthlyRuleMeaning(repeat);
  }

  /** A rule that starts with "d " but whose step is not a step token is in none of the grammars. */
  lemma DailyLookalikeRejected(s: string)
    requires |s| >= 2 && s[..2] == "d " && !DayStepToken(s[2..])
    ensures !IsRepeatValid(s)
  {
    SplitHead(s, ' ');
  }

  /** Steps beyond 400 and a list after "d" are rejected. */
  lemma RejectedDailyRules()
    ensures !IsRepeatValid("d 500")
    ensures !IsRepeatValid("d 1000")
    ensures !IsRepeatValid("d 7,5,6,131231")
  {
    DailyLookalikeRejected("d 500");
    DailyLookalikeRejected("d 1000");
    DailyLookalikeRejected("d 7,5,6,131231");
  }

  /**
   * The day token `-?[1-9]` lets through -3..-9, which the monthly format
   * hint "-1,-2" does not allow: "m -9" is accepted, its day is -9.
   */
  lemma MonthlyAcceptsMinusNine()
    ensures IsRepeatValid("m -9")
    ensures MonthlyDayList("m -9") == [-9] && !IsMonthDay(-9)
  {
    var t := "-9";
    SplitAtSeparator("m", ' ', t);
    SplitNoSeparator(t, ' ');
    assert "m -9" == "m" + [' '] + t;
    SplitNoSeparator(t, ',');
    NegativeDenotes(t);
  }

  // --------------------------------------------------------- error messages

  /** One failed check: the validator tag that failed and the field it failed on. */
  datatype FieldError = FieldError(tag: string, field: string)

  /** The sentence after "field <name>" for each tag; any other tag reads "is invalid". */
  function TagText(tag: string): string {
    match tag
    case "required" => " is required"
    case "dateformat" => " must be in YYYYMMDD date format"
    case "title" => " must be non-empty"
    case "repeat" => " must satisfy expected patterns"
    case _ => " is invalid"
  }

  /** The message for one failed check, fmt.Sprintf("field %s ...", field). */
  function Message(e: FieldError): string {
    "field " + e.field + TagText(e.tag)
  }

  /** The messages of a list of failed checks, in order. */
  function Messages(errs: seq<FieldError>): (ms: seq<string>)
    ensures |ms| == |errs| && forall i :: 0 <= i < |errs| ==> ms[i] == Message(errs[i])
  {
    if errs == [] then [] else Messages(errs[..|errs| - 1]) + [Message(errs[|errs| - 1])]
  }

  /**
   * ValidationErrorMsg: one message per failed check, in the order of the
   * checks, joined by ", ".
   */
  method ValidationErrorMsg(errs: seq<FieldError>) returns (msg: string)
    ensures msg == Join(Messages(errs), ", ")
  {
    var errMsgs: seq<string> := [];
    for i := 0 to |errs|
      invariant errMsgs == Messages(errs[..i])
    {
      var e := errs[i];
      var m: string;
      match e.tag {
        case "required" => m := "field " + e.field + " is required";
        case "dateformat" => m := "field " + e.field + " must be in YYYYMMDD date format";
        case "title" => m := "field " + e.field + " must be non-empty";
        case "repeat" => m := "field " + e.field + " must satisfy expected patterns";
        case _ => m := "field " + e.field + " is invalid";
      }
      assert errs[..i + 1][..i] == errs[..i];
      errMsgs := errMsgs + [m];
    }
    assert errs[..|errs|] == errs;
    msg := Join(errMsgs, ", ");
  }

  /** Every message starts with "field " and the field name. */
  lemma MessageNamesField(e: FieldError)
    ensures |Message(e)| > 6 + |e.field|
    ensures Message(e)[..6 + |e.field|] == "field " + e.field
  {
    var m := Message(e);
    assert m == ("field " + e.field) + TagText(e.tag);
  }

  lemma MessagesOfTwo(a: FieldError, b: FieldError)
    ensures Join(Messages([a, b]), ", ") == Message(a) + ", " + Message(b)
  {
    assert [a, b][..1] == [a];
    var ms := Messages([a, b]);
    assert ms[1..] == [Message(b)];
  }

  /**
   * The concatenation step of TwoRequiredFields, kept apart so that the
   * solver joins the two literal messages without unfolding Message.
   */
  lemma ExampleText(x: string, y: string)
    requires x == "field Date is required" && y == "field Title is required"
    ensures x + ", " + y == "field Date is required, field Title is required"
  {
  }

  /** Two missing required fields read "field Date is required, field Title is required". */
  lemma TwoRequiredFields()
    ensures Join(Messages([FieldError("required", "Date"), FieldError("required", "Title")]), ", ")
      == "field Date is required, field Title is required"
  {
    var date, title := FieldError("required", "Date"), FieldError("required", "Title");
    MessagesOfTwo(date, title);
    assert Message(date) == "field Date is required";
    assert Message(title) == "field Title is required";
    ExampleText(Message(date), Message(title));
  }
}
