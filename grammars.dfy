/**
 * The regular expressions that recognise recurrence rules, one predicate
 * per pattern, each written as the alternation its pattern spells out.
 * A comma list `T(,T)*` is a non-empty list of T tokens separated by
 * commas; since no token holds a comma or a space, it is stated through
 * strings.Split, the same call the parsers make afterwards.
 */
module Grammars {
  import opened Wrappers
  import opened Text

  // ---------------------------------------------------------------- tokens

  /** `[1-9]|[1-9][0-9]|[1-3][0-9]{2}|400` */
  predicate DayStepToken(t: string) {
    (|t| == 1 && '1' <= t[0] <= '9')
    || (|t| == 2 && '1' <= t[0] <= '9' && IsDigit(t[1]))
    || (|t| == 3 && '1' <= t[0] <= '3' && IsDigit(t[1]) && IsDigit(t[2]))
    || t == "400"
  }

  /** `[1-7]` */
  predicate WeekdayToken(t: string) {
    |t| == 1 && '1' <= t[0] <= '7'
  }

  /** `-1|-2|[1-9]|[1-2][0-9]|3[0-1]` */
  predicate MonthDayToken(t: string) {
    t == "-1" || t == "-2"
    || (|t| == 1 && '1' <= t[0] <= '9')
    || (|t| == 2 && '1' <= t[0] <= '2' && IsDigit(t[1]))
    || (|t| == 2 && t[0] == '3' && '0' <= t[1] <= '1')
  }

  /** `-?[1-9]|-1|-2|[12][0-9]|3[01]` */
  predicate SignedMonthDayToken(t: string) {
    (|t| == 1 && '1' <= t[0] <= '9')
    || (|t| == 2 && t[0] == '-' && '1' <= t[1] <= '9')
    || t == "-1" || t == "-2"
    || (|t| == 2 && '1' <= t[0] <= '2' && IsDigit(t[1]))
    || (|t| == 2 && t[0] == '3' && '0' <= t[1] <= '1')
  }

  /** `[1-9]|1[0-2]` */
  predicate MonthToken(t: string) {
    (|t| == 1 && '1' <= t[0] <= '9')
    || (|t| == 2 && t[0] == '1' && '0' <= t[1] <= '2')
  }

  /** `T(,T)*` */
  predicate CommaList(t: string, token: string -> bool) {
    var parts := Split(t, ',');
    forall i :: 0 <= i < |parts| ==> token(parts[i])
  }

  // -------------------------------------------------------------- patterns

  /** `^d (?:[1-9]|[1-9][0-9]|[1-3][0-9]{2}|400)$` */
  predicate DailyPattern(s: string) {
    |s| >= 2 && s[..2] == "d " && DayStepToken(s[2..])
  }

  /** `^w ([1-7](,[1-7])*)$` */
  predicate WeeklyPattern(s: string) {
    |s| >= 2 && s[..2] == "w " && CommaList(s[2..], WeekdayToken)
  }

  /** `^w [1-7]$` */
  predicate SingleWeekdayPattern(s: string) {
    |s| == 3 && s[..2] == "w " && WeekdayToken(s[2..])
  }

  /** `^w [1-7]&`: no end anchor, so anything may follow the '&'. */
  predicate AmpersandWeekdayPattern(s: string) {
    |s| >= 4 && s[..2] == "w " && '1' <= s[2] <= '7' && s[3] == '&'
  }

  /** `^m D(,D)*( M(,M)*)?$` for the day-token grammar D and the month tokens M. */
  predicate MonthlyPattern(s: string, dayToken: string -> bool) {
    var parts := Split(s, ' ');
    (|parts| == 2 || |parts| == 3) && parts[0] == "m"
    && CommaList(parts[1], dayToken)
    && (|parts| == 3 ==> CommaList(parts[2], MonthToken))
  }

  /** `^y$` */
  predicate YearlyPattern(s: string) {
    s == "y"
  }

  /** `y` without anchors: any text that holds a 'y'. */
  predicate ContainsY(s: string) {
    'y' in s
  }

  // ------------------------------------------------ what the tokens denote

  /** Decimal text of 0..999 spelled out digit by digit. */
  lemma ItoaShort(v: nat)
    requires v < 1000
    ensures Itoa(v) ==
      if v < 10 then [DigitChar(v)]
      else if v < 100 then [DigitChar(v / 10), DigitChar(v % 10)]
      else [DigitChar(v / 100), DigitChar(v / 10 % 10), DigitChar(v % 10)]
  {
    if v >= 100 {
      assert (v / 10) / 10 == v / 100;
    }
  }

  /** The length and leading digit of the decimal text of 1..999. */
  lemma ItoaShape(v: nat)
    requires 1 <= v < 1000
    ensures var t := Itoa(v);
      (|t| == 1 <==> v < 10) && (|t| == 2 <==> 10 <= v < 100) && (|t| == 3 <==> 100 <= v)
      && DigitValue(t[0]) == (if v < 10 then v else if v < 100 then v / 10 else v / 100)
      && (|t| == 3 ==> DigitValue(t[1]) == v / 10 % 10 && DigitValue(t[2]) == v % 10)
  {
    ItoaShort(v);
  }

  lemma DigitsValueShort(t: string)
    requires AllDigits(t) && 1 <= |t| <= 3
    ensures DigitsValue(t) ==
      if |t| == 1 then DigitValue(t[0])
      else if |t| == 2 then 10 * DigitValue(t[0]) + DigitValue(t[1])
      else 100 * DigitValue(t[0]) + 10 * DigitValue(t[1]) + DigitValue(t[2])
  {
    if |t| >= 2 {
      assert t[..|t| - 1][..1] == t[..1];
    }
    if |t| == 3 {
      assert t[..2][..1] == t[..1];
    }
  }

  /** The value a token carries: what strconv.Atoi reads from it, written back by strconv.Itoa as the token itself. */
  predicate Denotes(t: string, v: int) {
    Atoi(t) == Some(v) && FormatInt(v) == t
  }

  lemma UnsignedDenotes(t: string)
    requires AllDigits(t) && 1 <= |t| <= 3 && (|t| > 1 ==> t[0] != '0')
    ensures Denotes(t, DigitsValue(t))
  {
    FormatIntAtoi(t);
  }

  lemma NegativeDenotes(t: string)
    requires |t| == 2 && t[0] == '-' && '1' <= t[1] <= '9'
    ensures Denotes(t, -DigitValue(t[1]))
  {
    assert AllDigits(t[1..]) && DigitsValue(t[1..]) == DigitValue(t[1]) by {
      DigitsValueShort(t[1..]);
    }
    ItoaShort(DigitValue(t[1]));
    assert FormatInt(-DigitValue(t[1])) == "-" + [t[1]];
  }

  lemma DayStepTokenOf(v: int)
    requires 1 <= v <= 400
    ensures DayStepToken(FormatInt(v))
  {
    var t := Itoa(v);
    ItoaShape(v);
    if v == 400 {
      assert t[0] == '4' && t[1] == '0' && t[2] == '0';
      assert t == "400";
    } else if v >= 100 {
      assert 1 <= DigitValue(t[0]) <= 3;
      assert '1' <= t[0] <= '3' && IsDigit(t[1]) && IsDigit(t[2]);
    } else if v >= 10 {
      assert '1' <= t[0] <= '9' && IsDigit(t[1]);
    } else {
      assert '1' <= t[0] <= '9';
    }
  }

  /** The daily step tokens are exactly the decimal texts of 1..400. */
  lemma DayStepTokenMeaning(t: string)
    ensures DayStepToken(t) <==> exists v :: 1 <= v <= 400 && Denotes(t, v)
  {
    if DayStepToken(t) {
      if t == "400" {
        ItoaShape(400);
        assert FormatInt(400) == t;
        AtoiFormatInt(400);
        assert Denotes(t, 400);
      } else {
        DigitsValueShort(t);
        UnsignedDenotes(t);
        assert Denotes(t, DigitsValue(t));
      }
    }
    if v :| 1 <= v <= 400 && Denotes(t, v) {
      DayStepTokenOf(v);
    }
  }

  /** The weekday tokens are exactly the decimal texts of 1..7. */
  lemma WeekdayTokenMeaning(t: string)
    ensures WeekdayToken(t) <==> exists v :: 1 <= v <= 7 && Denotes(t, v)
  {
    if WeekdayToken(t) {
      DigitsValueShort(t);
      UnsignedDenotes(t);
      assert Denotes(t, DigitsValue(t));
    }
    if v :| 1 <= v <= 7 && Denotes(t, v) {
      ItoaShape(v);
    }
  }

  /** The month tokens are exactly the decimal texts of 1..12. */
  lemma MonthTokenMeaning(t: string)
    ensures MonthToken(t) <==> exists v :: 1 <= v <= 12 && Denotes(t, v)
  {
    if MonthToken(t) {
      DigitsValueShort(t);
      UnsignedDenotes(t);
      assert Denotes(t, DigitsValue(t));
    }
    if v :| 1 <= v <= 12 && Denotes(t, v) {
      ItoaShape(v);
    }
  }

  /** The day tokens of `-1|-2|[1-9]|[1-2][0-9]|3[0-1]` are exactly the texts of -2, -1 and 1..31. */
  lemma MonthDayTokenMeaning(t: string)
    ensures MonthDayToken(t) <==> exists v :: (v == -2 || v == -1 || 1 <= v <= 31) && Denotes(t, v)
  {
    if MonthDayToken(t) {
      if |t| == 2 && t[0] == '-' {
        NegativeDenotes(t);
        assert Denotes(t, -DigitValue(t[1]));
      } else {
        DigitsValueShort(t);
        UnsignedDenotes(t);
        assert Denotes(t, DigitsValue(t));
      }
    }
    if v :| (v == -2 || v == -1 || 1 <= v <= 31) && Denotes(t, v) {
      ItoaShape(if v < 0 then -v else v);
    }
  }

  /** The day tokens of `-?[1-9]|-1|-2|[12][0-9]|3[01]` are exactly the texts of -9..-1 and 1..31. */
  lemma SignedMonthDayTokenMeaning(t: string)
    ensures SignedMonthDayToken(t) <==> exists v :: (-9 <= v <= -1 || 1 <= v <= 31) && Denotes(t, v)
  {
    if SignedMonthDayToken(t) {
      if |t| == 2 && t[0] == '-' {
        NegativeDenotes(t);
        assert Denotes(t, -DigitValue(t[1]));
      } else {
        DigitsValueShort(t);
        UnsignedDenotes(t);
        assert Denotes(t, DigitsValue(t));
      }
    }
    if v :| (-9 <= v <= -1 || 1 <= v <= 31) && Denotes(t, v) {
      ItoaShape(if v < 0 then -v else v);
    }
  }

  // ------------------------------------------------------ lists of numbers

  /** The comma-separated decimal text of a list of integers. */
  function ListText(vs: seq<int>): string {
    Join(FormatInts(vs), ",")
  }

  lemma ListTextNoSpace(vs: seq<int>)
    ensures ' ' !in ListText(vs)
  {
    forall i | 0 <= i < |vs| ensures ' ' !in FormatInts(vs)[i] {
      FormatIntChars(vs[i], ' ');
    }
    JoinAvoids(FormatInts(vs), ',', ' ');
  }

  /**
   * Reading a comma list of canonical numerals gives a non-empty list of
   * values whose texts are tokens again and that prints back as the list.
   */
  lemma CommaListParse(t: string, token: string -> bool)
    requires CommaList(t, token)
    requires forall p :: token(p) ==> Denotes(p, AtoiOrZero(p))
    ensures var vs := ParseInts(Split(t, ','));
      |vs| >= 1 && (forall i :: 0 <= i < |vs| ==> token(FormatInt(vs[i]))) && ListText(vs) == t
  {
    var parts := Split(t, ',');
    var vs := ParseInts(parts);
    forall i | 0 <= i < |parts| ensures FormatInts(vs)[i] == parts[i] {
      assert token(parts[i]);
    }
    assert FormatInts(vs) == parts;
    JoinSplit(t, ',');
  }

  /** The text of a non-empty list of token values is a comma list that reads back as the same values. */
  lemma CommaListPrint(vs: seq<int>, token: string -> bool)
    requires |vs| >= 1
    requires forall i :: 0 <= i < |vs| ==> token(FormatInt(vs[i]))
    ensures CommaList(ListText(vs), token)
    ensures ParseInts(Split(ListText(vs), ',')) == vs
  {
    var parts := FormatInts(vs);
    forall i | 0 <= i < |parts| ensures ',' !in parts[i] {
      FormatIntChars(vs[i], ',');
    }
    SplitJoin(parts, ',');
    forall i | 0 <= i < |vs| ensures AtoiOrZero(parts[i]) == vs[i] {
      AtoiFormatInt(vs[i]);
    }
  }

  // --------------------------------------------------- value ranges of tokens

  predicate IsDayStep(n: int) { 1 <= n <= 400 }
  predicate IsWeekday(n: int) { 1 <= n <= 7 }
  predicate IsMonth(n: int) { 1 <= n <= 12 }
  predicate IsMonthDay(n: int) { n == -2 || n == -1 || 1 <= n <= 31 }
  predicate IsSignedMonthDay(n: int) { -9 <= n <= -1 || 1 <= n <= 31 }

  lemma DayStepTokenValue(t: string)
    requires DayStepToken(t)
    ensures IsDayStep(AtoiOrZero(t)) && Denotes(t, AtoiOrZero(t))
  {
    DayStepTokenMeaning(t);
  }

  lemma WeekdayTokenValue(t: string)
    requires WeekdayToken(t)
    ensures IsWeekday(AtoiOrZero(t)) && Denotes(t, AtoiOrZero(t))
  {
    WeekdayTokenMeaning(t);
  }

  lemma MonthTokenValue(t: string)
    requires MonthToken(t)
    ensures IsMonth(AtoiOrZero(t)) && Denotes(t, AtoiOrZero(t))
  {
    MonthTokenMeaning(t);
  }

  lemma MonthDayTokenValue(t: string)
    requires MonthDayToken(t)
    ensures IsMonthDay(AtoiOrZero(t)) && Denotes(t, AtoiOrZero(t))
  {
    MonthDayTokenMeaning(t);
  }

  lemma SignedMonthDayTokenValue(t: string)
    requires SignedMonthDayToken(t)
    ensures IsSignedMonthDay(AtoiOrZero(t)) && Denotes(t, AtoiOrZero(t))
  {
    SignedMonthDayTokenMeaning(t);
  }

  /** The value whose text is a day token of the signed grammar is -9..-1 or 1..31. */
  lemma SignedMonthDayOfToken(v: int)
    requires SignedMonthDayToken(FormatInt(v))
    ensures IsSignedMonthDay(v)
  {
    SignedMonthDayTokenValue(FormatInt(v));
    AtoiFormatInt(v);
  }

  /** The value whose text is a day token of the unsigned grammar is -2, -1 or 1..31. */
  lemma MonthDayOfToken(v: int)
    requires MonthDayToken(FormatInt(v))
    ensures IsMonthDay(v)
  {
    MonthDayTokenValue(FormatInt(v));
    AtoiFormatInt(v);
  }

  /** Every token of the signed day grammar denotes the value strconv.Atoi reads from it. */
  lemma SignedMonthDayTokensDenote()
    ensures forall p :: SignedMonthDayToken(p) ==> Denotes(p, AtoiOrZero(p))
  {
    forall p | SignedMonthDayToken(p) ensures Denotes(p, AtoiOrZero(p)) {
      SignedMonthDayTokenValue(p);
    }
  }

  /** Every token of the unsigned day grammar denotes the value strconv.Atoi reads from it. */
  lemma MonthDayTokensDenote()
    ensures forall p :: MonthDayToken(p) ==> Denotes(p, AtoiOrZero(p))
  {
    forall p | MonthDayToken(p) ensures Denotes(p, AtoiOrZero(p)) {
      MonthDayTokenValue(p);
    }
  }

  // ------------------------------------------- what the patterns accept

  /** A daily rule is "d " followed by the decimal text of a step in 1..400. */
  lemma DailyPatternParse(s: string)
    requires DailyPattern(s)
    ensures IsDayStep(AtoiOrZero(s[2..])) && s == "d " + FormatInt(AtoiOrZero(s[2..]))
  {
    DayStepTokenValue(s[2..]);
    assert s == s[..2] + s[2..];
  }

  /** strings.Split(s, " ") cuts a daily rule into "d" and the step's text. */
  lemma DailyPatternSplit(s: string)
    requires DailyPattern(s)
    ensures Split(s, ' ') == ["d", s[2..]]
  {
    DailyPatternParse(s);
    FormatIntChars(AtoiOrZero(s[2..]), ' ');
    SplitAtSeparator("d", ' ', s[2..]);
    SplitNoSeparator(s[2..], ' ');
    assert s == "d" + [' '] + s[2..];
  }

  lemma DailyPatternPrint(n: int)
    requires IsDayStep(n)
    ensures DailyPattern("d " + FormatInt(n))
    ensures AtoiOrZero(("d " + FormatInt(n))[2..]) == n
  {
    var s := "d " + FormatInt(n);
    assert s[..2] == "d " && s[2..] == FormatInt(n);
    AtoiFormatInt(n);
    assert Denotes(FormatInt(n), n);
    DayStepTokenMeaning(FormatInt(n));
  }

  /** A weekly rule is "w " followed by a non-empty list of weekdays 1..7. */
  lemma WeeklyPatternParse(s: string)
    requires WeeklyPattern(s)
    ensures var ws := ParseInts(Split(s[2..], ','));
      |ws| >= 1 && (forall i :: 0 <= i < |ws| ==> IsWeekday(ws[i])) && s == "w " + ListText(ws)
  {
    var parts := Split(s[2..], ',');
    forall p | WeekdayToken(p) ensures Denotes(p, AtoiOrZero(p)) {
      WeekdayTokenValue(p);
    }
    forall i | 0 <= i < |parts| ensures IsWeekday(AtoiOrZero(parts[i])) {
      WeekdayTokenValue(parts[i]);
    }
    CommaListParse(s[2..], WeekdayToken);
    assert s == s[..2] + s[2..];
  }

  lemma WeeklyPatternPrint(ws: seq<int>)
    requires |ws| >= 1 && forall i :: 0 <= i < |ws| ==> IsWeekday(ws[i])
    ensures WeeklyPattern("w " + ListText(ws))
    ensures ParseInts(Split(("w " + ListText(ws))[2..], ',')) == ws
  {
    var s := "w " + ListText(ws);
    assert s[..2] == "w " && s[2..] == ListText(ws);
    forall i | 0 <= i < |ws| ensures WeekdayToken(FormatInt(ws[i])) {
      AtoiFormatInt(ws[i]);
      assert Denotes(FormatInt(ws[i]), ws[i]);
      WeekdayTokenMeaning(FormatInt(ws[i]));
    }
    CommaListPrint(ws, WeekdayToken);
  }

  /** The space-separated pieces of a monthly rule: "m", the day list, then the month list when there is one. */
  function MonthlyParts(days: seq<int>, months: seq<int>): seq<string> {
    ["m", ListText(days)] + (if months == [] then [] else [ListText(months)])
  }

  /** The text of a monthly rule. */
  function MonthlyText(days: seq<int>, months: seq<int>): string {
    Join(MonthlyParts(days, months), " ")
  }

  /** strings.Split(s, " ") cuts a monthly rule text into its pieces. */
  lemma MonthlyTextSplit(days: seq<int>, months: seq<int>)
    ensures Split(MonthlyText(days, months), ' ') == MonthlyParts(days, months)
  {
    var parts := MonthlyParts(days, months);
    ListTextNoSpace(days);
    ListTextNoSpace(months);
    SplitJoin(parts, ' ');
  }

  /** The integers of a monthly rule's day list: strings.Split on " ", then on "," in the second piece. */
  function MonthlyDayList(s: string): seq<int> {
    var parts := Split(s, ' ');
    if |parts| >= 2 then ParseInts(Split(parts[1], ',')) else []
  }

  /** The integers of a monthly rule's month list, empty when there is no third piece. */
  function MonthlyMonthList(s: string): seq<int> {
    var parts := Split(s, ' ');
    if |parts| >= 3 then ParseInts(Split(parts[2], ',')) else []
  }

  /**
   * A monthly rule is "m ", a non-empty list of day tokens and an optional
   * non-empty list of months 1..12; the lists read back as the values whose
   * texts they are, and the third piece exists exactly when months are listed.
   */
  lemma MonthlyPatternParse(s: string, dayToken: string -> bool)
    requires MonthlyPattern(s, dayToken)
    requires forall p :: dayToken(p) ==> Denotes(p, AtoiOrZero(p))
    ensures var days := MonthlyDayList(s);
      var months := MonthlyMonthList(s);
      |days| >= 1 && (forall i :: 0 <= i < |days| ==> dayToken(FormatInt(days[i])))
      && (forall i :: 0 <= i < |months| ==> IsMonth(months[i]))
      && (|Split(s, ' ')| == 3 <==> months != [])
      && s == MonthlyText(days, months)
  {
    var parts := Split(s, ' ');
    var days := MonthlyDayList(s);
    var months := MonthlyMonthList(s);
    CommaListParse(parts[1], dayToken);
    if |parts| == 3 {
      MonthListParse(parts[2]);
    }
    assert parts == MonthlyParts(days, months);
    JoinSplit(s, ' ');
  }

  /** A month list reads as months 1..12 that print back as the list. */
  lemma MonthListParse(t: string)
    requires CommaList(t, MonthToken)
    ensures var ms := ParseInts(Split(t, ','));
      |ms| >= 1 && (forall i :: 0 <= i < |ms| ==> IsMonth(ms[i])) && ListText(ms) == t
  {
    var parts := Split(t, ',');
    forall p | MonthToken(p) ensures Denotes(p, AtoiOrZero(p)) {
      MonthTokenValue(p);
    }
    forall i | 0 <= i < |parts| ensures IsMonth(AtoiOrZero(parts[i])) {
      MonthTokenValue(parts[i]);
    }
    CommaListParse(t, MonthToken);
  }

  lemma MonthlyPatternPrint(days: seq<int>, months: seq<int>, dayToken: string -> bool)
    requires |days| >= 1 && forall i :: 0 <= i < |days| ==> dayToken(FormatInt(days[i]))
    requires forall i :: 0 <= i < |months| ==> IsMonth(months[i])
    ensures MonthlyPattern(MonthlyText(days, months), dayToken)
    ensures MonthlyDayList(MonthlyText(days, months)) == days
    ensures MonthlyMonthList(MonthlyText(days, months)) == months
  {
    MonthlyTextSplit(days, months);
    CommaListPrint(days, dayToken);
    if months != [] {
      forall i | 0 <= i < |months| ensures MonthToken(FormatInt(months[i])) {
        AtoiFormatInt(months[i]);
        assert Denotes(FormatInt(months[i]), months[i]);
        MonthTokenMeaning(FormatInt(months[i]));
      }
      CommaListPrint(months, MonthToken);
    }
  }
}
