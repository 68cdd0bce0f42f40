# Recurrence rules of task-tracker, in Dafny

task-tracker stores tasks with a date (`YYYYMMDD`) and an optional repeat
rule, and computes the next date of a repeating task. A rule is one of:

- `d n`: every n days, 1 ≤ n ≤ 400.
- `w a,b,…`: on the listed ISO weekdays, 1 = Monday … 7 = Sunday.
- `m days [months]`: on days of the month, with an optional list of months.
- `y`: every year.

The repository holds the evaluator of these rules several times over, as
rewrites that disagree with each other. This project models each rewrite as
written, one Dafny module per Go file:

| Go file | module |
|---|---|
| internal/service/nextdate.go | `ServiceNextDate` |
| internal/services/nextdate/dateiters/daily/daily.go | `DateitersDaily` |
| internal/services/nextdate/dateiters/weekly/weekly.go | `DateitersWeekly` |
| internal/services/nextdate/dateiters/yearly/yearly.go | `DateitersYearly` |
| internal/services/nextdate/dateiters/monthly/monthly.go | `DateitersMonthlyMap` |
| internal/services/nextdate/dateiters/monthly.go | `DateitersMonthly` |
| internal/services/nextdate/daily.go | `NextdateDaily` |
| internal/services/nextdate/iterators/daily.go | `IteratorsDaily` |
| internal/services/nextdate/iterators/weakly.go | `IteratorsWeakly` |
| internal/services/nextdate/iterators/yearly.go | `IteratorsYearly` |
| internal/services/nextdate/iterators/monthly.go | `IteratorsMonthly` |
| pkg/nextdate/dateiters/daily.go | `PkgDaily` |
| pkg/nextdate/dateiters/weekly.go | `PkgWeekly` |
| pkg/nextdate/dateiters/yearly.go | `PkgYearly` |
| internal/delivery/http/validation/validation.go | `HttpValidation` |

Shared modules:

- `Calendar` is the proleptic Gregorian calendar of Go's `time` package. It has dates, day numbers (day 0 is 0000-01-01), the normalisation `time.Date` applies to out-of-range months and days (2024-02-29 plus one year is 2025-03-01), and Go's and ISO weekday numbering.
- `Clock` holds instants, as a date plus nanoseconds since midnight, all in UTC. It defines `After`, `Before` and `AddDate`.
- `Layout` is the `20060102` date layout, with `ParseDate` and `FormatDate`.
- `Text` holds `strconv.Atoi`, `strconv.Itoa`, `strings.Split` and `strings.Join`.
- `Errors` holds the error values: `errors.New`, `fmt.Errorf` with `%w`, `errors.Join`, and the error `time.Parse` returns.
- `Grammars` holds one predicate per regular expression of the rules, with lemmas saying which numbers the tokens denote and that parsing and printing a rule are inverse.
- `Recurrence` holds the specification functions the loops are proved against:
  - `NextByDays`: the first t + k·step that now is not after.
  - `NextByYears`: the first yearly anniversary that now is not after.
  - `WeekdayNext`: the min-offset weekday search.

Each loop of the Go code (`for now.After(date) { date = date.AddDate(…) }`, the weekday search, slice and map filling) is a Dafny `method` with a `while` or `for` loop. Its `ensures` ties the result to one of those functions, and lemmas in `Recurrence` state what the functions mean. The Go structs `Daily`, `Weekly`, `Yearly` and `Monthly` are values (datatypes); their methods do not change them.

The two `Monthly.Next` methods are identity stubs in the Go code. They are modelled as identity functions.

## Model

| member | source | states |
|---|---|---|
| ServiceNextDate.IsRepeatValid | internal/service/nextdate.go:31-51 | an empty rule gives the "Repeat rule is empty" error first; a first letter outside d, y, w, m gives "Option is unknown"; any other rejection is "Gotten repeat rule is illegal" |
| ServiceNextDate.IsRepeatValidMeaning | internal/service/nextdate.go:24-51 | a rule is accepted exactly when it is in the `d n` grammar, is `y`, is a single `w k`, or is in the `m` grammar with day tokens -1, -2, 1..31 |
| ServiceNextDate.MonthlyPatternHead | internal/service/nextdate.go:28 | every rule the `m` grammar accepts starts with 'm', so the table lookup by first letter finds the `m` pattern |
| ServiceNextDate.ComputeDayRepeat | internal/service/nextdate.go:53-58 | the loop returns the YYYYMMDD text of the first date + k·dayRepeat that now is not after |
| ServiceNextDate.ComputeYearRepeat | internal/service/nextdate.go:60-65 | the loop returns the YYYYMMDD text of the first yearly anniversary that now is not after |
| ServiceNextDate.ParseDateError | internal/service/nextdate.go:73-76 | the parse error wraps `time.Parse`'s error for that text |
| ServiceNextDate.NextDate | internal/service/nextdate.go:67-89 | a rule error wins over a date error; a date that does not parse gives the wrapped parse error; `d n` gives the first date + k·n not before now, with 1 ≤ n ≤ 400; `y` gives the first anniversary not before now; `w` and `m` give "" and no error |
| ServiceNextDate.SevenDayExample | tests/nextdate_test.go:24 | at noon on 2024-01-26, the date 2024-01-13 with step 7 gives 2024-01-27 |
| ServiceNextDate.TwentyDayExample | tests/nextdate_test.go:25 | at noon on 2024-01-26, the date 2024-01-20 with step 20 gives 2024-02-09 |
| ServiceNextDate.TwelveDayExample | tests/nextdate_test.go:26 | at noon on 2024-01-26, the date 2023-12-25 with step 12 gives 2024-01-30 |
| ServiceNextDate.YearRepeatExamples | tests/nextdate_test.go:70-71 | at noon on 2024-01-26, the yearly date 1689-02-20 gives 2024-02-20 and 2024-01-01 gives 2025-01-01 |
| ServiceNextDate.FormatExample | tests/nextdate_test.go:26 | 2024-01-30 is written 20240130 |
| ServiceNextDate.RejectedRules | tests/nextdate_test.go:27-29 | "" is rejected as empty, "d" and "d 555" as illegal |
| DateitersDaily.Daily.Next | internal/services/nextdate/dateiters/daily/daily.go:32-37 | the loop returns the first startDate + k·DayStep that now is not after |
| DateitersDaily.New | internal/services/nextdate/dateiters/daily/daily.go:18-28 | a rule outside `^d (1..400)$` gives the zero Daily and the wrapped validation error; an accepted rule gives DayStep in 1..400 and the rule is "d " + DayStep |
| DateitersDaily.NewAcceptsEveryStep | internal/services/nextdate/dateiters/daily/daily.go:10 | every step 1..400 written as "d n" is accepted and read back as n |
| DateitersDaily.NowEqualsStartExample | internal/services/nextdate/dateiters/daily/daily_test.go:89 | a start equal to now is returned unchanged |
| DateitersDaily.SevenDayExample | internal/services/nextdate/dateiters/daily/daily_test.go:90 | `d 7` from 2024-02-01 with now 2024-02-02 gives 2024-02-08 |
| DateitersDaily.StartAfterNowExample | internal/services/nextdate/dateiters/daily/daily_test.go:91 | a start after now is returned unchanged |
| DateitersDaily.LargeStepExample | internal/services/nextdate/dateiters/daily/daily_test.go:92 | `d 28` from 2025-02-01 with now 2025-02-02 gives 2025-03-01 |
| DateitersWeekly.Weekly.Next | internal/services/nextdate/dateiters/weekly/weekly.go:41-68 | the catch-up loop and the min-offset loop return the weekday search applied to the first day on or after startDate that now is not after |
| DateitersWeekly.New | internal/services/nextdate/dateiters/weekly/weekly.go:22-36 | a rule outside `^w ([1-7](,[1-7])*)$` gives Weekly with no weekdays and the wrapped error; an accepted rule gives a non-empty list of weekdays 1..7, in the rule's order, that prints back to the rule |
| DateitersWeekly.SingleDayExample | internal/services/nextdate/dateiters/weekly/weekly_test.go:113 | `w 7` from 2024-01-26 with now 2024-01-27 gives 2024-01-28 |
| DateitersWeekly.ManyDaysExample | internal/services/nextdate/dateiters/weekly/weekly_test.go:114 | `w 1,2,3` from 2024-01-25 with now 2024-01-26 gives 2024-01-29 |
| DateitersWeekly.MonthAgoExample | internal/services/nextdate/dateiters/weekly/weekly_test.go:115 | `w 1,2` from 2025-01-25 with now 2025-02-05 gives 2025-02-10 |
| DateitersYearly.Yearly.Next | internal/services/nextdate/dateiters/yearly/yearly.go:29-34 | the loop returns the first yearly anniversary of startDate that now is not after |
| DateitersYearly.New | internal/services/nextdate/dateiters/yearly/yearly.go:18-25 | the result is always Yearly; there is no error exactly when the rule contains a 'y'; otherwise the error is the wrapped validation error |
| DateitersYearly.NewAcceptsAnyY | internal/services/nextdate/dateiters/yearly/yearly.go:10 | "every day" and "daily" are accepted as yearly rules |
| DateitersYearly.NextExamples | internal/services/nextdate/dateiters/yearly/yearly_test.go:74-77 | the four cases of the package's table, including the start 1024-02-01 giving 2025-02-01 |
| DateitersYearly.LeapDayExample | internal/services/nextdate/dateiters/yearly/yearly.go:31 | a start on 2024-02-29 with now 2024-03-01 gives 2025-03-01 |
| DateitersMonthlyMap.New | internal/services/nextdate/dateiters/monthly/monthly.go:19-47 | a rejected rule gives the zero Monthly and the wrapped error; an accepted rule gives its day tokens in order (each in -9..-1 or 1..31); no month set when there is no month list; otherwise the set of exactly the listed months, each mapped to true |
| DateitersMonthlyMap.ReadDays | internal/services/nextdate/dateiters/monthly/monthly.go:26-31 | the loop reads one integer per comma-separated field, in order |
| DateitersMonthlyMap.ReadMonths | internal/services/nextdate/dateiters/monthly/monthly.go:37-44 | the loop builds the map whose keys are exactly the listed months, each mapped to true |
| DateitersMonthlyMap.Monthly.Next | internal/services/nextdate/dateiters/monthly/monthly.go:49-52 | the stub returns startDate unchanged, whatever now is |
| DateitersMonthly.NewMonthly | internal/services/nextdate/dateiters/monthly.go:21-45 | a rejected rule gives the zero Monthly and the validation error joined with the monthly format error; an accepted rule gives its days (each in -9..-1 or 1..31) and its months (1..12, empty when absent), in order, which print back to the rule |
| DateitersMonthly.ReadInts | internal/services/nextdate/dateiters/monthly.go:29-42 | the loop reads one integer per field, in order |
| DateitersMonthly.Monthly.Next | internal/services/nextdate/dateiters/monthly.go:48-51 | the stub returns date unchanged, whatever now is |
| NextdateDaily.Daily.Next | internal/services/nextdate/daily.go:23-28 | the loop returns the first startDate + k·DayStep that now is not after |
| NextdateDaily.NewDaily | internal/services/nextdate/daily.go:14-21 | a rejected rule gives Daily(0) and the unwrapped validation error; an accepted rule gives DayStep 1..400 and the rule is "d " + DayStep |
| NextdateDaily.NewDailyAcceptsEveryStep | internal/services/nextdate/daily.go:8 | every "d n" with 1 ≤ n ≤ 400 gives Daily(n) and no error |
| IteratorsDaily.Daily.NextDate | internal/services/nextdate/iterators/daily.go:35-48 | an unparseable start gives "" and the joined start-date error; otherwise the YYYYMMDD text of the first start + k·DayStep the clock is not after |
| IteratorsDaily.NewDaily | internal/services/nextdate/iterators/daily.go:19-32 | a rejected rule gives Daily(0) with the error; an accepted rule gives the step after the space, in 1..400 |
| IteratorsDaily.NewDailyAcceptsEveryStep | internal/services/nextdate/iterators/daily.go:13 | every "d n" with 1 ≤ n ≤ 400 gives Daily(n) and no error |
| IteratorsWeakly.Convert | internal/services/nextdate/iterators/weakly.go:35-41 | Sunday (0) becomes 7, other weekdays are kept |
| IteratorsWeakly.ConvertIsIso | internal/services/nextdate/iterators/weakly.go:35-41 | Convert of Go's weekday of a day is that day's ISO weekday |
| IteratorsWeakly.NewWeakly | internal/services/nextdate/iterators/weakly.go:19-32 | a rule not starting "w k&" gives Weakly(0) and the error; an accepted rule gives Weakly(0) and no error, because "k&" does not parse as a number |
| IteratorsWeakly.AmpersandSecondPiece | internal/services/nextdate/iterators/weakly.go:26-29 | for an accepted rule the second space-separated piece reads as 0 |
| IteratorsWeakly.Weakly.NextDate | internal/services/nextdate/iterators/weakly.go:44-60 | an unparseable start gives "" and the start-date error; otherwise the start is caught up one day at a time to the first day the clock is not after, then moved by the truncated remainder of target − weekday |
| IteratorsWeakly.NewWeaklyMissesItsRule | internal/services/nextdate/iterators/weakly.go:13 | "w 3" is rejected and "w 3&" is accepted with TargetWeekday 0 |
| IteratorsWeakly.NewSingleWeekday | internal/services/nextdate/iterators/weakly.go:19-32 | with `^w [1-7]$`: a rejected rule gives Weakly(0) and the error; an accepted rule gives a weekday 1..7 and is "w " + that weekday |
| IteratorsWeakly.NewSingleWeekdayAcceptsEveryDay | internal/services/nextdate/iterators/weakly.go:13 | with `^w [1-7]$` every "w k", 1 ≤ k ≤ 7, gives Weakly(k) |
| IteratorsWeakly.TruncatedShiftBeforeNow | internal/services/nextdate/iterators/weakly.go:56-57 | when the caught-up day's weekday is past the target, the negative offset moves the result back before now |
| IteratorsWeakly.ShiftBackBeforeNow | internal/services/nextdate/iterators/weakly.go:56-57 | a backward move from a day whose previous day is before now lands before now |
| IteratorsWeakly.ForwardShiftLands | internal/services/nextdate/iterators/weakly.go:56-57 | moving forward by the non-negative offset keeps now not after the result, lands on the target weekday within the week, and passes no earlier day of that weekday |
| IteratorsYearly.Yearly.NextDate | internal/services/nextdate/iterators/yearly.go:21-34 | an unparseable start gives "" and the start-date error; otherwise the YYYYMMDD text of the first yearly anniversary the clock is not after |
| IteratorsYearly.NewYearly | internal/services/nextdate/iterators/yearly.go:15-18 | the result is always Yearly; there is no error exactly when the rule is "y" |
| IteratorsMonthly.Convert | internal/services/nextdate/iterators/monthly.go:20-27 | one integer per comma-separated field, same count and order |
| IteratorsMonthly.ConvertListText | internal/services/nextdate/iterators/monthly.go:20-27 | converting the comma-joined text of a list gives the list back |
| IteratorsMonthly.AcceptedRule | internal/services/nextdate/iterators/monthly.go:12 | an accepted rule has at least one day, each in -2, -1, 1..31, months in 1..12, a month list exactly when there is a third piece, and prints back to itself |
| IteratorsMonthly.NewMonthly | internal/services/nextdate/iterators/monthly.go:29-46 | a rejected rule gives the zero Monthly and the error; an accepted rule gives TargetDays from the second piece and TargetMonths only when a third piece exists |
| PkgDaily.Daily.Next | pkg/nextdate/dateiters/daily.go:57-62 | the loop returns the first date + k·DayStep that now is not after |
| PkgDaily.NewDaily | pkg/nextdate/dateiters/daily.go:38-45 | a rejected rule gives Daily(0) and the joined "invalid time step format" and daily format errors; an accepted rule gives DayStep 1..400 and is "d " + DayStep |
| PkgDaily.NewDailyAcceptsEveryStep | pkg/nextdate/dateiters/daily.go:13 | every "d n" with 1 ≤ n ≤ 400 gives Daily(n) and no error |
| PkgWeekly.Weekly.Next | pkg/nextdate/dateiters/weekly.go:60-82 | the min-offset loop with its early return computes the weekday search from date itself, without catching up to now |
| PkgWeekly.NewWeekly | pkg/nextdate/dateiters/weekly.go:38-49 | a rejected rule gives Weekly with no weekdays and the joined error; an accepted rule gives the listed weekdays 1..7 in order |
| PkgWeekly.NextStaysBeforeNow | pkg/nextdate/dateiters/weekly.go:59-82 | with a date more than a week before now, Next returns a date now is after, whatever the weekdays |
| PkgYearly.Yearly.Next | pkg/nextdate/dateiters/yearly.go:23-28 | the loop returns the first yearly anniversary that now is not after |
| PkgYearly.NewYearly | pkg/nextdate/dateiters/yearly.go:16-21 | the result is always Yearly; no error exactly when the rule contains a 'y'; otherwise the joined error |
| PkgYearly.NewYearlyAcceptsAnyY | pkg/nextdate/dateiters/yearly.go:10 | "every day" and "daily" are accepted as yearly rules |
| HttpValidation.IsDateValidMeaning | internal/delivery/http/validation/validation.go:14-18 | a date is valid exactly when it is the YYYYMMDD text of a calendar date in years 0..9999 |
| HttpValidation.IsTitleValid | internal/delivery/http/validation/validation.go:21-24 | a title is valid exactly when it is not empty |
| HttpValidation.DailyRuleMeaning | internal/delivery/http/validation/validation.go:27 | the daily pattern accepts exactly "d " + n for 1 ≤ n ≤ 400 |
| HttpValidation.WeeklyRuleMeaning | internal/delivery/http/validation/validation.go:28 | the weekly pattern accepts exactly "w " + a non-empty comma list of weekdays 1..7 |
| HttpValidation.MonthlyRuleMeaning | internal/delivery/http/validation/validation.go:29 | the monthly pattern accepts exactly "m " + a non-empty day list in -9..-1, 1..31 and an optional month list in 1..12 |
| HttpValidation.IsRepeatValidMeaning | internal/delivery/http/validation/validation.go:34-44 | a repeat is valid exactly when it is empty, "y", or a daily, weekly or monthly rule in the senses above |
| HttpValidation.DailyLookalikeRejected | internal/delivery/http/validation/validation.go:39-43 | text starting "d " whose rest is not a step 1..400 is rejected |
| HttpValidation.RejectedDailyRules | internal/delivery/http/tasks/register/register_test.go:70 | "d 500", "d 1000" and "d 7,5,6,131231" are rejected |
| HttpValidation.MonthlyAcceptsMinusNine | internal/delivery/http/validation/validation.go:29 | "m -9" is accepted and reads as day -9, outside the documented -1, -2, 1..31 |
| HttpValidation.Messages | internal/delivery/http/validation/validation.go:49-61 | one message per failed check, in the checks' order |
| HttpValidation.ValidationErrorMsg | internal/delivery/http/validation/validation.go:46-65 | the loop returns the messages joined with ", " |
| HttpValidation.MessageNamesField | internal/delivery/http/validation/validation.go:52-60 | every message starts "field " followed by the field's name and goes on after it |
| HttpValidation.TwoRequiredFields | internal/delivery/http/tasks/register/register_test.go:58 | missing Date and Title read "field Date is required, field Title is required" |
| Errors.StartDateError | internal/services/nextdate/nextdate.go:31-37 | the start-date error joins "can not parse start date" with `time.Parse`'s error |
| Text.Itoa | internal/services/nextdate/dateiters/weekly/weekly.go:32 | decimal text has at least one digit and no leading zero |
| Text.DigitsValueItoa | internal/services/nextdate/dateiters/weekly/weekly.go:32 | reading the decimal text of n gives n |
| Text.ItoaDigitsValue | internal/services/nextdate/dateiters/weekly/weekly.go:32 | a digit string without a leading zero is the decimal text of its value |
| Text.AtoiFormatInt | internal/services/nextdate/dateiters/weekly/weekly.go:32 | `strconv.Atoi` of the decimal text of any integer gives it back |
| Text.FormatIntAtoi | internal/services/nextdate/dateiters/weekly/weekly.go:32 | a digit string without a leading zero reads as its value, and that value prints back to it |
| Text.Split | internal/services/nextdate/dateiters/weekly/weekly.go:29 | `strings.Split` gives at least one piece and no piece holds the separator |
| Text.JoinSplit | internal/services/nextdate/dateiters/weekly/weekly.go:29 | joining the pieces of a split with the separator gives the text back |
| Text.SplitJoin | internal/services/nextdate/dateiters/weekly/weekly.go:29 | splitting a join of separator-free pieces gives the pieces back |
| Text.SplitNoSeparator | internal/services/nextdate/iterators/monthly.go:21 | text without the separator splits into itself alone |
| Text.SplitAtSeparator | internal/services/nextdate/iterators/monthly.go:21 | a split at the first separator peels off the first piece |
| Text.SplitHead | internal/services/nextdate/iterators/monthly.go:21 | the first piece starts with the text's first character |
| Text.ParseInts | internal/services/nextdate/dateiters/monthly.go:29-33 | one integer per field, each read with `strconv.Atoi`, 0 when it does not parse |
| Text.FormatInts | internal/services/nextdate/dateiters/monthly.go:29-33 | the decimal texts of a list, one per element |
| Calendar.DaysIn | internal/services/nextdate/dateiters/yearly/yearly.go:31 | months have 28 to 31 days and 29 exactly in February of a leap year |
| Calendar.DayNumberOrder | internal/service/nextdate.go:54 | day numbers order dates as the calendar does |
| Calendar.DayNumberInjective | internal/service/nextdate.go:54 | different dates have different day numbers |
| Calendar.Normalize | internal/service/nextdate.go:55 | normalising an out-of-range year, month and day gives a valid date |
| Calendar.NormalizeDayNumber | internal/service/nextdate.go:55 | a normalised date is the day that many days after the first of the month, counting across months and years |
| Calendar.IsoWeekdayShift | internal/services/nextdate/dateiters/weekly/weekly.go:54 | the ISO weekday advances by k modulo 7 over k days |
| Calendar.IsoWeekdayWeek | internal/services/nextdate/dateiters/weekly/weekly.go:54 | the ISO weekday repeats every 7 days |
| Calendar.GoWeekdayToIso | internal/services/nextdate/dateiters/weekly/weekly.go:47-50 | Go's weekday with Sunday 0 turned into 7 is the ISO weekday |
| Clock.Midnight | internal/service/nextdate.go:73 | a parsed date is the instant at midnight of that date |
| Clock.AfterByDay | internal/service/nextdate.go:54 | `now.After(date)` holds when now's day is later, or the same day at a later time |
| Clock.AddDateDays | internal/service/nextdate.go:55 | adding n days moves the day number by n and keeps the time of day |
| Clock.AddDateDaysTwice | internal/service/nextdate.go:55 | adding a days and then b days is adding a + b days |
| Clock.AddDateNoDays | internal/service/nextdate.go:55 | adding zero days changes nothing |
| Clock.OneYearLater | internal/service/nextdate.go:62 | one year on keeps the month and day, except that February 29 becomes March 1 |
| Clock.AddDateYear | internal/service/nextdate.go:62 | `AddDate(1, 0, 0)` is one year later at the same time of day |
| Layout.ParseDate | internal/service/nextdate.go:73 | a parsed date is valid with a year in 0..9999 |
| Layout.ParseFormat | internal/service/nextdate.go:73 | parsing the YYYYMMDD text of a date in years 0..9999 gives the date back |
| Layout.FormatParse | internal/service/nextdate.go:73 | text that parses is the YYYYMMDD text of the date it parses to |
| Grammars.DayStepTokenMeaning | internal/service/nextdate.go:25 | the step token is exactly the decimal text of some n in 1..400 |
| Grammars.DayStepTokenOf | internal/service/nextdate.go:25 | the decimal text of every n in 1..400 is a step token |
| Grammars.WeekdayTokenMeaning | internal/services/nextdate/dateiters/weekly/weekly.go:12 | the weekday token is exactly the text of some 1..7 |
| Grammars.MonthTokenMeaning | internal/services/nextdate/iterators/monthly.go:12 | the month token is exactly the text of some 1..12 |
| Grammars.MonthDayTokenMeaning | internal/services/nextdate/iterators/monthly.go:12 | the day token of the anchored monthly rule is exactly the text of -2, -1 or 1..31 |
| Grammars.SignedMonthDayTokenMeaning | internal/services/nextdate/dateiters/monthly/monthly.go:12 | the day token of the unanchored-sign monthly rule, `-?[1-9]` among its choices, is exactly the text of -9..-1 or 1..31 |
| Grammars.DayStepTokenValue | internal/service/nextdate.go:81 | an accepted step token reads as a step 1..400 |
| Grammars.WeekdayTokenValue | internal/services/nextdate/dateiters/weekly/weekly.go:32 | an accepted weekday token reads as 1..7 |
| Grammars.MonthTokenValue | internal/services/nextdate/dateiters/monthly.go:41 | an accepted month token reads as 1..12 |
| Grammars.MonthDayTokenValue | internal/services/nextdate/iterators/monthly.go:24 | an accepted day token reads as -2, -1 or 1..31 |
| Grammars.SignedMonthDayTokenValue | internal/services/nextdate/dateiters/monthly.go:32 | an accepted signed day token reads as -9..-1 or 1..31 |
| Grammars.CommaListParse | internal/services/nextdate/dateiters/weekly/weekly.go:29-33 | a comma list of tokens reads as the values they denote and prints back to itself |
| Grammars.CommaListPrint | internal/services/nextdate/dateiters/weekly/weekly.go:29-33 | a non-empty list of values with accepted texts prints to a comma list that reads back as the list |
| Grammars.DailyPatternParse | internal/services/nextdate/dateiters/daily/daily.go:25 | an accepted daily rule reads as a step 1..400 and is "d " + that step |
| Grammars.DailyPatternSplit | internal/services/nextdate/iterators/daily.go:27-28 | an accepted daily rule splits at the space into "d" and the step text |
| Grammars.DailyPatternPrint | internal/services/nextdate/dateiters/daily/daily.go:10 | "d " + n is accepted for every n in 1..400 and reads back as n |
| Grammars.WeeklyPatternParse | internal/services/nextdate/dateiters/weekly/weekly.go:29-33 | an accepted weekly rule reads as a non-empty list of weekdays 1..7 that prints back to the rule |
| Grammars.WeeklyPatternPrint | internal/services/nextdate/dateiters/weekly/weekly.go:12 | every non-empty list of weekdays prints to an accepted rule that reads back as the list |
| Grammars.MonthlyTextSplit | internal/services/nextdate/dateiters/monthly.go:27 | the text of a monthly rule splits at spaces into "m", the days and the optional months |
| Grammars.MonthlyPatternParse | internal/services/nextdate/dateiters/monthly.go:27-42 | an accepted monthly rule reads as its days and months, has three pieces exactly when it has months, and prints back to itself |
| Grammars.MonthListParse | internal/services/nextdate/dateiters/monthly/monthly.go:37-44 | an accepted month list reads as months 1..12 |
| Grammars.MonthlyPatternPrint | internal/services/nextdate/dateiters/monthly.go:12 | a non-empty day list and a month list print to an accepted rule that reads back as those lists |
| Recurrence.AfterShift | internal/service/nextdate.go:54-55 | now is after t + n days exactly when n is below the gap from t to now |
| Recurrence.StepsNeededLeast | internal/service/nextdate.go:54-55 | now is after t + j·step exactly when j is below the number of steps the loop takes |
| Recurrence.StepsNeededPositive | internal/service/nextdate.go:54 | the loop takes a step exactly when now is after the start |
| Recurrence.NextByDaysLeast | internal/service/nextdate.go:53-58 | the day result is t + k·step, now is not after it, now is after every earlier t + j·step, and k is 0 exactly when now is not after t |
| Recurrence.NextByDaysMinimal | internal/services/nextdate/dateiters/daily/daily.go:33-35 | after at least one step, the result lies after the start at the same time of day and one step back is before now |
| Recurrence.NextByDaysUnmoved | internal/services/nextdate/dateiters/daily/daily.go:33 | a start now is not after is returned unchanged |
| Recurrence.DayStepTurn | internal/services/nextdate/dateiters/daily/daily.go:33-35 | one step of the loop keeps the final result and shrinks the gap to now |
| Recurrence.ShiftYears | internal/services/nextdate/dateiters/yearly/yearly.go:31 | k anniversaries later is k years later |
| Recurrence.LeapYearsApart | internal/services/nextdate/dateiters/yearly/yearly.go:31 | the year after a leap year is not a leap year, so a February 29 start moved to March 1 stays there |
| Recurrence.ShiftYearsStep | internal/services/nextdate/dateiters/yearly/yearly.go:31 | k anniversaries later is one year after k − 1 anniversaries later |
| Recurrence.YearsLaterStep | internal/services/nextdate/dateiters/yearly/yearly.go:31 | `AddDate(1, 0, 0)` of the k-th anniversary is the (k + 1)-th |
| Recurrence.YearsNeededLeast | internal/services/nextdate/dateiters/yearly/yearly.go:30-32 | now is after the j-th anniversary exactly when j is below the number of years the loop adds |
| Recurrence.NextByYearsLeast | internal/services/nextdate/dateiters/yearly/yearly.go:30-32 | the year result is the k-th anniversary, now is not after it, now is after every earlier one, and k is 0 exactly when now is not after the start |
| Recurrence.YearsLaterOfNext | internal/services/nextdate/dateiters/yearly/yearly.go:31 | the j-th anniversary of the next year is the (j + 1)-th of the start |
| Recurrence.YearStepTurn | internal/services/nextdate/dateiters/yearly/yearly.go:30-32 | one turn of the year loop keeps the final result and needs one year fewer |
| Recurrence.NextByYearsUnmoved | internal/services/nextdate/dateiters/yearly/yearly.go:30 | a start now is not after is returned unchanged |
| Recurrence.MinOffsetLeast | pkg/nextdate/dateiters/weekly.go:66-79 | the minimum is at most 7, at most every non-zero offset, and is 7 or one of them |
| Recurrence.MinOffsetSnoc | pkg/nextdate/dateiters/weekly.go:76-78 | one more weekday lowers the minimum to its offset when that is non-zero and smaller |
| Recurrence.HasZeroOffsetSnoc | pkg/nextdate/dateiters/weekly.go:71 | one more weekday adds a zero offset exactly when its own offset is zero |
| Recurrence.OffsetLands | pkg/nextdate/dateiters/weekly.go:68 | `(w − start + 7) % 7` days later is weekday w, and the offset is 0 exactly when the start is weekday w |
| Recurrence.OffsetOfShift | pkg/nextdate/dateiters/weekly.go:68 | the offset from a day to the day k < 7 later is k |
| Recurrence.HasZeroOffsetListed | pkg/nextdate/dateiters/weekly.go:71 | an offset is zero exactly when the start's weekday is listed |
| Recurrence.MinOffsetLands | pkg/nextdate/dateiters/weekly.go:81 | for a non-empty list the minimum offset is 1..7 and lands on a listed weekday |
| Recurrence.MinOffsetSkipsNone | pkg/nextdate/dateiters/weekly.go:66-81 | no listed weekday falls strictly between the start and the minimum offset |
| Recurrence.WeekdayNextMeaning | pkg/nextdate/dateiters/weekly.go:60-82 | the result is the date itself exactly when its weekday is listed and now is before it; otherwise the first later day of a listed weekday, at most 7 days on; always the same time of day and a listed weekday |
| Recurrence.WeekdayNextIgnoresNow | pkg/nextdate/dateiters/weekly.go:60-82 | two clocks that agree on whether now is before the date give the same result |
| Recurrence.WeekdayNextAfterNow | internal/services/nextdate/dateiters/weekly/weekly.go:52-67 | from a date now is not after, the search result lies after now |
| Recurrence.CaughtUpWeekdayNextAfterNow | internal/services/nextdate/dateiters/weekly/weekly.go:41-68 | after the catch-up, the result lies after now, is a listed weekday, and is not before the start |
| Recurrence.GoRem7Meaning | internal/services/nextdate/iterators/weakly.go:56 | Go's `% 7` differs from its operand by a multiple of 7, lies in -6..6 and takes the operand's sign |

## Left out

- The compile-error branch of `isRepeatValid` (internal/service/nextdate.go:42-45): the four patterns are constants that compile.
- The regular-expression engine and the generic `Validate` helpers: each concrete pattern is a hand-written predicate in `Grammars`.
- `time.Now()` in the iterators package: the clock is a parameter `now` of every NextDate.
- Time zones and locations: every instant is in UTC.
- The text of `time.Parse`'s error (`*time.ParseError`): it is a value that carries the input only.
- `fmt.Sscanf(timeStep, "d %d", …)` is modelled as `strconv.Atoi` of the text after "d ". They agree on every rule the daily pattern accepts.
- nil and empty slices are both the empty sequence; a nil map is `None`.
- `lib.DateFormat` is not part of this model; it is taken to be the `20060102` layout the rest of the code uses.
- The first byte of the repeat rule is taken as a character; multi-byte text is not modelled.
- internal/services/nextdate/dateiters/dateiter.go, the storage layer, the HTTP handlers, middleware, the tasks service, configuration and the command mains: they are I/O and plumbing, and dateiter.go does not compile.
- validator's `FieldLevel` and `ValidationErrors` plumbing: a failed check is a `FieldError(tag, field)` value.
- A monthly next-date algorithm: both `Monthly.Next` methods are identity stubs in the Go code, so the model has none either.
- Error texts: the dateiters packages return `"repeat rule is not valid"` wrapped with their format hint, while some of their tests expect `"invalid time step format"`. The model follows the code.
- Integer widths: Go's `int` is 64 bits, but every value here (steps up to 400, weekdays, years up to 9999 and their day numbers) stays far inside that range.
- ServiceNextDate.ComputeDayRepeat: requires a positive step or a date now is not after, because with a step ≤ 0 the Go loop never ends; NextDate only calls it with steps 1..400.
- DateitersDaily.Daily.Next: requires a positive DayStep or a start now is not after, because with a DayStep ≤ 0 the Go loop never ends; every successful New gives 1..400.
- NextdateDaily.Daily.Next: requires a positive DayStep or a start now is not after, because with a DayStep ≤ 0 the Go loop never ends.
- IteratorsDaily.Daily.NextDate: requires a positive DayStep or a start the clock is not after, because with a DayStep ≤ 0 the Go loop never ends.
- PkgDaily.Daily.Next: requires a positive DayStep or a date now is not after, because with a DayStep ≤ 0 the Go loop never ends.

## Findings

| source | as written | input that shows it | evidently intended | confidence | as-written member | corrected member |
|---|---|---|---|---|---|---|
| internal/services/nextdate/iterators/weakly.go:13 | `^w [1-7]&` demands a literal '&' after the weekday and, with it, "k&" does not parse, so TargetWeekday is 0 | "w 3" is rejected; "w 3&" is accepted with TargetWeekday 0 | `^w [1-7]$`, reading the digit as the weekday | high, not executed | IteratorsWeakly.NewWeaklyMissesItsRule | IteratorsWeakly.NewSingleWeekdayAcceptsEveryDay |
| internal/services/nextdate/iterators/weakly.go:56-57 | `(target − weekday) % 7` is Go's truncated remainder, negative when the weekday is past the target, so the date moves back | TargetWeekday 1, start 20240101, clock 2024-01-24 12:00: the catch-up reaches Thursday 20240125, the offset is -3, and the result 20240122 is before the clock | the non-negative offset `(target − weekday + 7) % 7`, landing on the target weekday within the coming week | high, not executed | IteratorsWeakly.TruncatedShiftBeforeNow | IteratorsWeakly.ForwardShiftLands |
| internal/services/nextdate/dateiters/yearly/yearly.go:10 | the pattern `y` has no anchors, so any text containing 'y' passes, against the comment that the rule must be exactly "y" | "every day" is accepted as a yearly rule | `^y$` | high, not executed | DateitersYearly.NewAcceptsAnyY | IteratorsYearly.NewYearly |
| pkg/nextdate/dateiters/yearly.go:10 | the same unanchored `y` | "daily" is accepted as a yearly rule | `^y$` | high, not executed | PkgYearly.NewYearlyAcceptsAnyY | IteratorsYearly.NewYearly |
| internal/delivery/http/validation/validation.go:29 | the day token `-?[1-9]` admits -3 … -9, although the format hint names only -1 and -2; the same token is at internal/services/nextdate/dateiters/monthly.go:12 and internal/services/nextdate/dateiters/monthly/monthly.go:12, so DateitersMonthly.NewMonthly and DateitersMonthlyMap.New also yield days -9..-1 | "m -9" is accepted, with day -9 | day tokens -1, -2 and 1..31 only, as the monthly rule of internal/service/nextdate.go:28 has | medium, not executed | HttpValidation.MonthlyAcceptsMinusNine | Grammars.MonthDayTokenMeaning |
| pkg/nextdate/dateiters/weekly.go:60-82 | Next searches from the date itself and never catches up to now, against its comment that the result is not before the current date | Weekdays [1], date 20240101, now 20240201: the result is 20240108 | catch up to now first, as internal/services/nextdate/dateiters/weekly/weekly.go:43-45 does | high, not executed | PkgWeekly.NextStaysBeforeNow | Recurrence.CaughtUpWeekdayNextAfterNow |
