/**
 * Go error values as the recurrence code builds them: sentinels made by
 * errors.New, the *time.ParseError that time.Parse returns, wrapping with
 * fmt.Errorf and "%w", and errors.Join of two errors.
 */
module Errors {

  datatype Error =
    | New(text: string)
    | TimeParse(value: string)
    | Wrapf(prefix: string, inner: Error, suffix: string)
    | Joined(first: Error, second: Error)

  /** An error whose text is known: it holds no *time.ParseError, whose wording the model does not fix. */
  predicate Printable(e: Error) {
    match e
    case New(_) => true
    case TimeParse(_) => false
    case Wrapf(_, inner, _) => Printable(inner)
    case Joined(a, b) => Printable(a) && Printable(b)
  }

  /** err.Error(): a join puts a newline between the two texts. */
  function Text(e: Error): string
    requires Printable(e)
  {
    match e
    case New(t) => t
    case Wrapf(p, inner, s) => p + Text(inner) + s
    case Joined(a, b) => Text(a) + "\n" + Text(b)
  }

  /** errors.Is: the error is the target or wraps it. */
  predicate Is(e: Error, target: Error) {
    e == target ||
    match e
    case Wrapf(_, inner, _) => Is(inner, target)
    case Joined(a, b) => Is(a, target) || Is(b, target)
    case _ => false
  }

  // internal/services/nextdate/nextdate.go
  const RepeatRuleIsNotValid := New("repeat rule is not valid")
  const StartDateCanNotBeParsed := New("can not parse start date")

  // pkg/nextdate/nextdate.go
  const InvalidTimeStepFormat := New("invalid time step format")

  /** StringToTime in internal/services/nextdate/nextdate.go: the sentinel joined with time.Parse's error. */
  function StartDateError(value: string): (e: Error)
    ensures Is(e, StartDateCanNotBeParsed) && !Printable(e)
  {
    Joined(StartDateCanNotBeParsed, TimeParse(value))
  }
}
