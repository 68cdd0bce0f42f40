/**
 * The date layout "20060102" (YYYYMMDD) of Go's time.Parse and
 * Time.Format, as the recurrence code reads and writes dates.
 */
module Layout {
  import opened Wrappers
  import opened Text
  import opened Calendar

  function Pow10(w: nat): (p: nat)
    ensures p >= 1
  {
    if w == 0 then 1 else 10 * Pow10(w - 1)
  }

  /** The last w decimal digits of n, zero-padded. */
  function FixedDigits(n: nat, w: nat): (s: string)
    ensures |s| == w && AllDigits(s)
  {
    if w == 0 then [] else FixedDigits(n / 10, w - 1) + [DigitChar(n % 10)]
  }

  /** Go's appendInt(b, x, width): the digits of |x|, zero-padded to width, after a '-' when x < 0. */
  function PadInt(x: int, width: nat): string {
    var u: nat := if x < 0 then -x else x;
    (if x < 0 then "-" else "") + (if u < Pow10(width) then FixedDigits(u, width) else Itoa(u))
  }

  /** Time.Format("20060102"). */
  function FormatDate(d: Date): string {
    PadInt(d.year, 4) + PadInt(d.month, 2) + PadInt(d.day, 2)
  }

  /**
   * time.Parse("20060102", s): exactly eight digits, a month in 1..12 and
   * a day that exists in that month of that year.
   */
  function ParseDate(s: string): (r: Option<Date>)
    ensures r.Some? ==> Valid(r.value) && 0 <= r.value.year <= 9999
  {
    if |s| == 8 && AllDigits(s) then
      var y, m, d := DigitsValue(s[..4]), DigitsValue(s[4..6]), DigitsValue(s[6..]);
      DigitsValueBound(s[..4]);
      if 1 <= m <= 12 && 1 <= d <= DaysIn(m, y) then Some(Date(y, m, d)) else None
    else None
  }

  lemma {:induction false} DigitsValueBound(s: string)
    requires AllDigits(s)
    ensures DigitsValue(s) < Pow10(|s|)
    decreases |s|
  {
    if |s| > 0 {
      DigitsValueBound(s[..|s| - 1]);
    }
  }

  lemma {:induction false} FixedDigitsValue(n: nat, w: nat)
    requires n < Pow10(w)
    ensures DigitsValue(FixedDigits(n, w)) == n
  {
    if w > 0 {
      FixedDigitsValue(n / 10, w - 1);
      DigitsValueSnoc(FixedDigits(n / 10, w - 1), DigitChar(n % 10));
    }
  }

  lemma {:induction false} FixedDigitsOfValue(s: string)
    requires AllDigits(s)
    ensures FixedDigits(DigitsValue(s), |s|) == s
    decreases |s|
  {
    if |s| > 0 {
      var p := s[..|s| - 1];
      FixedDigitsOfValue(p);
      var n := DigitsValue(s);
      assert n / 10 == DigitsValue(p) && n % 10 == DigitValue(s[|s| - 1]);
      assert s == p + [s[|s| - 1]];
    }
  }

  lemma Pow10Widths()
    ensures Pow10(2) == 100 && Pow10(4) == 10000
  {
  }

  /** A run of digits is the padded text of its own value at its own width. */
  lemma PadIntOfDigits(t: string)
    requires AllDigits(t)
    ensures PadInt(DigitsValue(t), |t|) == t
  {
    DigitsValueBound(t);
    FixedDigitsOfValue(t);
  }

  /** A value below 10^width is written as exactly width digits. */
  lemma PadIntFixed(n: nat, width: nat)
    requires n < Pow10(width)
    ensures PadInt(n, width) == FixedDigits(n, width)
    ensures DigitsValue(PadInt(n, width)) == n
  {
    FixedDigitsValue(n, width);
  }

  /** The three fields of an eight-character date text are where the layout puts them. */
  lemma SliceFields(a: string, b: string, c: string)
    requires |a| == 4 && |b| == 2 && |c| == 2
    ensures (a + b + c)[..4] == a && (a + b + c)[4..6] == b && (a + b + c)[6..] == c
    ensures |a + b + c| == 8
  {
  }

  /** Parsing what Format writes gives the date back, for the years a four-digit layout holds. */
  lemma ParseFormat(d: Date)
    requires Valid(d) && 0 <= d.year <= 9999
    ensures ParseDate(FormatDate(d)) == Some(d)
  {
    Pow10Widths();
    PadIntFixed(d.year, 4);
    PadIntFixed(d.month, 2);
    PadIntFixed(d.day, 2);
    var y, m, dd := PadInt(d.year, 4), PadInt(d.month, 2), PadInt(d.day, 2);
    SliceFields(y, m, dd);
    var s := y + m + dd;
    assert AllDigits(s) by {
      forall i | 0 <= i < 8 ensures IsDigit(s[i]) {
        if i < 4 { assert s[i] == y[i]; } else if i < 6 { assert s[i] == m[i - 4]; } else { assert s[i] == dd[i - 6]; }
      }
    }
    assert DigitsValue(s[..4]) == d.year && DigitsValue(s[4..6]) == d.month && DigitsValue(s[6..]) == d.day;
  }

  /** Formatting a parsed date writes the original text back. */
  lemma FormatParse(s: string)
    requires ParseDate(s).Some?
    ensures FormatDate(ParseDate(s).value) == s
  {
    var a, b, c := s[..4], s[4..6], s[6..];
    assert s == a + b + c;
    PadIntOfDigits(a);
    PadIntOfDigits(b);
    PadIntOfDigits(c);
  }
}
