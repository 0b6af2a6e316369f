/**
 * `datetime.datetime.strptime(text, "%Y%m%d").date()`. CPython turns the
 * format into the regular expression
 *   `(?P<Y>\d\d\d\d)(?P<m>1[0-2]|0[1-9]|[1-9])(?P<d>3[01]|[12]\d|0[1-9]|[1-9]| [1-9])`,
 * takes its first match at the start of the text (alternatives tried left to
 * right, with backtracking), raises if the match does not reach the end of the
 * text ("unconverted data remains"), and then raises again if the numbers do not
 * name a calendar day. Both kinds of failure are `None` here.
 */
module DateText {
  import opened Wrappers
  import opened Ascii
  import opened Calendar

  predicate AllDigits(s: string)
  {
    forall i :: 0 <= i < |s| ==> IsDigit(s[i])
  }

  /** The decimal value of a run of digits. */
  function DecimalValue(s: string): nat
    requires AllDigits(s)
  {
    if s == [] then 0 else DecimalValue(s[..|s| - 1]) * 10 + DigitValue(s[|s| - 1])
  }

  /** One way a directive can match: the number it reads and how many characters it takes. */
  datatype Field = Field(value: int, width: nat)

  /** The ways `%m` can match at the start of `r`, in the order the regular expression tries them. */
  function MonthFields(r: string): (fs: seq<Field>)
    ensures forall i :: 0 <= i < |fs| ==> 1 <= fs[i].width <= |r| && fs[i].width <= 2 && 1 <= fs[i].value <= 12
    ensures forall i :: 1 <= i < |fs| ==> fs[i].width == 1
  {
    (if |r| >= 2 && r[0] == '1' && '0' <= r[1] <= '2' then [Field(10 + DigitValue(r[1]), 2)] else [])
    + (if |r| >= 2 && r[0] == '0' && '1' <= r[1] <= '9' then [Field(DigitValue(r[1]), 2)] else [])
    + (if |r| >= 1 && '1' <= r[0] <= '9' then [Field(DigitValue(r[0]), 1)] else [])
  }

  /** The ways `%d` can match at the start of `r`, in the order the regular expression tries them. */
  function DayFields(r: string): (fs: seq<Field>)
    ensures forall i :: 0 <= i < |fs| ==> 1 <= fs[i].width <= |r| && fs[i].width <= 2 && 1 <= fs[i].value <= 31
  {
    (if |r| >= 2 && r[0] == '3' && '0' <= r[1] <= '1' then [Field(30 + DigitValue(r[1]), 2)] else [])
    + (if |r| >= 2 && '1' <= r[0] <= '2' && IsDigit(r[1]) then [Field(10 * DigitValue(r[0]) + DigitValue(r[1]), 2)] else [])
    + (if |r| >= 2 && r[0] == '0' && '1' <= r[1] <= '9' then [Field(DigitValue(r[1]), 2)] else [])
    + (if |r| >= 1 && '1' <= r[0] <= '9' then [Field(DigitValue(r[0]), 1)] else [])
    + (if |r| >= 2 && r[0] == ' ' && '1' <= r[1] <= '9' then [Field(DigitValue(r[1]), 2)] else [])
  }

  /** The month and day read by the first match of `%m%d` at the start of `r`, and its length. */
  datatype MonthDay = MonthDay(month: int, day: int, width: nat)

  function FirstMonthDay(months: seq<Field>, r: string): (md: Option<MonthDay>)
    requires forall i :: 0 <= i < |months| ==> months[i].width <= |r|
    ensures md.Some? ==> md.value.width <= |r|
  {
    if months == [] then None
    else
      var days := DayFields(r[months[0].width..]);
      if days != [] then Some(MonthDay(months[0].value, days[0].value, months[0].width + days[0].width))
      else FirstMonthDay(months[1..], r)
  }

  /** `strptime(text, "%Y%m%d").date()`, or `None` where it raises `ValueError`. */
  function ParseYmd(text: string): (r: Option<Date>)
    ensures r.Some? ==> IsCalendarDay(r.value) && r.value.year <= 9999
  {
    if |text| < 4 || !AllDigits(text[..4]) then None
    else
      var rest := text[4..];
      match FirstMonthDay(MonthFields(rest), rest)
      case None => None
      case Some(md) =>
        if md.width != |rest| then None
        else
          var year := DecimalValue(text[..4]);
          assert year <= 9999 by { DecimalValueBound(text[..4]); }
          var date := Date(year, md.month, md.day);
          if IsCalendarDay(date) then Some(date) else None
  }

  lemma {:induction false} DecimalValueBound(s: string)
    requires AllDigits(s)
    ensures DecimalValue(s) < Pow10(|s|)
  {
    if s != [] {
      DecimalValueBound(s[..|s| - 1]);
    }
  }

  function Pow10(n: nat): nat
  {
    if n == 0 then 1 else 10 * Pow10(n - 1)
  }

  lemma TwoDigits(t: string)
    requires |t| == 2 && AllDigits(t)
    ensures DecimalValue(t) == 10 * DigitValue(t[0]) + DigitValue(t[1])
  {
    assert t[..1] == [t[0]];
    assert t[..1][..0] == [];
    assert DecimalValue(t[..1]) == DigitValue(t[0]);
  }

  /** The straightforward reading of eight digits as four for the year, two for the month and two for the day. */
  function SplitYmd(s: string): Date
    requires |s| == 8 && AllDigits(s)
  {
    Date(DecimalValue(s[..4]), DecimalValue(s[4..6]), DecimalValue(s[6..]))
  }

  /**
   * On eight ASCII digits (the dates the scripts expect, and the only kind the
   * fallback from a compose ID produces) `strptime` reads exactly the
   * four-two-two split, and accepts it exactly when it names a calendar day.
   */
  lemma EightDigitDates(s: string)
    requires |s| == 8 && AllDigits(s)
    ensures ParseYmd(s) == if IsCalendarDay(SplitYmd(s)) then Some(SplitYmd(s)) else None
  {
    var d := SplitYmd(s);
    TwoDigits(s[4..6]);
    TwoDigits(s[6..]);
    if 1 <= d.month <= 12 && 1 <= d.day <= 31 {
      WideMatch(s);
    } else {
      NarrowMatch(s);
      assert !IsCalendarDay(d);
    }
  }

  /** Two-digit month and day in range: `%m%d` takes all four characters. */
  lemma WideMatch(s: string)
    requires |s| == 8 && AllDigits(s)
    requires 1 <= DecimalValue(s[4..6]) <= 12 && 1 <= DecimalValue(s[6..]) <= 31
    ensures FirstMonthDay(MonthFields(s[4..]), s[4..]) == Some(MonthDay(DecimalValue(s[4..6]), DecimalValue(s[6..]), 4))
  {
    var rest := s[4..];
    TwoDigits(s[4..6]);
    TwoDigits(s[6..]);
    var months := MonthFields(rest);
    assert months[0] == Field(DecimalValue(s[4..6]), 2);
    var days := DayFields(rest[2..]);
    assert days[0] == Field(DecimalValue(s[6..]), 2);
  }

  /** A month or day out of range: no match of `%m%d` covers the four characters. */
  lemma NarrowMatch(s: string)
    requires |s| == 8 && AllDigits(s)
    requires !(1 <= DecimalValue(s[4..6]) <= 12 && 1 <= DecimalValue(s[6..]) <= 31)
    ensures FirstMonthDay(MonthFields(s[4..]), s[4..]).Some? ==> FirstMonthDay(MonthFields(s[4..]), s[4..]).value.width <= 3
  {
    var rest := s[4..];
    TwoDigits(s[4..6]);
    TwoDigits(s[6..]);
    var months := MonthFields(rest);
    if 1 <= DecimalValue(s[4..6]) <= 12 {
      assert months[0] == Field(DecimalValue(s[4..6]), 2);
      var days := DayFields(rest[2..]);
      assert forall i :: 0 <= i < |days| ==> days[i].width == 1;
      NarrowMonthsFallShort(months[1..], rest);
    } else {
      assert forall i :: 0 <= i < |months| ==> months[i].width == 1;
      NarrowMonthsFallShort(months, rest);
    }
  }

  /** When every way `%m` matches takes one digit, no match of `%m%d` covers four characters. */
  lemma {:induction false} NarrowMonthsFallShort(months: seq<Field>, r: string)
    requires |r| >= 1 && forall i :: 0 <= i < |months| ==> months[i].width == 1
    ensures FirstMonthDay(months, r).Some? ==> FirstMonthDay(months, r).value.width <= 3
  {
    if months != [] && DayFields(r[1..]) == [] {
      NarrowMonthsFallShort(months[1..], r);
    }
  }
}
