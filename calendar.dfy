/**
 * Proleptic Gregorian calendar dates and the day numbering that Python's
 * `datetime.date` uses (`toordinal`: 0001-01-01 is day 1). Subtracting two
 * dates in Python subtracts their ordinals, which is `DaysBetween` here.
 */
module Calendar {

  datatype Date = Date(year: int, month: int, day: int)

  predicate IsLeap(y: int)
  {
    y % 4 == 0 && (y % 100 != 0 || y % 400 == 0)
  }

  function DaysInMonth(y: int, m: int): int
    requires 1 <= m <= 12
  {
    if m == 2 then (if IsLeap(y) then 29 else 28)
    else if m == 4 || m == 6 || m == 9 || m == 11 then 30
    else 31
  }

  function DaysInYear(y: int): int
  {
    if IsLeap(y) then 366 else 365
  }

  /** A day that exists in the calendar, from year 1 on (Python's `MINYEAR`). */
  predicate IsCalendarDay(d: Date)
  {
    d.year >= 1 && 1 <= d.month <= 12 && 1 <= d.day <= DaysInMonth(d.year, d.month)
  }

  /** Days in the years before `y` (floor division, as Python writes it). */
  function DaysBeforeYear(y: int): int
  {
    var p := y - 1;
    p * 365 + p / 4 - p / 100 + p / 400
  }

  /** Days in the months of year `y` before month `m`. */
  function DaysBeforeMonth(y: int, m: int): int
    requires 1 <= m <= 12
  {
    [0, 31, 59, 90, 120, 151, 181, 212, 243, 273, 304, 334][m - 1]
    + (if m > 2 && IsLeap(y) then 1 else 0)
  }

  /** `date.toordinal()`. */
  function Ordinal(d: Date): int
    requires 1 <= d.month <= 12
  {
    DaysBeforeYear(d.year) + DaysBeforeMonth(d.year, d.month) + d.day
  }

  /** `(later - earlier).days` for two dates. */
  function DaysBetween(later: Date, earlier: Date): int
    requires 1 <= later.month <= 12 && 1 <= earlier.month <= 12
  {
    Ordinal(later) - Ordinal(earlier)
  }

  /** The calendar's next day: the independent reference for the day numbering. */
  function NextDay(d: Date): (r: Date)
    requires IsCalendarDay(d)
    ensures IsCalendarDay(r)
  {
    if d.day < DaysInMonth(d.year, d.month) then Date(d.year, d.month, d.day + 1)
    else if d.month < 12 then Date(d.year, d.month + 1, 1)
    else Date(d.year + 1, 1, 1)
  }

  /** The day `n` calendar days after `d`. */
  function AddDays(d: Date, n: nat): (r: Date)
    requires IsCalendarDay(d)
    ensures IsCalendarDay(r)
  {
    if n == 0 then d else NextDay(AddDays(d, n - 1))
  }

  /** `d` comes strictly before `e` in the calendar. */
  predicate Before(d: Date, e: Date)
  {
    d.year < e.year
    || (d.year == e.year && (d.month < e.month || (d.month == e.month && d.day < e.day)))
  }

  lemma DaysBeforeYearStep(y: int)
    requires y >= 1
    ensures DaysBeforeYear(y + 1) == DaysBeforeYear(y) + DaysInYear(y)
  {
    Quotient4Step(y);
    Quotient100Step(y);
    Quotient400Step(y);
    LeapCount(y);
  }

  /** Leap years by inclusion and exclusion: every fourth year, less every hundredth, plus every four-hundredth. */
  lemma LeapCount(y: int)
    ensures (if y % 4 == 0 then 1 else 0) - (if y % 100 == 0 then 1 else 0) + (if y % 400 == 0 then 1 else 0)
         == if IsLeap(y) then 1 else 0
  {
    if y % 400 == 0 {
      MultipleOf400(y);
    }
    if y % 100 == 0 {
      MultipleOf100(y);
    }
  }

  lemma MultipleOf400(y: int)
    requires y % 400 == 0
    ensures y % 100 == 0
  {
    var q := y / 400;
    assert y == 100 * (4 * q);
  }

  lemma MultipleOf100(y: int)
    requires y % 100 == 0
    ensures y % 4 == 0
  {
    var q := y / 100;
    assert y == 4 * (25 * q);
  }

  lemma Quotient4Step(y: int)
    ensures y / 4 == (y - 1) / 4 + (if y % 4 == 0 then 1 else 0)
  {
  }

  lemma Quotient100Step(y: int)
    ensures y / 100 == (y - 1) / 100 + (if y % 100 == 0 then 1 else 0)
  {
  }

  lemma Quotient400Step(y: int)
    ensures y / 400 == (y - 1) / 400 + (if y % 400 == 0 then 1 else 0)
  {
  }

  lemma DaysBeforeMonthStep(y: int, m: int)
    requires 1 <= m < 12
    ensures DaysBeforeMonth(y, m + 1) == DaysBeforeMonth(y, m) + DaysInMonth(y, m)
  {
  }

  /** Moving to the next calendar day adds exactly one to the ordinal. */
  lemma OrdinalNextDay(d: Date)
    requires IsCalendarDay(d)
    ensures Ordinal(NextDay(d)) == Ordinal(d) + 1
  {
    if d.day < DaysInMonth(d.year, d.month) {
    } else if d.month < 12 {
      DaysBeforeMonthStep(d.year, d.month);
    } else {
      DaysBeforeYearStep(d.year);
    }
  }

  lemma {:induction false} OrdinalAddDays(d: Date, n: nat)
    requires IsCalendarDay(d)
    ensures Ordinal(AddDays(d, n)) == Ordinal(d) + n
  {
    if n > 0 {
      var previous := AddDays(d, n - 1);
      OrdinalAddDays(d, n - 1);
      OrdinalNextDay(previous);
    }
  }

  /**
   * Python's day difference counts calendar days: the date `n` days after `d`
   * is `n` days later, and `d` is `n` days earlier than it (a negative age).
   */
  lemma DaysBetweenCountsDays(d: Date, n: nat)
    requires IsCalendarDay(d)
    ensures DaysBetween(AddDays(d, n), d) == n
    ensures DaysBetween(d, AddDays(d, n)) == -(n as int)
  {
    OrdinalAddDays(d, n);
  }

  /** The day of the year lies within the year. */
  lemma DayOfYearInRange(d: Date)
    requires IsCalendarDay(d)
    ensures 1 <= DaysBeforeMonth(d.year, d.month) + d.day <= DaysInYear(d.year)
  {
  }

  lemma {:induction false} DaysBeforeYearIncreasing(y: int, z: int)
    requires 1 <= y < z
    decreases z - y
    ensures DaysBeforeYear(y) + DaysInYear(y) <= DaysBeforeYear(z)
  {
    DaysBeforeYearStep(y);
    if y + 1 < z {
      DaysBeforeYearIncreasing(y + 1, z);
    }
  }

  lemma {:induction false} DaysBeforeMonthIncreasing(y: int, m: int, n: int)
    requires 1 <= m < n <= 12
    decreases n - m
    ensures DaysBeforeMonth(y, m) + DaysInMonth(y, m) <= DaysBeforeMonth(y, n)
  {
    DaysBeforeMonthStep(y, m);
    if m + 1 < n {
      DaysBeforeMonthIncreasing(y, m + 1, n);
    }
  }

  /** The ordinal numbers calendar days in calendar order. */
  lemma OrdinalOrdersDates(d: Date, e: Date)
    requires IsCalendarDay(d) && IsCalendarDay(e)
    ensures Before(d, e) <==> Ordinal(d) < Ordinal(e)
    ensures d == e <==> Ordinal(d) == Ordinal(e)
  {
    DayOfYearInRange(d);
    DayOfYearInRange(e);
    if d.year < e.year {
      DaysBeforeYearIncreasing(d.year, e.year);
    } else if e.year < d.year {
      DaysBeforeYearIncreasing(e.year, d.year);
    } else if d.month < e.month {
      DaysBeforeMonthIncreasing(d.year, d.month, e.month);
    } else if e.month < d.month {
      DaysBeforeMonthIncreasing(d.year, e.month, d.month);
    }
  }

  /** The signed day difference is positive exactly when the date lies in the past. */
  lemma DaysBetweenSign(today: Date, d: Date)
    requires IsCalendarDay(today) && IsCalendarDay(d)
    ensures DaysBetween(today, d) > 0 <==> Before(d, today)
    ensures DaysBetween(today, d) == 0 <==> d == today
    ensures DaysBetween(today, d) < 0 <==> Before(today, d)
  {
    OrdinalOrdersDates(d, today);
    OrdinalOrdersDates(today, d);
  }
}
