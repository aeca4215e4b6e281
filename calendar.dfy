/** The calendar behind `is_last_day_of_month`: proleptic Gregorian dates in the
    range the date type accepts (years 1 to 9999), the "one day later" step that
    `date + timedelta(days=1)` performs, and the month-end test built on it.

    The reference for "one day later" is the ordinal day number (day 1 is
    0001-01-01): the next day is the unique valid date whose ordinal is one
    more, and the lemmas at the end prove that of NextDay. */
module Calendar {

  const MinYear := 1
  const MaxYear := 9999

  datatype Date = Date(year: int, month: int, day: int)

  datatype Option<T> = None | Some(value: T)

  predicate IsLeapYear(y: int)
  {
    y % 4 == 0 && (y % 100 != 0 || y % 400 == 0)
  }

  function DaysInYear(y: int): int
  {
    if IsLeapYear(y) then 366 else 365
  }

  function DaysInMonth(y: int, m: int): (n: int)
    requires 1 <= m <= 12
    ensures 28 <= n <= 31
    ensures n == 29 <==> m == 2 && IsLeapYear(y)
  {
    if m == 2 then (if IsLeapYear(y) then 29 else 28)
    else if m == 4 || m == 6 || m == 9 || m == 11 then 30
    else 31
  }

  /** A date the date type can hold. */
  predicate ValidDate(d: Date)
  {
    MinYear <= d.year <= MaxYear && 1 <= d.month <= 12 && 1 <= d.day <= DaysInMonth(d.year, d.month)
  }

  /** The date one day later, or None where that would leave the supported
      range (adding a day to 9999-12-31 raises OverflowError). */
  function NextDay(d: Date): (r: Option<Date>)
    requires ValidDate(d)
    ensures r.None? <==> d == Date(MaxYear, 12, 31)
    ensures r.Some? ==> ValidDate(r.value)
  {
    if d.day < DaysInMonth(d.year, d.month) then Some(Date(d.year, d.month, d.day + 1))
    else if d.month < 12 then Some(Date(d.year, d.month + 1, 1))
    else if d.year < MaxYear then Some(Date(d.year + 1, 1, 1))
    else None
  }

  /** `is_last_day_of_month`: does one day later fall in another month?
      None stands for the OverflowError raised on the last representable date. */
  function IsLastDayOfMonth(d: Date): (r: Option<bool>)
    requires ValidDate(d)
    ensures r.None? <==> d == Date(MaxYear, 12, 31)
    ensures r.Some? ==> (r.value <==> d.day == DaysInMonth(d.year, d.month))
  {
    match NextDay(d)
    case None => None
    case Some(next) => Some(next.month != d.month)
  }

  // ---------------------------------------------------------------------------
  // Ordinal day numbers: the reference definition of "one day later".

  /** Days in the years before `y` (0 for year 1). */
  function DaysBeforeYear(y: int): int
    requires y >= 1
  {
    var p := y - 1;
    p * 365 + p / 4 - p / 100 + p / 400
  }

  /** Days in the months of year `y` before month `m`, from the cumulative
      table of a common year plus one day after February in a leap year. */
  function DaysBeforeMonth(y: int, m: int): int
    requires 1 <= m <= 12
  {
    var common :=
      if m == 1 then 0 else if m == 2 then 31 else if m == 3 then 59
      else if m == 4 then 90 else if m == 5 then 120 else if m == 6 then 151
      else if m == 7 then 181 else if m == 8 then 212 else if m == 9 then 243
      else if m == 10 then 273 else if m == 11 then 304 else 334;
    common + (if m > 2 && IsLeapYear(y) then 1 else 0)
  }

  /** The ordinal of a date: 0001-01-01 is day 1. */
  function Ordinal(d: Date): int
    requires ValidDate(d)
  {
    DaysBeforeYear(d.year) + DaysBeforeMonth(d.year, d.month) + d.day
  }

  lemma DivStep4(p: int)
    requires p >= 0
    ensures (p + 1) / 4 == p / 4 + (if (p + 1) % 4 == 0 then 1 else 0)
  {
  }

  lemma DivStep100(p: int)
    requires p >= 0
    ensures (p + 1) / 100 == p / 100 + (if (p + 1) % 100 == 0 then 1 else 0)
  {
  }

  lemma DivStep400(p: int)
    requires p >= 0
    ensures (p + 1) / 400 == p / 400 + (if (p + 1) % 400 == 0 then 1 else 0)
  {
  }

  lemma Divides400Then100(y: int)
    requires y % 400 == 0
    ensures y % 100 == 0
  {
    var q := y / 400;
    assert y == 100 * (4 * q) + 0;
  }

  lemma Divides100Then4(y: int)
    requires y % 100 == 0
    ensures y % 4 == 0
  {
    var q := y / 100;
    assert y == 4 * (25 * q) + 0;
  }

  /** A year holds DaysInYear days: the closed form agrees with the leap rule. */
  lemma YearLength(y: int)
    requires y >= 1
    ensures DaysBeforeYear(y + 1) == DaysBeforeYear(y) + DaysInYear(y)
  {
    var p := y - 1;
    DivStep4(p);
    DivStep100(p);
    DivStep400(p);
    if y % 400 == 0 {
      Divides400Then100(y);
    }
    if y % 100 == 0 {
      Divides100Then4(y);
    }
    assert DaysBeforeYear(y + 1) == y * 365 + y / 4 - y / 100 + y / 400;
    assert DaysBeforeYear(y) == p * 365 + p / 4 - p / 100 + p / 400;
  }

  /** Years start later the later they are: year `a` ends no later than year `b` starts. */
  lemma {:induction false} YearsOrdered(a: int, b: int)
    requires 1 <= a < b
    ensures DaysBeforeYear(a) + DaysInYear(a) <= DaysBeforeYear(b)
    decreases b - a
  {
    YearLength(a);
    if a + 1 < b {
      YearsOrdered(a + 1, b);
      YearLength(a + 1);
    }
  }

  /** The month table agrees with DaysInMonth: each month starts where the previous one ends. */
  lemma MonthLength(y: int, m: int)
    requires 1 <= m <= 12
    ensures m < 12 ==> DaysBeforeMonth(y, m + 1) == DaysBeforeMonth(y, m) + DaysInMonth(y, m)
    ensures m == 12 ==> DaysBeforeMonth(y, m) + DaysInMonth(y, m) == DaysInYear(y)
  {
  }

  lemma {:induction false} MonthsOrdered(y: int, a: int, b: int)
    requires 1 <= a < b <= 12
    ensures DaysBeforeMonth(y, a) + DaysInMonth(y, a) <= DaysBeforeMonth(y, b)
    decreases b - a
  {
    MonthLength(y, a);
    if a + 1 < b {
      MonthsOrdered(y, a + 1, b);
      MonthLength(y, a + 1);
    }
  }

  /** A valid date's ordinal lies inside its year and inside its month. */
  lemma OrdinalBounds(d: Date)
    requires ValidDate(d)
    ensures DaysBeforeYear(d.year) < Ordinal(d) <= DaysBeforeYear(d.year) + DaysInYear(d.year)
  {
    MonthLength(d.year, d.month);
    if d.month < 12 {
      MonthsOrdered(d.year, d.month, 12);
      MonthLength(d.year, 12);
    }
  }

  /** Distinct valid dates have distinct ordinals. */
  lemma OrdinalInjective(d: Date, e: Date)
    requires ValidDate(d) && ValidDate(e)
    requires Ordinal(d) == Ordinal(e)
    ensures d == e
  {
    OrdinalBounds(d);
    OrdinalBounds(e);
    if d.year < e.year {
      YearsOrdered(d.year, e.year);
    } else if e.year < d.year {
      YearsOrdered(e.year, d.year);
    }
    assert d.year == e.year;
    if d.month < e.month {
      MonthsOrdered(d.year, d.month, e.month);
    } else if e.month < d.month {
      MonthsOrdered(d.year, e.month, d.month);
    }
  }

  /** NextDay is "one day later": its ordinal is one more, and it is the only
      valid date with that ordinal. */
  lemma NextDayIsSuccessor(d: Date, e: Date)
    requires ValidDate(d) && d != Date(MaxYear, 12, 31)
    ensures NextDay(d).Some? && Ordinal(NextDay(d).value) == Ordinal(d) + 1
    ensures ValidDate(e) && Ordinal(e) == Ordinal(d) + 1 ==> e == NextDay(d).value
  {
    var n := NextDay(d).value;
    MonthLength(d.year, d.month);
    if d.day == DaysInMonth(d.year, d.month) && d.month == 12 {
      YearLength(d.year);
    }
    assert Ordinal(n) == Ordinal(d) + 1;
    if ValidDate(e) && Ordinal(e) == Ordinal(d) + 1 {
      OrdinalInjective(e, n);
    }
  }

  /** The month-end test of the source is "day is the month's last day",
      stated against the ordinal reference: whatever valid date has the next
      ordinal lies in another month exactly on the month's last day. */
  lemma LastDayOfMonthByOrdinal(d: Date)
    requires ValidDate(d)
    ensures forall e :: ValidDate(e) && Ordinal(e) == Ordinal(d) + 1 ==>
      IsLastDayOfMonth(d) == Some(e.month != d.month) &&
      (e.month != d.month <==> d.day == DaysInMonth(d.year, d.month))
  {
    forall e | ValidDate(e) && Ordinal(e) == Ordinal(d) + 1
      ensures IsLastDayOfMonth(d) == Some(e.month != d.month)
      ensures e.month != d.month <==> d.day == DaysInMonth(d.year, d.month)
    {
      OrdinalBounds(e);
      assert d != Date(MaxYear, 12, 31) by {
        if d == Date(MaxYear, 12, 31) {
          YearLength(MaxYear);
          assert Ordinal(e) > DaysBeforeYear(MaxYear) + DaysInYear(MaxYear);
          if e.year < MaxYear {
            YearsOrdered(e.year, MaxYear);
          }
          assert false;
        }
      }
      NextDayIsSuccessor(d, e);
    }
  }

  /** The worked dates: leap-day and common-year February ends, an ordinary
      mid-month day, and the year boundary. */
  lemma MonthEndExamples()
    ensures IsLastDayOfMonth(Date(2024, 2, 29)) == Some(true)
    ensures IsLastDayOfMonth(Date(2023, 2, 28)) == Some(true)
    ensures IsLastDayOfMonth(Date(2024, 2, 28)) == Some(false)
    ensures IsLastDayOfMonth(Date(2024, 1, 30)) == Some(false)
    ensures IsLastDayOfMonth(Date(2023, 12, 31)) == Some(true)
    ensures IsLastDayOfMonth(Date(1900, 2, 28)) == Some(true)
    ensures IsLastDayOfMonth(Date(2000, 2, 28)) == Some(false)
    ensures IsLastDayOfMonth(Date(MaxYear, 12, 31)) == None
  {
  }
}
