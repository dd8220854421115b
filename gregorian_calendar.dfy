/**
 * What the day count of gregorianToKurdish means on the Gregorian side: the
 * month term is the number of days before the month in a common year, the leap
 * day of the current year enters through the month-adjusted year alone, and so
 * (for years after 1600, the epoch the converter uses for the modern calendar)
 * the count grows by exactly one from each Gregorian day to the next, and by
 * 366 over a year exactly when isLeapYear holds.
 */
module GregorianCalendar {
  import opened PhpOps
  import opened SoraniCalendar

  /** A Gregorian calendar date. */
  datatype Date = Date(year: int, month: int, day: int)

  /** The length of month m, 1 to 12, in a common or a leap year. */
  function DaysInMonth(m: int, leap: bool): int {
    if m == 2 then (if leap then 29 else 28)
    else if m == 4 || m == 6 || m == 9 || m == 11 then 30
    else 31
  }

  /** The number of days of a year that come before the first of month m. */
  function DaysBefore(m: int, leap: bool): int
    decreases m
  {
    if m <= 1 then 0 else DaysBefore(m - 1, leap) + DaysInMonth(m - 1, leap)
  }

  predicate ValidDate(d: Date) {
    1 <= d.month <= 12 && 1 <= d.day <= DaysInMonth(d.month, IsLeapYear(d.year))
  }

  /** The day after d in the Gregorian calendar. */
  function NextDate(d: Date): (n: Date)
    ensures ValidDate(d) ==> ValidDate(n)
    ensures ValidDate(d) ==> n.year == d.year || (n.year == d.year + 1 && n.month == 1 && n.day == 1)
  {
    if d.day < DaysInMonth(d.month, IsLeapYear(d.year)) then Date(d.year, d.month, d.day + 1)
    else if d.month < 12 then Date(d.year, d.month + 1, 1)
    else Date(d.year + 1, 1, 1)
  }

  /** Entry m of the table, 1 to 12, is the length of month m in a common year. */
  lemma MonthTableEntry(m: int)
    requires 1 <= m <= 12
    ensures GregorianMonthDays[m] == DaysInMonth(m, false)
  {
    if m == 1 {} else if m == 2 {} else if m == 3 {} else if m == 4 {}
    else if m == 5 {} else if m == 6 {} else if m == 7 {} else if m == 8 {}
    else if m == 9 {} else if m == 10 {} else if m == 11 {} else {}
  }

  /** Taking one more month of the table adds that month's length. */
  lemma MonthOffsetStep(m: int)
    requires 0 <= m <= 12
    ensures MonthOffset(m + 1) == MonthOffset(m) + GregorianMonthDays[m]
  {
    var s := GregorianMonthDays;
    assert ArraySlicePrefix(s, m + 1) == s[..m + 1];
    assert s[..m + 1][..m] == s[..m];
  }

  /** The month term of the day count is the number of days before month m in a common year. */
  lemma {:induction false} MonthOffsetIsDaysBefore(m: int)
    requires 1 <= m <= 13
    ensures MonthOffset(m) == DaysBefore(m, false)
  {
    if m == 1 {
      assert ArraySlicePrefix(GregorianMonthDays, 1) == [0];
      assert [0][..0] == [];
    } else {
      MonthOffsetIsDaysBefore(m - 1);
      MonthOffsetStep(m - 1);
      if m > 2 {
        MonthTableEntry(m - 1);
      }
    }
  }

  /** January adds nothing, December adds 334 days, and the whole table is a 365-day year. */
  lemma MonthOffsetValues()
    ensures MonthOffset(1) == 0 && MonthOffset(12) == 334 && MonthOffset(13) == 365
    ensures ArraySum(GregorianMonthDays) == 365
  {
    MonthOffsetIsDaysBefore(1);
    MonthOffsetIsDaysBefore(12);
    MonthOffsetIsDaysBefore(13);
    assert ArraySlicePrefix(GregorianMonthDays, 13) == GregorianMonthDays;
  }

  /** Whatever the month argument, the month term is a count of days and so not negative. */
  lemma MonthOffsetNonNegative(m: int)
    ensures MonthOffset(m) >= 0
  {
    var s := ArraySlicePrefix(GregorianMonthDays, m);
    forall i | 0 <= i < |s| ensures s[i] >= 0 {
      assert s[i] == GregorianMonthDays[i];
      if i > 0 {
        MonthTableEntry(i);
      }
    }
  }

  /** PHP's `%` by 4, 100 and 400 sees the Gregorian year y + 1600 as the shifted year y. */
  lemma RemOfShiftedYear(y: int)
    requires y >= 0
    ensures Rem(y + 1600, 4) == y % 4 && Rem(y + 1600, 100) == y % 100 && Rem(y + 1600, 400) == y % 400
  {
    assert y + 1600 == 4 * (400 + y / 4) + y % 4;
    assert y + 1600 == 100 * (16 + y / 100) + y % 100;
    assert y + 1600 == 400 * (4 + y / 400) + y % 400;
  }

  /** A century year is a fourth year, and a fourth century year is a century year. */
  lemma DivisibilityChain(y: int)
    ensures y % 100 == 0 ==> y % 4 == 0
    ensures y % 400 == 0 ==> y % 100 == 0
  {
    if y % 100 == 0 {
      assert y == 4 * (25 * (y / 100));
    }
    if y % 400 == 0 {
      assert y == 100 * (4 * (y / 400));
    }
  }

  /** Each term of the leap correction steps up exactly when the shifted year is a multiple of its divisor. */
  lemma LeapTermsStep(y: int)
    ensures FloorDiv(y + 4, 4) == FloorDiv(y + 3, 4) + (if y % 4 == 0 then 1 else 0)
    ensures FloorDiv(y + 100, 100) == FloorDiv(y + 99, 100) + (if y % 100 == 0 then 1 else 0)
    ensures FloorDiv(y + 400, 400) == FloorDiv(y + 399, 400) + (if y % 400 == 0 then 1 else 0)
  {
    assert y + 3 == 4 * (y / 4) + y % 4 + 3;
    assert y + 99 == 100 * (y / 100) + y % 100 + 99;
    assert y + 399 == 400 * (y / 400) + y % 400 + 399;
  }

  /**
   * The leap correction grows by one from the shifted year y to y + 1 exactly
   * when the Gregorian year y + 1600 is a leap year.
   */
  lemma LeapDaysStep(y: int)
    requires y >= 0
    ensures LeapDays(y + 1) == LeapDays(y) + (if IsLeapYear(y + 1600) then 1 else 0)
  {
    RemOfShiftedYear(y);
    DivisibilityChain(y);
    LeapTermsStep(y);
    var by4, by100, by400 := y % 4 == 0, y % 100 == 0, y % 400 == 0;
    assert IsLeapYear(y + 1600) == ((by4 && !by100) || by400);
    assert LeapDays(y + 1) - LeapDays(y) == (if by4 then 1 else 0) - (if by100 then 1 else 0) + (if by400 then 1 else 0);
  }

  /**
   * The day count gregorianToKurdish builds counts days: for a valid date
   * after 1600 the next Gregorian day has the next count.
   */
  lemma DayCountNextDay(d: Date)
    requires d.year > 1600 && ValidDate(d)
    ensures var n := NextDate(d);
      InitialDayCount(n.year, n.month, n.day) == InitialDayCount(d.year, d.month, d.day) + 1
  {
    var y := d.year - 1600;
    var len := DaysInMonth(d.month, IsLeapYear(d.year));
    if d.day < len {
    } else if d.month < 12 {
      MonthOffsetStep(d.month);
      MonthTableEntry(d.month);
      if d.month == 2 {
        LeapDaysStep(y);
      }
    } else {
      MonthOffsetValues();
    }
  }

  /**
   * isLeapYear decides the length of the year as the day count measures it:
   * 366 days from one New Year's Day to the next in a leap year, 365 otherwise.
   */
  lemma LeapYearLength(gy: int)
    requires gy > 1600
    ensures InitialDayCount(gy + 1, 1, 1) - InitialDayCount(gy, 1, 1) == if IsLeapYear(gy) then 366 else 365
  {
    LeapDaysStep(gy - 1600);
    MonthOffsetValues();
  }

  /**
   * isLeapYear is the Gregorian rule for every integer year, negative ones
   * included: PHP's `%` is zero exactly when the divisor divides the year.
   */
  lemma {:induction false} LeapYearRule(y: int)
    ensures IsLeapYear(y) <==> (y % 4 == 0 && y % 100 != 0) || y % 400 == 0
  {
    if y < 0 {
      NegatedMultipleOf4(y);
      NegatedMultipleOf100(y);
      NegatedMultipleOf400(y);
    }
  }

  /** A year is a multiple of 4 exactly when its negation is. */
  lemma NegatedMultipleOf4(y: int)
    ensures y % 4 == 0 <==> (-y) % 4 == 0
  {
    if y % 4 == 0 {
      assert -y == 4 * (-(y / 4));
    }
    if (-y) % 4 == 0 {
      assert y == 4 * (-((-y) / 4));
    }
  }

  /** A year is a multiple of 100 exactly when its negation is. */
  lemma NegatedMultipleOf100(y: int)
    ensures y % 100 == 0 <==> (-y) % 100 == 0
  {
    if y % 100 == 0 {
      assert -y == 100 * (-(y / 100));
    }
    if (-y) % 100 == 0 {
      assert y == 100 * (-((-y) / 100));
    }
  }

  /** A year is a multiple of 400 exactly when its negation is. */
  lemma NegatedMultipleOf400(y: int)
    ensures y % 400 == 0 <==> (-y) % 400 == 0
  {
    if y % 400 == 0 {
      assert -y == 400 * (-(y / 400));
    }
    if (-y) % 400 == 0 {
      assert y == 400 * (-((-y) / 400));
    }
  }

  /** 2000 and 2024 are leap years; 1900 and 2023 are not. */
  lemma LeapYearExamples()
    ensures IsLeapYear(2000) && IsLeapYear(2024)
    ensures !IsLeapYear(1900) && !IsLeapYear(2023)
  {
  }

  /**
   * For years up to 1600 the day count is built from year - 621, so its leap
   * term steps at the end of February exactly when year + 979, not the year
   * itself, is a Gregorian leap year.
   */
  lemma EarlyEpochLeapDay(gy: int)
    requires 621 <= gy <= 1600
    ensures InitialDayCount(gy, 3, 1) == InitialDayCount(gy, 2, 28) + 1 + (if IsLeapYear(gy + 979) then 1 else 0)
  {
    LeapDaysStep(gy - 621);
    MonthOffsetStep(2);
  }

  /**
   * So before 1601 the counts skip or repeat around real leap days: 29 February
   * and 1 March 1596 convert alike, and 1 March 1597 comes two counts after
   * 28 February 1597.
   */
  lemma EarlyEpochExamples()
    ensures InitialDayCount(1596, 3, 1) == InitialDayCount(1596, 2, 29)
    ensures GregorianToKurdish(1596, 3, 1) == GregorianToKurdish(1596, 2, 29)
    ensures InitialDayCount(1597, 3, 1) == InitialDayCount(1597, 2, 28) + 2
  {
    EarlyEpochLeapDay(1596);
    EarlyEpochLeapDay(1597);
    assert !IsLeapYear(2575) && IsLeapYear(2576);
  }

  /**
   * From the year 622 on, and for any day number of at least one, the day
   * count is not negative, which is what keeps the reduction in range.
   */
  lemma InitialDayCountNonNegative(gy: int, gm: int, gd: int)
    requires gy >= 622 && gd >= 1
    ensures InitialDayCount(gy, gm, gd) >= 0
  {
    MonthOffsetNonNegative(gm);
  }
}
