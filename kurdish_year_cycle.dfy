/**
 * The year structure that the cycle reduction of gregorianToKurdish encodes,
 * and what the `floor` of its last year step does to it.
 *
 * Counted from the epoch, the years come in cycles of 33: in each, the years
 * 0, 4, ..., 28 have 366 days and the others 365, 12053 days in all. A day
 * count D lies in year y at index i when YearStart(y) <= D = YearStart(y) + i
 * < YearStart(y + 1). The reduction with the year step guarded by `days > 365`
 * (the Solar Hijri routine the class derives from) finds exactly that (y, i),
 * so consecutive days go to consecutive Kurdish dates. The class instead adds
 * `floor((days - 1) / 365)` for every remainder; on a remainder of 0, the first
 * day of a four-year cycle, that is -1, so the first day of such a year keeps
 * the number of the year before.
 */
module KurdishYearCycle {
  import opened PhpOps
  import opened SoraniCalendar
  import opened GregorianCalendar

  /** The Kurdish year of the modern epoch: 979 + 1321 years before the year counted as 0. */
  const EpochYear: int := 979 + 1321

  /** The length of year k counted from the epoch. */
  function YearLength(k: int): int {
    var j := k % 33;
    if j != 32 && j % 4 == 0 then 366 else 365
  }

  /** The day count at which year k begins. */
  function YearStart(k: nat): nat {
    if k == 0 then 0 else YearStart(k - 1) + YearLength(k - 1)
  }

  /** Where year c, 0 to 3, of a four-year cycle begins within it. */
  function FourYearStart(c: int): int {
    if c == 0 then 0 else 1 + 365 * c
  }

  /** Day count `days` lies in year y, at day index i of that year. */
  predicate Locates(days: int, y: int, i: int) {
    y >= 0 && 0 <= i < YearLength(y) && days == YearStart(y) + i
  }

  /** The year starts in closed form: whole 33-year cycles, whole 4-year cycles, then whole years. */
  lemma {:induction false} YearStartClosedForm(k: nat)
    ensures YearStart(k) == 12053 * (k / 33) + 1461 * (k % 33 / 4) + FourYearStart(k % 33 % 4)
  {
    if k > 0 {
      YearStartClosedForm(k - 1);
      var a, j := (k - 1) / 33, (k - 1) % 33;
      assert k - 1 == 33 * a + j;
      if j == 32 {
        assert k / 33 == a + 1 && k % 33 == 0;
      } else {
        assert k / 33 == a && k % 33 == j + 1;
        if j % 4 == 3 {
          assert (j + 1) / 4 == j / 4 + 1 && (j + 1) % 4 == 0;
        } else {
          assert (j + 1) / 4 == j / 4 && (j + 1) % 4 == j % 4 + 1;
        }
      }
    }
  }

  /** A later year starts no earlier than the end of an earlier one. */
  lemma {:induction false} YearStartGrows(j: nat, k: nat)
    requires j < k
    ensures YearStart(j) + YearLength(j) <= YearStart(k)
  {
    if k > j + 1 {
      YearStartGrows(j, k - 1);
    }
  }

  /** A day count lies in one year only, at one index only. */
  lemma LocationUnique(days: int, y1: int, i1: int, y2: int, i2: int)
    requires Locates(days, y1, i1) && Locates(days, y2, i2)
    ensures y1 == y2 && i1 == i2
  {
    if y1 < y2 {
      YearStartGrows(y1, y2);
    } else if y2 < y1 {
      YearStartGrows(y2, y1);
    }
  }

  /**
   * The last reduction step of the Solar Hijri routine: a year step only for a
   * remainder past the first (366-day) year of the four-year cycle.
   */
  function ReduceCyclesCorrected(days: int): (p: Position)
    ensures days >= 0 ==> 0 <= p.index <= 365
  {
    var c := ReduceToFourYearCycle(days);
    if c.index > 365 then Position(c.years + FloorDiv(c.index - 1, 365), Rem(c.index - 1, 365))
    else c
  }

  /** The corrected reduction finds the year a day count lies in and its index in that year. */
  lemma LocateCorrected(days: int)
    requires days >= 0
    ensures var p := ReduceCyclesCorrected(days); Locates(days, p.years, p.index)
  {
    var c := ReduceToFourYearCycle(days);
    var p := ReduceCyclesCorrected(days);
    var step := p.years - c.years;
    assert 0 <= step <= 3;
    assert c.index == FourYearStart(step) + p.index;
    assert c.years % 33 == 32 ==> step == 0;
    assert p.years / 33 == c.years / 33 && p.years % 33 == c.years % 33 + step;
    assert p.years % 33 / 4 == c.years % 33 / 4 && p.years % 33 % 4 == step;
    YearStartClosedForm(p.years);
  }

  /** The corrected reduction never gives two day counts the same place. */
  lemma CorrectedIsInjective(d1: int, d2: int)
    requires d1 >= 0 && d2 >= 0
    requires ReduceCyclesCorrected(d1) == ReduceCyclesCorrected(d2)
    ensures d1 == d2
  {
    LocateCorrected(d1);
    LocateCorrected(d2);
  }

  /** The position after p: the next index of the same year, or the first day of the next year. */
  function NextPosition(p: Position): Position {
    if p.index + 1 < YearLength(p.years) then Position(p.years, p.index + 1) else Position(p.years + 1, 0)
  }

  /** The day count after one that lies at p lies at the position after p. */
  lemma NextLocation(days: int, p: Position)
    requires Locates(days, p.years, p.index)
    ensures Locates(days + 1, NextPosition(p).years, NextPosition(p).index)
  {
  }

  /** With the corrected step, one more day of count is the position after the day's own. */
  lemma CorrectedNextDay(days: int)
    requires days >= 0
    ensures ReduceCyclesCorrected(days + 1) == NextPosition(ReduceCyclesCorrected(days))
  {
    var p, q := ReduceCyclesCorrected(days), ReduceCyclesCorrected(days + 1);
    LocateCorrected(days);
    LocateCorrected(days + 1);
    NextLocation(days, p);
    LocationUnique(days + 1, q.years, q.index, NextPosition(p).years, NextPosition(p).index);
  }

  /**
   * The reduction as the class writes it agrees with the corrected one, except
   * that a four-year-cycle remainder of 0 is counted in the year before.
   */
  lemma AsWrittenLosesAYear(days: int)
    requires days >= 0
    ensures var w := ReduceCycles(days);
      var p := ReduceCyclesCorrected(days);
      w.index == p.index &&
      w.years == p.years - (if ReduceToFourYearCycle(days).index == 0 then 1 else 0)
  {
  }

  /**
   * What the class computes, in terms of the year structure: the day count of
   * a date from 622 on lies in year y at index i; the class numbers that year
   * seed + 1321 + y, less one when the four-year-cycle remainder is 0, and
   * splits i into month and day.
   */
  lemma AsWrittenDateLocated(gy: int, gm: int, gd: int)
    requires gy >= 622 && gd >= 1
    ensures var days := InitialDayCount(gy, gm, gd);
      var p := ReduceCyclesCorrected(days);
      var r := GregorianToKurdish(gy, gm, gd);
      Locates(days, p.years, p.index) &&
      r.year == EpochOf(gy).seed + 1321 + p.years - (if ReduceToFourYearCycle(days).index == 0 then 1 else 0) &&
      MonthDay(r.month, r.day) == MonthDayOf(p.index)
  {
    var days := InitialDayCount(gy, gm, gd);
    InitialDayCountNonNegative(gy, gm, gd);
    LocateCorrected(days);
    AsWrittenLosesAYear(days);
  }

  /**
   * As written, the first day of a four-year cycle other than the first one of
   * a 33-year cycle gets the same year, month and day as the day 365 days before.
   */
  lemma AsWrittenCollides(days: int)
    requires days >= 0
    requires ReduceToFourYearCycle(days).index == 0 && ReduceToFourYearCycle(days).years % 33 != 0
    ensures ReduceCycles(days) == ReduceCycles(days - 365) == Position(ReduceToFourYearCycle(days).years - 1, 0)
  {
    var c := ReduceToFourYearCycle(days);
    var a, b := c.years / 33, c.years % 33 / 4;
    assert c.years == 33 * a + 4 * b && 1 <= b <= 8;
    LastYearOfPreviousCycle(a, b);
  }

  /** 365 days before the start of four-year cycle b of 33-year cycle a is index 1096 of cycle b - 1. */
  lemma LastYearOfPreviousCycle(a: int, b: int)
    requires a >= 0 && 1 <= b <= 8
    ensures ReduceToFourYearCycle(12053 * a + 1461 * b - 365) == Position(33 * a + 4 * (b - 1), 1096)
  {
    var e := 12053 * a + 1461 * b - 365;
    assert e == 12053 * a + 1461 * (b - 1) + 1096;
    assert e / 12053 == a && e % 12053 == 1461 * (b - 1) + 1096;
    assert (1461 * (b - 1) + 1096) / 1461 == b - 1;
  }

  /** The day index within a Kurdish year of a month and day: six months of 31 days, then months of 30. */
  function DayOfYear(m: int, d: int): int {
    if m <= 6 then 31 * (m - 1) + d - 1 else 186 + 30 * (m - 7) + d - 1
  }

  /** MonthDayOf and DayOfYear are inverse on the indices 0 to 365. */
  lemma MonthDayRoundTrip(i: int)
    requires 0 <= i <= 365
    ensures var md := MonthDayOf(i); DayOfYear(md.month, md.day) == i
  {
  }

  /** MonthDayOf and DayOfYear are inverse on the days of the Kurdish months. */
  lemma DayOfYearRoundTrip(m: int, d: int)
    requires 1 <= m <= 12 && 1 <= d <= (if m <= 6 then 31 else 30)
    ensures MonthDayOf(DayOfYear(m, d)) == MonthDay(m, d)
  {
  }

  /** The Kurdish month lengths: six of 31 days, five of 30, and a last month of 30 days in a 366-day year, else 29. */
  function KurdishMonthLength(m: int, leap: bool): int {
    if m <= 6 then 31 else if m <= 11 then 30 else if leap then 30 else 29
  }

  /** Whether the Kurdish year `year` of the modern epoch has 366 days. */
  predicate IsKurdishLeapYear(year: int) {
    YearLength(year - EpochYear) == 366
  }

  /** The Kurdish calendar's next day, month by month. */
  function NextKurdishDay(a: KurdishDate): (b: KurdishDate)
    ensures a.monthName == GetMonthName(a.month) ==> b.monthName == GetMonthName(b.month)
  {
    if a.day < KurdishMonthLength(a.month, IsKurdishLeapYear(a.year)) then KurdishDate(a.day + 1, a.month, a.year, a.monthName)
    else if a.month < 12 then KurdishDate(1, a.month + 1, a.year, GetMonthName(a.month + 1))
    else KurdishDate(1, 1, a.year + 1, GetMonthName(1))
  }

  /** The next day of a valid Kurdish date is a valid date of the same year, or the first day of the next year. */
  lemma NextKurdishDayIsValid(a: KurdishDate)
    requires 1 <= a.month <= 12 && 1 <= a.day <= KurdishMonthLength(a.month, IsKurdishLeapYear(a.year))
    ensures var b := NextKurdishDay(a);
      1 <= b.month <= 12 && 1 <= b.day <= KurdishMonthLength(b.month, IsKurdishLeapYear(b.year)) &&
      (b.year == a.year || (b.year == a.year + 1 && b.month == 1 && b.day == 1))
  {
  }

  /** Inside a year, the next day index is the next day of the month, or the first of the next month. */
  lemma MonthDayNext(i: int, leap: bool)
    requires 0 <= i && i + 1 < (if leap then 366 else 365)
    ensures var md := MonthDayOf(i);
      MonthDayOf(i + 1) ==
        if md.day < KurdishMonthLength(md.month, leap) then MonthDay(md.month, md.day + 1)
        else MonthDay(md.month + 1, 1)
  {
    if i < 185 {
      assert i == 31 * (i / 31) + i % 31;
    } else if i == 185 {
    } else {
      assert i - 186 == 30 * ((i - 186) / 30) + (i - 186) % 30;
    }
  }

  /** The last day index of a year is the last day of the twelfth month. */
  lemma MonthDayLast(leap: bool)
    ensures MonthDayOf(if leap then 365 else 364) == MonthDay(12, KurdishMonthLength(12, leap))
  {
  }

  /** gregorianToKurdish with the corrected last reduction step. */
  function GregorianToKurdishCorrected(gy: int, gm: int, gd: int): KurdishDate {
    KurdishDateAt(EpochOf(gy).seed, ReduceCyclesCorrected(InitialDayCount(gy, gm, gd)))
  }

  /** Within a year, the next day index of a modern-epoch position is the next Kurdish day. */
  lemma NextIndexIsNextDay(p: Position)
    requires 0 <= p.index && p.index + 1 < YearLength(p.years)
    ensures KurdishDateAt(979, Position(p.years, p.index + 1)) == NextKurdishDay(KurdishDateAt(979, p))
  {
    var a, md := KurdishDateAt(979, p), MonthDayOf(p.index);
    var leap := YearLength(p.years) == 366;
    assert a.day == md.day && a.month == md.month && a.year - EpochYear == p.years;
    assert IsKurdishLeapYear(a.year) == leap;
    MonthDayNext(p.index, leap);
  }

  /** After the last day index of a year comes the first day of the next Kurdish year. */
  lemma NextYearIsNextDay(p: Position)
    requires p.index + 1 == YearLength(p.years)
    ensures KurdishDateAt(979, Position(p.years + 1, 0)) == NextKurdishDay(KurdishDateAt(979, p))
  {
    assert KurdishDateAt(979, p).year - EpochYear == p.years;
    MonthDayLast(YearLength(p.years) == 366);
  }

  /** With the corrected step, one more day of count is the next Kurdish day. */
  lemma CorrectedNextKurdishDay(days: int)
    requires days >= 0
    ensures KurdishDateAt(979, ReduceCyclesCorrected(days + 1)) == NextKurdishDay(KurdishDateAt(979, ReduceCyclesCorrected(days)))
  {
    var p := ReduceCyclesCorrected(days);
    CorrectedNextDay(days);
    LocateCorrected(days);
    if p.index + 1 < YearLength(p.years) {
      NextIndexIsNextDay(p);
    } else {
      NextYearIsNextDay(p);
    }
  }

  /** With the corrected step, each Gregorian day after 1600 is followed by the next Kurdish day. */
  lemma CorrectedAdvancesOneDay(d: Date)
    requires d.year > 1600 && ValidDate(d)
    ensures var n := NextDate(d);
      GregorianToKurdishCorrected(n.year, n.month, n.day) == NextKurdishDay(GregorianToKurdishCorrected(d.year, d.month, d.day))
  {
    var n := NextDate(d);
    NextDayCount(d);
    CorrectedConsecutiveCounts(d.year, d.month, d.day, n.year, n.month, n.day);
  }

  /** Two dates after 1600 whose day counts are consecutive convert to consecutive Kurdish days. */
  lemma CorrectedConsecutiveCounts(gy: int, gm: int, gd: int, ny: int, nm: int, nd: int)
    requires gy > 1600 && ny > 1600 && InitialDayCount(gy, gm, gd) >= 0
    requires InitialDayCount(ny, nm, nd) == InitialDayCount(gy, gm, gd) + 1
    ensures GregorianToKurdishCorrected(ny, nm, nd) == NextKurdishDay(GregorianToKurdishCorrected(gy, gm, gd))
  {
    CorrectedNextKurdishDay(InitialDayCount(gy, gm, gd));
  }

  /** The day counts of a date after 1600 and of the next day: not negative, and one apart. */
  lemma NextDayCount(d: Date)
    requires d.year > 1600 && ValidDate(d)
    ensures var n := NextDate(d);
      n.year > 1600 && InitialDayCount(d.year, d.month, d.day) >= 0 &&
      InitialDayCount(n.year, n.month, n.day) == InitialDayCount(d.year, d.month, d.day) + 1
  {
    InitialDayCountNonNegative(d.year, d.month, d.day);
    DayCountNextDay(d);
  }

  /** The day counts of 21 March 2023 and of 19 to 21 March 2024. */
  lemma DayCountsAroundNewYear2024()
    ensures InitialDayCount(2023, 3, 21) == 154498
    ensures InitialDayCount(2024, 3, 19) == 154862
    ensures InitialDayCount(2024, 3, 20) == 154863
    ensures InitialDayCount(2024, 3, 21) == 154864
  {
    MonthOffsetIsDaysBefore(3);
    assert MonthOffset(3) == 59;
    assert LeapDays(424) == 103;
    assert LeapDays(425) == 104;
  }

  /** The converter as written, around the Kurdish New Year of 2024 (20 March). */
  lemma AsWrittenNewYear2024()
    ensures GregorianToKurdish(2024, 3, 19) == KurdishDate(29, 12, 2723, MonthNames[12])
    ensures GregorianToKurdish(2024, 3, 20) == KurdishDate(1, 1, 2723, MonthNames[1])
    ensures GregorianToKurdish(2024, 3, 21) == KurdishDate(2, 1, 2724, MonthNames[1])
    ensures GregorianToKurdish(2023, 3, 21) == GregorianToKurdish(2024, 3, 20)
    ensures GregorianToKurdish(2024, 3, 20) != NextKurdishDay(GregorianToKurdish(2024, 3, 19))
  {
    DayCountsAroundNewYear2024();
    assert ReduceToFourYearCycle(154498) == Position(420, 1096);
    assert ReduceToFourYearCycle(154862) == Position(420, 1460);
    assert ReduceToFourYearCycle(154863) == Position(424, 0);
    assert ReduceToFourYearCycle(154864) == Position(424, 1);
    assert ReduceCycles(154498) == Position(423, 0);
    assert ReduceCycles(154862) == Position(423, 364);
    assert ReduceCycles(154863) == Position(423, 0);
    assert ReduceCycles(154864) == Position(424, 1);
    assert MonthDayOf(364) == MonthDay(12, 29);
  }

  /** The corrected converter on the same days: 20 March 2024 is the first day of 2724. */
  lemma CorrectedNewYear2024()
    ensures GregorianToKurdishCorrected(2024, 3, 19) == KurdishDate(29, 12, 2723, MonthNames[12])
    ensures GregorianToKurdishCorrected(2024, 3, 20) == KurdishDate(1, 1, 2724, MonthNames[1])
    ensures GregorianToKurdishCorrected(2023, 3, 21) == KurdishDate(1, 1, 2723, MonthNames[1])
  {
    DayCountsAroundNewYear2024();
    assert ReduceToFourYearCycle(154498) == Position(420, 1096);
    assert ReduceToFourYearCycle(154862) == Position(420, 1460);
    assert ReduceToFourYearCycle(154863) == Position(424, 0);
    assert ReduceCyclesCorrected(154498) == Position(423, 0);
    assert ReduceCyclesCorrected(154862) == Position(423, 364);
    assert ReduceCyclesCorrected(154863) == Position(424, 0);
    assert MonthDayOf(364) == MonthDay(12, 29);
  }
}
