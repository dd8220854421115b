/**
 * The Gregorian to Sorani Kurdish date converter of the SoraniCalendar class.
 *
 * The class has no mutable state: its three tables are constants and every
 * operation is a function of its arguments. The conversion is the well-known
 * Gregorian to Solar Hijri routine followed by a shift of 1321 years to the
 * Kurdish year numbering; it is modelled here exactly as the class writes it,
 * including PHP's truncating `%` and the `floor` of line 120 (see the lemmas of
 * module KurdishYearCycle for what that `floor` does on the first day of a
 * four-year cycle).
 */
module SoraniCalendar {
  import opened PhpOps

  /** MONTH_NAMES: the Sorani month names, keyed 1 to 12. */
  const MonthNames: map<int, string> := map[
    1 := "خاکه\U{200C}لێوه",
    2 := "گوڵان",
    3 := "جۆزه\U{200C}ردان",
    4 := "پووشپه\U{200C}ڕ",
    5 := "گه\U{200C}لاوێژ",
    6 := "خه\U{200C}رمانان",
    7 := "ره\U{200C}زبه\U{200C}ر",
    8 := "خه\U{200C}زه\U{200C}ڵوه\U{200C}ر",
    9 := "سه\U{200C}رماوه\U{200C}ز",
    10 := "به\U{200C}فرانبار",
    11 := "رێبه\U{200C}ندان",
    12 := "ره\U{200C}شه\U{200C}مێ"
  ]

  /** DAY_NAMES: the Sorani weekday names, keyed 0 (Sunday) to 6 (Saturday). */
  const DayNames: map<int, string> := map[
    0 := "یه\U{200C}کشه\U{200C}ممه",
    1 := "دووشه\U{200C}ممه",
    2 := "سێشەممه",
    3 := "چوارشه\U{200C}ممه",
    4 := "پێنجشه\U{200C}ممه",
    5 := "هه\U{200C}ینی",
    6 := "شه\U{200C}ممه"
  ]

  /** GREGORIAN_MONTH_DAYS: a sentinel 0, then the lengths of the months of a common year. */
  const GregorianMonthDays: seq<int> := [0, 31, 28, 31, 30, 31, 30, 31, 31, 30, 31, 30, 31]

  /** The array gregorianToKurdish returns. */
  datatype KurdishDate = KurdishDate(day: int, month: int, year: int, monthName: string)

  /** The array convert returns. */
  datatype SoraniDate = SoraniDate(day: int, month: int, year: int, monthName: string, dayName: string)

  /** The year-counter seed and the shifted Gregorian year chosen by the epoch test. */
  datatype Epoch = Epoch(seed: int, shiftedYear: int)

  /** Where the cycle reduction leaves a day count: whole years elapsed and the day index left over. */
  datatype Position = Position(years: int, index: int)

  datatype MonthDay = MonthDay(month: int, day: int)

  /** The epoch test of gregorianToKurdish. */
  function EpochOf(gy: int): Epoch {
    if gy > 1600 then Epoch(979, gy - 1600) else Epoch(0, gy - 621)
  }

  /** array_sum(array_slice(GREGORIAN_MONTH_DAYS, 0, $gm)): the month term of the day count. */
  function MonthOffset(gm: int): int {
    ArraySum(ArraySlicePrefix(GregorianMonthDays, gm))
  }

  /** The leap-day correction of the day count, for the month-adjusted year gy2. */
  function LeapDays(gy2: int): int {
    FloorDiv(gy2 + 3, 4) - FloorDiv(gy2 + 99, 100) + FloorDiv(gy2 + 399, 400)
  }

  /** The day count built from the shifted year y, the month and the day. */
  function DayCount(y: int, gm: int, gd: int): int {
    var gy2 := if gm > 2 then y + 1 else y;
    365 * y + LeapDays(gy2) - 80 + gd + MonthOffset(gm)
  }

  /** The day count gregorianToKurdish builds for a Gregorian date, before any reduction. */
  function InitialDayCount(gy: int, gm: int, gd: int): int {
    DayCount(EpochOf(gy).shiftedYear, gm, gd)
  }

  /**
   * The first two reductions of a day count: whole 33-year cycles of 12053
   * days, then whole 4-year cycles of 1461 days, with PHP's `%` for what is left.
   */
  function ReduceToFourYearCycle(days: int): (p: Position)
    ensures days >= 0 ==> 0 <= p.index < 1461 && p.years >= 0
    ensures days >= 0 ==> days == 12053 * (p.years / 33) + 1461 * (p.years % 33 / 4) + p.index
    ensures days >= 0 ==> p.years % 33 % 4 == 0 && (p.years % 33 == 32 ==> p.index < 365)
  {
    var years1 := 33 * FloorDiv(days, 12053);
    var days1 := Rem(days, 12053);
    var years2 := years1 + 4 * FloorDiv(days1, 1461);
    var days2 := Rem(days1, 1461);
    assert days >= 0 ==> years2 / 33 == days / 12053 && years2 % 33 == 4 * (days1 / 1461);
    Position(years2, days2)
  }

  /**
   * The whole reduction: the last step adds `floor((days - 1) / 365)` years for
   * every remainder, including 0, and folds a remainder past 365 into one year.
   */
  function ReduceCycles(days: int): (p: Position)
    ensures days >= 0 ==> 0 <= p.index <= 365
  {
    var c := ReduceToFourYearCycle(days);
    var years := c.years + FloorDiv(c.index - 1, 365);
    var index := if c.index > 365 then Rem(c.index - 1, 365) else c.index;
    Position(years, index)
  }

  /** Splits a day index into six 31-day months followed by 30-day months. */
  function MonthDayOf(index: int): MonthDay {
    if index < 186 then MonthDay(1 + FloorDiv(index, 31), 1 + Rem(index, 31))
    else MonthDay(7 + FloorDiv(index - 186, 30), 1 + Rem(index - 186, 30))
  }

  /**
   * Every day index of a year, 0 to 365, falls on a month 1 to 12 and a day of
   * that month: indices before 186 in the six 31-day months, the rest in the
   * 30-day months.
   */
  lemma MonthDayBounds(index: int)
    ensures var md := MonthDayOf(index);
      0 <= index <= 365 ==>
      1 <= md.month <= 12 && 1 <= md.day <= (if md.month <= 6 then 31 else 30) &&
      (index < 186 <==> md.month <= 6)
  {
  }

  /** gregorianToKurdish: the Kurdish day, month, year and month name of a Gregorian date. */
  function GregorianToKurdish(gy: int, gm: int, gd: int): (r: KurdishDate)
    ensures r.monthName == GetMonthName(r.month)
    ensures InitialDayCount(gy, gm, gd) >= 0 ==> 1 <= r.month <= 12 && 1 <= r.day <= 31
    ensures InitialDayCount(gy, gm, gd) >= 0 && r.month >= 7 ==> r.day <= 30
  {
    var e := EpochOf(gy);
    var p := ReduceCycles(DayCount(e.shiftedYear, gm, gd));
    MonthDayBounds(p.index);
    KurdishDateAt(e.seed, p)
  }

  /** The Kurdish date at a reduced position, for the year-counter seed of the epoch. */
  function KurdishDateAt(seed: int, p: Position): KurdishDate {
    var md := MonthDayOf(p.index);
    KurdishDate(md.day, md.month, seed + p.years + 1321, GetMonthName(md.month))
  }

  /** getMonthName: the table entry, or the empty string for a number that is not a key. */
  function GetMonthName(m: int): (r: string)
    ensures (r != "") <==> 1 <= m <= 12
    ensures 1 <= m <= 12 ==> r == MonthNames[m]
  {
    if m in MonthNames then MonthNames[m] else ""
  }

  /**
   * getDayName: the entry for PHP's `$n % 7`. A negative n that is not a
   * multiple of 7 gives a negative key and so the empty string.
   */
  function GetDayName(n: int): (r: string)
    ensures r == if n >= 0 || n % 7 == 0 then DayNames[n % 7] else ""
  {
    var k := Rem(n, 7);
    if k in DayNames then DayNames[k] else ""
  }

  /** isLeapYear: the Gregorian leap-year rule, with PHP's `%`. */
  predicate IsLeapYear(y: int) {
    (Rem(y, 4) == 0 && Rem(y, 100) != 0) || Rem(y, 400) == 0
  }

  /** The layout of the 'date' style, which is also the fallback for unknown styles. */
  function DateLayout(d: SoraniDate): string {
    IntToString(d.day) + " " + d.monthName + " " + IntToString(d.year)
  }

  /** format: renders a converted date in the 'full', 'date' or 'short' style. */
  function Format(d: SoraniDate, style: string): string {
    if style == "full" then d.dayName + "، " + DateLayout(d)
    else if style == "date" then DateLayout(d)
    else if style == "short" then IntToString(d.day) + "/" + IntToString(d.month) + "/" + IntToString(d.year)
    else DateLayout(d)
  }

  /** getMonthNames: the month table, keyed exactly 1 to 12. */
  function GetMonthNames(): (r: map<int, string>)
    ensures forall k :: k in r <==> 1 <= k <= 12
    ensures forall k :: k in r ==> r[k] != "" && r[k] == GetMonthName(k)
  {
    MonthNames
  }

  /** getDayNames: the weekday table, keyed exactly 0 to 6. */
  function GetDayNames(): (r: map<int, string>)
    ensures forall k :: k in r <==> 0 <= k <= 6
    ensures forall k :: k in r ==> r[k] != "" && r[k] == GetDayName(k)
  {
    DayNames
  }

  /**
   * convert, once the host date object has been read: the Gregorian year,
   * month, day and weekday (0 for Sunday) in, the Sorani date out.
   */
  function Convert(gy: int, gm: int, gd: int, weekday: int): (r: SoraniDate)
    ensures var k := GregorianToKurdish(gy, gm, gd);
      r.day == k.day && r.month == k.month && r.year == k.year && r.monthName == k.monthName
    ensures r.dayName == GetDayName(weekday)
    ensures r.monthName == GetMonthName(r.month)
    ensures InitialDayCount(gy, gm, gd) >= 0 ==> 1 <= r.month <= 12 && r.monthName == MonthNames[r.month]
  {
    var k := GregorianToKurdish(gy, gm, gd);
    SoraniDate(k.day, k.month, k.year, k.monthName, GetDayName(weekday))
  }
}
