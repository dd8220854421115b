# Sorani Kurdish calendar converter, modelled in Dafny

The `SoraniCalendar` class of the Laravel Kurdish Sorani calendar package
converts a Gregorian date to the Sorani Kurdish calendar. It builds a day count
from the Gregorian year, month and day. It reduces that count through 33-year,
4-year and 365-day cycles (the Solar Hijri `gregorian_to_jalali` routine). It
splits the remaining day index into six 31-day months and six 30-day months,
shifts the year by 1321 and attaches the Sorani month and weekday names. The
class also exposes the Gregorian leap-year test, a three-style formatter and
getters for its two name tables.

The class has no mutable state, so the model is pure: datatypes, functions and
lemmas, in five modules.

- `PhpOps`: the PHP semantics the code relies on. `%` truncates toward zero
  (`Rem`), `(int) floor($a / $b)` is the floor quotient (`FloorDiv`).
  `array_slice` and `array_sum` over the month table are modelled, and so is
  interpolating an integer into a string (`IntToString`).
- `SoraniCalendar`: the three constant tables, copied verbatim, and every
  operation of the class. `GregorianToKurdish` follows the source step by step,
  including the `floor` on line 120. `Convert` is `convert` after the host date
  object has been read: it takes the year, month, day and weekday as integers.
- `GregorianCalendar`: what the day count means on the Gregorian side. The
  month term counts the days before the month in a common year. From one
  Gregorian day to the next the count grows by exactly one (years after 1600).
  Over a year it grows by 366 exactly when `isLeapYear` holds.
- `KurdishYearCycle`: the year structure the cycle reduction encodes. Years
  0, 4, …, 28 of every 33-year cycle have 366 days. The reduction with the year
  step guarded by `days > 365` finds the year and day index of every count. The
  line-120 step as written takes one year off the first day of each four-year
  cycle. See "## Findings".
- `DateFormat`: the formatter's layouts, and readers that recover the fields
  from each layout for every date `Convert` returns.

`getDayName` departs from the plain reading "a negative weekday gives `''`".
PHP's `-7 % 7` is `0`, so every negative multiple of 7 gives Sunday's name.
The model follows the code: `GetDayName` is `''` exactly for negative numbers
that are not multiples of 7.

## Model

| member | source | states |
|---|---|---|
| `PhpOps.Rem` | src/SoraniCalendar.php:114-126 | PHP's `%` with a positive divisor: `a == b * trunc(a / b) + r`, the remainder lies in `[0, b)` for `a >= 0` and in `(-b, 0]` for `a < 0` |
| `PhpOps.FloorDiv` | src/SoraniCalendar.php:106-109 | `(int) floor($a / $b)` is the unique `q` with `b * q <= a < b * q + b` |
| `PhpOps.ArraySlicePrefix` | src/SoraniCalendar.php:112 | `array_slice($s, 0, $len)` is a prefix of `s`: of `min(len, \|s\|)` elements for a non-negative length; for a negative length, the prefix that the last `-len` elements complete to `s`, or empty when `-len` exceeds the length |
| `PhpOps.ArraySum` | src/SoraniCalendar.php:112 | the sum of a list of non-negative integers is not negative |
| `PhpOps.IntToString` | src/SoraniCalendar.php:182-185 | an interpolated integer is a non-empty run of decimal digits, with one leading `-` when negative |
| `SoraniCalendar.EpochOf` | src/SoraniCalendar.php:96-102 | the epoch test; what it means is stated by `GregorianCalendar.DayCountNextDay` (seed 979 with year − 1600 after 1600), `GregorianCalendar.EarlyEpochLeapDay` (seed 0 with year − 621 up to 1600) and `KurdishYearCycle.AsWrittenDateLocated` (the seed enters the year as is) |
| `SoraniCalendar.MonthOffset` | src/SoraniCalendar.php:112 | the month term; `GregorianCalendar.MonthOffsetIsDaysBefore`, `MonthOffsetValues` and `MonthOffsetNonNegative` state its values |
| `SoraniCalendar.LeapDays` | src/SoraniCalendar.php:104-109 | the leap term; `GregorianCalendar.LeapDaysStep` states that it steps exactly on Gregorian leap years |
| `SoraniCalendar.DayCount` | src/SoraniCalendar.php:104-112 | the day count; `GregorianCalendar.DayCountNextDay`, `LeapYearLength` and `InitialDayCountNonNegative` state that it counts days |
| `SoraniCalendar.ReduceToFourYearCycle` | src/SoraniCalendar.php:114-118 | for a non-negative count, `days == 12053 * cycles + 1461 * blocks + index` with index in `[0, 1461)`; the year counter is a multiple of 4 within its 33-year cycle, and in year 32 (counted from 0, the last of the cycle) the index is below 365 |
| `SoraniCalendar.ReduceCycles` | src/SoraniCalendar.php:114-123 | the day index left after the whole reduction lies in `[0, 365]` for a non-negative count |
| `SoraniCalendar.MonthDayOf` | src/SoraniCalendar.php:125-126 | the month/day split; `SoraniCalendar.MonthDayBounds` bounds it and `KurdishYearCycle.MonthDayRoundTrip` and `DayOfYearRoundTrip` prove it inverse to the day-of-year index |
| `SoraniCalendar.MonthDayBounds` | src/SoraniCalendar.php:125-126 | each day index 0 to 365 falls on a month 1 to 12 and a day 1 to 31 (1 to 30 in months 7 to 12); the index is below 186 exactly when the month is 1 to 6 |
| `SoraniCalendar.GregorianToKurdish` | src/SoraniCalendar.php:94-137 | the month name is `getMonthName(month)`; for a non-negative day count, month is 1 to 12, day is 1 to 31, and day is at most 30 in months 7 to 12 |
| `SoraniCalendar.KurdishDateAt` | src/SoraniCalendar.php:125-135 | the record built from a reduced position; `SoraniCalendar.GregorianToKurdish` and `KurdishYearCycle.CorrectedNextKurdishDay` state its properties |
| `SoraniCalendar.GetMonthName` | src/SoraniCalendar.php:145-148 | the result is non-empty exactly for months 1 to 12, and then it is `MONTH_NAMES[m]` |
| `SoraniCalendar.GetDayName` | src/SoraniCalendar.php:156-159 | the result is `DAY_NAMES[n mod 7]` for `n >= 0` and for negative multiples of 7, and `''` for every other negative `n` |
| `SoraniCalendar.GetMonthNames` | src/SoraniCalendar.php:194-197 | the keys are exactly 1 to 12, and each value is non-empty and is what `getMonthName` returns for that key |
| `SoraniCalendar.GetDayNames` | src/SoraniCalendar.php:204-207 | the keys are exactly 0 to 6, and each value is non-empty and is what `getDayName` returns for that key |
| `SoraniCalendar.IsLeapYear` | src/SoraniCalendar.php:167-170 | `isLeapYear`; `GregorianCalendar.LeapYearRule` states it is the Gregorian rule for every integer, and `LeapYearLength` that it decides the year length the day count measures |
| `SoraniCalendar.Format` | src/SoraniCalendar.php:179-187 | `format`; `DateFormat.FormatLayouts` states how the styles relate, and `ShortRoundTrip`, `DateRoundTrip` and `FullRoundTrip` that each layout reads back |
| `SoraniCalendar.Convert` | src/SoraniCalendar.php:75-83 | day, month, year and month name are those of `gregorianToKurdish`, the day name is `getDayName(weekday)`, and for a non-negative day count the month name is `MONTH_NAMES[month]` |
| `GregorianCalendar.MonthTableEntry` | src/SoraniCalendar.php:44 | entry m of `GREGORIAN_MONTH_DAYS` is the length of month m in a common year |
| `GregorianCalendar.MonthOffsetIsDaysBefore` | src/SoraniCalendar.php:104-112 | for months 1 to 13, the month term of the day count is the number of days before that month in a common year |
| `GregorianCalendar.MonthOffsetValues` | src/SoraniCalendar.php:44 | the month term is 0 for January and 334 for December, and the whole table sums to 365 |
| `GregorianCalendar.MonthOffsetNonNegative` | src/SoraniCalendar.php:112 | the month term is never negative, whatever the month argument |
| `GregorianCalendar.LeapDaysStep` | src/SoraniCalendar.php:104-109 | the leap correction grows by one from shifted year y to y + 1 exactly when Gregorian year y + 1600 is a leap year |
| `GregorianCalendar.DayCountNextDay` | src/SoraniCalendar.php:96-112 | for a valid Gregorian date after 1600, the next day's count is one more |
| `GregorianCalendar.LeapYearLength` | src/SoraniCalendar.php:167-170 | from 1 January of a year after 1600 to the next, the day count grows by 366 when `isLeapYear` holds and by 365 otherwise |
| `GregorianCalendar.LeapYearRule` | src/SoraniCalendar.php:167-170 | for every integer year, negative ones included, `isLeapYear` holds iff the year is divisible by 4 and not by 100, or by 400 |
| `GregorianCalendar.LeapYearExamples` | src/SoraniCalendar.php:167-170 | 2000 and 2024 are leap years; 1900 and 2023 are not |
| `GregorianCalendar.EarlyEpochLeapDay` | src/SoraniCalendar.php:99-109 | for years 621 to 1600 the count steps by 2 from 28 February to 1 March exactly when year + 979 is a Gregorian leap year, and by 1 otherwise |
| `GregorianCalendar.EarlyEpochExamples` | src/SoraniCalendar.php:99-112 | 29 February and 1 March 1596 have the same count and convert alike; 1 March 1597 is two counts after 28 February 1597 |
| `GregorianCalendar.InitialDayCountNonNegative` | src/SoraniCalendar.php:96-112 | from Gregorian year 622 on, with a day of at least 1, the day count is not negative |
| `KurdishYearCycle.YearStartClosedForm` | src/SoraniCalendar.php:114-118 | the start of year k is 12053 per whole 33-year cycle, 1461 per whole 4-year block, then 0, 366, 731 or 1096 |
| `KurdishYearCycle.LocateCorrected` | src/SoraniCalendar.php:114-123 | with the year step guarded by `days > 365`, every non-negative count lands at the year it lies in and its index in that year |
| `KurdishYearCycle.CorrectedIsInjective` | src/SoraniCalendar.php:114-123 | with the guarded step, two different counts never land at the same position |
| `KurdishYearCycle.CorrectedNextDay` | src/SoraniCalendar.php:114-123 | with the guarded step, one more day is the next index of the same year, or index 0 of the next year |
| `KurdishYearCycle.AsWrittenLosesAYear` | src/SoraniCalendar.php:120-123 | the reduction as written has the same index as the guarded one and one year less exactly when the four-year remainder is 0 |
| `KurdishYearCycle.AsWrittenDateLocated` | src/SoraniCalendar.php:96-129 | for a date from 622 on, the day count lies in year y at index i; the result's year is seed + 1321 + y, less one on a four-year remainder of 0, and its month and day come from i |
| `KurdishYearCycle.AsWrittenCollides` | src/SoraniCalendar.php:120 | as written, the first day of any four-year block but the first of a 33-year cycle lands at the same position as the day 365 days before |
| `KurdishYearCycle.MonthDayRoundTrip` | src/SoraniCalendar.php:125-126 | the day index recomputed from the month and day is the index, for indices 0 to 365 |
| `KurdishYearCycle.DayOfYearRoundTrip` | src/SoraniCalendar.php:125-126 | splitting the index of any day of any Kurdish month gives back that month and day |
| `KurdishYearCycle.CorrectedNextKurdishDay` | src/SoraniCalendar.php:114-135 | with the guarded step, the date at count + 1 is the next Kurdish day of the date at count, across month and year ends |
| `KurdishYearCycle.CorrectedAdvancesOneDay` | src/SoraniCalendar.php:94-137 | with the guarded step, the next day of any valid Gregorian date after 1600 converts to the next Kurdish day |
| `KurdishYearCycle.AsWrittenNewYear2024` | src/SoraniCalendar.php:120-123 | as written: 2024-03-19 is 29/12/2723, 2024-03-20 is 1/1/2723, 2024-03-21 is 2/1/2724; 2023-03-21 and 2024-03-20 convert alike, and 2024-03-20 is not the day after 2024-03-19 |
| `KurdishYearCycle.CorrectedNewYear2024` | src/SoraniCalendar.php:120-123 | with the guarded step: 2024-03-19 is 29/12/2723, 2024-03-20 is 1/1/2724 and 2023-03-21 is 1/1/2723 |
| `DateFormat.FormatLayouts` | src/SoraniCalendar.php:179-187 | 'full' is the day name, `"، "` and the 'date' layout; every style other than 'full' and 'short' gives exactly the 'date' layout |
| `DateFormat.ShortRoundTrip` | src/SoraniCalendar.php:184 | splitting a 'short' rendering at `/` gives back exactly the day, the numeric month and the year |
| `DateFormat.ShortIgnoresNames` | src/SoraniCalendar.php:184 | the 'short' layout does not depend on the month or day name |
| `DateFormat.DateRoundTrip` | src/SoraniCalendar.php:183-185 | the 'date' layout and the fallback give back the day, the month name and the year when the month name has no space |
| `DateFormat.FullRoundTrip` | src/SoraniCalendar.php:182 | the 'full' layout gives back the day name, the day, the month name and the year when the names have no space |
| `DateFormat.MonthNameHasNoSpace` | src/SoraniCalendar.php:13-26 | no month name `getMonthName` returns contains a space |
| `DateFormat.DayNameHasNoSpace` | src/SoraniCalendar.php:31-39 | no day name `getDayName` returns contains a space |
| `DateFormat.ConvertedDatesReadBack` | src/SoraniCalendar.php:77-83 | every date `convert` returns renders in all three styles so that its fields read back exactly |
| `DateFormat.IntRoundTrip` | src/SoraniCalendar.php:182-185 | reading an interpolated integer back gives the integer |

## Left out

- `now()` and the `null` and string branches of `convert` (src/SoraniCalendar.php:51-54, 64-73) build a `DateTime` from the clock or by parsing text. That is host-library and wall-clock work. `Convert` takes the year, month, day and weekday (0 for Sunday) that `format('Y')`, `format('n')`, `format('j')` and `format('w')` would return.
- `format` takes a PHP array. The model takes a `SoraniDate` record, so missing keys and values of other types are not modelled. PHP's default `'full'` style has no Dafny counterpart: callers pass the style.
- PHP integers are 64-bit, and `floor($a / $b)` goes through a float. The model uses unbounded integers and the exact floor quotient. The two agree while the counts stay well inside a float's 53-bit mantissa, which covers any realistic year.
- src/helpers.php, src/SoraniCalendarServiceProvider.php and src/Facades/SoraniCalendar.php are Laravel wrappers and container registration with no logic of their own. They are not part of this model.
- `SoraniCalendar.GregorianToKurdish`: the month and day bounds are proved only for a non-negative day count, which holds for Gregorian years from 622 on. Below that, PHP's remainders go negative. The model computes what the code computes, but nothing bounds it.
- `KurdishYearCycle.CorrectedAdvancesOneDay`: proved only for Gregorian years after 1600, which use epoch seed 979. The other branch (lines 99-101) counts from year − 621, so its leap term puts the extra day in years where year + 979 is a Gregorian leap year, that is in years ≡ 1 mod 4 (less those where year + 979 is a century year not divisible by 400), and not in the real leap years. `GregorianCalendar.EarlyEpochLeapDay` states this and `GregorianCalendar.EarlyEpochExamples` shows 1596 and 1597. No next-day property holds there, so none is claimed.
- `GregorianCalendar.DayCountNextDay`: proved for years after 1600 only, for the same reason.
- `SoraniCalendar.GetMonthNames`: PHP returns the array with its keys in ascending order 1 to 12. A Dafny `map` has no order, so the key order is not modelled; only the keys and values are.
- `SoraniCalendar.GetDayNames`: PHP returns the array with its keys in ascending order 0 to 6. A Dafny `map` has no order, so the key order is not modelled; only the keys and values are.

## Findings

| source | as written | input that shows it | evidently intended | confidence | as-written member | corrected member |
|---|---|---|---|---|---|---|
| src/SoraniCalendar.php:120 | `$jy += (int) floor(($days - 1) / 365)` runs for every remainder. When the 1461-day remainder is 0, `floor(-1 / 365)` is -1, so the first day of such a four-year block is numbered in the year before. | 2024-03-19 → 29/12/2723, 2024-03-20 → 1/1/2723, 2024-03-21 → 2/1/2724; 2023-03-21 → 1/1/2723 too | the Solar Hijri routine's `(int)` truncation, which gives 0 here; equivalently, a year step only for a remainder past 365. Then 2024-03-20 → 1/1/2724, and each Gregorian day maps to the next Kurdish day | high, not executed | `KurdishYearCycle.AsWrittenNewYear2024` | `KurdishYearCycle.CorrectedAdvancesOneDay` |

`SoraniCalendar.GregorianToKurdish` and `SoraniCalendar.Convert` keep the
as-written step, because that is what the class returns.
`KurdishYearCycle.GregorianToKurdishCorrected` applies the guarded step
(`ReduceCyclesCorrected`). It is the definition about which the intended
properties are proved: the result is located in its year, distinct counts give
distinct positions, and each day is followed by the next Kurdish day.
