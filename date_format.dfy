/**
 * What format promises about its output: each layout shows its fields in an
 * order and with separators from which they can be read back. The 'short'
 * layout carries the three numbers and nothing else; the 'date' layout (and
 * the fallback for any other style) carries the day, the month name and the
 * year; the 'full' layout puts the day name and an Arabic comma in front of
 * the 'date' layout. For the dates convert produces, every layout reads back.
 */
module DateFormat {
  import opened PhpOps
  import opened SoraniCalendar

  datatype Option<T> = None | Some(value: T)

  /** The pieces of s between occurrences of sep. */
  function Split(s: string, sep: char): (parts: seq<string>)
    ensures |parts| >= 1
    decreases |s|
  {
    if s == [] then [""]
    else
      var rest := Split(s[1..], sep);
      if s[0] == sep then [""] + rest else [[s[0]] + rest[0]] + rest[1..]
  }

  /** The pieces joined with sep between each two of them. */
  function Join(parts: seq<string>, sep: char): string
    requires |parts| >= 1
  {
    if |parts| == 1 then parts[0] else parts[0] + [sep] + Join(parts[1..], sep)
  }

  /** Text without the separator is one piece. */
  lemma {:induction false} SplitWithout(s: string, sep: char)
    requires sep !in s
    ensures Split(s, sep) == [s]
  {
    if s != [] {
      assert sep !in s[1..] by {
        forall i | 0 <= i < |s[1..]| ensures s[1..][i] != sep {
          assert s[1..][i] == s[i + 1];
        }
      }
      SplitWithout(s[1..], sep);
      assert [s[0]] + s[1..] == s;
    }
  }

  /** A separator after a piece without one ends that piece. */
  lemma {:induction false} SplitAfter(a: string, sep: char, rest: string)
    requires sep !in a
    ensures Split(a + [sep] + rest, sep) == [a] + Split(rest, sep)
  {
    if a == [] {
      assert a + [sep] + rest == [sep] + rest;
    } else {
      assert sep !in a[1..] by {
        forall i | 0 <= i < |a[1..]| ensures a[1..][i] != sep {
          assert a[1..][i] == a[i + 1];
        }
      }
      SplitAfter(a[1..], sep, rest);
      var s := a + [sep] + rest;
      assert s[0] == a[0] && s[0] != sep;
      assert s[1..] == a[1..] + [sep] + rest;
      assert [a[0]] + a[1..] == a;
    }
  }

  /** Splitting undoes joining, when no piece holds the separator. */
  lemma {:induction false} SplitJoin(parts: seq<string>, sep: char)
    requires |parts| >= 1
    requires forall i :: 0 <= i < |parts| ==> sep !in parts[i]
    ensures Split(Join(parts, sep), sep) == parts
  {
    if |parts| == 1 {
      SplitWithout(parts[0], sep);
    } else {
      SplitJoin(parts[1..], sep);
      SplitAfter(parts[0], sep, Join(parts[1..], sep));
    }
  }

  /** Three pieces joined. */
  lemma JoinThree(a: string, b: string, c: string, sep: char)
    ensures Join([a, b, c], sep) == a + [sep] + b + [sep] + c
  {
    assert [a, b, c][1..] == [b, c];
    assert [b, c][1..] == [c];
    assert Join([b, c], sep) == b + [sep] + c;
    assert a + [sep] + (b + [sep] + c) == a + [sep] + b + [sep] + c;
  }

  /** Four pieces joined. */
  lemma JoinFour(a: string, b: string, c: string, e: string, sep: char)
    ensures Join([a, b, c, e], sep) == a + [sep] + b + [sep] + c + [sep] + e
  {
    assert [a, b, c, e][1..] == [b, c, e];
    JoinThree(b, c, e, sep);
    assert a + [sep] + (b + [sep] + c + [sep] + e) == a + [sep] + b + [sep] + c + [sep] + e;
  }

  /** The value of a string of decimal digits. */
  function ParseNat(s: string): (n: nat)
    requires IsDigits(s)
    decreases |s|
  {
    if |s| == 1 then DigitValue(s[0]) else ParseNat(s[..|s| - 1]) * 10 + DigitValue(s[|s| - 1])
  }

  /** The integer a decimal text stands for, with an optional leading '-'; None for any other text. */
  function ParseInt(s: string): Option<int> {
    if IsDigits(s) then Some(ParseNat(s))
    else if |s| >= 2 && s[0] == '-' && IsDigits(s[1..]) then Some(0 - ParseNat(s[1..]))
    else None
  }

  /** Reading a natural number back from its decimal text gives the number. */
  lemma {:induction false} NatRoundTrip(n: nat)
    ensures ParseNat(NatToString(n)) == n
  {
    if n >= 10 {
      NatRoundTrip(n / 10);
      var s := NatToString(n);
      assert s[..|s| - 1] == NatToString(n / 10);
    }
  }

  /** Reading an integer back from the text PHP interpolates for it gives the integer. */
  lemma IntRoundTrip(n: int)
    ensures ParseInt(IntToString(n)) == Some(n)
  {
    if n < 0 {
      NatRoundTrip(-n);
      var s := IntToString(n);
      assert !IsDigit(s[0]);
      assert s[1..] == NatToString(-n);
    } else {
      NatRoundTrip(n);
    }
  }

  /** Interpolated numbers hold neither a space nor a slash. */
  lemma NumberHasNoSeparator(n: int)
    ensures ' ' !in IntToString(n) && '/' !in IntToString(n)
  {
    var s := IntToString(n);
    forall i | 0 <= i < |s| ensures s[i] != ' ' && s[i] != '/' {
      if n < 0 && i > 0 {
        assert s[i] == s[1..][i - 1];
      }
    }
  }

  /** Reads day/month/year back from a 'short' rendering. */
  function ReadShort(s: string): Option<(int, int, int)> {
    var parts := Split(s, '/');
    if |parts| != 3 then None
    else match (ParseInt(parts[0]), ParseInt(parts[1]), ParseInt(parts[2]))
      case (Some(d), Some(m), Some(y)) => Some((d, m, y))
      case _ => None
  }

  /** Reads the day, the month name and the year back from a 'date' rendering. */
  function ReadDate(s: string): Option<(int, string, int)> {
    var parts := Split(s, ' ');
    if |parts| != 3 then None
    else match (ParseInt(parts[0]), ParseInt(parts[2]))
      case (Some(d), Some(y)) => Some((d, parts[1], y))
      case _ => None
  }

  /** Reads the day name, the day, the month name and the year back from a 'full' rendering. */
  function ReadFull(s: string): Option<(string, int, string, int)> {
    var parts := Split(s, ' ');
    if |parts| != 4 || |parts[0]| == 0 || parts[0][|parts[0]| - 1] != '،' then None
    else match (ParseInt(parts[1]), ParseInt(parts[3]))
      case (Some(d), Some(y)) => Some((parts[0][..|parts[0]| - 1], d, parts[2], y))
      case _ => None
  }

  /** The 'short' layout gives back exactly the day, the numeric month and the year. */
  lemma ShortRoundTrip(d: SoraniDate)
    ensures ReadShort(Format(d, "short")) == Some((d.day, d.month, d.year))
  {
    var ds, ms, ys := IntToString(d.day), IntToString(d.month), IntToString(d.year);
    NumberHasNoSeparator(d.day);
    NumberHasNoSeparator(d.month);
    NumberHasNoSeparator(d.year);
    JoinThree(ds, ms, ys, '/');
    assert Format(d, "short") == Join([ds, ms, ys], '/');
    SplitJoin([ds, ms, ys], '/');
    IntRoundTrip(d.day);
    IntRoundTrip(d.month);
    IntRoundTrip(d.year);
  }

  /** The 'short' layout shows no name: dates that differ only in their names render alike. */
  lemma ShortIgnoresNames(d: SoraniDate, monthName: string, dayName: string)
    ensures Format(d.(monthName := monthName, dayName := dayName), "short") == Format(d, "short")
  {
  }

  /**
   * 'full' is the day name and an Arabic comma before the 'date' layout, and
   * every style other than 'full' and 'short' renders the 'date' layout.
   */
  lemma FormatLayouts(d: SoraniDate, style: string)
    ensures Format(d, "full") == d.dayName + "، " + Format(d, "date")
    ensures style != "full" && style != "short" ==> Format(d, style) == Format(d, "date")
  {
  }

  /** The 'date' layout, and the fallback for unknown styles, give back the day, month name and year. */
  lemma DateRoundTrip(d: SoraniDate, style: string)
    requires style != "full" && style != "short"
    requires ' ' !in d.monthName
    ensures ReadDate(Format(d, style)) == Some((d.day, d.monthName, d.year))
  {
    var ds, ys := IntToString(d.day), IntToString(d.year);
    NumberHasNoSeparator(d.day);
    NumberHasNoSeparator(d.year);
    JoinThree(ds, d.monthName, ys, ' ');
    assert Format(d, style) == Join([ds, d.monthName, ys], ' ');
    SplitJoin([ds, d.monthName, ys], ' ');
    IntRoundTrip(d.day);
    IntRoundTrip(d.year);
  }

  /** The 'full' layout gives back the day name, the day, the month name and the year. */
  lemma FullRoundTrip(d: SoraniDate)
    requires ' ' !in d.dayName && ' ' !in d.monthName
    ensures ReadFull(Format(d, "full")) == Some((d.dayName, d.day, d.monthName, d.year))
  {
    var first := d.dayName + "،";
    var ds, ys := IntToString(d.day), IntToString(d.year);
    NumberHasNoSeparator(d.day);
    NumberHasNoSeparator(d.year);
    assert ' ' !in first;
    JoinFour(first, ds, d.monthName, ys, ' ');
    assert Format(d, "full") == Join([first, ds, d.monthName, ys], ' ');
    SplitJoin([first, ds, d.monthName, ys], ' ');
    assert first[..|first| - 1] == d.dayName;
    IntRoundTrip(d.day);
    IntRoundTrip(d.year);
  }

  /** No month name the lookup returns holds a space. */
  lemma MonthNameHasNoSpace(m: int)
    ensures ' ' !in GetMonthName(m)
  {
  }

  /** No day name the lookup returns holds a space. */
  lemma DayNameHasNoSpace(n: int)
    ensures ' ' !in GetDayName(n)
  {
  }

  /** Every date convert produces renders in all three styles so that its fields read back. */
  lemma ConvertedDatesReadBack(gy: int, gm: int, gd: int, weekday: int)
    ensures var r := Convert(gy, gm, gd, weekday);
      ReadFull(Format(r, "full")) == Some((r.dayName, r.day, r.monthName, r.year)) &&
      ReadDate(Format(r, "date")) == Some((r.day, r.monthName, r.year)) &&
      ReadShort(Format(r, "short")) == Some((r.day, r.month, r.year))
  {
    var r := Convert(gy, gm, gd, weekday);
    MonthNameHasNoSpace(r.month);
    DayNameHasNoSpace(weekday);
    FullRoundTrip(r);
    DateRoundTrip(r, "date");
    ShortRoundTrip(r);
  }
}
