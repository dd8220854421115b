/**
 * The PHP operators and built-ins that the calendar code relies on, with the
 * semantics PHP gives them on integers:
 *  - `%` truncates toward zero, so the remainder takes the sign of the dividend
 *    (Dafny's own `%` is Euclidean);
 *  - `(int) floor($a / $b)` with a positive divisor is the floor quotient;
 *  - `array_slice($a, 0, $len)` and `array_sum` on a list of integers;
 *  - string interpolation of an integer, which writes it in decimal.
 */
module PhpOps {

  /** PHP's `intdiv($a, $b)` for a positive divisor: the quotient rounded toward zero. */
  function TruncDiv(a: int, b: int): int
    requires b > 0
  {
    if a >= 0 then a / b else -((-a) / b)
  }

  /** PHP's `$a % $b` for a positive divisor: the remainder of truncating division. */
  function Rem(a: int, b: int): (r: int)
    requires b > 0
    ensures a == b * TruncDiv(a, b) + r
    ensures a >= 0 ==> 0 <= r < b
    ensures a < 0 ==> -b < r <= 0
  {
    if a >= 0 then a % b else -((-a) % b)
  }

  /** `(int) floor($a / $b)` for a positive divisor: the largest q with b * q <= a. */
  function FloorDiv(a: int, b: int): (q: int)
    requires b > 0
    ensures b * q <= a < b * q + b
  {
    a / b
  }

  /** The number of elements `array_slice($s, 0, $len)` keeps from a list of n elements. */
  function SliceLength(n: nat, len: int): (k: nat)
    ensures k <= n
  {
    if len >= 0 then (if len <= n then len else n)
    else if n + len >= 0 then n + len
    else 0
  }

  /**
   * `array_slice($s, 0, $len)` on a list: a non-negative length keeps that many
   * leading elements (all of them when the list is shorter), a negative one
   * drops that many trailing elements (all of them when the list is shorter).
   */
  function ArraySlicePrefix<T>(s: seq<T>, len: int): (r: seq<T>)
    ensures |r| <= |s| && r == s[..|r|]
    ensures len >= 0 ==> |r| == if len <= |s| then len else |s|
    ensures len < 0 && -len <= |s| ==> r + s[|s| + len..] == s
    ensures len < 0 && -len > |s| ==> r == []
  {
    s[..SliceLength(|s|, len)]
  }

  /** `array_sum` of a list of integers. */
  function ArraySum(s: seq<int>): (r: int)
    ensures (forall i :: 0 <= i < |s| ==> s[i] >= 0) ==> r >= 0
  {
    if s == [] then 0 else ArraySum(s[..|s| - 1]) + s[|s| - 1]
  }

  predicate IsDigit(c: char) {
    '0' <= c <= '9'
  }

  predicate IsDigits(s: string) {
    |s| >= 1 && forall i :: 0 <= i < |s| ==> IsDigit(s[i])
  }

  /** The value of a decimal digit character. */
  function DigitValue(c: char): (d: int)
    requires IsDigit(c)
    ensures 0 <= d < 10
  {
    c as int - '0' as int
  }

  /** The decimal digit character for d. */
  function DigitChar(d: int): (c: char)
    requires 0 <= d < 10
    ensures IsDigit(c) && DigitValue(c) == d
  {
    ('0' as int + d) as char
  }

  /** Decimal text of a natural number, most significant digit first. */
  function NatToString(n: nat): (s: string)
    ensures IsDigits(s)
    decreases n
  {
    if n < 10 then [DigitChar(n)] else NatToString(n / 10) + [DigitChar(n % 10)]
  }

  /** How PHP interpolates an integer into a string: decimal, with a leading '-' when negative. */
  function IntToString(n: int): (s: string)
    ensures n >= 0 ==> IsDigits(s)
    ensures n < 0 ==> |s| >= 2 && s[0] == '-' && IsDigits(s[1..])
  {
    if n < 0 then "-" + NatToString(-n) else NatToString(n)
  }
}
