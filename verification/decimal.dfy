/**
  Decimal text of Kotlin `Int` values: `Int.toString()` and `String.toIntOrNull()`.
  Digits are the ASCII digits; values are the signed 32-bit range.
 */
module Decimal {
  import opened Wrappers
  import Text

  const IntMin: int := -0x8000_0000
  const IntMax: int := 0x7FFF_FFFF

  predicate InInt32(n: int) { IntMin <= n <= IntMax }

  function DigitChar(d: int): (c: char)
    requires 0 <= d < 10
    ensures Text.IsDigit(c)
  {
    ('0' as int + d) as char
  }

  function DigitValue(c: char): (d: int)
    requires Text.IsDigit(c)
    ensures 0 <= d < 10 && DigitChar(d) == c
  {
    c as int - '0' as int
  }

  predicate AllDigits(s: string) { forall i :: 0 <= i < |s| ==> Text.IsDigit(s[i]) }

  /** The value of a string of decimal digits, most significant first. */
  function DigitsValue(s: string): (n: nat)
    requires AllDigits(s)
  {
    if s == [] then 0 else DigitsValue(s[..|s| - 1]) * 10 + DigitValue(s[|s| - 1])
  }

  /** The shortest decimal digits of a natural number. */
  function Digits(n: nat): (s: string)
    ensures |s| >= 1 && AllDigits(s)
    ensures DigitsValue(s) == n
    ensures n >= 10 ==> s[0] != '0'
  {
    if n < 10 then [DigitChar(n)]
    else
      var s := Digits(n / 10) + [DigitChar(n % 10)];
      assert s[..|s| - 1] == Digits(n / 10);
      s
  }

  /** `Int.toString()`: a minus sign for negative values, then the shortest digits. */
  function Show(n: int): (s: string)
    ensures |s| >= 1
  {
    if n < 0 then "-" + Digits(-n) else Digits(n)
  }

  /** `String.toIntOrNull()`: an optional `+` or `-`, at least one digit, and a value inside the Int range. */
  function Parse(s: string): (r: Option<int>)
    ensures r.Some? ==> InInt32(r.value)
  {
    if s == [] then None
    else
      var negative := s[0] == '-';
      var digits := if s[0] == '-' || s[0] == '+' then s[1..] else s;
      if digits == [] || !AllDigits(digits) then None
      else
        var magnitude: int := DigitsValue(digits);
        var v := if negative then -magnitude else magnitude;
        if InInt32(v) then Some(v) else None
  }

  /** Reading back the text of any Int gives the Int. */
  lemma ParseShow(n: int)
    requires InInt32(n)
    ensures Parse(Show(n)) == Some(n)
  {
    if n < 0 {
      assert Show(n)[1..] == Digits(-n);
    }
  }

  /** A string that parses and is written in the form `Show` produces. */
  predicate IsCanonical(s: string) {
    Parse(s).Some? && Show(Parse(s).value) == s
  }

  /** The text of every Int is canonical, and different Ints have different texts. */
  lemma ShowInjective(a: int, b: int)
    requires InInt32(a) && InInt32(b)
    ensures IsCanonical(Show(a))
    ensures Show(a) == Show(b) ==> a == b
  {
    ParseShow(a);
    ParseShow(b);
  }
}
