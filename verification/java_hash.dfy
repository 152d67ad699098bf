/**
  Java's `String.hashCode()`: `h = 31 * h + u` over the string's UTF-16 code
  units, computed in signed 32-bit arithmetic that wraps around.
 */
module JavaHash {
  import Decimal

  const TwoTo32: int := 0x1_0000_0000

  /** Reinterprets an unbounded integer as a signed 32-bit Int (two's complement wrap-around). */
  function Wrap32(x: int): (r: int)
    ensures Decimal.InInt32(r)
    ensures (r - x) % TwoTo32 == 0
  {
    var m := x % TwoTo32;
    if m >= 0x8000_0000 then m - TwoTo32 else m
  }

  /** The UTF-16 code units of one Unicode scalar value (a surrogate pair above U+FFFF). */
  function Utf16Units(c: char): (units: seq<int>)
    ensures 1 <= |units| <= 2
    ensures forall i :: 0 <= i < |units| ==> 0 <= units[i] < 0x1_0000
  {
    var v := c as int;
    if v < 0x1_0000 then [v]
    else
      var w := v - 0x1_0000;
      [0xD800 + w / 0x400, 0xDC00 + w % 0x400]
  }

  function Utf16(s: string): (units: seq<int>)
    ensures |units| >= |s|
  {
    if s == [] then [] else Utf16(s[..|s| - 1]) + Utf16Units(s[|s| - 1])
  }

  /** Continues the 32-bit hash `h` over more code units. */
  function HashUnits(h: int, units: seq<int>): (r: int)
    requires Decimal.InInt32(h)
    ensures Decimal.InInt32(r)
    decreases |units|
  {
    if units == [] then h else HashUnits(Wrap32(31 * h + units[0]), units[1..])
  }

  /** `String.hashCode()`. */
  function HashCode(s: string): (r: int)
    ensures Decimal.InInt32(r)
  {
    if s == [] then 0 else HashUnits(HashCode(s[..|s| - 1]), Utf16Units(s[|s| - 1]))
  }

  /** The textbook definition: `s[0]*31^(n-1) + ... + s[n-1]` over the code units, unbounded. */
  function Polynomial(units: seq<int>): int
  {
    if units == [] then 0 else 31 * Polynomial(units[..|units| - 1]) + units[|units| - 1]
  }

  lemma WrapCongruent(a: int, b: int)
    requires (a - b) % TwoTo32 == 0
    ensures Wrap32(a) == Wrap32(b)
  {
    assert a - b == TwoTo32 * ((a - b) / TwoTo32);
  }

  lemma WrapStep(x: int, u: int)
    ensures Wrap32(31 * Wrap32(x) + u) == Wrap32(31 * x + u)
  {
    var d := Wrap32(x) - x;
    assert d == TwoTo32 * (d / TwoTo32);
    assert (31 * Wrap32(x) + u) - (31 * x + u) == TwoTo32 * (31 * (d / TwoTo32));
    WrapCongruent(31 * Wrap32(x) + u, 31 * x + u);
  }

  lemma {:induction false} HashUnitsPolynomial(prefix: seq<int>, units: seq<int>)
    ensures HashUnits(Wrap32(Polynomial(prefix)), units) == Wrap32(Polynomial(prefix + units))
    decreases |units|
  {
    if units != [] {
      var next := prefix + [units[0]];
      assert next[..|next| - 1] == prefix;
      WrapStep(Polynomial(prefix), units[0]);
      HashUnitsPolynomial(next, units[1..]);
      assert next + units[1..] == prefix + units;
    } else {
      assert prefix + units == prefix;
    }
  }

  /** The wrapped iteration computes the textbook polynomial modulo 2^32. */
  lemma {:induction false} HashCodeIsPolynomial(s: string)
    ensures HashCode(s) == Wrap32(Polynomial(Utf16(s)))
  {
    if s != [] {
      HashCodeIsPolynomial(s[..|s| - 1]);
      HashUnitsPolynomial(Utf16(s[..|s| - 1]), Utf16Units(s[|s| - 1]));
    }
  }
}
