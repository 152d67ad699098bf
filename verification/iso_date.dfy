/**
  The list files' date codec: a `LocalDate` is written as its ISO-8601
  calendar date in extended format, `YYYY-MM-DD` (ISO 8601:2004, section
  4.1.2.2), and read back with the strict resolver, which refuses impossible
  dates such as 2023-02-30.
 */
module IsoDate {
  import opened Wrappers
  import opened Calendar
  import Decimal
  import Text

  function Pow10(w: nat): (p: nat)
    ensures p >= 1
  {
    if w == 0 then 1 else 10 * Pow10(w - 1)
  }

  /** The last `w` decimal digits of `n`, zero-padded on the left. */
  function FixedDigits(n: nat, w: nat): (s: string)
    ensures |s| == w && Decimal.AllDigits(s)
  {
    if w == 0 then [] else FixedDigits(n / 10, w - 1) + [Decimal.DigitChar(n % 10)]
  }

  lemma {:induction false} FixedDigitsValue(n: nat, w: nat)
    requires n < Pow10(w)
    ensures Decimal.DigitsValue(FixedDigits(n, w)) == n
  {
    if w > 0 {
      FixedDigitsValue(n / 10, w - 1);
      var s := FixedDigits(n, w);
      assert s[..|s| - 1] == FixedDigits(n / 10, w - 1);
    }
  }

  lemma {:induction false} DigitsValueFixed(s: string)
    requires Decimal.AllDigits(s)
    ensures Decimal.DigitsValue(s) < Pow10(|s|)
    ensures FixedDigits(Decimal.DigitsValue(s), |s|) == s
  {
    if s != [] {
      var init := s[..|s| - 1];
      DigitsValueFixed(init);
      var v := Decimal.DigitsValue(s);
      assert v / 10 == Decimal.DigitsValue(init);
      assert s == init + [s[|s| - 1]];
    }
  }

  /** The year field: four digits for 0000..9999, otherwise a sign and at least four digits. */
  function YearText(y: int): (s: string)
    ensures 0 <= y <= 9999 ==> |s| == 4 && Decimal.AllDigits(s)
  {
    if 0 <= y <= 9999 then FixedDigits(y, 4)
    else if y > 9999 then "+" + Decimal.Digits(y)
    else if -y <= 9999 then "-" + FixedDigits(-y, 4)
    else "-" + Decimal.Digits(-y)
  }

  /** `LocalDateKSerializer.serialize`: `LocalDate.format(ISO_LOCAL_DATE)`. */
  function Serialize(c: CivilDate): (s: string)
    requires Valid(c)
    ensures 0 <= c.year <= 9999 ==> |s| == 10 && s[4] == '-' && s[7] == '-'
  {
    YearText(c.year) + "-" + FixedDigits(c.month, 2) + "-" + FixedDigits(c.day, 2)
  }

  /** The text an epoch day is written as (what `LocalDate.toString()` returns). */
  function DateText(d: Date): string
  {
    Serialize(ToCivil(d))
  }

  /** `LocalDateKSerializer.deserialize`: `LocalDate.parse(text, ISO_LOCAL_DATE)`; `None` where it throws. */
  function Deserialize(s: string): (r: Option<CivilDate>)
    ensures r.Some? ==> Valid(r.value)
  {
    if |s| != 10 || s[4] != '-' || s[7] != '-'
       || !Decimal.AllDigits(s[..4]) || !Decimal.AllDigits(s[5..7]) || !Decimal.AllDigits(s[8..])
    then None
    else
      var c := CivilDate(Decimal.DigitsValue(s[..4]), Decimal.DigitsValue(s[5..7]), Decimal.DigitsValue(s[8..]));
      if Valid(c) then Some(c) else None
  }

  /** Every date of years 0000..9999 reads back as itself. */
  lemma DeserializeSerialize(c: CivilDate)
    requires Valid(c) && 0 <= c.year <= 9999
    ensures Deserialize(Serialize(c)) == Some(c)
  {
    var s := Serialize(c);
    assert s[..4] == FixedDigits(c.year, 4);
    assert s[5..7] == FixedDigits(c.month, 2);
    assert s[8..] == FixedDigits(c.day, 2);
    FixedDigitsValue(c.year, 4);
    FixedDigitsValue(c.month, 2);
    FixedDigitsValue(c.day, 2);
  }

  /** Only the exact text `Serialize` writes is accepted: no other spelling of a date parses. */
  lemma SerializeDeserialize(s: string)
    requires Deserialize(s).Some?
    ensures Serialize(Deserialize(s).value) == s
  {
    var c := Deserialize(s).value;
    DigitsValueFixed(s[..4]);
    DigitsValueFixed(s[5..7]);
    DigitsValueFixed(s[8..]);
    assert s == s[..4] + "-" + s[5..7] + "-" + s[8..];
  }

  /** A malformed text is an error, never a substituted default date. */
  lemma DeserializeRejects(s: string)
    requires |s| != 10 || (|s| == 10 && (s[4] != '-' || s[7] != '-' || !Decimal.AllDigits(s[..4])))
    ensures Deserialize(s) == None
  {}
}
