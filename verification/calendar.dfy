/**
  Calendar dates.  A `Date` is an epoch day (days since 1970-01-01 on the
  proleptic Gregorian calendar), which is how `java.time.LocalDate` counts
  internally; `CivilDate` is its year/month/day view.  The conversion follows
  the era decomposition (400-year eras that start on 1 March), split into one
  level per cycle length so that every step is linear arithmetic.
 */
module Calendar {

  type Date = int

  datatype CivilDate = CivilDate(year: int, month: int, day: int)

  predicate IsLeapYear(y: int) { y % 4 == 0 && (y % 100 != 0 || y % 400 == 0) }

  function DaysInMonth(y: int, m: int): int
  {
    if m == 2 then (if IsLeapYear(y) then 29 else 28)
    else if m == 4 || m == 6 || m == 9 || m == 11 then 30
    else 31
  }

  /** A real calendar date: the only values a `LocalDate` can hold. */
  predicate Valid(c: CivilDate) { 1 <= c.month <= 12 && 1 <= c.day <= DaysInMonth(c.year, c.month) }

  /** `ChronoUnit.DAYS.between(from, to)`. */
  function DaysBetween(from: Date, to: Date): int { to - from }

  /** Day offset, within a 400-year era that starts on 1 March, of the start of its year `yoe`. */
  function YearStart(yoe: int): int { 365 * yoe + yoe / 4 - yoe / 100 }

  /** Length of the March-based year `yoe` of an era: it holds the following 29 February when leap. */
  function MarchYearLength(yoe: int): int {
    if yoe % 4 == 3 && (yoe % 100 != 99 || yoe == 399) then 366 else 365
  }

  /** Day offset of the start of month `mp` (0 = March, ..., 11 = February) in a March-based year. */
  function MonthStart(mp: int): int { (153 * mp + 2) / 5 }

  /**
    How many whole steps of length `len` fit into `x`, at most 3: the fourth
    century of an era and the fourth year of a block are one day longer.
   */
  function Steps(x: int, len: int): int
    requires len > 0
  {
    if x / len < 3 then x / len else 3
  }

  /** Splits a day of an era into (year of era, day of that year): centuries, 4-year blocks, years. */
  function YearOfEra(doe: int): (int, int)
    requires 0 <= doe < 146097
  {
    var c := Steps(doe, 36524);
    var r1 := doe - 36524 * c;
    var q := r1 / 1461;
    var r2 := r1 - 1461 * q;
    var a := Steps(r2, 365);
    (100 * c + 4 * q + a, r2 - 365 * a)
  }

  /** `x` is `k` steps of 36524 days plus a remainder below one step, or below one step and a day for the last one. */
  lemma StepsCentury(x: int, k: int, rest: int)
    requires 0 <= k <= 3 && x == 36524 * k + rest
    requires 0 <= rest && (k < 3 ==> rest < 36524) && rest < 36525
    ensures Steps(x, 36524) == k
  {}

  lemma StepsYear(x: int, k: int, rest: int)
    requires 0 <= k <= 3 && x == 365 * k + rest
    requires 0 <= rest && (k < 3 ==> rest < 365) && rest < 366
    ensures Steps(x, 365) == k
  {}

  lemma StepsCenturyBounds(x: int)
    requires 0 <= x < 146097
    ensures var k := Steps(x, 36524);
      0 <= k <= 3 && 0 <= x - 36524 * k < 36525 && (k < 3 ==> x - 36524 * k < 36524)
  {}

  lemma StepsYearBounds(x: int)
    requires 0 <= x < 1461
    ensures var k := Steps(x, 365);
      0 <= k <= 3 && 0 <= x - 365 * k < 366 && (k < 3 ==> x - 365 * k < 365)
  {}

  lemma BlockBounds(r1: int)
    requires 0 <= r1 < 36525
    ensures 0 <= r1 / 1461 <= 24 && 0 <= r1 - 1461 * (r1 / 1461) < 1461
    ensures r1 < 36524 && r1 / 1461 == 24 ==> r1 - 1461 * (r1 / 1461) < 1460
  {}

  lemma BlockOf(x: int, q: int, rest: int)
    requires x == 1461 * q + rest && 0 <= rest < 1461
    ensures x / 1461 == q
  {}

  /**
    The year of era with `c` centuries, `q` four-year blocks and `a` years
    past the block: where it starts, and when it is long.
   */
  lemma YearSplit(c: int, q: int, a: int)
    requires 0 <= c <= 3 && 0 <= q <= 24 && 0 <= a <= 3
    ensures var yoe := 100 * c + 4 * q + a;
      && 0 <= yoe < 400
      && yoe / 100 == c && yoe % 100 == 4 * q + a
      && yoe / 4 == 25 * c + q && yoe % 4 == a
      && YearStart(yoe) == 36524 * c + 1461 * q + 365 * a
      && (MarchYearLength(yoe) == 366 <==> a == 3 && (q != 24 || c == 3))
  {
    var yoe := 100 * c + 4 * q + a;
    DivMod100(yoe, c, 4 * q + a);
    DivMod4(yoe, 25 * c + q, a);
  }

  lemma DivMod4(x: int, q: int, r: int)
    requires x == 4 * q + r && 0 <= r < 4
    ensures x / 4 == q && x % 4 == r
  {}

  lemma DivMod100(x: int, q: int, r: int)
    requires x == 100 * q + r && 0 <= r < 100
    ensures x / 100 == q && x % 100 == r
  {}

  lemma DivMod400(x: int, q: int, r: int)
    requires x == 400 * q + r && 0 <= r < 400
    ensures x / 400 == q && x % 400 == r
  {}

  lemma DivMod146097(x: int, q: int, r: int)
    requires x == 146097 * q + r && 0 <= r < 146097
    ensures x / 146097 == q && x % 146097 == r
  {}

  /** The split lands inside the year it names, at the right offset. */
  lemma YearOfEraCorrect(doe: int)
    requires 0 <= doe < 146097
    ensures var (yoe, doy) := YearOfEra(doe);
      0 <= yoe < 400 && 0 <= doy < MarchYearLength(yoe) && YearStart(yoe) + doy == doe
  {
    var c := Steps(doe, 36524);
    var r1 := doe - 36524 * c;
    assert 0 <= c <= 3 && 0 <= r1 < 36525 && (c < 3 ==> r1 < 36524) by { StepsCenturyBounds(doe); }
    var q := r1 / 1461;
    var r2 := r1 - 1461 * q;
    assert 0 <= q <= 24 && 0 <= r2 < 1461 && (q == 24 && c < 3 ==> r2 < 1460) by { BlockBounds(r1); }
    var a := Steps(r2, 365);
    var doy := r2 - 365 * a;
    assert 0 <= a <= 3 && 0 <= doy < 366 && (a < 3 ==> doy < 365) by { StepsYearBounds(r2); }
    var yoe := 100 * c + 4 * q + a;
    assert 0 <= yoe < 400 && YearStart(yoe) == 36524 * c + 1461 * q + 365 * a
        && (MarchYearLength(yoe) == 366 <==> a == 3 && (q != 24 || c == 3)) by {
      YearSplit(c, q, a);
    }
    assert doy < MarchYearLength(yoe) && YearStart(yoe) + doy == doe;
    assert YearOfEra(doe) == (yoe, doy) by { YearOfEraOfParts(c, q, a, doy); }
  }

  lemma YearOfEraInverse(yoe: int, doy: int)
    requires 0 <= yoe < 400 && 0 <= doy < MarchYearLength(yoe)
    ensures YearOfEra(YearStart(yoe) + doy) == (yoe, doy)
  {
    var c := yoe / 100;
    var q := (yoe % 100) / 4;
    var a := yoe % 4;
    assert yoe == 100 * c + 4 * q + a && 0 <= c <= 3 && 0 <= q <= 24 && 0 <= a <= 3 by {
      DivMod4(yoe % 100, q, a);
    }
    YearSplit(c, q, a);
    YearOfEraOfParts(c, q, a, doy);
  }

  lemma YearOfEraOfParts(c: int, q: int, a: int, doy: int)
    requires 0 <= c <= 3 && 0 <= q <= 24 && 0 <= a <= 3
    requires 0 <= doy < (if a == 3 && (q != 24 || c == 3) then 366 else 365)
    ensures 0 <= 36524 * c + 1461 * q + 365 * a + doy < 146097
    ensures YearOfEra(36524 * c + 1461 * q + 365 * a + doy) == (100 * c + 4 * q + a, doy)
  {
    var doe := 36524 * c + 1461 * q + 365 * a + doy;
    StepsCentury(doe, c, 1461 * q + 365 * a + doy);
    BlockOf(1461 * q + 365 * a + doy, q, 365 * a + doy);
    StepsYear(365 * a + doy, a, doy);
  }

  lemma MonthOfYear(doy: int)
    requires 0 <= doy < 366
    ensures var mp := (5 * doy + 2) / 153;
      0 <= mp < 12 && MonthStart(mp) <= doy < MonthStart(mp + 1)
  {}

  lemma MonthOfYearInverse(mp: int, day: int)
    requires 0 <= mp < 12 && 1 <= day && MonthStart(mp) + day <= MonthStart(mp + 1)
    ensures (5 * (MonthStart(mp) + day - 1) + 2) / 153 == mp
  {}

  /** The March-based year `yoe` of era `era` is long exactly when the calendar year it ends in is leap. */
  lemma LeapCorrespondence(era: int, yoe: int)
    requires 0 <= yoe < 400
    ensures MarchYearLength(yoe) == 366 <==> IsLeapYear(era * 400 + yoe + 1)
  {
    var n := yoe + 1;
    var y := era * 400 + n;
    assert y % 4 == n % 4 by { DivMod4(y, 100 * era + n / 4, n % 4); }
    assert y % 100 == n % 100 by { DivMod100(y, 4 * era + n / 100, n % 100); }
    assert y % 400 == n % 400 by { DivMod400(y, era + n / 400, n % 400); }
    assert n % 4 == 0 <==> yoe % 4 == 3;
    assert n % 100 == 0 <==> yoe % 100 == 99;
    assert n % 400 == 0 <==> yoe == 399;
  }

  /** The calendar date at day `doy` of the March-based year `yoe` of era `era`. */
  function CivilOfEraDay(era: int, yoe: int, doy: int): (c: CivilDate)
    requires 0 <= yoe < 400 && 0 <= doy < MarchYearLength(yoe)
    ensures Valid(c)
  {
    var mp := (5 * doy + 2) / 153;
    var month := if mp < 10 then mp + 3 else mp - 9;
    MonthOfYear(doy);
    LeapCorrespondence(era, yoe);
    CivilDate(if month <= 2 then era * 400 + yoe + 1 else era * 400 + yoe, month, doy - MonthStart(mp) + 1)
  }

  /** `LocalDate.ofEpochDay`: the calendar date of an epoch day, always a real date. */
  function ToCivil(d: Date): (c: CivilDate)
    ensures Valid(c)
  {
    var z := d + 719468;
    var doe := z % 146097;
    YearOfEraCorrect(doe);
    var split := YearOfEra(doe);
    CivilOfEraDay(z / 146097, split.0, split.1)
  }

  /** `LocalDate.toEpochDay`. */
  function FromCivil(c: CivilDate): Date
  {
    var y := if c.month <= 2 then c.year - 1 else c.year;
    var mp := if c.month > 2 then c.month - 3 else c.month + 9;
    (y / 400) * 146097 + YearStart(y % 400) + MonthStart(mp) + c.day - 1 - 719468
  }

  /** The epoch day of the calendar date at day `doy` of the March-based year `yoe` of era `era`. */
  lemma FromCivilOfEraDay(era: int, yoe: int, doy: int)
    requires 0 <= yoe < 400 && 0 <= doy < MarchYearLength(yoe)
    ensures FromCivil(CivilOfEraDay(era, yoe, doy)) == 146097 * era + YearStart(yoe) + doy - 719468
  {
    var c := CivilOfEraDay(era, yoe, doy);
    var mp := (5 * doy + 2) / 153;
    assert 0 <= mp < 12 && MonthStart(mp) <= doy < MonthStart(mp + 1) by { MonthOfYear(doy); }
    var y := if c.month <= 2 then c.year - 1 else c.year;
    assert y == era * 400 + yoe;
    assert y / 400 == era && y % 400 == yoe by { DivMod400(y, era, yoe); }
    assert (if c.month > 2 then c.month - 3 else c.month + 9) == mp;
  }

  /** Every epoch day survives the trip through its calendar date. */
  lemma FromCivilToCivil(d: Date)
    ensures FromCivil(ToCivil(d)) == d
  {
    var z := d + 719468;
    var era, doe := z / 146097, z % 146097;
    var split := YearOfEra(doe);
    var yoe, doy := split.0, split.1;
    assert 0 <= yoe < 400 && 0 <= doy < MarchYearLength(yoe) && YearStart(yoe) + doy == doe by {
      YearOfEraCorrect(doe);
    }
    ToCivilOfEraDay(era, yoe, doy, d);
    FromCivilOfEraDay(era, yoe, doy);
  }

  /** The March-based coordinates of a real calendar date, as `FromCivil` computes them. */
  function MarchCoordinates(c: CivilDate): (r: (int, int, int))
  {
    var y := if c.month <= 2 then c.year - 1 else c.year;
    var mp := if c.month > 2 then c.month - 3 else c.month + 9;
    (y / 400, y % 400, MonthStart(mp) + c.day - 1)
  }

  lemma MarchCoordinatesInverse(c: CivilDate)
    requires Valid(c)
    ensures var (era, yoe, doy) := MarchCoordinates(c);
      0 <= yoe < 400 && 0 <= doy < MarchYearLength(yoe) && CivilOfEraDay(era, yoe, doy) == c
  {
    var y := if c.month <= 2 then c.year - 1 else c.year;
    var mp := if c.month > 2 then c.month - 3 else c.month + 9;
    var era, yoe := y / 400, y % 400;
    assert 0 <= yoe < 400 && era * 400 + yoe == y;
    assert MarchYearLength(yoe) == 366 <==> IsLeapYear(y + 1) by { LeapCorrespondence(era, yoe); }
    var doy := MonthStart(mp) + c.day - 1;
    assert 0 <= doy < MarchYearLength(yoe);
    assert (5 * doy + 2) / 153 == mp by {
      if mp < 11 {
        MonthOfYearInverse(mp, c.day);
      }
    }
    assert MarchCoordinates(c) == (era, yoe, doy);
  }

  /** The epoch day at day `doy` of the March-based year `yoe` of era `era` has the calendar date of that day. */
  lemma ToCivilOfEraDay(era: int, yoe: int, doy: int, d: Date)
    requires 0 <= yoe < 400 && 0 <= doy < MarchYearLength(yoe)
    requires d == 146097 * era + YearStart(yoe) + doy - 719468
    ensures ToCivil(d) == CivilOfEraDay(era, yoe, doy)
  {
    var doe := YearStart(yoe) + doy;
    assert YearOfEra(doe) == (yoe, doy) by { YearOfEraInverse(yoe, doy); }
    assert (d + 719468) / 146097 == era && (d + 719468) % 146097 == doe by {
      DivMod146097(d + 719468, era, doe);
    }
  }

  /** Every real calendar date survives the trip through its epoch day. */
  lemma ToCivilFromCivil(c: CivilDate)
    requires Valid(c)
    ensures ToCivil(FromCivil(c)) == c
  {
    MarchCoordinatesInverse(c);
    var m := MarchCoordinates(c);
    var era, yoe, doy := m.0, m.1, m.2;
    assert FromCivil(c) == 146097 * era + YearStart(yoe) + doy - 719468;
    ToCivilOfEraDay(era, yoe, doy, FromCivil(c));
    assert CivilOfEraDay(era, yoe, doy) == c;
  }

  /**
    The clock the application reads: today's date, the current wall-clock time in
    epoch milliseconds, and the conversion of a date at 15:00 in the default time
    zone to epoch milliseconds (time-zone rules are not modelled, so it is a parameter).
   */
  datatype Clock = Clock(today: Date, nowMillis: int, at15: Date -> int)
}
