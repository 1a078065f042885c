/** Dates and day numbers (date.c:221-253, 343-364, 535-547, 631-639).  The
    constants with fractions are written as exact fractions: 365.25 is 1461/4. */
module Calendar {

  /** Division as C does it, towards zero. */
  function CDiv(a: int, b: nat): int
    requires b > 0
  {
    if a >= 0 then a / b else -((-a) / b)
  }

  /** The remainder that goes with it. */
  function CRem(a: int, b: nat): int
    requires b > 0
  {
    if a >= 0 then a % b else -((-a) % b)
  }

  // ---------------------------------------------------------------------
  // The calendar
  // ---------------------------------------------------------------------

  datatype Date = Date(y: int, m: int, d: int)

  predicate Leap(y: int) {
    y % 4 == 0 && (y % 100 == 0 ==> y % 400 == 0)
  }

  function DaysIn(y: int, m: int): int {
    if m == 2 then if Leap(y) then 29 else 28
    else if m == 4 || m == 6 || m == 9 || m == 11 then 30
    else 31
  }

  /** A date of the Gregorian calendar.  The parser takes years with a minus sign, too
      (date.c:271-275, 290), so there is no first year. */
  predicate ValidDate(t: Date) {
    1 <= t.m <= 12 && 1 <= t.d <= DaysIn(t.y, t.m)
  }

  /** The day after. */
  function NextDay(t: Date): (r: Date)
    requires ValidDate(t)
    ensures ValidDate(r)
  {
    if t.d < DaysIn(t.y, t.m) then Date(t.y, t.m, t.d + 1)
    else if t.m < 12 then Date(t.y, t.m + 1, 1)
    else Date(t.y + 1, 1, 1)
  }

  // ---------------------------------------------------------------------
  // Day numbers
  // ---------------------------------------------------------------------

  /** January and February are the 13th and 14th month of the year before. */
  function YearFrom(t: Date): int {
    if t.m <= 2 then t.y - 1 else t.y
  }

  function MonthFrom(t: Date): int {
    if t.m <= 2 then t.m + 12 else t.m
  }

  /** computeJD: the number of a day that begins at midnight. */
  function DayNumber(t: Date): int {
    var y, m := YearFrom(t), MonthFrom(t);
    var a := CDiv(y, 100);
    var b := 2 - a + CDiv(a, 4);
    CDiv(1461 * (y + 4716), 4) + CDiv(306001 * (m + 1), 10000) + t.d + b - 1524
  }

  /** computeYMD. */
  function DateOf(z: int): Date {
    FromJulian(Corrected(z))
  }

  /** The day number with the centuries corrected. */
  function Corrected(z: int): int {
    var a := CDiv(4 * z - 7468865, 146097);
    z + 1 + a - CDiv(a, 4) + 1524
  }

  /** The part of computeYMD after the centuries are corrected. */
  function FromJulian(b: int): Date {
    var c := CDiv(20 * b - 2442, 7305);
    var d := CDiv(1461 * c, 4);
    var e := CDiv((b - d) * 10000, 306001);
    var x1 := CDiv(306001 * e, 10000);
    var m := if e < 14 then e - 1 else e - 13;
    Date(if m > 2 then c - 4716 else c - 4715, m, b - d - x1)
  }

  /** Days before a month, from March on, and 122 more. */
  function X2(m: int): int {
    if m <= 3 then 122 else if m == 4 then 153 else if m == 5 then 183 else if m == 6 then 214
    else if m == 7 then 244 else if m == 8 then 275 else if m == 9 then 306 else if m == 10 then 336
    else if m == 11 then 367 else if m == 12 then 397 else if m == 13 then 428 else 459
  }

  lemma X2Is(m: int)
    requires 3 <= m <= 14
    ensures CDiv(306001 * (m + 1), 10000) == X2(m)
  {
  }

  // ---------------------------------------------------------------------
  // What rounding towards zero does to day numbers
  // ---------------------------------------------------------------------

  /** A century before the year 0 that is no leap year. */
  predicate OddCentury(y: int) {
    y < 0 && y % 100 == 0 && y % 400 != 0
  }

  /** By how much the number of a day is too large, by the year from March on. */
  function Excess(y: int): int {
    (if OddCentury(y) then 1 else 0) + if y < -4716 && y % 4 != 0 then 1 else 0
  }

  /** Days before the first of March of a year, less 123. */
  function YearDays(y: int): int {
    1461 * (y + 4716) / 4 - y / 100 + y / 100 / 4 - 1522
  }

  /** The number of a day, with all divisions rounded down. */
  function Number(t: Date): int {
    YearDays(YearFrom(t)) + X2(MonthFrom(t)) + t.d
  }

  lemma CenturyRounded(y: int)
    ensures 2 - CDiv(y, 100) + CDiv(CDiv(y, 100), 4) == 2 - y / 100 + y / 100 / 4 + if OddCentury(y) then 1 else 0
  {
    var a, u := y / 100, y % 100;
    assert y % 400 == 0 <==> u == 0 && a % 4 == 0;
    if y < 0 {
      assert CDiv(y, 100) == if u == 0 then a else a + 1;
    }
  }

  lemma YearRounded(y: int)
    ensures CDiv(1461 * (y + 4716), 4) == 1461 * (y + 4716) / 4 + if y < -4716 && y % 4 != 0 then 1 else 0
  {
    var k := y + 4716;
    var q, r := k / 4, k % 4;
    assert k == 4 * q + r && y % 4 == r;
    Rounded(1461 * q, r, 1461 * k);
  }

  lemma Rounded(p: int, r: int, n: int)
    requires 0 <= r < 4 && n == 4 * p + 1461 * r
    ensures CDiv(n, 4) == n / 4 + if n < 0 && r != 0 then 1 else 0
  {
  }

  /** Where the source's numbers are off, for any date. */
  lemma NumberOf(t: Date)
    requires ValidDate(t)
    ensures DayNumber(t) == Number(t) + Excess(YearFrom(t))
  {
    CenturyRounded(YearFrom(t));
    YearRounded(YearFrom(t));
    X2Is(MonthFrom(t));
  }

  lemma YearLength(y: int)
    ensures YearDays(y) == YearDays(y - 1) + if Leap(y) then 366 else 365
  {
    var q, r := y / 4, y % 4;
    var a, u := y / 100, y % 100;
    assert 1461 * (y + 4716) / 4 == 1461 * (q + 1179) + 1461 * r / 4;
    assert 1461 * (y - 1 + 4716) / 4 == if r == 0 then 1461 * (q + 1178) + 1095 else 1461 * (q + 1179) + 1461 * (r - 1) / 4;
    assert (y - 1) / 100 == if u == 0 then a - 1 else a;
    assert u == 0 ==> (a - 1) / 4 == if a % 4 == 0 then a / 4 - 1 else a / 4;
    assert y % 400 == 0 <==> u == 0 && a % 4 == 0;
    assert r == 0 <==> 1461 * r / 4 == 0;
  }

  lemma NextInCalendar(t: Date)
    requires ValidDate(t)
    ensures Number(NextDay(t)) == Number(t) + 1
  {
    if t.m == 2 && t.d == DaysIn(t.y, 2) { YearLength(t.y); }
  }

  /** Days that follow each other have numbers that follow each other if and only if the
      number of neither, or of both, is too large. */
  lemma NextNumber(t: Date)
    requires ValidDate(t)
    ensures DayNumber(NextDay(t)) == DayNumber(t) + 1 <==> Excess(YearFrom(NextDay(t))) == Excess(YearFrom(t))
    ensures 0 <= YearFrom(t) ==> DayNumber(NextDay(t)) == DayNumber(t) + 1
  {
    NumberOf(t);
    NumberOf(NextDay(t));
    NextInCalendar(t);
  }

  /** Before the year -100 a number is left out, and a year later one is given twice. */
  lemma NumbersJump()
    ensures DayNumber(Date(-100, 2, 28)) + 2 == DayNumber(NextDay(Date(-100, 2, 28)))
    ensures DayNumber(Date(-99, 2, 28)) == DayNumber(NextDay(Date(-99, 2, 28)))
  {
    assert CDiv(-101, 100) == -1 && CDiv(-100, 100) == -1 && CDiv(-1, 4) == 0;
    assert CDiv(1461 * (-101 + 4716), 4) == 1685628 && CDiv(1461 * (-100 + 4716), 4) == 1685994 && CDiv(1461 * (-99 + 4716), 4) == 1686359;
  }

  // ---------------------------------------------------------------------
  // From numbers to dates
  // ---------------------------------------------------------------------

  /** What computeYMD finds for the centuries.  Before the year 400 rounding towards
      zero does no harm, unless there is nothing to round. */
  lemma Centuries(a: int, w: int)
    requires 0 <= w < 146097 && (a >= 4 || w > 0)
    ensures var a0 := CDiv(146097 * (a - 4) + w, 146097); a0 - CDiv(a0, 4) == a - a / 4 - 3
  {
    var n := 146097 * (a - 4) + w;
    if a >= 4 {
      assert n / 146097 == a - 4;
    } else {
      assert -n == 146097 * (3 - a) + (146097 - w);
      assert (-n) / 146097 == 3 - a;
    }
  }

  /** Days of a year from March on: the month and day are found again. */
  lemma MonthAgain(m: int, d: int)
    requires 3 <= m <= 14 && 1 <= d <= 31 && (m == 4 || m == 6 || m == 9 || m == 11 ==> d <= 30) && (m == 14 ==> d <= 29)
    ensures 123 <= X2(m) + d <= 488 && CDiv((X2(m) + d) * 10000, 306001) == m + 1
  {
  }

  /** The year is found again: k is its number from 4716 B.C. on, x the day in it from
      March on. */
  lemma YearAgain(k: int, x: int)
    requires k >= 0 && 123 <= x <= 488 && (x == 488 ==> k % 4 == 3)
    ensures var b := 1461 * k / 4 + x; CDiv(20 * b - 2442, 7305) == k
  {
    var b := 1461 * k / 4 + x;
    var r := k % 4;
    assert 4 * (1461 * k / 4) == 1461 * k - r;
    assert 20 * b - 2442 == 7305 * k - 5 * r + 20 * x - 2442;
    assert 0 <= 20 * x - 2442 - 5 * r < 7305;
  }

  /** The number of a day, by century and day in the century. */
  lemma NumberIs(t: Date)
    requires ValidDate(t)
    ensures var y := YearFrom(t); var a, u := y / 100, y % 100;
      var v := 1461 * u / 4 + X2(MonthFrom(t)) + t.d;
      && Number(t) == 36524 * a + a / 4 + v + 1720997
      && 1461 * (y + 4716) / 4 == 36525 * a + 1722519 + 1461 * u / 4
  {
    var y := YearFrom(t);
    var a, u := y / 100, y % 100;
    assert 1461 * (y + 4716) == 4 * (36525 * a + 1722519) + 1461 * u;
  }

  /** The day in the century, in quarters. */
  function Quarters(t: Date): int {
    var y := YearFrom(t);
    4 * (1461 * (y % 100) / 4 + X2(MonthFrom(t)) + t.d) - 489 - y / 100 % 4
  }

  lemma QuartersIn(t: Date)
    requires ValidDate(t)
    ensures 0 <= Quarters(t) < 146097
    ensures Quarters(t) == 0 && YearFrom(t) < 400 ==> t == Date(300, 3, 1) || OddCentury(YearFrom(t))
    ensures OddCentury(YearFrom(t)) ==> Quarters(t) + 4 < 146097
  {
    var y, m := YearFrom(t), MonthFrom(t);
    var a, u := y / 100, y % 100;
    MonthAgain(m, t.d);
    var x := X2(m) + t.d;
    assert x == 488 ==> Leap(t.y) && t.m == 2;
    assert 4 * (1461 * u / 4) <= 1461 * u;
    if u < 99 {
      assert 4 * (1461 * u / 4 + x) <= 1461 * 98 + 4 * 488;
    } else if x == 488 {
      assert t.y == 100 * (a + 1);
      assert a % 4 == 3;
    }
    if Quarters(t) == 0 {
      assert x == 123 && u == 0 && a % 4 == 3;
      assert m == 3 && t.d == 1;
    }
  }

  /** The day number that computeYMD has without the centuries' correction. */
  function JulianNumber(t: Date): int {
    1461 * (YearFrom(t) + 4716) / 4 + X2(MonthFrom(t)) + t.d
  }

  /** The correction for the centuries is undone. */
  lemma CenturiesUndone(z: int, a: int, v: int)
    requires z == 36524 * a + a / 4 + v + 1720997
    requires var w := 4 * v - 489 - a % 4; 0 <= w < 146097 && (a >= 4 || w > 0)
    ensures Corrected(z) == 36525 * a + 1722519 + v
  {
    var w := 4 * v - 489 - a % 4;
    assert 4 * (a / 4) == a - a % 4;
    assert 4 * z - 7468865 == 146097 * (a - 4) + w;
    Centuries(a, w);
  }

  lemma JulianFound(t: Date, e: int)
    requires ValidDate(t) && 0 <= e && Quarters(t) + 4 * e < 146097 && (YearFrom(t) >= 400 || Quarters(t) + 4 * e > 0)
    ensures Corrected(Number(t) + e) == JulianNumber(t) + e
  {
    NumberIs(t);
    QuartersIn(t);
    var y := YearFrom(t);
    CenturiesUndone(Number(t) + e, y / 100, 1461 * (y % 100) / 4 + X2(MonthFrom(t)) + t.d + e);
  }

  lemma CommonFound(t: Date)
    requires ValidDate(t) && !OddCentury(YearFrom(t)) && t != Date(300, 3, 1)
    ensures Corrected(Number(t)) == JulianNumber(t)
  {
    QuartersIn(t);
    JulianFound(t, 0);
  }

  lemma OddFound(t: Date)
    requires ValidDate(t) && OddCentury(YearFrom(t))
    ensures Corrected(Number(t) + 1) == JulianNumber(t) + 1
  {
    QuartersIn(t);
    JulianFound(t, 1);
  }

  lemma DateFrom(k: int, m: int, d: int)
    requires k >= 0 && 3 <= m <= 14
    requires var b := 1461 * k / 4 + X2(m) + d; CDiv(20 * b - 2442, 7305) == k && CDiv((X2(m) + d) * 10000, 306001) == m + 1
    requires CDiv(306001 * (m + 1), 10000) == X2(m)
    ensures FromJulian(1461 * k / 4 + X2(m) + d) == if m <= 12 then Date(k - 4716, m, d) else Date(k - 4715, m - 12, d)
  {
    assert CDiv(1461 * k, 4) == 1461 * k / 4;
  }

  /** The year, the month and the day are found again. */
  lemma JulianAgain(t: Date)
    requires ValidDate(t) && YearFrom(t) >= -4716
    ensures FromJulian(JulianNumber(t)) == t
  {
    var k, m := YearFrom(t) + 4716, MonthFrom(t);
    var x := X2(m) + t.d;
    MonthAgain(m, t.d);
    if t.m == 2 && t.d == 29 { LeapDay(t.y); }
    YearAgain(k, x);
    X2Is(m);
    DateFrom(k, m, t.d);
  }

  lemma LeapDay(y: int)
    requires Leap(y)
    ensures (y - 1 + 4716) % 4 == 3
  {
  }

  /** A date found for a number is of the year that was found. */
  lemma YearFound(b: int, t: Date)
    requires ValidDate(t) && FromJulian(b) == t
    ensures CDiv(20 * b - 2442, 7305) == YearFrom(t) + 4716
  {
  }

  /** One day further on, another date is found. */
  lemma NotTwice(t: Date)
    requires ValidDate(t) && YearFrom(t) >= -4716
    ensures FromJulian(JulianNumber(t) + 1) != t
  {
    var b, k, m := JulianNumber(t) + 1, YearFrom(t) + 4716, MonthFrom(t);
    if FromJulian(b) == t {
      YearFound(b, t);
      assert CDiv(1461 * k, 4) == 1461 * k / 4;
      MonthAgain(m, t.d);
      X2Is(m);
      var x := X2(m) + t.d + 1;
      assert false;
    }
  }

  /** Before March of the year -4716 no date is found that late. */
  lemma TooEarly(t: Date, b: int)
    requires ValidDate(t) && YearFrom(t) < -4716 && b >= CDiv(1461 * (YearFrom(t) + 4716), 4) + 123
    ensures FromJulian(b) != t
  {
    if FromJulian(b) == t {
      YearFound(b, t);
      assert false;
    }
  }

  /** A later number is corrected to a later one. */
  lemma CorrectedGrows(z: int, w: int)
    requires z <= w
    ensures Corrected(z) <= Corrected(w)
  {
    var a, c := CDiv(4 * z - 7468865, 146097), CDiv(4 * w - 7468865, 146097);
    assert a <= c;
    assert a - CDiv(a, 4) <= c - CDiv(c, 4);
  }

  /** The dates that computeYMD finds again. */
  predicate ReadBack(t: Date) {
    -4716 <= YearFrom(t) && !OddCentury(YearFrom(t)) && t != Date(300, 3, 1)
  }

  lemma Found(t: Date)
    requires ValidDate(t) && ReadBack(t)
    ensures DateOf(DayNumber(t)) == t
  {
    assert DayNumber(t) == Number(t) by { NumberOf(t); }
    CommonFound(t);
    JulianAgain(t);
  }

  lemma NotFound(t: Date)
    requires ValidDate(t) && -4716 <= YearFrom(t) && OddCentury(YearFrom(t))
    ensures DateOf(DayNumber(t)) != t
  {
    assert DayNumber(t) == Number(t) + 1 by { NumberOf(t); }
    OddFound(t);
    NotTwice(t);
  }

  lemma CorrectedStep(z: int)
    ensures Corrected(z) + 1 <= Corrected(z + 1)
  {
    var a, c := CDiv(4 * z - 7468865, 146097), CDiv(4 * z + 4 - 7468865, 146097);
    assert a <= c;
    assert a - CDiv(a, 4) <= c - CDiv(c, 4);
  }

  lemma EarlyLeap(t: Date)
    requires ValidDate(t) && YearFrom(t) < -4716 && YearFrom(t) % 4 == 0
    ensures Corrected(DayNumber(t)) >= JulianNumber(t)
  {
    NumberOf(t);
    if OddCentury(YearFrom(t)) { OddFound(t); } else { CommonFound(t); }
  }

  lemma EarlyCommon(t: Date)
    requires ValidDate(t) && YearFrom(t) < -4716 && YearFrom(t) % 4 != 0
    ensures Corrected(DayNumber(t)) >= JulianNumber(t) + 1
  {
    assert DayNumber(t) == Number(t) + 1 by { NumberOf(t); }
    CommonFound(t);
    CorrectedStep(Number(t));
  }

  lemma CorrectedEarly(t: Date)
    requires ValidDate(t) && YearFrom(t) < -4716
    ensures Corrected(DayNumber(t)) >= CDiv(1461 * (YearFrom(t) + 4716), 4) + 123
  {
    if YearFrom(t) % 4 == 0 { EarlyLeap(t); } else { EarlyCommon(t); }
    MonthAgain(MonthFrom(t), t.d);
    YearRounded(YearFrom(t));
  }

  /** Nor is it found for any later number. */
  lemma NotFoundEarly(t: Date, z: int)
    requires ValidDate(t) && YearFrom(t) < -4716 && DayNumber(t) <= z
    ensures DateOf(z) != t
  {
    CorrectedEarly(t);
    CorrectedGrows(DayNumber(t), z);
    TooEarly(t, Corrected(z));
  }

  /** On the first of March of the year 300 it finds the day before. */
  lemma DateOff()
    ensures DateOf(DayNumber(Date(300, 3, 1))) == Date(300, 2, 29) && !Leap(300)
  {
    assert DayNumber(Date(300, 3, 1)) == 1830692;
    assert CDiv(4 * 1830692 - 7468865, 146097) == -1;
    assert CDiv(20 * 1832216 - 2442, 7305) == 5015 && CDiv(1461 * 5015, 4) == 1831728;
  }

  /** On that of the year -100, the day after. */
  lemma DateOffBefore()
    ensures DateOf(DayNumber(Date(-100, 3, 1))) == Date(-100, 3, 2)
  {
    assert DayNumber(Date(-100, 3, 1)) == 1684596;
    assert CDiv(4 * 1684596 - 7468865, 146097) == -4;
    assert CDiv(20 * 1686118 - 2442, 7305) == 4616 && CDiv(1461 * 4616, 4) == 1685994;
  }

  /** computeYMD finds the date of a day number again if and only if its year, from March
      on, is -4716 or later and no odd century, and it is not the first of March 300. */
  lemma InverseExactly(t: Date)
    requires ValidDate(t)
    ensures DateOf(DayNumber(t)) == t <==> ReadBack(t)
  {
    if ReadBack(t) {
      Found(t);
    } else if YearFrom(t) < -4716 {
      NotFoundEarly(t, DayNumber(t));
    } else if OddCentury(YearFrom(t)) {
      NotFound(t);
    } else {
      DateOff();
    }
  }

  /** The day that has number 0, or a later one. */
  predicate FromEpoch(t: Date) {
    t.y > -4713 || (t.y == -4713 && (t.m > 11 || (t.m == 11 && t.d >= 24)))
  }

  lemma EpochIs(t: Date)
    requires ValidDate(t)
    ensures DayNumber(t) >= 0 <==> FromEpoch(t)
  {
    var y := YearFrom(t);
    NumberOf(t);
    EpochYear(y);
    MonthAgain(MonthFrom(t), t.d);
  }

  lemma EpochYear(y: int)
    ensures y >= -4712 ==> YearDays(y) >= -25
    ensures y == -4713 ==> YearDays(y) == -391
    ensures y <= -4714 ==> YearDays(y) <= -756
  {
    var a, u := y / 100, y % 100;
    assert y == 100 * a + u && 1461 * (y + 4716) == 4 * (36525 * a + 1722519) + 1461 * u;
  }

  /** Before day 0 the number after that of a date is not read back as it either. */
  lemma NotFoundLater(t: Date)
    requires ValidDate(t) && DayNumber(t) < 0
    ensures DateOf(DayNumber(t) + 1) != t
  {
    if YearFrom(t) < -4716 {
      NotFoundEarly(t, DayNumber(t) + 1);
    } else {
      BeforeEpoch(t);
      NotTwice(t);
    }
  }

  lemma BeforeEpoch(t: Date)
    requires ValidDate(t) && -4716 <= YearFrom(t) && DayNumber(t) < 0
    ensures Corrected(DayNumber(t) + 1) == JulianNumber(t) + 1 && !OddCentury(YearFrom(t))
  {
    var y := YearFrom(t);
    EpochIs(t);
    assert y <= -4713;
    assert !OddCentury(y);
    assert DayNumber(t) == Number(t) by { NumberOf(t); }
    MonthAgain(MonthFrom(t), t.d);
    assert Quarters(t) + 4 < 146097 && Quarters(t) > 0 by { QuartersIn(t); }
    JulianFound(t, 1);
  }

  /** A number is read back as a date if and only if it is its number and that can be
      read back; the next number matters where rounding towards zero adds a day. */
  lemma ReadAgain(t: Date, z: int)
    requires ValidDate(t) && (z == DayNumber(t) || (DayNumber(t) < 0 && z == DayNumber(t) + 1))
    ensures DateOf(z) == t <==> ReadBack(t) && z == DayNumber(t)
  {
    if z == DayNumber(t) { InverseExactly(t); } else { NotFoundLater(t); }
  }
}
