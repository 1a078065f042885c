/** The date and time object (date.c:221-253, 343-364, 535-547, 631-639). */
module DateTimes {
  import opened Calendar

  /** A number with a fraction as C makes it an integer, towards zero. */
  function CInt(r: real): int {
    if r >= 0.0 then r.Floor else -((-r).Floor)
  }

  /** The arithmetic of computeJD. */
  method FindNumber(y0: int, mo0: int, d: int) returns (z: int)
    ensures z == DayNumber(Date(y0, mo0, d))
  {
    var y, mo := y0, mo0;
    if mo <= 2 {
      y := y - 1;
      mo := mo + 12;
    }
    var a := CDiv(y, 100);
    var b := 2 - a + CDiv(a, 4);
    var x1 := CDiv(1461 * (y + 4716), 4);
    var x2 := CDiv(306001 * (mo + 1), 10000);
    z := x1 + x2 + d + b - 1524;
  }

  /** The arithmetic of computeYMD. */
  method FindDate(z: int) returns (y: int, month: int, day: int)
    ensures Date(y, month, day) == DateOf(z)
  {
    var a := CDiv(4 * z - 7468865, 146097);
    a := z + 1 + a - CDiv(a, 4);
    y, month, day := FindJulian(a + 1524);
  }

  method FindJulian(b: int) returns (y: int, month: int, day: int)
    ensures Date(y, month, day) == FromJulian(b)
  {
    var c := CDiv(20 * b - 2442, 7305);
    var d := CDiv(1461 * c, 4);
    var e := CDiv((b - d) * 10000, 306001);
    var x1 := CDiv(306001 * e, 10000);
    day := b - d - x1;
    month := if e < 14 then e - 1 else e - 13;
    y := if month > 2 then c - 4716 else c - 4715;
  }

  /** The part of a day that is over; more than one at hour 24, which the parser takes. */
  function DayPart(h: int, m: int, s: real): real {
    (h as real * 3600.0 + m as real * 60.0 + s) / 86400.0
  }

  /** The same in UTC, for a zone that is tz minutes ahead. */
  function InZone(h: int, m: int, s: real, tz: int): real {
    DayPart(h, m, s) - tz as real * 60.0 / 86400.0
  }

  /** Midnight is 0; an hour, a minute and a second later are the parts of a day that
      they are. */
  lemma DayPartIs(h: int, m: int, s: real, x: real)
    ensures DayPart(0, 0, 0.0) == 0.0 && DayPart(24, 0, 0.0) == 1.0
    ensures DayPart(h + 1, m, s) == DayPart(h, m + 60, s) == DayPart(h, m, s) + 1.0 / 24.0
    ensures DayPart(h, m + 1, s) == DayPart(h, m, s + 60.0) == DayPart(h, m, s) + 1.0 / 1440.0
    ensures DayPart(h, m, s + x) == DayPart(h, m, s) + x / 86400.0
  {
  }

  /** A time in a zone is the instant that UTC has as many minutes earlier. */
  lemma InZoneIs(h: int, m: int, s: real, tz: int)
    ensures InZone(h, m, s, tz) == DayPart(h, m - tz, s)
  {
  }

  class DateTime {
    var rJD: real
    var Y: int
    var M: int
    var D: int
    var h: int
    var m: int
    var s: real
    var tz: int
    var validYMD: bool
    var validHMS: bool
    var validJD: bool
    var validTZ: bool

    function Day(): Date
      reads this
    {
      if validYMD then Date(Y, M, D) else Date(2000, 1, 1)
    }

    function TimeOfDay(): real
      reads this
    {
      DayPart(h, m, s)
    }

    /** The same in UTC when there is a time zone. */
    function Clock(): real
      reads this
    {
      if !validHMS then 0.0 else if validTZ then InZone(h, m, s, tz) else TimeOfDay()
    }

    /** computeJD. */
    method ComputeJD()
      modifies this
      ensures validJD && Y == old(Y) && M == old(M) && D == old(D) && h == old(h) && m == old(m) && s == old(s)
      ensures rJD == if old(validJD) then old(rJD) else DayNumber(old(Day())) as real - 0.5 + old(Clock())
      ensures old(validJD) || !old(validHMS) || !old(validTZ) ==> validYMD == old(validYMD) && validHMS == old(validHMS) && validTZ == old(validTZ)
      ensures !old(validJD) && old(validHMS) && old(validTZ) ==> !validYMD && !validHMS && !validTZ
    {
      if validJD { return; }
      var y, mo, d := 2000, 1, 1;
      if validYMD { y, mo, d := Y, M, D; }
      var z := FindNumber(y, mo, d);
      rJD := z as real - 0.5;
      validJD := true;
      if validHMS {
        rJD := rJD + (h as real * 3600.0 + m as real * 60.0 + s) / 86400.0;
        if validTZ {
          rJD := rJD - tz as real * 60.0 / 86400.0;
          validYMD, validHMS, validTZ := false, false, false;
        }
      }
    }

    /** computeYMD. */
    method ComputeYMD()
      modifies this
      ensures validYMD && rJD == old(rJD) && validJD == old(validJD) && validHMS == old(validHMS) && validTZ == old(validTZ)
      ensures h == old(h) && m == old(m) && s == old(s)
      ensures Date(Y, M, D) == if old(validYMD) || !validJD then old(Day()) else DateOf(CInt(rJD + 0.5))
    {
      if validYMD { return; }
      if !validJD {
        Y, M, D := 2000, 1, 1;
      } else {
        var z := CInt(rJD + 0.5);
        Y, M, D := FindDate(z);
      }
      validYMD := true;
    }

    method ClearYMD_HMS_TZ()
      modifies `validYMD, `validHMS, `validTZ
      ensures !validYMD && !validHMS && !validTZ
    {
      validYMD, validHMS, validTZ := false, false, false;
    }

    /** The weekday arm of parseModifier, once the date and the time are there, from
        any date and time of day. */
    method Weekday(n: int)
      requires 0 <= n <= 6 && validYMD && validHMS
      modifies this
      ensures validJD && !validYMD && !validHMS && !validTZ
      ensures var x := DayNumber(old(Day())) as real - 0.5 + old(TimeOfDay());
        rJD == x + DaysOn(x, n) as real && (NextOn(x, rJD, n) <==> WeekdayRight(x, n))
    {
      validTZ, validJD := false, false;
      ComputeJD();
      ghost var x := rJD;
      var z := CInt(rJD + 1.5);
      z := CRem(z, 7);
      if z > n { z := z - 7; }
      rJD := rJD + (n - z) as real;
      ClearYMD_HMS_TZ();
      WeekdayExactly(x, n);
    }

    /** The month arm: r months on, a fraction of a month in days of 1/30. */
    method Months(r: real)
      requires validYMD && validHMS && 1 <= M <= 12
      modifies this
      ensures 1 <= M <= 12 && 12 * Y + M == 12 * old(Y) + CInt(old(M) as real + r) && D == old(D)
      ensures validJD && rJD == DayNumber(Date(Y, M, D)) as real - 0.5 + old(Clock()) + (r - CInt(r) as real) * 30.0
      ensures 12 * Y + M == 12 * old(Y) + old(M) + CInt(r) <==> WholeMonths(old(M), r)
    {
      MonthsMoved(M, r);
      M := CInt(M as real + r);
      var x := if M > 0 then CDiv(M - 1, 12) else CDiv(M - 12, 12);
      Y := Y + x;
      M := M - x * 12;
      validJD := false;
      ComputeJD();
      var y := CInt(r);
      if y as real != r { rJD := rJD + (r - y as real) * 30.0; }
    }
  }

  /** 0 is Sunday. */
  function DayOfWeek(day: int): int {
    (day + 1) % 7
  }

  /** The first of January 2000 was a Saturday. */
  lemma DayOfWeekIs()
    ensures DayOfWeek(DayNumber(Date(2000, 1, 1))) == 6
  {
  }

  // ---------------------------------------------------------------------
  // Weekdays
  // ---------------------------------------------------------------------

  /** The day that a time is in. */
  function DayAt(x: real): int {
    (x + 0.5).Floor
  }

  /** r is the first time from x on, at the same time of day, with weekday n. */
  ghost predicate NextOn(x: real, r: real, n: int) {
    exists k :: OnDay(x, r, n, k)
  }

  ghost predicate OnDay(x: real, r: real, n: int, k: int) {
    0 <= k <= 6 && r == x + k as real && DayOfWeek(DayAt(x) + k) == n
  }

  /** The days that the source goes on. */
  function DaysOn(x: real, n: int): int {
    var z := CRem(CInt(x + 1.5), 7);
    n - if z > n then z - 7 else z
  }

  /** It is right from half a day before day 0 less one on; earlier only at midnight, and
      where the remainder of a negative number does not take it past a week. */
  predicate WeekdayRight(x: real, n: int) {
    x >= -1.5 || ((x + 1.5).Floor as real == x + 1.5 && n + (-(x + 1.5).Floor) % 7 <= 6)
  }

  lemma WeekdayExactly(x: real, n: int)
    requires 0 <= n <= 6
    ensures 0 <= DaysOn(x, n) <= 12
    ensures NextOn(x, x + DaysOn(x, n) as real, n) <==> WeekdayRight(x, n)
  {
    var k := DaysOn(x, n);
    DaysOnRight(x, n);
    if WeekdayRight(x, n) {
      assert OnDay(x, x + k as real, n, k);
    }
  }

  lemma DaysOnRight(x: real, n: int)
    requires 0 <= n <= 6
    ensures var k := DaysOn(x, n); 0 <= k <= 12 && (k <= 6 && DayOfWeek(DayAt(x) + k) == n <==> WeekdayRight(x, n))
  {
    var f := (x + 1.5).Floor;
    assert DayAt(x) == f - 1;
    if x >= -1.5 {
      assert CInt(x + 1.5) == f;
    } else if f as real == x + 1.5 {
      assert CInt(x + 1.5) == f;
      var r := (-f) % 7;
      assert f == -7 * ((-f) / 7) - r;
    } else {
      assert CInt(x + 1.5) == f + 1;
      var r := (-(f + 1)) % 7;
      assert f + 1 == -7 * ((-(f + 1)) / 7) - r;
    }
  }

  /** A Saturday is looked for two weeks away. */
  lemma WeekdayOff()
    ensures var x := DayNumber(Date(-4800, 1, 2)) as real - 0.5; DaysOn(x, 6) == 12 && !WeekdayRight(x, 6)
  {
    assert DayNumber(Date(-4800, 1, 2)) == -32102;
    assert CRem(-32101, 7) == -6;
  }

  /** When the months moved are the whole months asked for: the fraction is added in
      days afterwards, so a fraction of a month back must not count as a month too. */
  predicate WholeMonths(month: int, r: real) {
    r >= 0.0 || CInt(r) as real == r || month as real + r < 0.0
  }

  lemma MonthsMoved(month: int, r: real)
    requires 1 <= month <= 12
    ensures CInt(month as real + r) == month + CInt(r) <==> WholeMonths(month, r)
  {
  }

  /** A day and a time of it lead back to the day if and only if its number does, and
      before day 0 only at midnight. */
  lemma DayAgain(t: Date, clock: real)
    requires ValidDate(t) && 0.0 <= clock < 1.0
    ensures DateOf(CInt(DayNumber(t) as real - 0.5 + clock + 0.5)) == t <==> ReadBack(t) && (FromEpoch(t) || clock == 0.0)
  {
    WholeDays(DayNumber(t), clock);
    ReadAgain(t, CInt(DayNumber(t) as real - 0.5 + clock + 0.5));
    EpochIs(t);
  }

  lemma WholeDays(z: int, clock: real)
    requires 0.0 <= clock < 1.0
    ensures CInt(z as real - 0.5 + clock + 0.5) == if z >= 0 || clock == 0.0 then z else z + 1
  {
  }

  /** A date as the parser takes it: any day up to 31 in any month, and years with a
      minus sign. */
  predicate Accepted(t: Date) {
    -9999 <= t.y <= 9999 && 1 <= t.m <= 12 && 1 <= t.d <= 31
  }

  /** From the year -4712 on every weekday is found. */
  lemma LaterWeekdays(t: Date, clock: real, n: int)
    requires Accepted(t) && -4712 <= t.y && 0.0 <= clock
    ensures WeekdayRight(DayNumber(t) as real - 0.5 + clock, n)
  {
    var first := Date(t.y, t.m, 1);
    EpochIs(first);
    assert DayNumber(t) == DayNumber(first) + t.d - 1;
  }
}
