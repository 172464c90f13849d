/**
 * Calendar dates and Julian dates, over exact reals, under the rule the code follows: every fourth
 * year is a leap year. Day 0 is 1 January 1900.
 */
module JulianDates {

  datatype Civil = Civil(year: int, mon: int, day: int, hr: int, minute: int, sec: real)

  // ----------------------------------------------------------- calendar

  predicate Leap(year: int) {
    year % 4 == 0
  }

  function MonthLength(year: int, mon: int): int {
    if mon == 2 then (if Leap(year) then 29 else 28)
    else if mon == 4 || mon == 6 || mon == 9 || mon == 11 then 30
    else 31
  }

  function YearLength(year: int): int {
    if Leap(year) then 366 else 365
  }

  /** The days of the year before a month. */
  function Before(year: int, mon: int): int
    requires 1 <= mon <= 13
    decreases mon
  {
    if mon == 1 then 0 else Before(year, mon - 1) + MonthLength(year, mon - 1)
  }

  lemma BeforeTable(year: int)
    ensures Before(year, 1) == 0 && Before(year, 2) == 31
    ensures var l := if Leap(year) then 1 else 0;
            && Before(year, 3) == 59 + l && Before(year, 4) == 90 + l && Before(year, 5) == 120 + l
            && Before(year, 6) == 151 + l && Before(year, 7) == 181 + l && Before(year, 8) == 212 + l
            && Before(year, 9) == 243 + l && Before(year, 10) == 273 + l && Before(year, 11) == 304 + l
            && Before(year, 12) == 334 + l && Before(year, 13) == YearLength(year)
  {
    assert Before(year, 3) == Before(year, 2) + MonthLength(year, 2);
    assert Before(year, 4) == Before(year, 3) + MonthLength(year, 3);
    assert Before(year, 5) == Before(year, 4) + MonthLength(year, 4);
    assert Before(year, 6) == Before(year, 5) + MonthLength(year, 5);
    assert Before(year, 7) == Before(year, 6) + MonthLength(year, 6);
    assert Before(year, 8) == Before(year, 7) + MonthLength(year, 7);
    assert Before(year, 9) == Before(year, 8) + MonthLength(year, 8);
    assert Before(year, 10) == Before(year, 9) + MonthLength(year, 9);
    assert Before(year, 11) == Before(year, 10) + MonthLength(year, 10);
    assert Before(year, 12) == Before(year, 11) + MonthLength(year, 11);
    assert Before(year, 13) == Before(year, 12) + MonthLength(year, 12);
  }

  /** The number of the first day of a year. */
  function YearStart(year: int): int {
    365 * (year - 1900) + (year - 1901) / 4 + 1
  }

  /** Years follow one another without gap or overlap. */
  lemma YearsTile(year: int)
    ensures YearStart(year + 1) == YearStart(year) + YearLength(year)
  {
  }

  predicate ValidDate(c: Civil) {
    && 1 <= c.mon <= 12 && 1 <= c.day <= MonthLength(c.year, c.mon)
    && 0 <= c.hr < 24 && 0 <= c.minute < 60 && 0.0 <= c.sec < 60.0
  }

  function DayNumber(c: Civil): int
    requires 1 <= c.mon <= 12
  {
    YearStart(c.year) + Before(c.year, c.mon) + c.day - 1
  }

  function Seconds(c: Civil): real {
    c.sec + c.minute as real * 60.0 + c.hr as real * 3600.0
  }

  /** Days and fraction of a day since 1 January 1900, 0 h. */
  function Instant(c: Civil): real
    requires 1 <= c.mon <= 12
  {
    DayNumber(c) as real + Seconds(c) / 86400.0
  }

  /** The Julian date of 1 January 1900, 0 h. */
  const EPOCH: real := 2415019.5

  // --------------------------------------------------------- uniqueness

  lemma {:induction false} LaterYearStarts(y: int, z: int)
    requires y < z
    ensures YearStart(y) + YearLength(y) <= YearStart(z)
    decreases z - y
  {
    YearsTile(y);
    if y + 1 < z {
      LaterYearStarts(y + 1, z);
    }
  }

  lemma {:induction false} LaterMonthStarts(year: int, m: int, n: int)
    requires 1 <= m < n <= 13
    ensures Before(year, m) + MonthLength(year, m) <= Before(year, n)
    decreases n
  {
    if m + 1 < n {
      LaterMonthStarts(year, m, n - 1);
    }
  }

  lemma DayInYear(c: Civil)
    requires ValidDate(c)
    ensures YearStart(c.year) <= DayNumber(c) < YearStart(c.year) + YearLength(c.year)
  {
    BeforeTable(c.year);
    LaterMonthStarts(c.year, c.mon, 13);
    if c.mon > 1 {
      LaterMonthStarts(c.year, 1, c.mon);
    }
  }

  lemma {:induction false} SameDay(c: Civil, d: Civil)
    requires ValidDate(c) && ValidDate(d) && DayNumber(c) == DayNumber(d)
    ensures c.year == d.year && c.mon == d.mon && c.day == d.day
  {
    hide YearStart, YearLength, MonthLength, Before;
    DayInYear(c);
    DayInYear(d);
    if c.year < d.year {
      LaterYearStarts(c.year, d.year);
    } else if d.year < c.year {
      LaterYearStarts(d.year, c.year);
    } else if c.mon < d.mon {
      LaterMonthStarts(c.year, c.mon, d.mon);
    } else if d.mon < c.mon {
      LaterMonthStarts(c.year, d.mon, c.mon);
    }
  }

  lemma SecondsInDay(c: Civil)
    requires ValidDate(c)
    ensures 0.0 <= Seconds(c) < 86400.0
  {
  }

  lemma SameTime(c: Civil, d: Civil)
    requires ValidDate(c) && ValidDate(d) && Seconds(c) == Seconds(d)
    ensures c.hr == d.hr && c.minute == d.minute && c.sec == d.sec
  {
    var mc, md := c.minute as real * 60.0 + c.sec, d.minute as real * 60.0 + d.sec;
    assert 0.0 <= mc < 3600.0 && 0.0 <= md < 3600.0;
    assert c.hr as real * 3600.0 + mc == d.hr as real * 3600.0 + md;
    assert c.hr == d.hr;
  }

  /** No two dates name the same instant. */
  lemma InstantInjective(c: Civil, d: Civil)
    requires ValidDate(c) && ValidDate(d) && Instant(c) == Instant(d)
    ensures c == d
  {
    hide DayNumber, Seconds;
    SecondsInDay(c);
    SecondsInDay(d);
    var fc, fd := Seconds(c) / 86400.0, Seconds(d) / 86400.0;
    assert 0.0 <= fc < 1.0 && 0.0 <= fd < 1.0;
    assert DayNumber(c) == DayNumber(d);
    SameDay(c, d);
    SameTime(c, d);
  }

  // ----------------------------------------------------------- to Julian

  lemma MonthTerm(mon: int)
    requires 1 <= mon <= 12
    ensures 275 * mon / 9 == [0, 30, 61, 91, 122, 152, 183, 213, 244, 275, 305, 336, 366][mon]
  {
  }

  lemma YearTerm(year: int, late: int)
    requires late == 0 || late == 1
    ensures 367 * year - 7 * (year + late) / 4 + 1721013
         == 2415018 + YearStart(year) - 30 + if late == 0 then 0 else if Leap(year) then -1 else -2
  {
    var q, r := year / 4, year % 4;
    assert year == 4 * q + r;
    assert 7 * (year + late) / 4 == 7 * q + 7 * (r + late) / 4;
    assert (year - 1901) / 4 == q - 476 + (r + 3) / 4;
    assert r == 0 || r == 1 || r == 2 || r == 3;
  }

  /** The closed formula counts the days of the calendar. */
  lemma {:induction false} DayFormula(year: int, mon: int)
    requires 1 <= mon <= 12
    ensures 367 * year - 7 * (year + (mon + 9) / 12) / 4 + 275 * mon / 9 + 1721013
         == 2415019 + YearStart(year) + Before(year, mon) - 1
  {
    BeforeTable(year);
    hide Before, YearStart;
    var late := if mon <= 2 then 0 else 1;
    assert (mon + 9) / 12 == late;
    YearTerm(year, late);
    MonthTerm(mon);
  }

  lemma FloorQuarter(n: int)
    ensures (n as real * 0.25).Floor == n / 4
  {
    assert n as real * 0.25 == n as real / 4.0;
    FloorDivides(n, 4);
  }

  lemma FloorDivides(n: int, d: int)
    requires d > 0
    ensures (n as real / d as real).Floor == n / d
  {
    var q, r := n / d, n % d;
    assert n == q * d + r;
    var x := n as real / d as real;
    assert x == q as real + r as real / d as real by {
      assert n as real == q as real * d as real + r as real;
    }
    assert 0.0 <= r as real / d as real < 1.0;
  }

  /** The day part of the Julian date: midnight at the start of the day. */
  method JdayNumber(year: int, mon: int, day: int) returns (jd: real, ghost whole: int)
    ensures jd == whole as real + 0.5
    ensures 1 <= mon <= 12 ==> whole == 2415019 + YearStart(year) + Before(year, mon) + day - 1
  {
    hide Before, YearStart;
    FloorDivides(mon + 9, 12);
    FloorQuarter(7 * (year + (mon + 9) / 12));
    FloorDivides(275 * mon, 9);
    if 1 <= mon <= 12 {
      DayFormula(year, mon);
    }
    var c1 := ((mon + 9) as real / 12.0).Floor;
    var c2 := ((7 * (year + c1)) as real * 0.25).Floor;
    var c3 := ((275 * mon) as real / 9.0).Floor;
    whole := 367 * year - c2 + c3 + day + 1721013;
    jd := 367.0 * year as real - c2 as real + c3 as real + day as real + 1721013.5;
  }

  /** Day and time of day, put together, are the instant. */
  lemma PartsOf(c: Civil, jd: real, jdFrac: real, whole: int)
    requires jd == whole as real + 0.5
    requires 1 <= c.mon <= 12 ==> whole == 2415019 + YearStart(c.year) + Before(c.year, c.mon) + c.day - 1
    requires jdFrac == (c.sec + c.minute as real * 60.0 + c.hr as real * 3600.0) / 86400.0
    ensures 1 <= c.mon <= 12 ==> jd == EPOCH + DayNumber(c) as real && jd + jdFrac == EPOCH + Instant(c)
    ensures ValidDate(c) ==> 1 <= c.mon <= 12 && 0.0 <= jdFrac < 1.0
  {
    hide Before, YearStart, MonthLength;
    if ValidDate(c) {
      SecondsInDay(c);
    }
  }

  /** A Julian date that names a midnight. */
  predicate Midnight(jd: real) {
    (jd - 0.5).Floor as real == jd - 0.5
  }

  lemma IsMidnight(jd: real, w: int)
    requires jd == w as real + 0.5
    ensures Midnight(jd)
  {
    assert jd - 0.5 == w as real;
  }

  /** Whole days in the fraction move to the day part. */
  method CarryDays(jd: real, jdFrac: real, ghost whole: int) returns (j: real, f: real)
    requires jd == whole as real + 0.5
    ensures j + f == jd + jdFrac && Midnight(j) && -1.0 < f < 1.0
    ensures -1.0 < jdFrac < 1.0 ==> j == jd && f == jdFrac
  {
    hide Midnight;
    j, f := jd, jdFrac;
    ghost var w := whole;
    if jdFrac >= 1.0 || jdFrac <= -1.0 {
      var dtt := jdFrac.Floor;
      j := jd + dtt as real;
      f := jdFrac - dtt as real;
      w := whole + dtt;
    }
    IsMidnight(j, w);
  }

  method Jday(year: int, mon: int, day: int, hr: int, minute: int, sec: real) returns (jd: real, jdFrac: real)
    ensures 1 <= mon <= 12 ==> jd + jdFrac == EPOCH + Instant(Civil(year, mon, day, hr, minute, sec))
    ensures Midnight(jd) && -1.0 < jdFrac < 1.0
    ensures ValidDate(Civil(year, mon, day, hr, minute, sec)) ==>
      jd == EPOCH + DayNumber(Civil(year, mon, day, hr, minute, sec)) as real && 0.0 <= jdFrac
  {
    hide Before, YearStart, MonthLength, Seconds, Instant, ValidDate, DayNumber;
    ghost var c := Civil(year, mon, day, hr, minute, sec);
    ghost var whole;
    jd, whole := JdayNumber(year, mon, day);
    jdFrac := (sec + minute as real * 60.0 + hr as real * 3600.0) / 86400.0;
    PartsOf(c, jd, jdFrac, whole);
    jd, jdFrac := CarryDays(jd, jdFrac, whole);
  }

  // --------------------------------------------------------- from Julian

  /** The month a day of the year falls in; days past the end stay in December. */
  ghost predicate FallsIn(year: int, doy: int, mon: int, day: int) {
    && 1 <= mon <= 12 && day == doy - Before(year, mon)
    && (mon > 1 ==> Before(year, mon) < doy)
    && (mon < 12 ==> doy <= Before(year, mon + 1))
  }

  lemma TimeOfDay(x: real) returns (hr: int, minute: int, sec: real)
    requires 0.0 <= x < 1.0
    ensures hr == (x * 24.0).Floor && minute == ((x * 24.0 - hr as real) * 60.0).Floor
    ensures sec == ((x * 24.0 - hr as real) * 60.0 - minute as real) * 60.0
    ensures 0 <= hr < 24 && 0 <= minute < 60 && 0.0 <= sec < 60.0
    ensures sec + minute as real * 60.0 + hr as real * 3600.0 == x * 86400.0
  {
    hr := (x * 24.0).Floor;
    var t := (x * 24.0 - hr as real) * 60.0;
    minute := t.Floor;
    sec := (t - minute as real) * 60.0;
  }

  method Days2Mdhms(year: int, days: real) returns (mon: int, day: int, hr: int, minute: int, sec: real)
    ensures FallsIn(year, days.Floor, mon, day)
    ensures 0 <= hr < 24 && 0 <= minute < 60 && 0.0 <= sec < 60.0
    ensures Seconds(Civil(year, mon, day, hr, minute, sec)) == (days - days.Floor as real) * 86400.0
  {
    var lmonth := [0, 31, 28, 31, 30, 31, 30, 31, 31, 30, 31, 30, 31];
    var dayofyr := days.Floor;
    if year % 4 == 0 {
      lmonth := lmonth[2 := 29];
    }
    var i, inttemp := 1, 0;
    while dayofyr > inttemp + lmonth[i] && i < 12
      invariant 1 <= i <= 12 && inttemp == Before(year, i)
      invariant |lmonth| == 13 && forall k :: 1 <= k <= 12 ==> lmonth[k] == MonthLength(year, k)
      invariant i > 1 ==> inttemp < dayofyr
      decreases 12 - i
    {
      inttemp := inttemp + lmonth[i];
      i := i + 1;
    }
    mon := i;
    day := dayofyr - inttemp;
    ghost var h, m, s := TimeOfDay(days - dayofyr as real);
    var temp := (days - dayofyr as real) * 24.0;
    hr := temp.Floor;
    temp := (temp - hr as real) * 60.0;
    minute := temp.Floor;
    sec := (temp - minute as real) * 60.0;
  }

  /** Carry whole days out of the fraction. */
  function Carried(jd: real, jdFrac: real): (real, real) {
    if jdFrac >= 1.0 || jdFrac <= -1.0 then (jd + jdFrac.Floor as real, jdFrac - jdFrac.Floor as real) else (jd, jdFrac)
  }

  /** A fraction of less than a day either way stays as it is; otherwise its whole days go over. */
  lemma CarriedExactly(jd: real, jdFrac: real)
    ensures var (j, f) := Carried(jd, jdFrac);
            && (-1.0 < jdFrac < 1.0 ==> j == jd && f == jdFrac)
            && (jdFrac <= -1.0 || jdFrac >= 1.0 ==> j + f == jd + jdFrac && 0.0 <= f < 1.0)
  {
  }

  /** How far the day part is from midnight. */
  function Offset(jd: real): (dt: real)
    ensures -0.5 <= dt < 0.5
  {
    jd - jd.Floor as real - 0.5
  }

  /** The day part is midnight, or far enough from it for the code to notice. */
  predicate Aligned(jd: real, jdFrac: real) {
    var dt := Offset(Carried(jd, jdFrac).0);
    dt == 0.0 || dt > 0.00000001 || dt < -0.00000001
  }

  /** The day and the fraction the code works with. */
  function Settled(jd: real, jdFrac: real): (real, real) {
    var (j, f) := Carried(jd, jdFrac);
    var dt := Offset(j);
    if dt > 0.00000001 || dt < -0.00000001 then (j - dt, f + dt) else (j, f)
  }

  /** The year a day belongs to. */
  function YearOf(d: int): int {
    1900 + 4 * d / 1461
  }

  lemma YearOfDay(d: int)
    ensures YearStart(YearOf(d)) <= d < YearStart(YearOf(d)) + YearLength(YearOf(d))
  {
  }

  predicate LastOfYear(d: int) {
    d == YearStart(YearOf(d)) + YearLength(YearOf(d)) - 1
  }

  /** The day is the last of its year and the fraction runs into the next. */
  predicate PastYearEnd(jd: real, jdFrac: real) {
    var (j, f) := Settled(jd, jdFrac);
    f >= 1.0 && LastOfYear((j - EPOCH).Floor)
  }

  /** That is: the settled fraction is a whole day or more, and the day after belongs to another year. */
  lemma PastYearEndMeans(jd: real, jdFrac: real)
    ensures var (j, f) := Settled(jd, jdFrac);
            var d := (j - EPOCH).Floor;
            && (PastYearEnd(jd, jdFrac) <==> f >= 1.0 && YearOf(d + 1) != YearOf(d))
            && (PastYearEnd(jd, jdFrac) ==> YearOf(d + 1) == YearOf(d) + 1 && d + 1 == YearStart(YearOf(d) + 1))
  {
    hide Settled, YearOf, YearStart, YearLength;
    var (j, f) := Settled(jd, jdFrac);
    var d := (j - EPOCH).Floor;
    YearOfDay(d);
    YearsTile(YearOf(d));
    YearOfDay(d + 1);
    YearHasDays(YearOf(d) + 1);
    OneYear(d + 1, YearOf(d + 1), if LastOfYear(d) then YearOf(d) + 1 else YearOf(d));
  }

  lemma YearHasDays(y: int)
    ensures YearLength(y) > 0
  {
  }

  /** A day lies in one year only. */
  lemma OneYear(d: int, y: int, z: int)
    ensures YearStart(y) <= d < YearStart(y) + YearLength(y) && YearStart(z) <= d < YearStart(z) + YearLength(z) ==>
              y == z
  {
    if y < z {
      LaterYearStarts(y, z);
    } else if z < y {
      LaterYearStarts(z, y);
    }
  }

  lemma {:induction false} SettledRange(jd: real, jdFrac: real)
    ensures var (j, f) := Settled(jd, jdFrac);
            && j + f == jd + jdFrac && -1.5 < f < 1.5
            && (f >= 1.0 ==> j - EPOCH == (j - EPOCH).Floor as real)
            && (Aligned(jd, jdFrac) <==> j - EPOCH == (j - EPOCH).Floor as real)
  {
    hide Carried, Offset;
    CarriedRange(jd, jdFrac);
    var (j, f) := Carried(jd, jdFrac);
    WholeAt(j);
    WholeAt(j - Offset(j));
    MidnightBelow(j);
  }

  lemma CarriedRange(jd: real, jdFrac: real)
    ensures var (j, f) := Carried(jd, jdFrac); j + f == jd + jdFrac && -1.0 < f < 1.0
  {
  }

  /** A day part is midnight when it is a whole number of days away from the epoch. */
  lemma WholeAt(j: real)
    ensures Offset(j) == 0.0 <==> j - EPOCH == (j - EPOCH).Floor as real
  {
    hide Offset;
    OffsetIs(j);
    WholeIff(j - EPOCH, j.Floor - 2415019, Offset(j));
  }

  lemma OffsetIs(j: real)
    ensures j - EPOCH == (j.Floor - 2415019) as real + Offset(j)
  {
  }

  lemma WholeIff(x: real, n: int, dt: real)
    requires x == n as real + dt && -0.5 <= dt < 0.5
    ensures dt == 0.0 <==> x == x.Floor as real
  {
    if 0.0 < dt {
      assert x.Floor == n;
    } else if dt < 0.0 {
      assert x.Floor == n - 1;
    }
  }

  lemma MidnightBelow(j: real)
    ensures Offset(j - Offset(j)) == 0.0
  {
    HalfPast(j.Floor, j - Offset(j));
  }

  lemma HalfPast(n: int, x: real)
    requires x == n as real + 0.5
    ensures Offset(x) == 0.0
  {
    assert x.Floor == n;
  }

  /** The first guess at the year is right, or one too high on the last day of a year. */
  lemma GuessedYear(temp: real, k: int)
    requires k == (temp / 365.25).Floor
    ensures YearStart(1900 + k) - 1 <= temp.Floor < YearStart(1900 + k) + YearLength(1900 + k)
    ensures temp == temp.Floor as real ==> YearStart(1900 + k) <= temp.Floor
  {
    var e := temp.Floor;
    assert k as real * 365.25 <= temp < k as real * 365.25 + 365.25 by {
      var q := temp / 365.25;
      assert k as real <= q < k as real + 1.0;
      assert q * 365.25 == temp;
    }
    assert e as real <= temp < e as real + 1.0;
    assert (1461 * k) as real < (4 * e + 4) as real;
    assert (4 * e) as real < (1461 * k + 1461) as real;
    assert 1461 * k < 4 * e + 4 && 4 * e < 1461 * k + 1461;
    if temp == e as real {
      assert (1461 * k) as real <= (4 * e) as real;
      assert 1461 * k <= 4 * e;
    }
  }

  /** The day within the year that starts where the formula says. */
  lemma DaysInto(temp: real, year: int)
    ensures (temp - ((year - 1900) as real * 365.0 + ((year - 1901) / 4) as real)).Floor
         == temp.Floor - YearStart(year) + 1
  {
    var whole := (year - 1900) * 365 + (year - 1901) / 4;
    assert (year - 1900) as real * 365.0 + ((year - 1901) / 4) as real == whole as real;
    assert (temp - whole as real).Floor == temp.Floor - whole;
  }

  lemma FallsInGives(year: int, doy: int, mon: int, day: int)
    requires FallsIn(year, doy, mon, day)
    ensures 1 <= doy ==> 1 <= day
    ensures doy <= YearLength(year) ==> day <= MonthLength(year, mon)
    ensures doy > YearLength(year) ==> mon == 12 && day == 31 + doy - YearLength(year)
  {
    BeforeTable(year);
    assert mon < 12 ==> Before(year, mon + 1) == Before(year, mon) + MonthLength(year, mon);
    if mon < 12 {
      LaterMonthStarts(year, mon, 13);
      assert Before(year, mon + 1) <= YearLength(year) by {
        if mon + 1 < 13 {
          LaterMonthStarts(year, mon + 1, 13);
        }
      }
    }
  }

  /** Which day of which year the code passes on. */
  ghost predicate Located(e: int, f: real, year: int, days: int) {
    && days == e - YearStart(year) + 1
    && days as real + f >= 1.0
    && (days as real + f >= (YearLength(year) + 1) as real ==> f >= 1.0 && LastOfYear(e))
    && (f >= 1.0 && LastOfYear(e) ==> days as real + f >= (YearLength(year) + 1) as real)
    && days as real + f < (YearLength(year) + 2) as real
  }

  lemma YearOfIs(e: int, year: int)
    requires YearStart(year) <= e < YearStart(year) + YearLength(year)
    ensures YearOf(e) == year
  {
  }

  method Locate(temp: real, f: real) returns (year: int, days: int)
    requires -1.5 < f < 1.5 && (f >= 1.0 ==> temp == temp.Floor as real)
    ensures Located(temp.Floor, f, year, days)
  {
    hide YearStart, YearOf;
    ghost var e := temp.Floor;
    var tu := temp / 365.25;
    year := 1900 + tu.Floor;
    GuessedYear(temp, tu.Floor);
    FloorQuarter(year - 1901);
    var leapyrs := ((year - 1901) as real * 0.25).Floor;
    DaysInto(temp, year);
    days := (temp - ((year - 1900) as real * 365.0 + leapyrs as real)).Floor;
    if days as real + f < 1.0 {
      year := year - 1;
      FloorQuarter(year - 1901);
      leapyrs := ((year - 1901) as real * 0.25).Floor;
      YearsTile(year);
      DaysInto(temp, year);
      days := (temp - ((year - 1900) as real * 365.0 + leapyrs as real)).Floor;
    } else {
      if days >= 1 {
        YearOfIs(e, year);
      }
    }
  }

  /** The date found is the day e and fraction f, and is a real date unless f leaves the year. */
  lemma LocatedDate(e: int, f: real, days: int, c: Civil)
    requires Located(e, f, c.year, days) && FallsIn(c.year, (days as real + f).Floor, c.mon, c.day)
    requires 0 <= c.hr < 24 && 0 <= c.minute < 60 && 0.0 <= c.sec < 60.0
    requires Seconds(c) == (days as real + f - (days as real + f).Floor as real) * 86400.0
    ensures ValidDate(c) <==> !(f >= 1.0 && LastOfYear(e))
    ensures f >= 1.0 && LastOfYear(e) ==> c.mon == 12 && c.day == 32
    ensures Instant(c) == e as real + f
  {
    hide YearStart, YearOf, MonthLength, Before, LastOfYear, YearLength, Seconds;
    var doy := (days as real + f).Floor;
    FallsInGives(c.year, doy, c.mon, c.day);
    assert doy >= 1 && (doy > YearLength(c.year) <==> f >= 1.0 && LastOfYear(e)) && doy <= YearLength(c.year) + 1;
    DecemberHas31(c.year);
    assert DayNumber(c) == e - days + doy;
  }

  lemma DecemberHas31(year: int)
    ensures MonthLength(year, 12) == 31
  {
  }

  /**
   * Every split of an instant into day and fraction leads to the date at that instant, unless the
   * fraction runs past the last day of a year: then the result is a 32 December. A day part within
   * a hundred-millionth of a day of midnight, but not on it, is taken for a whole day.
   */
  method Invjday(jd: real, jdFrac: real) returns (c: Civil)
    ensures 1 <= c.mon <= 12
    ensures ValidDate(c) <==> !PastYearEnd(jd, jdFrac)
    ensures PastYearEnd(jd, jdFrac) ==> c.mon == 12 && c.day == 32
    ensures Instant(c) == jd + jdFrac - EPOCH <==> Aligned(jd, jdFrac)
    ensures Instant(c) == (Settled(jd, jdFrac).0 - EPOCH).Floor as real + Settled(jd, jdFrac).1
  {
    hide YearStart, YearOf, MonthLength, Before, LastOfYear, YearLength, Aligned, Seconds, Instant, ValidDate,
         Located, FallsIn;
    var j, f := jd, jdFrac;
    if f >= 1.0 || f <= -1.0 {
      j := j + f.Floor as real;
      f := jdFrac - jdFrac.Floor as real;
    }
    var dt := j - j.Floor as real - 0.5;
    if dt > 0.00000001 || dt < -0.00000001 {
      j := j - dt;
      f := f + dt;
    }
    SettledRange(jd, jdFrac);
    assert Settled(jd, jdFrac) == (j, f);
    var temp := j - 2415019.5;
    var year, days := Locate(temp, f);
    var mon, day, hr, minute, sec := Days2Mdhms(year, days as real + f);
    c := Civil(year, mon, day, hr, minute, sec);
    FallsInMonths(year, (days as real + f).Floor, mon, day);
    LocatedDate(temp.Floor, f, days, c);
  }

  lemma FallsInMonths(year: int, doy: int, mon: int, day: int)
    requires FallsIn(year, doy, mon, day)
    ensures 1 <= mon <= 12
  {
  }

  /** Converting there and back is the identity on every valid date, before 1900 and after 2100 too. */
  method RoundTrip(c: Civil) returns (d: Civil)
    requires ValidDate(c)
    ensures d == c
  {
    var jd, jdFrac := Jday(c.year, c.mon, c.day, c.hr, c.minute, c.sec);
    d := Invjday(jd, jdFrac);
    MidnightSettles(jd, jdFrac);
    InstantInjective(c, d);
  }

  lemma {:induction false} MidnightSettles(jd: real, jdFrac: real)
    requires Midnight(jd) && -1.0 < jdFrac < 1.0
    ensures Aligned(jd, jdFrac) && !PastYearEnd(jd, jdFrac)
  {
    hide LastOfYear, YearOf;
    var n := (jd - 0.5).Floor;
    assert jd == n as real + 0.5;
    assert jd.Floor == n;
  }

  /** A time of day past midnight is carried: the result is the valid date at that instant. */
  method Normalise(c: Civil) returns (d: Civil)
    requires 1 <= c.mon <= 12
    ensures ValidDate(d) && Instant(d) == Instant(c)
  {
    hide Instant, ValidDate;
    var jd, jdFrac := Jday(c.year, c.mon, c.day, c.hr, c.minute, c.sec);
    d := Invjday(jd, jdFrac);
    MidnightSettles(jd, jdFrac);
  }

  /** A day part one nanoday before midnight comes back as the day before, almost a whole day early. */
  lemma JustBeforeMidnight()
    ensures !Aligned(2415020.499999999, 0.5) && !PastYearEnd(2415020.499999999, 0.5)
    ensures var (j, f) := Settled(2415020.499999999, 0.5); (j - EPOCH).Floor as real + f == 0.5
  {
    assert 2415020.499999999.Floor == 2415020;
    assert (2415020.499999999 - EPOCH).Floor == 0;
  }
}
