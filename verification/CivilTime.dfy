/** Conversion of seconds since 1970 to the civil calendar, against the Gregorian calendar's own rules. */
module CivilTime {
  /** Division and remainder as in C: they truncate towards zero. */
  function Div(a: int, b: int): int
    requires b > 0
  {
    if a >= 0 then a / b else -((-a) / b)
  }

  function Rem(a: int, b: int): int
    requires b > 0
  {
    a - Div(a, b) * b
  }

  /** The fields of a broken-down time; `year` counts from 1900 and `mon` from January as 0. */
  datatype Tod = Tod(sec: int, min: int, hour: int, mday: int, mon: int, year: int, wday: int, yday: int)

  // ---- the Gregorian calendar ----

  predicate Leap(y: int) {
    y % 4 == 0 && (y % 100 != 0 || y % 400 == 0)
  }

  function YearLength(y: int): int {
    if Leap(y) then 366 else 365
  }

  /** The day, counted from 1 January 1970, on which a year begins. */
  function YearStart(y: int): int
    decreases if y >= 1970 then y - 1970 else 1970 - y
  {
    if y == 1970 then 0
    else if y > 1970 then YearStart(y - 1) + YearLength(y - 1)
    else YearStart(y + 1) - YearLength(y)
  }

  function MonthLength(y: int, mon: int): int {
    if mon == 1 then (if Leap(y) then 29 else 28)
    else if mon == 3 || mon == 5 || mon == 8 || mon == 10 then 30
    else 31
  }

  /** The days of a year before a month. */
  function MonthStart(y: int, mon: nat): int {
    if mon == 0 then 0 else MonthStart(y, mon - 1) + MonthLength(y, mon - 1)
  }

  predicate ValidDate(y: int, mon: int, mday: int) {
    0 <= mon <= 11 && 1 <= mday <= MonthLength(y, mon)
  }

  function DayNumber(y: int, mon: nat, mday: int): int {
    YearStart(y) + MonthStart(y, mon) + mday - 1
  }

  // ---- the conversion ----

  const ERA: int := 146097
  const SHIFT: int := 719468

  /** The year of an era that a day belongs to; these years begin in March. */
  function YearOfEra(doe: int): int {
    (doe - doe / 1460 + doe / 36524 - doe / 146096) / 365
  }

  /** Month and day, for a day of a year that begins in March. */
  function FromMarch(y: int, yoe: int, doy: int, wday: int): Tod {
    var mp := (5 * doy + 2) / 153;
    var d := doy - (153 * mp + 2) / 5 + 1;
    var m := mp + (if mp < 10 then 3 else -9);
    var yday := if doy >= 306 then doy - 306
                else doy + 59 + (if (yoe % 4 == 0 && yoe % 100 != 0) || yoe == 0 then 1 else 0);
    Tod(0, 0, 0, d, m - 1, y + (if m <= 2 then 1 else 0) - 1900, wday, yday)
  }

  /** `time_civil_from_days`, with the time of day still to be filled in. */
  function CivilFromDays(days: int): Tod {
    var wday := if days >= -4 then Rem(days + 4, 7) else Rem(days + 5, 7) + 6;
    var z := days + SHIFT;
    var era := Div(if z >= 0 then z else z - 146096, ERA);
    var doe := z - era * ERA;
    var yoe := YearOfEra(doe);
    FromMarch(yoe + era * 400, yoe, doe - EraYear(yoe), wday)
  }

  /** Days from the beginning of an era to the beginning of one of its years. */
  function EraYear(yoe: int): int {
    365 * yoe + yoe / 4 - yoe / 100
  }

  /** `clock_get_tod_time`. */
  function TodTime(t: int): Tod {
    var days := Div(if t >= 0 then t else t - 86399, 86400);
    var rem := t - days * 86400;
    var hour := rem / 60 / 60;
    var rest := rem - hour * 60 * 60;
    var min := rest / 60;
    CivilFromDays(days).(hour := hour, min := min, sec := rest - min * 60)
  }

  // ---- the calendar in closed form ----

  /** Leap years before the year `y`, up to a constant. */
  function Leaps(y: int): int {
    (y - 1) / 4 - (y - 1) / 100 + (y - 1) / 400
  }

  lemma LeapsStep(y: int)
    ensures Leaps(y + 1) == Leaps(y) + if Leap(y) then 1 else 0
  {
    Multiples(y, 4);
    Multiples(y, 100);
    Multiples(y, 400);
  }

  lemma Multiples(y: int, k: int)
    requires k == 4 || k == 100 || k == 400
    ensures y / k == (y - 1) / k + if y % k == 0 then 1 else 0
  {
  }

  lemma {:induction false} YearStartClosed(y: int)
    ensures YearStart(y) == 365 * (y - 1970) + Leaps(y) - 477
    decreases if y >= 1970 then y - 1970 else 1970 - y
  {
    hide Leaps, Leap;
    if y > 1970 {
      YearStartClosed(y - 1);
      LeapsStep(y - 1);
    } else if y < 1970 {
      YearStartClosed(y + 1);
      LeapsStep(y);
    } else {
      Leaps1970();
    }
  }

  lemma Leaps1970()
    ensures Leaps(1970) == 477
  {
  }

  lemma MonthStarts(y: int)
    ensures var l := if Leap(y) then 1 else 0;
            && MonthStart(y, 0) == 0 && MonthStart(y, 1) == 31 && MonthStart(y, 2) == 59 + l && MonthStart(y, 3) == 90 + l
            && MonthStart(y, 4) == 120 + l && MonthStart(y, 5) == 151 + l && MonthStart(y, 6) == 181 + l
            && MonthStart(y, 7) == 212 + l && MonthStart(y, 8) == 243 + l && MonthStart(y, 9) == 273 + l
            && MonthStart(y, 10) == 304 + l && MonthStart(y, 11) == 334 + l && MonthStart(y, 12) == 365 + l
  {
    hide Leap;
    var s := MonthStart(y, 3);
    var t := MonthStart(y, 6);
    var u := MonthStart(y, 9);
    assert s == MonthStart(y, 2) + 31 && t == MonthStart(y, 5) + 30 && u == MonthStart(y, 8) + 30;
  }

  // ---- the era ----

  /** Century, four-year cycle, year and day: the days of an era counted by the rules of the calendar. */
  lemma Cycles(doe: int) returns (c: int, f: int, g: int, doy: int)
    requires 0 <= doe < ERA
    ensures 0 <= c <= 3 && 0 <= f <= 24 && 0 <= g <= 3 && 0 <= doy <= 365
    ensures doe == 36524 * c + 1461 * f + 365 * g + doy
    ensures doy == 365 ==> g == 3 && (f < 24 || c == 3)
    ensures 1461 * f + 365 * g + doy <= if c == 3 then 36524 else 36523
  {
    c := if doe / 36524 > 3 then 3 else doe / 36524;
    var r := doe - 36524 * c;
    f := if r / 1461 > 24 then 24 else r / 1461;
    var s := r - 1461 * f;
    g := if s / 365 > 3 then 3 else s / 365;
    doy := s - 365 * g;
  }

  lemma CyclesYear(c: int, f: int, g: int)
    requires 0 <= c <= 3 && 0 <= f <= 24 && 0 <= g <= 3
    ensures var yoe := 100 * c + 4 * f + g; EraYear(yoe) == 36524 * c + 1461 * f + 365 * g && 0 <= yoe < 400
    ensures g == 3 && (f < 24 || c == 3) ==> Leap(100 * c + 4 * f + g + 1)
  {
    var yoe := 100 * c + 4 * f + g;
    assert yoe / 4 == 25 * c + f && yoe / 100 == c;
  }

  lemma CyclesFound(doe: int, c: int, f: int, g: int, doy: int)
    requires 0 <= doe < ERA && 0 <= c <= 3 && 0 <= f <= 24 && 0 <= g <= 3 && 0 <= doy <= 365
    requires doe == 36524 * c + 1461 * f + 365 * g + doy && (doy == 365 ==> g == 3)
    requires 1461 * f + 365 * g + doy <= if c == 3 then 36524 else 36523
    ensures YearOfEra(doe) == 100 * c + 4 * f + g
  {
    var e := 24 * c + f + 365 * g + doy;
    assert doe == 1460 * (25 * c + f) + e;
    assert doe / 1460 == 25 * c + f + (if e < 1460 then 0 else 1);
    assert doe / 36524 - doe / 146096 == c;
  }

  /** The closed form finds the year of the era; the last year of an era, like the last of most fours, is longer. */
  lemma YearOfEraRight(doe: int)
    requires 0 <= doe < ERA
    ensures var yoe := YearOfEra(doe);
            && 0 <= yoe < 400 && EraYear(yoe) <= doe <= EraYear(yoe) + 365
            && (doe == EraYear(yoe) + 365 ==> Leap(yoe + 1))
  {
    var c, f, g, doy := Cycles(doe);
    CyclesYear(c, f, g);
    CyclesFound(doe, c, f, g, doy);
  }

  /** The first of March of a year, counted from 1970 and counted by eras. */
  lemma EraIsCalendar(yoe: int, era: int)
    requires 0 <= yoe < 400
    ensures var y := yoe + era * 400;
            && YearStart(y) + MonthStart(y, 2) == era * ERA + EraYear(yoe) - SHIFT
            && YearStart(y + 1) == YearStart(y) + YearLength(y)
            && (Leap(y + 1) <==> Leap(yoe + 1))
            && (Leap(y) <==> (yoe % 4 == 0 && yoe % 100 != 0) || yoe == 0)
  {
    var y := yoe + era * 400;
    YearStartClosed(y);
    YearStartClosed(y + 1);
    LeapsStep(y);
    MonthStarts(y);
    EraLeaps(yoe, era);
    Leaps1970();
    hide YearStart, MonthStart;
  }

  lemma EraLeaps(yoe: int, era: int)
    requires 0 <= yoe < 400
    ensures var y := yoe + era * 400;
            && Leaps(y + 1) == era * 97 + yoe / 4 - yoe / 100
            && (Leap(y + 1) <==> Leap(yoe + 1))
            && (Leap(y) <==> (yoe % 4 == 0 && yoe % 100 != 0) || yoe == 0)
  {
    hide Leaps, Leap;
    EraShift(yoe, era, 4);
    EraShift(yoe, era, 100);
    EraShift(yoe, era, 400);
    EraShift(yoe + 1, era, 4);
    EraShift(yoe + 1, era, 100);
    EraShift(yoe + 1, era, 400);
    LeapsAfter(yoe + era * 400);
    LeapIs(yoe + era * 400);
    LeapIs(yoe + 1 + era * 400);
    LeapIs(yoe + 1);
  }

  lemma EraShift(x: int, era: int, k: int)
    requires k == 4 || k == 100 || k == 400
    ensures (x + era * 400) / k == x / k + era * (400 / k) && (x + era * 400) % k == x % k
  {
  }

  lemma LeapsAfter(y: int)
    ensures Leaps(y + 1) == y / 4 - y / 100 + y / 400
  {
  }

  lemma LeapIs(y: int)
    ensures Leap(y) <==> y % 4 == 0 && (y % 100 != 0 || y % 400 == 0)
  {
  }

  lemma EraOf(days: int)
    ensures var z := days + SHIFT;
            var era := Div(if z >= 0 then z else z - 146096, ERA);
            0 <= z - era * ERA < ERA
  {
  }

  // ---- months ----

  /** The month of a day of a year that begins in March. */
  lemma Month(doy: int, y: int)
    requires 0 <= doy <= 365 && (doy == 365 ==> Leap(y + 1))
    ensures var mp := (5 * doy + 2) / 153;
            var d := doy - (153 * mp + 2) / 5 + 1;
            var m := mp + (if mp < 10 then 3 else -9);
            && 0 <= mp <= 11 && (mp < 10 <==> doy < 306)
            && (if mp < 10 then ValidDate(y, m - 1, d) && MonthStart(y, m - 1) + d - 1 == MonthStart(y, 2) + doy
                else ValidDate(y + 1, m - 1, d) && MonthStart(y + 1, m - 1) + d - 1 == doy - 306)
  {
    var mp := (5 * doy + 2) / 153;
    MonthStarts(y);
    MonthStarts(y + 1);
    MarchMonths(doy, mp);
    hide MonthStart;
  }

  lemma MarchMonths(doy: int, mp: int)
    requires 0 <= doy <= 365 && mp == (5 * doy + 2) / 153
    ensures 0 <= mp <= 11
    ensures var s := (153 * mp + 2) / 5;
            && s <= doy
            && (mp == 0 ==> s == 0 && doy < 31) && (mp == 1 ==> s == 31 && doy < 61) && (mp == 2 ==> s == 61 && doy < 92)
            && (mp == 3 ==> s == 92 && doy < 122) && (mp == 4 ==> s == 122 && doy < 153) && (mp == 5 ==> s == 153 && doy < 184)
            && (mp == 6 ==> s == 184 && doy < 214) && (mp == 7 ==> s == 214 && doy < 245) && (mp == 8 ==> s == 245 && doy < 275)
            && (mp == 9 ==> s == 275 && doy < 306) && (mp == 10 ==> s == 306 && doy < 337) && (mp == 11 ==> s == 337)
  {
  }

  // ---- the conversion is right ----

  /** The date is a date of the Gregorian calendar, and the one that day has; day of week and of year are right. */
  lemma DaysExact(days: int)
    ensures var r := CivilFromDays(days);
            && ValidDate(r.year + 1900, r.mon, r.mday) && DayNumber(r.year + 1900, r.mon, r.mday) == days
            && r.yday == MonthStart(r.year + 1900, r.mon) + r.mday - 1
            && r.wday == (days + 4) % 7
  {
    hide YearStart, MonthStart, YearOfEra, Leap, ValidDate, Div, Rem, FromMarch, EraYear;
    var z := days + SHIFT;
    var era := Div(if z >= 0 then z else z - 146096, ERA);
    var doe := z - era * ERA;
    EraOf(days);
    YearOfEraRight(doe);
    var yoe := YearOfEra(doe);
    var y, doy := yoe + era * 400, doe - EraYear(yoe);
    EraIsCalendar(yoe, era);
    Weekday(days);
    FromMarchExact(y, yoe, doy, (days + 4) % 7);
  }

  lemma FromMarchExact(y: int, yoe: int, doy: int, wday: int)
    requires 0 <= doy <= 365 && (doy == 365 ==> Leap(y + 1)) && YearStart(y + 1) == YearStart(y) + YearLength(y)
    requires Leap(y) <==> (yoe % 4 == 0 && yoe % 100 != 0) || yoe == 0
    ensures var r := FromMarch(y, yoe, doy, wday);
            && ValidDate(r.year + 1900, r.mon, r.mday) && r.wday == wday
            && DayNumber(r.year + 1900, r.mon, r.mday) == YearStart(y) + MonthStart(y, 2) + doy
            && r.yday == MonthStart(r.year + 1900, r.mon) + r.mday - 1
  {
    hide Leap, ValidDate, YearStart, MonthStart;
    Month(doy, y);
    MonthStarts(y);
  }

  /** The first of January 1970 was a Thursday. */
  lemma Weekday(days: int)
    ensures (if days >= -4 then Rem(days + 4, 7) else Rem(days + 5, 7) + 6) == (days + 4) % 7
  {
  }

  // ---- seconds ----

  /** The instant that a broken-down time means. */
  function Seconds(r: Tod): int
    requires 0 <= r.mon
  {
    DayNumber(r.year + 1900, r.mon, r.mday) * 86400 + r.hour * 3600 + r.min * 60 + r.sec
  }

  ghost predicate ValidTod(r: Tod) {
    && ValidDate(r.year + 1900, r.mon, r.mday)
    && 0 <= r.hour < 24 && 0 <= r.min < 60 && 0 <= r.sec < 60
    && r.yday == MonthStart(r.year + 1900, r.mon) + r.mday - 1
    && r.wday == (DayNumber(r.year + 1900, r.mon, r.mday) + 4) % 7
  }

  /** Every instant, also before 1970, becomes a valid time that means exactly this instant. */
  lemma TimeExact(t: int)
    ensures var r := TodTime(t); ValidTod(r) && Seconds(r) == t
  {
    hide Div, CivilFromDays, MonthStart, YearStart, ValidDate, DayNumber;
    var days := Div(if t >= 0 then t else t - 86399, 86400);
    DayOf(t);
    DaysExact(days);
    Clock(t - days * 86400);
  }

  lemma DayOf(t: int)
    ensures 0 <= t - Div(if t >= 0 then t else t - 86399, 86400) * 86400 < 86400
  {
  }

  lemma Clock(rem: int)
    requires 0 <= rem < 86400
    ensures var hour := rem / 60 / 60;
            var rest := rem - hour * 60 * 60;
            var min := rest / 60;
            var sec := rest - min * 60;
            0 <= hour < 24 && 0 <= min < 60 && 0 <= sec < 60 && hour * 3600 + min * 60 + sec == rem
  {
  }

  lemma InYear(y: int, mon: int, mday: int)
    requires ValidDate(y, mon, mday)
    ensures YearStart(y) <= DayNumber(y, mon, mday) < YearStart(y) + YearLength(y)
    ensures MonthStart(y, mon) + mday - 1 < MonthStart(y, mon + 1)
  {
    hide Leap;
    MonthStarts(y);
  }

  lemma {:induction false} YearsApart(a: int, b: int)
    requires a < b
    ensures YearStart(a) + YearLength(a) <= YearStart(b)
    decreases b - a
  {
    hide Leap;
    YearStartClosed(b);
    YearStartClosed(b - 1);
    LeapsStep(b - 1);
    if a < b - 1 {
      YearsApart(a, b - 1);
    }
  }

  lemma {:induction false} MonthsApart(y: int, a: nat, b: nat)
    requires a < b
    ensures MonthStart(y, a + 1) <= MonthStart(y, b)
  {
    if a + 1 < b {
      MonthsApart(y, a, b - 1);
    }
  }

  /** No two dates are the same day. */
  lemma OneDate(y: int, mon: int, mday: int, y': int, mon': int, mday': int)
    requires ValidDate(y, mon, mday) && ValidDate(y', mon', mday') && DayNumber(y, mon, mday) == DayNumber(y', mon', mday')
    ensures y == y' && mon == mon' && mday == mday'
  {
    hide YearStart, MonthStart, ValidDate, YearLength;
    InYear(y, mon, mday);
    InYear(y', mon', mday');
    MonthsFrom(y, mon, mday);
    MonthsFrom(y', mon', mday');
    if y < y' {
      YearsApart(y, y');
    } else if y' < y {
      YearsApart(y', y);
    } else if mon < mon' {
      MonthsApart(y, mon, mon');
    } else if mon' < mon {
      MonthsApart(y, mon', mon);
    }
  }

  lemma MonthsFrom(y: int, mon: int, mday: int)
    requires ValidDate(y, mon, mday)
    ensures 0 <= mon <= 11 && mday >= 1
  {
  }

  /** So the conversion also takes every valid time back to itself. */
  lemma RoundTrip(r: Tod)
    requires ValidTod(r)
    ensures TodTime(Seconds(r)) == r
  {
    hide TodTime, Seconds, DayNumber, MonthStart, ValidDate;
    MonthsFrom(r.year + 1900, r.mon, r.mday);
    TimeExact(Seconds(r));
    OneTod(r, TodTime(Seconds(r)));
  }

  lemma OneTod(r: Tod, s: Tod)
    requires ValidTod(r) && ValidTod(s) && Seconds(r) == Seconds(s)
    ensures r == s
  {
    hide YearStart, MonthStart, ValidDate, DayNumber;
    MonthsFrom(r.year + 1900, r.mon, r.mday);
    MonthsFrom(s.year + 1900, s.mon, s.mday);
    var d, e := DayNumber(r.year + 1900, r.mon, r.mday), DayNumber(s.year + 1900, s.mon, s.mday);
    SameDay(d, e, r, s);
    OneDate(r.year + 1900, r.mon, r.mday, s.year + 1900, s.mon, s.mday);
  }

  lemma SameDay(d: int, e: int, r: Tod, s: Tod)
    requires d * 86400 + r.hour * 3600 + r.min * 60 + r.sec == e * 86400 + s.hour * 3600 + s.min * 60 + s.sec
    requires 0 <= r.hour < 24 && 0 <= r.min < 60 && 0 <= r.sec < 60
    requires 0 <= s.hour < 24 && 0 <= s.min < 60 && 0 <= s.sec < 60
    ensures d == e && r.hour == s.hour && r.min == s.min && r.sec == s.sec
  {
    assert d == e;
    assert r.hour == s.hour;
  }

  /** From 1970 on the fields satisfy the formula for seconds since the Epoch of POSIX.1-2017, XBD section 4.16. */
  lemma PosixFormula(t: int)
    requires t >= 0
    ensures var r := TodTime(t);
            && r.year >= 70
            && r.sec + r.min * 60 + r.hour * 3600 + r.yday * 86400 + (r.year - 70) * 31536000
               + Div(r.year - 69, 4) * 86400 - Div(r.year - 1, 100) * 86400 + Div(r.year + 299, 400) * 86400 == t
  {
    var r := TodTime(t);
    TimeExact(t);
    hide TodTime, MonthStart, ValidDate, YearLength;
    var y := r.year + 1900;
    MonthsFrom(y, r.mon, r.mday);
    InYear(y, r.mon, r.mday);
    if y < 1970 {
      YearsApart(y, 1970);
    }
    YearStartClosed(y);
    PosixLeaps(r.year);
  }

  lemma PosixLeaps(year: int)
    requires year >= 70
    ensures Leaps(year + 1900) - 477 == Div(year - 69, 4) - Div(year - 1, 100) + Div(year + 299, 400)
  {
  }
}
