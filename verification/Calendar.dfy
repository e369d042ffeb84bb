/**
 Seconds since 1970 and civil dates (fs/time.c): the two conversions are loops over years and months, and the
 weekday comes from Zeller's formula. The day count below is what the three are compared with.
 */
module Calendar {

  const BASE := 1970

  datatype Civil = Civil(year: nat, month: nat, day: nat, hour: nat, min: nat, sec: nat, dayIndex: int)

  /** applib_dt_is_leap_year */
  function Leap(year: nat): (r: nat) {
    if year % 400 == 0 then 1 else if year % 100 == 0 then 0 else if year % 4 == 0 then 1 else 0
  }

  /** applib_dt_last_day_of_mon */
  function LastDay(month: nat, year: nat): (r: nat) {
    match month
    case 1 => 31 case 3 => 31 case 4 => 30 case 5 => 31 case 6 => 30 case 7 => 31
    case 8 => 31 case 9 => 30 case 10 => 31 case 11 => 30 case 12 => 31
    case _ => 28 + Leap(year)
  }

  // ---- the day count

  /** The days from 1 January 1970 to 1 January of `year`. */
  function DaysToYear(year: nat): (n: nat) {
    if year <= BASE then 0 else DaysToYear(year - 1) + 365 + Leap(year - 1)
  }

  /** The days of `year` before `month`. */
  function DaysToMonth(month: nat, year: nat): (n: nat) {
    if month <= 1 then 0 else DaysToMonth(month - 1, year) + LastDay(month - 1, year)
  }

  function DayNumber(year: nat, month: nat, day: nat): (n: int) {
    DaysToYear(year) + DaysToMonth(month, year) + day - 1
  }

  predicate ValidDate(year: nat, month: nat, day: nat) {
    year >= BASE && 1 <= month <= 12 && 1 <= day <= LastDay(month, year)
  }

  predicate ValidTime(t: Civil) {
    t.hour < 24 && t.min < 60 && t.sec < 60
  }

  function Seconds(t: Civil): (n: int) {
    DayNumber(t.year, t.month, t.day) * 86400 + t.hour * 3600 + t.min * 60 + t.sec
  }

  lemma MonthsFillHalf(year: nat)
    ensures DaysToMonth(1, year) == 0 && DaysToMonth(2, year) == 31 && DaysToMonth(3, year) == 59 + Leap(year)
    ensures DaysToMonth(4, year) == 90 + Leap(year) && DaysToMonth(5, year) == 120 + Leap(year)
    ensures DaysToMonth(6, year) == 151 + Leap(year) && DaysToMonth(7, year) == 181 + Leap(year)
  {
    assert DaysToMonth(2, year) == 31;
    assert DaysToMonth(3, year) == 59 + Leap(year);
    assert DaysToMonth(4, year) == 90 + Leap(year);
    assert DaysToMonth(5, year) == 120 + Leap(year);
  }

  lemma MonthsFillYear(year: nat)
    ensures DaysToMonth(1, year) == 0 && DaysToMonth(2, year) == 31 && DaysToMonth(3, year) == 59 + Leap(year)
    ensures DaysToMonth(4, year) == 90 + Leap(year) && DaysToMonth(5, year) == 120 + Leap(year)
    ensures DaysToMonth(6, year) == 151 + Leap(year) && DaysToMonth(7, year) == 181 + Leap(year)
    ensures DaysToMonth(8, year) == 212 + Leap(year) && DaysToMonth(9, year) == 243 + Leap(year)
    ensures DaysToMonth(10, year) == 273 + Leap(year) && DaysToMonth(11, year) == 304 + Leap(year)
    ensures DaysToMonth(12, year) == 334 + Leap(year) && DaysToMonth(13, year) == 365 + Leap(year)
  {
    MonthsFillHalf(year);
    assert DaysToMonth(8, year) == 212 + Leap(year);
    assert DaysToMonth(9, year) == 243 + Leap(year);
    assert DaysToMonth(10, year) == 273 + Leap(year);
    assert DaysToMonth(11, year) == 304 + Leap(year);
  }

  lemma {:induction false} MonthMonotone(m: nat, n: nat, year: nat)
    requires 1 <= m < n
    ensures DaysToMonth(m, year) + LastDay(m, year) <= DaysToMonth(n, year)
  {
    if m < n - 1 {
      MonthMonotone(m, n - 1, year);
    }
  }

  lemma {:induction false} YearMonotone(y: nat, z: nat)
    requires BASE <= y < z
    ensures DaysToYear(y) + 365 + Leap(y) <= DaysToYear(z)
    ensures DaysToYear(y) + 365 * (z - y) <= DaysToYear(z)
  {
    if y < z - 1 {
      YearMonotone(y, z - 1);
    }
  }

  /** The day of a valid date lies within its year. */
  lemma WithinYear(year: nat, month: nat, day: nat)
    requires ValidDate(year, month, day)
    ensures DaysToYear(year) <= DayNumber(year, month, day) < DaysToYear(year) + 365 + Leap(year)
  {
    MonthMonotone(month, 13, year);
    MonthsFillYear(year);
  }

  /** Two valid dates with the same day number are the same date. */
  lemma DateIsUnique(y: nat, m: nat, d: nat, y': nat, m': nat, d': nat)
    requires ValidDate(y, m, d) && ValidDate(y', m', d') && DayNumber(y, m, d) == DayNumber(y', m', d')
    ensures y == y' && m == m' && d == d'
  {
    WithinYear(y, m, d);
    WithinYear(y', m', d');
    if y < y' {
      YearMonotone(y, y');
    } else if y' < y {
      YearMonotone(y', y);
    } else if m < m' {
      MonthMonotone(m, m', y);
    } else if m' < m {
      MonthMonotone(m', m, y);
    }
  }

  // ---- the weekday

  /** The value of a signed char that is assigned `x`. */
  function ToChar(x: int): (c: int) {
    (x + 128) % 256 - 128
  }

  /** Division that rounds toward zero. */
  function Quot4(x: int): (q: int) {
    if x >= 0 then x / 4 else -(-x / 4)
  }

  function Quot7(x: int): (q: int) {
    if x >= 0 then x / 7 else -(-x / 7)
  }

  function Quot100(x: int): (q: int) {
    if x >= 0 then x / 100 else -(-x / 100)
  }

  /** Zeller's terms for the century and the year of the century. */
  function YearTerm(y: int): (n: int) {
    var century, ofCentury := ToChar(Quot100(y)), y - 100 * Quot100(y);
    ofCentury + Quot4(ofCentury) + Quot4(century) - 2 * century
  }

  /** `week` before it is reduced; January and February count as months 13 and 14 of the year before. */
  function Week(year: nat, month: nat, day: nat): (n: int) {
    if month == 1 || month == 2 then YearTerm(year - 1) + 26 * (month + 13) / 10 + day - 1
    else YearTerm(year) + 26 * (month + 1) / 10 + day - 1
  }

  /** `week % 7`, moved up by 7 when `week` is not positive. */
  function Reduced(week: int): (n: int) {
    if week > 0 then week % 7 else week - 7 * Quot7(week) + 7
  }

  /** applib_dt_dayindex */
  function DayIndex(year: nat, month: nat, day: nat): (n: int) {
    Reduced(Week(year, month, day))
  }

  lemma ReducedIsRemainder(week: int, n: int, weeks: int)
    requires week == n - 7 * weeks
    ensures Reduced(week) == if n % 7 == 0 && week <= 0 then 7 else n % 7
  {
    var q := n / 7;
    assert week == 7 * (q - weeks) + n % 7;
    assert week % 7 == n % 7;
    if week <= 0 {
      assert -week == 7 * (-week / 7) + -week % 7;
    }
  }

  lemma YearTermAt(c: nat, k: nat)
    requires c < 128 && k < 100
    ensures YearTerm(100 * c + k) == k + k / 4 + c / 4 - 2 * c
  {
    assert (100 * c + k) / 100 == c;
  }

  lemma LeapAt(c: nat, k: nat)
    requires k < 100
    ensures Leap(100 * c + k) == if (if k == 0 then c % 4 == 0 else k % 4 == 0) then 1 else 0
  {
    var y, q, t := 100 * c + k, c / 4, k / 4;
    assert y % 100 == k;
    Remainder4(y, 25 * c + t, k % 4);
    assert c == 4 * q + c % 4;
    Remainder400(y, q, 100 * (c % 4) + k);
  }

  lemma Remainder4(x: nat, q: nat, rest: nat)
    requires x == 4 * q + rest && rest < 4
    ensures x % 4 == rest
  {
  }

  lemma Remainder400(x: nat, q: nat, rest: nat)
    requires x == 400 * q + rest && rest < 400
    ensures x % 400 == rest
  {
  }

  lemma QuarterStep(n: nat)
    requires n > 0
    ensures n / 4 - (n - 1) / 4 == if n % 4 == 0 then 1 else 0
  {
  }

  /** From one year to the next the year term grows by the days of the year, up to whole weeks. */
  lemma YearTermStep(y: nat)
    requires 1 <= y < 12800
    ensures YearTerm(y) - YearTerm(y - 1) == Leap(y) + 1 - if y % 100 == 0 then 7 * 18 else 0
  {
    var c, k := y / 100, y % 100;
    YearTermAt(c, k);
    LeapAt(c, k);
    if k == 0 {
      assert y - 1 == 100 * (c - 1) + 99;
      YearTermAt(c - 1, 99);
      QuarterStep(c);
    } else {
      assert y - 1 == 100 * c + (k - 1);
      YearTermAt(c, k - 1);
      QuarterStep(k);
    }
  }

  /** The whole weeks that the year terms leave out up to `year`. */
  function Skipped(year: nat): (n: int) {
    if year <= BASE then -12 else Skipped(year - 1) + if (year - 1) % 100 == 0 then 70 else 52
  }

  lemma YearTermBase()
    ensures YearTerm(BASE - 1) + 32 == 84
  {
  }

  lemma {:induction false} YearTermCounts(y: nat)
    requires BASE <= y < 12800
    ensures YearTerm(y - 1) + 32 == DaysToYear(y) - 7 * Skipped(y)
  {
    YearTermBase();
    if y > BASE {
      YearTermCounts(y - 1);
      YearTermStep(y - 1);
    }
  }

  /** The month term counts the days before the month, up to whole weeks. */
  lemma MonthTermCounts(m: nat, year: nat)
    requires 3 <= m <= 12
    ensures 26 * (m + 1) / 10 == DaysToMonth(m, year) - Leap(year) - 7 * (4 * m - 5)
  {
    MonthsFillYear(year);
  }

  /** The weekday formula counts the days: it agrees modulo 7 with the day number, which is 0 on a Thursday. */
  lemma WeekCountsDays(year: nat, month: nat, day: nat) returns (weeks: int)
    requires ValidDate(year, month, day) && year < 12800
    ensures Week(year, month, day) == DayNumber(year, month, day) + 4 - 7 * weeks
  {
    YearTermCounts(year);
    if month <= 2 {
      weeks := Skipped(year) + if month == 1 then 0 else 4;
      MonthsFillYear(year);
    } else {
      weeks := Skipped(year) + 4 * month + if year % 100 == 0 then 18 else 0;
      YearTermStep(year);
      MonthTermCounts(month, year);
    }
  }

  /** DayIndex agrees modulo 7 with the day number, and is a number from 0 to 6 except on some Sundays. */
  lemma DayIndexIsWeekday(year: nat, month: nat, day: nat)
    requires ValidDate(year, month, day) && year < 12800
    ensures var n := DayIndex(year, month, day); var w := (DayNumber(year, month, day) + 4) % 7;
            n == if w == 0 && Week(year, month, day) <= 0 then 7 else w
  {
    var weeks := WeekCountsDays(year, month, day);
    ReducedIsRemainder(Week(year, month, day), DayNumber(year, month, day) + 4, weeks);
  }

  /** A Sunday whose index is 7. */
  lemma SundayWithIndexSeven()
    ensures ValidDate(2000, 3, 5) && DayIndex(2000, 3, 5) == 7
  {
    YearTermAt(20, 0);
    assert Week(2000, 3, 5) == -21;
  }

  // ---- the conversions

  /** utc_sec_2_mytime: the civil date and time of a 32-bit second count. */
  method ToCivil(utc: nat, daylight: bool) returns (t: Civil)
    requires utc < 0x1_0000_0000
    ensures ValidDate(t.year, t.month, t.day) && ValidTime(t) && t.year <= 2106
    ensures Seconds(t) == if daylight then (utc + 3600) % 0x1_0000_0000 else utc
    ensures t.dayIndex == DayIndex(t.year, t.month, t.day)
  {
    var s := if daylight then (utc + 3600) % 0x1_0000_0000 else utc;
    var sec := s % 86400;
    var hour := sec / 3600;
    sec := sec % 3600;
    var min := sec / 60;
    ghost var days := s / 86400;
    var day, y := s / 86400, BASE;
    while day > 0
      invariant y >= BASE && day >= 0 && DaysToYear(y) + day == days
      decreases day
    {
      var d := 365 + Leap(y);
      if day >= d {
        day := day - d;
      } else {
        break;
      }
      y := y + 1;
    }
    var m := 1;
    MonthsFillYear(y);
    while m < 12
      invariant 1 <= m <= 12 && day >= 0 && DaysToYear(y) + DaysToMonth(m, y) + day == days
      invariant DaysToMonth(m, y) + day < 365 + Leap(y)
    {
      var d := LastDay(m, y);
      if day >= d {
        day := day - d;
      } else {
        break;
      }
      m := m + 1;
    }
    t := Civil(y, m, day + 1, hour, min, sec % 60, DayIndex(y, m, day + 1));
    if y > 2106 {
      YearMonotone(BASE, y);
    }
  }

  /** mytime_2_utc_sec, in 32-bit arithmetic; `dst` is a local variable that the code never sets. */
  method ToSeconds(t: Civil, dst: bool, daylight: bool) returns (utc: nat)
    ensures utc == if t.year < BASE then 0 else (Seconds(t) - if dst && daylight then 3600 else 0) % 0x1_0000_0000
  {
    if t.year < BASE {
      return 0;
    }
    var days: int := 0;
    for i: nat := BASE to t.year
      invariant days == DaysToYear(i)
    {
      days := days + 365 + Leap(i);
    }
    var i: nat := 1;
    while i < t.month
      invariant days == DaysToYear(t.year) + DaysToMonth(i, t.year) && (i == 1 || i <= t.month)
    {
      days := days + LastDay(i, t.year);
      i := i + 1;
    }
    days := days + t.day - 1;
    var sum := days * 86400 + t.hour * 3600 + t.min * 60 + t.sec;
    if dst && daylight {
      sum := sum - 3600;
    }
    utc := sum % 0x1_0000_0000;
  }

  /**
   A 32-bit second count survives the conversion to a civil date and back, except with daylight saving when the
   variable that the code never sets happens to be 0.
   */
  method RoundTrip(utc: nat, dst: bool, daylight: bool) returns (r: nat)
    requires utc < 0x1_0000_0000
    ensures r == utc <==> !daylight || dst
  {
    var t := ToCivil(utc, daylight);
    r := ToSeconds(t, dst, daylight);
    ShiftedBack(utc, Seconds(t), dst, daylight);
  }

  /** Adding an hour modulo 2^32 can be undone, and never does nothing. */
  lemma ShiftedBack(utc: nat, n: int, dst: bool, daylight: bool)
    requires utc < 0x1_0000_0000 && n == if daylight then (utc + 3600) % 0x1_0000_0000 else utc
    ensures (n - if dst && daylight then 3600 else 0) % 0x1_0000_0000 == utc <==> !daylight || dst
  {
    if daylight {
      assert n == utc + 3600 || n == utc + 3600 - 0x1_0000_0000;
    }
  }

  /** Every valid date and time whose second count fits in 32 bits survives the conversion to seconds and back. */
  method RoundTripCivil(t: Civil) returns (r: Civil)
    requires ValidDate(t.year, t.month, t.day) && ValidTime(t) && Seconds(t) < 0x1_0000_0000
    ensures r == t.(dayIndex := DayIndex(t.year, t.month, t.day))
  {
    WithinYear(t.year, t.month, t.day);
    FitsInWord(Seconds(t));
    var s := ToSeconds(t, false, false);
    r := ToCivil(s, false);
    TimeIsUnique(r, t);
  }

  lemma FitsInWord(n: int)
    requires 0 <= n < 0x1_0000_0000
    ensures n % 0x1_0000_0000 == n
  {
  }

  lemma SecondsSplit(t: Civil, u: Civil, n: int, k: int)
    requires ValidTime(t) && ValidTime(u)
    requires n * 86400 + t.hour * 3600 + t.min * 60 + t.sec == k * 86400 + u.hour * 3600 + u.min * 60 + u.sec
    ensures n == k && t.hour == u.hour && t.min == u.min && t.sec == u.sec
  {
    assert n == k;
    assert t.hour == u.hour;
  }

  lemma TimeIsUnique(t: Civil, u: Civil)
    requires ValidDate(t.year, t.month, t.day) && ValidDate(u.year, u.month, u.day) && ValidTime(t) && ValidTime(u)
    requires Seconds(t) == Seconds(u)
    ensures u == t.(dayIndex := u.dayIndex)
  {
    SecondsSplit(t, u, DayNumber(t.year, t.month, t.day), DayNumber(u.year, u.month, u.day));
    DateIsUnique(t.year, t.month, t.day, u.year, u.month, u.day);
  }
}
