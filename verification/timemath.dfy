/**
 * Time-value arithmetic of ECMAScript Date objects (ECMA-262, section 21.4.1
 * "Overview of Date Objects and Definitions of Abstract Operations").
 *
 * A time value is an integer count of milliseconds since 1970-01-01T00:00:00Z
 * on the proleptic Gregorian calendar. The definitions below follow the
 * standard's abstract operations (Day, TimeWithinDay, DayFromYear,
 * YearFromTime, MonthFromTime, DateFromTime, WeekDay, HourFromTime, ...,
 * MakeTime, MakeDay, MakeDate). The standard's floor and modulo are Dafny's
 * Euclidean `/` and `%`, which agree with them for the positive divisors used
 * here.
 */
module TimeMath {

  const MsPerSecond: int := 1000
  const MsPerMinute: int := 60000
  const MsPerHour: int := 3600000
  const MsPerDay: int := 86400000

  /** Day(t): the day number containing time value t. */
  function Day(t: int): int { t / MsPerDay }

  /** TimeWithinDay(t): milliseconds since the start of that day. */
  function TimeWithinDay(t: int): int { t % MsPerDay }

  /**
   * Comparing a time value with an offset into day k is comparing days first,
   * then the time within the day.
   */
  lemma BeforeDayOffset(t: int, k: int, c: int)
    requires 0 <= c <= MsPerDay
    ensures t < k * MsPerDay + c <==> Day(t) < k || (Day(t) == k && TimeWithinDay(t) < c)
  {
    var q := Day(t);
    assert t == q * MsPerDay + TimeWithinDay(t) && 0 <= TimeWithinDay(t) < MsPerDay;
    if q < k {
      MulMonotone(q + 1, k, MsPerDay);
    } else if k < q {
      MulMonotone(k + 1, q, MsPerDay);
    }
  }

  /** DaysInYear(y) of the proleptic Gregorian calendar. */
  function DaysInYear(y: int): int
  {
    if y % 4 != 0 then 365
    else if y % 100 != 0 then 366
    else if y % 400 != 0 then 365
    else 366
  }

  /** 1 in a leap year, 0 otherwise (the standard's InLeapYear). */
  function Leap(y: int): int { DaysInYear(y) - 365 }

  /** DayFromYear(y): day number of the first day of year y. */
  function DayFromYear(y: int): int
  {
    365 * (y - 1970) + (y - 1969) / 4 - (y - 1901) / 100 + (y - 1601) / 400
  }

  /** Consecutive years are DaysInYear apart. */
  lemma DayFromYearStep(y: int)
    ensures DayFromYear(y + 1) == DayFromYear(y) + DaysInYear(y)
  {
    SuccQuotient(y - 1969, 4);
    ModShift(y, 4, -492);
    SuccQuotient(y - 1901, 100);
    ModShift(y, 100, -19);
    SuccQuotient(y - 1601, 400);
    ModShift(y, 400, -4);
  }

  /** x / k grows by one exactly when x + 1 is a multiple of k. */
  lemma SuccQuotient(x: int, k: int)
    requires 0 < k
    ensures (x + 1) / k == x / k + (if (x + 1) % k == 0 then 1 else 0)
  {
    var q, r := x / k, x % k;
    assert x == q * k + r;
    if r == k - 1 {
      DivModUnique(x + 1, k, q + 1, 0);
    } else {
      DivModUnique(x + 1, k, q, r + 1);
    }
  }

  /** Adding a multiple of k keeps the remainder modulo k. */
  lemma ModShift(y: int, k: int, c: int)
    requires 0 < k
    ensures (y + c * k) % k == y % k
  {
    DivModUnique(y + c * k, k, y / k + c, y % k);
  }

  /** DayFromYear stays within a few days of the mean Gregorian year length. */
  lemma DayFromYearBounds(y: int)
    ensures 146097 * (y - 1970) - 506 <= 400 * DayFromYear(y) <= 146097 * (y - 1970) + 589
  {
    var a, b, c := (y - 1969) / 4, (y - 1901) / 100, (y - 1601) / 400;
    assert 4 * a <= y - 1969 < 4 * a + 4;
    assert 100 * b <= y - 1901 < 100 * b + 100;
    assert 400 * c <= y - 1601 < 400 * c + 400;
  }

  /** DayFromYear is strictly increasing, year by year and overall. */
  lemma DayFromYearMonotone(y1: int, y2: int)
    requires y1 < y2
    ensures DayFromYear(y1) + DaysInYear(y1) <= DayFromYear(y2)
  {
    DayFromYearStep(y1);
    if y2 > y1 + 1 {
      DayFromYearBounds(y1 + 1);
      DayFromYearBounds(y2);
    }
  }

  /**
   * YearFromTime, on day numbers: the year whose first day is the last one
   * at or before day z. Computed from a mean-year estimate that is off by at
   * most one year, then corrected.
   */
  function YearFromDay(z: int): (y: int)
    ensures DayFromYear(y) <= z < DayFromYear(y) + DaysInYear(y)
  {
    var y0 := 1970 + (400 * z) / 146097;
    DayFromYearBounds(y0 - 1);
    DayFromYearBounds(y0 + 2);
    DayFromYearStep(y0 - 1);
    DayFromYearStep(y0);
    DayFromYearStep(y0 + 1);
    if z < DayFromYear(y0) then y0 - 1
    else if DayFromYear(y0 + 1) <= z then y0 + 1
    else y0
  }

  /** The year containing a day is unique: YearFromDay is the largest such year. */
  lemma YearFromDayUnique(y: int, z: int)
    requires DayFromYear(y) <= z < DayFromYear(y) + DaysInYear(y)
    ensures YearFromDay(z) == y
  {
    var y' := YearFromDay(z);
    if y' < y {
      DayFromYearMonotone(y', y);
    } else if y < y' {
      DayFromYearMonotone(y, y');
    }
  }

  /** Number of days of the year before month m (0-based), as in MonthFromTime. */
  function DaysBeforeMonth(m: int, leap: int): int
    requires 0 <= m < 12
  {
    if m == 0 then 0
    else if m == 1 then 31
    else if m == 2 then 59 + leap
    else if m == 3 then 90 + leap
    else if m == 4 then 120 + leap
    else if m == 5 then 151 + leap
    else if m == 6 then 181 + leap
    else if m == 7 then 212 + leap
    else if m == 8 then 243 + leap
    else if m == 9 then 273 + leap
    else if m == 10 then 304 + leap
    else 334 + leap
  }

  /** Length of month m (0-based) of year y. */
  function DaysInMonth(y: int, m: int): (n: int)
    requires 0 <= m < 12
    ensures 28 <= n <= 31
    ensures n == (if m == 11 then DaysInYear(y) else DaysBeforeMonth(m + 1, Leap(y))) - DaysBeforeMonth(m, Leap(y))
  {
    if m == 1 then 28 + Leap(y)
    else if m == 3 || m == 5 || m == 8 || m == 10 then 30
    else 31
  }

  /** The month (0-based) in which day-of-year d falls, as in MonthFromTime. */
  function MonthFromDayInYear(d: int, leap: int): int
  {
    if d < 31 then 0
    else if d < 59 + leap then 1
    else if d < 90 + leap then 2
    else if d < 120 + leap then 3
    else if d < 151 + leap then 4
    else if d < 181 + leap then 5
    else if d < 212 + leap then 6
    else if d < 243 + leap then 7
    else if d < 273 + leap then 8
    else if d < 304 + leap then 9
    else if d < 334 + leap then 10
    else 11
  }

  /** DayWithinYear, on day numbers. */
  function DayWithinYear(z: int): int { z - DayFromYear(YearFromDay(z)) }

  /** MonthFromTime, on day numbers: 0 = January ... 11 = December. */
  function MonthFromDay(z: int): (m: int)
    ensures 0 <= m < 12
  {
    MonthFromDayInYear(DayWithinYear(z), Leap(YearFromDay(z)))
  }

  /** DateFromTime, on day numbers: the day of the month, 1-based. */
  function DateFromDay(z: int): (d: int)
    ensures 1 <= d <= DaysInMonth(YearFromDay(z), MonthFromDay(z))
  {
    DayWithinYear(z) - DaysBeforeMonth(MonthFromDay(z), Leap(YearFromDay(z))) + 1
  }

  /** WeekDay, on day numbers: 0 = Sunday ... 6 = Saturday (day 0 was a Thursday). */
  function WeekDayOfDay(z: int): int { (z + 4) % 7 }

  /**
   * MakeDay(year, month, date): months outside 0..11 carry into the year and
   * dates outside the month's length carry into neighbouring months.
   */
  function MakeDay(year: int, month: int, date: int): int
  {
    var ym := year + month / 12;
    var mn := month % 12;
    DayFromYear(ym) + DaysBeforeMonth(mn, Leap(ym)) + date - 1
  }

  /** MakeDay is the exact inverse of the field readers, on valid fields. */
  lemma MakeDayFields(y: int, m: int, d: int)
    requires 0 <= m < 12 && 1 <= d <= DaysInMonth(y, m)
    ensures YearFromDay(MakeDay(y, m, d)) == y
    ensures MonthFromDay(MakeDay(y, m, d)) == m
    ensures DateFromDay(MakeDay(y, m, d)) == d
  {
    var z := MakeDay(y, m, d);
    assert m / 12 == 0 && m % 12 == m;
    assert z == DayFromYear(y) + DaysBeforeMonth(m, Leap(y)) + d - 1;
    YearFromDayUnique(y, z);
    assert DayWithinYear(z) == DaysBeforeMonth(m, Leap(y)) + d - 1;
    MonthOfDayInYear(m, d, Leap(y), DaysInMonth(y, m));
  }

  /** The day-of-year reader finds back the month a day was counted in. */
  lemma MonthOfDayInYear(m: int, d: int, leap: int, len: int)
    requires 0 <= m < 12 && 0 <= leap <= 1 && 1 <= d <= len
    requires len == (if m == 11 then 365 + leap else DaysBeforeMonth(m + 1, leap)) - DaysBeforeMonth(m, leap)
    ensures MonthFromDayInYear(DaysBeforeMonth(m, leap) + d - 1, leap) == m
  {
    if m < 6 {
      if m == 0 {} else if m == 1 {} else if m == 2 {} else if m == 3 {} else if m == 4 {} else {}
    } else {
      if m == 6 {} else if m == 7 {} else if m == 8 {} else if m == 9 {} else if m == 10 {} else {}
    }
  }

  /** Every day is MakeDay of its own fields. */
  lemma FieldsMakeDay(z: int)
    ensures MakeDay(YearFromDay(z), MonthFromDay(z), DateFromDay(z)) == z
  {
    var y, m, d := YearFromDay(z), MonthFromDay(z), DateFromDay(z);
    assert d == DayWithinYear(z) - DaysBeforeMonth(m, Leap(y)) + 1;
    MakeDayInYear(y, m, d);
  }

  /** For a month within 0..11 MakeDay has no carry. */
  lemma MakeDayInYear(y: int, m: int, d: int)
    requires 0 <= m < 12
    ensures MakeDay(y, m, d) == DayFromYear(y) + DaysBeforeMonth(m, Leap(y)) + d - 1
  {
    assert m / 12 == 0 && m % 12 == m;
  }

  /** MakeDay is linear in its date argument: out-of-range dates roll over. */
  lemma MakeDayShift(y: int, m: int, d: int, k: int)
    ensures MakeDay(y, m, d + k) == MakeDay(y, m, d) + k
  {
  }

  /** Twelve months more is one year more: month arguments carry into the year. */
  lemma MakeDayYearCarry(y: int, m: int, d: int)
    ensures MakeDay(y, m + 12, d) == MakeDay(y + 1, m, d)
  {
    var q, r := m / 12, m % 12;
    assert m + 12 == 12 * (q + 1) + r;
    assert (m + 12) / 12 == q + 1 && (m + 12) % 12 == r;
  }

  /** Day 0 of the next month is the last day of this month. */
  lemma MonthLastDay(y: int, m: int)
    requires 0 <= m < 12
    ensures MakeDay(y, m + 1, 0) == MakeDay(y, m, 1) + DaysInMonth(y, m) - 1
  {
    if m == 11 {
      MonthLastDayDecember(y, m);
    } else {
      MonthLastDayWithinYear(y, m);
    }
  }

  lemma MonthLastDayWithinYear(y: int, m: int)
    requires 0 <= m < 11
    ensures MakeDay(y, m + 1, 0) == MakeDay(y, m, 1) + DaysInMonth(y, m) - 1
  {
    MakeDayInYear(y, m + 1, 0);
    MakeDayInYear(y, m, 1);
  }

  lemma MonthLastDayDecember(y: int, m: int)
    requires m == 11
    ensures MakeDay(y, m + 1, 0) == MakeDay(y, m, 1) + DaysInMonth(y, m) - 1
  {
    DayFromYearStep(y);
    MakeDayInYear(y, 11, 1);
    MakeDayInYear(y + 1, 0, 0);
    MakeDayYearCarry(y, 0, 0);
    assert MakeDay(y, 12, 0) == DayFromYear(y + 1) - 1;
    assert DaysInMonth(y, 11) == 31 && DaysBeforeMonth(11, Leap(y)) == 334 + Leap(y);
  }

  /** A leap day moves the later months' first days by at most one day. */
  lemma DaysBeforeMonthLeap(m: int)
    requires 0 <= m < 12
    ensures 0 <= DaysBeforeMonth(m, 1) - DaysBeforeMonth(m, 0) <= 1
  {
  }

  /** The first of month m, from the first of the year. */
  lemma FirstOfMonth(y: int, m: int)
    requires 0 <= m < 12
    ensures MakeDay(y, m, 1) == DayFromYear(y) + DaysBeforeMonth(m, Leap(y))
    ensures 0 <= Leap(y) <= 1
  {
  }

  /** The first of month m lies at least 364 days after the first of month m of an earlier year. */
  lemma FirstOfMonthYearsApart(y1: int, y2: int, m: int)
    requires 0 <= m < 12 && y1 < y2
    ensures MakeDay(y1, m, 1) + 364 <= MakeDay(y2, m, 1)
  {
    FirstOfMonth(y1, m);
    FirstOfMonth(y2, m);
    DayFromYearMonotone(y1, y2);
    DaysBeforeMonthLeap(m);
  }

  /**
   * The days whose month is m, near the first of month m of year y, are
   * exactly that month's days: the same month of another year is at least
   * 364 days away.
   */
  lemma SameMonthNearby(z: int, y: int, m: int)
    requires 0 <= m < 12 && MonthFromDay(z) == m
    requires MakeDay(y, m, 1) - 300 <= z < MakeDay(y, m, 1) + 300
    ensures MakeDay(y, m, 1) <= z < MakeDay(y, m, 1) + DaysInMonth(y, m)
    ensures YearFromDay(z) == y
  {
    var y', d := YearFromDay(z), DateFromDay(z);
    assert 1 <= d <= DaysInMonth(y', m);
    FieldsMakeDay(z);
    MakeDayShift(y', m, 1, d - 1);
    assert z == MakeDay(y', m, 1) + d - 1;
    if y' < y {
      FirstOfMonthYearsApart(y', y, m);
    } else if y < y' {
      FirstOfMonthYearsApart(y, y', m);
    } else {
      SameYearMonth(y', y, m);
    }
  }

  /** The first and the length of a month depend only on its year and month. */
  lemma SameYearMonth(y1: int, y2: int, m: int)
    requires 0 <= m < 12 && y1 == y2
    ensures MakeDay(y1, m, 1) == MakeDay(y2, m, 1) && DaysInMonth(y1, m) == DaysInMonth(y2, m)
  {
  }

  /** HourFromTime, MinFromTime, SecFromTime, msFromTime. */
  function HourFromTime(t: int): int { (t / MsPerHour) % 24 }
  function MinFromTime(t: int): int { (t / MsPerMinute) % 60 }
  function SecFromTime(t: int): int { (t / MsPerSecond) % 60 }
  function MsFromTime(t: int): int { t % MsPerSecond }

  /** MakeTime(hour, min, sec, ms), on integer arguments. */
  function MakeTime(h: int, m: int, s: int, ms: int): int
  {
    h * MsPerHour + m * MsPerMinute + s * MsPerSecond + ms
  }

  /** MakeDate(day, time). */
  function MakeDate(day: int, time: int): int { day * MsPerDay + time }

  /** A time value is recovered from its day and its clock fields. */
  lemma ClockFields(t: int)
    ensures 0 <= HourFromTime(t) < 24 && 0 <= MinFromTime(t) < 60
    ensures 0 <= SecFromTime(t) < 60 && 0 <= MsFromTime(t) < 1000
    ensures TimeWithinDay(t) == MakeTime(HourFromTime(t), MinFromTime(t), SecFromTime(t), MsFromTime(t))
    ensures t == MakeDate(Day(t), TimeWithinDay(t))
  {
    var q := t / MsPerSecond;
    assert t == 1000 * q + t % 1000;
    var r := q / 60;
    assert q == 60 * r + q % 60;
    var u := r / 60;
    assert r == 60 * u + r % 60;
    var v := u / 24;
    assert u == 24 * v + u % 24;
    assert t / MsPerMinute == r;
    assert t / MsPerHour == u;
    assert t / MsPerDay == v;
  }

  /** The clock fields of MakeDate(day, MakeTime(...)) for in-range fields. */
  lemma MakeDateFields(day: int, h: int, m: int, s: int, ms: int)
    requires 0 <= h < 24 && 0 <= m < 60 && 0 <= s < 60 && 0 <= ms < 1000
    ensures Day(MakeDate(day, MakeTime(h, m, s, ms))) == day
    ensures HourFromTime(MakeDate(day, MakeTime(h, m, s, ms))) == h
    ensures MinFromTime(MakeDate(day, MakeTime(h, m, s, ms))) == m
    ensures SecFromTime(MakeDate(day, MakeTime(h, m, s, ms))) == s
    ensures MsFromTime(MakeDate(day, MakeTime(h, m, s, ms))) == ms
  {
    var t := MakeDate(day, MakeTime(h, m, s, ms));
    var a := day * 24 + h;
    var b := a * 60 + m;
    var c := b * 60 + s;
    DivModUnique(t, MsPerDay, day, MakeTime(h, m, s, ms));
    DivModUnique(t, MsPerHour, a, m * MsPerMinute + s * MsPerSecond + ms);
    DivModUnique(a, 24, day, h);
    DivModUnique(t, MsPerMinute, b, s * MsPerSecond + ms);
    DivModUnique(b, 60, a, m);
    DivModUnique(t, MsPerSecond, c, ms);
    DivModUnique(c, 60, b, s);
  }

  /** Euclidean division has a unique quotient and remainder. */
  lemma DivModUnique(x: int, k: int, q: int, r: int)
    requires 0 < k && 0 <= r < k && x == q * k + r
    ensures x / k == q && x % k == r
  {
    var q', r' := x / k, x % k;
    assert x == q' * k + r';
    if q' < q {
      MulMonotone(q' + 1, q, k);
    } else if q < q' {
      MulMonotone(q + 1, q', k);
    }
  }

  /** Multiplying by a positive number keeps the order. */
  lemma {:induction false} MulMonotone(a: int, b: int, k: int)
    requires a <= b && 0 < k
    ensures a * k <= b * k
    decreases b - a
  {
    if a < b {
      MulMonotone(a + 1, b, k);
      assert (a + 1) * k == a * k + k;
    }
  }
}
