/**
 * ECMAScript Date objects on a host whose local time zone is a fixed offset:
 * getTimezoneOffset() is the constant H (minutes, positive west of UTC), so
 * LocalTime(t) = t - H minutes and UTC(l) = l + H minutes (ECMA-262 section
 * 21.4.1.25 and 21.4.1.26 with a constant offset and no daylight saving).
 *
 * A Date's [[DateValue]] is modelled by a class with one mutable field, so
 * that setDate / setMonth / setHours mutate it in place as in the source.
 */
module JsDate {
  import opened TimeMath

  /** The value of `new Date(x).getTime()`: an Invalid Date has the value NaN. */
  datatype TimeValue = Invalid | Time(ms: int)

  function LocalTime(t: int, H: int): int { t - H * MsPerMinute }

  function Utc(l: int, H: int): int { l + H * MsPerMinute }

  /** getFullYear, getMonth, getDate, getDay, getHours, getMinutes, getSeconds, getMilliseconds. */
  function LocalYear(t: int, H: int): int { YearFromDay(Day(LocalTime(t, H))) }
  function LocalMonth(t: int, H: int): int { MonthFromDay(Day(LocalTime(t, H))) }
  function LocalDate(t: int, H: int): int { DateFromDay(Day(LocalTime(t, H))) }
  function LocalWeekDay(t: int, H: int): int { WeekDayOfDay(Day(LocalTime(t, H))) }
  function LocalHours(t: int, H: int): int { HourFromTime(LocalTime(t, H)) }
  function LocalMinutes(t: int, H: int): int { MinFromTime(LocalTime(t, H)) }
  function LocalSeconds(t: int, H: int): int { SecFromTime(LocalTime(t, H)) }
  function LocalMilliseconds(t: int, H: int): int { MsFromTime(LocalTime(t, H)) }

  /** The local calendar day number of t. */
  function LocalDay(t: int, H: int): int { Day(LocalTime(t, H)) }

  /**
   * `new Date(year, month, date, hours, minutes, seconds, ms)` (section
   * 21.4.2.1): a year from 0 to 99 means 1900 + year, then the fields are
   * combined by MakeDay / MakeTime / MakeDate as local time and shifted to UTC.
   */
  function NewDate(year: int, month: int, date: int, h: int, m: int, s: int, ms: int, H: int): int
  {
    Utc(MakeDate(MakeDay(FullYear(year), month, date), MakeTime(h, m, s, ms)), H)
  }

  /** The year the Date constructor uses: 0 to 99 mean 1900 to 1999. */
  function FullYear(year: int): int
  {
    if 0 <= year <= 99 then 1900 + year else year
  }

  /** The value setDate(date) gives a Date whose value is t. */
  function SetDateValue(t: int, date: int, H: int): int
  {
    var l := LocalTime(t, H);
    Utc(MakeDate(MakeDay(YearFromDay(Day(l)), MonthFromDay(Day(l)), date), TimeWithinDay(l)), H)
  }

  /** The value setMonth(month) gives a Date whose value is t. */
  function SetMonthValue(t: int, month: int, H: int): int
  {
    var l := LocalTime(t, H);
    Utc(MakeDate(MakeDay(YearFromDay(Day(l)), month, DateFromDay(Day(l))), TimeWithinDay(l)), H)
  }

  /** The value setHours(h, m, s, ms) gives a Date whose value is t. */
  function SetHoursValue(t: int, h: int, m: int, s: int, ms: int, H: int): int
  {
    var l := LocalTime(t, H);
    Utc(MakeDate(Day(l), MakeTime(h, m, s, ms)), H)
  }

  /** setDate(getDate() + k) moves a date by exactly k days and keeps its local clock time. */
  lemma SetDateShift(t: int, k: int, H: int)
    ensures SetDateValue(t, LocalDate(t, H) + k, H) == t + k * MsPerDay
  {
    var l := LocalTime(t, H);
    FieldsMakeDay(Day(l));
    MakeDayShift(YearFromDay(Day(l)), MonthFromDay(Day(l)), DateFromDay(Day(l)), k);
    ClockFields(l);
  }

  /** setHours(h, m, s, ms) keeps the local day and sets the local clock to h:m:s.ms. */
  lemma SetHoursFields(t: int, h: int, m: int, s: int, ms: int, H: int)
    requires 0 <= h < 24 && 0 <= m < 60 && 0 <= s < 60 && 0 <= ms < 1000
    ensures LocalDay(SetHoursValue(t, h, m, s, ms, H), H) == LocalDay(t, H)
    ensures LocalTime(SetHoursValue(t, h, m, s, ms, H), H) == LocalDay(t, H) * MsPerDay + MakeTime(h, m, s, ms)
  {
    MakeDateFields(LocalDay(t, H), h, m, s, ms);
  }

  /** Moving by whole days moves the local day number and keeps the clock. */
  lemma ShiftDays(t: int, k: int, H: int)
    ensures LocalDay(t + k * MsPerDay, H) == LocalDay(t, H) + k
    ensures TimeWithinDay(LocalTime(t + k * MsPerDay, H)) == TimeWithinDay(LocalTime(t, H))
  {
    ClockFields(LocalTime(t, H));
  }

  /**
   * new Date(year, month, date, h, m, s, ms) with in-range fields and a year
   * outside 0..99 reads back the same local fields.
   */
  lemma NewDateFields(year: int, month: int, date: int, h: int, m: int, s: int, ms: int, H: int)
    requires !(0 <= year <= 99) && 0 <= month < 12 && 1 <= date <= DaysInMonth(year, month)
    requires 0 <= h < 24 && 0 <= m < 60 && 0 <= s < 60 && 0 <= ms < 1000
    ensures LocalDay(NewDate(year, month, date, h, m, s, ms, H), H) == MakeDay(year, month, date)
    ensures LocalYear(NewDate(year, month, date, h, m, s, ms, H), H) == year
    ensures LocalMonth(NewDate(year, month, date, h, m, s, ms, H), H) == month
    ensures LocalDate(NewDate(year, month, date, h, m, s, ms, H), H) == date
    ensures LocalHours(NewDate(year, month, date, h, m, s, ms, H), H) == h
    ensures LocalMinutes(NewDate(year, month, date, h, m, s, ms, H), H) == m
  {
    MakeDayFields(year, month, date);
    MakeDateFields(MakeDay(year, month, date), h, m, s, ms);
  }

  /** A Date object: its only state is the time value, changed by the setters. */
  class Date {
    var value: int

    constructor (t: int)
      ensures value == t
    {
      value := t;
    }

    function GetDate(H: int): int
      reads this
    {
      LocalDate(value, H)
    }

    function GetDay(H: int): int
      reads this
    {
      LocalWeekDay(value, H)
    }

    function GetMonth(H: int): int
      reads this
    {
      LocalMonth(value, H)
    }

    /** Date.prototype.setDate. */
    method SetDate(date: int, H: int)
      modifies this
      ensures value == SetDateValue(old(value), date, H)
    {
      value := SetDateValue(value, date, H);
    }

    /** Date.prototype.setMonth with one argument. */
    method SetMonth(month: int, H: int)
      modifies this
      ensures value == SetMonthValue(old(value), month, H)
    {
      value := SetMonthValue(value, month, H);
    }

    /** Date.prototype.setHours with all four arguments. */
    method SetHours(h: int, m: int, s: int, ms: int, H: int)
      modifies this
      ensures value == SetHoursValue(old(value), h, m, s, ms, H)
    {
      value := SetHoursValue(value, h, m, s, ms, H);
    }
  }
}
