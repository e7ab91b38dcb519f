/**
 * The calendar of src/components/CalendarView.tsx: navigation by month,
 * week or day, the week strip and the 42-cell month grid (built by mutating
 * Date objects in loops), the posts of a cell, the day view's sort and hour
 * buckets, the hour labels and the three-post cap of a month cell. The
 * current time is the parameter `now`, the host offset `H` (minutes).
 */
module CalendarView {
  import opened Optional
  import opened TimeMath
  import opened JsString
  import opened JsDate
  import opened IsoFormat
  import opened DateUtils
  import opened PostTypes
  import opened Lists
  import opened Sorting

  datatype ViewType = MonthView | WeekView | DayView

  datatype Direction = Prev | Next

  /** +1 for 'next', -1 for 'prev'. */
  function Step(dir: Direction): int
  {
    if dir == Next then 1 else -1
  }

  /**
   * The value navigateDate gives the copy of currentDate: setMonth(getMonth()
   * ± 1) in the month view, setDate(getDate() ± 7) in the week view and
   * setDate(getDate() ± 1) in the day view. Weeks and days move by exactly
   * 7 or 1 days and keep the clock time.
   */
  function NavigatedValue(t: int, view: ViewType, dir: Direction, H: int): (r: int)
    ensures view == WeekView ==> r == t + 7 * Step(dir) * MsPerDay
    ensures view == DayView ==> r == t + Step(dir) * MsPerDay
  {
    match view
    case MonthView => SetMonthValue(t, LocalMonth(t, H) + Step(dir), H)
    case WeekView =>
      SetDateShift(t, 7 * Step(dir), H);
      SetDateValue(t, LocalDate(t, H) + 7 * Step(dir), H)
    case DayView =>
      SetDateShift(t, Step(dir), H);
      SetDateValue(t, LocalDate(t, H) + Step(dir), H)
  }

  /** In the week and day views, 'next' then 'prev' comes back to the same instant. */
  lemma NextPrevRestores(t: int, view: ViewType, H: int)
    requires view != MonthView
    ensures NavigatedValue(NavigatedValue(t, view, Next, H), view, Prev, H) == t
  {
  }

  /** A local time splits into its day number and its time within the day. */
  lemma SplitLocal(z: int, tw: int)
    requires 0 <= tw < MsPerDay
    ensures Day(z * MsPerDay + tw) == z && TimeWithinDay(z * MsPerDay + tw) == tw
  {
  }

  /**
   * On calendar fields: the same day of the next month exists when the day
   * of the month is at most 28, and December carries into January.
   */
  lemma NextMonthFields(y: int, m: int, d: int)
    requires 0 <= m < 12 && 1 <= d <= 28
    ensures m < 11 ==> YearFromDay(MakeDay(y, m + 1, d)) == y && MonthFromDay(MakeDay(y, m + 1, d)) == m + 1
    ensures m == 11 ==> YearFromDay(MakeDay(y, m + 1, d)) == y + 1 && MonthFromDay(MakeDay(y, m + 1, d)) == 0
    ensures DateFromDay(MakeDay(y, m + 1, d)) == d
  {
    if m == 11 {
      NextMonthDecember(y, m, d);
    } else {
      NextMonthWithinYear(y, m, d);
    }
  }

  lemma NextMonthWithinYear(y: int, m: int, d: int)
    requires 0 <= m < 11 && 1 <= d <= 28
    ensures YearFromDay(MakeDay(y, m + 1, d)) == y
    ensures MonthFromDay(MakeDay(y, m + 1, d)) == m + 1
    ensures DateFromDay(MakeDay(y, m + 1, d)) == d
  {
    assert d <= DaysInMonth(y, m + 1);
    MakeDayFields(y, m + 1, d);
  }

  lemma NextMonthDecember(y: int, m: int, d: int)
    requires m == 11 && 1 <= d <= 28
    ensures YearFromDay(MakeDay(y, m + 1, d)) == y + 1
    ensures MonthFromDay(MakeDay(y, m + 1, d)) == 0
    ensures DateFromDay(MakeDay(y, m + 1, d)) == d
  {
    MakeDayYearCarry(y, 0, d);
    MakeDayFields(y + 1, 0, d);
  }

  /** In the month view a step keeps the local day of month and clock and moves the month by one. */
  lemma MonthStepLocal(t: int, dir: Direction, H: int)
    ensures LocalTime(NavigatedValue(t, MonthView, dir, H), H) ==
      MakeDay(LocalYear(t, H), LocalMonth(t, H) + Step(dir), LocalDate(t, H)) * MsPerDay + TimeWithinDay(LocalTime(t, H))
  {
  }

  /**
   * In the month view, 'next' moves to the same day of the next month at
   * the same clock time when the day of the month is at most 28; December
   * moves to January of the next year.
   */
  lemma MonthNextFields(t: int, t1: int, H: int)
    requires LocalDate(t, H) <= 28
    requires t1 == NavigatedValue(t, MonthView, Next, H)
    ensures LocalDate(t1, H) == LocalDate(t, H) && TimeWithinDay(LocalTime(t1, H)) == TimeWithinDay(LocalTime(t, H))
    ensures LocalMonth(t, H) < 11 ==> LocalYear(t1, H) == LocalYear(t, H) && LocalMonth(t1, H) == LocalMonth(t, H) + 1
    ensures LocalMonth(t, H) == 11 ==> LocalYear(t1, H) == LocalYear(t, H) + 1 && LocalMonth(t1, H) == 0
  {
    MonthStepLocal(t, Next, H);
    MonthStepFields(t, t1, H);
  }

  /** The fields of an instant whose local time is one month after t's, on the same day and clock. */
  lemma MonthStepFields(t: int, t1: int, H: int)
    requires LocalDate(t, H) <= 28
    requires LocalTime(t1, H)
      == MakeDay(LocalYear(t, H), LocalMonth(t, H) + 1, LocalDate(t, H)) * MsPerDay + TimeWithinDay(LocalTime(t, H))
    ensures LocalDate(t1, H) == LocalDate(t, H) && TimeWithinDay(LocalTime(t1, H)) == TimeWithinDay(LocalTime(t, H))
    ensures LocalMonth(t, H) < 11 ==> LocalYear(t1, H) == LocalYear(t, H) && LocalMonth(t1, H) == LocalMonth(t, H) + 1
    ensures LocalMonth(t, H) == 11 ==> LocalYear(t1, H) == LocalYear(t, H) + 1 && LocalMonth(t1, H) == 0
  {
    MonthStepDays(LocalTime(t, H), LocalTime(t1, H));
  }

  /** MonthStepFields on local times. */
  lemma MonthStepDays(l: int, l1: int)
    requires DateFromDay(Day(l)) <= 28
    requires l1 == MakeDay(YearFromDay(Day(l)), MonthFromDay(Day(l)) + 1, DateFromDay(Day(l))) * MsPerDay + TimeWithinDay(l)
    ensures DateFromDay(Day(l1)) == DateFromDay(Day(l)) && TimeWithinDay(l1) == TimeWithinDay(l)
    ensures MonthFromDay(Day(l)) < 11 ==> YearFromDay(Day(l1)) == YearFromDay(Day(l)) && MonthFromDay(Day(l1)) == MonthFromDay(Day(l)) + 1
    ensures MonthFromDay(Day(l)) == 11 ==> YearFromDay(Day(l1)) == YearFromDay(Day(l)) + 1 && MonthFromDay(Day(l1)) == 0
  {
    var z := Day(l);
    var y, m, d := YearFromDay(z), MonthFromDay(z), DateFromDay(z);
    var z1 := MakeDay(y, m + 1, d);
    SplitLocal(z1, TimeWithinDay(l));
    assert Day(l1) == z1 && TimeWithinDay(l1) == TimeWithinDay(l);
    NextMonthFields(y, m, d);
    assert DateFromDay(z1) == d;
  }

  /** The day 'prev' computes after 'next' is the original local day. */
  lemma MonthNextPrevDay(t: int, t1: int, H: int)
    requires LocalDate(t, H) <= 28
    requires t1 == NavigatedValue(t, MonthView, Next, H)
    ensures MakeDay(LocalYear(t1, H), LocalMonth(t1, H) - 1, LocalDate(t, H)) == LocalDay(t, H)
  {
    var z := LocalDay(t, H);
    var y, m, d := YearFromDay(z), MonthFromDay(z), DateFromDay(z);
    MonthStepLocal(t, Next, H);
    MonthStepFields(t, t1, H);
    MonthBack(y, m, d, LocalYear(t1, H), LocalMonth(t1, H));
    FieldsMakeDay(z);
  }

  /**
   * The month before the next month, on calendar fields, for every month:
   * December's next month is January of the next year, whose month -1 is
   * December again.
   */
  lemma MonthBack(y: int, m: int, d: int, y1: int, m1: int)
    requires 0 <= m < 12
    requires m < 11 ==> y1 == y && m1 == m + 1
    requires m == 11 ==> y1 == y + 1 && m1 == 0
    ensures MakeDay(y1, m1 - 1, d) == MakeDay(y, m, d)
  {
    if m == 11 {
      SameMakeDay(y1, m1 - 1, d, y + 1, -1, d);
      MakeDayYearCarry(y, -1, d);
    }
  }

  /** ... and then 'prev' comes back to the same instant. */
  lemma MonthNextPrevRestores(t: int, H: int)
    requires LocalDate(t, H) <= 28
    ensures NavigatedValue(NavigatedValue(t, MonthView, Next, H), MonthView, Prev, H) == t
  {
    var l := LocalTime(t, H);
    var t1 := NavigatedValue(t, MonthView, Next, H);
    MonthNextFields(t, t1, H);
    MonthNextPrevDay(t, t1, H);
    var zz := MakeDay(LocalYear(t1, H), LocalMonth(t1, H) - 1, LocalDate(t1, H));
    assert zz == Day(l);
    MonthStepLocal(t1, Prev, H);
    var t2 := NavigatedValue(t1, MonthView, Prev, H);
    assert LocalTime(t2, H) == zz * MsPerDay + TimeWithinDay(l);
    ClockFields(l);
  }

  /** MakeDay of equal fields. */
  lemma SameMakeDay(y1: int, m1: int, d1: int, y2: int, m2: int, d2: int)
    requires y1 == y2 && m1 == m2 && d1 == d2
    ensures MakeDay(y1, m1, d1) == MakeDay(y2, m2, d2)
  {
  }

  /**
   * From January 31, 'next' overflows February into March, so 'prev' does
   * not come back: month navigation is not invertible at the end of a month.
   */
  lemma MonthNavigationFromJan31(t: int, H: int)
    requires LocalMonth(t, H) == 0 && LocalDate(t, H) == 31
    ensures LocalMonth(NavigatedValue(t, MonthView, Next, H), H) == 2
    ensures NavigatedValue(NavigatedValue(t, MonthView, Next, H), MonthView, Prev, H) != t
  {
    var y, l := LocalYear(t, H), LocalTime(t, H);
    var t1 := NavigatedValue(t, MonthView, Next, H);
    MonthStepLocal(t, Next, H);
    Jan31Next(y, TimeWithinDay(l), LocalTime(t1, H));
    var t2 := NavigatedValue(t1, MonthView, Prev, H);
    MonthStepLocal(t1, Prev, H);
    Jan31Back(y, 31 - DaysInMonth(y, 1), LocalTime(t2, H), TimeWithinDay(l));
  }

  /** A local time one month after January 31 (same clock time) falls in March, on day 31 less February's length. */
  lemma Jan31Next(y: int, tw: int, l1: int)
    requires 0 <= tw < MsPerDay && l1 == MakeDay(y, 1, 31) * MsPerDay + tw
    ensures YearFromDay(Day(l1)) == y && MonthFromDay(Day(l1)) == 2
    ensures DateFromDay(Day(l1)) == 31 - DaysInMonth(y, 1) && TimeWithinDay(l1) == tw
  {
    var d1 := 31 - DaysInMonth(y, 1);
    MakeDayInYear(y, 1, 31);
    MakeDayInYear(y, 2, d1);
    var z1 := MakeDay(y, 2, d1);
    assert l1 == z1 * MsPerDay + tw;
    SplitLocal(z1, tw);
    MakeDayFields(y, 2, d1);
  }

  /** One month back from March d1 lands in February, not January. */
  lemma Jan31Back(y: int, d1: int, l2: int, tw: int)
    requires d1 == 31 - DaysInMonth(y, 1) && 0 <= tw < MsPerDay
    requires l2 == MakeDay(y, 2 - 1, d1) * MsPerDay + tw
    ensures MonthFromDay(Day(l2)) == 1
  {
    var z2 := MakeDay(y, 1, d1);
    SplitLocal(z2, tw);
    MakeDayFields(y, 1, d1);
  }

  /**
   * getWeekStart: a copy of the date moved back by its local weekday with
   * setDate. The result is a local Sunday at the same clock time, 0 to 6
   * days before the date.
   */
  method GetWeekStart(t: int, H: int) returns (r: int)
    ensures r == t - LocalWeekDay(t, H) * MsPerDay
    ensures LocalDay(r, H) == WeekSunday(LocalDay(t, H)) && LocalWeekDay(r, H) == 0
    ensures r <= t < r + 7 * MsPerDay
    ensures TimeWithinDay(LocalTime(r, H)) == TimeWithinDay(LocalTime(t, H))
  {
    var d := new Date(t);
    var day := d.GetDay(H);
    var diff := d.GetDate(H) - day;
    d.SetDate(diff, H);
    SetDateShift(t, -day, H);
    ShiftDays(t, -day, H);
    assert 0 <= day < 7;
    r := d.value;
  }

  /**
   * WeekView's days: a copy of convertToIST(currentDate) moved back by its
   * local weekday, then seven copies moved forward by 0..6 days. The days
   * are consecutive, and the first one's local day is the Sunday of
   * currentDate's IST week, at currentDate's IST clock time.
   */
  method WeekDays(currentDate: int, now: int, H: int) returns (days: seq<int>)
    ensures |days| == 7
    ensures forall i :: 0 <= i < 7 ==> days[i] == days[0] + i * MsPerDay
    ensures LocalDay(days[0], H) == WeekSunday(Day(currentDate + IST_OFFSET))
    ensures TimeWithinDay(LocalTime(days[0], H)) == TimeWithinDay(currentDate + IST_OFFSET)
  {
    var ist := ConvertToIST(Obj(Time(currentDate)), now, H);
    var weekStart := new Date(ist);
    var wd := LocalWeekDay(ist, H);
    weekStart.SetDate(LocalDate(ist, H) - wd, H);
    SetDateShift(ist, -wd, H);
    ShiftDays(ist, -wd, H);
    assert LocalDay(ist, H) == Day(currentDate + IST_OFFSET);
    assert weekStart.value == ist + (-wd) * MsPerDay;
    days := SevenDaysFrom(weekStart, H);
  }

  /** WeekView's loop: for i = 0..6 a copy of weekStart moved i days on with setDate. */
  method SevenDaysFrom(weekStart: Date, H: int) returns (days: seq<int>)
    ensures |days| == 7
    ensures forall i :: 0 <= i < 7 ==> days[i] == weekStart.value + i * MsPerDay
  {
    days := [];
    var i := 0;
    while i < 7
      invariant 0 <= i <= 7 && |days| == i
      invariant forall j :: 0 <= j < i ==> days[j] == weekStart.value + j * MsPerDay
    {
      var day := MovedCopy(weekStart, i, H);
      days := days + [day];
      i := i + 1;
    }
  }

  /** `const day = new Date(weekStart); day.setDate(weekStart.getDate() + i)`: i days on, same clock time. */
  method MovedCopy(weekStart: Date, i: int, H: int) returns (v: int)
    ensures v == weekStart.value + i * MsPerDay
  {
    var ws := weekStart.value;
    var day := new Date(ws);
    day.SetDate(weekStart.GetDate(H) + i, H);
    v := day.value;
    SetDateShift(ws, i, H);
  }

  /**
   * The month MonthView shows: getISTYear and getISTMonth of
   * convertToIST(currentDate), which convert once more, so the IST offset
   * and the host offset count twice.
   */
  function GridYear(currentDate: int, H: int): (y: int)
    ensures DayFromYear(y) <= Day(currentDate + H * MsPerMinute + 2 * IST_OFFSET) < DayFromYear(y) + DaysInYear(y)
  {
    YearFromDay(Day(currentDate + H * MsPerMinute + 2 * IST_OFFSET))
  }

  function GridMonth(currentDate: int, H: int): (m: int)
    ensures 0 <= m < 12
  {
    MonthFromDay(Day(currentDate + H * MsPerMinute + 2 * IST_OFFSET))
  }

  /** monthStart: host-local midnight of the first of that month (two-digit years read as 19xx). */
  function GridMonthStart(currentDate: int, H: int): (r: int)
    ensures LocalYear(r, H) == FullYear(GridYear(currentDate, H)) && LocalMonth(r, H) == GridMonth(currentDate, H)
    ensures LocalDate(r, H) == 1 && TimeWithinDay(LocalTime(r, H)) == 0
  {
    var r := NewDate(GridYear(currentDate, H), GridMonth(currentDate, H), 1, 0, 0, 0, 0, H);
    FirstDayAt(FullYear(GridYear(currentDate, H)), GridMonth(currentDate, H), r, H);
    r
  }

  /** Local midnight of day 1 of month m of year y has those fields. */
  lemma FirstDayAt(y: int, m: int, r: int, H: int)
    requires 0 <= m < 12 && LocalTime(r, H) == MakeDay(y, m, 1) * MsPerDay
    ensures LocalYear(r, H) == y && LocalMonth(r, H) == m
    ensures LocalDate(r, H) == 1 && TimeWithinDay(LocalTime(r, H)) == 0
  {
    FirstDayFields(y, m, MakeDay(y, m, 1));
  }

  /** The number of days of the shown month. */
  function GridMonthLength(currentDate: int, H: int): (n: int)
    ensures 28 <= n <= 31
  {
    DaysInMonth(FullYear(GridYear(currentDate, H)), GridMonth(currentDate, H))
  }

  /** The cell of the first of the month: monthStart's local weekday. */
  function GridOffset(currentDate: int, H: int): (wd: int)
    ensures 0 <= wd < 7
  {
    LocalWeekDay(GridMonthStart(currentDate, H), H)
  }

  /** The first cell: monthStart moved back by its local weekday, a whole number of days from 0 to 6. */
  function GridStart(currentDate: int, H: int): (r: int)
    ensures r <= GridMonthStart(currentDate, H) < r + 7 * MsPerDay
    ensures (GridMonthStart(currentDate, H) - r) % MsPerDay == 0
  {
    var ms := GridMonthStart(currentDate, H);
    var wd := LocalWeekDay(ms, H);
    WholeDaysBack(ms, wd);
    ms - wd * MsPerDay
  }

  /** Going back 0 to 6 whole days from ms stays within the week before ms. */
  lemma WholeDaysBack(ms: int, wd: int)
    requires 0 <= wd < 7
    ensures ms - wd * MsPerDay <= ms < ms - wd * MsPerDay + 7 * MsPerDay
    ensures (ms - (ms - wd * MsPerDay)) % MsPerDay == 0
  {
    assert ms - (ms - wd * MsPerDay) == wd * MsPerDay;
  }

  /** monthStart is local midnight of the first of the shown month (two-digit years read as 19xx). */
  lemma GridMonthStartFields(currentDate: int, H: int)
    ensures LocalDay(GridMonthStart(currentDate, H), H)
      == MakeDay(FullYear(GridYear(currentDate, H)), GridMonth(currentDate, H), 1)
    ensures TimeWithinDay(LocalTime(GridMonthStart(currentDate, H), H)) == 0
  {
    SplitLocal(MakeDay(FullYear(GridYear(currentDate, H)), GridMonth(currentDate, H), 1), 0);
  }

  /** monthEnd, day 0 of the next month, is midnight of the last day of the shown month. */
  lemma GridMonthEnd(currentDate: int, H: int)
    ensures NewDate(GridYear(currentDate, H), GridMonth(currentDate, H) + 1, 0, 0, 0, 0, 0, H)
      == GridMonthStart(currentDate, H) + (GridMonthLength(currentDate, H) - 1) * MsPerDay
  {
    var yr, m := FullYear(GridYear(currentDate, H)), GridMonth(currentDate, H);
    var first := MakeDay(yr, m, 1);
    assert GridMonthStart(currentDate, H) == first * MsPerDay + H * MsPerMinute;
    MonthLastDay(yr, m);
  }

  /** The first cell is a local Sunday, 0 to 6 days before monthStart. */
  lemma GridStartSunday(currentDate: int, H: int)
    ensures LocalWeekDay(GridStart(currentDate, H), H) == 0
    ensures GridStart(currentDate, H) <= GridMonthStart(currentDate, H) < GridStart(currentDate, H) + 7 * MsPerDay
  {
    var ms := GridMonthStart(currentDate, H);
    var wd := GridOffset(currentDate, H);
    ShiftDays(ms, -wd, H);
    assert LocalDay(GridStart(currentDate, H), H) == WeekSunday(LocalDay(ms, H));
  }

  /**
   * MonthView's days: monthStart and monthEnd (day 0 of the next month) by
   * the Date constructor, a copy of monthStart moved back by its weekday,
   * then 42 copies of a Date advanced one day at a time. The cells are
   * consecutive days from a local Sunday at most 6 days before monthStart,
   * and monthEnd is the last day of the month at midnight.
   */
  method MonthDays(currentDate: int, now: int, H: int) returns (days: seq<int>, monthStart: int, monthEnd: int)
    ensures monthStart == GridMonthStart(currentDate, H)
    ensures LocalDay(monthStart, H) == MakeDay(FullYear(GridYear(currentDate, H)), GridMonth(currentDate, H), 1)
    ensures TimeWithinDay(LocalTime(monthStart, H)) == 0
    ensures monthEnd == monthStart + (GridMonthLength(currentDate, H) - 1) * MsPerDay
    ensures |days| == 42
    ensures forall i :: 0 <= i < 42 ==> days[i] == GridStart(currentDate, H) + i * MsPerDay
    ensures LocalWeekDay(days[0], H) == 0
    ensures days[0] <= monthStart < days[0] + 7 * MsPerDay
  {
    monthStart, monthEnd := MonthBounds(currentDate, now, H);
    var startDate := BackToSunday(monthStart, H);
    GridStartSunday(currentDate, H);
    days := DaysFrom(startDate, 42, H);
  }

  /** monthStart and monthEnd of MonthView, by the Date constructor on the IST year and month. */
  method MonthBounds(currentDate: int, now: int, H: int) returns (monthStart: int, monthEnd: int)
    ensures monthStart == GridMonthStart(currentDate, H)
    ensures LocalDay(monthStart, H) == MakeDay(FullYear(GridYear(currentDate, H)), GridMonth(currentDate, H), 1)
    ensures TimeWithinDay(LocalTime(monthStart, H)) == 0
    ensures monthEnd == monthStart + (GridMonthLength(currentDate, H) - 1) * MsPerDay
  {
    var ist := ConvertToIST(Obj(Time(currentDate)), now, H);
    var year := GetISTYear(Obj(Time(ist)), now, H);
    var month := GetISTMonth(Obj(Time(ist)), now, H);
    GridFields(currentDate, now, H);
    monthStart := NewDate(year, month, 1, 0, 0, 0, 0, H);
    monthEnd := NewDate(year, month + 1, 0, 0, 0, 0, 0, H);
    BoundsOfGrid(currentDate, H, year, month, monthStart, monthEnd);
  }

  /** The Date constructor on the grid's year and month gives the grid's month bounds. */
  lemma BoundsOfGrid(currentDate: int, H: int, year: int, month: int, monthStart: int, monthEnd: int)
    requires year == GridYear(currentDate, H) && month == GridMonth(currentDate, H)
    requires monthStart == NewDate(year, month, 1, 0, 0, 0, 0, H)
    requires monthEnd == NewDate(year, month + 1, 0, 0, 0, 0, 0, H)
    ensures monthStart == GridMonthStart(currentDate, H)
    ensures LocalDay(monthStart, H) == MakeDay(FullYear(GridYear(currentDate, H)), GridMonth(currentDate, H), 1)
    ensures TimeWithinDay(LocalTime(monthStart, H)) == 0
    ensures monthEnd == monthStart + (GridMonthLength(currentDate, H) - 1) * MsPerDay
  {
    GridMonthStartFields(currentDate, H);
    GridMonthEnd(currentDate, H);
  }

  /** The year and month MonthView reads are those of the grid. */
  lemma GridFields(currentDate: int, now: int, H: int)
    ensures var ist := ConvertToIST(Obj(Time(currentDate)), now, H);
      GetISTYear(Obj(Time(ist)), now, H) == GridYear(currentDate, H)
      && GetISTMonth(Obj(Time(ist)), now, H) == GridMonth(currentDate, H)
  {
    var ist := ConvertToIST(Obj(Time(currentDate)), now, H);
    assert ist + IST_OFFSET == currentDate + H * MsPerMinute + 2 * IST_OFFSET;
  }

  /** `startDate.setDate(startDate.getDate() - monthStart.getDay())` on a copy of monthStart. */
  method BackToSunday(monthStart: int, H: int) returns (r: int)
    ensures r == monthStart - LocalWeekDay(monthStart, H) * MsPerDay
  {
    var startDate := new Date(monthStart);
    var wd := LocalWeekDay(monthStart, H);
    startDate.SetDate(startDate.GetDate(H) - wd, H);
    r := startDate.value;
    SetDateShift(monthStart, -wd, H);
  }

  /**
   * MonthView's loop: a Date starting at `start`, copied into the list and
   * then advanced with setDate(getDate() + 1), `count` times.
   */
  method DaysFrom(start: int, count: nat, H: int) returns (days: seq<int>)
    ensures |days| == count
    ensures forall i :: 0 <= i < count ==> days[i] == start + i * MsPerDay
  {
    days := [];
    var currentDay := new Date(start);
    for i := 0 to count
      invariant |days| == i && currentDay.value == start + i * MsPerDay
      invariant forall j :: 0 <= j < i ==> days[j] == start + j * MsPerDay
    {
      days := days + [currentDay.value];
      StepDate(currentDay, 1, H);
    }
  }

  /** The local day of cell i: the first of the month, moved by i minus the offset. */
  lemma CellDay(currentDate: int, H: int, i: int)
    ensures LocalDay(GridStart(currentDate, H) + i * MsPerDay, H)
      == MakeDay(FullYear(GridYear(currentDate, H)), GridMonth(currentDate, H), 1) + (i - GridOffset(currentDate, H))
  {
    var ms := GridMonthStart(currentDate, H);
    var wd := GridOffset(currentDate, H);
    GridMonthStartFields(currentDate, H);
    assert GridStart(currentDate, H) + i * MsPerDay == ms + (i - wd) * MsPerDay;
    ShiftDays(ms, i - wd, H);
  }

  /** The cells from the offset on show the month's days 1, 2, ... */
  lemma CellInMonth(currentDate: int, H: int, i: int)
    requires GridOffset(currentDate, H) <= i < GridOffset(currentDate, H) + GridMonthLength(currentDate, H)
    ensures var cell := GridStart(currentDate, H) + i * MsPerDay;
      LocalMonth(cell, H) == GridMonth(currentDate, H) && LocalDate(cell, H) == i - GridOffset(currentDate, H) + 1
  {
    var yr, m := FullYear(GridYear(currentDate, H)), GridMonth(currentDate, H);
    var cell := GridStart(currentDate, H) + i * MsPerDay;
    CellDay(currentDate, H, i);
    DayOfMonthAt(yr, m, i - GridOffset(currentDate, H), LocalDay(cell, H));
  }

  /** Day k (from 0) after the first of month m of year y is in that month, with day number k + 1. */
  lemma DayOfMonthAt(y: int, m: int, k: int, z: int)
    requires 0 <= m < 12 && 0 <= k < DaysInMonth(y, m) && z == MakeDay(y, m, 1) + k
    ensures MonthFromDay(z) == m && DateFromDay(z) == k + 1
  {
    MakeDayShift(y, m, 1, k);
    MakeDayFields(y, m, 1 + k);
  }

  /** The other cells of the grid lie in other months. */
  lemma CellOutsideMonth(currentDate: int, H: int, i: int)
    requires 0 <= i < 42
    requires !(GridOffset(currentDate, H) <= i < GridOffset(currentDate, H) + GridMonthLength(currentDate, H))
    ensures LocalMonth(GridStart(currentDate, H) + i * MsPerDay, H) != GridMonth(currentDate, H)
  {
    var yr, m := FullYear(GridYear(currentDate, H)), GridMonth(currentDate, H);
    CellDay(currentDate, H, i);
    var z := LocalDay(GridStart(currentDate, H) + i * MsPerDay, H);
    if MonthFromDay(z) == m {
      SameMonthNearby(z, yr, m);
    }
  }

  /**
   * isCurrentMonth: a cell's local month is the shown month exactly for
   * the cells of that month's days, from monthStart's weekday on, and those
   * show the day numbers 1, 2, ... So every day of the month is in the grid
   * exactly once.
   */
  lemma CurrentMonthCells(currentDate: int, H: int, i: int)
    requires 0 <= i < 42
    ensures var wd, cell := GridOffset(currentDate, H), GridStart(currentDate, H) + i * MsPerDay;
      LocalMonth(cell, H) == GridMonth(currentDate, H) <==> wd <= i < wd + GridMonthLength(currentDate, H)
    ensures var wd, cell := GridOffset(currentDate, H), GridStart(currentDate, H) + i * MsPerDay;
      wd <= i < wd + GridMonthLength(currentDate, H) ==> LocalDate(cell, H) == i - wd + 1
  {
    if GridOffset(currentDate, H) <= i < GridOffset(currentDate, H) + GridMonthLength(currentDate, H) {
      CellInMonth(currentDate, H, i);
    } else {
      CellOutsideMonth(currentDate, H, i);
    }
  }

  /** getPostsForDate: in order, the posts on the same IST day as the cell's date. */
  function PostsForDate(posts: seq<Post>, date: int, now: int, H: int): (r: seq<Post>)
    ensures forall p :: p in r <==> p in posts && IsSameDayIST(Str(p.scheduledAt), Obj(Time(date)), now, H)
    ensures IsSubsequence(r, posts)
  {
    FilterSubsequence(posts, (p: Post) => IsSameDayIST(Str(p.scheduledAt), Obj(Time(date)), now, H));
    Filter(posts, (p: Post) => IsSameDayIST(Str(p.scheduledAt), Obj(Time(date)), now, H))
  }

  /** A post is in a cell exactly when isSameDayIST holds for it and the cell's date. */
  lemma PostsForDateMember(posts: seq<Post>, p: Post, date: int, now: int, H: int)
    requires p in posts
    ensures p in PostsForDate(posts, date, now, H) <==> IsSameDayIST(Str(p.scheduledAt), Obj(Time(date)), now, H)
  {
  }

  /**
   * A post with a readable date is in a cell exactly when its IST day is
   * the IST day of the cell's date.
   */
  lemma PostsForDateIff(posts: seq<Post>, p: Post, t: int, date: int, now: int, H: int)
    requires p in posts && InputTime(Str(p.scheduledAt), H) == Time(t)
    ensures p in PostsForDate(posts, date, now, H) <==> Day(t + IST_OFFSET) == Day(date + IST_OFFSET)
  {
    PostsForDateMember(posts, p, date, now, H);
    SameDayArg(Str(p.scheduledAt), t, Obj(Time(date)), now, H);
    SameDayInstants(t, date, now, H);
  }

  /** `new Date(post.scheduledAt).getTime()`. */
  function ScheduledTime(p: Post, H: int): (v: TimeValue)
    ensures v == InputTime(Str(p.scheduledAt), H)
  {
    ParseDate(p.scheduledAt, H)
  }

  /**
   * The DayView comparator: the difference of the two times. A NaN
   * difference (an unreadable date) is taken as 0, as Array.prototype.sort
   * does with a NaN comparator result.
   */
  function CompareTimes(H: int): (cmp: (Post, Post) -> int)
    ensures forall a, b :: cmp(a, b) == -cmp(b, a)
    ensures forall a, b :: cmp(a, b) < 0 <==>
      ScheduledTime(a, H).Time? && ScheduledTime(b, H).Time? && ScheduledTime(a, H).ms < ScheduledTime(b, H).ms
  {
    (a: Post, b: Post) =>
      if ScheduledTime(a, H).Time? && ScheduledTime(b, H).Time? then ScheduledTime(a, H).ms - ScheduledTime(b, H).ms else 0
  }

  /** All dates readable. */
  predicate AllReadable(ps: seq<Post>, H: int)
  {
    forall p :: p in ps ==> ScheduledTime(p, H).Time?
  }

  /** On posts with readable dates the time comparator is consistent. */
  lemma CompareTimesConsistent(ps: seq<Post>, H: int)
    requires AllReadable(ps, H)
    ensures Consistent(CompareTimes(H), ps)
  {
  }

  /** Sorting posts with readable dates by the time comparator puts them in ascending time order. */
  lemma SortedByTime(ps: seq<Post>, H: int)
    requires AllReadable(ps, H)
    ensures var r := SortBy(ps, CompareTimes(H));
      forall i, j :: 0 <= i < j < |r| ==> ScheduledTime(r[i], H).ms <= ScheduledTime(r[j], H).ms
  {
    var r := SortBy(ps, CompareTimes(H));
    CompareTimesConsistent(ps, H);
    SortSorted(ps, CompareTimes(H), ps);
    forall i, j | 0 <= i < j < |r|
      ensures ScheduledTime(r[i], H).ms <= ScheduledTime(r[j], H).ms
    {
      assert r[i] in ps && r[j] in ps;
      assert CompareTimes(H)(r[i], r[j]) <= 0;
    }
  }

  /**
   * DayView's dayPosts: the posts on currentDate's IST day, sorted by time.
   * The list holds exactly those posts, each as often as before; when every
   * date is readable it is in ascending time order.
   */
  function DayPosts(posts: seq<Post>, currentDate: int, now: int, H: int): (r: seq<Post>)
    ensures multiset(r) == multiset(PostsForDate(posts, currentDate, now, H))
    ensures forall p :: p in r <==> p in PostsForDate(posts, currentDate, now, H)
    ensures AllReadable(posts, H) ==>
      forall i, j :: 0 <= i < j < |r| ==> ScheduledTime(r[i], H).ms <= ScheduledTime(r[j], H).ms
  {
    var onDay := PostsForDate(posts, currentDate, now, H);
    SortedPart(posts, onDay, H);
    SortBy(onDay, CompareTimes(H))
  }

  /** Posts taken from a list whose dates are all readable come out of the sort in time order. */
  lemma SortedPart(posts: seq<Post>, sub: seq<Post>, H: int)
    requires forall p :: p in sub ==> p in posts
    ensures AllReadable(posts, H) ==> forall i, j :: 0 <= i < j < |SortBy(sub, CompareTimes(H))| ==>
      ScheduledTime(SortBy(sub, CompareTimes(H))[i], H).ms <= ScheduledTime(SortBy(sub, CompareTimes(H))[j], H).ms
  {
    if AllReadable(posts, H) {
      assert AllReadable(sub, H);
      SortedByTime(sub, H);
    }
  }

  /** Posts at the same time keep their original relative order. */
  lemma DayPostsStable(posts: seq<Post>, currentDate: int, now: int, H: int, e: Post)
    requires AllReadable(posts, H) && e in PostsForDate(posts, currentDate, now, H)
    ensures Equivalents(DayPosts(posts, currentDate, now, H), e, CompareTimes(H))
         == Equivalents(PostsForDate(posts, currentDate, now, H), e, CompareTimes(H))
  {
    var onDay := PostsForDate(posts, currentDate, now, H);
    CompareTimesConsistent(onDay, H);
    SortStable(onDay, e, CompareTimes(H), onDay);
  }

  /** The IST hour of a post's scheduled date. */
  function PostHour(now: int, H: int): (hour: Post -> int)
    ensures forall p :: 0 <= hour(p) < 24
    ensures forall p :: ScheduledTime(p, H).Time? ==> hour(p) == HourFromTime(ScheduledTime(p, H).ms + IST_OFFSET)
  {
    (p: Post) => GetISTHour(Str(p.scheduledAt), now, H)
  }

  /** getPostsForHour: in order, the posts whose IST hour is the given hour. */
  function PostsForHour(dayPosts: seq<Post>, hour: int, now: int, H: int): (r: seq<Post>)
    ensures forall p :: p in r <==> p in dayPosts && GetISTHour(Str(p.scheduledAt), now, H) == hour
    ensures IsSubsequence(r, dayPosts)
  {
    KeyGroup(dayPosts, PostHour(now, H), hour)
  }

  /** Every post of the day lands in exactly one of the 24 hour rows: the one of its IST hour. */
  lemma OneHourRow(dayPosts: seq<Post>, p: Post, now: int, H: int)
    requires p in dayPosts
    ensures 0 <= GetISTHour(Str(p.scheduledAt), now, H) < 24
    ensures forall h :: p in PostsForHour(dayPosts, h, now, H) <==> h == GetISTHour(Str(p.scheduledAt), now, H)
  {
  }

  /** The number of posts in hour rows 0 .. n-1. */
  function RowsTotal(dayPosts: seq<Post>, n: nat, now: int, H: int): nat
  {
    GroupsTotal(dayPosts, PostHour(now, H), n)
  }

  /** The 24 hour rows together show every post of the day exactly once. */
  lemma HourRowsPartition(dayPosts: seq<Post>, now: int, H: int)
    ensures RowsTotal(dayPosts, 24, now, H) == |dayPosts|
  {
    var hour := PostHour(now, H);
    forall p | p in dayPosts
      ensures 0 <= hour(p) < 24
    {
    }
    GroupsPartition(dayPosts, hour, 24);
  }

  /** The hour shown on a 12-hour clock: 12, 1, 2, .., 11. */
  function ClockHour(hour: int): int
  {
    if hour % 12 == 0 then 12 else hour % 12
  }

  /**
   * The hour label: the 12-hour clock hour, then " AM" for hours 0..11 and
   * " PM" for hours 12..23 (12 AM, 1 AM .. 11 AM, 12 PM, 1 PM .. 11 PM).
   */
  function HourLabel(hour: int): (r: string)
    requires 0 <= hour < 24
    ensures |r| >= 4
    ensures r[..|r| - 3] == NatToString(ClockHour(hour))
    ensures r[|r| - 3..] == if hour < 12 then " AM" else " PM"
  {
    var n := HourText(hour);
    var suffix := if hour < 12 then " AM" else " PM";
    assert (n + suffix)[..|n + suffix| - 3] == n;
    assert (n + suffix)[|n + suffix| - 3..] == suffix;
    n + suffix
  }

  /** The number part of an hour label: "12" for hours 0 and 12, otherwise the hour modulo 12. */
  function HourText(hour: int): (n: string)
    requires 0 <= hour < 24
    ensures n == NatToString(ClockHour(hour))
  {
    if hour == 0 || hour == 12 then
      assert ClockHour(hour) == 12;
      TwelveText();
      "12"
    else if hour < 12 then
      assert ClockHour(hour) == hour;
      IntToString(hour)
    else
      assert ClockHour(hour) == hour - 12;
      IntToString(hour - 12)
  }

  lemma TwelveText()
    ensures NatToString(12) == "12"
  {
    assert NatToString(1) == "1";
  }

  /** The 24 labels are all different. */
  lemma HourLabelInjective(h1: int, h2: int)
    requires 0 <= h1 < 24 && 0 <= h2 < 24 && h1 != h2
    ensures HourLabel(h1) != HourLabel(h2)
  {
  }

  /** A month cell: at most three posts, then "+n more" for the rest. */
  datatype MonthCell = MonthCell(shown: seq<Post>, more: Option<string>)

  /**
   * The month cell of a day's posts: the first three in order; the label
   * "+n more" exactly when there are more than three, n being the number
   * not shown.
   */
  function MonthCellOf(dayPosts: seq<Post>): (c: MonthCell)
    ensures |c.shown| == if |dayPosts| < 3 then |dayPosts| else 3
    ensures c.shown == dayPosts[..|c.shown|]
    ensures c.more.Some? <==> |dayPosts| > 3
    ensures c.more.Some? ==> c.more.value == "+" + NatToString(|dayPosts| - |c.shown|) + " more"
  {
    var shown := if |dayPosts| < 3 then dayPosts else dayPosts[..3];
    MonthCell(shown, if |dayPosts| > 3 then Some("+" + IntToString(|dayPosts| - 3) + " more") else None)
  }

  /** The calendar's own state: the date shown and the view. */
  class CalendarState {
    var currentDate: int
    var viewType: ViewType

    /** The calendar opens on the month of the current time. */
    constructor(now: int)
      ensures currentDate == now && viewType == MonthView
    {
      currentDate := now;
      viewType := MonthView;
    }

    /** The month / week / day buttons. */
    method SetViewType(v: ViewType)
      modifies this
      ensures viewType == v && currentDate == old(currentDate)
    {
      viewType := v;
    }

    /** The Today button. */
    method GoToToday(now: int)
      modifies this
      ensures currentDate == now && viewType == old(viewType)
    {
      currentDate := now;
    }

    /** navigateDate: a copy of currentDate moved by the view's step, then stored. */
    method NavigateDate(dir: Direction, H: int)
      modifies this
      ensures currentDate == NavigatedValue(old(currentDate), viewType, dir, H)
      ensures viewType == WeekView ==> currentDate == old(currentDate) + 7 * Step(dir) * MsPerDay
      ensures viewType == DayView ==> currentDate == old(currentDate) + Step(dir) * MsPerDay
      ensures viewType == old(viewType)
    {
      currentDate := MovedDate(currentDate, viewType, dir, H);
    }
  }

  /** The copy navigateDate moves: setMonth(getMonth() ± 1), or setDate(getDate() ± 7 or ± 1). */
  method MovedDate(t: int, view: ViewType, dir: Direction, H: int) returns (v: int)
    ensures v == NavigatedValue(t, view, dir, H)
  {
    var newDate := new Date(t);
    match view {
      case MonthView => StepMonth(newDate, Step(dir), H);
      case WeekView => StepDate(newDate, 7 * Step(dir), H);
      case DayView => StepDate(newDate, Step(dir), H);
    }
    v := newDate.value;
  }

  /** `d.setMonth(d.getMonth() + k)`. */
  method StepMonth(d: Date, k: int, H: int)
    modifies d
    ensures d.value == SetMonthValue(old(d.value), LocalMonth(old(d.value), H) + k, H)
  {
    d.SetMonth(d.GetMonth(H) + k, H);
  }

  /** `d.setDate(d.getDate() + k)`: the same clock time k days later. */
  method StepDate(d: Date, k: int, H: int)
    modifies d
    ensures d.value == old(d.value) + k * MsPerDay
  {
    ghost var v := d.value;
    d.SetDate(d.GetDate(H) + k, H);
    SetDateShift(v, k, H);
  }
}
