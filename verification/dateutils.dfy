/**
 * The Indian Standard Time helpers of src/lib/dateUtils.ts.
 *
 * Stored instants are UTC time values. The helpers shift an instant by the
 * fixed IST offset of 5 h 30 min and read the result with the host's local
 * getters, so that on any host the getters see IST wall-clock fields. The
 * way back (createISTDateTime, getStartOfDayIST, ...) builds a host-local
 * Date from IST fields and subtracts the offset; it is exact only on a host
 * whose getTimezoneOffset() is 0. The host offset is the parameter H
 * (minutes) and the current time is the parameter `now` throughout.
 */
module DateUtils {
  import opened TimeMath
  import opened JsString
  import opened JsDate
  import opened IsoFormat
  import opened Optional

  /** 5.5 hours in milliseconds. */
  const IST_OFFSET: int := 19800000

  /** An argument typed `Date | string`: a string is read with `new Date(string)`. */
  datatype DateArg = Str(s: string) | Obj(v: TimeValue)

  function InputTime(d: DateArg, H: int): TimeValue
  {
    match d
    case Str(s) => ParseDate(s, H)
    case Obj(v) => v
  }

  /** getCurrentISTTime: the current instant plus the host offset plus 5.5 hours. */
  function GetCurrentISTTime(now: int, H: int): (r: int)
    ensures LocalTime(r, H) == now + IST_OFFSET
  {
    now + H * MsPerMinute + IST_OFFSET
  }

  /**
   * convertToIST: an unparseable input gives the current time; otherwise the
   * input plus the host offset plus 5.5 hours, so that the host's local
   * getters read the input's UTC fields 330 minutes later, whatever H is.
   */
  function ConvertToIST(d: DateArg, now: int, H: int): (r: int)
    ensures InputTime(d, H).Invalid? ==> r == now
    ensures InputTime(d, H).Time? ==> LocalTime(r, H) == InputTime(d, H).ms + IST_OFFSET
  {
    match InputTime(d, H)
    case Invalid => now
    case Time(t) => t + H * MsPerMinute + IST_OFFSET
  }

  /**
   * The IST wall clock of a UTC instant rolls over at 18:30 UTC: before it
   * the IST day is the UTC day and the clock is 330 minutes later; from it on
   * the IST day is the next UTC day.
   */
  lemma ISTRollover(t: int)
    ensures TimeWithinDay(t) < MsPerDay - IST_OFFSET ==>
      Day(t + IST_OFFSET) == Day(t) && TimeWithinDay(t + IST_OFFSET) == TimeWithinDay(t) + IST_OFFSET
    ensures TimeWithinDay(t) >= MsPerDay - IST_OFFSET ==>
      Day(t + IST_OFFSET) == Day(t) + 1 && TimeWithinDay(t + IST_OFFSET) == TimeWithinDay(t) + IST_OFFSET - MsPerDay
  {
    ClockFields(t);
    ClockFields(t + IST_OFFSET);
  }

  /** getISTHour: the IST hour (0-23). */
  function GetISTHour(d: DateArg, now: int, H: int): (r: int)
    ensures 0 <= r < 24
    ensures InputTime(d, H).Time? ==> r == HourFromTime(InputTime(d, H).ms + IST_OFFSET)
  {
    LocalHours(ConvertToIST(d, now, H), H)
  }

  /** getISTDay: the IST day of the month (1-31). */
  function GetISTDay(d: DateArg, now: int, H: int): (r: int)
    ensures 1 <= r <= 31
    ensures InputTime(d, H).Time? ==> r == DateFromDay(Day(InputTime(d, H).ms + IST_OFFSET))
  {
    LocalDate(ConvertToIST(d, now, H), H)
  }

  /** getISTMonth: the IST month (0-11). */
  function GetISTMonth(d: DateArg, now: int, H: int): (r: int)
    ensures 0 <= r < 12
    ensures InputTime(d, H).Time? ==> r == MonthFromDay(Day(InputTime(d, H).ms + IST_OFFSET))
  {
    LocalMonth(ConvertToIST(d, now, H), H)
  }

  /** getISTYear: the IST year. */
  function GetISTYear(d: DateArg, now: int, H: int): (r: int)
    ensures InputTime(d, H).Time? ==> r == YearFromDay(Day(InputTime(d, H).ms + IST_OFFSET))
  {
    LocalYear(ConvertToIST(d, now, H), H)
  }

  /**
   * isSameDayIST: the IST year, month and day of both arguments coincide,
   * that is, both converted instants fall on the same local day.
   */
  predicate IsSameDayIST(a: DateArg, b: DateArg, now: int, H: int)
    ensures IsSameDayIST(a, b, now, H) <==> LocalDay(ConvertToIST(a, now, H), H) == LocalDay(ConvertToIST(b, now, H), H)
  {
    var x, y := ConvertToIST(a, now, H), ConvertToIST(b, now, H);
    SameFieldsSameDay(LocalDay(x, H), LocalDay(y, H));
    LocalYear(x, H) == LocalYear(y, H) && LocalMonth(x, H) == LocalMonth(y, H) && LocalDate(x, H) == LocalDate(y, H)
  }

  /** Equal calendar fields mean the same day number, and conversely. */
  lemma SameFieldsSameDay(z1: int, z2: int)
    ensures (YearFromDay(z1) == YearFromDay(z2) && MonthFromDay(z1) == MonthFromDay(z2) && DateFromDay(z1) == DateFromDay(z2))
            <==> z1 == z2
  {
    FieldsMakeDay(z1);
    FieldsMakeDay(z2);
  }

  /** isSameDayIST holds exactly when both instants fall on the same IST day number. */
  lemma SameDayISTIff(a: DateArg, b: DateArg, now: int, H: int)
    requires InputTime(a, H).Time? && InputTime(b, H).Time?
    ensures IsSameDayIST(a, b, now, H) <==> Day(InputTime(a, H).ms + IST_OFFSET) == Day(InputTime(b, H).ms + IST_OFFSET)
  {
    SameFieldsSameDay(Day(InputTime(a, H).ms + IST_OFFSET), Day(InputTime(b, H).ms + IST_OFFSET));
  }

  /** isSameDayIST of two instants compares their IST day numbers. */
  lemma SameDayInstants(t: int, u: int, now: int, H: int)
    ensures IsSameDayIST(Obj(Time(t)), Obj(Time(u)), now, H) <==> Day(t + IST_OFFSET) == Day(u + IST_OFFSET)
  {
    assert LocalTime(ConvertToIST(Obj(Time(t)), now, H), H) == t + IST_OFFSET;
    assert LocalTime(ConvertToIST(Obj(Time(u)), now, H), H) == u + IST_OFFSET;
    SameFieldsSameDay(Day(t + IST_OFFSET), Day(u + IST_OFFSET));
  }

  /** isSameDayIST reads its first argument only through its time value. */
  lemma SameDayArg(a: DateArg, t: int, b: DateArg, now: int, H: int)
    requires InputTime(a, H) == Time(t)
    ensures IsSameDayIST(a, b, now, H) == IsSameDayIST(Obj(Time(t)), b, now, H)
  {
    assert ConvertToIST(a, now, H) == ConvertToIST(Obj(Time(t)), now, H);
  }

  /** isSameDayIST is reflexive and symmetric. */
  lemma SameDayISTReflexiveSymmetric(a: DateArg, b: DateArg, now: int, H: int)
    ensures IsSameDayIST(a, a, now, H)
    ensures IsSameDayIST(a, b, now, H) == IsSameDayIST(b, a, now, H)
  {
  }

  /** 18:29 UTC and 18:31 UTC of the same UTC date are on different IST days. */
  lemma SameDayISTAcrossMidnight(day: int, now: int, H: int)
    ensures !IsSameDayIST(Obj(Time(day * MsPerDay + 18 * MsPerHour + 29 * MsPerMinute)),
                          Obj(Time(day * MsPerDay + 18 * MsPerHour + 31 * MsPerMinute)), now, H)
  {
    var a := Obj(Time(day * MsPerDay + 18 * MsPerHour + 29 * MsPerMinute));
    var b := Obj(Time(day * MsPerDay + 18 * MsPerHour + 31 * MsPerMinute));
    assert Day(day * MsPerDay + 18 * MsPerHour + 29 * MsPerMinute + IST_OFFSET) == day;
    assert Day(day * MsPerDay + 18 * MsPerHour + 31 * MsPerMinute + IST_OFFSET) == day + 1;
    SameDayISTIff(a, b, now, H);
  }

  /**
   * isToday: isSameDayIST against getCurrentISTTime(), which is converted a
   * second time: the input's converted day is that of now + H min + 11 h.
   */
  predicate IsToday(d: DateArg, now: int, H: int)
    ensures IsToday(d, now, H) <==> LocalDay(ConvertToIST(d, now, H), H) == Day(now + H * MsPerMinute + 2 * IST_OFFSET)
  {
    IsSameDayIST(d, Obj(Time(GetCurrentISTTime(now, H))), now, H)
  }

  /**
   * Because the current IST time is shifted once more, isToday compares the
   * input's IST day with the IST day of now + 5.5 h + H minutes.
   */
  lemma IsTodayDoubleShift(d: DateArg, now: int, H: int)
    requires InputTime(d, H).Time?
    ensures IsToday(d, now, H) <==> Day(InputTime(d, H).ms + IST_OFFSET) == Day(now + H * MsPerMinute + 2 * IST_OFFSET)
  {
    SameDayISTIff(d, Obj(Time(GetCurrentISTTime(now, H))), now, H);
  }

  /** From 18:30 IST on, even the current instant itself is not "today" on a UTC host. */
  lemma NowIsNotToday(now: int)
    requires TimeWithinDay(now + IST_OFFSET) >= MsPerDay - IST_OFFSET
    ensures !IsToday(Obj(Time(now)), now, 0)
  {
    IsTodayDoubleShift(Obj(Time(now)), now, 0);
    ISTRollover(now + IST_OFFSET);
  }

  /**
   * isThisMonthIST: the input's IST year and month are those of
   * getCurrentISTTime(), which the host's getters read as the IST calendar
   * month of now.
   */
  predicate IsThisMonthIST(d: DateArg, now: int, H: int)
    ensures IsThisMonthIST(d, now, H) <==>
      LocalYear(ConvertToIST(d, now, H), H) == YearFromDay(Day(now + IST_OFFSET))
      && LocalMonth(ConvertToIST(d, now, H), H) == MonthFromDay(Day(now + IST_OFFSET))
  {
    var x, today := ConvertToIST(d, now, H), GetCurrentISTTime(now, H);
    LocalYear(x, H) == LocalYear(today, H) && LocalMonth(x, H) == LocalMonth(today, H)
  }

  /** isThisMonthIST compares IST calendar months correctly, whatever the host offset. */
  lemma IsThisMonthISTIff(d: DateArg, now: int, H: int)
    requires InputTime(d, H).Time?
    ensures IsThisMonthIST(d, now, H) <==>
      YearFromDay(Day(InputTime(d, H).ms + IST_OFFSET)) == YearFromDay(Day(now + IST_OFFSET))
      && MonthFromDay(Day(InputTime(d, H).ms + IST_OFFSET)) == MonthFromDay(Day(now + IST_OFFSET))
  {
  }

  /** The numbers read from the date and time inputs by createISTDateTime. */
  datatype FormFields = FormFields(year: int, month: int, day: int, hours: int, minutes: int)

  /**
   * The try block of createISTDateTime up to its validation: both strings
   * must be non-empty; they are trimmed, split at '-' and ':', and the first
   * three and two pieces read with Number(). A missing piece (undefined) or a
   * NaN piece throws, modelled as None. Extra pieces are ignored.
   */
  function ParseFormFields(dateString: string, timeString: string): (r: Option<FormFields>)
    ensures dateString == [] || timeString == [] ==> r.None?
    ensures r.Some? ==> |Split(Trim(dateString), '-')| >= 3 && |Split(Trim(timeString), ':')| >= 2
    ensures r.Some? ==>
      StringToNumber(Split(Trim(dateString), '-')[0]) == Int(r.value.year)
      && StringToNumber(Split(Trim(dateString), '-')[1]) == Int(r.value.month)
      && StringToNumber(Split(Trim(dateString), '-')[2]) == Int(r.value.day)
    ensures r.Some? ==>
      StringToNumber(Split(Trim(timeString), ':')[0]) == Int(r.value.hours)
      && StringToNumber(Split(Trim(timeString), ':')[1]) == Int(r.value.minutes)
  {
    if dateString == [] || timeString == [] then None
    else
      var dp, tp := Split(Trim(dateString), '-'), Split(Trim(timeString), ':');
      if |dp| < 3 || |tp| < 2 then None
      else
        var year, month, day := StringToNumber(dp[0]), StringToNumber(dp[1]), StringToNumber(dp[2]);
        var hours, minutes := StringToNumber(tp[0]), StringToNumber(tp[1]);
        if year.NaN? || month.NaN? || day.NaN? || hours.NaN? || minutes.NaN? then None
        else Some(FormFields(year.value, month.value, day.value, hours.value, minutes.value))
  }

  /** The string the catch block hands to `new Date` as a last UTC attempt. */
  function FallbackIsoString(dateString: string, timeString: string): string
  {
    dateString + "T" + timeString + ":00.000Z"
  }

  /**
   * createISTDateTime: the fields read as host-local time, minus 5.5 hours.
   * It never fails: if the fields cannot be read, the untrimmed strings are
   * parsed as a UTC date-time, and if that is invalid too, the current time
   * is returned.
   */
  function CreateISTDateTime(dateString: string, timeString: string, now: int, H: int): (r: int)
    ensures ParseFormFields(dateString, timeString).Some? ==> r == FieldsToInstant(ParseFormFields(dateString, timeString).value, H)
  {
    match ParseFormFields(dateString, timeString)
    case Some(f) => FieldsToInstant(f, H)
    case None =>
      match ParseDate(FallbackIsoString(dateString, timeString), H)
      case Time(v) => v
      case Invalid => now
  }

  /**
   * The success path of createISTDateTime: the fields as host-local time,
   * minus 5.5 hours. In-range fields of a year outside 0..99 are read back
   * by the host's getters 5.5 hours later, at 00 seconds.
   */
  function FieldsToInstant(f: FormFields, H: int): (r: int)
    ensures InRange(f) ==>
      LocalYear(r + IST_OFFSET, H) == f.year && LocalMonth(r + IST_OFFSET, H) == f.month - 1
      && LocalDate(r + IST_OFFSET, H) == f.day && LocalHours(r + IST_OFFSET, H) == f.hours
      && LocalMinutes(r + IST_OFFSET, H) == f.minutes && LocalSeconds(r + IST_OFFSET, H) == 0
  {
    var n := NewDate(f.year, f.month - 1, f.day, f.hours, f.minutes, 0, 0, H);
    if InRange(f) then
      NewDateReadBack(f.year, f.month - 1, f.day, f.hours, f.minutes, H, n);
      n - IST_OFFSET
    else n - IST_OFFSET
  }

  /** Fields a date and time input can hold: a real calendar date outside the years 0..99 and a time of day. */
  predicate InRange(f: FormFields)
  {
    !(0 <= f.year <= 99) && 1 <= f.month <= 12 && 1 <= f.day <= DaysInMonth(f.year, f.month - 1)
    && 0 <= f.hours < 24 && 0 <= f.minutes < 60
  }

  /** A Date built from in-range local fields reads them back with the local getters. */
  lemma NewDateReadBack(y: int, mo: int, d: int, h: int, mi: int, H: int, n: int)
    requires !(0 <= y <= 99) && 0 <= mo < 12 && 1 <= d <= DaysInMonth(y, mo) && 0 <= h < 24 && 0 <= mi < 60
    requires n == NewDate(y, mo, d, h, mi, 0, 0, H)
    ensures LocalYear(n, H) == y && LocalMonth(n, H) == mo && LocalDate(n, H) == d
    ensures LocalHours(n, H) == h && LocalMinutes(n, H) == mi && LocalSeconds(n, H) == 0
  {
    NewDateFields(y, mo, d, h, mi, 0, 0, H);
    assert LocalTime(n, H) == MakeDate(MakeDay(y, mo, d), MakeTime(h, mi, 0, 0));
    MakeDateFields(MakeDay(y, mo, d), h, mi, 0, 0);
  }

  /** On the field path the host offset H moves the result by H minutes. */
  lemma CreateISTDateTimeHostShift(dateString: string, timeString: string, now: int, H: int)
    requires ParseFormFields(dateString, timeString).Some?
    ensures CreateISTDateTime(dateString, timeString, now, H) == CreateISTDateTime(dateString, timeString, now, 0) + H * MsPerMinute
  {
  }

  /**
   * The shape of a date input's text for year y, month m and day d:
   * String(y), '-', two digits holding m, '-', two digits holding d.
   */
  predicate DateText(r: string, y: int, m: int, d: int)
  {
    |r| >= 7 && r[..|r| - 6] == IntToString(y)
    && r[|r| - 6] == '-' && r[|r| - 3] == '-'
    && AllDigits(r[|r| - 5..|r| - 3]) && DigitsValue(r[|r| - 5..|r| - 3]) == m
    && AllDigits(r[|r| - 2..]) && DigitsValue(r[|r| - 2..]) == d
  }

  /** The text of a date input: the year as String(year) writes it, then two-digit month and day. */
  function DateInput(y: int, m: nat, d: nat): (r: string)
    requires m < 100 && d < 100
    ensures DateText(r, y, m, d)
  {
    var Y, M, D := IntToString(y), Pad2(m), Pad2(d);
    var r := Y + "-" + M + "-" + D;
    assert r[..|r| - 6] == Y && r[|r| - 5..|r| - 3] == M && r[|r| - 2..] == D;
    r
  }

  /** The text of a time input: two-digit hours and minutes. */
  function TimeInput(h: nat, mi: nat): (r: string)
    requires h < 100 && mi < 100
    ensures |r| == 5 && r[2] == ':' && AllDigits(r[..2]) && AllDigits(r[3..])
    ensures DigitsValue(r[..2]) == h && DigitsValue(r[3..]) == mi
  {
    var hh, mm := Pad2(h), Pad2(mi);
    var r := hh + ":" + mm;
    assert r[..2] == hh && r[3..] == mm;
    r
  }

  /**
   * formatDateForInput: the IST date as YYYY-MM-DD: String(year), then the
   * month (1-12) and the day of the month in two digits, read with the
   * host's getters from convertToIST.
   */
  function FormatDateForInput(d: DateArg, now: int, H: int): (r: string)
    ensures DateText(r, LocalYear(ConvertToIST(d, now, H), H), LocalMonth(ConvertToIST(d, now, H), H) + 1, LocalDate(ConvertToIST(d, now, H), H))
  {
    var x := ConvertToIST(d, now, H);
    DateInput(LocalYear(x, H), LocalMonth(x, H) + 1, LocalDate(x, H))
  }

  /** formatDateForInput of an argument whose converted instant is x. */
  lemma FormattedDate(d: DateArg, now: int, H: int, x: int)
    requires x == ConvertToIST(d, now, H)
    ensures FormatDateForInput(d, now, H) == DateInput(LocalYear(x, H), LocalMonth(x, H) + 1, LocalDate(x, H))
  {
  }

  /** formatTimeForInput of an argument whose converted instant is x. */
  lemma FormattedTime(d: DateArg, now: int, H: int, x: int)
    requires x == ConvertToIST(d, now, H)
    ensures FormatTimeForInput(d, now, H) == TimeInput(LocalHours(x, H), LocalMinutes(x, H))
  {
    ClockFields(LocalTime(x, H));
  }

  /** formatTimeForInput: the IST time as HH:MM. */
  function FormatTimeForInput(d: DateArg, now: int, H: int): (r: string)
    ensures |r| == 5 && r[2] == ':' && AllDigits(r[..2]) && AllDigits(r[3..])
    ensures DigitsValue(r[..2]) == LocalHours(ConvertToIST(d, now, H), H)
    ensures DigitsValue(r[3..]) == LocalMinutes(ConvertToIST(d, now, H), H)
  {
    var x := ConvertToIST(d, now, H);
    ClockFields(LocalTime(x, H));
    TimeInput(LocalHours(x, H), LocalMinutes(x, H))
  }

  /** The seconds and milliseconds of a time value are its remainder modulo a minute. */
  lemma MinuteRemainder(l: int)
    ensures SecFromTime(l) * MsPerSecond + MsFromTime(l) == l % MsPerMinute
  {
    var q := l / MsPerSecond;
    assert l == MsPerSecond * q + l % MsPerSecond;
    assert q == 60 * (q / 60) + q % 60;
    assert l == MsPerMinute * (q / 60) + (q % 60) * MsPerSecond + l % MsPerSecond;
  }

  /** Splitting "A-B-C" at '-' when the pieces hold no '-'. */
  lemma Split3(a: string, b: string, c: string, sep: char)
    requires sep !in a && sep !in b && sep !in c
    ensures Split(a + [sep] + b + [sep] + c, sep) == [a, b, c]
  {
    SplitCons(b, sep, c);
    assert a + [sep] + b + [sep] + c == a + [sep] + (b + [sep] + c);
    SplitCons(a, sep, b + [sep] + c);
  }

  /** A string of digits holds no separator. */
  lemma DigitsNoSep(s: string, sep: char)
    requires AllDigits(s) && !IsDigit(sep)
    ensures sep !in s
  {
  }

  /** The pieces of a YYYY-MM-DD string after trim and split. */
  lemma DatePieces(y: nat, m: nat, d: nat)
    requires m < 100 && d < 100
    ensures Split(Trim(DateInput(y, m, d)), '-') == [NatToString(y), Pad2(m), Pad2(d)]
  {
    var Y, M, D := NatToString(y), Pad2(m), Pad2(d);
    var ds := Y + "-" + M + "-" + D;
    assert ds[0] == Y[0] && ds[|ds| - 1] == D[1];
    TrimNoEnds(ds);
    DigitsNoSep(Y, '-');
    DigitsNoSep(M, '-');
    DigitsNoSep(D, '-');
    Split3(Y, M, D, '-');
  }

  /** The pieces of an HH:MM string after trim and split. */
  lemma TimePieces(h: nat, mi: nat)
    requires h < 100 && mi < 100
    ensures Split(Trim(TimeInput(h, mi)), ':') == [Pad2(h), Pad2(mi)]
  {
    var HH, MI := Pad2(h), Pad2(mi);
    var ts := TimeInput(h, mi);
    assert ts == HH + [':'] + MI;
    assert ts[0] == HH[0] && ts[|ts| - 1] == MI[1];
    TrimNoEnds(ts);
    DigitsNoSep(HH, ':');
    DigitsNoSep(MI, ':');
    SplitCons(HH, ':', MI);
    assert Split(MI, ':') == [MI];
    assert Split(ts, ':') == [HH] + [MI];
  }

  /** The date and time fields of formatDateForInput / formatTimeForInput, as createISTDateTime reads them. */
  lemma ReadFormatted(y: int, m: nat, d: nat, h: nat, mi: nat)
    requires y >= 0 && m < 100 && d < 100 && h < 100 && mi < 100
    ensures ParseFormFields(DateInput(y, m, d), TimeInput(h, mi)) == Some(FormFields(y, m, d, h, mi))
  {
    var Y, M, D, HH, MI := NatToString(y), Pad2(m), Pad2(d), Pad2(h), Pad2(mi);
    DatePieces(y, m, d);
    TimePieces(h, mi);
    NumberOfDigits(Y);
    NumberOfDigits(M);
    NumberOfDigits(D);
    NumberOfDigits(HH);
    NumberOfDigits(MI);
    PiecesRead(DateInput(y, m, d), TimeInput(h, mi), [Y, M, D], [HH, MI], FormFields(y, m, d, h, mi));
  }

  /** Non-empty texts whose pieces all read as numbers are read as those numbers. */
  lemma PiecesRead(ds: string, ts: string, dp: seq<string>, tp: seq<string>, f: FormFields)
    requires ds != [] && ts != [] && dp == Split(Trim(ds), '-') && tp == Split(Trim(ts), ':')
    requires |dp| == 3 && |tp| == 2
    requires StringToNumber(dp[0]) == Int(f.year) && StringToNumber(dp[1]) == Int(f.month)
    requires StringToNumber(dp[2]) == Int(f.day)
    requires StringToNumber(tp[0]) == Int(f.hours) && StringToNumber(tp[1]) == Int(f.minutes)
    ensures ParseFormFields(ds, ts) == Some(f)
  {
  }

  /** The IST offset is a whole number of minutes. */
  lemma IstWholeMinutes(t: int)
    ensures (t + IST_OFFSET) % MsPerMinute == t % MsPerMinute
  {
    var q, r := t / MsPerMinute, t % MsPerMinute;
    assert t + IST_OFFSET == (q + 330) * MsPerMinute + r;
  }

  /** A Date built from the local fields of l down to the minute is l truncated to the minute. */
  lemma NewDateMinute(l: int, H: int)
    requires YearFromDay(Day(l)) >= 100
    ensures NewDate(YearFromDay(Day(l)), MonthFromDay(Day(l)), DateFromDay(Day(l)), HourFromTime(l), MinFromTime(l), 0, 0, H)
         == l - l % MsPerMinute + H * MsPerMinute
  {
    FieldsMakeDay(Day(l));
    ClockFields(l);
    MinuteRemainder(l);
  }

  /**
   * Formatting an instant for the date and time inputs and reading it back
   * with createISTDateTime gives the instant truncated to the minute, moved
   * by the host offset: exact on a UTC host. The IST year must be at least
   * 100 (two-digit years are read as 19xx).
   */
  lemma FormatCreateRoundTrip(t: int, now: int, now': int, H: int)
    requires YearFromDay(Day(t + IST_OFFSET)) >= 100
    ensures CreateISTDateTime(FormatDateForInput(Obj(Time(t)), now, H), FormatTimeForInput(Obj(Time(t)), now, H), now', H)
         == t - t % MsPerMinute + H * MsPerMinute
  {
    var l := t + IST_OFFSET;
    var z := Day(l);
    var y, mo, da := YearFromDay(z), MonthFromDay(z), DateFromDay(z);
    ClockFields(l);
    var h, mi := HourFromTime(l), MinFromTime(l);
    FormattedFields(t, now, H, l);
    CreateISTDateTimeFields(y, mo + 1, da, h, mi, now', H);
    assert FieldsToInstant(FormFields(y, mo + 1, da, h, mi), H) == NewDate(y, mo, da, h, mi, 0, 0, H) - IST_OFFSET;
    NewDateMinute(l, H);
    IstWholeMinutes(t);
  }

  /** The input texts of a time value are the texts of the IST fields of l = t + 5.5 h. */
  lemma FormattedFields(t: int, now: int, H: int, l: int)
    requires l == t + IST_OFFSET && YearFromDay(Day(l)) >= 0
    ensures FormatDateForInput(Obj(Time(t)), now, H) == DateInput(YearFromDay(Day(l)), MonthFromDay(Day(l)) + 1, DateFromDay(Day(l)))
    ensures FormatTimeForInput(Obj(Time(t)), now, H) == TimeInput(HourFromTime(l), MinFromTime(l))
  {
    var x := ConvertToIST(Obj(Time(t)), now, H);
    assert LocalTime(x, H) == l;
    ClockFields(l);
    FormattedDate(Obj(Time(t)), now, H, x);
    FormattedTime(Obj(Time(t)), now, H, x);
  }

  /**
   * The other direction, on a UTC host: a date of year 100 or later and an
   * in-range time, typed in the inputs and turned into an instant by
   * createISTDateTime, are formatted back to the same two texts.
   */
  lemma CreateFormatRoundTrip(y: int, m: nat, d: nat, h: nat, mi: nat, now: int, now': int)
    requires 100 <= y && 1 <= m <= 12 && 1 <= d <= DaysInMonth(y, m - 1) && h < 24 && mi < 60
    ensures FormatDateForInput(Obj(Time(CreateISTDateTime(DateInput(y, m, d), TimeInput(h, mi), now, 0))), now', 0) == DateInput(y, m, d)
    ensures FormatTimeForInput(Obj(Time(CreateISTDateTime(DateInput(y, m, d), TimeInput(h, mi), now, 0))), now', 0) == TimeInput(h, mi)
  {
    var f := FormFields(y, m, d, h, mi);
    CreateISTDateTimeFields(y, m, d, h, mi, now, 0);
    var t := CreateISTDateTime(DateInput(y, m, d), TimeInput(h, mi), now, 0);
    assert InRange(f) && t == FieldsToInstant(f, 0);
    FormatFieldsInstant(f, t, now');
  }

  /** On a UTC host the instant of in-range fields is formatted back to those fields. */
  lemma FormatFieldsInstant(f: FormFields, t: int, now': int)
    requires InRange(f) && f.year >= 0 && t == FieldsToInstant(f, 0)
    ensures FormatDateForInput(Obj(Time(t)), now', 0) == DateInput(f.year, f.month, f.day)
    ensures FormatTimeForInput(Obj(Time(t)), now', 0) == TimeInput(f.hours, f.minutes)
  {
    var x := t + IST_OFFSET;
    var Y, Mo, D, Hh, Mi := LocalYear(x, 0), LocalMonth(x, 0), LocalDate(x, 0), LocalHours(x, 0), LocalMinutes(x, 0);
    assert Y == f.year && Mo + 1 == f.month && D == f.day && Hh == f.hours && Mi == f.minutes;
    FormattedAt(Obj(Time(t)), now', x);
    assert DateInput(Y, Mo + 1, D) == DateInput(f.year, f.month, f.day);
    assert TimeInput(Hh, Mi) == TimeInput(f.hours, f.minutes);
  }

  /** Both form formatters of a time value, on a UTC host, read the fields of x. */
  lemma FormattedAt(d: DateArg, now': int, x: int)
    requires d.Obj? && d.v.Time? && x == d.v.ms + IST_OFFSET
    ensures FormatDateForInput(d, now', 0) == DateInput(LocalYear(x, 0), LocalMonth(x, 0) + 1, LocalDate(x, 0))
    ensures FormatTimeForInput(d, now', 0) == TimeInput(LocalHours(x, 0), LocalMinutes(x, 0))
  {
    assert InputTime(d, 0) == d.v;
    assert ConvertToIST(d, now', 0) == x;
    FormattedDate(d, now', 0, x);
    FormattedTime(d, now', 0, x);
  }



  /** Well-formed input text takes the field path with the typed numbers. */
  lemma CreateISTDateTimeFields(y: nat, m: nat, d: nat, h: nat, mi: nat, now: int, H: int)
    requires m < 100 && d < 100 && h < 100 && mi < 100
    ensures CreateISTDateTime(DateInput(y, m, d), TimeInput(h, mi), now, H) == FieldsToInstant(FormFields(y, m, d, h, mi), H)
  {
    ReadFormatted(y, m, d, h, mi);
  }

  /**
   * Fields are taken as they are, not range-checked: twelve months more is
   * one year more (for years outside 0..99) ...
   */
  lemma FieldsMonthRollover(y: int, m: int, d: int, h: int, mi: int, H: int)
    requires !(0 <= y <= 99) && !(0 <= y + 1 <= 99)
    ensures FieldsToInstant(FormFields(y, m + 12, d, h, mi), H) == FieldsToInstant(FormFields(y + 1, m, d, h, mi), H)
  {
    MakeDayYearCarry(y, m - 1, d);
  }

  /** ... and 24 hours more is one day more. */
  lemma FieldsHourRollover(y: int, m: int, d: int, h: int, mi: int, H: int)
    ensures FieldsToInstant(FormFields(y, m, d, h + 24, mi), H) == FieldsToInstant(FormFields(y, m, d + 1, h, mi), H)
  {
    MakeDayShift(FullYear(y), m - 1, d, 1);
  }

  /** An empty date string fails both parses: the result is the current time. */
  lemma CreateISTDateTimeNoDate(timeString: string, now: int, H: int)
    ensures CreateISTDateTime("", timeString, now, H) == now
  {
    var s := FallbackIsoString("", timeString);
    assert ParseFormFields("", timeString) == None;
    NoYearAhead(s);
    assert ParseDate(s, H) == Invalid;
  }

  /** A string that starts with 'T' has no year. */
  lemma NoYearAhead(s: string)
    requires s != [] && s[0] == 'T'
    ensures ScanYear(s) == Fail
  {
    assert !IsDigit(s[0]);
  }

  /**
   * getStartOfDayIST: IST 00:00:00.000 of the input's IST date, built as
   * host-local time, minus 5.5 hours: local midnight of the converted day,
   * moved by H minutes, outside the years 0..99.
   */
  function GetStartOfDayIST(d: DateArg, now: int, H: int): (r: int)
    ensures !(0 <= LocalYear(ConvertToIST(d, now, H), H) <= 99) ==>
      r == LocalDay(ConvertToIST(d, now, H), H) * MsPerDay + H * MsPerMinute - IST_OFFSET
  {
    var x := ConvertToIST(d, now, H);
    NewDateOnDay(LocalDay(x, H), 0, 0, 0, 0, H);
    NewDate(LocalYear(x, H), LocalMonth(x, H), LocalDate(x, H), 0, 0, 0, 0, H) - IST_OFFSET
  }

  /**
   * getEndOfDayIST: IST 23:59:59.999 of the input's IST date, built the
   * same way: the last millisecond of the converted day, moved by H
   * minutes, outside the years 0..99.
   */
  function GetEndOfDayIST(d: DateArg, now: int, H: int): (r: int)
    ensures !(0 <= LocalYear(ConvertToIST(d, now, H), H) <= 99) ==>
      r == LocalDay(ConvertToIST(d, now, H), H) * MsPerDay + MsPerDay - 1 + H * MsPerMinute - IST_OFFSET
  {
    var x := ConvertToIST(d, now, H);
    NewDateOnDay(LocalDay(x, H), 23, 59, 59, 999, H);
    NewDate(LocalYear(x, H), LocalMonth(x, H), LocalDate(x, H), 23, 59, 59, 999, H) - IST_OFFSET
  }

  /**
   * The start and end of the IST day of an instant t, for any host offset:
   * the true bounds moved by H minutes. The IST year must lie outside 0..99.
   */
  lemma DayBoundsIST(t: int, now: int, H: int)
    requires !(0 <= YearFromDay(Day(t + IST_OFFSET)) <= 99)
    ensures GetStartOfDayIST(Obj(Time(t)), now, H) == Day(t + IST_OFFSET) * MsPerDay - IST_OFFSET + H * MsPerMinute
    ensures GetEndOfDayIST(Obj(Time(t)), now, H) == GetStartOfDayIST(Obj(Time(t)), now, H) + MsPerDay - 1
  {
    var x, z := ConvertToIST(Obj(Time(t)), now, H), Day(t + IST_OFFSET);
    ConvertedFields(t, x, now, H);
    NewDateOnDay(z, 0, 0, 0, 0, H);
    NewDateOnDay(z, 23, 59, 59, 999, H);
    assert GetStartOfDayIST(Obj(Time(t)), now, H) == NewDate(YearFromDay(z), MonthFromDay(z), DateFromDay(z), 0, 0, 0, 0, H) - IST_OFFSET;
    assert GetEndOfDayIST(Obj(Time(t)), now, H) == NewDate(YearFromDay(z), MonthFromDay(z), DateFromDay(z), 23, 59, 59, 999, H) - IST_OFFSET;
  }

  /** The local calendar fields of convertToIST(t) are the IST calendar fields of t. */
  lemma ConvertedFields(t: int, x: int, now: int, H: int)
    requires x == ConvertToIST(Obj(Time(t)), now, H)
    ensures LocalYear(x, H) == YearFromDay(Day(t + IST_OFFSET))
    ensures LocalMonth(x, H) == MonthFromDay(Day(t + IST_OFFSET))
    ensures LocalDate(x, H) == DateFromDay(Day(t + IST_OFFSET))
  {
    assert LocalTime(x, H) == t + IST_OFFSET;
  }

  /** `new Date(y, m, d, h, mi, s, ms)` with the fields of day z, outside the years 0..99, is that clock time of day z. */
  lemma NewDateOnDay(z: int, h: int, mi: int, s: int, ms: int, H: int)
    ensures !(0 <= YearFromDay(z) <= 99) ==>
      NewDate(YearFromDay(z), MonthFromDay(z), DateFromDay(z), h, mi, s, ms, H) == z * MsPerDay + MakeTime(h, mi, s, ms) + H * MsPerMinute
  {
    FieldsMakeDay(z);
  }

  /**
   * On a UTC host, getStartOfDayIST(x) <= x <= getEndOfDayIST(x), the two are
   * 86,399,999 ms apart, and the start is 00:00 IST of x's IST date.
   */
  lemma DayBracketUtcHost(t: int, now: int)
    requires !(0 <= YearFromDay(Day(t + IST_OFFSET)) <= 99)
    ensures GetStartOfDayIST(Obj(Time(t)), now, 0) <= t <= GetEndOfDayIST(Obj(Time(t)), now, 0)
    ensures GetEndOfDayIST(Obj(Time(t)), now, 0) - GetStartOfDayIST(Obj(Time(t)), now, 0) == 86399999
    ensures TimeWithinDay(GetStartOfDayIST(Obj(Time(t)), now, 0) + IST_OFFSET) == 0
    ensures Day(GetStartOfDayIST(Obj(Time(t)), now, 0) + IST_OFFSET) == Day(t + IST_OFFSET)
  {
    DayBoundsIST(t, now, 0);
    var z := Day(t + IST_OFFSET);
    assert GetStartOfDayIST(Obj(Time(t)), now, 0) + IST_OFFSET == z * MsPerDay;
    ClockFields(t + IST_OFFSET);
    MakeDateFields(z, 0, 0, 0, 0);
  }

  /**
   * On a host in IST itself (getTimezoneOffset() = -330) the bracket fails:
   * from 18:30 IST on, an instant lies after its own getEndOfDayIST.
   */
  lemma DayBracketIstHost(t: int, now: int)
    requires !(0 <= YearFromDay(Day(t + IST_OFFSET)) <= 99)
    requires TimeWithinDay(t + IST_OFFSET) >= MsPerDay - IST_OFFSET
    ensures t > GetEndOfDayIST(Obj(Time(t)), now, -330)
  {
    DayBoundsIST(t, now, -330);
    ClockFields(t + IST_OFFSET);
  }

  /** The Sunday on or before day z. */
  function WeekSunday(z: int): (s: int)
    ensures WeekDayOfDay(s) == 0 && s <= z < s + 7
  {
    z - WeekDayOfDay(z)
  }

  /**
   * What getWeekStartIST computes: local midnight of the Sunday of the local
   * week of convertToIST(x), minus 5.5 hours.
   */
  function WeekStartIST(d: DateArg, now: int, H: int): (r: int)
    ensures (r + IST_OFFSET - H * MsPerMinute) % MsPerDay == 0
    ensures WeekDayOfDay((r + IST_OFFSET - H * MsPerMinute) / MsPerDay) == 0
    ensures LocalDay(ConvertToIST(d, now, H), H) - 7 < (r + IST_OFFSET - H * MsPerMinute) / MsPerDay <= LocalDay(ConvertToIST(d, now, H), H)
  {
    var S := WeekSunday(LocalDay(ConvertToIST(d, now, H), H));
    DivModUnique(S * MsPerDay, MsPerDay, S, 0);
    S * MsPerDay + H * MsPerMinute - IST_OFFSET
  }

  /**
   * getWeekStartIST: copies convertToIST(x) into a Date, moves it back by its
   * local weekday with setDate, sets its local clock to 00:00:00.000 with
   * setHours, and subtracts 5.5 hours.
   */
  method GetWeekStartIST(d: DateArg, now: int, H: int) returns (r: int)
    ensures r == WeekStartIST(d, now, H)
  {
    var istDate := ConvertToIST(d, now, H);
    var dayOfWeek := LocalWeekDay(istDate, H);
    var weekStart := new Date(istDate);
    weekStart.SetDate(LocalDate(istDate, H) - dayOfWeek, H);
    var z, sunday := LocalDay(istDate, H), istDate + (-dayOfWeek) * MsPerDay;
    SetDateShift(istDate, -dayOfWeek, H);
    assert weekStart.value == sunday;
    ShiftDays(istDate, -dayOfWeek, H);
    weekStart.SetHours(0, 0, 0, 0, H);
    SetHoursFields(sunday, 0, 0, 0, 0, H);
    assert LocalDay(sunday, H) == z - dayOfWeek;
    assert LocalTime(weekStart.value, H) == LocalDay(sunday, H) * MsPerDay;
    assert WeekSunday(z) == z - dayOfWeek;
    r := weekStart.value - IST_OFFSET;
  }

  /**
   * On a UTC host the week start is 00:00 IST of a Sunday, less than seven
   * days at or before the input.
   */
  lemma WeekStartUtcHost(t: int, now: int)
    ensures TimeWithinDay(WeekStartIST(Obj(Time(t)), now, 0) + IST_OFFSET) == 0
    ensures WeekDayOfDay(Day(WeekStartIST(Obj(Time(t)), now, 0) + IST_OFFSET)) == 0
    ensures WeekStartIST(Obj(Time(t)), now, 0) <= t < WeekStartIST(Obj(Time(t)), now, 0) + 7 * MsPerDay
  {
    var S := WeekSunday(Day(t + IST_OFFSET));
    assert WeekStartIST(Obj(Time(t)), now, 0) + IST_OFFSET == S * MsPerDay;
    ClockFields(t + IST_OFFSET);
    MakeDateFields(S, 0, 0, 0, 0);
  }

  /** The host offset moves the week start by H minutes. */
  lemma WeekStartHostShift(t: int, now: int, H: int)
    ensures WeekStartIST(Obj(Time(t)), now, H) == WeekStartIST(Obj(Time(t)), now, 0) + H * MsPerMinute
  {
  }

  /**
   * getMonthStartIST: IST day 1, 00:00 of the input's IST month, built as
   * host-local time, minus 5.5 hours: local midnight of day 1 of the
   * converted month, moved by H minutes, outside the years 0..99.
   */
  function GetMonthStartIST(d: DateArg, now: int, H: int): (r: int)
    ensures !(0 <= LocalYear(ConvertToIST(d, now, H), H) <= 99) ==>
      r == MakeDay(LocalYear(ConvertToIST(d, now, H), H), LocalMonth(ConvertToIST(d, now, H), H), 1) * MsPerDay
           + H * MsPerMinute - IST_OFFSET
  {
    var x := ConvertToIST(d, now, H);
    NewDate(LocalYear(x, H), LocalMonth(x, H), 1, 0, 0, 0, 0, H) - IST_OFFSET
  }

  /**
   * On a UTC host the month start is 00:00 IST on day 1 of the input's IST
   * year and month, at or before the input. The IST year must lie outside 0..99.
   */
  lemma MonthStartUtcHost(t: int, now: int)
    requires !(0 <= YearFromDay(Day(t + IST_OFFSET)) <= 99)
    ensures TimeWithinDay(GetMonthStartIST(Obj(Time(t)), now, 0) + IST_OFFSET) == 0
    ensures DateFromDay(Day(GetMonthStartIST(Obj(Time(t)), now, 0) + IST_OFFSET)) == 1
    ensures MonthFromDay(Day(GetMonthStartIST(Obj(Time(t)), now, 0) + IST_OFFSET)) == MonthFromDay(Day(t + IST_OFFSET))
    ensures YearFromDay(Day(GetMonthStartIST(Obj(Time(t)), now, 0) + IST_OFFSET)) == YearFromDay(Day(t + IST_OFFSET))
    ensures GetMonthStartIST(Obj(Time(t)), now, 0) <= t
  {
    var ms := GetMonthStartIST(Obj(Time(t)), now, 0);
    MonthStartValue(t, now, 0);
    MonthStartAt(t, ms);
    assert TimeWithinDay(ms + IST_OFFSET) == 0;
    assert YearFromDay(Day(ms + IST_OFFSET)) == YearFromDay(Day(t + IST_OFFSET));
  }

  /** An instant that is 00:00 IST of day 1 of t's IST month has those fields and is not after t. */
  lemma MonthStartAt(t: int, ms: int)
    requires ms + IST_OFFSET == MakeDay(YearFromDay(Day(t + IST_OFFSET)), MonthFromDay(Day(t + IST_OFFSET)), 1) * MsPerDay
    ensures TimeWithinDay(ms + IST_OFFSET) == 0 && DateFromDay(Day(ms + IST_OFFSET)) == 1
    ensures MonthFromDay(Day(ms + IST_OFFSET)) == MonthFromDay(Day(t + IST_OFFSET))
    ensures YearFromDay(Day(ms + IST_OFFSET)) == YearFromDay(Day(t + IST_OFFSET))
    ensures ms <= t
  {
    var z := Day(t + IST_OFFSET);
    MonthFirstDay(z, MakeDay(YearFromDay(z), MonthFromDay(z), 1));
    ClockFields(t + IST_OFFSET);
  }

  /** Midnight of day 1 of day z's month: its fields, and it is not after day z. */
  lemma MonthFirstDay(z: int, s0: int)
    requires s0 == MakeDay(YearFromDay(z), MonthFromDay(z), 1)
    ensures TimeWithinDay(s0 * MsPerDay) == 0 && Day(s0 * MsPerDay) == s0
    ensures DateFromDay(s0) == 1 && MonthFromDay(s0) == MonthFromDay(z) && YearFromDay(s0) == YearFromDay(z)
    ensures s0 <= z
  {
    FirstDayFields(YearFromDay(z), MonthFromDay(z), s0);
    FieldsMakeDay(z);
    MakeDayShift(YearFromDay(z), MonthFromDay(z), 1, DateFromDay(z) - 1);
  }

  /** Day 1 of month m of year y, and its midnight. */
  lemma FirstDayFields(y: int, m: int, s0: int)
    requires 0 <= m < 12 && s0 == MakeDay(y, m, 1)
    ensures TimeWithinDay(s0 * MsPerDay) == 0 && Day(s0 * MsPerDay) == s0
    ensures DateFromDay(s0) == 1 && MonthFromDay(s0) == m && YearFromDay(s0) == y
  {
    MakeDayFields(y, m, 1);
    MakeDateFields(s0, 0, 0, 0, 0);
  }

  /** The month start is IST midnight of day 1 of the IST month, moved by H minutes. */
  lemma MonthStartValue(t: int, now: int, H: int)
    requires !(0 <= YearFromDay(Day(t + IST_OFFSET)) <= 99)
    ensures GetMonthStartIST(Obj(Time(t)), now, H)
      == MakeDay(YearFromDay(Day(t + IST_OFFSET)), MonthFromDay(Day(t + IST_OFFSET)), 1) * MsPerDay + H * MsPerMinute - IST_OFFSET
  {
    var x, z := ConvertToIST(Obj(Time(t)), now, H), Day(t + IST_OFFSET);
    ConvertedFields(t, x, now, H);
    assert FullYear(YearFromDay(z)) == YearFromDay(z);
    assert GetMonthStartIST(Obj(Time(t)), now, H) == NewDate(YearFromDay(z), MonthFromDay(z), 1, 0, 0, 0, 0, H) - IST_OFFSET;
  }

  /** The host offset moves the month start by H minutes. */
  lemma MonthStartHostShift(t: int, now: int, H: int)
    ensures GetMonthStartIST(Obj(Time(t)), now, H) == GetMonthStartIST(Obj(Time(t)), now, 0) + H * MsPerMinute
  {
    assert LocalTime(ConvertToIST(Obj(Time(t)), now, H), H) == LocalTime(ConvertToIST(Obj(Time(t)), now, 0), 0);
  }

  /**
   * What isThisWeekIST decides. The week start is taken of getCurrentISTTime(),
   * which convertToIST shifts a second time, so the week is that of the IST
   * date of now + 5.5 h + H min; the end bound is built by setDate(+6) and
   * setHours(23, 59, 59, 999) on the UTC week-start instant. In IST
   * wall-clock milliseconds (x) the window runs from that Sunday 00:00 to the
   * following Saturday 05:29:59.999, moved by H minutes.
   */
  predicate InThisWeek(d: DateArg, now: int, H: int)
    ensures InThisWeek(d, now, H) ==>
      WeekSunday(Day(now + H * MsPerMinute + 2 * IST_OFFSET)) <= Day(ConvertToIST(d, now, H) - 2 * (H * MsPerMinute))
      <= WeekSunday(Day(now + H * MsPerMinute + 2 * IST_OFFSET)) + 6
  {
    var S := WeekSunday(Day(now + H * MsPerMinute + 2 * IST_OFFSET));
    var x := ConvertToIST(d, now, H) - 2 * (H * MsPerMinute);
    BeforeDayOffset(x, S, 0);
    BeforeDayOffset(x, S + 6, IST_OFFSET);
    S * MsPerDay <= x <= (S + 6) * MsPerDay + IST_OFFSET - 1
  }

  /** isThisWeekIST, with the week end built by mutating a Date. */
  method IsThisWeekIST(d: DateArg, now: int, H: int) returns (b: bool)
    ensures b == InThisWeek(d, now, H)
  {
    var today := GetCurrentISTTime(now, H);
    var inputDate := ConvertToIST(d, now, H);
    var weekStart := GetWeekStartIST(Obj(Time(today)), now, H);
    var weekEnd := WeekEndOf(weekStart, H);
    ThisWeekWindow(d, now, H, weekStart, weekEnd);
    var lo, hi := ConvertToIST(Obj(Time(weekStart)), now, H), ConvertToIST(Obj(Time(weekEnd)), now, H);
    b := inputDate >= lo && inputDate <= hi;
  }

  /**
   * The week end of isThisWeekIST: a copy of the week start moved six days
   * on with setDate, then set to 23:59:59.999 local time with setHours.
   */
  method WeekEndOf(weekStart: int, H: int) returns (r: int)
    ensures r == SetHoursValue(weekStart + 6 * MsPerDay, 23, 59, 59, 999, H)
  {
    var weekEnd := new Date(weekStart);
    weekEnd.SetDate(LocalDate(weekStart, H) + 6, H);
    weekEnd.SetHours(23, 59, 59, 999, H);
    r := weekEnd.value;
    SetDateShift(weekStart, 6, H);
  }

  /** InThisWeek compares the converted input with the converted week start and week end. */
  lemma ThisWeekWindow(d: DateArg, now: int, H: int, ws: int, we: int)
    requires ws == WeekStartIST(Obj(Time(GetCurrentISTTime(now, H))), now, H)
    requires we == SetHoursValue(ws + 6 * MsPerDay, 23, 59, 59, 999, H)
    ensures InThisWeek(d, now, H) <==>
      ConvertToIST(Obj(Time(ws)), now, H) <= ConvertToIST(d, now, H) <= ConvertToIST(Obj(Time(we)), now, H)
  {
    WeekEndValue(now, H);
    var S := WeekSunday(Day(now + H * MsPerMinute + 2 * IST_OFFSET));
    assert ConvertToIST(Obj(Time(ws)), now, H) == S * MsPerDay + 2 * (H * MsPerMinute);
    assert ConvertToIST(Obj(Time(we)), now, H) == (S + 6) * MsPerDay + IST_OFFSET - 1 + 2 * (H * MsPerMinute);
  }

  /** The week start and end instants isThisWeekIST compares against. */
  lemma WeekEndValue(now: int, H: int)
    ensures var S := WeekSunday(Day(now + H * MsPerMinute + 2 * IST_OFFSET));
            var ws := WeekStartIST(Obj(Time(GetCurrentISTTime(now, H))), now, H);
            ws == S * MsPerDay + H * MsPerMinute - IST_OFFSET
            && SetHoursValue(ws + 6 * MsPerDay, 23, 59, 59, 999, H) == (S + 6) * MsPerDay - 1 + H * MsPerMinute
  {
    var S := WeekSunday(Day(now + H * MsPerMinute + 2 * IST_OFFSET));
    var ws := S * MsPerDay + H * MsPerMinute - IST_OFFSET;
    assert LocalTime(ws + 6 * MsPerDay, H) == (S + 5) * MsPerDay + (MsPerDay - IST_OFFSET);
    assert LocalDay(ws + 6 * MsPerDay, H) == S + 5;
    SetHoursFields(ws + 6 * MsPerDay, 23, 59, 59, 999, H);
  }

  /**
   * On a UTC host an instant is "this week" iff its IST wall clock lies
   * between Sunday 00:00 and Saturday 05:29:59.999 of the IST week of
   * now + 5.5 h.
   */
  lemma ThisWeekUtcHost(t: int, now: int)
    ensures var S := WeekSunday(Day(now + 2 * IST_OFFSET));
            InThisWeek(Obj(Time(t)), now, 0) <==> S * MsPerDay <= t + IST_OFFSET < (S + 6) * MsPerDay + IST_OFFSET
    ensures var S := WeekSunday(Day(now + 2 * IST_OFFSET));
            InThisWeek(Obj(Time(t)), now, 0) <==>
              S <= Day(t + IST_OFFSET) < S + 6 || (Day(t + IST_OFFSET) == S + 6 && TimeWithinDay(t + IST_OFFSET) < IST_OFFSET)
  {
    var S := WeekSunday(Day(now + 2 * IST_OFFSET));
    BeforeDayOffset(t + IST_OFFSET, S, 0);
    BeforeDayOffset(t + IST_OFFSET, S + 6, IST_OFFSET);
  }

  /** From Saturday 05:30 IST on, the current instant itself is not "this week" on a UTC host. */
  lemma NowNotThisWeekOnSaturday(now: int)
    requires WeekDayOfDay(Day(now + IST_OFFSET)) == 6 && TimeWithinDay(now + IST_OFFSET) >= IST_OFFSET
    ensures !InThisWeek(Obj(Time(now)), now, 0)
  {
    var x := now + IST_OFFSET;
    SaturdayOutsideWeek(x, WeekSunday(Day(x + IST_OFFSET)));
    assert ConvertToIST(Obj(Time(now)), now, 0) == x;
  }

  /**
   * An IST wall-clock time x on a Saturday from 05:30 on lies outside the
   * window of the week that starts on the Sunday of the IST date of x + 5.5 h.
   */
  lemma SaturdayOutsideWeek(x: int, S: int)
    requires WeekDayOfDay(Day(x)) == 6 && TimeWithinDay(x) >= IST_OFFSET
    requires S == WeekSunday(Day(x + IST_OFFSET))
    ensures x < S * MsPerDay || x > (S + 6) * MsPerDay + IST_OFFSET - 1
  {
    var z := Day(x);
    ISTRollover(x);
    if Day(x + IST_OFFSET) == z {
      assert S == z - 6;
      BeforeDayOffset(x, z, IST_OFFSET);
    } else {
      assert WeekDayOfDay(z + 1) == 0;
      assert S == z + 1;
      BeforeDayOffset(x, z + 1, 0);
    }
  }

  /** The IST tests read an argument only through its time value. */
  lemma ArgAsInstant(d: DateArg, t: int, now: int, H: int)
    requires InputTime(d, H) == Time(t)
    ensures IsToday(d, now, H) == IsToday(Obj(Time(t)), now, H)
    ensures InThisWeek(d, now, H) == InThisWeek(Obj(Time(t)), now, H)
  {
    assert ConvertToIST(d, now, H) == ConvertToIST(Obj(Time(t)), now, H);
  }
}
