/**
 * Date.prototype.toISOString and the parsing of the ECMA-262 Date Time
 * String Format (section 21.4.1.32) by `new Date(string)`:
 *
 *   YYYY[-MM[-DD]][THH:mm[:ss[.sss]][Z|+HH:mm|-HH:mm]]   or a +/-YYYYYY year
 *
 * Date-only forms are UTC; date-time forms without an offset are local time.
 * Any string outside the format gives an Invalid Date.
 */
module IsoFormat {
  import opened TimeMath
  import opened JsString
  import opened JsDate

  /** The outcome of scanning a prefix of a string. */
  datatype Scan<T> = Fail | Got(value: T, rest: string)

  /** A time zone designator: none (local time) or an offset east of UTC, in minutes. */
  datatype Zone = LocalZone | Offset(minutes: int)

  /** `n` digits at the start of s. */
  predicate DigitsAhead(s: string, n: nat)
  {
    n <= |s| && AllDigits(s[..n])
  }

  /** The four-digit year, or a sign and six digits (-000000 is not allowed). */
  function ScanYear(s: string): Scan<int>
  {
    if DigitsAhead(s, 4) then Got(DigitsValue(s[..4]), s[4..])
    else if |s| >= 7 && (s[0] == '+' || s[0] == '-') && AllDigits(s[1..7]) then
      var v := DigitsValue(s[1..7]);
      if s[0] == '-' && v == 0 then Fail
      else Got(if s[0] == '-' then 0 - v else v, s[7..])
    else Fail
  }

  /** A separator character followed by two digits. */
  function ScanField(s: string, sep: char): Scan<nat>
  {
    if |s| >= 3 && s[0] == sep && AllDigits(s[1..3]) then Got(DigitsValue(s[1..3]), s[3..]) else Fail
  }

  /** Length of the run of digits at the start of s. */
  function DigitRun(s: string): (n: nat)
    ensures n <= |s| && AllDigits(s[..n]) && (n == |s| || !IsDigit(s[n]))
  {
    if s != [] && IsDigit(s[0]) then
      var n := 1 + DigitRun(s[1..]);
      assert s[..n] == [s[0]] + s[1..][..n - 1];
      n
    else 0
  }

  /** A '.' and one or more digits: the first three give the milliseconds. */
  function ScanFraction(s: string): Scan<nat>
  {
    if |s| >= 2 && s[0] == '.' && IsDigit(s[1]) then
      var n := DigitRun(s[1..]);
      var d := s[1..][..n];
      var ms := if n >= 3 then DigitsValue(d[..3]) else if n == 2 then 10 * DigitsValue(d) else 100 * DigitsValue(d);
      Got(ms, s[1..][n..])
    else Fail
  }

  /** The rest of the string must be empty, "Z", or a +HH:mm / -HH:mm offset. */
  function ScanZone(s: string): Scan<Zone>
  {
    if s == [] then Got(LocalZone, [])
    else if s == "Z" then Got(Offset(0), [])
    else if |s| == 6 && (s[0] == '+' || s[0] == '-') && AllDigits(s[1..3]) && s[3] == ':' && AllDigits(s[4..6]) then
      var hh, mm := DigitsValue(s[1..3]), DigitsValue(s[4..6]);
      if hh > 23 || mm > 59 then Fail
      else Got(Offset(if s[0] == '-' then 0 - (hh * 60 + mm) else hh * 60 + mm), [])
    else Fail
  }

  /** Local clock fields of the time part, after its 'T'. */
  datatype Clock = Clock(h: nat, m: nat, s: nat, ms: nat)

  function ScanClock(s: string): Scan<Clock>
  {
    if |s| >= 5 && AllDigits(s[..2]) && s[2] == ':' && AllDigits(s[3..5]) then
      var h, m := DigitsValue(s[..2]), DigitsValue(s[3..5]);
      match ScanField(s[5..], ':')
      case Fail => Got(Clock(h, m, 0, 0), s[5..])
      case Got(sec, r) =>
        match ScanFraction(r)
        case Fail => Got(Clock(h, m, sec, 0), r)
        case Got(ms, r') => Got(Clock(h, m, sec, ms), r')
    else Fail
  }

  /** The field ranges of the format; 24:00 is allowed only as 24:00:00.000. */
  predicate ClockInRange(c: Clock)
  {
    c.m <= 59 && c.s <= 59 && (c.h < 24 || (c.h == 24 && c.m == 0 && c.s == 0 && c.ms == 0))
  }

  /** The date part after the year: -MM and -DD are optional, each defaulting to 1. */
  datatype MonthDay = MonthDay(month: nat, day: nat)

  function ScanMonthDay(s: string): Scan<MonthDay>
  {
    match ScanField(s, '-')
    case Fail => Got(MonthDay(1, 1), s)
    case Got(month, r) =>
      match ScanField(r, '-')
      case Fail => Got(MonthDay(month, 1), r)
      case Got(day, r') => Got(MonthDay(month, day), r')
  }

  /** `new Date(s).getTime()` for a string s. */
  function ParseDate(s: string, H: int): TimeValue
  {
    match ScanYear(s)
    case Fail => Invalid
    case Got(y, r1) => ParseAfterYear(y, r1, H)
  }

  /** What follows the year: the optional month and day, then the time part. */
  function ParseAfterYear(y: int, r1: string, H: int): TimeValue
  {
    var md := ScanMonthDay(r1);
    var month, day := md.value.month, md.value.day;
    if !(1 <= month <= 12 && 1 <= day <= 31) then Invalid
    else ParseTimePart(MakeDay(y, month - 1, day), md.rest, H)
  }

  /** What follows the date: nothing (midnight UTC), or 'T', the clock and the zone. */
  function ParseTimePart(dayNumber: int, r3: string, H: int): TimeValue
  {
    if r3 == [] then Time(MakeDate(dayNumber, 0))
    else if r3[0] != 'T' then Invalid
    else
      match ScanClock(r3[1..])
      case Fail => Invalid
      case Got(c, r4) =>
        match ScanZone(r4)
        case Fail => Invalid
        case Got(z, _) =>
          if !ClockInRange(c) then Invalid
          else
            var l := MakeDate(dayNumber, MakeTime(c.h, c.m, c.s, c.ms));
            match z
            case LocalZone => Time(Utc(l, H))
            case Offset(off) => Time(l - off * MsPerMinute)
  }

  /** The year as toISOString writes it: four digits, or a sign and six digits. */
  function YearString(y: int): (r: string)
  {
    if 0 <= y <= 9999 then PadZero(NatToString(y), 4)
    else if y < 0 then "-" + PadZero(NatToString(-y), 6)
    else "+" + PadZero(NatToString(y), 6)
  }

  /** Two digits of a number below 100. */
  function Pad2(n: nat): (r: string)
    requires n < 100
    ensures |r| == 2 && AllDigits(r) && DigitsValue(r) == n
  {
    PadNat(n, 2)
  }

  /** Date.prototype.toISOString: YYYY-MM-DDTHH:mm:ss.sssZ in UTC. */
  function ToIsoString(t: int): string
  {
    var z := Day(t);
    YearString(YearFromDay(z)) + "-" + Pad2(MonthFromDay(z) + 1) + "-" + Pad2(DateFromDay(z)) + "T" + ClockString(t)
  }

  /** The HH:mm:ss.sssZ part of toISOString. */
  function ClockString(t: int): string
  {
    Pad2(HourFromTime(t)) + ":" + Pad2(MinFromTime(t)) + ":" + Pad2(SecFromTime(t)) + "." + PadNat(MsFromTime(t), 3) + "Z"
  }

  /** The year text of toISOString reads back as the year. */
  lemma ScanYearString(y: int, rest: string)
    requires -999999 <= y <= 999999
    ensures ScanYear(YearString(y) + rest) == Got(y, rest)
  {
    if 0 <= y <= 9999 {
      ScanFourDigitYear(PadNat(y, 4), rest);
    } else if y < 0 {
      ScanSignedYear('-', PadNat(-y, 6), rest);
      assert YearString(y) == ['-'] + PadNat(-y, 6);
    } else {
      ScanSignedYear('+', PadNat(y, 6), rest);
      assert YearString(y) == ['+'] + PadNat(y, 6);
    }
  }

  /** Four digits are scanned as a year. */
  lemma ScanFourDigitYear(d: string, rest: string)
    requires |d| == 4 && AllDigits(d)
    ensures ScanYear(d + rest) == Got(DigitsValue(d), rest)
  {
    var s := d + rest;
    assert s[..4] == d && s[4..] == rest;
  }

  /** A sign and six digits, other than -000000, are scanned as a signed year. */
  lemma ScanSignedYear(sign: char, d: string, rest: string)
    requires sign == '+' || sign == '-'
    requires |d| == 6 && AllDigits(d) && !(sign == '-' && DigitsValue(d) == 0)
    ensures ScanYear([sign] + d + rest) == Got(if sign == '-' then 0 - DigitsValue(d) else DigitsValue(d), rest)
  {
    var s := [sign] + d + rest;
    assert !IsDigit(s[0]);
    assert s[1..7] == d && s[7..] == rest;
  }

  /** A separator and two digits are scanned as that two-digit number. */
  lemma ScanFieldOf(sep: char, d: string, rest: string)
    requires |d| == 2 && AllDigits(d)
    ensures ScanField([sep] + d + rest, sep) == Got(DigitsValue(d), rest)
  {
    var s := [sep] + d + rest;
    assert s[1..3] == d && s[3..] == rest;
  }

  /** The digit run of digits followed by a non-digit is exactly those digits. */
  lemma {:induction false} DigitRunOf(d: string, rest: string)
    requires AllDigits(d) && (rest == [] || !IsDigit(rest[0]))
    ensures DigitRun(d + rest) == |d|
  {
    if d != [] {
      assert (d + rest)[1..] == d[1..] + rest;
      DigitRunOf(d[1..], rest);
    }
  }

  /** Three digits and a 'Z' after the point are milliseconds and the zone. */
  lemma ScanFractionOf(d: string)
    requires |d| == 3 && AllDigits(d)
    ensures ScanFraction("." + d + "Z") == Got(DigitsValue(d), "Z")
  {
    var s := "." + d + "Z";
    assert s[1..] == d + "Z";
    DigitRunOf(d, "Z");
    assert s[1..][..3] == d && d[..3] == d && s[1..][3..] == "Z";
  }

  /** The clock part HH:mm:ss.sssZ of toISOString is scanned field by field. */
  lemma ScanClockOf(hh: string, mi: string, se: string, ms: string)
    requires |hh| == 2 && |mi| == 2 && |se| == 2 && |ms| == 3
    requires AllDigits(hh) && AllDigits(mi) && AllDigits(se) && AllDigits(ms)
    ensures ScanClock(hh + ":" + mi + ":" + se + "." + ms + "Z")
         == Got(Clock(DigitsValue(hh), DigitsValue(mi), DigitsValue(se), DigitsValue(ms)), "Z")
  {
    var frac := "." + ms + "Z";
    var r5 := [':'] + se + frac;
    assert hh + [':'] + mi + r5 == hh + ":" + mi + ":" + se + "." + ms + "Z";
    ClockHead(hh, mi, r5);
    ScanFieldOf(':', se, frac);
    ScanFractionOf(ms);
  }

  /** Where the hour, the minutes and the rest sit in HH:mm followed by more text. */
  lemma ClockHead(hh: string, mi: string, r5: string)
    requires |hh| == 2 && |mi| == 2
    ensures |hh + [':'] + mi + r5| >= 5
    ensures (hh + [':'] + mi + r5)[..2] == hh && (hh + [':'] + mi + r5)[2] == ':'
    ensures (hh + [':'] + mi + r5)[3..5] == mi && (hh + [':'] + mi + r5)[5..] == r5
  {
    var c := hh + [':'] + mi + r5;
    assert c[..2] == hh;
    assert c[3..5] == mi;
    assert c[5..] == r5;
  }

  /** ParseDate of a full date-time string in UTC, once each part has been scanned. */
  lemma ParseScanned(s: string, H: int, y: int, r1: string, month: nat, day: nat, clock: string, c: Clock)
    requires ScanYear(s) == Got(y, r1)
    requires ScanMonthDay(r1) == Got(MonthDay(month, day), "T" + clock)
    requires ScanClock(clock) == Got(c, "Z")
    requires 1 <= month <= 12 && 1 <= day <= 31 && ClockInRange(c)
    ensures ParseDate(s, H) == Time(MakeDate(MakeDay(y, month - 1, day), MakeTime(c.h, c.m, c.s, c.ms)))
  {
    ParseUtcClock(MakeDay(y, month - 1, day), clock, c, H);
    AfterYear(y, r1, month, day, "T" + clock, H);
  }

  /** Once the month and day are scanned, the time part decides. */
  lemma AfterYear(y: int, r1: string, month: nat, day: nat, r3: string, H: int)
    requires ScanMonthDay(r1) == Got(MonthDay(month, day), r3)
    requires 1 <= month <= 12 && 1 <= day <= 31
    ensures ParseAfterYear(y, r1, H) == ParseTimePart(MakeDay(y, month - 1, day), r3, H)
  {
  }

  /** A 'T', a clock and 'Z' give the clock's instant on that day, in UTC. */
  lemma ParseUtcClock(dayNumber: int, clock: string, c: Clock, H: int)
    requires ScanClock(clock) == Got(c, "Z") && ClockInRange(c)
    ensures ParseTimePart(dayNumber, "T" + clock, H) == Time(MakeDate(dayNumber, MakeTime(c.h, c.m, c.s, c.ms)))
  {
    var r3 := "T" + clock;
    assert r3 != [] && r3[0] == 'T' && r3[1..] == clock;
    assert ScanZone("Z") == Got(Offset(0), []);
  }

  /** The date part of toISOString, regrouped field by field from the right. */
  lemma Regroup(y: string, m: string, d: string, clock: string)
    ensures y + "-" + m + "-" + d + "T" + clock == y + (['-'] + m + (['-'] + d + ("T" + clock)))
  {
  }

  /** new Date(d.toISOString()) has d's time value, for years of at most six digits. */
  lemma ParseIsoString(t: int, H: int)
    requires -999999 <= YearFromDay(Day(t)) <= 999999
    ensures ParseDate(ToIsoString(t), H) == Time(t)
  {
    var z := Day(t);
    var y, mo, da := YearFromDay(z), MonthFromDay(z), DateFromDay(z);
    ClockFields(t);
    var h, mi, se, ms := HourFromTime(t), MinFromTime(t), SecFromTime(t), MsFromTime(t);
    var M, D, HH, MI, SE := Pad2(mo + 1), Pad2(da), Pad2(h), Pad2(mi), Pad2(se);
    var MS := PadNat(ms, 3);
    var clock := ClockString(t);
    var r3 := "T" + clock;
    var r2 := ['-'] + D + r3;
    var r1 := ['-'] + M + r2;
    assert ToIsoString(t) == YearString(y) + "-" + M + "-" + D + "T" + clock;
    Regroup(YearString(y), M, D, clock);
    ScanYearString(y, r1);
    ScanFieldOf('-', M, r2);
    ScanFieldOf('-', D, r3);
    ScanClockOf(HH, MI, SE, MS);
    ParseScanned(ToIsoString(t), H, y, r1, mo + 1, da, clock, Clock(h, mi, se, ms));
    FieldsMakeDay(z);
  }
}
