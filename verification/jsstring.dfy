/**
 * The few JavaScript string and number operations the calendar code relies
 * on: String.prototype.trim / split / join / padStart / startsWith /
 * includes, decimal rendering of integers (String(n), template literals) and
 * Number(string). Strings are sequences of characters.
 */
module JsString {

  /** WhiteSpace and LineTerminator code points of ECMA-262 (sections 12.2 and 12.3). */
  predicate IsWhiteSpace(c: char)
  {
    c == '\t' || c == '\U{000B}' || c == '\U{000C}' || c == ' ' || c == '\U{00A0}' || c == '\U{FEFF}'
    || c == '\n' || c == '\r' || c == '\U{2028}' || c == '\U{2029}'
    || c == '\U{1680}' || ('\U{2000}' <= c <= '\U{200A}') || c == '\U{202F}' || c == '\U{205F}' || c == '\U{3000}'
  }

  function TrimStart(s: string): (r: string)
    ensures |r| <= |s| && r == s[|s| - |r|..]
    ensures r == [] || !IsWhiteSpace(r[0])
    ensures forall i :: 0 <= i < |s| - |r| ==> IsWhiteSpace(s[i])
  {
    if |s| > 0 && IsWhiteSpace(s[0]) then TrimStart(s[1..]) else s
  }

  function TrimEnd(s: string): (r: string)
    ensures |r| <= |s| && r == s[..|r|]
    ensures r == [] || !IsWhiteSpace(r[|r| - 1])
    ensures forall i :: |r| <= i < |s| ==> IsWhiteSpace(s[i])
  {
    if |s| > 0 && IsWhiteSpace(s[|s| - 1]) then TrimEnd(s[..|s| - 1]) else s
  }

  /** String.prototype.trim: strips white space and line terminators at both ends. */
  function Trim(s: string): string { TrimEnd(TrimStart(s)) }

  /** A string without white space at its ends is its own trim. */
  lemma TrimNoEnds(s: string)
    requires s == [] || (!IsWhiteSpace(s[0]) && !IsWhiteSpace(s[|s| - 1]))
    ensures Trim(s) == s
  {
  }

  /** Index of the first occurrence of c. */
  function IndexOf(s: string, c: char): (i: nat)
    requires c in s
    ensures i < |s| && s[i] == c && c !in s[..i]
  {
    if s[0] == c then 0 else 1 + IndexOf(s[1..], c)
  }

  /** String.prototype.split with a one-character separator: never empty. */
  function Split(s: string, sep: char): (parts: seq<string>)
    ensures |parts| >= 1
    ensures forall i :: 0 <= i < |parts| ==> sep !in parts[i]
    decreases |s|
  {
    if sep !in s then [s]
    else
      var i := IndexOf(s, sep);
      [s[..i]] + Split(s[i + 1..], sep)
  }

  /** Array.prototype.join with a separator string. */
  function Join(parts: seq<string>, sep: string): string
  {
    if |parts| == 0 then ""
    else if |parts| == 1 then parts[0]
    else parts[0] + sep + Join(parts[1..], sep)
  }

  /** Splitting at a separator the first piece does not contain peels off that piece. */
  lemma SplitCons(a: string, sep: char, b: string)
    requires sep !in a
    ensures Split(a + [sep] + b, sep) == [a] + Split(b, sep)
  {
    var s := a + [sep] + b;
    assert sep in s by { assert s[|a|] == sep; }
    var i := IndexOf(s, sep);
    assert i == |a| by {
      assert forall j :: 0 <= j < i ==> s[..i][j] != sep;
      assert forall j :: 0 <= j < |a| ==> s[j] == a[j] && a[j] != sep;
      assert s[|a|] == sep;
    }
    assert s[..i] == a;
    assert s[i + 1..] == b;
  }

  /** Joining the pieces with the separator restores the string. */
  lemma {:induction false} JoinSplit(s: string, sep: char)
    ensures Join(Split(s, sep), [sep]) == s
    decreases |s|
  {
    if sep in s {
      var i := IndexOf(s, sep);
      var tail := Split(s[i + 1..], sep);
      assert Split(s, sep) == [s[..i]] + tail;
      JoinSplit(s[i + 1..], sep);
      JoinCons(s[..i], tail, [sep]);
      assert s == s[..i] + [sep] + s[i + 1..];
    }
  }

  /** Joining a first piece in front of at least one more puts the separator between. */
  lemma JoinCons(a: string, tail: seq<string>, sep: string)
    requires |tail| >= 1
    ensures Join([a] + tail, sep) == a + sep + Join(tail, sep)
  {
    assert ([a] + tail)[1..] == tail;
  }

  /** Splitting the joined pieces gives the pieces back, when none holds the separator. */
  lemma {:induction false} SplitJoin(parts: seq<string>, sep: char)
    requires |parts| >= 1 && forall i :: 0 <= i < |parts| ==> sep !in parts[i]
    ensures Split(Join(parts, [sep]), sep) == parts
  {
    if |parts| > 1 {
      SplitJoin(parts[1..], sep);
      assert Join(parts, [sep]) == parts[0] + [sep] + Join(parts[1..], [sep]);
      SplitCons(parts[0], sep, Join(parts[1..], [sep]));
    }
  }

  /** The first piece of a split is a prefix of the string; without a separator it is the whole string. */
  lemma SplitFirst(s: string, sep: char)
    ensures |Split(s, sep)[0]| <= |s| && s[..|Split(s, sep)[0]|] == Split(s, sep)[0]
    ensures |Split(s, sep)[0]| < |s| ==> s[|Split(s, sep)[0]|] == sep
    ensures sep !in s ==> Split(s, sep) == [s]
  {
  }

  /** The last piece of a split is the part after the last separator. */
  lemma {:induction false} SplitLast(a: string, sep: char, b: string)
    requires sep !in b
    ensures Split(a + [sep] + b, sep)[|Split(a + [sep] + b, sep)| - 1] == b
    decreases |a|
  {
    if sep !in a {
      SplitCons(a, sep, b);
      assert Split(a + [sep] + b, sep) == [a] + [b];
    } else {
      var j := IndexOf(a, sep);
      SplitLast(a[j + 1..], sep, b);
      SplitLastStep(a, sep, b, j);
    }
  }

  /** Splitting a + [sep] + b first peels off a's first piece, so the last piece is that of what follows. */
  lemma SplitLastStep(a: string, sep: char, b: string, j: nat)
    requires j < |a| && a[j] == sep && sep !in a[..j]
    requires Split(a[j + 1..] + [sep] + b, sep)[|Split(a[j + 1..] + [sep] + b, sep)| - 1] == b
    ensures Split(a + [sep] + b, sep)[|Split(a + [sep] + b, sep)| - 1] == b
  {
    var rest := a[j + 1..] + [sep] + b;
    assert a == a[..j] + [sep] + a[j + 1..];
    assert a + [sep] + b == a[..j] + [sep] + rest;
    SplitCons(a[..j], sep, rest);
    LastOfCons(a[..j], Split(rest, sep));
  }

  /** r ends s. */
  predicate IsSuffix(r: string, s: string)
  {
    |r| <= |s| && s[|s| - |r|..] == r
  }

  /** A suffix of a suffix of s is a suffix of s. */
  lemma SuffixOfSuffix(r: string, s: string, k: nat)
    requires k <= |s| && IsSuffix(r, s[k..])
    ensures IsSuffix(r, s)
  {
    var u := s[k..];
    forall j | 0 <= j < |r|
      ensures s[|s| - |r|..][j] == r[j]
    {
      assert u[|u| - |r|..][j] == r[j];
    }
  }

  /** The last piece of a split is a suffix of the string. */
  lemma {:induction false} SplitLastSuffix(s: string, sep: char)
    ensures IsSuffix(Split(s, sep)[|Split(s, sep)| - 1], s)
    decreases |s|
  {
    if sep in s {
      var i := IndexOf(s, sep);
      var parts, tail := Split(s, sep), Split(s[i + 1..], sep);
      assert parts == [s[..i]] + tail;
      SplitLastSuffix(s[i + 1..], sep);
      LastOfCons(s[..i], tail);
      assert parts[|parts| - 1] == tail[|tail| - 1];
      SuffixOfSuffix(tail[|tail| - 1], s, i + 1);
    }
  }

  /** Putting an element in front does not change the last one. */
  lemma LastOfCons<T>(x: T, p: seq<T>)
    requires |p| >= 1
    ensures ([x] + p)[|[x] + p| - 1] == p[|p| - 1]
  {
  }

  predicate IsDigit(c: char) { '0' <= c <= '9' }

  predicate AllDigits(s: string) { forall i :: 0 <= i < |s| ==> IsDigit(s[i]) }

  function DigitChar(d: nat): (c: char)
    requires d < 10
    ensures IsDigit(c)
  {
    "0123456789"[d]
  }

  function DigitValue(c: char): (d: nat)
    requires IsDigit(c)
    ensures d < 10
  {
    (c as int - '0' as int) as nat
  }

  /** The value of a string of decimal digits (0 for the empty string). */
  function DigitsValue(s: string): nat
    requires AllDigits(s)
  {
    if s == [] then 0 else 10 * DigitsValue(s[..|s| - 1]) + DigitValue(s[|s| - 1])
  }

  function Pow10(k: nat): (p: nat)
    ensures p >= 1
  {
    if k == 0 then 1 else 10 * Pow10(k - 1)
  }

  /** k digits never exceed 10^k - 1. */
  lemma {:induction false} DigitsValueBound(s: string)
    requires AllDigits(s)
    ensures DigitsValue(s) < Pow10(|s|)
  {
    if s != [] {
      DigitsValueBound(s[..|s| - 1]);
    }
  }

  /** Leading zeros do not change the value. */
  lemma {:induction false} DigitsValueLeadingZero(s: string)
    ensures AllDigits(s) ==> AllDigits("0" + s) && DigitsValue("0" + s) == DigitsValue(s)
  {
    if s != [] && AllDigits(s) {
      assert ("0" + s)[..|s|] == "0" + s[..|s| - 1];
      DigitsValueLeadingZero(s[..|s| - 1]);
    }
  }

  /** Decimal digits of a natural number, without leading zeros. */
  function NatToString(n: nat): (s: string)
    ensures |s| >= 1 && AllDigits(s)
    ensures DigitsValue(s) == n
    ensures s[0] != '0' || n == 0
  {
    if n < 10 then [DigitChar(n)]
    else
      var p := NatToString(n / 10);
      var r := p + [DigitChar(n % 10)];
      assert r[..|r| - 1] == p;
      r
  }

  /** A number below 10^k has at most k digits. */
  lemma {:induction false} NatToStringLength(n: nat, k: nat)
    requires n < Pow10(k)
    ensures |NatToString(n)| <= k || (n == 0 && k == 0)
  {
    if n >= 10 {
      NatToStringLength(n / 10, k - 1);
    }
  }

  /** String(n) / `${n}` for an integer. */
  function IntToString(n: int): (s: string)
    ensures n >= 0 ==> s == NatToString(n)
    ensures n < 0 ==> s == "-" + NatToString(-n)
  {
    if n < 0 then "-" + NatToString(-n) else NatToString(n)
  }

  /** String.prototype.padStart(width, '0'). */
  function PadZero(s: string, width: nat): (r: string)
    ensures |r| == if |s| < width then width else |s|
    ensures AllDigits(s) ==> AllDigits(r) && DigitsValue(r) == DigitsValue(s)
    decreases width - |s|
  {
    if |s| < width then
      DigitsValueLeadingZero(s);
      PadZero("0" + s, width)
    else s
  }

  /** String(n).padStart(width, '0') for a natural number below 10^width. */
  function PadNat(n: nat, width: nat): (r: string)
    requires n < Pow10(width) && width >= 1
    ensures |r| == width && AllDigits(r) && DigitsValue(r) == n
  {
    NatToStringLength(n, width);
    PadZero(NatToString(n), width)
  }

  /** The result of Number(string), restricted to what the model needs. */
  datatype Number = NaN | Int(value: int)

  /**
   * Number(s): surrounding white space is ignored, the empty string is 0,
   * an optional sign followed by decimal digits is that integer, and
   * everything else is NaN.
   */
  function StringToNumber(s: string): Number
  {
    var t := Trim(s);
    if t == [] then Int(0)
    else if AllDigits(t) then Int(DigitsValue(t))
    else if |t| >= 2 && t[0] == '+' && AllDigits(t[1..]) then Int(DigitsValue(t[1..]))
    else if |t| >= 2 && t[0] == '-' && AllDigits(t[1..]) then Int(0 - DigitsValue(t[1..]))
    else NaN
  }

  /** A non-empty string of digits reads as its decimal value. */
  lemma NumberOfDigits(s: string)
    requires AllDigits(s) && s != []
    ensures StringToNumber(s) == Int(DigitsValue(s))
  {
    assert !IsWhiteSpace(s[0]) && !IsWhiteSpace(s[|s| - 1]);
    TrimNoEnds(s);
  }

  /** String.prototype.startsWith. */
  predicate StartsWith(s: string, prefix: string)
  {
    |prefix| <= |s| && s[..|prefix|] == prefix
  }
}
