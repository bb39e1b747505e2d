/** The two time-string conversions of the service: `strptime` with the formats
    "%Y-%m-%d %H:%M:%S" and "%Y-%m-%d", and `strftime` with "%Y-%m-%d %H:%M:%S".

    CPython's `strptime` turns the format into a regular expression, one group per
    directive, replaces each run of whitespace in the format by `\s+`, matches from
    the start of the string, fails when characters remain after the match, and then
    fails again when the `datetime` constructor rejects the fields. The field
    parsers below try the directive's alternatives in the order the expression
    lists them. Every field is followed by a separator that is not a digit (or by
    the end of the string), so a shorter alternative never succeeds where a longer
    one has failed, and taking the first alternative that matches is the same as
    the regular expression's backtracking. */
module TimeFormat {
  import opened Wrappers
  import opened Calendar

  /** A field value and the text after it. */
  datatype Scan = Scan(value: int, rest: string)

  predicate IsDigit(c: char) {
    '0' <= c <= '9'
  }

  function DigitValue(c: char): int
    requires IsDigit(c)
  {
    c as int - '0' as int
  }

  function DigitChar(n: int): char
    requires 0 <= n < 10
  {
    (n + '0' as int) as char
  }

  /** `\s` in a `str` pattern: the characters for which `str.isspace` holds. */
  predicate IsSpace(c: char) {
    || '\t' <= c <= '\r'
    || '\U{1C}' <= c <= ' '
    || c == '\U{85}' || c == '\U{A0}' || c == '\U{1680}'
    || '\U{2000}' <= c <= '\U{200A}'
    || c == '\U{2028}' || c == '\U{2029}' || c == '\U{202F}' || c == '\U{205F}' || c == '\U{3000}'
  }

  function OrElse(a: Option<Scan>, b: Option<Scan>): Option<Scan> {
    if a.Some? then a else b
  }

  /** `[lo-hi]` for one character. */
  function OneDigit(s: string, lo: char, hi: char): Option<Scan> {
    if |s| >= 1 && '0' <= lo && lo <= s[0] <= hi && hi <= '9' then Some(Scan(DigitValue(s[0]), s[1..]))
    else None
  }

  /** `[lo0-hi0][lo1-hi1]`. */
  function TwoDigits(s: string, lo0: char, hi0: char, lo1: char, hi1: char): Option<Scan> {
    if |s| >= 2 && '0' <= lo0 && lo0 <= s[0] <= hi0 && hi0 <= '9' && '0' <= lo1 && lo1 <= s[1] <= hi1 && hi1 <= '9' then
      Some(Scan(10 * DigitValue(s[0]) + DigitValue(s[1]), s[2..]))
    else None
  }

  /** `%Y`: `\d\d\d\d`. */
  function YearField(s: string): Option<Scan> {
    if |s| >= 4 && IsDigit(s[0]) && IsDigit(s[1]) && IsDigit(s[2]) && IsDigit(s[3]) then
      Some(Scan(1000 * DigitValue(s[0]) + 100 * DigitValue(s[1]) + 10 * DigitValue(s[2]) + DigitValue(s[3]), s[4..]))
    else None
  }

  /** `%m`: `1[0-2]|0[1-9]|[1-9]`. */
  function MonthField(s: string): Option<Scan> {
    OrElse(TwoDigits(s, '1', '1', '0', '2'), OrElse(TwoDigits(s, '0', '0', '1', '9'), OneDigit(s, '1', '9')))
  }

  /** `%d`: `3[01]|[12]\d|0[1-9]|[1-9]| [1-9]`. */
  function DayField(s: string): Option<Scan> {
    OrElse(TwoDigits(s, '3', '3', '0', '1'),
    OrElse(TwoDigits(s, '1', '2', '0', '9'),
    OrElse(TwoDigits(s, '0', '0', '1', '9'),
    OrElse(OneDigit(s, '1', '9'),
      if |s| >= 1 && s[0] == ' ' then OneDigit(s[1..], '1', '9') else None))))
  }

  /** `%H`: `2[0-3]|[0-1]\d|\d`. */
  function HourField(s: string): Option<Scan> {
    OrElse(TwoDigits(s, '2', '2', '0', '3'), OrElse(TwoDigits(s, '0', '1', '0', '9'), OneDigit(s, '0', '9')))
  }

  /** `%M`: `[0-5]\d|\d`. */
  function MinuteField(s: string): Option<Scan> {
    OrElse(TwoDigits(s, '0', '5', '0', '9'), OneDigit(s, '0', '9'))
  }

  /** `%S`: `6[0-1]|[0-5]\d|\d` (60 and 61 match, and the constructor then rejects them). */
  function SecondField(s: string): Option<Scan> {
    OrElse(TwoDigits(s, '6', '6', '0', '1'), OrElse(TwoDigits(s, '0', '5', '0', '9'), OneDigit(s, '0', '9')))
  }

  /** A literal character of the format. */
  function Literal(c: char, s: string): Option<string> {
    if |s| >= 1 && s[0] == c then Some(s[1..]) else None
  }

  function SkipSpaces(s: string): string {
    if |s| >= 1 && IsSpace(s[0]) then SkipSpaces(s[1..]) else s
  }

  /** `\s+`, greedy. */
  function Whitespace(s: string): Option<string> {
    if |s| >= 1 && IsSpace(s[0]) then Some(SkipSpaces(s[1..])) else None
  }

  /** `datetime.strptime(s, "%Y-%m-%d %H:%M:%S")`; `None` is the `ValueError`. */
  function ParseDateTime(s: string): (r: Option<DateTime>)
    ensures r.Some? ==> Valid(r.value)
  {
    var y :- YearField(s);
    var afterYear :- Literal('-', y.rest);
    var m :- MonthField(afterYear);
    var afterMonth :- Literal('-', m.rest);
    var d :- DayField(afterMonth);
    var afterDay :- Whitespace(d.rest);
    var h :- HourField(afterDay);
    var afterHour :- Literal(':', h.rest);
    var mi :- MinuteField(afterHour);
    var afterMinute :- Literal(':', mi.rest);
    var sec :- SecondField(afterMinute);
    var t := DateTime(y.value, m.value, d.value, h.value, mi.value, sec.value);
    if sec.rest == [] && Valid(t) then Some(t) else None
  }

  /** `datetime.strptime(s, "%Y-%m-%d")`: midnight of the day; `None` is the `ValueError`. */
  function ParseDate(s: string): (r: Option<DateTime>)
    ensures r.Some? ==> Valid(r.value) && r.value.hour == 0 && r.value.minute == 0 && r.value.second == 0
  {
    var y :- YearField(s);
    var afterYear :- Literal('-', y.rest);
    var m :- MonthField(afterYear);
    var afterMonth :- Literal('-', m.rest);
    var d :- DayField(afterMonth);
    var t := DateTime(y.value, m.value, d.value, 0, 0, 0);
    if d.rest == [] && Valid(t) then Some(t) else None
  }

  function Digits2(n: int): string
    requires 0 <= n < 100
  {
    [DigitChar(n / 10), DigitChar(n % 10)]
  }

  function Digits4(n: int): string
    requires 0 <= n < 10000
  {
    [DigitChar(n / 1000), DigitChar(n / 100 % 10), DigitChar(n / 10 % 10), DigitChar(n % 10)]
  }

  /** Fields in the ranges their directives can express, before the calendar check. */
  predicate InFieldRanges(t: DateTime) {
    1 <= t.year <= 9999 && 1 <= t.month <= 12 && 1 <= t.day <= 31
    && 0 <= t.hour < 24 && 0 <= t.minute < 60 && 0 <= t.second < 60
  }

  /** The fields written with "%Y-%m-%d %H:%M:%S", every field zero-padded. */
  function Layout(t: DateTime): string
    requires InFieldRanges(t)
  {
    Digits4(t.year) + "-" + Digits2(t.month) + "-" + Digits2(t.day) + " "
      + Digits2(t.hour) + ":" + Digits2(t.minute) + ":" + Digits2(t.second)
  }

  /** `t.strftime("%Y-%m-%d %H:%M:%S")`. */
  function Format(t: DateTime): (r: string)
    requires Valid(t)
    ensures |r| == 19
    ensures r[4] == '-' && r[7] == '-' && r[10] == ' ' && r[13] == ':' && r[16] == ':'
  {
    Layout(t)
  }

  /** A string `strftime` could have written: it parses, and formatting what it
      parses to gives it back. */
  predicate Canonical(s: string) {
    ParseDateTime(s).Some? && Format(ParseDateTime(s).value) == s
  }

  // ---------------------------------------------------------------------------
  // Each field parser reads back what the formatter writes

  lemma YearOfDigits(n: int, rest: string)
    requires 1 <= n <= 9999
    ensures YearField(Digits4(n) + rest) == Some(Scan(n, rest))
  {
    var s := Digits4(n) + rest;
    assert s[4..] == rest;
    var a, b, c, d := n / 1000, n / 100 % 10, n / 10 % 10, n % 10;
    assert DigitValue(s[0]) == a && DigitValue(s[1]) == b && DigitValue(s[2]) == c && DigitValue(s[3]) == d;
    FourDigits(n);
  }

  lemma FourDigits(n: int)
    requires 0 <= n < 10000
    ensures 1000 * (n / 1000) + 100 * (n / 100 % 10) + 10 * (n / 10 % 10) + n % 10 == n
  {
    assert n / 100 == 10 * (n / 1000) + n / 100 % 10;
    assert n / 10 == 10 * (n / 100) + n / 10 % 10;
  }

  lemma MonthOfDigits(n: int, rest: string)
    requires 1 <= n <= 12
    ensures MonthField(Digits2(n) + rest) == Some(Scan(n, rest))
  {
    assert (Digits2(n) + rest)[2..] == rest;
  }

  lemma DayOfDigits(n: int, rest: string)
    requires 1 <= n <= 31
    ensures DayField(Digits2(n) + rest) == Some(Scan(n, rest))
  {
    assert (Digits2(n) + rest)[2..] == rest;
  }

  lemma HourOfDigits(n: int, rest: string)
    requires 0 <= n < 24
    ensures HourField(Digits2(n) + rest) == Some(Scan(n, rest))
  {
    assert (Digits2(n) + rest)[2..] == rest;
  }

  lemma MinuteOfDigits(n: int, rest: string)
    requires 0 <= n < 60
    ensures MinuteField(Digits2(n) + rest) == Some(Scan(n, rest))
    ensures SecondField(Digits2(n) + rest) == Some(Scan(n, rest))
  {
    assert (Digits2(n) + rest)[2..] == rest;
  }

  /** A zero-padded string is accepted exactly when its fields form a real
      date-time, and then it parses to those fields. */
  lemma {:induction false} ParseLayout(t: DateTime)
    requires InFieldRanges(t)
    ensures ParseDateTime(Layout(t)) == if Valid(t) then Some(t) else None
  {
    var sec := Digits2(t.second);
    var r5 := ":" + sec;
    var r4 := Digits2(t.minute) + r5;
    var r3 := ":" + r4;
    var r2 := Digits2(t.hour) + r3;
    var r1 := " " + r2;
    var r0 := Digits2(t.day) + r1;
    var q1 := "-" + r0;
    var q0 := Digits2(t.month) + q1;
    var p := "-" + q0;
    assert Layout(t) == Digits4(t.year) + p;
    YearOfDigits(t.year, p);
    assert Literal('-', p) == Some(q0);
    MonthOfDigits(t.month, q1);
    assert Literal('-', q1) == Some(r0);
    DayOfDigits(t.day, r1);
    assert Whitespace(r1) == Some(r2) by {
      assert r1[1..] == r2;
      assert !IsSpace(r2[0]);
    }
    HourOfDigits(t.hour, r3);
    assert Literal(':', r3) == Some(r4);
    MinuteOfDigits(t.minute, r5);
    assert Literal(':', r5) == Some(sec);
    MinuteOfDigits(t.second, []);
    assert sec + [] == sec;
  }

  /** `strptime` reads back every string `strftime` writes. */
  lemma ParseFormat(t: DateTime)
    requires Valid(t)
    ensures ParseDateTime(Format(t)) == Some(t)
  {
    ParseLayout(t);
  }

  lemma FormatIsCanonical(t: DateTime)
    requires Valid(t)
    ensures Canonical(Format(t)) && |Format(t)| == 19
  {
    ParseFormat(t);
  }

  /** Distinct date-times have distinct canonical strings. */
  lemma FormatInjective(t1: DateTime, t2: DateTime)
    requires Valid(t1) && Valid(t2)
    requires Format(t1) == Format(t2)
    ensures t1 == t2
  {
    ParseFormat(t1);
    ParseFormat(t2);
  }

  /** The day part of a canonical string is accepted by the "%Y-%m-%d" parse. */
  lemma {:induction false} ParseDateOfFormattedDay(t: DateTime)
    requires Valid(t)
    ensures ParseDate(Format(t)[..10]) == Some(DateTime(t.year, t.month, t.day, 0, 0, 0))
  {
    var day := Digits2(t.day);
    var q1 := "-" + day;
    var q0 := Digits2(t.month) + q1;
    var p := "-" + q0;
    assert Format(t)[..10] == Digits4(t.year) + p;
    YearOfDigits(t.year, p);
    assert Literal('-', p) == Some(q0);
    MonthOfDigits(t.month, q1);
    assert Literal('-', q1) == Some(day);
    DayOfDigits(t.day, []);
    assert day + [] == day;
  }

  /** `strptime` is more lenient than `strftime`: fields without their leading zero
      are accepted, so a string that parses need not be the canonical string of
      its own date-time. */
  lemma UnpaddedFieldsAccepted()
    ensures ParseDateTime("2025-1-1 9:5:7") == Some(DateTime(2025, 1, 1, 9, 5, 7))
  {
    UnpaddedDate();
    UnpaddedTime();
    assert Valid(DateTime(2025, 1, 1, 9, 5, 7));
  }

  lemma UnpaddedDate()
    ensures YearField("2025-1-1 9:5:7") == Some(Scan(2025, "-1-1 9:5:7"))
    ensures Literal('-', "-1-1 9:5:7") == Some("1-1 9:5:7")
    ensures MonthField("1-1 9:5:7") == Some(Scan(1, "-1 9:5:7"))
    ensures Literal('-', "-1 9:5:7") == Some("1 9:5:7")
    ensures DayField("1 9:5:7") == Some(Scan(1, " 9:5:7"))
  {
    var s := "2025-1-1 9:5:7";
    assert s[4..] == "-1-1 9:5:7";
    assert s[5..] == "1-1 9:5:7" && s[6..] == "-1 9:5:7" && s[7..] == "1 9:5:7" && s[8..] == " 9:5:7";
  }

  lemma UnpaddedTime()
    ensures Whitespace(" 9:5:7") == Some("9:5:7")
    ensures HourField("9:5:7") == Some(Scan(9, ":5:7"))
    ensures Literal(':', ":5:7") == Some("5:7")
    ensures MinuteField("5:7") == Some(Scan(5, ":7"))
    ensures Literal(':', ":7") == Some("7")
    ensures SecondField("7") == Some(Scan(7, []))
  {
    var s := " 9:5:7";
    assert s[1..] == "9:5:7" && s[2..] == ":5:7" && s[3..] == "5:7" && s[4..] == ":7" && s[5..] == "7";
    assert "7"[1..] == [];
  }

  /** The canonical string of that date-time is not the string it was parsed from. */
  lemma UnpaddedIsNotCanonical()
    ensures Format(DateTime(2025, 1, 1, 9, 5, 7)) == "2025-01-01 09:05:07"
  {
    assert Digits4(2025) == "2025";
    assert Digits2(1) == "01" && Digits2(9) == "09" && Digits2(5) == "05" && Digits2(7) == "07";
  }

  /** The day must exist in its month, with leap years by the Gregorian rule:
      29 February is accepted in 2024 and in 2000 ... */
  lemma LeapDayAccepted()
    ensures ParseDateTime("2024-02-29 12:00:00") == Some(DateTime(2024, 2, 29, 12, 0, 0))
  {
    LeapDayLayout(2024);
    ParseOfLayout(DateTime(2024, 2, 29, 12, 0, 0), "2024-02-29 12:00:00");
  }

  lemma CenturyLeapDayAccepted()
    ensures ParseDateTime("2000-02-29 12:00:00") == Some(DateTime(2000, 2, 29, 12, 0, 0))
  {
    LeapDayLayout(2000);
    assert IsLeapYear(2000);
    ParseOfLayout(DateTime(2000, 2, 29, 12, 0, 0), "2000-02-29 12:00:00");
  }

  /** ... and rejected in 2023 and in 1900. */
  lemma CommonYearLeapDayRejected()
    ensures ParseDateTime("2023-02-29 12:00:00") == None
  {
    LeapDayLayout(2023);
    ParseOfLayout(DateTime(2023, 2, 29, 12, 0, 0), "2023-02-29 12:00:00");
  }

  lemma CenturyLeapDayRejected()
    ensures ParseDateTime("1900-02-29 12:00:00") == None
  {
    LeapDayLayout(1900);
    assert !IsLeapYear(1900);
    ParseOfLayout(DateTime(1900, 2, 29, 12, 0, 0), "1900-02-29 12:00:00");
  }

  lemma ParseOfLayout(t: DateTime, s: string)
    requires InFieldRanges(t) && Layout(t) == s
    ensures ParseDateTime(s) == if Valid(t) then Some(t) else None
  {
    ParseLayout(t);
  }

  lemma LeapDayLayout(year: int)
    requires 1 <= year <= 9999
    ensures Layout(DateTime(year, 2, 29, 12, 0, 0)) == Digits4(year) + "-02-29 12:00:00"
  {
    assert Digits2(2) == "02" && Digits2(29) == "29" && Digits2(12) == "12" && Digits2(0) == "00";
  }
}
