/**
 * Calendar dates as the backend stores them, the `strptime(s, "%Y-%m-%d")`
 * parse the service applies to `published_date`, and the
 * `strftime("%Y-%m-%d")` rendering the server applies to every stored date.
 *
 * The parse follows the regular expressions Python's `_strptime` builds for
 * the three directives:
 *   %Y  four digits
 *   %m  `1[0-2] | 0[1-9] | [1-9]`
 *   %d  `3[01] | [12]\d | 0[1-9] | [1-9] | " "[1-9]`
 * The expression is matched at the start of the text, the first alternative
 * that lets the match succeed is taken, and text left over after the match is
 * an error ("unconverted data remains"). A date that does not exist in the
 * proleptic Gregorian calendar (year 0, April 31, February 29 of a common year)
 * is rejected when the `date` value is built.
 */
module Dates {
  import opened Wrappers

  datatype Date = Date(year: int, month: int, day: int)

  predicate IsLeapYear(y: int)
  {
    y % 4 == 0 && (y % 100 != 0 || y % 400 == 0)
  }

  function DaysInMonth(y: int, m: int): (n: int)
    requires 1 <= m <= 12
    ensures 28 <= n <= 31
    ensures n == 29 <==> m == 2 && IsLeapYear(y)
  {
    if m == 2 then (if IsLeapYear(y) then 29 else 28)
    else if m == 4 || m == 6 || m == 9 || m == 11 then 30
    else 31
  }

  /** The dates Python's `datetime.date` can hold (MINYEAR 1, MAXYEAR 9999). */
  predicate IsValidDate(d: Date)
  {
    1 <= d.year <= 9999 && 1 <= d.month <= 12 && 1 <= d.day <= DaysInMonth(d.year, d.month)
  }

  predicate IsDigit(c: char)
  {
    '0' <= c <= '9'
  }

  function DigitValue(c: char): (v: int)
    requires IsDigit(c)
    ensures 0 <= v <= 9
  {
    c as int - '0' as int
  }

  function DigitChar(v: int): (c: char)
    requires 0 <= v <= 9
    ensures IsDigit(c) && DigitValue(c) == v
  {
    ('0' as int + v) as char
  }

  /**
   * The shape of `full-date` in section 5.6 of RFC 3339:
   * 4DIGIT "-" 2DIGIT "-" 2DIGIT.
   */
  predicate IsFullDateShape(s: string)
  {
    |s| == 10 && s[4] == '-' && s[7] == '-' &&
    IsDigit(s[0]) && IsDigit(s[1]) && IsDigit(s[2]) && IsDigit(s[3]) &&
    IsDigit(s[5]) && IsDigit(s[6]) && IsDigit(s[8]) && IsDigit(s[9])
  }

  // ---------------------------------------------------------------- format

  function TwoDigits(n: int): (s: string)
    requires 0 <= n <= 99
    ensures |s| == 2 && IsDigit(s[0]) && IsDigit(s[1])
    ensures 10 * DigitValue(s[0]) + DigitValue(s[1]) == n
  {
    [DigitChar(n / 10), DigitChar(n % 10)]
  }

  function FourDigits(n: int): (s: string)
    requires 0 <= n <= 9999
    ensures |s| == 4 && IsDigit(s[0]) && IsDigit(s[1]) && IsDigit(s[2]) && IsDigit(s[3])
    ensures 1000 * DigitValue(s[0]) + 100 * DigitValue(s[1]) + 10 * DigitValue(s[2]) + DigitValue(s[3]) == n
  {
    var a, b, c, d := n / 1000, n % 1000 / 100, n % 100 / 10, n % 10;
    assert n == 1000 * a + n % 1000;
    assert n % 1000 == 100 * b + n % 100;
    assert n % 100 == 10 * c + d;
    [DigitChar(a), DigitChar(b), DigitChar(c), DigitChar(d)]
  }

  /** `date.strftime("%Y-%m-%d")`: every field zero-padded to its full width. */
  function FormatDate(d: Date): (s: string)
    requires IsValidDate(d)
    ensures IsFullDateShape(s)
  {
    FourDigits(d.year) + "-" + TwoDigits(d.month) + "-" + TwoDigits(d.day)
  }

  // ----------------------------------------------------------------- parse

  /** The value of the four-digit `%Y` field at the head of `s`. */
  function YearValue(s: string): (y: int)
    requires |s| >= 4 && IsDigit(s[0]) && IsDigit(s[1]) && IsDigit(s[2]) && IsDigit(s[3])
    ensures 0 <= y <= 9999
  {
    1000 * DigitValue(s[0]) + 100 * DigitValue(s[1]) + 10 * DigitValue(s[2]) + DigitValue(s[3])
  }

  /**
   * The `%m` field followed by the literal `-`: the month and the text after
   * the dash, or None when no alternative is followed by a dash.
   */
  function MonthField(t: string): (r: Option<(int, string)>)
    ensures r.Some? ==> 1 <= r.value.0 <= 12
  {
    if |t| >= 3 && t[0] == '1' && '0' <= t[1] <= '2' && t[2] == '-' then
      Some((10 + DigitValue(t[1]), t[3..]))
    else if |t| >= 3 && t[0] == '0' && '1' <= t[1] <= '9' && t[2] == '-' then
      Some((DigitValue(t[1]), t[3..]))
    else if |t| >= 2 && '1' <= t[0] <= '9' && t[1] == '-' then
      Some((DigitValue(t[0]), t[2..]))
    else
      None
  }

  /**
   * The `%d` field, which must end the text: the first alternative that
   * matches a prefix is taken, and anything after it is an error.
   */
  function DayField(t: string): (r: Option<int>)
    ensures r.Some? ==> 1 <= r.value <= 31
  {
    if |t| >= 2 && t[0] == '3' && (t[1] == '0' || t[1] == '1') then
      (if |t| == 2 then Some(30 + DigitValue(t[1])) else None)
    else if |t| >= 2 && (t[0] == '1' || t[0] == '2') && IsDigit(t[1]) then
      (if |t| == 2 then Some(10 * DigitValue(t[0]) + DigitValue(t[1])) else None)
    else if |t| >= 2 && t[0] == '0' && '1' <= t[1] <= '9' then
      (if |t| == 2 then Some(DigitValue(t[1])) else None)
    else if |t| >= 1 && '1' <= t[0] <= '9' then
      (if |t| == 1 then Some(DigitValue(t[0])) else None)
    else if |t| >= 2 && t[0] == ' ' && '1' <= t[1] <= '9' then
      (if |t| == 2 then Some(DigitValue(t[1])) else None)
    else
      None
  }

  /** `datetime.strptime(s, "%Y-%m-%d").date()`, with None for its ValueError. */
  function ParseDate(s: string): (r: Option<Date>)
    ensures r.Some? ==> IsValidDate(r.value)
  {
    if |s| < 5 || !(IsDigit(s[0]) && IsDigit(s[1]) && IsDigit(s[2]) && IsDigit(s[3])) || s[4] != '-' then
      None
    else
      match MonthField(s[5..])
      case None => None
      case Some((m, rest)) =>
        match DayField(rest)
        case None => None
        case Some(d) =>
          var date := Date(YearValue(s), m, d);
          if IsValidDate(date) then Some(date) else None
  }

  // ------------------------------------------------------------ round trips

  lemma DigitCharValue(c: char)
    requires IsDigit(c)
    ensures DigitChar(DigitValue(c)) == c
  {
  }

  /** A two-digit field re-rendered from its value is the field itself. */
  lemma TwoDigitsOfValue(a: char, b: char)
    requires IsDigit(a) && IsDigit(b)
    ensures TwoDigits(10 * DigitValue(a) + DigitValue(b)) == [a, b]
  {
    var n := 10 * DigitValue(a) + DigitValue(b);
    assert n / 10 == DigitValue(a) && n % 10 == DigitValue(b);
    DigitCharValue(a);
    DigitCharValue(b);
  }

  /** A four-digit field re-rendered from its value is the field itself. */
  lemma FourDigitsOfValue(s: string)
    requires |s| >= 4 && IsDigit(s[0]) && IsDigit(s[1]) && IsDigit(s[2]) && IsDigit(s[3])
    ensures FourDigits(YearValue(s)) == s[..4]
  {
    var a, b, c, d := DigitValue(s[0]), DigitValue(s[1]), DigitValue(s[2]), DigitValue(s[3]);
    var n := YearValue(s);
    assert n == 1000 * a + 100 * b + 10 * c + d;
    assert n / 1000 == a;
    assert n % 1000 == 100 * b + 10 * c + d;
    assert n % 1000 / 100 == b;
    assert n % 100 == 10 * c + d;
    assert n % 100 / 10 == c;
    assert n % 10 == d;
    DigitCharValue(s[0]);
    DigitCharValue(s[1]);
    DigitCharValue(s[2]);
    DigitCharValue(s[3]);
  }

  /** A zero-padded month followed by a dash is read back by the `%m` field. */
  lemma MonthFieldOfPadded(m: int, rest: string)
    requires 1 <= m <= 12
    ensures MonthField(TwoDigits(m) + "-" + rest) == Some((m, rest))
  {
    var t := TwoDigits(m) + "-" + rest;
    assert t[0] == TwoDigits(m)[0] && t[1] == TwoDigits(m)[1] && t[2] == '-';
    assert t[3..] == rest;
    if m >= 10 {
      assert t[0] == '1';
    } else {
      assert t[0] == '0';
    }
  }

  /** A zero-padded day is read back by the `%d` field. */
  lemma DayFieldOfPadded(d: int)
    requires 1 <= d <= 31
    ensures DayField(TwoDigits(d)) == Some(d)
  {
  }

  /** Formatting a stored date and parsing the text gives the date back. */
  lemma ParseFormat(d: Date)
    requires IsValidDate(d)
    ensures ParseDate(FormatDate(d)) == Some(d)
  {
    var s := FormatDate(d);
    var y, dd := FourDigits(d.year), TwoDigits(d.day);
    var rest := TwoDigits(d.month) + "-" + dd;
    assert s == y + "-" + rest;
    assert s[..4] == y && s[4] == '-' && s[5..] == rest;
    assert YearValue(s) == d.year;
    MonthFieldOfPadded(d.month, dd);
    DayFieldOfPadded(d.day);
  }

  /**
   * A zero-padded full-date that parses is rendered back to exactly the same
   * text; the parse followed by the format is the identity on such strings.
   */
  lemma FormatParse(s: string)
    requires IsFullDateShape(s)
    requires ParseDate(s).Some?
    ensures FormatDate(ParseDate(s).value) == s
  {
    var d := ParseDate(s).value;
    FourDigitsOfValue(s);
    var t := s[5..];
    assert t[2] == '-';
    assert MonthField(t).Some?;
    var mv := MonthField(t).value;
    assert mv.0 == 10 * DigitValue(s[5]) + DigitValue(s[6]) && mv.1 == s[8..];
    assert DayField(s[8..]) == Some(d.day);
    assert d.day == 10 * DigitValue(s[8]) + DigitValue(s[9]);
    TwoDigitsOfValue(s[5], s[6]);
    TwoDigitsOfValue(s[8], s[9]);
    assert s == s[..4] + "-" + [s[5], s[6]] + "-" + [s[8], s[9]];
  }

  /**
   * On zero-padded text the parse accepts exactly the calendar dates whose
   * digits it reads.
   */
  lemma FullDateAccepted(s: string)
    requires IsFullDateShape(s)
    ensures ParseDate(s).Some? <==>
      IsValidDate(Date(YearValue(s), 10 * DigitValue(s[5]) + DigitValue(s[6]), 10 * DigitValue(s[8]) + DigitValue(s[9])))
  {
    var t := s[5..];
    var m := 10 * DigitValue(s[5]) + DigitValue(s[6]);
    var d := 10 * DigitValue(s[8]) + DigitValue(s[9]);
    if 1 <= m <= 12 {
      assert MonthField(t) == Some((m, s[8..]));
      if 1 <= d <= 31 {
        assert DayField(s[8..]) == Some(d);
      } else {
        assert DayField(s[8..]).None?;
      }
    } else {
      assert MonthField(t).None?;
    }
  }

  /** The parse also takes one-digit months and days and pads them on output. */
  lemma ShortFieldsAccepted()
    ensures ParseDate("2024-2-9") == Some(Date(2024, 2, 9))
    ensures FormatDate(Date(2024, 2, 9)) == "2024-02-09"
  {
    var s := "2024-2-9";
    assert s[5..] == "2-9";
    assert MonthField(s[5..]) == Some((2, "9"));
  }

  /** Days that do not exist are rejected even though their digits match. */
  lemma ImpossibleDaysRejected()
    ensures ParseDate("2023-02-29") == None
    ensures ParseDate("2024-02-29") == Some(Date(2024, 2, 29))
    ensures ParseDate("2024-04-31") == None
    ensures ParseDate("0000-01-01") == None
  {
    var a := "2023-02-29";
    assert a[5..] == "02-29" && MonthField(a[5..]) == Some((2, "29"));
    var b := "2024-02-29";
    assert b[5..] == "02-29" && MonthField(b[5..]) == Some((2, "29"));
    var c := "2024-04-31";
    assert c[5..] == "04-31" && MonthField(c[5..]) == Some((4, "31"));
    var e := "0000-01-01";
    assert e[5..] == "01-01" && MonthField(e[5..]) == Some((1, "01"));
  }

  /** Text left over after the day field is an error, as is a day field of two digits above 31. */
  lemma TrailingTextRejected()
    ensures ParseDate("2024-01-011") == None
    ensures ParseDate("2024-01-35") == None
    ensures ParseDate("2024-13-01") == None
  {
    var a := "2024-01-011";
    assert a[5..] == "01-011" && MonthField(a[5..]) == Some((1, "011"));
    var b := "2024-01-35";
    assert b[5..] == "01-35" && MonthField(b[5..]) == Some((1, "35"));
    var c := "2024-13-01";
    assert c[5..] == "13-01";
  }
}
