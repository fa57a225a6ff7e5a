/** `validate_date` (utils.py): `datetime.strptime(s, "%Y-%m-%d")` succeeds
    exactly when the text is written in one of the forms the directives
    accept and names a real day of the proleptic Gregorian calendar.

    The directives are matched as CPython's `_strptime` matches them:
    `%Y` is four digits, `%m` is the regular expression `1[0-2]|0[1-9]|[1-9]`
    and `%d` is `3[01]|[12]\d|0[1-9]|[1-9]| [1-9]`, tried left to right; the
    match must end at the end of the text ("unconverted data remains"
    otherwise), and the date is then built with `datetime`, which rejects
    year 0 and a day past the end of its month. */
module Dates {
  import opened Wrappers
  import opened Text

  datatype Date = Date(year: int, month: int, day: int)

  /** `datetime.MINYEAR` and `datetime.MAXYEAR`. */
  const MinYear: int := 1
  const MaxYear: int := 9999

  /** Divisible by 4, and not by 100 unless by 400. */
  predicate IsLeapYear(year: int) {
    year % 4 == 0 && (year % 100 != 0 || year % 400 == 0)
  }

  function DaysInMonth(year: int, month: int): (n: int)
    requires 1 <= month <= 12
    ensures 28 <= n <= 31
    ensures n == 29 <==> month == 2 && IsLeapYear(year)
    ensures n == 28 <==> month == 2 && !IsLeapYear(year)
  {
    if month == 2 then (if IsLeapYear(year) then 29 else 28)
    else if month == 4 || month == 6 || month == 9 || month == 11 then 30
    else 31
  }

  /** A day `datetime.date` accepts. */
  predicate IsCalendarDate(d: Date) {
    && MinYear <= d.year <= MaxYear
    && 1 <= d.month <= 12
    && 1 <= d.day <= DaysInMonth(d.year, d.month)
  }

  // ---------------------------------------------------------------------
  // Digits and the written forms of a date
  // ---------------------------------------------------------------------

  function DigitValue(c: char): int
    requires IsAsciiDigit(c)
  {
    c as int - '0' as int
  }

  function Digit(n: int): (c: char)
    requires 0 <= n <= 9
    ensures IsAsciiDigit(c) && DigitValue(c) == n
  {
    ('0' as int + n) as char
  }

  lemma DigitOfValue(c: char)
    requires IsAsciiDigit(c)
    ensures Digit(DigitValue(c)) == c
  {
  }

  /** A number written with exactly two digits, zero-padded. */
  function Pad2(n: int): string
    requires 0 <= n <= 99
  {
    [Digit(n / 10), Digit(n % 10)]
  }

  /** A number written with exactly four digits, zero-padded. */
  function Pad4(n: int): string
    requires 0 <= n <= 9999
  {
    [Digit(n / 1000), Digit(n / 100 % 10), Digit(n / 10 % 10), Digit(n % 10)]
  }

  /** The strict ISO form `YYYY-MM-DD`. */
  function IsoDate(year: int, month: int, day: int): string
    requires 0 <= year <= 9999 && 0 <= month <= 99 && 0 <= day <= 99
  {
    Pad4(year) + "-" + Pad2(month) + "-" + Pad2(day)
  }

  /** The texts `%m` reads as month `m`: two digits, or for January to
      September also a single digit. */
  function MonthTexts(m: int): set<string>
    requires 1 <= m <= 12
  {
    {Pad2(m)} + if m <= 9 then {[Digit(m)]} else {}
  }

  /** The texts `%d` reads as day `d`: two digits, or for the first nine
      days also a single digit, with or without one leading space. */
  function DayTexts(d: int): set<string>
    requires 1 <= d <= 31
  {
    {Pad2(d)} + if d <= 9 then {[Digit(d)], [' ', Digit(d)]} else {}
  }

  /** `s` is one of the ways `%Y-%m-%d` lets `date` be written. */
  predicate WrittenAs(s: string, date: Date) {
    && 0 <= date.year <= 9999
    && 1 <= date.month <= 12
    && 1 <= date.day <= 31
    && exists mt, dt | mt in MonthTexts(date.month) && dt in DayTexts(date.day) ::
         s == Pad4(date.year) + "-" + mt + "-" + dt
  }

  // ---------------------------------------------------------------------
  // The directives
  // ---------------------------------------------------------------------

  /** The value a directive read and how many characters it consumed. */
  datatype Token = Token(value: int, length: nat)

  /** `%Y`: the value of four digits. */
  function YearValue(t: string): (y: int)
    requires |t| == 4 && AllAsciiDigits(t)
    ensures 0 <= y <= 9999 && Pad4(y) == t
  {
    var y := 1000 * DigitValue(t[0]) + 100 * DigitValue(t[1]) + 10 * DigitValue(t[2]) + DigitValue(t[3]);
    Pad4OfDigits(t[0], t[1], t[2], t[3]);
    assert t == [t[0], t[1], t[2], t[3]];
    y
  }

  /** Four digits are the padded form of the number they spell. */
  lemma Pad4OfDigits(a: char, b: char, c: char, d: char)
    requires IsAsciiDigit(a) && IsAsciiDigit(b) && IsAsciiDigit(c) && IsAsciiDigit(d)
    ensures var y := 1000 * DigitValue(a) + 100 * DigitValue(b) + 10 * DigitValue(c) + DigitValue(d);
            0 <= y <= 9999 && Pad4(y) == [a, b, c, d]
  {
    var y := 1000 * DigitValue(a) + 100 * DigitValue(b) + 10 * DigitValue(c) + DigitValue(d);
    assert y / 1000 == DigitValue(a);
    assert y / 100 == 10 * DigitValue(a) + DigitValue(b);
    assert y / 100 % 10 == DigitValue(b);
    assert y / 10 == 100 * DigitValue(a) + 10 * DigitValue(b) + DigitValue(c);
    assert y / 10 % 10 == DigitValue(c);
    assert y % 10 == DigitValue(d);
    DigitOfValue(a);
    DigitOfValue(b);
    DigitOfValue(c);
    DigitOfValue(d);
  }

  /** Two digits are the padded form of the number they spell. */
  lemma Pad2OfDigits(a: char, b: char)
    requires IsAsciiDigit(a) && IsAsciiDigit(b)
    ensures var n := 10 * DigitValue(a) + DigitValue(b);
            0 <= n <= 99 && Pad2(n) == [a, b]
  {
    DigitOfValue(a);
    DigitOfValue(b);
  }

  /** `%m`, the first of `1[0-2]`, `0[1-9]`, `[1-9]` that matches at the
      start of `t`. Backtracking into a later alternative never helps: each
      later one stops before a digit, where the separator `-` is needed. */
  function MonthToken(t: string): (r: Option<Token>)
    ensures r.Some? ==> && 1 <= r.value.value <= 12
                        && 1 <= r.value.length <= |t|
                        && t[..r.value.length] in MonthTexts(r.value.value)
  {
    if |t| >= 2 && t[0] == '1' && '0' <= t[1] <= '2' then
      Pad2OfDigits(t[0], t[1]);
      assert t[..2] == [t[0], t[1]];
      Some(Token(10 + DigitValue(t[1]), 2))
    else if |t| >= 2 && t[0] == '0' && '1' <= t[1] <= '9' then
      Pad2OfDigits(t[0], t[1]);
      assert t[..2] == [t[0], t[1]];
      Some(Token(DigitValue(t[1]), 2))
    else if |t| >= 1 && '1' <= t[0] <= '9' then
      DigitOfValue(t[0]);
      assert t[..1] == [t[0]];
      Some(Token(DigitValue(t[0]), 1))
    else
      None
  }

  /** `%d`, the first of `3[01]`, `[12]\d`, `0[1-9]`, `[1-9]`, ` [1-9]` that
      matches at the start of `t`. */
  function DayToken(t: string): (r: Option<Token>)
    ensures r.Some? ==> && 1 <= r.value.value <= 31
                        && 1 <= r.value.length <= |t|
                        && t[..r.value.length] in DayTexts(r.value.value)
  {
    if |t| >= 2 && t[0] == '3' && '0' <= t[1] <= '1' then
      Pad2OfDigits(t[0], t[1]);
      assert t[..2] == [t[0], t[1]];
      Some(Token(30 + DigitValue(t[1]), 2))
    else if |t| >= 2 && '1' <= t[0] <= '2' && IsAsciiDigit(t[1]) then
      Pad2OfDigits(t[0], t[1]);
      assert t[..2] == [t[0], t[1]];
      Some(Token(10 * DigitValue(t[0]) + DigitValue(t[1]), 2))
    else if |t| >= 2 && t[0] == '0' && '1' <= t[1] <= '9' then
      Pad2OfDigits(t[0], t[1]);
      assert t[..2] == [t[0], t[1]];
      Some(Token(DigitValue(t[1]), 2))
    else if |t| >= 1 && '1' <= t[0] <= '9' then
      DigitOfValue(t[0]);
      assert t[..1] == [t[0]];
      Some(Token(DigitValue(t[0]), 1))
    else if |t| >= 2 && t[0] == ' ' && '1' <= t[1] <= '9' then
      DigitOfValue(t[1]);
      assert t[..2] == [' ', t[1]];
      Some(Token(DigitValue(t[1]), 2))
    else
      None
  }

  /** The fields `strptime` reads from `s` with the format `%Y-%m-%d`, or
      `None` when the format does not match the whole text. */
  function ParseDate(s: string): (r: Option<Date>)
    ensures r.Some? ==> && 0 <= r.value.year <= 9999
                        && 1 <= r.value.month <= 12
                        && 1 <= r.value.day <= 31
    ensures r.Some? ==> 8 <= |s| <= 10 && s[4] == '-'
  {
    if |s| < 5 || !AllAsciiDigits(s[..4]) || s[4] != '-' then None
    else
      match MonthToken(s[5..])
      case None => None
      case Some(m) =>
        var rest := s[5 + m.length..];
        if |rest| == 0 || rest[0] != '-' then None
        else
          match DayToken(rest[1..])
          case None => None
          case Some(d) =>
            if d.length != |rest| - 1 then None
            else Some(Date(YearValue(s[..4]), m.value, d.value))
  }

  /** `validate_date`: empty text fails; otherwise `strptime` must read a
      date and `datetime` must accept it. */
  function ValidateDate(dateString: string): (r: bool)
    ensures r ==> ParseDate(dateString).Some? &&
                  WrittenAs(dateString, ParseDate(dateString).value) &&
                  IsCalendarDate(ParseDate(dateString).value)
    ensures forall date :: IsCalendarDate(date) && WrittenAs(dateString, date) ==> r
  {
    ParseWrittenAll(dateString);
    if dateString == [] then false
    else
      match ParseDate(dateString)
      case None => false
      case Some(d) =>
        ParseSound(dateString);
        IsCalendarDate(d)
  }

  // ---------------------------------------------------------------------
  // What validate_date accepts
  // ---------------------------------------------------------------------

  /** Reading back a padded four-digit year gives the year. */
  lemma YearOfPad4(y: int)
    requires 0 <= y <= 9999
    ensures AllAsciiDigits(Pad4(y)) && YearValue(Pad4(y)) == y
  {
    var t := Pad4(y);
    var q1, q2, q3 := y / 10, y / 100, y / 1000;
    assert y == 10 * q1 + y % 10;
    assert q2 == q1 / 10 && q1 == 10 * q2 + q1 % 10;
    assert q3 == q2 / 10 && q2 == 10 * q3 + q2 % 10;
    assert y == 1000 * q3 + 100 * (q2 % 10) + 10 * (q1 % 10) + y % 10;
    assert DigitValue(t[0]) == y / 1000;
    assert DigitValue(t[1]) == y / 100 % 10;
    assert DigitValue(t[2]) == y / 10 % 10;
    assert DigitValue(t[3]) == y % 10;
  }

  /** Every written form of a month is read back as that month, whole, when
      the separator follows it. */
  lemma MonthTokenOfText(m: int, mt: string, rest: string)
    requires 1 <= m <= 12 && mt in MonthTexts(m)
    requires |rest| > 0 && rest[0] == '-'
    ensures MonthToken(mt + rest) == Some(Token(m, |mt|))
  {
    var t := mt + rest;
    if mt == Pad2(m) {
      assert t[0] == Digit(m / 10) && t[1] == Digit(m % 10);
    } else {
      assert t[0] == Digit(m) && t[1] == '-';
    }
  }

  /** Every written form of a day is read back as that day, whole. */
  lemma DayTokenOfText(d: int, dt: string)
    requires 1 <= d <= 31 && dt in DayTexts(d)
    ensures DayToken(dt) == Some(Token(d, |dt|))
  {
    if dt == Pad2(d) {
      assert dt[0] == Digit(d / 10) && dt[1] == Digit(d % 10);
    }
  }

  /** Completeness of the reader: every written form of a date is read as
      that date. */
  lemma {:induction false} ParseWritten(s: string, date: Date)
    requires WrittenAs(s, date)
    ensures ParseDate(s) == Some(date)
  {
    var mt, dt :| mt in MonthTexts(date.month) && dt in DayTexts(date.day) &&
                  s == Pad4(date.year) + "-" + mt + "-" + dt;
    YearOfPad4(date.year);
    assert s[..4] == Pad4(date.year);
    assert s[4] == '-';
    assert s[5..] == mt + ("-" + dt);
    MonthTokenOfText(date.month, mt, "-" + dt);
    var rest := s[5 + |mt|..];
    assert rest == "-" + dt;
    assert rest[1..] == dt;
    DayTokenOfText(date.day, dt);
  }

  /** Completeness, for every date at once. */
  lemma ParseWrittenAll(s: string)
    ensures forall date :: WrittenAs(s, date) ==> ParseDate(s) == Some(date)
  {
    forall date | WrittenAs(s, date)
      ensures ParseDate(s) == Some(date)
    {
      ParseWritten(s, date);
    }
  }

  /** Soundness of the reader: whatever it reads, the text is one of the
      written forms of what it read. */
  lemma {:induction false} ParseSound(s: string)
    requires ParseDate(s).Some?
    ensures WrittenAs(s, ParseDate(s).value)
  {
    var date := ParseDate(s).value;
    var m := MonthToken(s[5..]).value;
    var rest := s[5 + m.length..];
    var d := DayToken(rest[1..]).value;
    var mt := s[5..][..m.length];
    var dt := rest[1..];
    assert dt[..d.length] == dt;
    assert mt in MonthTexts(date.month);
    assert dt in DayTexts(date.day);
    assert s == s[..4] + "-" + mt + "-" + dt;
  }

  /** `validate_date` accepts exactly the written forms of real calendar
      days. */
  lemma ValidateDateCharacterisation(s: string)
    ensures ValidateDate(s) <==> exists date :: IsCalendarDate(date) && WrittenAs(s, date)
  {
    if ValidateDate(s) {
      ParseSound(s);
      assert IsCalendarDate(ParseDate(s).value);
    }
    if date :| IsCalendarDate(date) && WrittenAs(s, date) {
      ParseWritten(s, date);
    }
  }

  /** How the reader treats a padded two-digit month followed by the
      separator: months 01 to 12 are read whole, anything else is refused
      outright or read as its first digit alone. */
  lemma MonthTokenOfPad2(m: int, rest: string)
    requires 0 <= m <= 99
    requires |rest| > 0 && rest[0] == '-'
    ensures 1 <= m <= 12 ==> MonthToken(Pad2(m) + rest) == Some(Token(m, 2))
    ensures !(1 <= m <= 12) ==> MonthToken(Pad2(m) + rest).None? ||
                                MonthToken(Pad2(m) + rest).value.length == 1
  {
    if 1 <= m <= 12 {
      MonthTokenOfText(m, Pad2(m), rest);
    }
  }

  /** How the reader treats a padded two-digit day: days 01 to 31 are read
      whole, anything else is refused outright or read as its first digit
      alone. */
  lemma DayTokenOfPad2(d: int)
    requires 0 <= d <= 99
    ensures 1 <= d <= 31 ==> DayToken(Pad2(d)) == Some(Token(d, 2))
    ensures !(1 <= d <= 31) ==> DayToken(Pad2(d)).None? || DayToken(Pad2(d)).value.length == 1
  {
    if 1 <= d <= 31 {
      DayTokenOfText(d, Pad2(d));
    }
  }

  /** The strict form `YYYY-MM-DD` with any two-digit month and day: it is
      read exactly when the month is 01 to 12 and the day 01 to 31. */
  lemma {:induction false} ParseIsoDate(year: int, month: int, day: int)
    requires 0 <= year <= 9999 && 0 <= month <= 99 && 0 <= day <= 99
    ensures ParseDate(IsoDate(year, month, day)) ==
              if 1 <= month <= 12 && 1 <= day <= 31 then Some(Date(year, month, day)) else None
  {
    var s := IsoDate(year, month, day);
    YearOfPad4(year);
    assert s[..4] == Pad4(year);
    assert s[4] == '-';
    assert s[5..] == Pad2(month) + ("-" + Pad2(day));
    MonthTokenOfPad2(month, "-" + Pad2(day));
    DayTokenOfPad2(day);
    if MonthToken(s[5..]).Some? {
      var m := MonthToken(s[5..]).value;
      var rest := s[5 + m.length..];
      if m.length == 1 {
        assert rest[0] == Pad2(month)[1];
      } else {
        assert rest == "-" + Pad2(day);
        assert rest[1..] == Pad2(day);
      }
    }
  }

  /** `validate_date` on the strict form accepts exactly the real calendar
      days: month 1 to 12, day 1 to the length of that month, year at least
      1. So `2024-99-99` and `2024-02-30` fail and `2024-02-29` passes. */
  lemma ValidateIsoDate(year: int, month: int, day: int)
    requires 0 <= year <= 9999 && 0 <= month <= 99 && 0 <= day <= 99
    ensures ValidateDate(IsoDate(year, month, day)) <==> IsCalendarDate(Date(year, month, day))
  {
    ParseIsoDate(year, month, day);
  }

  /** February 29 is a valid date exactly in leap years. */
  lemma LeapDay(year: int)
    requires MinYear <= year <= MaxYear
    ensures ValidateDate(IsoDate(year, 2, 29)) <==>
              year % 4 == 0 && (year % 100 != 0 || year % 400 == 0)
  {
    ValidateIsoDate(year, 2, 29);
  }

  /** Text in the strict form that names no real day is refused: a day
      past the end of February, month and day 99, month 13, year 0. */
  lemma DateExamples()
    ensures !ValidateDate(IsoDate(2024, 2, 30))
    ensures !ValidateDate(IsoDate(2024, 99, 99))
    ensures !ValidateDate(IsoDate(2024, 13, 1))
    ensures !ValidateDate(IsoDate(0, 1, 1))
  {
    ValidateIsoDate(2024, 2, 30);
    ValidateIsoDate(2024, 99, 99);
    ValidateIsoDate(2024, 13, 1);
    ValidateIsoDate(0, 1, 1);
  }

  /** The leap-day rule on the four kinds of year, and an ordinary day. */
  lemma LeapDayExamples()
    ensures ValidateDate(IsoDate(2024, 2, 29)) && ValidateDate(IsoDate(2000, 2, 29))
    ensures !ValidateDate(IsoDate(2023, 2, 29)) && !ValidateDate(IsoDate(1900, 2, 29))
    ensures ValidateDate(IsoDate(2024, 1, 15))
  {
    LeapDay(2024);
    LeapDay(2000);
    LeapDay(2023);
    LeapDay(1900);
    ValidateIsoDate(2024, 1, 15);
  }
}
