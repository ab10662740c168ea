/** The calendar-date parsing the service relies on: `LocalDate.parse` with
    `DateTimeFormatter.ISO_LOCAL_DATE`, the complete extended representation
    YYYY-MM-DD of ISO 8601 (section 5.2.1.1 of ISO 8601:2004), read with the
    strict resolver over the proleptic Gregorian calendar; and
    `String.valueOf(int)`, which turns the parsed year back into text.
    Years are limited to four unsigned digits (0000 to 9999). */
module IsoDate {
  import opened Dto

  /** A calendar date as `LocalDate` holds it. */
  datatype Date = Date(year: int, month: int, day: int)

  // ----- Calendar -----

  /** The proleptic Gregorian leap-year rule (year 0 is a leap year). */
  predicate IsLeapYear(y: int): (b: bool)
    ensures y % 4 != 0 ==> !b
    ensures y % 4 == 0 && y % 100 != 0 ==> b
    ensures y % 100 == 0 ==> (b <==> y % 400 == 0)
  {
    if y % 100 == 0 then
      CenturyDivisibleByFour(y);
      y % 400 == 0
    else
      y % 4 == 0
  }

  /** A century year is divisible by 4. */
  lemma CenturyDivisibleByFour(y: int)
    requires y % 100 == 0
    ensures y % 4 == 0
  {
    var k := y / 100;
    assert y == 4 * (25 * k);
  }

  function DaysInMonth(y: int, m: int): (n: int)
    requires 1 <= m <= 12
    ensures 28 <= n <= 31
    ensures m == 2 ==> (n == 29 <==> IsLeapYear(y)) && (n == 28 <==> !IsLeapYear(y))
    ensures m != 2 ==> (n == 30 <==> m in {4, 6, 9, 11})
    ensures m in {1, 3, 5, 7, 8, 10, 12} ==> n == 31
  {
    if m == 2 then (if IsLeapYear(y) then 29 else 28)
    else if m == 4 || m == 6 || m == 9 || m == 11 then 30
    else 31
  }

  /** What the strict resolver accepts: a month of the year and a day of that month. */
  predicate IsValidDate(d: Date): (b: bool)
    ensures b ==> 1 <= d.month <= 12 && 1 <= d.day <= 31
    ensures b && d.month == 2 && d.day == 29 ==> IsLeapYear(d.year)
    ensures b && d.day == 31 ==> d.month in {1, 3, 5, 7, 8, 10, 12}
    ensures b <==> (
      && 1 <= d.month <= 12 && 1 <= d.day
      && (|| d.day <= 28
          || (d.month != 2 && d.day <= 30)
          || (d.month == 2 && d.day == 29 && IsLeapYear(d.year))
          || (d.day == 31 && d.month in {1, 3, 5, 7, 8, 10, 12})))
  {
    1 <= d.month <= 12 && 1 <= d.day <= DaysInMonth(d.year, d.month)
  }

  /** The days of the months before month `m` of year `y`. */
  function DaysBeforeMonth(y: int, m: int): (n: nat)
    requires 1 <= m <= 13
    ensures 28 * (m - 1) <= n <= 31 * (m - 1)
    decreases m
  {
    if m == 1 then 0 else DaysBeforeMonth(y, m - 1) + DaysInMonth(y, m - 1)
  }

  /** The twelve month lengths add up to the length of the year. */
  lemma YearLength(y: int)
    ensures DaysBeforeMonth(y, 13) == if IsLeapYear(y) then 366 else 365
  {
  }

  // ----- Decimal digits -----

  predicate IsDigit(c: char) {
    '0' <= c <= '9'
  }

  function DigitValue(c: char): (v: nat)
    requires IsDigit(c)
    ensures v < 10
  {
    (c as int) - ('0' as int)
  }

  function DigitChar(v: nat): (c: char)
    requires v < 10
    ensures IsDigit(c) && DigitValue(c) == v
  {
    (('0' as int) + v) as char
  }

  lemma DigitCharOfValue(c: char)
    requires IsDigit(c)
    ensures DigitChar(DigitValue(c)) == c
  {
  }

  predicate AllDigits(s: string) {
    forall i | 0 <= i < |s| :: IsDigit(s[i])
  }

  function Pow10(n: nat): (p: nat)
    ensures p >= 1
  {
    if n == 0 then 1 else 10 * Pow10(n - 1)
  }

  /** The number a string of decimal digits denotes, most significant digit first. */
  function DigitsValue(s: string): (v: nat)
    requires AllDigits(s)
    ensures v < Pow10(|s|)
  {
    if s == [] then 0
    else
      var v0 := DigitsValue(s[..|s| - 1]);
      assert v0 * 10 <= (Pow10(|s| - 1) - 1) * 10;
      v0 * 10 + DigitValue(s[|s| - 1])
  }

  /** `n` written with exactly `width` digits, padded with leading zeros. */
  function Pad(n: nat, width: nat): (s: string)
    requires n < Pow10(width)
    ensures |s| == width && AllDigits(s)
    ensures DigitsValue(s) == n
  {
    if width == 0 then []
    else
      var s := Pad(n / 10, width - 1) + [DigitChar(n % 10)];
      assert s[..|s| - 1] == Pad(n / 10, width - 1);
      s
  }

  /** A digit string is the padded form of its own value. */
  lemma {:induction false} PadOfDigits(s: string)
    requires AllDigits(s)
    ensures Pad(DigitsValue(s), |s|) == s
  {
    if s != [] {
      var p := s[..|s| - 1];
      var c := s[|s| - 1];
      assert AllDigits(p);
      PadOfDigits(p);
      var v := DigitsValue(s);
      assert v / 10 == DigitsValue(p) && v % 10 == DigitValue(c);
      DigitCharOfValue(c);
      assert s == p + [c];
    }
  }

  /** `String.valueOf(int)` for a non-negative int: no sign, no leading zeros. */
  function DecimalString(n: nat): (s: string)
    ensures 1 <= |s| && AllDigits(s)
    ensures |s| > 1 ==> s[0] != '0'
  {
    if n < 10 then [DigitChar(n)]
    else DecimalString(n / 10) + [DigitChar(n % 10)]
  }

  /** `String.valueOf(int)`: a leading minus sign for negative values. */
  function YearString(y: int): (s: string)
    ensures 1 <= |s|
    ensures y >= 0 ==> AllDigits(s) && DigitsValue(s) == y
    ensures y >= 0 && |s| > 1 ==> s[0] != '0'
    ensures y < 0 ==> s[0] == '-' && AllDigits(s[1..]) && DigitsValue(s[1..]) == -y
  {
    if y >= 0 then
      DecimalStringRoundTrip(y);
      DecimalString(y)
    else
      DecimalStringRoundTrip(-y);
      assert ("-" + DecimalString(-y))[1..] == DecimalString(-y);
      "-" + DecimalString(-y)
  }

  lemma {:induction false} DecimalStringRoundTrip(n: nat)
    ensures DigitsValue(DecimalString(n)) == n
  {
    if n >= 10 {
      DecimalStringRoundTrip(n / 10);
      var s := DecimalString(n);
      assert s[..|s| - 1] == DecimalString(n / 10);
    }
  }

  /** A number with exactly `width` significant digits is written the same
      way by `String.valueOf` and by zero padding to `width`. */
  lemma {:induction false} DecimalStringIsPadWhenFull(n: nat, width: nat)
    requires 1 <= width && Pow10(width - 1) <= n < Pow10(width)
    ensures DecimalString(n) == Pad(n, width)
  {
    if width > 1 {
      assert Pow10(width - 2) <= n / 10 < Pow10(width - 1);
      DecimalStringIsPadWhenFull(n / 10, width - 1);
    }
  }

  /** A number below 10^width needs at most `width` characters. */
  lemma {:induction false} DecimalStringLength(n: nat, width: nat)
    requires 1 <= width && n < Pow10(width)
    ensures |DecimalString(n)| <= width
  {
    if n >= 10 {
      assert width > 1;
      DecimalStringLength(n / 10, width - 1);
    }
  }

  // ----- ISO_LOCAL_DATE -----

  /** The lexical form YYYY-MM-DD: ten characters, digits and two hyphens. */
  predicate HasIsoShape(s: string) {
    |s| == 10 && s[4] == '-' && s[7] == '-'
    && forall i | 0 <= i < 10 && i != 4 && i != 7 :: IsDigit(s[i])
  }

  /** `LocalDate.parse(s, ISO_LOCAL_DATE)`: `None` stands for the
      `DateTimeParseException` thrown on a malformed text or on a field the
      strict resolver refuses (month 13, 31 April, 29 February of a common year). */
  function ParseIsoLocalDate(s: string): (r: Option<Date>)
    ensures r.Some? ==> IsValidDate(r.value) && 0 <= r.value.year <= 9999
    ensures r.Some? ==> HasIsoShape(s) && r.value.year == DigitsValue(s[..4])
    ensures !HasIsoShape(s) ==> r.None?
  {
    if !HasIsoShape(s) then None
    else
      assert AllDigits(s[..4]) && AllDigits(s[5..7]) && AllDigits(s[8..]);
      var d := Date(DigitsValue(s[..4]), DigitsValue(s[5..7]), DigitsValue(s[8..]));
      if IsValidDate(d) then Some(d) else None
  }

  /** `LocalDate.toString()` for a four-digit year: the canonical YYYY-MM-DD text. */
  function FormatIsoLocalDate(d: Date): (s: string)
    requires IsValidDate(d) && 0 <= d.year <= 9999
    ensures HasIsoShape(s)
  {
    var s := Pad(d.year, 4) + "-" + Pad(d.month, 2) + "-" + Pad(d.day, 2);
    assert s[..4] == Pad(d.year, 4) && s[5..7] == Pad(d.month, 2) && s[8..] == Pad(d.day, 2);
    assert forall i | 0 <= i < 4 :: s[i] == s[..4][i];
    assert forall i | 5 <= i < 7 :: s[i] == s[5..7][i - 5];
    assert forall i | 8 <= i < 10 :: s[i] == s[8..][i - 8];
    s
  }

  /** Every valid date with a four-digit year is read back from its text. */
  lemma ParseFormatRoundTrip(d: Date)
    requires IsValidDate(d) && 0 <= d.year <= 9999
    ensures ParseIsoLocalDate(FormatIsoLocalDate(d)) == Some(d)
  {
    var s := FormatIsoLocalDate(d);
    assert s[..4] == Pad(d.year, 4) && s[5..7] == Pad(d.month, 2) && s[8..] == Pad(d.day, 2);
  }

  /** The parser accepts only canonical texts: whatever it accepts is the
      formatted form of the date it returns. With ParseFormatRoundTrip this
      makes the parser the exact inverse of the formatter. */
  lemma FormatParseRoundTrip(s: string)
    requires ParseIsoLocalDate(s).Some?
    ensures FormatIsoLocalDate(ParseIsoLocalDate(s).value) == s
  {
    assert AllDigits(s[..4]) && AllDigits(s[5..7]) && AllDigits(s[8..]);
    var d := ParseIsoLocalDate(s).value;
    assert d == Date(DigitsValue(s[..4]), DigitsValue(s[5..7]), DigitsValue(s[8..]));
    PadOfDigits(s[..4]);
    PadOfDigits(s[5..7]);
    PadOfDigits(s[8..]);
    assert s == s[..4] + "-" + s[5..7] + "-" + s[8..];
  }

  /** The year text handed on (`String.valueOf(date.getYear())`) denotes the
      year component of the accepted text; it is that very component exactly
      when the year has no leading zero, and is shorter otherwise. */
  lemma YearStringOfParsedDate(s: string)
    requires ParseIsoLocalDate(s).Some?
    ensures var y := ParseIsoLocalDate(s).value.year;
      && DigitsValue(s[..4]) == y
      && DigitsValue(YearString(y)) == y
      && (y >= 1000 <==> YearString(y) == s[..4])
      && (y < 1000 ==> |YearString(y)| < 4)
  {
    var y := ParseIsoLocalDate(s).value.year;
    assert AllDigits(s[..4]);
    DecimalStringRoundTrip(y);
    PadOfDigits(s[..4]);
    if y >= 1000 {
      DecimalStringIsPadWhenFull(y, 4);
    } else {
      DecimalStringLength(y, 3);
    }
  }

  lemma DigitsValueOfTwo(s: string)
    requires |s| == 2 && AllDigits(s)
    ensures DigitsValue(s) == 10 * DigitValue(s[0]) + DigitValue(s[1])
  {
  }

  lemma DigitsValueOfFour(s: string)
    requires |s| == 4 && AllDigits(s)
    ensures DigitsValue(s) == 1000 * DigitValue(s[0]) + 100 * DigitValue(s[1]) + 10 * DigitValue(s[2]) + DigitValue(s[3])
  {
    DigitsValueOfTwo(s[..2]);
    assert s[..3][..2] == s[..2];
  }

  /** What the parser makes of a text of the right shape: the date its digits
      spell, if the strict resolver accepts that date. */
  lemma ParseShapedText(s: string)
    requires HasIsoShape(s)
    ensures var d := Date(1000 * DigitValue(s[0]) + 100 * DigitValue(s[1]) + 10 * DigitValue(s[2]) + DigitValue(s[3]),
                          10 * DigitValue(s[5]) + DigitValue(s[6]),
                          10 * DigitValue(s[8]) + DigitValue(s[9]));
      ParseIsoLocalDate(s) == if IsValidDate(d) then Some(d) else None
  {
    assert AllDigits(s[..4]) && AllDigits(s[5..7]) && AllDigits(s[8..]);
    DigitsValueOfFour(s[..4]);
    DigitsValueOfTwo(s[5..7]);
    DigitsValueOfTwo(s[8..]);
  }

  /** Month 13 is refused. */
  lemma MonthThirteenRefused()
    ensures ParseIsoLocalDate("2025-13-01").None?
  {
    ParseShapedText("2025-13-01");
  }

  /** 29 February exists in a leap year: 2024, and 2000 (divisible by 400). */
  lemma LeapDayAccepted()
    ensures ParseIsoLocalDate("2024-02-29") == Some(Date(2024, 2, 29))
    ensures ParseIsoLocalDate("2000-02-29") == Some(Date(2000, 2, 29))
  {
    LeapDayOf2024();
    LeapDayOf2000();
  }

  /** 29 February does not exist in a common year: 2025, and 1900 (divisible by 100 only). */
  lemma LeapDayRefused()
    ensures ParseIsoLocalDate("2025-02-29").None?
    ensures ParseIsoLocalDate("1900-02-29").None?
  {
    LeapDayOf2025();
    LeapDayOf1900();
  }

  lemma LeapDayOf2024()
    ensures ParseIsoLocalDate("2024-02-29") == Some(Date(2024, 2, 29))
  {
    ParseShapedText("2024-02-29");
  }

  lemma LeapDayOf2000()
    ensures ParseIsoLocalDate("2000-02-29") == Some(Date(2000, 2, 29))
  {
    ParseShapedText("2000-02-29");
  }

  lemma LeapDayOf2025()
    ensures ParseIsoLocalDate("2025-02-29").None?
  {
    ParseShapedText("2025-02-29");
  }

  lemma LeapDayOf1900()
    ensures ParseIsoLocalDate("1900-02-29").None?
  {
    ParseShapedText("1900-02-29");
  }
}
