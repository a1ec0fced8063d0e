/**
 The calendar-date syntax the task service accepts for a `due_date`.

 The service checks a due date by parsing it with Go's `time.Parse` and the layout
 "2006-01-02", then formats the parsed value back with the same layout. This module
 stands in for that library pair. The strings it accepts are exactly the `full-date`
 production of section 5.6 of RFC 3339 (`4DIGIT "-" 2DIGIT "-" 2DIGIT`), with the month
 in 01-12 and the day of the month bounded as in section 5.7 of RFC 3339, where
 February has 29 days in Gregorian leap years.
 */
module FullDate {
  import opened Wrappers

  datatype Date = Date(year: nat, month: nat, day: nat)

  predicate IsDigit(c: char) {
    '0' <= c <= '9'
  }

  predicate AllDigits(s: string) {
    forall i :: 0 <= i < |s| ==> IsDigit(s[i])
  }

  function DigitValue(c: char): (d: nat)
    requires IsDigit(c)
    ensures d < 10
  {
    c as int - '0' as int
  }

  function DigitChar(d: nat): (c: char)
    requires d < 10
    ensures IsDigit(c) && DigitValue(c) == d
  {
    (d + '0' as int) as char
  }

  function Pow10(n: nat): nat {
    if n == 0 then 1 else 10 * Pow10(n - 1)
  }

  /** The value of a string of decimal digits, most significant first. */
  function DecodeDigits(s: string): (n: nat)
    requires AllDigits(s)
    ensures n < Pow10(|s|)
  {
    if |s| == 0 then 0 else 10 * DecodeDigits(s[..|s| - 1]) + DigitValue(s[|s| - 1])
  }

  /** The last `width` decimal digits of `n`, zero-padded on the left. */
  function EncodeDigits(n: nat, width: nat): (s: string)
    ensures |s| == width
    ensures AllDigits(s)
  {
    if width == 0 then [] else EncodeDigits(n / 10, width - 1) + [DigitChar(n % 10)]
  }

  lemma {:induction false} DecodeEncode(n: nat, width: nat)
    requires n < Pow10(width)
    ensures DecodeDigits(EncodeDigits(n, width)) == n
  {
    if width > 0 {
      var s := EncodeDigits(n, width);
      assert s[..width - 1] == EncodeDigits(n / 10, width - 1);
      DecodeEncode(n / 10, width - 1);
    }
  }

  lemma {:induction false} EncodeDecode(s: string)
    requires AllDigits(s)
    ensures EncodeDigits(DecodeDigits(s), |s|) == s
  {
    if |s| > 0 {
      var prefix := s[..|s| - 1];
      var last := s[|s| - 1];
      EncodeDecode(prefix);
      var n := DecodeDigits(s);
      assert n / 10 == DecodeDigits(prefix);
      assert n % 10 == DigitValue(last);
      assert DigitChar(DigitValue(last)) == last;
      assert s == prefix + [last];
    }
  }

  /** The Gregorian leap-year rule. */
  predicate IsLeapYear(year: int) {
    year % 4 == 0 && (year % 100 != 0 || year % 400 == 0)
  }

  function DaysInMonth(year: int, month: int): (days: nat)
    requires 1 <= month <= 12
    ensures 28 <= days <= 31
  {
    if month == 2 then (if IsLeapYear(year) then 29 else 28)
    else if month == 4 || month == 6 || month == 9 || month == 11 then 30
    else 31
  }

  /** A date with a four-digit year, a month 1-12 and a day that exists in that month. */
  predicate ValidDate(d: Date) {
    d.year <= 9999 && 1 <= d.month <= 12 && 1 <= d.day <= DaysInMonth(d.year, d.month)
  }

  /** The fixed shape `DDDD-DD-DD`. */
  predicate HasDateShape(s: string) {
    && |s| == 10
    && AllDigits(s[..4]) && s[4] == '-'
    && AllDigits(s[5..7]) && s[7] == '-'
    && AllDigits(s[8..])
  }

  function DateFields(s: string): Date
    requires HasDateShape(s)
  {
    Date(DecodeDigits(s[..4]), DecodeDigits(s[5..7]), DecodeDigits(s[8..]))
  }

  /** The strings `time.Parse("2006-01-02", s)` accepts: an RFC 3339 full-date naming a real day. */
  predicate ValidFullDate(s: string): (ok: bool)
    ensures ok ==>
              && HasDateShape(s)
              && 1 <= DateFields(s).month <= 12
              && 1 <= DateFields(s).day <= 31
              && (DateFields(s).month == 2 && DateFields(s).day == 29 ==> IsLeapYear(DateFields(s).year))
  {
    HasDateShape(s) && ValidDate(DateFields(s))
  }

  /** `Format("2006-01-02")` of a date the parser produced. */
  function FormatFullDate(d: Date): (s: string)
    requires ValidDate(d)
    ensures ValidFullDate(s)
    ensures DateFields(s) == d
  {
    FormatFields(d);
    EncodeDigits(d.year, 4) + "-" + EncodeDigits(d.month, 2) + "-" + EncodeDigits(d.day, 2)
  }

  lemma FormatFields(d: Date)
    requires ValidDate(d)
    ensures var s := EncodeDigits(d.year, 4) + "-" + EncodeDigits(d.month, 2) + "-" + EncodeDigits(d.day, 2);
            HasDateShape(s) && DateFields(s) == d
  {
    var y, m, dd := EncodeDigits(d.year, 4), EncodeDigits(d.month, 2), EncodeDigits(d.day, 2);
    var s := y + "-" + m + "-" + dd;
    assert s[..4] == y && s[5..7] == m && s[8..] == dd;
    assert Pow10(2) == 100;
    assert Pow10(4) == 10000 by { assert Pow10(3) == 1000; }
    DecodeEncode(d.year, 4);
    DecodeEncode(d.month, 2);
    DecodeEncode(d.day, 2);
  }

  /** An accepted date is already in canonical form: formatting its fields gives it back. */
  lemma FullDateCanonical(s: string)
    requires ValidFullDate(s)
    ensures FormatFullDate(DateFields(s)) == s
  {
    var d := DateFields(s);
    EncodeDecode(s[..4]);
    EncodeDecode(s[5..7]);
    EncodeDecode(s[8..]);
    assert s == s[..4] + "-" + s[5..7] + "-" + s[8..];
  }

  /** The stand-in for `time.Parse("2006-01-02", s)`. */
  function ParseFullDate(s: string): (r: Option<Date>)
    ensures r.Some? <==> ValidFullDate(s)
    ensures r.Some? ==> ValidDate(r.value) && FormatFullDate(r.value) == s
  {
    if ValidFullDate(s) then FullDateCanonical(s); Some(DateFields(s)) else None
  }

  /** Parsing undoes formatting. */
  lemma ParseFormat(d: Date)
    requires ValidDate(d)
    ensures ParseFullDate(FormatFullDate(d)) == Some(d)
  {
  }

  /** The accepted strings are exactly the formatted renderings of real dates. */
  lemma AcceptedIffFormatted(s: string)
    ensures ValidFullDate(s) <==> exists d :: ValidDate(d) && FormatFullDate(d) == s
  {
    if ValidFullDate(s) {
      FullDateCanonical(s);
      assert ValidDate(DateFields(s)) && FormatFullDate(DateFields(s)) == s;
    }
  }

  /** The value of a two-digit field, spelled out. */
  lemma DecodeTwo(s: string)
    requires |s| == 2 && AllDigits(s)
    ensures DecodeDigits(s) == 10 * DigitValue(s[0]) + DigitValue(s[1])
  {
    assert s[..1][..0] == [];
  }

  /** The value of a four-digit field, spelled out. */
  lemma DecodeFour(s: string)
    requires |s| == 4 && AllDigits(s)
    ensures DecodeDigits(s) == 1000 * DigitValue(s[0]) + 100 * DigitValue(s[1]) + 10 * DigitValue(s[2]) + DigitValue(s[3])
  {
    assert s[..3][..2] == s[..2];
    DecodeTwo(s[..2]);
  }

  lemma DateFieldsSpelled(s: string)
    requires HasDateShape(s)
    ensures DateFields(s).year == 1000 * DigitValue(s[0]) + 100 * DigitValue(s[1]) + 10 * DigitValue(s[2]) + DigitValue(s[3])
    ensures DateFields(s).month == 10 * DigitValue(s[5]) + DigitValue(s[6])
    ensures DateFields(s).day == 10 * DigitValue(s[8]) + DigitValue(s[9])
  {
    DecodeFour(s[..4]);
    DecodeTwo(s[5..7]);
    DecodeTwo(s[8..]);
  }

  /** An ordinary date is accepted. */
  lemma PlainDateAccepted()
    ensures ValidFullDate("2025-03-10")
  {
    var s := "2025-03-10";
    DateFieldsSpelled(s);
    assert DateFields(s) == Date(2025, 3, 10);
  }

  /** February 29th of a leap year is accepted. */
  lemma LeapDayAccepted()
    ensures ValidFullDate("2024-02-29")
  {
    var s := "2024-02-29";
    DateFieldsSpelled(s);
    assert DateFields(s) == Date(2024, 2, 29);
  }

  /** A century year divisible by 400 is a leap year. */
  lemma CenturyLeapDayAccepted()
    ensures ValidFullDate("2000-02-29")
  {
    var s := "2000-02-29";
    DateFieldsSpelled(s);
    assert DateFields(s) == Date(2000, 2, 29);
  }

  /** February 29th of a common year is refused. */
  lemma CommonYearLeapDayRejected()
    ensures !ValidFullDate("2023-02-29")
  {
    var s := "2023-02-29";
    DateFieldsSpelled(s);
    assert DateFields(s) == Date(2023, 2, 29);
  }

  /** A century year not divisible by 400 is a common year. */
  lemma CenturyLeapDayRejected()
    ensures !ValidFullDate("1900-02-29")
  {
    var s := "1900-02-29";
    DateFieldsSpelled(s);
    assert DateFields(s) == Date(1900, 2, 29);
  }

  /** A month above 12 is refused. */
  lemma MonthOutOfRangeRejected()
    ensures !ValidFullDate("2024-13-40")
  {
    var s := "2024-13-40";
    DateFieldsSpelled(s);
    assert DateFields(s) == Date(2024, 13, 40);
  }

  /** A day past the end of its month is refused. */
  lemma DayOutOfRangeRejected()
    ensures !ValidFullDate("2024-04-31")
  {
    var s := "2024-04-31";
    DateFieldsSpelled(s);
    assert DateFields(s) == Date(2024, 4, 31);
  }

  /** Fields without their leading zeros, short years and trailing text are refused. */
  lemma ShapeRejected()
    ensures !ValidFullDate("2024-4-05")
    ensures !ValidFullDate("24-04-05")
    ensures !ValidFullDate("2024-04-05T00:00:00Z")
    ensures !ValidFullDate("2024/04/05")
  {
  }
}
