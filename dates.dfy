/**
  The calendar dates the importer stores, and the strict `Y-m-d` reading of the date column.
  Only the calendar day is kept: the duplicate check compares DATE(date), so the
  time of day Carbon attaches to a parsed date never matters to the importer.
*/
module Dates {
  import opened Wrappers
  import opened Php

  datatype Date = Date(year: nat, month: nat, day: nat)

  predicate IsLeapYear(y: nat) {
    y % 4 == 0 && (y % 100 != 0 || y % 400 == 0)
  }

  function DaysInMonth(y: nat, m: nat): nat
    requires 1 <= m <= 12
  {
    if m == 2 then (if IsLeapYear(y) then 29 else 28)
    else if m == 4 || m == 6 || m == 9 || m == 11 then 30
    else 31
  }

  /** A real calendar day with a four-digit year. */
  predicate ValidDate(d: Date) {
    d.year <= 9999 && 1 <= d.month <= 12 && 1 <= d.day <= DaysInMonth(d.year, d.month)
  }

  function DigitAt(s: string, i: nat): nat
    requires i < |s| && '0' <= s[i] <= '9'
  {
    s[i] as int - '0' as int
  }

  /** `s` has the shape DDDD-DD-DD. */
  predicate YmdShape(s: string) {
    |s| == 10 && s[4] == '-' && s[7] == '-'
    && '0' <= s[0] <= '9' && '0' <= s[1] <= '9' && '0' <= s[2] <= '9' && '0' <= s[3] <= '9'
    && '0' <= s[5] <= '9' && '0' <= s[6] <= '9' && '0' <= s[8] <= '9' && '0' <= s[9] <= '9'
  }

  /** The text `Y-m-d` formatting gives for a date. */
  function FormatYmd(d: Date): (s: string)
    requires ValidDate(d)
    ensures YmdShape(s)
  {
    [DigitChar(d.year / 1000), DigitChar(d.year / 100 % 10), DigitChar(d.year / 10 % 10), DigitChar(d.year % 10),
     '-', DigitChar(d.month / 10), DigitChar(d.month % 10),
     '-', DigitChar(d.day / 10), DigitChar(d.day % 10)]
  }

  /** The date the digits of a DDDD-DD-DD text spell, whether or not it is a real day. */
  function YmdFields(s: string): Date
    requires YmdShape(s)
  {
    Date(1000 * DigitAt(s, 0) + 100 * DigitAt(s, 1) + 10 * DigitAt(s, 2) + DigitAt(s, 3),
         10 * DigitAt(s, 5) + DigitAt(s, 6),
         10 * DigitAt(s, 8) + DigitAt(s, 9))
  }

  /** Reading `s` with the format `Y-m-d`; None where the text is not a real date in that shape. */
  function ParseYmd(s: string): Option<Date> {
    if YmdShape(s) && ValidDate(YmdFields(s)) then Some(YmdFields(s)) else None
  }

  /** What the reading accepts is a real day whose own text is exactly the input. */
  lemma ParseYmdSound(s: string)
    ensures ParseYmd(s).Some? ==> ValidDate(ParseYmd(s).value) && FormatYmd(ParseYmd(s).value) == s
  {
    if ParseYmd(s).Some? {
      FormatFields(s);
    }
  }

  /** A DDDD-DD-DD text that spells a real day is that day's own text. */
  lemma FormatFields(s: string)
    requires YmdShape(s) && ValidDate(YmdFields(s))
    ensures FormatYmd(YmdFields(s)) == s
  {
    var d := YmdFields(s);
    FourDigits(DigitAt(s, 0), DigitAt(s, 1), DigitAt(s, 2), DigitAt(s, 3));
    TwoDigits(DigitAt(s, 5), DigitAt(s, 6));
    TwoDigits(DigitAt(s, 8), DigitAt(s, 9));
    var f := FormatYmd(d);
    assert f[0] == s[0] && f[1] == s[1] && f[2] == s[2] && f[3] == s[3];
    assert f[5] == s[5] && f[6] == s[6] && f[8] == s[8] && f[9] == s[9];
    assert f == s;
  }

  lemma TwoDigits(a: nat, b: nat)
    requires a < 10 && b < 10
    ensures (10 * a + b) / 10 == a && (10 * a + b) % 10 == b
  {
  }

  lemma FourDigits(a: nat, b: nat, c: nat, d: nat)
    requires a < 10 && b < 10 && c < 10 && d < 10
    ensures var y := 1000 * a + 100 * b + 10 * c + d;
      y / 1000 == a && y / 100 % 10 == b && y / 10 % 10 == c && y % 10 == d
  {
    var y := 1000 * a + 100 * b + 10 * c + d;
    assert y / 10 == 100 * a + 10 * b + c;
    assert y / 100 == 10 * a + b;
  }

  lemma DecimalParts(y: nat)
    requires y <= 9999
    ensures y == 1000 * (y / 1000) + 100 * (y / 100 % 10) + 10 * (y / 10 % 10) + y % 10
    ensures y / 1000 < 10
  {
    var a, r := y / 1000, y % 1000;
    assert y == 1000 * a + r && r < 1000;
    assert y / 100 == 10 * a + r / 100;
    assert y / 100 % 10 == r / 100;
    assert y / 10 == 100 * a + r / 10;
    assert y / 10 % 10 == r / 10 % 10;
    assert r == 100 * (r / 100) + 10 * (r / 10 % 10) + r % 10;
  }

  /** Every real date is read back from its own `Y-m-d` text. */
  lemma ParseFormat(d: Date)
    requires ValidDate(d)
    ensures ParseYmd(FormatYmd(d)) == Some(d)
  {
    var s := FormatYmd(d);
    DecimalParts(d.year);
    assert DigitAt(s, 0) == d.year / 1000 && DigitAt(s, 1) == d.year / 100 % 10;
    assert DigitAt(s, 2) == d.year / 10 % 10 && DigitAt(s, 3) == d.year % 10;
    assert DigitAt(s, 5) == d.month / 10 && DigitAt(s, 6) == d.month % 10;
    assert DigitAt(s, 8) == d.day / 10 && DigitAt(s, 9) == d.day % 10;
    assert YmdFields(s) == d;
  }
}
