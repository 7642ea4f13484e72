/**
 * Calendar dates written YYYY-MM-DD: the partial parse the validator applies
 * to deadlines, the chronological order it compares them by, and the
 * date-prefix test the Gantt importer applies to tokens.
 */
module Dates {
  import opened Text
  import opened Wrappers

  datatype Date = Date(year: nat, month: nat, day: nat)

  function DigitValue(c: char): nat
    requires IsDigit(c)
  {
    (c - '0') as nat
  }

  /** Whether s begins with four digits, a dash, two digits, a dash and two
      digits (anything may follow). */
  predicate HasDatePrefix(s: string) {
    && |s| >= 10
    && IsDigit(s[0]) && IsDigit(s[1]) && IsDigit(s[2]) && IsDigit(s[3])
    && s[4] == '-'
    && IsDigit(s[5]) && IsDigit(s[6])
    && s[7] == '-'
    && IsDigit(s[8]) && IsDigit(s[9])
  }

  /** Parses a deadline: exactly ten characters in the YYYY-MM-DD shape with
      a month from 1 to 12 and a day from 1 to 31; anything else (including
      the empty string standing for an absent deadline) does not parse. */
  function ParseDate(s: string): (d: Option<Date>)
    ensures d.Some? ==> |s| == 10 && HasDatePrefix(s)
    ensures d.Some? ==> 1 <= d.value.month <= 12 && 1 <= d.value.day <= 31
    ensures s == "" ==> d.None?
  {
    if |s| == 10 && HasDatePrefix(s) then
      var y := DigitValue(s[0]) * 1000 + DigitValue(s[1]) * 100 + DigitValue(s[2]) * 10 + DigitValue(s[3]);
      var m := DigitValue(s[5]) * 10 + DigitValue(s[6]);
      var d := DigitValue(s[8]) * 10 + DigitValue(s[9]);
      if 1 <= m <= 12 && 1 <= d <= 31 then Some(Date(y, m, d)) else None
    else None
  }

  function DigitChar(n: nat): (c: char)
    requires n < 10
    ensures IsDigit(c) && DigitValue(c) == n
  {
    '0' + n as char
  }

  /** The canonical YYYY-MM-DD rendering of a date with a four-digit year. */
  function FormatDate(d: Date): string
    requires d.year < 10000 && d.month < 100 && d.day < 100
  {
    [ DigitChar(d.year / 1000), DigitChar(d.year / 100 % 10), DigitChar(d.year / 10 % 10), DigitChar(d.year % 10), '-',
      DigitChar(d.month / 10), DigitChar(d.month % 10), '-',
      DigitChar(d.day / 10), DigitChar(d.day % 10) ]
  }

  lemma YearDigits(y: nat)
    requires y < 10000
    ensures y / 1000 * 1000 + y / 100 % 10 * 100 + y / 10 % 10 * 10 + y % 10 == y
  {
    assert y / 10 == y / 100 * 10 + y / 10 % 10;
    assert y / 100 == y / 1000 * 10 + y / 100 % 10;
  }

  lemma FormattedDigits(d: Date)
    requires d.year < 10000 && 1 <= d.month <= 12 && 1 <= d.day <= 31
    ensures |FormatDate(d)| == 10 && HasDatePrefix(FormatDate(d))
    ensures DigitValue(FormatDate(d)[0]) == d.year / 1000
    ensures DigitValue(FormatDate(d)[1]) == d.year / 100 % 10
    ensures DigitValue(FormatDate(d)[2]) == d.year / 10 % 10
    ensures DigitValue(FormatDate(d)[3]) == d.year % 10
    ensures DigitValue(FormatDate(d)[5]) * 10 + DigitValue(FormatDate(d)[6]) == d.month
    ensures DigitValue(FormatDate(d)[8]) * 10 + DigitValue(FormatDate(d)[9]) == d.day
  {
  }

  /** Every calendar-shaped date is read back from its own rendering, so the
      parse rejects nothing it should accept in canonical form. */
  lemma ParseFormatted(d: Date)
    requires d.year < 10000 && 1 <= d.month <= 12 && 1 <= d.day <= 31
    ensures ParseDate(FormatDate(d)) == Some(d)
  {
    YearDigits(d.year);
    FormattedDigits(d);
  }

  lemma DigitRoundTrip(c: char)
    requires IsDigit(c)
    ensures DigitChar(DigitValue(c)) == c
  {
  }

  /** The decimal digits of a four-digit number are the digits it was built from. */
  lemma FourDigits(a: nat, b: nat, c: nat, e: nat)
    requires a < 10 && b < 10 && c < 10 && e < 10
    ensures var y := a * 1000 + b * 100 + c * 10 + e;
      y < 10000 && y / 1000 == a && y / 100 % 10 == b && y / 10 % 10 == c && y % 10 == e
  {
    var y := a * 1000 + b * 100 + c * 10 + e;
    assert y == (a * 100 + b * 10 + c) * 10 + e;
    assert y / 10 == a * 100 + b * 10 + c;
    assert y == (a * 10 + b) * 100 + (c * 10 + e);
    assert y / 100 == a * 10 + b;
    assert y == a * 1000 + (b * 100 + c * 10 + e);
  }

  /** Four digit characters read as a year are rendered back as themselves. */
  lemma YearChars(c0: char, c1: char, c2: char, c3: char)
    requires IsDigit(c0) && IsDigit(c1) && IsDigit(c2) && IsDigit(c3)
    ensures var y := DigitValue(c0) * 1000 + DigitValue(c1) * 100 + DigitValue(c2) * 10 + DigitValue(c3);
      && y < 10000
      && DigitChar(y / 1000) == c0 && DigitChar(y / 100 % 10) == c1
      && DigitChar(y / 10 % 10) == c2 && DigitChar(y % 10) == c3
  {
    FourDigits(DigitValue(c0), DigitValue(c1), DigitValue(c2), DigitValue(c3));
    DigitRoundTrip(c0);
    DigitRoundTrip(c1);
    DigitRoundTrip(c2);
    DigitRoundTrip(c3);
  }

  /** Two digit characters read as a number are rendered back as themselves. */
  lemma PairChars(c0: char, c1: char)
    requires IsDigit(c0) && IsDigit(c1)
    ensures var n := DigitValue(c0) * 10 + DigitValue(c1);
      DigitChar(n / 10) == c0 && DigitChar(n % 10) == c1
  {
    var a, b := DigitValue(c0), DigitValue(c1);
    assert (a * 10 + b) / 10 == a && (a * 10 + b) % 10 == b;
    DigitRoundTrip(c0);
    DigitRoundTrip(c1);
  }

  /** A parsed deadline is exactly the rendering of its value, so the parse
      reads the digits of the text and nothing else: a string whose month or
      day digits are out of range has no value it could render to. With
      ParseFormatted this fixes ParseDate on every input. */
  lemma ParseDateRendering(s: string)
    ensures ParseDate(s).Some? ==> ParseDate(s).value.year < 10000 && FormatDate(ParseDate(s).value) == s
  {
    if ParseDate(s).Some? {
      YearChars(s[0], s[1], s[2], s[3]);
      PairChars(s[5], s[6]);
      PairChars(s[8], s[9]);
      var f := FormatDate(ParseDate(s).value);
      assert f[0] == s[0] && f[1] == s[1] && f[2] == s[2] && f[3] == s[3];
      assert f[5] == s[5] && f[6] == s[6] && f[8] == s[8] && f[9] == s[9];
    }
  }

  /** Chronological order: a falls strictly after b. */
  predicate After(a: Date, b: Date) {
    || a.year > b.year
    || (a.year == b.year && a.month > b.month)
    || (a.year == b.year && a.month == b.month && a.day > b.day)
  }

  /** After is a strict total order on dates: never reflexive, transitive,
      and any two different dates are ordered one way or the other. */
  lemma AfterIsStrictTotalOrder(a: Date, b: Date, c: Date)
    ensures !After(a, a)
    ensures After(a, b) && After(b, c) ==> After(a, c)
    ensures a != b ==> After(a, b) || After(b, a)
    ensures After(a, b) ==> !After(b, a)
  {
  }
}
