/**
 * A timezone-naive `datetime` and its `isoformat()`: the extended complete
 * representation of ISO 8601 (`YYYY-MM-DDTHH:MM:SS`), followed by
 * `.ffffff` exactly when the microsecond is not zero.
 */
module DateTimes {
  import opened Wrappers

  function IsLeapYear(year: int): bool {
    year % 4 == 0 && (year % 100 != 0 || year % 400 == 0)
  }

  function DaysInMonth(year: int, month: int): (days: int)
    requires 1 <= month <= 12
    ensures 28 <= days <= 31
    ensures month == 2 ==> (days == 29 <==> IsLeapYear(year))
  {
    if month == 2 then (if IsLeapYear(year) then 29 else 28)
    else if month in {4, 6, 9, 11} then 30
    else 31
  }

  datatype DateTime = DateTime(year: int, month: int, day: int,
                               hour: int, minute: int, second: int, microsecond: int)
  {
    /** The ranges a `datetime` constructor admits (years 1 to 9999). */
    predicate Valid() {
      && 1 <= year <= 9999
      && 1 <= month <= 12
      && 1 <= day <= DaysInMonth(year, month)
      && 0 <= hour < 24
      && 0 <= minute < 60
      && 0 <= second < 60
      && 0 <= microsecond < 1_000_000
    }
  }

  /** Every `datetime` value is a valid one. */
  type NaiveDateTime = d: DateTime | d.Valid() witness DateTime(1, 1, 1, 0, 0, 0, 0)

  function Pow10(n: nat): nat {
    if n == 0 then 1 else 10 * Pow10(n - 1)
  }

  predicate IsDigit(c: char) {
    '0' <= c <= '9'
  }

  /** `'%0*d' % (width, n)` for `n < 10^width`: exactly `width` decimal digits. */
  function PadDecimal(n: nat, width: nat): (s: string)
    ensures |s| == width
    ensures forall i :: 0 <= i < |s| ==> IsDigit(s[i])
  {
    if width == 0 then ""
    else PadDecimal(n / 10, width - 1) + [('0' as int + n % 10) as char]
  }

  /** The value of a string of decimal digits, most significant first. */
  function ParseDecimal(s: string): int
  {
    if s == [] then 0
    else 10 * ParseDecimal(s[..|s| - 1]) + (s[|s| - 1] as int - '0' as int)
  }

  /** Zero padding loses nothing when the number fits in the width. */
  lemma {:induction false} ParsePadDecimal(n: nat, width: nat)
    requires n < Pow10(width)
    ensures ParseDecimal(PadDecimal(n, width)) == n
  {
    if width > 0 {
      var s := PadDecimal(n, width);
      assert s[..|s| - 1] == PadDecimal(n / 10, width - 1);
      ParsePadDecimal(n / 10, width - 1);
    }
  }

  /** A character `isoformat()` may emit. */
  predicate IsIsoChar(c: char) {
    IsDigit(c) || c == '-' || c == 'T' || c == ':' || c == '.'
  }

  /** Three zero-padded numbers of widths `w0`, 2 and 2, joined by `sep`. */
  function Triple(a: nat, w0: nat, b: nat, c: nat, sep: char): (s: string)
    ensures |s| == w0 + 6 && s[w0] == sep && s[w0 + 3] == sep
  {
    PadDecimal(a, w0) + [sep] + PadDecimal(b, 2) + [sep] + PadDecimal(c, 2)
  }

  /** The three numbers back from a `Triple`. */
  function ParseTriple(s: string, w0: nat): (int, int, int)
    requires |s| == w0 + 6
  {
    (ParseDecimal(s[..w0]), ParseDecimal(s[w0 + 1..w0 + 3]), ParseDecimal(s[w0 + 4..]))
  }

  lemma ParseTripleRoundTrip(a: nat, w0: nat, b: nat, c: nat, sep: char)
    requires a < Pow10(w0) && b < 100 && c < 100
    ensures ParseTriple(Triple(a, w0, b, c, sep), w0) == (a, b, c)
  {
    var s := Triple(a, w0, b, c, sep);
    assert s[..w0] == PadDecimal(a, w0);
    assert s[w0 + 1..w0 + 3] == PadDecimal(b, 2);
    assert s[w0 + 4..] == PadDecimal(c, 2);
    ParsePadDecimal(a, w0);
    ParsePadDecimal(b, 2);
    ParsePadDecimal(c, 2);
  }

  /** The microsecond suffix: empty for zero, `.ffffff` otherwise. */
  function Fraction(microsecond: nat): (s: string)
    ensures |s| == if microsecond == 0 then 0 else 7
    ensures microsecond != 0 ==> s[0] == '.'
  {
    if microsecond == 0 then "" else "." + PadDecimal(microsecond, 6)
  }

  /** `datetime.isoformat()` of a naive datetime. */
  function IsoFormat(d: NaiveDateTime): (s: string)
    ensures |s| == if d.microsecond == 0 then 19 else 26
    ensures s[4] == '-' && s[7] == '-' && s[10] == 'T' && s[13] == ':' && s[16] == ':'
    ensures d.microsecond != 0 ==> s[19] == '.'
    ensures forall i :: 0 <= i < |s| ==> IsIsoChar(s[i])
  {
    Triple(d.year, 4, d.month, d.day, '-') + "T" + Triple(d.hour, 2, d.minute, d.second, ':')
    + Fraction(d.microsecond)
  }

  /** The layout `isoformat()` produces: separators in place, digits elsewhere. */
  predicate IsIsoShaped(s: string) {
    && (|s| == 19 || (|s| == 26 && s[19] == '.'))
    && s[4] == '-' && s[7] == '-' && s[10] == 'T' && s[13] == ':' && s[16] == ':'
    && forall i :: 0 <= i < |s| && i !in {4, 7, 10, 13, 16, 19} ==> IsDigit(s[i])
  }

  /** The fields read back from the positions `isoformat()` puts them at. */
  function IsoFields(s: string): DateTime
    requires |s| == 19 || |s| == 26
  {
    var (year, month, day) := ParseTriple(s[..10], 4);
    var (hour, minute, second) := ParseTriple(s[11..19], 2);
    DateTime(year, month, day, hour, minute, second,
             if |s| == 26 then ParseDecimal(s[20..]) else 0)
  }

  lemma IsoFieldsRoundTrip(d: NaiveDateTime)
    ensures IsoFields(IsoFormat(d)) == d
  {
    var date, time, frac := Triple(d.year, 4, d.month, d.day, '-'),
                            Triple(d.hour, 2, d.minute, d.second, ':'), Fraction(d.microsecond);
    var s := IsoFormat(d);
    IsoSlices(date, time, frac);
    ParseTripleRoundTrip(d.year, 4, d.month, d.day, '-');
    ParseTripleRoundTrip(d.hour, 2, d.minute, d.second, ':');
    if d.microsecond != 0 {
      assert s[20..] == frac[1..] == PadDecimal(d.microsecond, 6);
      ParsePadDecimal(d.microsecond, 6);
    }
  }

  /** Where the date, the time and the fraction sit in the ISO form. */
  lemma IsoSlices(date: string, time: string, frac: string)
    requires |date| == 10 && |time| == 8
    ensures (date + "T" + time + frac)[..10] == date
    ensures (date + "T" + time + frac)[11..19] == time
    ensures (date + "T" + time + frac)[19..] == frac
  {
  }

  /**
   * `datetime.fromisoformat(s)` restricted to the canonical strings
   * `isoformat()` of a naive datetime yields; anything else is `None`.
   */
  function ParseIso(s: string): (r: Option<NaiveDateTime>)
    ensures r.Some? ==> IsoFormat(r.value) == s
  {
    if !IsIsoShaped(s) then None
    else
      var d := IsoFields(s);
      if d.Valid() && IsoFormat(d) == s then Some(d) else None
  }

  /** Parsing the ISO form of a datetime gives the datetime back. */
  lemma IsoRoundTrip(d: NaiveDateTime)
    ensures ParseIso(IsoFormat(d)) == Some(d)
  {
    IsoFieldsRoundTrip(d);
    var s := IsoFormat(d);
    assert IsIsoShaped(s) by {
      forall i | 0 <= i < |s| && i !in {4, 7, 10, 13, 16, 19}
        ensures IsDigit(s[i])
      {
        IsoDigitsAt(d, i);
      }
    }
  }

  /** Away from the separator positions the ISO form holds digits. */
  lemma IsoDigitsAt(d: NaiveDateTime, i: nat)
    requires i < |IsoFormat(d)| && i !in {4, 7, 10, 13, 16, 19}
    ensures IsDigit(IsoFormat(d)[i])
  {
    var date, time, frac := Triple(d.year, 4, d.month, d.day, '-'),
                            Triple(d.hour, 2, d.minute, d.second, ':'), Fraction(d.microsecond);
    assert IsoFormat(d) == date + "T" + time + frac;
  }

  /** Two datetimes with the same ISO form are the same datetime. */
  lemma IsoFormatInjective(d: NaiveDateTime, e: NaiveDateTime)
    ensures IsoFormat(d) == IsoFormat(e) <==> d == e
  {
    IsoRoundTrip(d);
    IsoRoundTrip(e);
  }
}
