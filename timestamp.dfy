/**
 * The `%Y%m%d%H%M%S%f` rendering of a wall-clock reading that the upload page
 * appends to every file name: four digits of year, two each of month, day,
 * hour, minute and second, and six of microsecond, all zero-padded.
 */
module Timestamp {

  /** A reading of the clock, as Python's `datetime` holds it. */
  datatype DateTime = DateTime(
    year: int, month: int, day: int,
    hour: int, minute: int, second: int, microsecond: int)

  /** Number of characters in a rendered timestamp. */
  const Width: nat := 20

  /** The ranges `datetime` keeps its fields in (years restricted to four digits). */
  predicate ValidDateTime(t: DateTime) {
    && 1000 <= t.year <= 9999
    && 1 <= t.month <= 12
    && 1 <= t.day <= 31
    && 0 <= t.hour < 24
    && 0 <= t.minute < 60
    && 0 <= t.second < 60
    && 0 <= t.microsecond < 1000000
  }

  predicate IsDigit(c: char) {
    '0' <= c <= '9'
  }

  predicate AllDigits(s: string) {
    forall i :: 0 <= i < |s| ==> IsDigit(s[i])
  }

  /** A rendered timestamp: exactly twenty decimal digits. */
  predicate IsTimestamp(s: string) {
    |s| == Width && AllDigits(s)
  }

  function Pow10(n: nat): (r: nat)
    ensures r >= 1
  {
    if n == 0 then 1 else 10 * Pow10(n - 1)
  }

  /** The number a string of decimal digits denotes. */
  function DecimalValue(s: string): (v: nat)
    requires AllDigits(s)
    ensures v < Pow10(|s|)
  {
    if s == [] then 0
    else
      var v' := DecimalValue(s[..|s| - 1]);
      var d := s[|s| - 1] as int - '0' as int;
      assert 10 * v' + d < 10 * Pow10(|s| - 1);
      10 * v' + d
  }

  /** `n` in decimal, zero-padded to `width` digits (strftime's fixed-width fields). */
  function Padded(n: nat, width: nat): (s: string)
    requires n < Pow10(width)
    ensures |s| == width && AllDigits(s)
    ensures DecimalValue(s) == n
  {
    if width == 0 then []
    else
      var s := Padded(n / 10, width - 1) + [('0' as int + n % 10) as char];
      assert s[..width - 1] == Padded(n / 10, width - 1);
      s
  }

  /** `datetime.strftime("%Y%m%d%H%M%S%f")`. */
  function Format(t: DateTime): (s: string)
    requires ValidDateTime(t)
    ensures IsTimestamp(s)
  {
    Padded(t.year, 4) + Padded(t.month, 2) + Padded(t.day, 2)
      + Padded(t.hour, 2) + Padded(t.minute, 2) + Padded(t.second, 2)
      + Padded(t.microsecond, 6)
  }

  /** Reads the clock fields back out of a rendered timestamp. */
  function Parse(s: string): DateTime
    requires IsTimestamp(s)
  {
    DateTime(
      DecimalValue(s[0..4]), DecimalValue(s[4..6]), DecimalValue(s[6..8]),
      DecimalValue(s[8..10]), DecimalValue(s[10..12]), DecimalValue(s[12..14]),
      DecimalValue(s[14..20]))
  }

  /** Rendering loses nothing: the clock reading can be read back. */
  lemma ParseFormat(t: DateTime)
    requires ValidDateTime(t)
    ensures Parse(Format(t)) == t
  {
    var s := Format(t);
    assert s[0..4] == Padded(t.year, 4);
    assert s[4..6] == Padded(t.month, 2);
    assert s[6..8] == Padded(t.day, 2);
    assert s[8..10] == Padded(t.hour, 2);
    assert s[10..12] == Padded(t.minute, 2);
    assert s[12..14] == Padded(t.second, 2);
    assert s[14..20] == Padded(t.microsecond, 6);
  }

  /** Two different clock readings never render to the same timestamp. */
  lemma FormatInjective(t1: DateTime, t2: DateTime)
    requires ValidDateTime(t1) && ValidDateTime(t2)
    requires t1 != t2
    ensures Format(t1) != Format(t2)
  {
    ParseFormat(t1);
    ParseFormat(t2);
  }
}
