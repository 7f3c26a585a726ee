/**
 * The `YYYY-MM-DD` key that names a calendar cell and that a post's `date`
 * field is compared against: `${year}-${pad(month)}-${pad(day)}` where the
 * year is printed as is and month and day are padded to two digits.
 */
module DateKey {
  import opened Wrappers
  import opened Decimal
  import opened Seqs

  datatype CalendarDate = CalendarDate(year: nat, month: nat, day: nat)

  /** The cell key of `year`-`month`-`day` (month 1-based). */
  function Key(year: nat, month: nat, day: nat): (k: string)
  {
    Show(year) + "-" + Pad2(month) + "-" + Pad2(day)
  }

  /** Below 100 each field is its tens digit then its units digit. */
  lemma KeyFields(year: nat, month: nat, day: nat)
    requires month < 100 && day < 100
    ensures Key(year, month, day) == Show(year) + FieldsSuffix(month, day)
  {
    Pad2Reads(month);
    Pad2Reads(day);
  }

  /** The `-MM-DD` tail of a key, each field as its tens digit then its units digit. */
  function FieldsSuffix(month: nat, day: nat): (t: string)
    requires month < 100 && day < 100
  {
    ['-', DigitChar(month / 10), DigitChar(month % 10), '-', DigitChar(day / 10), DigitChar(day % 10)]
  }

  /** The number spelled by two digit characters. */
  function TwoDigits(a: char, b: char): (n: nat)
    requires IsDigit(a) && IsDigit(b)
    ensures n < 100
  {
    10 * DigitValue(a) + DigitValue(b)
  }

  /**
   * Reads a key back: a non-empty digit run, `-`, two digits, `-`, two
   * digits. Anything else is not a key.
   */
  function ParseKey(s: string): (r: Option<CalendarDate>)
    ensures r.Some? ==> |s| >= 7 && s[|s| - 6] == '-' && s[|s| - 3] == '-'
  {
    var n := |s|;
    if n >= 7 && s[n - 6] == '-' && s[n - 3] == '-' && AllDigits(s[..n - 6])
       && IsDigit(s[n - 5]) && IsDigit(s[n - 4]) && IsDigit(s[n - 2]) && IsDigit(s[n - 1])
    then Some(CalendarDate(Parse(s[..n - 6]), TwoDigits(s[n - 5], s[n - 4]), TwoDigits(s[n - 2], s[n - 1])))
    else None
  }

  /** A digit run followed by `-DD-DD` reads as the three numbers it spells. */
  lemma ParseKeyParts(y: string, a: char, b: char, c: char, d: char)
    requires |y| >= 1 && AllDigits(y) && IsDigit(a) && IsDigit(b) && IsDigit(c) && IsDigit(d)
    ensures ParseKey(y + ['-', a, b, '-', c, d]) == Some(CalendarDate(Parse(y), TwoDigits(a, b), TwoDigits(c, d)))
  {
    var t := ['-', a, b, '-', c, d];
    SliceOfAppend(y, t, 0, |y|);
  }

  /** Every key with a two-digit month and day reads back as its date. */
  lemma KeyRoundTrip(year: nat, month: nat, day: nat)
    requires month < 100 && day < 100
    ensures ParseKey(Key(year, month, day)) == Some(CalendarDate(year, month, day))
  {
    KeyFields(year, month, day);
    ParseShow(year);
    Pad2Reads(month);
    Pad2Reads(day);
    ParseKeyParts(Show(year), DigitChar(month / 10), DigitChar(month % 10), DigitChar(day / 10), DigitChar(day % 10));
  }

  /** Distinct dates get distinct keys, so a post's date matches at most one cell. */
  lemma KeyInjective(a: CalendarDate, b: CalendarDate)
    requires a.month < 100 && a.day < 100 && b.month < 100 && b.day < 100
    requires Key(a.year, a.month, a.day) == Key(b.year, b.month, b.day)
    ensures a == b
  {
    KeyRoundTrip(a.year, a.month, a.day);
    KeyRoundTrip(b.year, b.month, b.day);
  }

  /**
   * For a four-digit year the key is exactly ten characters `YYYY-MM-DD`:
   * the year's digits, a dash, the month with a leading `0` exactly when it
   * is 1..9, a dash, and the day likewise.
   */
  lemma KeyLayout(year: nat, month: nat, day: nat)
    requires 1000 <= year <= 9999 && 1 <= month <= 12 && 1 <= day <= 31
    ensures |Key(year, month, day)| == 10
    ensures Key(year, month, day)[..4] == Show(year)
    ensures Key(year, month, day)[4] == '-' && Key(year, month, day)[7] == '-'
    ensures Key(year, month, day)[5..7] == Pad2(month) && Key(year, month, day)[8..] == Pad2(day)
    ensures (Key(year, month, day)[5] == '0') == (month < 10)
    ensures (Key(year, month, day)[8] == '0') == (day < 10)
  {
    ShowFourDigits(year);
    KeyFields(year, month, day);
    Pad2Reads(month);
    Pad2Reads(day);
  }
}
