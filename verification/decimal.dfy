/**
 * Decimal text of natural numbers, as JavaScript's `String(n)` and
 * `String.prototype.padStart` produce it for the non-negative integers the
 * calendar formats (years, months, days).
 */
module Decimal {

  predicate IsDigit(c: char) {
    '0' <= c <= '9'
  }

  predicate AllDigits(s: string) {
    forall i :: 0 <= i < |s| ==> IsDigit(s[i])
  }

  function DigitChar(n: nat): (c: char)
    requires n < 10
    ensures IsDigit(c)
  {
    (48 + n) as char
  }

  function DigitValue(c: char): (n: nat)
    requires IsDigit(c)
    ensures n < 10
  {
    c as int - 48
  }

  /** `String(n)` for a non-negative integer. */
  function Show(n: nat): (s: string)
    ensures 1 <= |s|
    ensures (|s| == 1) == (n < 10)
  {
    if n < 10 then [DigitChar(n)] else Show(n / 10) + [DigitChar(n % 10)]
  }

  /** Reads a run of decimal digits (leading zeros allowed) as a number. */
  function Parse(s: string): nat
    requires AllDigits(s)
  {
    if |s| == 0 then 0 else 10 * Parse(s[..|s| - 1]) + DigitValue(s[|s| - 1])
  }

  /** The text of a number is made of digits only, with no leading zero. */
  lemma {:induction false} ShowDigits(n: nat)
    ensures AllDigits(Show(n))
    ensures |Show(n)| > 1 ==> Show(n)[0] != '0'
  {
    if n >= 10 {
      ShowDigits(n / 10);
      assert Show(n)[0] == Show(n / 10)[0];
    }
  }

  /** Reading back the text of `n` gives `n`. */
  lemma {:induction false} ParseShow(n: nat)
    ensures AllDigits(Show(n))
    ensures Parse(Show(n)) == n
  {
    ShowDigits(n);
    if n >= 10 {
      var s := Show(n);
      assert s[..|s| - 1] == Show(n / 10);
      ParseShow(n / 10);
    }
  }

  /** Distinct numbers have distinct texts. */
  lemma ShowInjective(a: nat, b: nat)
    requires Show(a) == Show(b)
    ensures a == b
  {
    ParseShow(a);
    ParseShow(b);
  }

  /** A leading zero does not change the value read. */
  lemma {:induction false} ParseLeadingZero(s: string)
    requires AllDigits(s)
    ensures Parse(['0'] + s) == Parse(s)
  {
    if |s| > 0 {
      var t := ['0'] + s;
      assert t[..|t| - 1] == ['0'] + s[..|s| - 1];
      ParseLeadingZero(s[..|s| - 1]);
    }
  }

  /** Four-digit years print as exactly four characters. */
  lemma ShowFourDigits(n: nat)
    requires 1000 <= n <= 9999
    ensures |Show(n)| == 4
  {
    assert Show(n) == Show(n / 10) + [DigitChar(n % 10)];
    assert Show(n / 10) == Show(n / 100) + [DigitChar(n / 10 % 10)];
  }

  /** `s.padStart(width, fill)`: prefix `fill` until `s` has `width` characters. */
  function PadStart(s: string, width: nat, fill: char): (r: string)
    ensures |r| == if |s| >= width then |s| else width
    ensures r[|r| - |s|..] == s
    ensures forall i :: 0 <= i < |r| - |s| ==> r[i] == fill
    decreases width - |s|
  {
    if |s| >= width then s else PadStart([fill] + s, width, fill)
  }

  /** `String(n).padStart(2, '0')`: the two-digit field of a month or day. */
  function Pad2(n: nat): string {
    if n < 10 then ['0', DigitChar(n)] else Show(n)
  }

  /** Pad2 is `padStart(2, '0')` applied to the text of `n`. */
  lemma Pad2IsPadStart(n: nat)
    ensures Pad2(n) == PadStart(Show(n), 2, '0')
  {
  }

  /**
   * Below 100 the padded field is the tens digit then the units digit; it
   * is all digits, reads back as `n`, and starts with `0` exactly for 0..9.
   */
  lemma Pad2Reads(n: nat)
    ensures n < 100 ==> Pad2(n) == [DigitChar(n / 10), DigitChar(n % 10)]
    ensures AllDigits(Pad2(n))
    ensures Parse(Pad2(n)) == n
    ensures (n < 10) == (Pad2(n)[0] == '0')
  {
    var s := Show(n);
    ShowDigits(n);
    ParseShow(n);
    if n < 10 {
      assert Pad2(n) == ['0'] + s;
      ParseLeadingZero(s);
    } else if n < 100 {
      assert s == Show(n / 10) + [DigitChar(n % 10)];
    }
  }
}
