/**
 * Canonical decimal text of integers: what JavaScript's Number.prototype.toString and
 * C++'s `std::stringstream << int64_t` both produce for an integer, and its inverse.
 * Every 64-bit quantity (sizes, offsets, modification times, request ids) crosses the
 * JavaScript/Native Client boundary in this form.
 */
module Decimal {
  predicate IsDigit(c: char) { '0' <= c <= '9' }

  predicate AllDigits(s: string) { forall i :: 0 <= i < |s| ==> IsDigit(s[i]) }

  function DigitValue(c: char): (d: nat)
    requires IsDigit(c)
    ensures d < 10
  {
    (c as int) - ('0' as int)
  }

  function DigitChar(d: nat): (c: char)
    requires d < 10
    ensures IsDigit(c) && DigitValue(c) == d
  {
    (('0' as int) + d) as char
  }

  /** The value of a string of digits, most significant first (leading zeros allowed). */
  function DigitsValue(s: string): nat
    requires AllDigits(s)
  {
    if s == [] then 0 else DigitsValue(s[..|s| - 1]) * 10 + DigitValue(s[|s| - 1])
  }

  /** Digits with no superfluous leading zero: "0", "7", "42", never "", "007". */
  predicate IsNatText(s: string)
  {
    |s| > 0 && AllDigits(s) && (s[0] == '0' ==> |s| == 1)
  }

  /** Canonical decimal text of an integer: a natural, or '-' and a positive natural. */
  predicate IsDecimal(s: string)
  {
    IsNatText(s) || (|s| > 1 && s[0] == '-' && IsNatText(s[1..]) && s[1] != '0')
  }

  /** Shortest decimal text of a natural number. */
  function NatToString(n: nat): (s: string)
    ensures IsNatText(s) && DigitsValue(s) == n
    ensures s[0] == '0' <==> n == 0
  {
    if n < 10 then [DigitChar(n)]
    else
      var p := NatToString(n / 10);
      var s := p + [DigitChar(n % 10)];
      assert s[..|s| - 1] == p;
      s
  }

  /** `n.toString()` in JavaScript, `ss << n` in C++. */
  function IntToString(n: int): (s: string)
    ensures IsDecimal(s) && ParseDecimal(s) == n
  {
    if n < 0 then
      var t := NatToString(-n);
      var s := "-" + t;
      assert s[1..] == t;
      s
    else NatToString(n)
  }

  /** The integer that canonical decimal text denotes. */
  function ParseDecimal(s: string): int
    requires IsDecimal(s)
  {
    if s[0] == '-' then -(DigitsValue(s[1..]) as int) else DigitsValue(s)
  }

  lemma {:induction false} NonZeroLeadingDigit(s: string)
    requires |s| > 0 && AllDigits(s) && s[0] != '0'
    ensures DigitsValue(s) >= 1
  {
    if |s| > 1 {
      var p := s[..|s| - 1];
      assert p[0] == s[0];
      NonZeroLeadingDigit(p);
    }
  }

  /** Natural-number text written back from its value is the same text. */
  lemma {:induction false} NatTextRoundTrip(s: string)
    requires IsNatText(s)
    ensures NatToString(DigitsValue(s)) == s
  {
    if |s| > 1 {
      var p := s[..|s| - 1];
      assert p[0] == s[0];
      NonZeroLeadingDigit(p);
      NatTextRoundTrip(p);
      var n := DigitsValue(s);
      assert n / 10 == DigitsValue(p) && n % 10 == DigitValue(s[|s| - 1]);
      assert s == p + [s[|s| - 1]];
    }
  }

  /**
   * Parsing is injective on canonical text: printing the parsed value gives back the
   * text, so the decimal form of a value is unique.
   */
  lemma DecimalRoundTrip(s: string)
    requires IsDecimal(s)
    ensures IntToString(ParseDecimal(s)) == s
  {
    if s[0] == '-' {
      NonZeroLeadingDigit(s[1..]);
      NatTextRoundTrip(s[1..]);
      assert s == "-" + s[1..];
    } else {
      NatTextRoundTrip(s);
    }
  }
}
