/**
 * Unsigned 32-bit integers and their decimal text: the `to_string` and
 * `parse::<u32>` conversions that the navigator applies to matrix
 * identifiers, tile sizes, matrix extents, rows and columns.
 */
module Decimal {
  import opened Wrappers

  const U32_MAX: int := 0xFFFF_FFFF

  /** The values of Rust's `u32`. */
  type U32 = x: int | 0 <= x <= 0xFFFF_FFFF

  predicate IsDigit(c: char) {
    '0' <= c <= '9'
  }

  predicate AllDigits(s: string) {
    forall i :: 0 <= i < |s| ==> IsDigit(s[i])
  }

  /** A decimal numeral as `to_string` writes it: digits, no leading zero except in "0". */
  predicate IsCanonical(s: string) {
    |s| > 0 && AllDigits(s) && (s[0] == '0' ==> |s| == 1)
  }

  function DigitChar(d: nat): (c: char)
    requires d < 10
    ensures IsDigit(c)
  {
    (('0' as int) + d) as char
  }

  function DigitValue(c: char): (d: nat)
    requires IsDigit(c)
    ensures d < 10 && DigitChar(d) == c
  {
    (c as int) - ('0' as int)
  }

  /** The number a string of decimal digits denotes, most significant digit first. */
  function DigitsValue(s: string): nat
    requires AllDigits(s)
  {
    if s == [] then 0 else 10 * DigitsValue(s[..|s| - 1]) + DigitValue(s[|s| - 1])
  }

  /** `n.to_string()`: the shortest decimal numeral for `n`. */
  function Format(n: nat): (s: string)
    ensures IsCanonical(s)
    ensures DigitsValue(s) == n
  {
    if n < 10 then [DigitChar(n)]
    else
      Format(n / 10) + [DigitChar(n % 10)]
  }

  /**
   * `s.parse::<u32>()`: an optional '+' followed by at least one decimal
   * digit (leading zeros allowed), whose value fits in 32 bits. Every other
   * text is an error, here None.
   */
  function ParseU32(s: string): (r: Option<U32>)
    ensures r.Some? ==> |s| > 0
  {
    var digits := if |s| > 0 && s[0] == '+' then s[1..] else s;
    if |digits| == 0 || !AllDigits(digits) then None
    else if DigitsValue(digits) > U32_MAX then None
    else Some(DigitsValue(digits))
  }

  /** A digit string with a non-zero first digit denotes a positive number. */
  lemma {:induction false} LeadingDigitPositive(s: string)
    requires |s| > 0 && AllDigits(s) && s[0] != '0'
    ensures DigitsValue(s) >= 1
  {
    if |s| > 1 {
      LeadingDigitPositive(s[..|s| - 1]);
    }
  }

  /** Formatting the value of a canonical numeral gives the numeral back. */
  lemma {:induction false} FormatOfValue(s: string)
    requires IsCanonical(s)
    ensures Format(DigitsValue(s)) == s
  {
    if |s| > 1 {
      var prefix := s[..|s| - 1];
      var d := DigitValue(s[|s| - 1]);
      LeadingDigitPositive(prefix);
      FormatOfValue(prefix);
      var v := DigitsValue(s);
      assert v == 10 * DigitsValue(prefix) + d;
      assert v / 10 == DigitsValue(prefix) && v % 10 == d;
      assert s == prefix + [s[|s| - 1]];
    }
  }

  /** Parsing what `to_string` writes gives the number back. */
  lemma ParseOfFormat(n: U32)
    ensures ParseU32(Format(n)) == Some(n)
  {
    var s := Format(n);
    assert IsDigit(s[0]);
  }

  /** For a canonical numeral that fits in 32 bits, `to_string` inverts `parse`. */
  lemma FormatOfParse(s: string)
    requires IsCanonical(s) && ParseU32(s).Some?
    ensures Format(ParseU32(s).value) == s
  {
    assert IsDigit(s[0]);
    FormatOfValue(s);
  }

  /** `parse` accepts "+"-prefixed and zero-padded numerals, which `to_string` never writes. */
  lemma ParseExamples()
    ensures ParseU32("0") == Some(0)
    ensures ParseU32("+17") == Some(17)
    ensures ParseU32("007") == Some(7)
    ensures ParseU32("") == None && ParseU32("+") == None && ParseU32("-1") == None
  {
    assert DigitsValue("17") == 17;
    assert DigitsValue("007") == 7;
  }
}
