/**
 * Which texts `parse::<f64>()` accepts. The navigator keeps the parsed
 * floating-point values only for display, so this model keeps the text and
 * decides only whether parsing succeeds. Rust accepts exactly the texts
 * that, lower-cased, match
 *   Float  ::= Sign? ( 'inf' | 'infinity' | 'nan' | Number )
 *   Number ::= ( Digit+ | Digit+ '.' Digit* | Digit* '.' Digit+ ) Exp?
 *   Exp    ::= 'e' Sign? Digit+
 */
module Floats {
  import opened Decimal

  function LowerChar(c: char): char {
    if 'A' <= c <= 'Z' then ((c as int) + 32) as char else c
  }

  function Lower(s: string): (r: string)
    ensures |r| == |s|
    ensures forall i :: 0 <= i < |s| ==> r[i] == LowerChar(s[i])
  {
    if s == [] then [] else [LowerChar(s[0])] + Lower(s[1..])
  }

  predicate IsSign(c: char) {
    c == '+' || c == '-'
  }

  /** The first index of `c` in `s`. */
  function IndexOf(s: string, c: char): (i: nat)
    requires c in s
    ensures i < |s| && s[i] == c && c !in s[..i]
  {
    if s[0] == c then 0
    else
      assert c in s[1..] by { assert s == [s[0]] + s[1..]; }
      var j := IndexOf(s[1..], c);
      assert s[..j + 1] == [s[0]] + s[1..][..j];
      j + 1
  }

  /** Digit+ | Digit+ '.' Digit* | Digit* '.' Digit+ */
  predicate IsMantissa(s: string) {
    if '.' in s then
      var i := IndexOf(s, '.');
      |s| > 1 && AllDigits(s[..i]) && AllDigits(s[i + 1..])
    else
      |s| > 0 && AllDigits(s)
  }

  /** Sign? Digit+ */
  predicate IsExponent(s: string) {
    var digits := if |s| > 0 && IsSign(s[0]) then s[1..] else s;
    |digits| > 0 && AllDigits(digits)
  }

  /** Number, on lower-cased text. */
  predicate IsNumber(s: string) {
    if 'e' in s then
      var i := IndexOf(s, 'e');
      IsMantissa(s[..i]) && IsExponent(s[i + 1..])
    else
      IsMantissa(s)
  }

  /** `s.parse::<f64>().is_ok()` */
  predicate IsF64Literal(s: string) {
    var t := Lower(s);
    var body := if |t| > 0 && IsSign(t[0]) then t[1..] else t;
    body == "inf" || body == "infinity" || body == "nan" || IsNumber(body)
  }

  /** Every decimal numeral, such as a u32 written by `to_string`, is also an f64 literal. */
  lemma DigitsAreF64Literal(s: string)
    requires |s| > 0 && AllDigits(s)
    ensures IsF64Literal(s)
  {
    assert Lower(s) == s;
    assert !IsSign(s[0]);
    assert '.' !in s && 'e' !in s;
  }

  lemma AcceptsFraction()
    ensures IsNumber("20.5")
  {
    assert 'e' !in "20.5";
    assert IndexOf("20.5", '.') == 2;
    assert "20.5"[..2] == "20" && "20.5"[3..] == "5";
  }

  lemma AcceptsSignedFraction()
    ensures IsF64Literal("-20.5")
  {
    assert Lower("-20.5") == "-20.5";
    assert "-20.5"[1..] == "20.5";
    AcceptsFraction();
  }

  lemma AcceptsExponent()
    ensures IsF64Literal("1e5")
  {
    assert Lower("1e5") == "1e5";
    assert IndexOf("1e5", 'e') == 1;
    assert "1e5"[..1] == "1" && "1e5"[2..] == "5";
  }

  lemma AcceptsLeadingPoint()
    ensures IsF64Literal(".5")
  {
    assert Lower(".5") == ".5";
    assert IndexOf(".5", '.') == 0;
  }

  lemma AcceptsNaNInAnyCase()
    ensures IsF64Literal("+NaN")
  {
    assert Lower("+NaN") == "+nan";
    assert "+nan"[1..] == "nan";
  }

  lemma RejectedExamples()
    ensures !IsF64Literal("") && !IsF64Literal(".") && !IsF64Literal("1e") && !IsF64Literal("1 2")
  {
    assert Lower(".") == ".";
    assert Lower("1e") == "1e";
    assert Lower("1 2") == "1 2";
  }
}
