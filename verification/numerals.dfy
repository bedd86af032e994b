/**
 * Decimal numerals and their exact value: the part of Double.parseDouble that the
 * calculator relies on (an optional sign, digits, at most one decimal point).
 */
module Numerals {
  import opened Wrappers
  import opened Text

  predicate IsNumberChar(c: char) { IsDigit(c) || c == '.' }

  function DotCount(t: string): nat
  {
    if t == [] then 0 else (if t[0] == '.' then 1 else 0) + DotCount(t[1..])
  }

  predicate AllNumberChars(t: string)
  {
    t == [] || (IsNumberChar(t[0]) && AllNumberChars(t[1..]))
  }

  predicate HasDigit(t: string)
  {
    t != [] && (IsDigit(t[0]) || HasDigit(t[1..]))
  }

  /** Digits with at most one decimal point and at least one digit: "12", "1.5", ".5", "3.". */
  predicate IsNumeral(t: string)
  {
    AllNumberChars(t) && DotCount(t) <= 1 && HasDigit(t)
  }

  function DigitValue(c: char): nat
    requires IsDigit(c)
  {
    c as int - '0' as int
  }

  /** The characters before the decimal point (all of t when there is none). */
  function BeforeDot(t: string): string
  {
    if t == [] || t[0] == '.' then [] else [t[0]] + BeforeDot(t[1..])
  }

  /** The characters after the decimal point (none when there is none). */
  function AfterDot(t: string): string
  {
    if t == [] then [] else if t[0] == '.' then t[1..] else AfterDot(t[1..])
  }

  /** The value of a digit string read in base ten (characters other than digits count as 0). */
  function DigitsValue(ds: string): nat
  {
    if ds == [] then 0
    else DigitsValue(ds[..|ds| - 1]) * 10 + (if IsDigit(ds[|ds| - 1]) then DigitValue(ds[|ds| - 1]) else 0)
  }

  /** The value of the digits after a decimal point: 0.d1d2d3... */
  function FractionValue(ds: string): (r: real)
    ensures r >= 0.0
  {
    if ds == [] then 0.0
    else ((if IsDigit(ds[0]) then DigitValue(ds[0]) else 0) as real + FractionValue(ds[1..])) / 10.0
  }

  /** The exact value of an unsigned numeral. */
  function NumeralValue(t: string): (r: real)
    ensures r >= 0.0
  {
    DigitsValue(BeforeDot(t)) as real + FractionValue(AfterDot(t))
  }

  /**
   * Double.parseDouble restricted to optionally signed decimal numerals, with the exact value.
   * None plays the part of NumberFormatException.
   */
  function ParseNumber(s: string): Option<real>
  {
    if |s| > 0 && (s[0] == '+' || s[0] == '-') then
      if IsNumeral(s[1..]) then
        Some(if s[0] == '-' then -NumeralValue(s[1..]) else NumeralValue(s[1..]))
      else None
    else if IsNumeral(s) then Some(NumeralValue(s))
    else None
  }

  /** A text reads as a number exactly when it is a numeral with at most one leading sign; the sign gives the value's. */
  lemma ParseNumberAccepts(s: string)
    ensures ParseNumber(s).Some? <==> IsNumeral(s) || (|s| > 0 && (s[0] == '+' || s[0] == '-') && IsNumeral(s[1..]))
    ensures ParseNumber(s).Some? && s[0] == '-' ==> ParseNumber(s).value <= 0.0
    ensures ParseNumber(s).Some? && s[0] != '-' ==> ParseNumber(s).value >= 0.0
  {
  }

  lemma {:induction false} AllNumberCharsAt(t: string, k: nat)
    requires AllNumberChars(t) && k < |t|
    ensures IsNumberChar(t[k])
  {
    if k > 0 {
      AllNumberCharsAt(t[1..], k - 1);
    }
  }
}
