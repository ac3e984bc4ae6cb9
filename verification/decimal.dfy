/**
  Decimal text of integers: Rust's `str::parse::<u32>()` (used for JID agent and
  device parts and for version pieces) and `Number::to_string()` (used when the
  encoder writes a JSON number).
 */
module Decimal {
  import opened Wrappers
  import opened Bytes

  predicate IsDigit(c: char) {
    '0' <= c <= '9'
  }

  predicate AllDigits(s: string) {
    forall i :: 0 <= i < |s| ==> IsDigit(s[i])
  }

  function DigitValue(c: char): nat
    requires IsDigit(c)
  {
    c as int - '0' as int
  }

  /** Value of a string of decimal digits, most significant first. */
  function DigitsValue(s: string): nat
    requires AllDigits(s)
  {
    if |s| == 0 then 0 else DigitsValue(s[..|s| - 1]) * 10 + DigitValue(s[|s| - 1])
  }

  /**
    `s.parse::<u32>()`: an optional leading '+', then at least one digit, and a
    value no larger than `u32::MAX`; anything else is an error.
   */
  function ParseU32(s: string): (r: Option<nat>)
    ensures r.Some? ==> r.value <= U32_MAX
    ensures r.Some? ==> |s| > 0 && (IsDigit(s[0]) || s[0] == '+')
    ensures (|s| == 0 || s == "+") ==> r.None?
  {
    var digits := if |s| > 0 && s[0] == '+' then s[1..] else s;
    if |digits| == 0 || !AllDigits(digits) then None
    else if DigitsValue(digits) <= U32_MAX then Some(DigitsValue(digits))
    else None
  }

  /** Shortest decimal text of `n` (no leading zeros). */
  function NatToString(n: nat): (r: string)
    ensures |r| > 0 && AllDigits(r)
    ensures |r| > 1 ==> r[0] != '0'
    decreases n
  {
    var d := ['0' + (n % 10) as char];
    if n < 10 then d else NatToString(n / 10) + d
  }

  /** `to_string()` of an integer JSON number: a '-' sign before the magnitude when negative. */
  function IntToString(n: int): (r: string)
    ensures |r| > 0
    ensures (r[0] == '-') <==> n < 0
  {
    if n < 0 then "-" + NatToString(-n) else NatToString(n)
  }

  lemma {:induction false} NatToStringValue(n: nat)
    ensures DigitsValue(NatToString(n)) == n
    decreases n
  {
    var r := NatToString(n);
    if n >= 10 {
      NatToStringValue(n / 10);
      assert r[..|r| - 1] == NatToString(n / 10);
    }
  }

  /** A plain run of digits parses to its value when that fits in a `u32`. */
  lemma ParseDigits(s: string)
    requires AllDigits(s) && |s| > 0 && DigitsValue(s) <= U32_MAX
    ensures ParseU32(s) == Some(DigitsValue(s))
  {
  }

  /** Printing a number and parsing it back gives the number. */
  lemma ParseNatToString(n: nat)
    requires n <= U32_MAX
    ensures ParseU32(NatToString(n)) == Some(n)
  {
    NatToStringValue(n);
    ParseDigits(NatToString(n));
  }
}
