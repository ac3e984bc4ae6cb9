/**
  The token tables of the node format (`token::SINGLE_BYTE`, `DOUBLE_BYTE`, `HEX`,
  `NUMBERS`). The tables themselves are not part of this model: every codec
  function takes them as a parameter, and the properties that need them assume
  only what `Valid` and `StandardPacking` state.
 */
module Tokens {
  datatype Tables = Tables(
    singleByte: seq<string>,
    doubleByte: seq<string>,
    hex: seq<char>,
    numbers: seq<char>)

  /** Word-dictionary quarter size, `DOUBLE_BYTE.len() / 4`. */
  function QuarterSize(t: Tables): nat {
    |t.doubleByte| / 4
  }

  /**
    What the codec assumes of the tables: single-byte tokens occupy the tags
    1..235 below the dictionary tags; the word dictionary splits into four
    equal quarters each indexable by one byte; the nibble tables have 16
    entries. Tokens need not be distinct: the encoder writes the first
    occurrence, which is what the decoder reads back.
   */
  predicate Valid(t: Tables) {
    && |t.singleByte| <= 235
    && |t.doubleByte| % 4 == 0
    && 0 < |t.doubleByte| <= 1024
    && |t.hex| == 16
    && |t.numbers| == 16
  }

  /** Valid tables hold four whole quarters of at most 256 words each. */
  lemma Quarters(t: Tables)
    requires Valid(t)
    ensures 4 * QuarterSize(t) == |t.doubleByte|
    ensures 0 < QuarterSize(t) <= 256
  {
  }

  /** Entry `code` of "0123456789ABCDEF". */
  function HexDigit(code: nat): char
    requires code < 16
  {
    if code < 10 then ('0' as int + code) as char else ('A' as int + code - 10) as char
  }

  /** Entry `code` of "0123456789-.". */
  function NumberDigit(code: nat): char
    requires code < 12
  {
    if code < 10 then ('0' as int + code) as char else if code == 10 then '-' else '.'
  }

  /**
    The nibble alphabets the encoder's `string_code_point` assumes: `HEX` is
    "0123456789ABCDEF" and `NUMBERS` starts with "0123456789-.".
   */
  predicate StandardPacking(t: Tables) {
    && |t.hex| == 16
    && |t.numbers| >= 12
    && (forall i :: 0 <= i < 16 ==> t.hex[i] == HexDigit(i))
    && (forall i :: 0 <= i < 12 ==> t.numbers[i] == NumberDigit(i))
  }

  /** Position of the first occurrence, as `iter().position`. */
  function IndexOf<T(==)>(s: seq<T>, x: T): (i: nat)
    requires x in s
    ensures i < |s| && s[i] == x
    ensures forall j :: 0 <= j < i ==> s[j] != x
  {
    if s[0] == x then 0 else 1 + IndexOf(s[1..], x)
  }
}
