/**
  UTF-8, as Rust's `str::as_bytes` produces it and `String::from_utf8` accepts it
  (the well-formed byte sequences of Unicode section 3.9, Table 3-7).
 */
module Utf8 {
  import opened Wrappers
  import opened Bytes

  predicate IsAscii(c: char) {
    c as int < 0x80
  }

  predicate AllAscii(s: string) {
    forall i :: 0 <= i < |s| ==> IsAscii(s[i])
  }

  predicate IsContinuation(b: byte) {
    0x80 <= b <= 0xBF
  }

  function EncodeChar(c: char): (r: seq<byte>)
    ensures 1 <= |r| <= 4
    ensures |r| == 1 <==> IsAscii(c)
  {
    var n := c as int;
    if n < 0x80 then [n]
    else if n < 0x800 then [0xC0 + n / 64, 0x80 + n % 64]
    else if n < 0x1_0000 then [0xE0 + n / 4096, 0x80 + (n / 64) % 64, 0x80 + n % 64]
    else [0xF0 + n / 262144, 0x80 + (n / 4096) % 64, 0x80 + (n / 64) % 64, 0x80 + n % 64]
  }

  /** `s.as_bytes()` */
  function Encode(s: string): (r: seq<byte>)
    ensures |s| <= |r| <= 4 * |s|
    ensures |s| == 0 <==> |r| == 0
  {
    if |s| == 0 then [] else EncodeChar(s[0]) + Encode(s[1..])
  }

  /**
    Length of the well-formed sequence starting at `b[0]`, or 0 when the bytes
    there are not the start of a well-formed sequence.
   */
  function SequenceLength(b: seq<byte>): (n: nat)
    requires |b| > 0
    ensures n <= 4 && n <= |b|
  {
    var b0 := b[0];
    if b0 < 0x80 then 1
    else if 0xC2 <= b0 <= 0xDF then
      if |b| >= 2 && IsContinuation(b[1]) then 2 else 0
    else if 0xE0 <= b0 <= 0xEF then
      var lo := if b0 == 0xE0 then 0xA0 else 0x80;
      var hi := if b0 == 0xED then 0x9F else 0xBF;
      if |b| >= 3 && lo <= b[1] <= hi && IsContinuation(b[2]) then 3 else 0
    else if 0xF0 <= b0 <= 0xF4 then
      var lo := if b0 == 0xF0 then 0x90 else 0x80;
      var hi := if b0 == 0xF4 then 0x8F else 0xBF;
      if |b| >= 4 && lo <= b[1] <= hi && IsContinuation(b[2]) && IsContinuation(b[3]) then 4 else 0
    else 0
  }

  /** The scalar value encoded by the well-formed sequence at the start of `b`. */
  function DecodeChar(b: seq<byte>): char
    requires |b| > 0 && SequenceLength(b) > 0
  {
    var n := SequenceLength(b);
    var b0: int := b[0];
    var v: int :=
      if n == 1 then b0
      else if n == 2 then (b0 - 0xC0) * 64 + (b[1] as int - 0x80)
      else if n == 3 then (b0 - 0xE0) * 4096 + (b[1] as int - 0x80) * 64 + (b[2] as int - 0x80)
      else (b0 - 0xF0) * 262144 + (b[1] as int - 0x80) * 4096 + (b[2] as int - 0x80) * 64 + (b[3] as int - 0x80);
    assert v < 0xD800 || 0xE000 <= v < 0x11_0000;
    v as char
  }

  /** `String::from_utf8(b)`: `None` when `b` is not well-formed UTF-8. */
  function Decode(b: seq<byte>): (r: Option<string>)
    ensures |b| == 0 ==> r == Some("")
    ensures r.Some? ==> |r.value| <= |b|
    decreases |b|
  {
    if |b| == 0 then Some("")
    else
      var n := SequenceLength(b);
      if n == 0 then None
      else
        var tail :- Decode(b[n..]);
        Some([DecodeChar(b)] + tail)
  }

  lemma Decode2(n: int, rest: seq<byte>)
    requires 0x80 <= n < 0x800
    ensures var b: seq<byte> := [0xC0 + n / 64, 0x80 + n % 64] + rest;
      SequenceLength(b) == 2 && (b[0] as int - 0xC0) * 64 + (b[1] as int - 0x80) == n
  {
  }

  lemma Decode3(n: int, rest: seq<byte>)
    requires 0x800 <= n < 0x1_0000 && !(0xD800 <= n < 0xE000)
    ensures var b: seq<byte> := [0xE0 + n / 4096, 0x80 + (n / 64) % 64, 0x80 + n % 64] + rest;
      SequenceLength(b) == 3 && (b[0] as int - 0xE0) * 4096 + (b[1] as int - 0x80) * 64 + (b[2] as int - 0x80) == n
  {
    var q := n / 64;
    assert n == q * 64 + n % 64;
    assert q == (q / 64) * 64 + q % 64;
    assert n / 4096 == q / 64;
  }

  lemma Decode4(n: int, rest: seq<byte>)
    requires 0x1_0000 <= n < 0x11_0000
    ensures var b: seq<byte> := [0xF0 + n / 262144, 0x80 + (n / 4096) % 64, 0x80 + (n / 64) % 64, 0x80 + n % 64] + rest;
      SequenceLength(b) == 4
      && (b[0] as int - 0xF0) * 262144 + (b[1] as int - 0x80) * 4096 + (b[2] as int - 0x80) * 64 + (b[3] as int - 0x80) == n
  {
    var q := n / 64;
    var q2 := q / 64;
    assert n == q * 64 + n % 64;
    assert q == q2 * 64 + q % 64;
    assert n / 4096 == q2;
    assert q2 == (q2 / 64) * 64 + q2 % 64;
    assert n / 262144 == q2 / 64;
  }

  lemma EncodeCharDecodes(c: char, rest: seq<byte>)
    ensures SequenceLength(EncodeChar(c) + rest) == |EncodeChar(c)|
    ensures DecodeChar(EncodeChar(c) + rest) == c
  {
    var n := c as int;
    if n < 0x80 {
    } else if n < 0x800 {
      TwoByteCharDecodes(c, rest);
    } else if n < 0x1_0000 {
      ThreeByteCharDecodes(c, rest);
    } else {
      FourByteCharDecodes(c, rest);
    }
  }

  lemma TwoByteCharDecodes(c: char, rest: seq<byte>)
    requires 0x80 <= c as int < 0x800
    ensures SequenceLength(EncodeChar(c) + rest) == |EncodeChar(c)|
    ensures DecodeChar(EncodeChar(c) + rest) == c
  {
    var n := c as int;
    assert EncodeChar(c) == [0xC0 + n / 64, 0x80 + n % 64];
    Decode2(n, rest);
  }

  lemma ThreeByteCharDecodes(c: char, rest: seq<byte>)
    requires 0x800 <= c as int < 0x1_0000
    ensures SequenceLength(EncodeChar(c) + rest) == |EncodeChar(c)|
    ensures DecodeChar(EncodeChar(c) + rest) == c
  {
    var n := c as int;
    assert EncodeChar(c) == [0xE0 + n / 4096, 0x80 + (n / 64) % 64, 0x80 + n % 64];
    Decode3(n, rest);
  }

  lemma FourByteCharDecodes(c: char, rest: seq<byte>)
    requires 0x1_0000 <= c as int
    ensures SequenceLength(EncodeChar(c) + rest) == |EncodeChar(c)|
    ensures DecodeChar(EncodeChar(c) + rest) == c
  {
    var n := c as int;
    assert EncodeChar(c) == [0xF0 + n / 262144, 0x80 + (n / 4096) % 64, 0x80 + (n / 64) % 64, 0x80 + n % 64];
    Decode4(n, rest);
  }

  /** Every string's bytes are well-formed and decode back to the string. */
  lemma {:induction false} DecodeEncode(s: string)
    ensures Decode(Encode(s)) == Some(s)
  {
    if |s| > 0 {
      var e := EncodeChar(s[0]);
      EncodeCharDecodes(s[0], Encode(s[1..]));
      assert Encode(s) == e + Encode(s[1..]);
      assert (e + Encode(s[1..]))[|e|..] == Encode(s[1..]);
      DecodeEncode(s[1..]);
      assert s == [s[0]] + s[1..];
    }
  }

  /** An ASCII string has one byte per character, each equal to the character's code. */
  lemma {:induction false} EncodeAscii(s: string)
    requires AllAscii(s)
    ensures |Encode(s)| == |s|
    ensures forall i :: 0 <= i < |s| ==> Encode(s)[i] == s[i] as int
  {
    if |s| > 0 {
      EncodeAscii(s[1..]);
      assert Encode(s) == [s[0] as int] + Encode(s[1..]);
    }
  }
}
