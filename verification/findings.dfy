/**
  Places where the encoder and the decoder, as written, disagree. Each lemma
  names an input the written pair does not carry across; the `Corrected`
  revision, which the rest of the model uses, carries it (see the round-trip
  lemmas of CodecNodes and CodecStrings).
 */
module Findings {
  import opened Wrappers
  import opened Errors
  import opened Bytes
  import opened Tag
  import opened Tokens
  import opened Nodes
  import opened Revision
  import opened Encoder
  import opened Decoder

  /**
    A sixteen-bit node size is written as the tag and its low byte only, but
    read as two bytes: the size is never read back with the bytes after it intact.
   */
  lemma ListSixteenLosesSize(k: nat, body: seq<byte>)
    requires 256 <= k < U16_LIMIT
    ensures WriteSize(AsWritten, k) == Ok([LIST_SIXTEEN, k % 256])
    ensures ReadSize(LIST_SIXTEEN, [k % 256] + body) != Ok(Parsed(k, body))
  {
    var r := ReadSize(LIST_SIXTEEN, [k % 256] + body);
    if r.Ok? {
      assert |r.value.rest| < |body|;
    }
  }

  /**
    A length past the twenty-bit range is written as BINARY_THIRTY_TWO and its
    low byte, but read as a sixteen-bit number, which is always smaller.
   */
  lemma ThirtyTwoLosesLength(n: nat, tail: seq<byte>)
    requires n > TwentyBitMax(AsWritten)
    ensures WriteLength(AsWritten, n) == Ok([BINARY_THIRTY_TWO, n % 256])
    ensures var r := ReadLength32(AsWritten, [n % 256] + tail); r.Ok? ==> r.value.value < n
  {
    var r := ReadLength32(AsWritten, [n % 256] + tail);
    if r.Ok? {
      var b := ([n % 256] + tail)[..2];
      assert r.value.value == b[0] * 256 + b[1];
    }
  }

  /**
    `I32_20_MAX_VALUE` is 2^20, one more than three bytes with the top nibble
    masked can hold: that length is written with BINARY_TWENTY and read back as 0.
   */
  lemma TwentyBitMaxReadsZero(rest: seq<byte>)
    ensures WriteLength(AsWritten, 1048576) == Ok([BINARY_TWENTY, 16, 0, 0])
    ensures ReadCustomLength([16, 0, 0] + rest) == Ok(Parsed(0, rest))
  {
    assert ([16, 0, 0] + rest)[3..] == rest;
  }

  /**
    The last character of an odd-length nibble string is looked up in HEX: "-"
    (code 10) is packed as one byte and read back as "A".
   */
  lemma NibbleLastReadAsHex(t: Tables, rest: seq<byte>)
    requires Valid(t) && StandardPacking(t)
    ensures WriteStringToken("-", NIBBLE_EIGHT) == Ok([NIBBLE_EIGHT, PackedHeader(1), 175])
    ensures ReadPacked(AsWritten, t, [PackedHeader(1), 175] + rest, false) == Ok(Parsed(Text("A"), rest))
  {
    assert CodePoint(NIBBLE_EIGHT, '-') == Ok(10);
    assert Pack(NIBBLE_EIGHT, "-") == Ok([175]);
    assert [NIBBLE_EIGHT, PackedHeader(1)] + [175] == [NIBBLE_EIGHT, PackedHeader(1), 175];
    var b := [PackedHeader(1), 175] + rest;
    assert PackedHeader(1) == 129;
    assert b[1..] == [175] + rest;
    assert ReadPairs(t.numbers, b[1..], 0) == Ok(Parsed("", b[1..]));
    assert ReadU8(b[1..]) == Ok(Parsed(175, rest));
    assert t.hex[10] == HexDigit(10) == 'A';
    assert "" + ['A'] == "A";
  }
}
