/**
  Round trips of the string forms of the node codec, for the corrected
  revision: whatever `write_string` writes, `read` gives back.
 */
module CodecStrings {
  import opened Wrappers
  import opened Errors
  import opened Bytes
  import Utf8
  import opened Tag
  import opened Tokens
  import opened Nodes
  import opened Revision
  import opened Encoder
  import opened Decoder
  import opened Seqs

  /** No left-to-right mark, which reading a string in parse mode removes. */
  predicate NoLrm(s: string) {
    '\U{200E}' !in s
  }

  /** A string the codec can carry: its UTF-8 form is shorter than 2^32 bytes. */
  predicate Fits(s: string) {
    |Utf8.Encode(s)| < U32_LIMIT
  }

  /** The packing table that `read` uses for a packing tag. */
  function PackingTable(t: Tables, hex: bool): seq<char> {
    if hex then t.hex else t.numbers
  }

  function PackingTag(hex: bool): byte {
    if hex then HEX_EIGHT else NIBBLE_EIGHT
  }

  predicate InAlphabet(s: string, hex: bool) {
    if hex then AllHex(s) else AllNibble(s)
  }

  /** Each character's four-bit code indexes that character in its table. */
  lemma CodeRoundTrip(t: Tables, hex: bool, c: char)
    requires StandardPacking(t)
    requires if hex then IsHexChar(c) else IsNibbleChar(c)
    ensures CodePoint(PackingTag(hex), c).Ok?
    ensures PackingTable(t, hex)[CodePoint(PackingTag(hex), c).value] == c
  {
    var code := CodePoint(PackingTag(hex), c).value;
    if hex {
      assert t.hex[code] == HexDigit(code);
    } else {
      assert t.numbers[code] == NumberDigit(code);
    }
  }

  /** The alphabet of a string holds for its suffixes. */
  lemma InAlphabetTail(s: string, hex: bool, k: nat)
    requires InAlphabet(s, hex) && k <= |s|
    ensures InAlphabet(s[k..], hex)
  {
    assert forall i :: 0 <= i < |s| - k ==> s[k..][i] == s[i + k];
  }

  /** The four-bit code of a character of a packing alphabet. */
  function Code(hex: bool, c: char): (code: nat)
    requires if hex then IsHexChar(c) else IsNibbleChar(c)
    ensures code < 16
  {
    CodePoint(PackingTag(hex), c).value
  }

  /**
    What `Pack` writes, byte by byte: character `i` is the high nibble of byte
    `i / 2` when `i` is even and its low nibble when `i` is odd; a last odd
    character is padded with 15.
   */
  lemma {:induction false} PackCodes(hex: bool, s: string)
    requires InAlphabet(s, hex)
    ensures Pack(PackingTag(hex), s).Ok?
    ensures var p := Pack(PackingTag(hex), s).value;
      forall i :: 0 <= i < |s| ==>
        (if i % 2 == 0 then p[i / 2] / 16 else p[i / 2] % 16) == Code(hex, s[i])
    decreases |s|
  {
    var token := PackingTag(hex);
    if |s| >= 2 {
      InAlphabetTail(s, hex, 2);
      PackCodes(hex, s[2..]);
      var high := Code(hex, s[0]);
      var low := Code(hex, s[1]);
      var x := high * 16 + low;
      assert x / 16 == high && x % 16 == low;
      var p := Pack(token, s).value;
      var tail := Pack(token, s[2..]).value;
      assert p == [x] + tail;
      forall i | 2 <= i < |s|
        ensures (if i % 2 == 0 then p[i / 2] / 16 else p[i / 2] % 16) == Code(hex, s[i])
      {
        assert p[i / 2] == tail[(i - 2) / 2];
        assert s[i] == s[2..][i - 2];
      }
    } else if |s| == 1 {
      var high := Code(hex, s[0]);
      assert (high * 16 + 15) / 16 == high;
    }
  }

  /** Unpacking the full bytes of a packed string gives its even-length prefix. */
  lemma PackedPairs(t: Tables, hex: bool, s: string)
    requires Valid(t) && StandardPacking(t) && InAlphabet(s, hex)
    ensures Pack(PackingTag(hex), s).Ok?
    ensures var p := Pack(PackingTag(hex), s).value;
      Unpack(PackingTable(t, hex), p[..|s| / 2]) == s[..2 * (|s| / 2)]
  {
    PackCodes(hex, s);
    var p := Pack(PackingTag(hex), s).value;
    var table := PackingTable(t, hex);
    var u := Unpack(table, p[..|s| / 2]);
    forall i | 0 <= i < 2 * (|s| / 2)
      ensures u[i] == s[i]
    {
      assert if hex then IsHexChar(s[i]) else IsNibbleChar(s[i]);
      CodeRoundTrip(t, hex, s[i]);
    }
  }

  /** The packed reader on an even-length header: `n / 2` bytes of pairs. */
  lemma ReadPackedEven(t: Tables, hex: bool, n: nat, q: seq<byte>, rest: seq<byte>)
    requires Valid(t) && 0 < n < 128 && n % 2 == 0 && |q| == n / 2
    ensures ReadPacked(Corrected, t, [PackedHeader(n)] + (q + rest), hex)
      == Ok(Parsed(Text(Unpack(PackingTable(t, hex), q)), rest))
  {
    var b := [PackedHeader(n)] + (q + rest);
    assert b[1..] == q + rest;
    ReadPairsUnpack(PackingTable(t, hex), q + rest, n / 2);
    assert (q + rest)[..n / 2] == q && (q + rest)[n / 2..] == rest;
  }

  /** The packed reader on an odd-length header: `n / 2` bytes of pairs and one padded byte. */
  lemma ReadPackedOdd(t: Tables, hex: bool, n: nat, q: seq<byte>, x: byte, rest: seq<byte>)
    requires Valid(t) && 0 < n < 128 && n % 2 == 1 && |q| == n / 2
    ensures ReadPacked(Corrected, t, [PackedHeader(n)] + (q + ([x] + rest)), hex)
      == Ok(Parsed(Text(Unpack(PackingTable(t, hex), q) + [PackingTable(t, hex)[x / 16]]), rest))
  {
    var b := [PackedHeader(n)] + (q + ([x] + rest));
    assert b[1..] == q + ([x] + rest);
    ReadPairsUnpack(PackingTable(t, hex), q + ([x] + rest), n / 2);
    assert (q + ([x] + rest))[..n / 2] == q && (q + ([x] + rest))[n / 2..] == [x] + rest;
  }

  /** The padded last byte of an odd-length packed string carries its last character. */
  lemma PackedLast(t: Tables, hex: bool, s: string)
    requires Valid(t) && StandardPacking(t) && InAlphabet(s, hex) && |s| % 2 == 1
    ensures Pack(PackingTag(hex), s).Ok?
    ensures var p := Pack(PackingTag(hex), s).value;
      |p| == |s| / 2 + 1 && PackingTable(t, hex)[p[|s| / 2] / 16] == s[|s| - 1]
  {
    PackCodes(hex, s);
    var last := s[|s| - 1];
    assert if hex then IsHexChar(last) else IsNibbleChar(last);
    CodeRoundTrip(t, hex, last);
  }

  /** An odd-length packed string: its pairs, then the padded last byte. */
  lemma PackedBodyOdd(t: Tables, hex: bool, s: string, rest: seq<byte>)
    requires Valid(t) && StandardPacking(t) && InAlphabet(s, hex)
    requires 0 < |s| < 128 && |s| % 2 == 1
    ensures Pack(PackingTag(hex), s).Ok?
    ensures ReadPacked(Corrected, t, [PackedHeader(|s|)] + (Pack(PackingTag(hex), s).value + rest), hex) == Ok(Parsed(Text(s), rest))
  {
    PackedPairs(t, hex, s);
    PackedLast(t, hex, s);
    var p := Pack(PackingTag(hex), s).value;
    var half := |s| / 2;
    assert |s| == 2 * half + 1 && (|s| + 1) / 2 == half + 1;
    var table := PackingTable(t, hex);
    assert |p| - 1 == half;
    SplitLast(p, rest);
    var b := [PackedHeader(|s|)] + (p + rest);
    assert b == [PackedHeader(|s|)] + (p[..half] + ([p[half]] + rest));
    ReadPackedOdd(t, hex, |s|, p[..half], p[half], rest);
    var u := Unpack(table, p[..half]);
    assert u == s[..2 * half];
    assert table[p[half] / 16] == s[|s| - 1];
    DropLast(s);
    assert u + [table[p[half] / 16]] == s;
  }

  /** An even-length packed string: its pairs only. */
  lemma PackedBodyEven(t: Tables, hex: bool, s: string, rest: seq<byte>)
    requires Valid(t) && StandardPacking(t) && InAlphabet(s, hex)
    requires 0 < |s| < 128 && |s| % 2 == 0
    ensures Pack(PackingTag(hex), s).Ok?
    ensures ReadPacked(Corrected, t, [PackedHeader(|s|)] + (Pack(PackingTag(hex), s).value + rest), hex) == Ok(Parsed(Text(s), rest))
  {
    PackedPairs(t, hex, s);
    var p := Pack(PackingTag(hex), s).value;
    var half := |s| / 2;
    assert |s| == 2 * half && (|s| + 1) / 2 == half;
    assert p[..half] == p;
    assert s[..|s|] == s;
    ReadPackedEven(t, hex, |s|, p, rest);
  }

  /** A short string of one packing alphabet comes back from its packed form. */
  lemma PackedRoundTrip(t: Tables, hex: bool, s: string, parse: bool, rest: seq<byte>)
    requires Valid(t) && StandardPacking(t) && InAlphabet(s, hex)
    requires 0 < |s| < 128
    ensures WriteStringToken(s, PackingTag(hex)).Ok?
    ensures ReadValue(Corrected, t, WriteStringToken(s, PackingTag(hex)).value + rest, parse) == Ok(Parsed(Text(s), rest))
  {
    var token := PackingTag(hex);
    PackCodes(hex, s);
    var p := Pack(token, s).value;
    var b := WriteStringToken(s, token).value + rest;
    assert b == [token] + ([PackedHeader(|s|)] + (p + rest));
    if hex { ReadHexTag(Corrected, t, b, parse); } else { ReadNibbleTag(Corrected, t, b, parse); }
    if |s| % 2 == 1 { PackedBodyOdd(t, hex, s, rest); } else { PackedBodyEven(t, hex, s, rest); }
  }

  /** Raw bytes behind a corrected length prefix are read back as `read_string_until` reads them. */
  lemma RawBytesRoundTrip(t: Tables, bytes: seq<byte>, parse: bool, rest: seq<byte>)
    requires Valid(t)
    requires |bytes| < U32_LIMIT
    ensures WriteBytes(Corrected, bytes).Ok?
    ensures ReadValue(Corrected, t, WriteBytes(Corrected, bytes).value + rest, parse)
         == ReadStringUntil(bytes + rest, |bytes|, parse)
  {
    var n := |bytes|;
    var prefix := WriteLength(Corrected, n).value;
    assert WriteBytes(Corrected, bytes).value + rest == prefix + (bytes + rest);
    if n < 256 {
      ShortPrefix(t, n, bytes + rest, parse);
    } else if n <= TwentyBitMax(Corrected) {
      MediumPrefix(t, n, bytes + rest, parse);
    } else {
      LongPrefix(t, n, bytes + rest, parse);
    }
  }

  lemma ShortPrefix(t: Tables, n: nat, tail: seq<byte>, parse: bool)
    requires Valid(t) && n < 256
    ensures ReadValue(Corrected, t, WriteLength(Corrected, n).value + tail, parse) == ReadStringUntil(tail, n, parse)
  {
    var b := WriteLength(Corrected, n).value + tail;
    assert b[..2] == [BINARY_EIGHT, n] && b[2..] == tail;
    ReadBinaryEight(Corrected, t, b, parse);
  }

  lemma MediumPrefix(t: Tables, n: nat, tail: seq<byte>, parse: bool)
    requires Valid(t) && 256 <= n <= TwentyBitMax(Corrected)
    ensures ReadValue(Corrected, t, WriteLength(Corrected, n).value + tail, parse) == ReadStringUntil(tail, n, parse)
  {
    BigEndian3(n);
    BigEndianRoundTrip(n, 3);
    var body := BigEndian(n, 3);
    var b := WriteLength(Corrected, n).value + tail;
    assert b == [BINARY_TWENTY] + (body + tail);
    assert b[1..] == body + tail;
    assert b[1..][..3] == body && b[1..][3..] == tail;
    assert body[0] < 16;
    ReadBinaryTwenty(Corrected, t, b, parse);
  }

  lemma LongPrefix(t: Tables, n: nat, tail: seq<byte>, parse: bool)
    requires Valid(t) && TwentyBitMax(Corrected) < n < U32_LIMIT
    ensures ReadValue(Corrected, t, WriteLength(Corrected, n).value + tail, parse) == ReadStringUntil(tail, n, parse)
  {
    BigEndianRoundTrip(n, 4);
    var body := BigEndian(n, 4);
    var b := WriteLength(Corrected, n).value + tail;
    assert b == [BINARY_THIRTY_TWO] + (body + tail);
    assert b[1..5] == body && b[5..] == tail;
    ReadBinaryThirtyTwo(Corrected, t, b, parse);
  }

  /** The UTF-8 bytes of a string come back as the string, in either mode. */
  lemma RawStringRoundTrip(t: Tables, s: string, parse: bool, rest: seq<byte>)
    requires Valid(t) && Fits(s) && (parse ==> NoLrm(s))
    ensures WriteBytes(Corrected, Utf8.Encode(s)).Ok?
    ensures ReadValue(Corrected, t, WriteBytes(Corrected, Utf8.Encode(s)).value + rest, parse) == Ok(Parsed(Text(s), rest))
  {
    var bytes := Utf8.Encode(s);
    RawBytesRoundTrip(t, bytes, parse, rest);
    Utf8.DecodeEncode(s);
    assert (bytes + rest)[..|bytes|] == bytes;
    assert (bytes + rest)[|bytes|..] == rest;
  }

  /** `read` gives back every string `write_string` writes. */
  lemma StringRoundTrip(t: Tables, s: string, parse: bool, rest: seq<byte>)
    requires Valid(t) && StandardPacking(t) && Fits(s) && (parse ==> NoLrm(s))
    ensures WriteString(Corrected, t, s).Ok?
    ensures ReadValue(Corrected, t, WriteString(Corrected, t, s).value + rest, parse) == Ok(Parsed(Text(s), rest))
  {
    var w := WriteString(Corrected, t, s).value;
    if s == "" {
      assert Utf8.Decode([]) == Some("");
      assert (w + rest)[2..] == rest;
    } else if s in t.singleByte {
      var i := IndexOf(t.singleByte, s);
      assert Classify(i + 1) == SingleByteToken(i);
    } else if s in t.doubleByte {
      var d := WriteDictionary(t, s);
      assert (w + rest)[1..] == [d[1]] + rest;
    } else {
      var bytes := Utf8.Encode(s);
      if |bytes| < 128 && AllNibble(s) {
        PackedRoundTrip(t, false, s, parse, rest);
      } else if |bytes| < 128 && AllHex(s) {
        PackedRoundTrip(t, true, s, parse, rest);
      } else {
        RawStringRoundTrip(t, s, parse, rest);
      }
    }
  }

  /** `read_string` reads back a string `write_string` wrote. */
  lemma ReadStringRoundTrip(t: Tables, s: string, rest: seq<byte>)
    requires Valid(t) && StandardPacking(t) && Fits(s) && NoLrm(s)
    ensures WriteString(Corrected, t, s).Ok?
    ensures ReadString(Corrected, t, WriteString(Corrected, t, s).value + rest) == Ok(Parsed(s, rest))
  {
    StringRoundTrip(t, s, true, rest);
  }
}
