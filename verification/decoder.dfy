/**
  The binary node decoder (whatsapp-util/src/binary/codec/decoder.rs). Each
  reader takes the unread bytes and returns the value read together with the
  bytes after it. Reading past the end of the buffer panics, as `ByteBuffer`
  does.
 */
module Decoder {
  import opened Wrappers
  import opened Errors
  import opened Bytes
  import Utf8
  import opened Tag
  import opened Tokens
  import opened Nodes
  import opened Jid
  import opened Revision
  import opened Seqs

  /** A value read and the unread bytes after it. */
  datatype Parsed<T> = Parsed(value: T, rest: seq<byte>)

  const ReadPastEnd := Panic("read past the end of the buffer")

  function ReadU8(b: seq<byte>): (r: Result<Parsed<byte>>)
    ensures r.Ok? <==> |b| >= 1
    ensures r.Ok? ==> r.value.rest == b[1..] && [r.value.value] + r.value.rest == b
  {
    if |b| < 1 then Err(ReadPastEnd) else Ok(Parsed(b[0], b[1..]))
  }

  /** `read_u16`, big-endian. */
  function ReadU16(b: seq<byte>): (r: Result<Parsed<nat>>)
    ensures r.Ok? <==> |b| >= 2
    ensures r.Ok? ==> r.value.value == FromBigEndian(b[..2]) && r.value.rest == b[2..]
  {
    if |b| < 2 then Err(ReadPastEnd) else Ok(Parsed(U16(b[0], b[1]), b[2..]))
  }

  /** `read_u32`, big-endian; used by the corrected BINARY_THIRTY_TWO length. */
  function ReadU32(b: seq<byte>): (r: Result<Parsed<nat>>)
    ensures r.Ok? <==> |b| >= 4
    ensures r.Ok? ==> r.value.value == FromBigEndian(b[..4]) && r.value.rest == b[4..]
  {
    if |b| < 4 then Err(ReadPastEnd) else Ok(Parsed(FromBigEndian(b[..4]), b[4..]))
  }

  /** `read_bytes(n)`. */
  function ReadBytes(b: seq<byte>, n: nat): (r: Result<Parsed<seq<byte>>>)
    ensures r.Ok? <==> |b| >= n
    ensures r.Ok? ==> r.value.value + r.value.rest == b && |r.value.value| == n
  {
    if |b| < n then Err(ReadPastEnd) else Ok(Parsed(b[..n], b[n..]))
  }

  /**
    `read_size`: the size of a node, one byte after LIST_EIGHT and two bytes
    after any other tag.
   */
  function ReadSize(tag: byte, b: seq<byte>): (r: Result<Parsed<nat>>)
    ensures tag == LIST_EIGHT ==> r == (if |b| >= 1 then Ok(Parsed(b[0], b[1..])) else Err(ReadPastEnd))
    ensures tag != LIST_EIGHT ==> r == ReadU16(b)
  {
    if tag == LIST_EIGHT then
      var n :- ReadU8(b);
      Ok(Parsed(n.value, n.rest))
    else ReadU16(b)
  }

  /**
    `read_string_custom_length`: a twenty-bit length in three bytes; the high
    nibble of the first byte is ignored.
   */
  function ReadCustomLength(b: seq<byte>): (r: Result<Parsed<nat>>)
    ensures r.Ok? <==> |b| >= 3
    ensures r.Ok? ==> r.value.value < 0x10_0000 && r.value.rest == b[3..]
    ensures r.Ok? && b[0] < 16 ==> r.value.value == FromBigEndian(b[..3])
  {
    if |b| < 3 then Err(ReadPastEnd)
    else
      var (b0, b1, b2) := (b[0] as int, b[1] as int, b[2] as int);
      assert b[..3][..2] == b[..2] && b[..2][..1] == b[..1] && b[..1][..0] == [];
      assert FromBigEndian(b[..1]) == b0;
      assert FromBigEndian(b[..2]) == b0 * 256 + b1;
      assert FromBigEndian(b[..3]) == (b0 * 256 + b1) * 256 + b2;
      Ok(Parsed((b0 % 16) * 65536 + b1 * 256 + b2, b[3..]))
  }

  /** `s.replace("\u{200E}", "")`: the string without left-to-right marks. */
  function RemoveLrm(s: string): (r: string)
    ensures '\U{200E}' !in r
    ensures '\U{200E}' !in s ==> r == s
    ensures |r| <= |s|
  {
    if |s| == 0 then ""
    else if s[0] == '\U{200E}' then RemoveLrm(s[1..])
    else [s[0]] + RemoveLrm(s[1..])
  }

  /** `serde_json::to_value(Vec<u8>)`: an array of numbers. */
  function BytesToValue(bytes: seq<byte>): (v: Value)
    ensures v.Array? && |v.items| == |bytes|
    ensures forall i :: 0 <= i < |bytes| ==> v.items[i] == Number(bytes[i])
  {
    Array(seq(|bytes|, i requires 0 <= i < |bytes| => Number(bytes[i])))
  }

  /**
    `read_string_until`: `size` bytes as a string. When parsing, valid UTF-8
    loses its left-to-right marks and invalid UTF-8 panics (`unreachable!`);
    otherwise invalid UTF-8 becomes an array of the byte values.
   */
  function ReadStringUntil(b: seq<byte>, size: nat, parse: bool): (r: Result<Parsed<Value>>)
    ensures r.Ok? ==> |r.value.rest| == |b| - size
    ensures |b| >= size && Utf8.Decode(b[..size]).Some? ==>
      r == Ok(Parsed(Text(if parse then RemoveLrm(Utf8.Decode(b[..size]).value) else Utf8.Decode(b[..size]).value), b[size..]))
    ensures |b| >= size && Utf8.Decode(b[..size]).None? ==>
      r == if parse then Err(Panic("internal error: entered unreachable code")) else Ok(Parsed(BytesToValue(b[..size]), b[size..]))
  {
    var data :- ReadBytes(b, size);
    match Utf8.Decode(data.value)
    case Some(s) => Ok(Parsed(Text(if parse then RemoveLrm(s) else s), data.rest))
    case None =>
      if parse then Err(Panic("internal error: entered unreachable code"))
      else Ok(Parsed(BytesToValue(data.value), data.rest))
  }

  /** Two characters per byte, high nibble first, from `table`: the loop of `read_string_mode`. */
  function ReadPairs(table: seq<char>, b: seq<byte>, count: nat): (r: Result<Parsed<string>>)
    requires |table| == 16
    ensures r.Ok? <==> |b| >= count
    ensures r.Ok? ==> |r.value.value| == 2 * count && r.value.rest == b[count..]
    decreases count
  {
    if count == 0 then Ok(Parsed([], b))
    else if |b| == 0 then Err(ReadPastEnd)
    else
      var tail :- ReadPairs(table, b[1..], count - 1);
      Ok(Parsed([table[b[0] / 16], table[b[0] % 16]] + tail.value, tail.rest))
  }

  /** The characters of packed bytes: two per byte, high nibble first, looked up in `table`. */
  function Unpack(table: seq<char>, bytes: seq<byte>): (r: string)
    requires |table| == 16
    ensures |r| == 2 * |bytes|
  {
    seq(2 * |bytes|, i requires 0 <= i < 2 * |bytes| =>
      if i % 2 == 0 then table[bytes[i / 2] / 16] else table[bytes[i / 2] % 16])
  }

  /** The pair loop of `read_string_mode` unpacks the next `count` bytes. */
  lemma {:induction false} ReadPairsUnpack(table: seq<char>, b: seq<byte>, count: nat)
    requires |table| == 16 && |b| >= count
    ensures ReadPairs(table, b, count) == Ok(Parsed(Unpack(table, b[..count]), b[count..]))
    decreases count
  {
    if count > 0 {
      ReadPairsUnpack(table, b[1..], count - 1);
      var head := [table[b[0] / 16], table[b[0] % 16]];
      var tail := Unpack(table, b[1..][..count - 1]);
      var whole := Unpack(table, b[..count]);
      assert b[1..][count - 1..] == b[count..];
      forall i | 0 <= i < 2 * count
        ensures (head + tail)[i] == whole[i]
      {
        if i >= 2 {
          assert b[1..][..count - 1][(i - 2) / 2] == b[..count][i / 2];
        }
      }
      assert head + tail == whole;
    }
  }

  /**
    `read_nibble` and `read_hex_string`. The header byte holds an odd-length
    flag (`start`, bit 7) and the number of packed bytes (`end`). The string
    has capacity 2 * end - start; a capacity of zero (or below) panics on the
    unsigned subtraction. `end - start` bytes give two characters each; with
    the flag set, one more byte gives a last character from its high nibble,
    which `read_nibble` looks up in HEX whatever the packing.
   */
  function ReadPacked(rev: Revision, t: Tables, b: seq<byte>, hex: bool): (r: Result<Parsed<Value>>)
    requires Valid(t)
    ensures r.Ok? ==> |b| >= 1 && r.value.value.Text?
    ensures r.Ok? ==> var h: int := b[0]; var (start, end) := (h / 128, h % 128);
      2 * end - start > 0 && |r.value.value.s| == 2 * end - start && |r.value.rest| == |b| - 1 - end
  {
    var header :- ReadU8(b);
    var h: int := header.value;
    var start := h / 128;
    var end := h % 128;
    var table := if hex then t.hex else t.numbers;
    if 2 * end - start <= 0 then Err(Panic("attempt to subtract with overflow"))
    else
      var pairs :- ReadPairs(table, header.rest, end - start);
      if start == 0 then Ok(Parsed(Text(pairs.value), pairs.rest))
      else
        var last :- ReadU8(pairs.rest);
        var lastTable := if rev == AsWritten || hex then t.hex else t.numbers;
        Ok(Parsed(Text(pairs.value + [lastTable[last.value / 16]]), last.rest))
  }

  /** `read_string_from_token` for a single-byte token: index `tag - 1` of SINGLE_BYTE. */
  function ReadSingleByte(t: Tables, index: nat, rest: seq<byte>): (r: Result<Parsed<Value>>)
    ensures r.Ok? <==> index < |t.singleByte|
    ensures r.Ok? ==> r.value == Parsed(Text(t.singleByte[index]), rest)
  {
    if index < |t.singleByte| then Ok(Parsed(Text(t.singleByte[index]), rest))
    else Err(Panic("index out of bounds"))
  }

  /**
    `read_string_from_token` for a dictionary tag: the next byte indexes the
    quadrant's quarter of DOUBLE_BYTE.
   */
  function ReadDictionary(t: Tables, quadrant: nat, b: seq<byte>): (r: Result<Parsed<Value>>)
    ensures r.Ok? <==> |b| >= 1 && QuarterSize(t) * quadrant + b[0] < |t.doubleByte|
    ensures r.Ok? ==> r.value == Parsed(Text(t.doubleByte[QuarterSize(t) * quadrant + b[0]]), b[1..])
  {
    var i :- ReadU8(b);
    var index := i.value + QuarterSize(t) * quadrant;
    if index < |t.doubleByte| then Ok(Parsed(Text(t.doubleByte[index]), i.rest))
    else Err(Panic("index out of bounds"))
  }

  /** The length prefix of BINARY_THIRTY_TWO: two bytes as written, four when corrected. */
  function ReadLength32(rev: Revision, b: seq<byte>): (r: Result<Parsed<nat>>)
    ensures rev == AsWritten ==> r == ReadU16(b)
    ensures rev == Corrected ==> r == ReadU32(b)
  {
    match rev
    case AsWritten => ReadU16(b)
    case Corrected => ReadU32(b)
  }

  /**
    `read`: one value, by its tag. `parse` is true for descriptions, attribute
    keys and values, and false for content.
   */
  function ReadValue(rev: Revision, t: Tables, b: seq<byte>, parse: bool): (r: Result<Parsed<Value>>)
    requires Valid(t)
    ensures r.Ok? ==> |r.value.rest| < |b|
    ensures |b| >= 1 ==> r == ReadTagged(rev, t, Classify(b[0]), b[1..], parse)
    decreases |b|, 0
  {
    var tag :- ReadU8(b);
    ReadTagged(rev, t, Classify(tag.value), tag.rest, parse)
  }

  /** The body of `read` after its tag byte, by what the tag announces. */
  function ReadTagged(rev: Revision, t: Tables, kind: Kind, rest: seq<byte>, parse: bool): (r: Result<Parsed<Value>>)
    requires Valid(t)
    ensures r.Ok? ==> |r.value.rest| <= |rest|
    ensures kind == ListEmpty ==> r == Ok(Parsed(Null, rest))
    decreases |rest|, 2
  {
    match kind
    case ListEmpty => Ok(Parsed(Null, rest))
    case CompanionJid => ReadCompanionJid(rev, t, rest)
    case ListEight =>
      var size :- ReadU8(rest);
      ReadList(rev, t, size.rest, size.value, [])
    case ListSixteen =>
      var size :- ReadU16(rest);
      ReadList(rev, t, size.rest, size.value, [])
    case JidPair => ReadJidPair(rev, t, rest)
    case HexEight => ReadPacked(rev, t, rest, true)
    case BinaryEight =>
      var size :- ReadU8(rest);
      ReadStringUntil(size.rest, size.value, parse)
    case BinaryTwenty =>
      var size :- ReadCustomLength(rest);
      ReadStringUntil(size.rest, size.value, parse)
    case BinaryThirtyTwo =>
      var size :- ReadLength32(rev, rest);
      ReadStringUntil(size.rest, size.value, parse)
    case NibbleEight => ReadPacked(rev, t, rest, false)
    case Dictionary(quadrant) => ReadDictionary(t, quadrant, rest)
    case SingleByteToken(index) => ReadSingleByte(t, index, rest)
  }

  /** `read_string`: a value read in parse mode that must be a string. */
  function ReadString(rev: Revision, t: Tables, b: seq<byte>): (r: Result<Parsed<string>>)
    requires Valid(t)
    ensures r.Ok? ==> |r.value.rest| < |b|
    ensures r.Ok? <==> ReadValue(rev, t, b, true).Ok? && ReadValue(rev, t, b, true).value.value.Text?
    ensures r.Ok? ==> var v := ReadValue(rev, t, b, true).value;
      r.value == Parsed(v.value.s, v.rest)
    decreases |b|, 1
  {
    var v :- ReadValue(rev, t, b, true);
    if v.value.Text? then Ok(Parsed(v.value.s, v.rest))
    else Err(Bail("not able to read string"))
  }

  /**
    `read_attribute`: `count` key/value pairs, each inserted into the map in
    the order read, so a repeated key keeps its last value.
   */
  function ReadAttributes(rev: Revision, t: Tables, b: seq<byte>, count: nat, acc: map<string, Value>)
    : (r: Result<Parsed<map<string, Value>>>)
    requires Valid(t)
    ensures r.Ok? ==> |r.value.rest| <= |b|
    ensures count == 0 ==> r == Ok(Parsed(acc, b))
    ensures r.Ok? ==> acc.Keys <= r.value.value.Keys
    decreases |b|, 3
  {
    if count == 0 then Ok(Parsed(acc, b))
    else
      var pair :- ReadPair(rev, t, b);
      ReadAttributes(rev, t, pair.rest, count - 1, acc[pair.value.0 := pair.value.1])
  }

  /** One step of `read_attribute`: a key (a string) and its value, read in parse mode. */
  function ReadPair(rev: Revision, t: Tables, b: seq<byte>): (r: Result<Parsed<(string, Value)>>)
    requires Valid(t)
    ensures r.Ok? ==> |r.value.rest| < |b|
    decreases |b|, 2
  {
    var key :- ReadString(rev, t, b);
    var value :- ReadValue(rev, t, key.rest, true);
    Ok(Parsed((key.value, value.value), value.rest))
  }

  /** `read_list`: `count` nodes, each kept in its serde form. */
  function ReadList(rev: Revision, t: Tables, b: seq<byte>, count: nat, acc: seq<Value>): (r: Result<Parsed<Value>>)
    requires Valid(t)
    ensures r.Ok? ==> |r.value.rest| <= |b|
    ensures r.Ok? ==> r.value.value.Array? && |r.value.value.items| == |acc| + count
    decreases |b|, 1
  {
    if count == 0 then Ok(Parsed(Array(acc), b))
    else
      var node :- ReadNode(rev, t, b);
      ReadList(rev, t, node.rest, count - 1, acc + [ToValue(node.value)])
  }

  /**
    `read_jid_pair`: a user (a string, or LIST_EMPTY for none) and a server
    string; an unknown server falls back to the companion server, and the user
    is split by `from_complex`.
   */
  function ReadJidPair(rev: Revision, t: Tables, b: seq<byte>): (r: Result<Parsed<Value>>)
    requires Valid(t)
    ensures r.Ok? ==> |r.value.rest| < |b|
    ensures r.Ok? ==> r.value.value.Object? && "server" in r.value.value.fields
    decreases |b|, 1
  {
    var first :- ReadValue(rev, t, b, true);
    match first.value
    case Text(encoded) => ReadJidServer(rev, t, encoded, first.rest)
    case Null => ReadJidServer(rev, t, "", first.rest)
    case _ => Err(Bail("Could not read jid pair"))
  }

  /** The server string of `read_jid_pair` and the identity `from_complex` makes of the user. */
  function ReadJidServer(rev: Revision, t: Tables, user: string, b: seq<byte>): (r: Result<Parsed<Value>>)
    requires Valid(t)
    ensures r.Ok? ==> |r.value.rest| < |b|
    ensures r.Ok? ==> r.value.value.Object? && "server" in r.value.value.fields
    decreases |b|, 2
  {
    var server :- ReadString(rev, t, b);
    var jid :- FromComplex(user, Of(server.value).GetOr(Whatsapp));
    Ok(Parsed(JidToValue(jid), server.rest))
  }

  /** `read_companion_jid`: agent and device bytes and a user string, on the Whatsapp server. */
  function ReadCompanionJid(rev: Revision, t: Tables, b: seq<byte>): (r: Result<Parsed<Value>>)
    requires Valid(t)
    ensures r.Ok? ==> |r.value.rest| < |b|
    ensures r.Ok? ==> |b| >= 3 && exists user :: r.value.value == JidToValue(FromCompanion(user, b[1], b[0]))
    decreases |b|, 0
  {
    var agent :- ReadU8(b);
    var device :- ReadU8(agent.rest);
    var user :- ReadString(rev, t, device.rest);
    Ok(Parsed(JidToValue(FromCompanion(user.value, device.value, agent.value)), user.rest))
  }

  /**
    `read_node`: a size after a size tag, then the rest of the node. A size of
    zero is an error.
   */
  function ReadNode(rev: Revision, t: Tables, b: seq<byte>): (r: Result<Parsed<Node>>)
    requires Valid(t)
    ensures r.Ok? ==> |r.value.rest| < |b|
    decreases |b|, 0
  {
    var tag :- ReadU8(b);
    var size :- ReadSize(tag.value, tag.rest);
    if size.value == 0 then Err(Bail("No node available"))
    else ReadNodeBody(rev, t, size.value, size.rest)
  }

  /**
    The rest of `read_node`: the description (a failure to read it panics) and
    `(size - 1) / 2` attributes.
   */
  function ReadNodeBody(rev: Revision, t: Tables, size: nat, b: seq<byte>): (r: Result<Parsed<Node>>)
    requires Valid(t) && size > 0
    ensures r.Ok? ==> |r.value.rest| < |b|
    decreases |b|, 4
  {
    var description :- ReadString(rev, t, b).Unwrap();
    var attributes :- ReadAttributes(rev, t, description.rest, (size - 1) / 2, map[]);
    ReadNodeContent(rev, t, size, description.value, attributes.value, attributes.rest)
  }

  /**
    The end of `read_node`: no content when the size is odd, otherwise the
    content read without parsing.
   */
  function ReadNodeContent(rev: Revision, t: Tables, size: nat, description: string, attributes: map<string, Value>, b: seq<byte>)
    : (r: Result<Parsed<Node>>)
    requires Valid(t)
    ensures r.Ok? ==> |r.value.rest| <= |b|
    ensures size % 2 == 1 ==> r == Ok(Parsed(FromAttributes(description, attributes), b))
    ensures r.Ok? ==> (Size(r.value.value) % 2 == 1 <==> r.value.value.content.Null?)
    decreases |b|, 1
  {
    if size % 2 != 0 then Ok(Parsed(FromAttributes(description, attributes), b))
    else
      var content :- ReadValue(rev, t, b, false);
      Ok(Parsed(New(description, attributes, content.value), content.rest))
  }

  /**
    `NodeDecoder::decode`: a flag byte, then a node. When bit 1 of the flag is
    set, the rest of the input is first passed through `deflate`, which stands
    for the `deflate::deflate_bytes` call; bytes after the node are ignored.
   */
  function Decode(rev: Revision, t: Tables, deflate: seq<byte> -> seq<byte>, b: seq<byte>): (r: Result<Node>)
    requires Valid(t)
    ensures |b| == 0 ==> r == Err(ReadPastEnd)
    ensures |b| >= 1 && (b[0] / 2) % 2 == 0 ==> r == (var n :- ReadNode(rev, t, b[1..]); Ok(n.value))
    ensures |b| >= 1 && (b[0] / 2) % 2 == 1 ==> r == (var n :- ReadNode(rev, t, deflate(b[1..])); Ok(n.value))
  {
    var flag :- ReadU8(b);
    var data := if (flag.value / 2) % 2 == 1 then deflate(flag.rest) else flag.rest;
    var node :- ReadNode(rev, t, data);
    Ok(node.value)
  }

  // ---------------------------------------------------------------------
  // `read` for one tag at a time

  lemma ReadBinaryEight(rev: Revision, t: Tables, b: seq<byte>, parse: bool)
    requires Valid(t) && |b| >= 2 && b[0] == BINARY_EIGHT
    ensures ReadValue(rev, t, b, parse) == ReadStringUntil(b[2..], b[1], parse)
  {
    assert Classify(b[0]) == BinaryEight;
  }

  lemma ReadBinaryTwenty(rev: Revision, t: Tables, b: seq<byte>, parse: bool)
    requires Valid(t) && |b| >= 4 && b[0] == BINARY_TWENTY
    ensures ReadValue(rev, t, b, parse) == (var size :- ReadCustomLength(b[1..]); ReadStringUntil(size.rest, size.value, parse))
  {
    assert Classify(b[0]) == BinaryTwenty;
  }

  lemma ReadBinaryThirtyTwo(rev: Revision, t: Tables, b: seq<byte>, parse: bool)
    requires Valid(t) && |b| >= 5 && b[0] == BINARY_THIRTY_TWO && rev == Corrected
    ensures ReadValue(rev, t, b, parse) == ReadStringUntil(b[5..], FromBigEndian(b[1..5]), parse)
  {
    assert Classify(b[0]) == BinaryThirtyTwo;
    assert b[1..][..4] == b[1..5] && b[1..][4..] == b[5..];
  }

  lemma ReadHexTag(rev: Revision, t: Tables, b: seq<byte>, parse: bool)
    requires Valid(t) && |b| >= 1 && b[0] == HEX_EIGHT
    ensures ReadValue(rev, t, b, parse) == ReadPacked(rev, t, b[1..], true)
  {
    assert Classify(b[0]) == HexEight;
  }

  lemma ReadNibbleTag(rev: Revision, t: Tables, b: seq<byte>, parse: bool)
    requires Valid(t) && |b| >= 1 && b[0] == NIBBLE_EIGHT
    ensures ReadValue(rev, t, b, parse) == ReadPacked(rev, t, b[1..], false)
  {
    assert Classify(b[0]) == NibbleEight;
  }

  lemma ReadEmptyTag(rev: Revision, t: Tables, b: seq<byte>, parse: bool)
    requires Valid(t) && |b| >= 1 && b[0] == LIST_EMPTY
    ensures ReadValue(rev, t, b, parse) == Ok(Parsed(Null, b[1..]))
  {
    assert Classify(b[0]) == ListEmpty;
  }

  lemma ReadListTag(rev: Revision, t: Tables, b: seq<byte>, parse: bool)
    requires Valid(t) && |b| >= 1 && (b[0] == LIST_EIGHT || b[0] == LIST_SIXTEEN)
    ensures ReadValue(rev, t, b, parse) == (var size :- ReadSize(b[0], b[1..]); ReadList(rev, t, size.rest, size.value, []))
  {
    if b[0] == LIST_EIGHT {
      assert Classify(b[0]) == ListEight;
    } else {
      assert Classify(b[0]) == ListSixteen;
    }
  }

  /** `read_node` once its size is read. */
  lemma ReadNodeSize(rev: Revision, t: Tables, b: seq<byte>, size: nat, body: seq<byte>)
    requires Valid(t) && |b| >= 1 && size > 0
    requires ReadSize(b[0], b[1..]) == Ok(Parsed(size, body))
    ensures ReadNode(rev, t, b) == ReadNodeBody(rev, t, size, body)
  {
  }

  /** The rest of `read_node` once its description and attributes are read. */
  lemma ReadNodeBodySteps(
    rev: Revision, t: Tables, size: nat, b: seq<byte>,
    description: string, afterDescription: seq<byte>, attributes: map<string, Value>, afterAttributes: seq<byte>)
    requires Valid(t) && size > 0
    requires ReadString(rev, t, b) == Ok(Parsed(description, afterDescription))
    requires ReadAttributes(rev, t, afterDescription, (size - 1) / 2, map[]) == Ok(Parsed(attributes, afterAttributes))
    ensures ReadNodeBody(rev, t, size, b) == ReadNodeContent(rev, t, size, description, attributes, afterAttributes)
  {
  }

  /** `read_node` once its size, description, attributes and content are read. */
  lemma ReadNodeParts(
    rev: Revision, t: Tables, b: seq<byte>, size: nat, body: seq<byte>,
    description: string, afterDescription: seq<byte>, attributes: map<string, Value>, afterAttributes: seq<byte>,
    node: Node, afterNode: seq<byte>)
    requires Valid(t) && |b| >= 1 && size > 0
    requires ReadSize(b[0], b[1..]) == Ok(Parsed(size, body))
    requires ReadString(rev, t, body) == Ok(Parsed(description, afterDescription))
    requires ReadAttributes(rev, t, afterDescription, (size - 1) / 2, map[]) == Ok(Parsed(attributes, afterAttributes))
    requires ReadNodeContent(rev, t, size, description, attributes, afterAttributes) == Ok(Parsed(node, afterNode))
    ensures ReadNode(rev, t, b) == Ok(Parsed(node, afterNode))
  {
    ReadNodeSize(rev, t, b, size, body);
    ReadNodeBodySteps(rev, t, size, body, description, afterDescription, attributes, afterAttributes);
  }

  /** The content of `read_node` when the size is even. */
  lemma ReadNodeContentEven(
    rev: Revision, t: Tables, size: nat, description: string, attributes: map<string, Value>, b: seq<byte>,
    content: Value, afterContent: seq<byte>)
    requires Valid(t) && size % 2 == 0
    requires ReadValue(rev, t, b, false) == Ok(Parsed(content, afterContent))
    ensures ReadNodeContent(rev, t, size, description, attributes, b) == Ok(Parsed(New(description, attributes, content), afterContent))
  {
  }

  /** One key/value pair of `read_attribute`. */
  lemma ReadPairSteps(rev: Revision, t: Tables, b: seq<byte>, key: string, afterKey: seq<byte>, value: Value, afterValue: seq<byte>)
    requires Valid(t)
    requires ReadString(rev, t, b) == Ok(Parsed(key, afterKey))
    requires ReadValue(rev, t, afterKey, true) == Ok(Parsed(value, afterValue))
    ensures ReadPair(rev, t, b) == Ok(Parsed((key, value), afterValue))
  {
  }

  /** One key/value pair of `read_attribute`, once the pair is read. */
  lemma ReadAttributesStep(
    rev: Revision, t: Tables, b: seq<byte>, count: nat, acc: map<string, Value>,
    key: string, value: Value, afterValue: seq<byte>)
    requires Valid(t) && count > 0
    requires ReadPair(rev, t, b) == Ok(Parsed((key, value), afterValue))
    ensures ReadAttributes(rev, t, b, count, acc) == ReadAttributes(rev, t, afterValue, count - 1, acc[key := value])
  {
  }

  /** One node of `read_list`. */
  lemma ReadListStep(rev: Revision, t: Tables, b: seq<byte>, count: nat, acc: seq<Value>, node: Node, afterNode: seq<byte>)
    requires Valid(t) && count > 0
    requires ReadNode(rev, t, b) == Ok(Parsed(node, afterNode))
    ensures ReadList(rev, t, b, count, acc) == ReadList(rev, t, afterNode, count - 1, acc + [ToValue(node)])
  {
  }

  /** COMPANION_JID hands the rest of the input to `read_companion_jid`. */
  lemma ReadCompanionTag(rev: Revision, t: Tables, x: seq<byte>, parse: bool)
    requires Valid(t)
    ensures ReadValue(rev, t, [COMPANION_JID] + x, parse) == ReadCompanionJid(rev, t, x)
  {
    SplitAt([COMPANION_JID], x);
    assert Classify(COMPANION_JID) == CompanionJid;
  }

  /** `read_companion_jid` once the user string after the agent and device bytes is read. */
  lemma ReadCompanionSteps(
    rev: Revision, t: Tables, agent: byte, device: byte, tail: seq<byte>, user: string, afterUser: seq<byte>)
    requires Valid(t)
    requires ReadString(rev, t, tail) == Ok(Parsed(user, afterUser))
    ensures ReadCompanionJid(rev, t, [agent, device] + tail)
         == Ok(Parsed(JidToValue(FromCompanion(user, device, agent)), afterUser))
  {
    assert ([agent, device] + tail)[1..][1..] == tail;
  }

  /** A whole companion identity: tag, agent byte, device byte, then the user string. */
  lemma ReadCompanionBytes(
    rev: Revision, t: Tables, agent: byte, device: byte, u: seq<byte>, parse: bool, user: string, rest: seq<byte>)
    requires Valid(t)
    requires ReadString(rev, t, u + rest) == Ok(Parsed(user, rest))
    ensures ReadValue(rev, t, [COMPANION_JID, agent, device] + u + rest, parse)
         == Ok(Parsed(JidToValue(FromCompanion(user, device, agent)), rest))
  {
    assert [COMPANION_JID, agent, device] == [COMPANION_JID] + [agent, device];
    Assoc3([COMPANION_JID], [agent, device], u, rest);
    ReadCompanionTag(rev, t, [agent, device] + (u + rest), parse);
    ReadCompanionSteps(rev, t, agent, device, u + rest, user, rest);
  }

  /** JID_PAIR hands the rest of the input to `read_jid_pair`. */
  lemma ReadJidPairTag(rev: Revision, t: Tables, x: seq<byte>, parse: bool)
    requires Valid(t)
    ensures ReadValue(rev, t, [JID_PAIR] + x, parse) == ReadJidPair(rev, t, x)
  {
    SplitAt([JID_PAIR], x);
    assert Classify(JID_PAIR) == JidPair;
  }

  /** `read_jid_pair` once its user string is read. */
  lemma ReadJidPairText(rev: Revision, t: Tables, b: seq<byte>, user: string, afterUser: seq<byte>)
    requires Valid(t)
    requires ReadValue(rev, t, b, true) == Ok(Parsed(Text(user), afterUser))
    ensures ReadJidPair(rev, t, b) == ReadJidServer(rev, t, user, afterUser)
  {
  }

  /** The server part of `read_jid_pair` once the server string is read. */
  lemma ReadJidServerSteps(rev: Revision, t: Tables, user: string, b: seq<byte>, server: string, afterServer: seq<byte>)
    requires Valid(t)
    requires ReadString(rev, t, b) == Ok(Parsed(server, afterServer))
    requires FromComplex(user, Of(server).GetOr(Whatsapp)).Ok?
    ensures ReadJidServer(rev, t, user, b)
         == Ok(Parsed(JidToValue(FromComplex(user, Of(server).GetOr(Whatsapp)).value), afterServer))
  {
  }

  /** `read_jid_pair` with no user: the server is read after the LIST_EMPTY tag. */
  lemma ReadJidPairNoUser(rev: Revision, t: Tables, x: seq<byte>)
    requires Valid(t)
    ensures ReadJidPair(rev, t, [LIST_EMPTY] + x) == ReadJidServer(rev, t, "", x)
  {
    SplitAt([LIST_EMPTY], x);
    ReadEmptyTag(rev, t, [LIST_EMPTY] + x, true);
  }

  /** A whole identity pair: the tag, the user string, then the server string. */
  lemma ReadJidPairBytes(
    rev: Revision, t: Tables, u: seq<byte>, sv: seq<byte>, parse: bool, user: string, server: string, rest: seq<byte>)
    requires Valid(t)
    requires ReadValue(rev, t, u + (sv + rest), true) == Ok(Parsed(Text(user), sv + rest))
    requires ReadString(rev, t, sv + rest) == Ok(Parsed(server, rest))
    requires FromComplex(user, Of(server).GetOr(Whatsapp)).Ok?
    ensures ReadValue(rev, t, [JID_PAIR] + u + sv + rest, parse)
         == Ok(Parsed(JidToValue(FromComplex(user, Of(server).GetOr(Whatsapp)).value), rest))
  {
    Assoc3([JID_PAIR], u, sv, rest);
    ReadJidPairTag(rev, t, u + (sv + rest), parse);
    ReadJidPairText(rev, t, u + (sv + rest), user, sv + rest);
    ReadJidServerSteps(rev, t, user, sv + rest, server, rest);
  }

  /** An identity pair with no user: the tag, LIST_EMPTY, then the server string. */
  lemma ReadJidPairNoUserBytes(rev: Revision, t: Tables, sv: seq<byte>, parse: bool, server: string, rest: seq<byte>)
    requires Valid(t)
    requires ReadString(rev, t, sv + rest) == Ok(Parsed(server, rest))
    ensures ReadValue(rev, t, [JID_PAIR, LIST_EMPTY] + sv + rest, parse)
         == Ok(Parsed(JidToValue(FromComplex("", Of(server).GetOr(Whatsapp)).value), rest))
  {
    assert [JID_PAIR, LIST_EMPTY] == [JID_PAIR] + [LIST_EMPTY];
    Assoc3([JID_PAIR], [LIST_EMPTY], sv, rest);
    ReadJidPairTag(rev, t, [LIST_EMPTY] + (sv + rest), parse);
    ReadJidPairNoUser(rev, t, sv + rest);
    ReadJidServerSteps(rev, t, "", sv + rest, server, rest);
  }
}
