/**
  The binary node encoder (whatsapp-util/src/binary/codec/encoder.rs).
  Writing an attribute map follows the map's iteration order, which the model
  leaves unspecified (`Nodes.Keys`), so the functions that write maps are ghost.
 */
module Encoder {
  import opened Errors
  import opened Bytes
  import opened Decimal
  import Utf8
  import opened Tag
  import opened Tokens
  import opened Nodes
  import opened Jid
  import opened Revision

  /** `I32_20_MAX_VALUE`, the largest length written with BINARY_TWENTY. */
  function TwentyBitMax(rev: Revision): nat {
    match rev
    case AsWritten => 1048576
    case Corrected => 1048575
  }

  /**
    `write_i32`: the size of a node or list. One byte below 256, a sixteen-bit
    size below 65536 (as written, only its low byte follows the tag), and an
    error beyond.
   */
  function WriteSize(rev: Revision, size: nat): (r: Result<seq<byte>>)
    ensures r.Ok? <==> size < U16_LIMIT
    ensures size < 256 ==> r == Ok([LIST_EIGHT, size])
    ensures r.Ok? && size >= 256 ==> |r.value| >= 2 && r.value[0] == LIST_SIXTEEN
    ensures r.Ok? && size >= 256 && rev == Corrected ==> r.value == [LIST_SIXTEEN] + BigEndian(size, 2)
    ensures r.Ok? && size >= 256 && rev == AsWritten ==> r.value == [LIST_SIXTEEN, size % 256]
  {
    if size < 256 then Ok([LIST_EIGHT, size])
    else if size < U16_LIMIT then
      match rev
      case AsWritten => Ok([LIST_SIXTEEN, size % 256])
      case Corrected => Ok([LIST_SIXTEEN] + BigEndian(size, 2))
    else Err(Bail("Node is unexpectedly too large"))
  }

  /**
    `write_i64`: the length prefix of a byte string. BINARY_EIGHT with one byte
    below 256, BINARY_TWENTY with three bytes up to `I32_20_MAX_VALUE`, and
    BINARY_THIRTY_TWO beyond: as written with the length truncated to one byte,
    corrected with four bytes (and an error past 2^32 - 1).
   */
  function WriteLength(rev: Revision, length: nat): (r: Result<seq<byte>>)
    ensures rev == AsWritten ==> r.Ok?
    ensures r.Ok? ==> |r.value| >= 2
    ensures length < 256 ==> r == Ok([BINARY_EIGHT, length])
    ensures 256 <= length <= TwentyBitMax(rev) ==> r == Ok([BINARY_TWENTY] + BigEndian(length, 3))
    ensures length > TwentyBitMax(rev) && r.Ok? ==> r.value[0] == BINARY_THIRTY_TWO
    ensures rev == Corrected && length > TwentyBitMax(rev) ==>
      (r.Ok? <==> length < U32_LIMIT) && (r.Ok? ==> r.value[1..] == BigEndian(length, 4))
  {
    if length < 256 then Ok([BINARY_EIGHT, length])
    else if length <= TwentyBitMax(rev) then
      BigEndian3(length);
      assert [BINARY_TWENTY] + BigEndian(length, 3) == [BINARY_TWENTY, (length / 65536) % 256, (length / 256) % 256, length % 256];
      Ok([BINARY_TWENTY, (length / 65536) % 256, (length / 256) % 256, length % 256])
    else
      match rev
      case AsWritten => Ok([BINARY_THIRTY_TWO, length % 256])
      case Corrected =>
        if length < U32_LIMIT then Ok([BINARY_THIRTY_TWO] + BigEndian(length, 4))
        else Err(Bail("String is unexpectedly too large"))
  }

  /** Characters the `[^0-9.-]` test lets through, packed with NIBBLE_EIGHT. */
  predicate IsNibbleChar(c: char) {
    '0' <= c <= '9' || c == '-' || c == '.'
  }

  /** Characters the `[^0-9A-F]` test lets through, packed with HEX_EIGHT. */
  predicate IsHexChar(c: char) {
    '0' <= c <= '9' || 'A' <= c <= 'F'
  }

  predicate AllNibble(s: string) {
    forall i :: 0 <= i < |s| ==> IsNibbleChar(s[i])
  }

  predicate AllHex(s: string) {
    forall i :: 0 <= i < |s| ==> IsHexChar(s[i])
  }

  /** `string_code_point`: the four-bit code of a character under a packing tag. */
  function CodePoint(token: byte, c: char): (r: Result<nat>)
    ensures r.Ok? ==> r.value < 16
    ensures r.Ok? <==> (token == NIBBLE_EIGHT && IsNibbleChar(c)) || (token != NIBBLE_EIGHT && '0' <= c <= '9')
                       || (token == HEX_EIGHT && IsHexChar(c))
  {
    if token == NIBBLE_EIGHT && (c == '-' || c == '.') then Ok(10 + c as int - 45)
    else if token == HEX_EIGHT && 'A' <= c <= 'F' then Ok(c as int - 55)
    else if '0' <= c <= '9' then Ok(c as int - 48)
    else Err(Bail("Invalid codepoint"))
  }

  /**
    `write_string_length`: the number of packed bytes, ceil(n / 2), with the
    high bit set when the string has an odd length.
   */
  function PackedHeader(n: nat): (h: byte)
    requires n < 128
    ensures h % 128 == (n + 1) / 2
    ensures h / 128 == n % 2
  {
    if n % 2 == 1 then (n + 1) / 2 + 128 else n / 2
  }

  /**
    The loop of `write_string_token`: two codes per byte, high nibble first; a
    final odd character is padded with 15.
   */
  function Pack(token: byte, s: string): (r: Result<seq<byte>>)
    ensures r.Ok? ==> |r.value| == (|s| + 1) / 2
    ensures (token == NIBBLE_EIGHT && AllNibble(s)) || (token == HEX_EIGHT && AllHex(s)) ==> r.Ok?
    decreases |s|
  {
    if |s| == 0 then Ok([])
    else
      var high :- CodePoint(token, s[0]);
      if |s| == 1 then Ok([high * 16 + 15])
      else
        var low :- CodePoint(token, s[1]);
        var tail :- Pack(token, s[2..]);
        Ok([high * 16 + low] + tail)
  }

  /** `write_string_token`: the packing tag, the header, then the packed codes. */
  function WriteStringToken(s: string, token: byte): (r: Result<seq<byte>>)
    requires |s| < 128
    ensures r.Ok? ==> |r.value| == 2 + (|s| + 1) / 2 && r.value[..2] == [token, PackedHeader(|s|)]
    ensures (token == NIBBLE_EIGHT && AllNibble(s)) || (token == HEX_EIGHT && AllHex(s)) ==> r.Ok?
  {
    var packed :- Pack(token, s);
    Ok([token, PackedHeader(|s|)] + packed)
  }

  /**
    `write_string`. The forms, tried in order: the empty string; a single-byte
    token; a word-dictionary token (dictionary tag and index in its quarter);
    a short string of [0-9.-] packed as nibbles; a short string of [0-9A-F]
    packed as hex; otherwise the UTF-8 bytes behind a length prefix.
   */
  function WriteString(rev: Revision, t: Tables, s: string): (r: Result<seq<byte>>)
    requires Valid(t)
    ensures rev == AsWritten ==> r.Ok?
    ensures r.Ok? ==> |r.value| >= 1
    ensures s == "" ==> r == Ok([BINARY_EIGHT, LIST_EMPTY])
    ensures s != "" && s in t.singleByte ==> r == Ok([IndexOf(t.singleByte, s) + 1])
    ensures s != "" && s !in t.singleByte && s in t.doubleByte ==> r == Ok(WriteDictionary(t, s))
  {
    if s == "" then Ok([BINARY_EIGHT, LIST_EMPTY])
    else if s in t.singleByte then Ok([IndexOf(t.singleByte, s) + 1])
    else if s in t.doubleByte then Ok(WriteDictionary(t, s))
    else WritePackedOrRaw(rev, s)
  }

  /** `write_double_byte_string`: the dictionary tag of the word's quarter and its index there. */
  function WriteDictionary(t: Tables, s: string): (r: seq<byte>)
    requires Valid(t) && s in t.doubleByte
    ensures |r| == 2 && Classify(r[0]).Dictionary? && r[1] < QuarterSize(t)
    ensures QuarterSize(t) * Classify(r[0]).quadrant + r[1] == IndexOf(t.doubleByte, s)
  {
    var i := IndexOf(t.doubleByte, s);
    var q := QuarterSize(t);
    Quarters(t);
    QuarterOf(i, q);
    var quadrant, index := i / q, i % q;
    [DictionaryTag(quadrant), index]
  }

  /** An index into a table of four quarters lies in quarter 0..3, at a position below the quarter size. */
  lemma QuarterOf(i: nat, q: nat)
    requires 0 < q && i < 4 * q
    ensures 0 <= i / q < 4 && 0 <= i % q < q
    ensures i == q * (i / q) + i % q
  {
    var d := i / q;
    assert q * d <= i;
    MulMonotone(q, d);
  }

  lemma MulMonotone(q: nat, d: nat)
    ensures d >= 4 ==> q * d >= q * 4
  {
  }

  /** The last forms of `write_string`: packed nibbles, packed hex, or raw UTF-8. */
  function WritePackedOrRaw(rev: Revision, s: string): (r: Result<seq<byte>>)
    ensures rev == AsWritten ==> r.Ok?
    ensures r.Ok? ==> |r.value| >= 2
    ensures |Utf8.Encode(s)| < 128 && AllNibble(s) ==> r == WriteStringToken(s, NIBBLE_EIGHT)
    ensures |Utf8.Encode(s)| < 128 && !AllNibble(s) && AllHex(s) ==> r == WriteStringToken(s, HEX_EIGHT)
    ensures !(|Utf8.Encode(s)| < 128 && (AllNibble(s) || AllHex(s))) ==>
      r == WriteBytes(rev, Utf8.Encode(s))
  {
    var bytes := Utf8.Encode(s);
    if |bytes| < 128 && AllNibble(s) then WriteStringToken(s, NIBBLE_EIGHT)
    else if |bytes| < 128 && AllHex(s) then WriteStringToken(s, HEX_EIGHT)
    else WriteBytes(rev, bytes)
  }

  /** `write_bytes`: a length prefix and the bytes themselves. */
  function WriteBytes(rev: Revision, bytes: seq<byte>): (r: Result<seq<byte>>)
    ensures rev == AsWritten ==> r.Ok?
    ensures r.Ok? ==> |r.value| >= |bytes| + 2 && r.value[|r.value| - |bytes|..] == bytes
  {
    var prefix :- WriteLength(rev, |bytes|);
    Ok(prefix + bytes)
  }

  /**
    `write_jid` (never called by the encoder itself). A companion writes its
    agent and device as single bytes then its user; any other identity writes
    JID_PAIR, the user (or LIST_EMPTY when it is empty), then the server address.
   */
  function WriteJid(rev: Revision, t: Tables, j: ContactJid): (r: Result<seq<byte>>)
    requires Valid(t)
    ensures r.Ok? ==> |r.value| >= 2
    ensures IsCompanion(j) && r.Ok? ==> |r.value| >= 4 && r.value[..3] == [COMPANION_JID, j.agent % 256, j.device % 256]
    ensures !IsCompanion(j) && r.Ok? ==> r.value[0] == JID_PAIR
    ensures !IsCompanion(j) && j.user == "" && r.Ok? ==> r.value[1] == LIST_EMPTY
  {
    if IsCompanion(j) then
      var user :- WriteString(rev, t, j.user);
      Ok([COMPANION_JID, j.agent % 256, j.device % 256] + user)
    else if j.user != "" then
      var user :- WriteString(rev, t, j.user);
      var server :- WriteString(rev, t, Address(j.server));
      Ok([JID_PAIR] + user + server)
    else
      var server :- WriteString(rev, t, Address(j.server));
      Ok([JID_PAIR, LIST_EMPTY] + server)
  }

  predicate IsNumber(v: Value) {
    v.Number?
  }

  /**
    `serde_json::from_value::<Vec<u8>>` on an array of numbers: every number must
    fit in a byte.
   */
  function ToByteVector(items: seq<Value>): (r: Result<seq<byte>>)
    requires forall i :: 0 <= i < |items| ==> items[i].Number?
    ensures r.Ok? <==> forall i :: 0 <= i < |items| ==> 0 <= items[i].n < 256
    ensures r.Ok? ==> |r.value| == |items| && forall i :: 0 <= i < |items| ==> r.value[i] == items[i].n
  {
    if forall i :: 0 <= i < |items| ==> 0 <= items[i].n < 256 then Ok(seq(|items|, i requires 0 <= i < |items| => items[i].n))
    else Err(SerdeError)
  }

  /** Every element of the array deserialises as a node. */
  predicate AllNodes(items: seq<Value>) {
    forall i :: 0 <= i < |items| ==> FromValue(items[i]).Ok?
  }

  /**
    `write`: one value. Null is LIST_EMPTY; booleans, numbers and strings are
    written as strings; an array of numbers as bytes, any other array as a list
    of nodes; an object's fields are written inline, key then value. The whole
    array is deserialised as nodes before the list's size is written, so an
    element that is not a node fails the write before any of it.
   */
  ghost function WriteValue(rev: Revision, t: Tables, v: Value): (r: Result<seq<byte>>)
    requires Valid(t)
    ensures v.Null? ==> r == Ok([LIST_EMPTY])
    ensures v.Bool? ==> r == WriteString(rev, t, if v.b then "true" else "false")
    ensures v.Number? ==> r == WriteString(rev, t, IntToString(v.n))
    ensures v.Text? ==> r == WriteString(rev, t, v.s)
    ensures (v.Array? && (forall i :: 0 <= i < |v.items| ==> IsNumber(v.items[i]))
             && (exists i :: 0 <= i < |v.items| && !(0 <= v.items[i].n < 256))) ==> r == Err(SerdeError)
    ensures (v.Array? && forall i :: 0 <= i < |v.items| ==> IsNumber(v.items[i]) && 0 <= v.items[i].n < 256)
            ==> r == WriteBytes(rev, ToByteVector(v.items).value)
    ensures v.Object? ==> r == WriteFields(rev, t, v.fields, Keys(v.fields), 0)
    ensures (v.Array? && (exists i :: 0 <= i < |v.items| && !IsNumber(v.items[i]))
             && (exists i :: 0 <= i < |v.items| && FromValue(v.items[i]).Err?)) ==> r == Err(SerdeError)
    decreases v, 2, 0
  {
    match v
    case Null => Ok([LIST_EMPTY])
    case Bool(b) => WriteString(rev, t, if b then "true" else "false")
    case Number(n) => WriteString(rev, t, IntToString(n))
    case Text(s) => WriteString(rev, t, s)
    case Array(items) =>
      if forall i :: 0 <= i < |items| ==> IsNumber(items[i]) then
        var bytes :- ToByteVector(items);
        WriteBytes(rev, bytes)
      else if !AllNodes(items) then Err(SerdeError)
      else
        var size :- WriteSize(rev, |items|);
        var nodes :- WriteListFrom(rev, t, items, 0);
        Ok(size + nodes)
    case Object(fields) =>
      WriteFields(rev, t, fields, Keys(fields), 0)
  }

  /** `write_attributes`: each key (as a string) then its value, in the given key order. */
  ghost function WriteFields(rev: Revision, t: Tables, m: map<string, Value>, keys: seq<string>, i: nat): (r: Result<seq<byte>>)
    requires Valid(t)
    requires i <= |keys| && forall k :: k in keys ==> k in m
    ensures i == |keys| ==> r == Ok([])
    decreases Object(m), 1, |keys| - i
  {
    if i == |keys| then Ok([])
    else
      var field :- WriteField(rev, t, keys[i], m[keys[i]]);
      var tail :- WriteFields(rev, t, m, keys, i + 1);
      Ok(field + tail)
  }

  /** One step of `write_attributes`: the key as a string, then its value. */
  ghost function WriteField(rev: Revision, t: Tables, key: string, value: Value): (r: Result<seq<byte>>)
    requires Valid(t)
    decreases value, 3
  {
    var k :- WriteString(rev, t, key);
    var v :- WriteValue(rev, t, value);
    Ok(k + v)
  }

  /**
    The elements of `write_list` from position `i` on. Each must deserialise as
    a node, in object or array form, and is then written as a node of its own.
   */
  ghost function WriteListFrom(rev: Revision, t: Tables, items: seq<Value>, i: nat): (r: Result<seq<byte>>)
    requires Valid(t)
    requires i <= |items|
    ensures i == |items| ==> r == Ok([])
    ensures r.Ok? ==> forall j :: i <= j < |items| ==> FromValue(items[j]).Ok?
    decreases Array(items), 1, |items| - i
  {
    if i == |items| then Ok([])
    else if items[i].Object? && IsNodeObject(items[i].fields) then
      var node :- WriteNodeObject(rev, t, items[i].fields);
      var tail :- WriteListFrom(rev, t, items, i + 1);
      Ok(node + tail)
    else if items[i].Array? && IsNodeArray(items[i].items) then
      var node :- WriteNodeArray(rev, t, items[i].items);
      var tail :- WriteListFrom(rev, t, items, i + 1);
      Ok(node + tail)
    else Err(SerdeError)
  }

  /**
    `write_node` for a node in its serde form. A node described "0" is written
    as an empty list. Otherwise: the size, the description, the attributes and,
    when there is content, the content; content that is an object is written as
    a list holding that one node.
   */
  ghost function WriteNodeObject(rev: Revision, t: Tables, f: map<string, Value>): (r: Result<seq<byte>>)
    requires Valid(t) && IsNodeObject(f)
    ensures f["description"].s == "0" ==> r == Ok([LIST_EIGHT, LIST_EMPTY])
    ensures r.Ok? ==> |r.value| >= 2 && r.value[0] in {LIST_EIGHT, LIST_SIXTEEN}
    ensures r.Ok? && f["description"].s != "0" ==> Size(FromValue(Object(f)).value) < U16_LIMIT
    decreases Object(f), 2, 0
  {
    var n := FromValue(Object(f)).value;
    if n.description == "0" then Ok([LIST_EIGHT, LIST_EMPTY])
    else
      var size :- WriteSize(rev, Size(n));
      var description :- WriteString(rev, t, n.description);
      assert Object(n.attributes) == f["attributes"];
      var attributes :- WriteFields(rev, t, n.attributes, Keys(n.attributes), 0);
      var content :- WriteContent(rev, t, f);
      Ok(size + description + attributes + content)
  }

  /**
    `write_node` for a node given as the array of its three fields: the same
    steps as `WriteNodeObject`, on the node that array deserialises to.
   */
  ghost function WriteNodeArray(rev: Revision, t: Tables, parts: seq<Value>): (r: Result<seq<byte>>)
    requires Valid(t) && IsNodeArray(parts)
    ensures parts[0].s == "0" ==> r == Ok([LIST_EIGHT, LIST_EMPTY])
    ensures r.Ok? ==> |r.value| >= 2 && r.value[0] in {LIST_EIGHT, LIST_SIXTEEN}
    decreases Array(parts), 2, 0
  {
    var n := FromValue(Array(parts)).value;
    if n.description == "0" then Ok([LIST_EIGHT, LIST_EMPTY])
    else
      var size :- WriteSize(rev, Size(n));
      var description :- WriteString(rev, t, n.description);
      assert Object(n.attributes) == parts[1];
      var attributes :- WriteFields(rev, t, n.attributes, Keys(n.attributes), 0);
      var content :- WriteContentOf(rev, t, parts[2]);
      Ok(size + description + attributes + content)
  }

  /** The content part of `write_node`, for the node object `f`. */
  ghost function WriteContent(rev: Revision, t: Tables, f: map<string, Value>): (r: Result<seq<byte>>)
    requires Valid(t) && IsNodeObject(f)
    ensures f["content"].Null? ==> r == Ok([])
    ensures !f["content"].Null? && !f["content"].Object? ==> r == WriteValue(rev, t, f["content"])
    decreases Object(f), 1, 0
  {
    WriteContentOf(rev, t, f["content"])
  }

  /**
    The content part of `write_node`: nothing for null; an object is wrapped in
    a one-element array and so written as a list holding that one node; any
    other content goes through `write`.
   */
  ghost function WriteContentOf(rev: Revision, t: Tables, content: Value): (r: Result<seq<byte>>)
    requires Valid(t)
    ensures content.Null? ==> r == Ok([])
    ensures content.Object? && !IsNodeObject(content.fields) ==> r == Err(SerdeError)
    ensures !content.Null? && !content.Object? ==> r == WriteValue(rev, t, content)
    decreases content, 3
  {
    match content
    case Null => Ok([])
    case Object(inner) =>
      if !IsNodeObject(inner) then Err(SerdeError)
      else
        var size :- WriteSize(rev, 1);
        var node :- WriteNodeObject(rev, t, inner);
        Ok(size + node)
    case _ => WriteValue(rev, t, content)
  }

  /** `write_node` for a node. */
  ghost function WriteNode(rev: Revision, t: Tables, n: Node): (r: Result<seq<byte>>)
    requires Valid(t)
    ensures n.description == "0" ==> r == Ok([LIST_EIGHT, LIST_EMPTY])
    ensures r.Ok? && n.description != "0" ==> Size(n) < U16_LIMIT
  {
    FromToValue(n);
    WriteNodeObject(rev, t, ToValue(n).fields)
  }

  /** `NodeEncoder::encode`: a zero flag byte (uncompressed) and then the node. */
  ghost function Encode(rev: Revision, t: Tables, n: Node): (r: Result<seq<byte>>)
    requires Valid(t)
    ensures r.Ok? <==> WriteNode(rev, t, n).Ok?
    ensures r.Ok? ==> r.value == [0] + WriteNode(rev, t, n).value
  {
    var node :- WriteNode(rev, t, n);
    Ok([0] + node)
  }

  /** An array that is not all numbers is written as a list: its size, then its nodes. */
  lemma WriteNodeList(rev: Revision, t: Tables, items: seq<Value>)
    requires Valid(t) && |items| > 0 && !IsNumber(items[0]) && AllNodes(items)
    ensures WriteValue(rev, t, Array(items))
         == (var size :- WriteSize(rev, |items|); var nodes :- WriteListFrom(rev, t, items, 0); Ok(size + nodes))
  {
  }

  /** One key and its value of `write_attributes`. */
  lemma WriteFieldsStep(rev: Revision, t: Tables, m: map<string, Value>, keys: seq<string>, i: nat)
    requires Valid(t) && i < |keys| && forall k :: k in keys ==> k in m
    requires WriteField(rev, t, keys[i], m[keys[i]]).Ok? && WriteFields(rev, t, m, keys, i + 1).Ok?
    ensures WriteFields(rev, t, m, keys, i)
         == Ok(WriteField(rev, t, keys[i], m[keys[i]]).value + WriteFields(rev, t, m, keys, i + 1).value)
  {
  }

  /** `write_node` for a node that is not the "0" placeholder, once its parts are written. */
  lemma WriteNodeObjectSteps(
    rev: Revision, t: Tables, f: map<string, Value>,
    sizeBytes: seq<byte>, descriptionBytes: seq<byte>, attributeBytes: seq<byte>, contentBytes: seq<byte>)
    requires Valid(t) && IsNodeObject(f) && f["description"].s != "0"
    requires WriteSize(rev, Size(FromValue(Object(f)).value)) == Ok(sizeBytes)
    requires WriteString(rev, t, f["description"].s) == Ok(descriptionBytes)
    requires WriteFields(rev, t, f["attributes"].fields, Keys(f["attributes"].fields), 0) == Ok(attributeBytes)
    requires WriteContent(rev, t, f) == Ok(contentBytes)
    ensures WriteNodeObject(rev, t, f) == Ok(sizeBytes + descriptionBytes + attributeBytes + contentBytes)
  {
    var n := FromValue(Object(f)).value;
    assert n.description == f["description"].s && Object(n.attributes) == f["attributes"];
  }

  /** `write_node`'s content when it is itself a node object: a list holding that one node. */
  lemma WriteContentObject(rev: Revision, t: Tables, f: map<string, Value>, inner: map<string, Value>)
    requires Valid(t) && IsNodeObject(f) && f["content"] == Object(inner) && IsNodeObject(inner)
    requires WriteSize(rev, 1).Ok? && WriteNodeObject(rev, t, inner).Ok?
    ensures WriteContent(rev, t, f) == Ok(WriteSize(rev, 1).value + WriteNodeObject(rev, t, inner).value)
  {
  }

  /** A node in array form is written exactly as the node object it deserialises to. */
  lemma WriteArrayAsObject(rev: Revision, t: Tables, parts: seq<Value>)
    requires Valid(t) && IsNodeArray(parts)
    ensures WriteNodeArray(rev, t, parts) == WriteNodeObject(rev, t, ToValue(FromValue(Array(parts)).value).fields)
  {
    ArrayFormFields(parts);
    var f := map["description" := parts[0], "attributes" := parts[1], "content" := parts[2]];
    if parts[0].s != "0" {
      WriteArrayParts(rev, t, parts, f);
    }
  }

  /** `WriteArrayAsObject` for a node that is not the "0" placeholder: the two writers take the same steps. */
  lemma WriteArrayParts(rev: Revision, t: Tables, parts: seq<Value>, f: map<string, Value>)
    requires Valid(t) && IsNodeArray(parts) && parts[0].s != "0"
    requires f == map["description" := parts[0], "attributes" := parts[1], "content" := parts[2]]
    requires FromValue(Object(f)) == FromValue(Array(parts))
    ensures IsNodeObject(f) && WriteNodeArray(rev, t, parts) == WriteNodeObject(rev, t, f)
  {
    var n := FromValue(Array(parts)).value;
    var attributes := WriteFields(rev, t, n.attributes, Keys(n.attributes), 0);
    ArraySteps(rev, t, parts);
    ObjectSteps(rev, t, f);
    assert WriteContent(rev, t, f) == WriteContentOf(rev, t, parts[2]);
  }

  /** The steps of `write_node` after the "0" check, given the outcomes of writing the attributes and the content. */
  ghost function NodeSteps(rev: Revision, t: Tables, n: Node, attributes: Result<seq<byte>>, content: Result<seq<byte>>)
    : Result<seq<byte>>
    requires Valid(t)
  {
    var size :- WriteSize(rev, Size(n));
    var description :- WriteString(rev, t, n.description);
    var fields :- attributes;
    var bytes :- content;
    Ok(size + description + fields + bytes)
  }

  lemma {:induction false} ArraySteps(rev: Revision, t: Tables, parts: seq<Value>)
    requires Valid(t) && IsNodeArray(parts) && parts[0].s != "0"
    ensures WriteNodeArray(rev, t, parts)
         == NodeSteps(rev, t, FromValue(Array(parts)).value,
                      WriteFields(rev, t, parts[1].fields, Keys(parts[1].fields), 0), WriteContentOf(rev, t, parts[2]))
  {
    var n := FromValue(Array(parts)).value;
    assert n == Node(parts[0].s, parts[1].fields, parts[2]);
  }

  lemma {:induction false} ObjectSteps(rev: Revision, t: Tables, f: map<string, Value>)
    requires Valid(t) && IsNodeObject(f) && f["description"].s != "0"
    ensures WriteNodeObject(rev, t, f)
         == NodeSteps(rev, t, FromValue(Object(f)).value,
                      WriteFields(rev, t, f["attributes"].fields, Keys(f["attributes"].fields), 0), WriteContent(rev, t, f))
  {
    var n := FromValue(Object(f)).value;
    assert n == Node(f["description"].s, f["attributes"].fields, f["content"]);
  }

  /** One node of `write_list`. */
  lemma WriteListStep(rev: Revision, t: Tables, items: seq<Value>, i: nat)
    requires Valid(t) && i < |items| && items[i].Object? && IsNodeObject(items[i].fields)
    requires WriteNodeObject(rev, t, items[i].fields).Ok? && WriteListFrom(rev, t, items, i + 1).Ok?
    ensures WriteListFrom(rev, t, items, i)
         == Ok(WriteNodeObject(rev, t, items[i].fields).value + WriteListFrom(rev, t, items, i + 1).value)
  {
  }
}
