/**
  Round trip of whole nodes for the corrected revision: decoding what the
  encoder writes gives the node back, for every node in the canonical domain
  below. Outside that domain the codec is lossy by design (booleans and numbers
  come back as strings, object content comes back as a one-node list, and so
  on), and `ObjectContentBecomesList`, `NumberContentBecomesText` and
  `BoolContentBecomesText` state three of those losses.
 */
module CodecNodes {
  import opened Wrappers
  import opened Errors
  import opened Bytes
  import Utf8
  import opened Tag
  import opened Tokens
  import opened Nodes
  import opened Revision
  import opened Encoder
  import opened Decoder
  import opened CodecStrings
  import opened Seqs
  import Decimal

  // ---------------------------------------------------------------------
  // The canonical domain

  /** A string read in parse mode (a description, a key, an attribute value). */
  predicate ParsedString(s: string) {
    Fits(s) && NoLrm(s)
  }

  /** Numbers that all fit in a byte: what `write` sends as a byte string. */
  predicate ByteItems(items: seq<Value>) {
    forall i :: 0 <= i < |items| ==> items[i].Number? && 0 <= items[i].n < 256
  }

  /** The bytes of an array of byte-sized numbers. */
  function ItemBytes(items: seq<Value>): (r: seq<byte>)
    requires ByteItems(items)
    ensures |r| == |items| && forall i :: 0 <= i < |items| ==> r[i] == items[i].n
  {
    seq(|items|, i requires 0 <= i < |items| => items[i].n)
  }

  /**
    A value in attribute position: null, a string, or a nonempty list of nodes
    in their serde form.
   */
  predicate CanonicalAttribute(v: Value)
    decreases v, 2
  {
    match v
    case Null => true
    case Text(s) => ParsedString(s)
    case Array(items) => CanonicalList(items)
    case _ => false
  }

  /** A nonempty list of nodes, short enough for a LIST_SIXTEEN size. */
  predicate CanonicalList(items: seq<Value>)
    decreases Array(items), 1
  {
    && 0 < |items| < U16_LIMIT
    && forall i :: 0 <= i < |items| ==> items[i].Object? && CanonicalFields(items[i].fields)
  }

  /** Every key a parsed string and every value canonical in attribute position. */
  predicate CanonicalAttributes(m: map<string, Value>)
    decreases Object(m), 1
  {
    forall k :: k in m ==> ParsedString(k) && CanonicalAttribute(m[k])
  }

  /**
    A value in content position: null, any string, bytes that are not UTF-8
    (valid UTF-8 would come back as a string), or a nonempty list of nodes.
   */
  predicate CanonicalContent(v: Value)
    decreases v, 2
  {
    match v
    case Null => true
    case Text(s) => Fits(s)
    case Array(items) =>
      if ByteItems(items) then |items| < U32_LIMIT && Utf8.Decode(ItemBytes(items)).None?
      else CanonicalList(items)
    case _ => false
  }

  /**
    A node in its serde form, with exactly its three fields: the description is
    a parsed string other than "0" (which `write_node` sends as an empty list),
    the size fits in sixteen bits, and attributes and content are canonical.
   */
  predicate CanonicalFields(f: map<string, Value>)
    decreases Object(f), 2
  {
    && f.Keys == {"description", "attributes", "content"}
    && f["description"].Text? && f["attributes"].Object?
    && ParsedString(f["description"].s) && f["description"].s != "0"
    && 2 * |f["attributes"].fields| + 2 < U16_LIMIT
    && CanonicalAttributes(f["attributes"].fields)
    && CanonicalContent(f["content"])
  }

  /** A node in the canonical domain. */
  predicate Canonical(n: Node) {
    CanonicalFields(ToValue(n).fields)
  }

  /** A canonical node object is exactly the serde form of the node it deserialises to. */
  lemma CanonicalFieldsForm(f: map<string, Value>)
    requires CanonicalFields(f)
    ensures FromValue(Object(f)).Ok?
    ensures ToValue(FromValue(Object(f)).value) == Object(f)
    ensures Size(FromValue(Object(f)).value) < U16_LIMIT
  {
    NodeObjectIsSerdeForm(f);
  }

  // ---------------------------------------------------------------------
  // Pieces

  /** A size written by `write_list_start` is read back by `read_size` after its tag. */
  lemma SizeRoundTrip(k: nat, body: seq<byte>)
    requires k < U16_LIMIT
    ensures WriteSize(Corrected, k).Ok?
    ensures var w := WriteSize(Corrected, k).value + body;
      |w| >= 1 && (w[0] == LIST_EIGHT || w[0] == LIST_SIXTEEN) && ReadSize(w[0], w[1..]) == Ok(Parsed(k, body))
  {
    var w := WriteSize(Corrected, k).value + body;
    if k < 256 {
      assert w[1..] == [k as byte] + body;
    } else {
      BigEndianRoundTrip(k, 2);
      assert w[1..] == BigEndian(k, 2) + body;
      assert w[1..][..2] == BigEndian(k, 2) && w[1..][2..] == body;
    }
  }

  /** A list written by `write` (its size, then its nodes) is read as a list of `k` nodes. */
  lemma ListHeader(t: Tables, k: nat, nodes: seq<byte>, parse: bool)
    requires Valid(t) && k < U16_LIMIT
    ensures WriteSize(Corrected, k).Ok?
    ensures ReadValue(Corrected, t, WriteSize(Corrected, k).value + nodes, parse) == ReadList(Corrected, t, nodes, k, [])
  {
    SizeRoundTrip(k, nodes);
    ReadListTag(Corrected, t, WriteSize(Corrected, k).value + nodes, parse);
  }

  /** The bytes of a byte array come back as the same array of numbers. */
  lemma ItemBytesRoundTrip(items: seq<Value>)
    requires ByteItems(items)
    ensures BytesToValue(ItemBytes(items)) == Array(items)
    ensures ToByteVector(items) == Ok(ItemBytes(items))
  {
    assert BytesToValue(ItemBytes(items)).items == items;
  }

  // ---------------------------------------------------------------------
  // The round trip, one writer at a time

  /** `read` in parse mode gives back a canonical attribute value that `write` wrote. */
  lemma {:induction false} AttributeRoundTrip(t: Tables, v: Value, rest: seq<byte>)
    requires Valid(t) && StandardPacking(t) && CanonicalAttribute(v)
    ensures WriteValue(Corrected, t, v).Ok?
    ensures ReadValue(Corrected, t, WriteValue(Corrected, t, v).value + rest, true) == Ok(Parsed(v, rest))
    decreases v, 2, 0
  {
    match v
    case Null =>
      ReadEmptyTag(Corrected, t, WriteValue(Corrected, t, v).value + rest, true);
      assert (WriteValue(Corrected, t, v).value + rest)[1..] == rest;
    case Text(s) =>
      StringRoundTrip(t, s, true, rest);
    case Array(items) =>
      ListRoundTrip(t, items, true, rest);
  }

  /** A nonempty list of canonical nodes comes back from `write`, in either mode. */
  lemma {:induction false} ListRoundTrip(t: Tables, items: seq<Value>, parse: bool, rest: seq<byte>)
    requires Valid(t) && StandardPacking(t) && CanonicalList(items)
    ensures WriteValue(Corrected, t, Array(items)).Ok?
    ensures ReadValue(Corrected, t, WriteValue(Corrected, t, Array(items)).value + rest, parse) == Ok(Parsed(Array(items), rest))
    decreases Array(items), 1, |items| + 2
  {
    assert !IsNumber(items[0]);
    AllItemsRoundTrip(t, items, rest);
    WriteNodeList(Corrected, t, items);
    var size := WriteSize(Corrected, |items|).value;
    var nodes := WriteListFrom(Corrected, t, items, 0).value;
    var w := WriteValue(Corrected, t, Array(items));
    assert w == Ok(size + nodes);
    Assoc2(size, nodes, rest);
    ListHeader(t, |items|, nodes + rest, parse);
    var r := ReadValue(Corrected, t, size + (nodes + rest), parse);
    assert r == ReadList(Corrected, t, nodes + rest, |items|, []);
  }

  /** `read_list` reads back all the nodes `write_list` wrote. */
  lemma {:induction false} AllItemsRoundTrip(t: Tables, items: seq<Value>, rest: seq<byte>)
    requires Valid(t) && StandardPacking(t) && CanonicalList(items)
    ensures WriteListFrom(Corrected, t, items, 0).Ok?
    ensures ReadList(Corrected, t, WriteListFrom(Corrected, t, items, 0).value + rest, |items|, []) == Ok(Parsed(Array(items), rest))
    decreases Array(items), 1, |items| + 1
  {
    ItemsFromStart(t, items, rest);
    AppendAll(items);
  }

  /** `ItemsRoundTrip` from the first item, with an empty accumulator. */
  lemma {:induction false} ItemsFromStart(t: Tables, items: seq<Value>, rest: seq<byte>)
    requires Valid(t) && StandardPacking(t) && CanonicalList(items)
    ensures WriteListFrom(Corrected, t, items, 0).Ok?
    ensures ReadList(Corrected, t, WriteListFrom(Corrected, t, items, 0).value + rest, |items|, [])
         == Ok(Parsed(Array([] + items[0..]), rest))
    decreases Array(items), 1, |items| + 1, 0
  {
    ItemsRoundTrip(t, items, 0, [], rest, |items|);
  }

  /** `read_list` reads back the `n` nodes `write_list` wrote from position `i` on, after `acc`. */
  lemma {:induction false} ItemsRoundTrip(t: Tables, items: seq<Value>, i: nat, acc: seq<Value>, rest: seq<byte>, n: nat)
    requires Valid(t) && StandardPacking(t) && CanonicalList(items) && i <= |items| && n == |items| - i
    ensures WriteListFrom(Corrected, t, items, i).Ok?
    ensures ReadList(Corrected, t, WriteListFrom(Corrected, t, items, i).value + rest, n, acc)
         == Ok(Parsed(Array(acc + items[i..]), rest))
    decreases Array(items), 1, n
  {
    if i == |items| {
      AppendEnd(acc, items);
      AppendEnd(rest, []);
    } else {
      ItemsRoundTrip(t, items, i + 1, acc + [items[i]], rest, n - 1);
      ItemNext(t, items, i, acc, rest, n);
    }
  }

  /** Item `i` read back in front of the items after it, which the recursive call has read back. */
  lemma {:induction false} ItemNext(t: Tables, items: seq<Value>, i: nat, acc: seq<Value>, rest: seq<byte>, n: nat)
    requires Valid(t) && StandardPacking(t) && CanonicalList(items) && i < |items| && n == |items| - i
    requires WriteListFrom(Corrected, t, items, i + 1).Ok?
    requires ReadList(Corrected, t, WriteListFrom(Corrected, t, items, i + 1).value + rest, n - 1, acc + [items[i]])
          == Ok(Parsed(Array(acc + [items[i]] + items[i + 1..]), rest))
    ensures WriteListFrom(Corrected, t, items, i).Ok?
    ensures ReadList(Corrected, t, WriteListFrom(Corrected, t, items, i).value + rest, n, acc)
         == Ok(Parsed(Array(acc + items[i..]), rest))
    decreases Array(items), 1, n, 0
  {
    var f := items[i].fields;
    assert items[i] == Object(f);
    var tail := WriteListFrom(Corrected, t, items, i + 1).value;
    NodeObjectRoundTrip(t, f, tail + rest);
    ItemStep(t, items, i, acc, tail, rest, n);
  }

  /** One node of `write_list` and `read_list`, given the round trip of the node and of the nodes after it. */
  lemma ItemStep(t: Tables, items: seq<Value>, i: nat, acc: seq<Value>, tail: seq<byte>, rest: seq<byte>, n: nat)
    requires Valid(t) && StandardPacking(t) && CanonicalList(items) && i < |items| && n == |items| - i
    requires WriteListFrom(Corrected, t, items, i + 1) == Ok(tail)
    requires ReadList(Corrected, t, tail + rest, n - 1, acc + [items[i]])
          == Ok(Parsed(Array(acc + [items[i]] + items[i + 1..]), rest))
    requires items[i].Object? && IsNodeObject(items[i].fields) && WriteNodeObject(Corrected, t, items[i].fields).Ok?
    requires ReadNode(Corrected, t, WriteNodeObject(Corrected, t, items[i].fields).value + (tail + rest))
          == Ok(Parsed(FromValue(items[i]).value, tail + rest))
    ensures WriteListFrom(Corrected, t, items, i).Ok?
    ensures ReadList(Corrected, t, WriteListFrom(Corrected, t, items, i).value + rest, n, acc)
         == Ok(Parsed(Array(acc + items[i..]), rest))
  {
    var f := items[i].fields;
    assert items[i] == Object(f);
    CanonicalFieldsForm(f);
    var node := WriteNodeObject(Corrected, t, f).value;
    WriteListStep(Corrected, t, items, i);
    Assoc2(node, tail, rest);
    ReadListStep(Corrected, t, node + (tail + rest), n, acc, FromValue(items[i]).value, tail + rest);
    ShiftOne(acc, items, i);
  }

  /** `read_attribute` reads back all the fields `write_attributes` wrote. */
  lemma AllFieldsRoundTrip(t: Tables, m: map<string, Value>, rest: seq<byte>)
    requires Valid(t) && StandardPacking(t) && CanonicalAttributes(m)
    ensures WriteFields(Corrected, t, m, Keys(m), 0).Ok?
    ensures ReadAttributes(Corrected, t, WriteFields(Corrected, t, m, Keys(m), 0).value + rest, |Keys(m)|, map[])
         == Ok(Parsed(m, rest))
    decreases Object(m), 1, |m| + 1
  {
    var keys := Keys(m);
    FieldsRoundTrip(t, m, keys, 0, map[], rest, |keys|);
    InsertAllKeys(m);
  }

  /** `read_attribute` reads back, after `acc`, the `n` fields `write_attributes` writes from key `i` on. */
  ghost predicate FieldsReadBack(
    t: Tables, m: map<string, Value>, keys: seq<string>, i: nat, acc: map<string, Value>, rest: seq<byte>, n: nat)
    requires Valid(t) && i <= |keys| && forall k :: k in keys ==> k in m
  {
    && WriteFields(Corrected, t, m, keys, i).Ok?
    && ReadAttributes(Corrected, t, WriteFields(Corrected, t, m, keys, i).value + rest, n, acc)
       == Ok(Parsed(InsertFrom(acc, m, keys, i), rest))
  }

  /** `read_attribute` reads back the `n` fields `write_attributes` wrote from key `i` on. */
  lemma {:induction false} FieldsRoundTrip(
    t: Tables, m: map<string, Value>, keys: seq<string>, i: nat, acc: map<string, Value>, rest: seq<byte>, n: nat)
    requires Valid(t) && StandardPacking(t) && CanonicalAttributes(m)
    requires i <= |keys| && n == |keys| - i && forall k :: k in keys ==> k in m
    ensures FieldsReadBack(t, m, keys, i, acc, rest, n)
    decreases Object(m), 1, n
  {
    if i < |keys| {
      FieldNext(t, m, keys, i, acc, rest, n);
      FieldsRoundTrip(t, m, keys, i + 1, acc[keys[i] := m[keys[i]]], rest, n - 1);
    } else {
      FieldsEnd(t, m, keys, acc, rest);
    }
  }

  /** Key `i` reads back in front of the keys after it, once those read back. */
  lemma {:induction false} FieldNext(
    t: Tables, m: map<string, Value>, keys: seq<string>, i: nat, acc: map<string, Value>, rest: seq<byte>, n: nat)
    requires Valid(t) && StandardPacking(t) && CanonicalAttributes(m)
    requires i < |keys| && n == |keys| - i && forall k :: k in keys ==> k in m
    ensures FieldsReadBack(t, m, keys, i + 1, acc[keys[i] := m[keys[i]]], rest, n - 1)
        ==> FieldsReadBack(t, m, keys, i, acc, rest, n)
    decreases Object(m), 1, n, 0
  {
    if FieldsReadBack(t, m, keys, i + 1, acc[keys[i] := m[keys[i]]], rest, n - 1) {
      var tail := WriteFields(Corrected, t, m, keys, i + 1).value;
      FieldValueRoundTrip(t, m, keys[i], tail + rest);
      FieldStep(t, m, keys, i, acc, tail, rest, n);
    }
  }

  /** The value under key `k` of canonical attributes reads back in attribute position. */
  lemma FieldValueRoundTrip(t: Tables, m: map<string, Value>, k: string, rest: seq<byte>)
    requires Valid(t) && StandardPacking(t) && CanonicalAttributes(m) && k in m
    ensures WriteValue(Corrected, t, m[k]).Ok?
    ensures ReadValue(Corrected, t, WriteValue(Corrected, t, m[k]).value + rest, true) == Ok(Parsed(m[k], rest))
    decreases Object(m), 0
  {
    AttributeRoundTrip(t, m[k], rest);
  }

  /** No fields left: nothing written and nothing read. */
  lemma FieldsEnd(t: Tables, m: map<string, Value>, keys: seq<string>, acc: map<string, Value>, rest: seq<byte>)
    requires Valid(t) && forall k :: k in keys ==> k in m
    ensures WriteFields(Corrected, t, m, keys, |keys|) == Ok([])
    ensures ReadAttributes(Corrected, t, WriteFields(Corrected, t, m, keys, |keys|).value + rest, 0, acc)
         == Ok(Parsed(InsertFrom(acc, m, keys, |keys|), rest))
  {
    AppendEnd(rest, []);
  }

  /** One field of `write_attributes` and `read_attribute`, given the round trip of its value and of the fields after it. */
  lemma FieldStep(
    t: Tables, m: map<string, Value>, keys: seq<string>, i: nat, acc: map<string, Value>, tail: seq<byte>, rest: seq<byte>, n: nat)
    requires Valid(t) && StandardPacking(t) && CanonicalAttributes(m)
    requires i < |keys| && n == |keys| - i && forall k :: k in keys ==> k in m
    requires WriteFields(Corrected, t, m, keys, i + 1) == Ok(tail)
    requires ReadAttributes(Corrected, t, tail + rest, n - 1, acc[keys[i] := m[keys[i]]])
          == Ok(Parsed(InsertFrom(acc[keys[i] := m[keys[i]]], m, keys, i + 1), rest))
    requires WriteValue(Corrected, t, m[keys[i]]).Ok?
    requires ReadValue(Corrected, t, WriteValue(Corrected, t, m[keys[i]]).value + (tail + rest), true)
          == Ok(Parsed(m[keys[i]], tail + rest))
    ensures WriteFields(Corrected, t, m, keys, i).Ok?
    ensures ReadAttributes(Corrected, t, WriteFields(Corrected, t, m, keys, i).value + rest, n, acc)
         == Ok(Parsed(InsertFrom(acc, m, keys, i), rest))
  {
    var k := keys[i];
    var vbytes := WriteValue(Corrected, t, m[k]).value;
    StringRoundTrip(t, k, true, vbytes + (tail + rest));
    var kbytes := WriteString(Corrected, t, k).value;
    assert WriteField(Corrected, t, k, m[k]) == Ok(kbytes + vbytes);
    WriteFieldsStep(Corrected, t, m, keys, i);
    Assoc3(kbytes, vbytes, tail, rest);
    var b := kbytes + (vbytes + (tail + rest));
    ReadPairSteps(Corrected, t, b, k, vbytes + (tail + rest), m[k], tail + rest);
    ReadAttributesStep(Corrected, t, b, n, acc, k, m[k], tail + rest);
  }

  /** `read` in content mode gives back the canonical, non-null content of a node. */
  lemma {:induction false} ContentRoundTrip(t: Tables, f: map<string, Value>, rest: seq<byte>)
    requires Valid(t) && StandardPacking(t) && CanonicalFields(f) && !f["content"].Null?
    ensures WriteContent(Corrected, t, f).Ok?
    ensures ReadValue(Corrected, t, WriteContent(Corrected, t, f).value + rest, false) == Ok(Parsed(f["content"], rest))
    decreases Object(f), 1, 0
  {
    var content := f["content"];
    match content
    case Text(s) =>
      StringRoundTrip(t, s, false, rest);
    case Array(items) =>
      if ByteItems(items) {
        ByteContentRoundTrip(t, f, items, rest);
      } else {
        ListRoundTrip(t, items, false, rest);
      }
  }

  /** Byte content is written as raw bytes and read back as the same numbers. */
  lemma ByteContentRoundTrip(t: Tables, f: map<string, Value>, items: seq<Value>, rest: seq<byte>)
    requires Valid(t) && StandardPacking(t) && CanonicalFields(f) && f["content"] == Array(items) && ByteItems(items)
    ensures WriteContent(Corrected, t, f).Ok?
    ensures ReadValue(Corrected, t, WriteContent(Corrected, t, f).value + rest, false) == Ok(Parsed(f["content"], rest))
  {
    var bytes := ItemBytes(items);
    ItemBytesRoundTrip(items);
    assert forall i :: 0 <= i < |items| ==> IsNumber(items[i]);
    RawBytesRoundTrip(t, bytes, false, rest);
    SplitAt(bytes, rest);
  }

  /** `read_node` gives back a canonical node that `write_node` wrote in its serde form. */
  lemma {:induction false} NodeObjectRoundTrip(t: Tables, f: map<string, Value>, rest: seq<byte>)
    requires Valid(t) && StandardPacking(t) && CanonicalFields(f)
    ensures WriteNodeObject(Corrected, t, f).Ok?
    ensures ReadNode(Corrected, t, WriteNodeObject(Corrected, t, f).value + rest) == Ok(Parsed(FromValue(Object(f)).value, rest))
    decreases Object(f), 2, 0
  {
    var attributes := f["attributes"].fields;
    assert Object(attributes) == f["attributes"];
    var contentBytes: seq<byte> := [];
    if !f["content"].Null? {
      ContentRoundTrip(t, f, rest);
      contentBytes := WriteContent(Corrected, t, f).value;
    }
    AllFieldsRoundTrip(t, attributes, contentBytes + rest);
    var attributeBytes := WriteFields(Corrected, t, attributes, Keys(attributes), 0).value;
    NodeStep(t, f, attributes, attributeBytes, contentBytes, rest);
  }

  /** The whole of one node, given the round trips of its attributes and of its content. */
  lemma NodeStep(t: Tables, f: map<string, Value>, attributes: map<string, Value>, attributeBytes: seq<byte>, contentBytes: seq<byte>, rest: seq<byte>)
    requires Valid(t) && StandardPacking(t) && CanonicalFields(f) && f["attributes"] == Object(attributes)
    requires WriteContent(Corrected, t, f) == Ok(contentBytes)
    requires !f["content"].Null? ==> ReadValue(Corrected, t, contentBytes + rest, false) == Ok(Parsed(f["content"], rest))
    requires WriteFields(Corrected, t, attributes, Keys(attributes), 0) == Ok(attributeBytes)
    requires ReadAttributes(Corrected, t, attributeBytes + (contentBytes + rest), |Keys(attributes)|, map[])
          == Ok(Parsed(attributes, contentBytes + rest))
    ensures WriteNodeObject(Corrected, t, f).Ok?
    ensures ReadNode(Corrected, t, WriteNodeObject(Corrected, t, f).value + rest) == Ok(Parsed(FromValue(Object(f)).value, rest))
  {
    CanonicalFieldsForm(f);
    var n := FromValue(Object(f)).value;
    assert n.attributes == attributes && n.description == f["description"].s && n.content == f["content"];
    StringRoundTrip(t, n.description, true, attributeBytes + (contentBytes + rest));
    SizeRoundTrip(Size(n), []);
    var descriptionBytes := WriteString(Corrected, t, n.description).value;
    var sizeBytes := WriteSize(Corrected, Size(n)).value;
    WriteNodeObjectSteps(Corrected, t, f, sizeBytes, descriptionBytes, attributeBytes, contentBytes);
    NodeRead(t, n, sizeBytes, descriptionBytes, attributeBytes, contentBytes, rest);
  }

  /** `read_node` gives back a node from its size, description, attributes and content as written. */
  lemma NodeRead(t: Tables, n: Node, sizeBytes: seq<byte>, descriptionBytes: seq<byte>, attributeBytes: seq<byte>, contentBytes: seq<byte>, rest: seq<byte>)
    requires Valid(t) && StandardPacking(t) && ParsedString(n.description) && Size(n) < U16_LIMIT
    requires WriteSize(Corrected, Size(n)) == Ok(sizeBytes)
    requires WriteString(Corrected, t, n.description) == Ok(descriptionBytes)
    requires ReadAttributes(Corrected, t, attributeBytes + (contentBytes + rest), |n.attributes|, map[])
          == Ok(Parsed(n.attributes, contentBytes + rest))
    requires n.content.Null? ==> contentBytes == []
    requires !n.content.Null? ==> ReadValue(Corrected, t, contentBytes + rest, false) == Ok(Parsed(n.content, rest))
    ensures ReadNode(Corrected, t, sizeBytes + descriptionBytes + attributeBytes + contentBytes + rest) == Ok(Parsed(n, rest))
  {
    ReadStringRoundTrip(t, n.description, attributeBytes + (contentBytes + rest));
    var body := descriptionBytes + (attributeBytes + (contentBytes + rest));
    SizeRoundTrip(Size(n), body);
    Assoc4(sizeBytes, descriptionBytes, attributeBytes, contentBytes, rest);
    var b := sizeBytes + body;
    ContentRead(t, n, contentBytes, rest);
    ReadNodeParts(Corrected, t, b, Size(n), body, n.description, attributeBytes + (contentBytes + rest),
      n.attributes, contentBytes + rest, n, rest);
  }

  /** The end of `read_node` gives back the node from its content as written. */
  lemma ContentRead(t: Tables, n: Node, contentBytes: seq<byte>, rest: seq<byte>)
    requires Valid(t)
    requires n.content.Null? ==> contentBytes == []
    requires !n.content.Null? ==> ReadValue(Corrected, t, contentBytes + rest, false) == Ok(Parsed(n.content, rest))
    ensures ReadNodeContent(Corrected, t, Size(n), n.description, n.attributes, contentBytes + rest) == Ok(Parsed(n, rest))
  {
    if n.content.Null? {
      AppendEnd(rest, []);
      assert FromAttributes(n.description, n.attributes) == n;
    } else {
      ReadNodeContentEven(Corrected, t, Size(n), n.description, n.attributes, contentBytes + rest, n.content, rest);
      assert New(n.description, n.attributes, n.content) == n;
    }
  }

  /** Decoding what `NodeEncoder::encode` writes gives the node back. */
  lemma EncodeDecode(t: Tables, deflate: seq<byte> -> seq<byte>, n: Node)
    requires Valid(t) && StandardPacking(t) && Canonical(n)
    ensures Encode(Corrected, t, n).Ok?
    ensures Decode(Corrected, t, deflate, Encode(Corrected, t, n).value) == Ok(n)
  {
    FromToValue(n);
    var f := ToValue(n).fields;
    NodeObjectRoundTrip(t, f, []);
    var w := WriteNode(Corrected, t, n).value;
    assert w + [] == w;
    assert Encode(Corrected, t, n).value[1..] == w;
  }


  // ---------------------------------------------------------------------
  // Where the codec is lossy

  /** A JSON number is written as its decimal text and read back as that text. */
  lemma NumberContentBecomesText(t: Tables, n: int, parse: bool, rest: seq<byte>)
    requires Valid(t) && StandardPacking(t) && Fits(Decimal.IntToString(n))
    ensures WriteValue(Corrected, t, Number(n)).Ok?
    ensures ReadValue(Corrected, t, WriteValue(Corrected, t, Number(n)).value + rest, parse)
         == Ok(Parsed(Text(Decimal.IntToString(n)), rest))
  {
    var s := Decimal.IntToString(n);
    var digits := Decimal.NatToString(if n < 0 then -n else n);
    assert s == (if n < 0 then "-" else "") + digits;
    assert forall i :: 0 <= i < |s| ==> s[i] == '-' || Decimal.IsDigit(s[i]);
    StringRoundTrip(t, s, parse, rest);
  }

  /** A boolean is written as the string "true" or "false" and comes back as that string. */
  lemma BoolContentBecomesText(t: Tables, b: bool, parse: bool, rest: seq<byte>)
    requires Valid(t) && StandardPacking(t)
    ensures WriteValue(Corrected, t, Bool(b)).Ok?
    ensures ReadValue(Corrected, t, WriteValue(Corrected, t, Bool(b)).value + rest, parse)
         == Ok(Parsed(Text(if b then "true" else "false"), rest))
  {
    StringRoundTrip(t, if b then "true" else "false", parse, rest);
  }

  /**
    Content that is a node object is written as a one-node list and so comes
    back as an array holding that node.
   */
  lemma ObjectContentBecomesList(t: Tables, f: map<string, Value>, inner: map<string, Value>, rest: seq<byte>)
    requires Valid(t) && StandardPacking(t) && IsNodeObject(f) && f["content"] == Object(inner) && CanonicalFields(inner)
    ensures WriteContent(Corrected, t, f).Ok?
    ensures ReadValue(Corrected, t, WriteContent(Corrected, t, f).value + rest, false) == Ok(Parsed(Array([Object(inner)]), rest))
  {
    CanonicalFieldsForm(inner);
    NodeObjectRoundTrip(t, inner, rest);
    SizeRoundTrip(1, []);
    WriteContentObject(Corrected, t, f, inner);
    OneNodeList(t, WriteNodeObject(Corrected, t, inner).value, FromValue(Object(inner)).value, rest);
  }

  /** A list of one node reads back as an array of that node's serde form. */
  lemma OneNodeList(t: Tables, nodeBytes: seq<byte>, node: Node, rest: seq<byte>)
    requires Valid(t) && ReadNode(Corrected, t, nodeBytes + rest) == Ok(Parsed(node, rest))
    ensures WriteSize(Corrected, 1).Ok?
    ensures ReadValue(Corrected, t, WriteSize(Corrected, 1).value + nodeBytes + rest, false) == Ok(Parsed(Array([ToValue(node)]), rest))
  {
    ListHeader(t, 1, nodeBytes + rest, false);
    var size := WriteSize(Corrected, 1).value;
    Assoc2(size, nodeBytes, rest);
    ReadListStep(Corrected, t, nodeBytes + rest, 1, [], node, rest);
    AppendEnd([ToValue(node)], []);
    var r := ReadList(Corrected, t, rest, 0, [] + [ToValue(node)]);
    assert r == Ok(Parsed(Array([ToValue(node)]), rest));
  }
}
