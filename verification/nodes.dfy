/**
  The message tree (whatsapp-util/src/binary/node.rs). A `Value` is a
  `serde_json::Value` (numbers restricted to integers); a `Node` has a
  description, an attribute map and a content value. Nodes nested inside a value
  are kept in their serde form: an object with the keys "description",
  "attributes" and "content", exactly what `serde_json::to_value(node)` yields.
 */
module Nodes {
  import opened Wrappers
  import opened Errors

  datatype Value =
    | Null
    | Bool(b: bool)
    | Number(n: int)
    | Text(s: string)
    | Array(items: seq<Value>)
    | Object(fields: map<string, Value>)

  datatype Node = Node(description: string, attributes: map<string, Value>, content: Value)

  /** `Node::new`: stores its three arguments unchanged. */
  function New(description: string, attributes: map<string, Value>, content: Value): (n: Node)
    ensures Description(n) == description && n.attributes == attributes && n.content == content
  {
    Node(description, attributes, content)
  }

  /** `Node::from_attributes`: a node without content, so its size is odd. */
  function FromAttributes(description: string, attributes: map<string, Value>): (n: Node)
    ensures n.description == description && n.attributes == attributes
    ensures n.content == Null && Size(n) % 2 == 1
  {
    Node(description, attributes, Null)
  }

  /** `DataExt::description` for `Node`. */
  function Description(n: Node): string {
    n.description
  }

  /**
    `DataExt::size`: two slots per attribute, one for the description and one
    more when there is content. It is odd exactly when the content is null.
   */
  function Size(n: Node): (r: nat)
    ensures r >= 1
    ensures r % 2 == 1 <==> n.content == Null
    ensures (r - 1) / 2 == |n.attributes|
  {
    2 * |n.attributes| + (if n.content.Null? then 0 else 1) + 1
  }

  /** `DataExt::id` for `Node`: the description, never `None`. */
  function Id(n: Node): (r: Option<string>)
    ensures r.Some? && r.value == Description(n)
  {
    Some(n.description)
  }

  /** `DataExt::content::<&str>()`: the content when it is a string. */
  function ContentText(n: Node): (r: Option<string>)
    ensures r.Some? <==> n.content.Text?
  {
    if n.content.Text? then Some(n.content.s) else None
  }

  /** `serde_json::to_value(node)`, as the derived `Serialize` lays a node out. */
  function ToValue(n: Node): (v: Value)
    ensures v.Object? && v.fields.Keys == {"description", "attributes", "content"}
  {
    Object(map["description" := Text(n.description), "attributes" := Object(n.attributes), "content" := n.content])
  }

  /** Whether `serde_json::from_value::<Node>` accepts an object's fields: unknown keys are ignored. */
  predicate IsNodeObject(fields: map<string, Value>) {
    && "description" in fields && fields["description"].Text?
    && "attributes" in fields && fields["attributes"].Object?
    && "content" in fields
  }

  /**
    Whether `serde_json::from_value::<Node>` accepts an array: the derived
    `visit_seq` takes the description, the attributes and the content in field
    order, and serde_json refuses an array with elements left over, so there
    must be exactly three.
   */
  predicate IsNodeArray(items: seq<Value>) {
    |items| == 3 && items[0].Text? && items[1].Object?
  }

  /** Whether `serde_json::from_value::<Node>` accepts a value, in either form the derived `Deserialize` reads. */
  predicate IsNode(v: Value) {
    || (v.Object? && IsNodeObject(v.fields))
    || (v.Array? && IsNodeArray(v.items))
  }

  /**
    `serde_json::from_value::<Node>(v)`: a node object, or the array of its
    three fields; any other value is a serde error.
   */
  function FromValue(v: Value): (r: Result<Node>)
    ensures r.Ok? <==> IsNode(v)
  {
    if v.Object? && IsNodeObject(v.fields) then
      Ok(Node(v.fields["description"].s, v.fields["attributes"].fields, v.fields["content"]))
    else if v.Array? && IsNodeArray(v.items) then
      Ok(Node(v.items[0].s, v.items[1].fields, v.items[2]))
    else Err(SerdeError)
  }

  /** Serialising a node and deserialising it gives the node back. */
  lemma FromToValue(n: Node)
    ensures FromValue(ToValue(n)) == Ok(n)
  {
  }

  /**
    Deserialising then serialising keeps a node object, up to unknown keys that
    serde drops, and turns the array form into the object of its three fields.
   */
  lemma ToFromValue(v: Value)
    requires FromValue(v).Ok?
    ensures v.Object? ==>
      ToValue(FromValue(v).value).fields == map k | k in v.fields && k in {"description", "attributes", "content"} :: v.fields[k]
    ensures v.Array? ==>
      ToValue(FromValue(v).value) == Object(map["description" := v.items[0], "attributes" := v.items[1], "content" := v.items[2]])
  {
  }

  /** The array form of a node serialises to the object of its three fields, which deserialises to the same node. */
  lemma ArrayFormFields(parts: seq<Value>)
    requires IsNodeArray(parts)
    ensures ToValue(FromValue(Array(parts)).value).fields
         == map["description" := parts[0], "attributes" := parts[1], "content" := parts[2]]
    ensures FromValue(Object(ToValue(FromValue(Array(parts)).value).fields)) == FromValue(Array(parts))
  {
    var n := FromValue(Array(parts)).value;
    assert n == Node(parts[0].s, parts[1].fields, parts[2]);
    FromToValue(n);
  }

  /** An object with exactly the three node fields is the serde form of the node it deserialises to. */
  lemma NodeObjectIsSerdeForm(f: map<string, Value>)
    requires IsNodeObject(f) && f.Keys == {"description", "attributes", "content"}
    ensures FromValue(Object(f)).Ok? && ToValue(FromValue(Object(f)).value) == Object(f)
  {
    var g := ToValue(FromValue(Object(f)).value).fields;
    assert g.Keys == f.Keys;
    assert g["description"] == f["description"];
    assert g["attributes"] == f["attributes"];
    assert g["content"] == f["content"];
  }

  /** `value[key]` (serde's `Index`): the field of an object, `Null` for anything else. */
  function Get(v: Value, key: string): (r: Value)
    ensures !v.Object? || key !in v.fields ==> r == Null
  {
    if v.Object? && key in v.fields then v.fields[key] else Null
  }

  /** `value.get(key)`: like `Get` but `None` when there is no such field. */
  function GetField(v: Value, key: string): (r: Option<Value>)
    ensures r.Some? <==> v.Object? && key in v.fields
    ensures r.Some? ==> r.value == Get(v, key)
  {
    if v.Object? && key in v.fields then Some(v.fields[key]) else None
  }

  /** `DataExt::description` for a serialised node: "" unless "description" is a string. */
  function ValueDescription(v: Value): (r: string)
    ensures Get(v, "description").Text? ==> r == Get(v, "description").s
    ensures !Get(v, "description").Text? ==> r == ""
  {
    var d := Get(v, "description");
    if d.Text? then d.s else ""
  }

  /**
    `DataExt::size` for a serialised node. `as_object().unwrap()` panics when
    "attributes" is not an object.
   */
  function ValueSize(v: Value): (r: Result<nat>)
    ensures r.Ok? <==> Get(v, "attributes").Object?
  {
    var attributes := Get(v, "attributes");
    var unwrapped: Result<nat> := Err(Panic("called `Option::unwrap()` on a `None` value"));
    if !attributes.Object? then unwrapped
    else Ok(2 * |attributes.fields| + (if Get(v, "content").Null? then 0 else 1) + 1)
  }

  /** Both forms of a node report the same size. */
  lemma ValueSizeOfNode(n: Node)
    ensures ValueSize(ToValue(n)) == Ok(Size(n))
  {
  }

  // ---------------------------------------------------------------------
  // NodeContentIterator: `for item in &node`

  /** `NodeContentIterator { inclusive, content }`. */
  datatype ContentIterator = ContentIterator(inclusive: bool, content: Value)

  /** `IntoIterator for &Node`: starts inclusive at the node's content. */
  function Iter(n: Node): (it: ContentIterator)
    ensures it.inclusive && it.content == n.content
  {
    ContentIterator(true, n.content)
  }

  /**
    `Iterator::next`: the first call yields the content itself; every later call
    yields `content.get("content")` and leaves the iterator as it is.
   */
  function Next(it: ContentIterator): (r: (Option<Value>, ContentIterator))
    ensures it.inclusive ==> r.0 == Some(it.content) && !r.1.inclusive && r.1.content == it.content
    ensures !it.inclusive ==> r.1 == it && r.0 == GetField(it.content, "content")
  {
    if it.inclusive then (Some(it.content), ContentIterator(false, it.content))
    else (GetField(it.content, "content"), it)
  }

  /** After the first item the iterator is stuck: `next` gives the same answer on every call. */
  lemma {:induction false} NextIsStationary(it: ContentIterator, k: nat)
    requires !it.inclusive
    ensures Advance(it, k) == it
    ensures Next(Advance(it, k)).0 == GetField(it.content, "content")
  {
    if k > 0 {
      NextIsStationary(it, k - 1);
    }
  }

  /** The iterator after `k` calls of `next`. */
  function Advance(it: ContentIterator, k: nat): ContentIterator {
    if k == 0 then it else Next(Advance(it, k - 1)).1
  }

  /**
    `node.children()`, i.e. `into_iter().collect()`: the content, and then nothing
    more when the content has no "content" field. When it has one, `next` never
    returns `None` and the collection never finishes.
   */
  function Children(n: Node): (r: Result<seq<Value>>)
    ensures r.Ok? ==> |r.value| == 1 && r.value[0] == n.content
    ensures r.Ok? <==> GetField(n.content, "content").None?
  {
    var (first, it) := Next(Iter(n));
    if Next(it).0.None? then Ok([first.value]) else Err(Panic("unbounded iteration"))
  }

  /** Index of the first element whose "description" is the string `d`, or `|values|` when none is. */
  function FirstDescribed(values: seq<Value>, d: string): (i: nat)
    ensures i <= |values|
    ensures i < |values| ==> Get(values[i], "description") == Text(d)
    ensures forall j :: 0 <= j < i ==> Get(values[j], "description") != Text(d)
  {
    if |values| == 0 then 0
    else if Get(values[0], "description") == Text(d) then 0
    else 1 + FirstDescribed(values[1..], d)
  }

  /** `values.into_iter().find(|node| node["description"].as_str() == Some(d))`. */
  function FindByDescription(values: seq<Value>, d: string): (r: Option<Value>)
    ensures r.Some? <==> exists j :: 0 <= j < |values| && Get(values[j], "description") == Text(d)
    ensures r.Some? ==> r.value == values[FirstDescribed(values, d)]
  {
    var i := FirstDescribed(values, d);
    if i < |values| then Some(values[i]) else None
  }

  /**
    What one loop iteration of `find_description` does with an item: an array
    ends the search with the first element described `d`; an equal string is
    the answer; anything else lets the loop continue.
   */
  datatype Step = Return(found: Option<Value>) | Continue

  function Inspect(item: Value, d: string): Step {
    match item
    case Array(values) => Return(FindByDescription(values, d))
    case Text(s) => if s == d then Return(Some(item)) else Continue
    case _ => Continue
  }

  /**
    `Node::find_description`. The loop inspects the content; if that does not
    decide, it inspects `content.get("content")`, which the iterator then
    repeats forever, so an undecided second item never returns.
   */
  function FindDescription(n: Node, d: string): (r: Result<Option<Value>>)
    ensures n.content.Array? ==> r == Ok(FindByDescription(n.content.items, d))
    ensures n.content == Text(d) ==> r == Ok(Some(n.content))
    ensures Inspect(n.content, d).Continue? && GetField(n.content, "content").None? ==> r == Ok(None)
  {
    match Inspect(n.content, d)
    case Return(found) => Ok(found)
    case Continue =>
      match GetField(n.content, "content")
      case None => Ok(None)
      case Some(second) =>
        match Inspect(second, d)
        case Return(found) => Ok(found)
        case Continue => Err(Panic("unbounded iteration"))
  }

  // ---------------------------------------------------------------------
  // Iteration order of maps

  /**
    The order in which a `HashMap` (or a serde `Map`) yields its keys. The Rust
    types fix some order; the model leaves it unspecified but fixed per map.
   */
  ghost function Keys<V>(m: map<string, V>): (ks: seq<string>)
    ensures |ks| == |m|
    ensures forall k :: k in ks <==> k in m
    ensures forall i, j :: 0 <= i < j < |ks| ==> ks[i] != ks[j]
  {
    if |m| == 0 then []
    else
      var k :| k in m;
      var rest := Keys(m - {k});
      [k] + rest
  }

  /**
    The map that inserting `m`'s values under `keys[i..]`, one after another,
    builds on top of `acc`: what reading attributes back yields.
   */
  function InsertFrom(acc: map<string, Value>, m: map<string, Value>, keys: seq<string>, i: nat): map<string, Value>
    requires i <= |keys| && forall k :: k in keys ==> k in m
    decreases |keys| - i
  {
    if i == |keys| then acc else InsertFrom(acc[keys[i] := m[keys[i]]], m, keys, i + 1)
  }

  /** Inserting overrides `acc` with `m` on exactly the keys inserted. */
  lemma {:induction false} InsertFromSpec(acc: map<string, Value>, m: map<string, Value>, keys: seq<string>, i: nat)
    requires i <= |keys| && forall k :: k in keys ==> k in m
    ensures InsertFrom(acc, m, keys, i) == acc + map k | k in keys[i..] :: m[k]
    decreases |keys| - i
  {
    if i < |keys| {
      InsertFromSpec(acc[keys[i] := m[keys[i]]], m, keys, i + 1);
      var later := map k | k in keys[i + 1..] :: m[k];
      var all := map k | k in keys[i..] :: m[k];
      assert forall k :: k in keys[i..] <==> k == keys[i] || k in keys[i + 1..];
      assert acc[keys[i] := m[keys[i]]] + later == acc + all;
    }
  }

  /** Inserting every key of a map, in any order that lists each key, rebuilds the map. */
  lemma InsertAllKeys(m: map<string, Value>)
    ensures InsertFrom(map[], m, Keys(m), 0) == m
  {
    var keys := Keys(m);
    InsertFromAll(m, keys);
    ListedKeysRebuild(m, keys);
  }

  /** Inserting every listed key into an empty map collects `m` on those keys. */
  lemma InsertFromAll(m: map<string, Value>, keys: seq<string>)
    requires forall k :: k in keys ==> k in m
    ensures InsertFrom(map[], m, keys, 0) == map k | k in keys :: m[k]
  {
    InsertFromSpec(map[], m, keys, 0);
    assert keys[0..] == keys;
  }

  /** `m` restricted to a list of exactly its keys is `m`. */
  lemma ListedKeysRebuild(m: map<string, Value>, keys: seq<string>)
    requires forall k :: k in keys <==> k in m
    ensures (map k | k in keys :: m[k]) == m
  {
  }
}
