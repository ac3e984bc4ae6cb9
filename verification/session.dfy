/**
  The transport of binary nodes (whatsapp-util/src/binary/session.rs and
  `NodeCodec::transpose` in whatsapp-util/src/binary/codec.rs): a node is
  written by the node encoder, sealed with the session store's encode key and
  framed; a payload is split into frames, and each frame is opened with the
  decode key and read by the node decoder.
 */
module Session {
  import opened Bytes
  import opened Errors
  import opened Crypto
  import opened Nonces
  import opened Tokens
  import opened Nodes
  import opened Revision
  import Store
  import Keys
  import Frame
  import Encoder
  import Decoder
  import CodecNodes

  /** The node codec's parameters: the token tables and the `deflate_bytes` function the decoder applies to compressed payloads. */
  datatype Codec = Codec(tables: Tables, deflate: seq<byte> -> seq<byte>)

  datatype Session = Session(store: Store.SessionStore, credentials: Keys.Credentials)

  /** `Session::default()`: a default store and fresh credentials. */
  function Default(p: Primitives, noise: Bytes32, ephemeral: Bytes32, identity: Bytes32, draw: nat): (r: Result<Session>)
    requires draw < Keys.REGISTRATION_DRAWS
    ensures r.Ok? <==> Keys.NewCredentials(p, noise, ephemeral, identity, draw).Ok?
    ensures r.Ok? ==> r.value.store == Store.Default()
    ensures r.Ok? ==> r.value.credentials == Keys.NewCredentials(p, noise, ephemeral, identity, draw).value
  {
    var credentials :- Keys.NewCredentials(p, noise, ephemeral, identity, draw);
    Ok(Session(Store.Default(), credentials))
  }

  /**
    `transpose(store, Encode(node))`: the encoded node, sealed. An encoder
    failure returns before the store is touched; otherwise the store's send
    counter advances whether or not sealing succeeds.
   */
  ghost function TransposeEncode(p: Primitives, c: Codec, store: Store.SessionStore, n: Node)
    : (r: (Result<seq<byte>>, Store.SessionStore))
    requires Valid(c.tables)
    ensures Encoder.Encode(Corrected, c.tables, n).Err? ==>
      r == (Err(Encoder.Encode(Corrected, c.tables, n).error), store)
    ensures Encoder.Encode(Corrected, c.tables, n).Ok? ==>
      r == Store.Encrypt(p, store, Encoder.Encode(Corrected, c.tables, n).value)
  {
    match Encoder.Encode(Corrected, c.tables, n)
    case Err(e) => (Err(e), store)
    case Ok(encoded) => Store.Encrypt(p, store, encoded)
  }

  /**
    `transpose(store, Decode(binary))`: the frame is opened (the receive
    counter advances whether or not that succeeds) and the plaintext decoded.
   */
  function TransposeDecode(p: Primitives, c: Codec, store: Store.SessionStore, binary: seq<byte>)
    : (r: (Result<Node>, Store.SessionStore))
    requires Valid(c.tables)
    ensures r.1 == store.(writeCount := Increment(store.writeCount))
    ensures r.0.Ok? ==> Store.Decrypt(p, store, binary).0.Ok?
    ensures r.0.Ok? ==> r.0 == Decoder.Decode(Corrected, c.tables, c.deflate, Store.Decrypt(p, store, binary).0.value)
  {
    var (plain, next) := Store.Decrypt(p, store, binary);
    match plain
    case Err(e) => (Err(e), next)
    case Ok(decrypted) => (Decoder.Decode(Corrected, c.tables, c.deflate, decrypted), next)
  }

  /**
    `Session::encode(intro, node)`: the sealed node in one frame, preceded by
    the prologue when `intro` holds.
   */
  ghost function Encode(p: Primitives, c: Codec, s: Session, intro: bool, n: Node): (r: (Result<seq<byte>>, Session))
    requires Valid(c.tables)
    ensures r.1 == s.(store := TransposeEncode(p, c, s.store, n).1)
    ensures r.0.Ok? <==> TransposeEncode(p, c, s.store, n).0.Ok?
    ensures r.0.Ok? ==> r.0.value == Frame.EncodeFrame(Corrected, intro, TransposeEncode(p, c, s.store, n).0.value)
  {
    var (sealed, store) := TransposeEncode(p, c, s.store, n);
    match sealed
    case Err(e) => (Err(e), s.(store := store))
    case Ok(data) => (Ok(Frame.EncodeFrame(Corrected, intro, data)), s.(store := store))
  }

  /** `encode_binary(intro, input)`: the input framed as it is, without sealing; the store is not used. */
  function EncodeBinary(intro: bool, input: seq<byte>): (r: seq<byte>)
    ensures r == Frame.Prologue(intro) + Frame.Header(Corrected, |input|) + input
  {
    Frame.EncodeFrame(Corrected, intro, input)
  }

  /** `decode_binary(input)`: the frames of the input, unopened. */
  function DecodeBinary(input: seq<byte>): (r: Result<seq<seq<byte>>>)
    ensures r.Ok? <==> Frame.ReadFrames(Corrected, input).Ok?
    ensures r.Ok? ==> r.value == Frame.ReadFrames(Corrected, input).value.decoded
  {
    Frame.DecodeFrame(Corrected, input)
  }

  /** The receive counter after `k` frames. */
  function Advance(counter: u64, k: nat): u64 {
    (counter + k) % U64_LIMIT
  }

  lemma AdvanceStep(counter: u64, k: nat)
    ensures Advance(Increment(counter), k) == Advance(counter, k + 1)
  {
    if counter + 1 == U64_LIMIT {
      assert Increment(counter) == 0;
      assert (counter + k + 1) == k + U64_LIMIT;
    }
  }

  /**
    The frames opened and decoded in order, each with one step of the receive
    counter; the first failure ends the loop.
   */
  function DecodeAll(p: Primitives, c: Codec, store: Store.SessionStore, frames: seq<seq<byte>>)
    : (r: (Result<seq<Node>>, Store.SessionStore))
    requires Valid(c.tables)
    ensures r.0.Ok? ==> |r.0.value| == |frames|
    decreases |frames|
  {
    if |frames| == 0 then (Ok([]), store)
    else
      var (first, next) := TransposeDecode(p, c, store, frames[0]);
      match first
      case Err(e) => (Err(e), next)
      case Ok(node) =>
        var (rest, last) := DecodeAll(p, c, next, frames[1..]);
        match rest
        case Err(e) => (Err(e), last)
        case Ok(nodes) => (Ok([node] + nodes), last)
  }

  /**
    A successful decode steps the receive counter once per frame; a failed one
    steps it once for every frame up to and including the one that failed.
    Nothing else in the store changes.
   */
  lemma {:induction false} DecodeAllCounter(p: Primitives, c: Codec, store: Store.SessionStore, frames: seq<seq<byte>>)
    requires Valid(c.tables)
    ensures DecodeAll(p, c, store, frames).0.Ok? ==>
      DecodeAll(p, c, store, frames).1 == store.(writeCount := Advance(store.writeCount, |frames|))
    ensures DecodeAll(p, c, store, frames).0.Err? ==>
      exists k :: 1 <= k <= |frames| &&
        DecodeAll(p, c, store, frames).1 == store.(writeCount := Advance(store.writeCount, k))
    decreases |frames|
  {
    if |frames| > 0 {
      var next := TransposeDecode(p, c, store, frames[0]).1;
      DecodeAllCounter(p, c, next, frames[1..]);
      AdvanceStep(store.writeCount, |frames| - 1);
      forall k | 1 <= k <= |frames| - 1
        ensures Advance(next.writeCount, k) == Advance(store.writeCount, k + 1)
      {
        AdvanceStep(store.writeCount, k);
      }
      assert Advance(store.writeCount, 1) == next.writeCount;
    }
  }

  /**
    `Session::decode(payload)`: the payload's frames, each opened and decoded
    in order. A payload the frame reader cannot split panics before any frame
    is opened.
   */
  function Decode(p: Primitives, c: Codec, s: Session, payload: seq<byte>): (r: (Result<seq<Node>>, Session))
    requires Valid(c.tables)
    ensures Frame.DecodeFrame(Corrected, payload).Err? ==> r.0.Err? && r.1 == s
    ensures Frame.DecodeFrame(Corrected, payload).Ok? ==>
      r == (DecodeAll(p, c, s.store, Frame.DecodeFrame(Corrected, payload).value).0,
            s.(store := DecodeAll(p, c, s.store, Frame.DecodeFrame(Corrected, payload).value).1))
    ensures r.0.Ok? ==> |r.0.value| == |Frame.DecodeFrame(Corrected, payload).value|
  {
    match Frame.DecodeFrame(Corrected, payload)
    case Err(e) => (Err(e), s)
    case Ok(frames) =>
      var (nodes, store) := DecodeAll(p, c, s.store, frames);
      (nodes, s.(store := store))
  }

  /** One encoded node, framed without the prologue, splits into exactly the sealed node. */
  lemma OneFrame(data: seq<byte>)
    requires |data| < Frame.U24_LIMIT
    ensures Frame.DecodeFrame(Corrected, Frame.EncodeFrame(Corrected, false, data)) == Ok([data])
  {
    var b := Frame.EncodeFrame(Corrected, false, data);
    Frame.FramesRoundTrip([data]);
    assert [data][1..] == [];
    assert Frame.EncodeAll([data]) == b + [] == b;
  }

  /** A payload of one frame decodes to the node in it, and the receive counter steps once. */
  lemma DecodeOne(p: Primitives, c: Codec, store: Store.SessionStore, frame: seq<byte>)
    requires Valid(c.tables)
    requires TransposeDecode(p, c, store, frame).0.Ok?
    ensures DecodeAll(p, c, store, [frame]) ==
      (Ok([TransposeDecode(p, c, store, frame).0.value]), TransposeDecode(p, c, store, frame).1)
  {
    var first := TransposeDecode(p, c, store, frame);
    assert [frame][0] == frame && [frame][1..] == [];
    assert DecodeAll(p, c, first.1, []) == (Ok([]), first.1);
    assert [first.0.value] + [] == [first.0.value];
  }

  /**
    End to end: a node one session sends without the prologue is the node the
    paired session decodes, provided the node is one the codec reproduces and
    the sealed node fits a frame; afterwards the sessions are still paired.
   */
  lemma EncodeThenDecode(p: Primitives, c: Codec, sender: Session, receiver: Session, n: Node)
    requires AeadSound(p) && Valid(c.tables) && StandardPacking(c.tables) && CodecNodes.Canonical(n)
    requires Store.Paired(sender.store, receiver.store)
    requires Encode(p, c, sender, false, n).0.Ok?
    requires |TransposeEncode(p, c, sender.store, n).0.value| < Frame.U24_LIMIT
    ensures Decode(p, c, receiver, Encode(p, c, sender, false, n).0.value).0 == Ok([n])
    ensures Store.Paired(Encode(p, c, sender, false, n).1.store, Decode(p, c, receiver, Encode(p, c, sender, false, n).0.value).1.store)
  {
    CodecNodes.EncodeDecode(c.tables, c.deflate, n);
    var encoded := Encoder.Encode(Corrected, c.tables, n).value;
    var sent := Store.Encrypt(p, sender.store, encoded);
    assert TransposeEncode(p, c, sender.store, n) == sent;
    var sealed := sent.0.value;
    var frame := Encode(p, c, sender, false, n).0.value;
    assert frame == Frame.EncodeFrame(Corrected, false, sealed);
    Store.EncryptDecrypt(p, sender.store, receiver.store, encoded);
    var received := TransposeDecode(p, c, receiver.store, sealed);
    assert received.0 == Ok(n);
    OneFrame(sealed);
    DecodeOne(p, c, receiver.store, sealed);
    assert Decode(p, c, receiver, frame) == (Ok([n]), receiver.(store := received.1));
  }
}
