/**
  The websocket stream of the older generation
  (whatsapp-websocket/src/client/stream.rs, its state.rs and processor.rs):
  three states, no sink to lose, and a processor that answers only the
  "pair-device" request.
 */
module ClientStream {
  import opened Bytes
  import opened Errors
  import opened Wrappers
  import opened Crypto
  import opened Nodes
  import opened Revision
  import Tokens
  import Frame
  import Session
  import Auth
  import Handshake
  import Pairing
  import Connection

  /** `client::stream::state::State`; `Hello` is the derived default. */
  datatype State = Hello | Handshake | Iq

  /** `State::is_default`: frames sent in this state carry the prologue. */
  predicate IsDefault(s: State) {
    s == Hello
  }

  /** `Stream`: the shared session, the state, and every frame the socket accepted. */
  datatype Stream = Stream(session: Session.Session, state: State, sent: seq<seq<byte>>)

  /** The messages of `s` are the first messages of `t`. */
  predicate Extends(s: Stream, t: Stream) {
    |s.sent| <= |t.sent| && t.sent[..|s.sent|] == s.sent
  }

  /** `Stream::new(session, ws)`: the given session or the default one, in the default state. */
  function NewStream(session: Option<Session.Session>, default: Session.Session): (s: Stream)
    ensures IsDefault(s.state) && s.sent == []
    ensures s.session == session.GetOr(default)
  {
    Stream(session.GetOr(default), Hello, [])
  }

  /** The node branch of `send`: encoded and sealed by the session, then framed; a failure is wrapped in `EncodeNodeError`. */
  ghost function SendNode(env: Connection.Environment, s: Stream, node: Node): (r: (Result<()>, Stream))
    requires Tokens.Valid(env.codec.tables)
    ensures r.1.state == s.state
    ensures r.1.session == Session.Encode(env.p, env.codec, s.session, IsDefault(s.state), node).1
    ensures r.0.Ok? <==> Session.Encode(env.p, env.codec, s.session, IsDefault(s.state), node).0.Ok?
    ensures r.0.Ok? ==> r.1.sent == s.sent + [Session.Encode(env.p, env.codec, s.session, IsDefault(s.state), node).0.value]
    ensures r.0.Err? ==> r.1.sent == s.sent
    ensures r.0.Err? ==> r.0 == Err(EncodeNodeError(Session.Encode(env.p, env.codec, s.session, IsDefault(s.state), node).0.error))
  {
    var (encoded, session) := Session.Encode(env.p, env.codec, s.session, IsDefault(s.state), node);
    match encoded
    case Err(e) => (Err(EncodeNodeError(e)), s.(session := session))
    case Ok(bytes) => (Ok(()), s.(session := session, sent := s.sent + [bytes]))
  }

  /**
    `send(transmission)`: as the newer client's `send`, but the socket is
    always there, so nothing is ever `StreamNotInitialized`.
   */
  ghost function Send(env: Connection.Environment, s: Stream, t: Connection.Transmission): (r: (Result<()>, Stream))
    requires Tokens.Valid(env.codec.tables)
    ensures r.1.state == s.state && Extends(s, r.1)
    ensures r.0.Ok? <==> |r.1.sent| == |s.sent| + 1
    ensures t.BinaryInput? ==> r == (Ok(()), s.(sent := s.sent + [Frame.EncodeFrame(Corrected, IsDefault(s.state), t.input)]))
    ensures t.NodeInput? ==> r == SendNode(env, s, t.node)
  {
    match t
    case BinaryInput(input) => (Ok(()), s.(sent := s.sent + [Session.EncodeBinary(IsDefault(s.state), input)]))
    case NodeInput(node) => SendNode(env, s, node)
  }

  /**
    The newer client's `send` with a sink and this stream's `send` put the
    same bytes on the wire for the same session and the same default flag.
   */
  lemma SendGenerations(env: Connection.Environment, s: Stream, c: Connection.Client, t: Connection.Transmission)
    requires Tokens.Valid(env.codec.tables)
    requires c.sink && c.session == s.session && Connection.IsDefault(c.state) == IsDefault(s.state)
    ensures Connection.Send(env, c, t).0 == Send(env, s, t).0
    ensures Connection.Send(env, c, t).1.session == Send(env, s, t).1.session
    ensures Send(env, s, t).0.Ok? ==>
      Connection.Send(env, c, t).1.sent[|c.sent|] == Connection.Binary(Send(env, s, t).1.sent[|s.sent|])
  {
    if t.BinaryInput? {
      Connection.IntroFrame(IsDefault(s.state), t.input);
    }
  }

  /**
    `send_hello`: the client hello with the ephemeral public key, sent in
    whatever state the stream is in; the state does not change.
   */
  ghost function SendHello(env: Connection.Environment, s: Stream): (r: (Result<()>, Stream))
    requires Tokens.Valid(env.codec.tables)
    ensures env.clientHello(s.session.credentials.ephemeral.public).Err? ==>
      r == (Err(env.clientHello(s.session.credentials.ephemeral.public).error), s)
    ensures env.clientHello(s.session.credentials.ephemeral.public).Ok? ==>
      r == (Ok(()), s.(sent := s.sent + [Frame.EncodeFrame(Corrected, IsDefault(s.state),
                                           env.clientHello(s.session.credentials.ephemeral.public).value)]))
  {
    match env.clientHello(s.session.credentials.ephemeral.public)
    case Err(e) => (Err(e), s)
    case Ok(hello) => Send(env, s, Connection.BinaryInput(hello))
  }

  /**
    `login(server_payload)`: the handshake of `create_login` on the session,
    then its message sent; the state does not change. A failed handshake
    returns its error and leaves only the exchanges it made recorded in the
    credentials.
   */
  ghost function Login(env: Connection.Environment, s: Stream, payload: seq<byte>): (r: (Result<()>, Stream))
    requires Tokens.Valid(env.codec.tables)
    ensures r.1.session == Auth.CreateLogin(env.p, env.protobuf, s.session, payload).1
    ensures Auth.CreateLogin(env.p, env.protobuf, s.session, payload).0.Err? ==>
      r == (Err(Auth.CreateLogin(env.p, env.protobuf, s.session, payload).0.error),
            s.(session := Auth.CreateLogin(env.p, env.protobuf, s.session, payload).1))
    ensures Auth.CreateLogin(env.p, env.protobuf, s.session, payload).0.Ok? ==>
      r.0.Ok? && r.1.state == s.state
    ensures Auth.CreateLogin(env.p, env.protobuf, s.session, payload).0.Ok? && !IsDefault(s.state) ==>
      r.1.sent == s.sent + [Auth.Prepare(Handshake.Binary, env.p, env.protobuf, Auth.Begin(env.p, s.session.credentials), payload).value.frame]
  {
    var (result, session) := Auth.CreateLogin(env.p, env.protobuf, s.session, payload);
    match result
    case Err(e) => (Err(e), s.(session := session))
    case Ok(message) => Send(env, s.(session := session), Connection.BinaryInput(message))
  }

  /**
    `process_binary(input)`: the close frame is `WsClose`; a server hello is
    the first frame of the input, to log in with (a hello without a complete
    frame panics); anything else is `None`, a node for the next state.
   */
  function ProcessBinary(input: seq<byte>): (r: Result<Option<seq<byte>>>)
    ensures input == Connection.CLOSE_FRAME ==> r == Err(WsClose)
    ensures input != Connection.CLOSE_FRAME && !Connection.IsServerHello(input) ==> r == Ok(None)
    ensures Connection.IsServerHello(input) && r.Ok? ==>
      Session.DecodeBinary(input).Ok? && |Session.DecodeBinary(input).value| > 0
      && r.value == Some(Session.DecodeBinary(input).value[0])
    ensures Connection.IsServerHello(input) && r.Err? ==> r.error.Panic?
  {
    if input == Connection.CLOSE_FRAME then Err(WsClose)
    else if Connection.IsServerHello(input) then
      var frames :- Session.DecodeBinary(input);
      if |frames| == 0 then Err(Panic("swap_remove index (is 0) should be < len (is 0)"))
      else Ok(Some(frames[0]))
    else Ok(None)
  }

  /**
    The processor's `digest(node)`: only an "iq" whose container is
    "pair-device" is answered, with a content-less confirmation carrying the
    request's id. A container that cannot be read, or a request without a
    string id, fails.
   */
  function Digest(node: Node): (r: Result<Option<Node>>)
    ensures node.description != "iq" ==> r == Ok(None)
    ensures node.description == "iq" && Pairing.Container(node).Err? ==> r == Err(Pairing.Container(node).error)
    ensures node.description == "iq" && Pairing.Container(node).Ok? && Pairing.Container(node).value.description != "pair-device" ==>
      r == Ok(None)
    ensures r.Ok? && r.value.Some? ==>
      && node.description == "iq" && Pairing.Container(node).Ok? && Pairing.Container(node).value.description == "pair-device"
      && "id" in node.attributes && node.attributes["id"].Text?
      && r.value.value == FromAttributes("iq", Pairing.ConfirmAttributes(node.attributes["id"].s))
  {
    if node.description != "iq" then Ok(None)
    else
      var container :- Pairing.Container(node);
      if container.description != "pair-device" then Ok(None)
      else if "id" !in node.attributes || !node.attributes["id"].Text? then
        Err(Panic("called `Option::unwrap()` on a `None` value"))
      else Ok(Some(FromAttributes("iq", Pairing.ConfirmAttributes(node.attributes["id"].s))))
  }

  /**
    Both generations confirm a "pair-device" request with the same node,
    though the older one builds it with `from_attributes` and the newer with
    `send_confirm(node, Null)`.
   */
  lemma DigestGenerations(p: Primitives, conv: Pairing.Conversions, s: Session.Session, node: Node)
    requires node.description == "iq" && Pairing.Container(node).Ok?
    requires Pairing.Container(node).value.description == "pair-device"
    ensures Digest(node).Ok? <==> Pairing.IqDigest(p, conv, s, node).Ok?
    ensures Digest(node).Ok? ==> Digest(node).value == Some(Pairing.IqDigest(p, conv, s, node).value.value.node)
  {
  }

  /** The reply of the first node that has one; the first failure ends the search. */
  function FirstReply(nodes: seq<Node>): (r: Result<Option<Node>>)
    decreases |nodes|
  {
    if |nodes| == 0 then Ok(None)
    else
      match Digest(nodes[0])
      case Err(e) => Err(e)
      case Ok(Some(reply)) => Ok(Some(reply))
      case Ok(None) => FirstReply(nodes[1..])
  }

  /**
    `process_node`'s loop answers with the reply to the first node that has
    one: every node before it was digested without a reply or an error.
   */
  lemma {:induction false} FirstReplyIsFirst(nodes: seq<Node>)
    requires FirstReply(nodes).Ok? && FirstReply(nodes).value.Some?
    ensures exists i :: 0 <= i < |nodes| && Digest(nodes[i]) == FirstReply(nodes)
                        && forall j :: 0 <= j < i ==> Digest(nodes[j]) == Ok(None)
    decreases |nodes|
  {
    if Digest(nodes[0]) != FirstReply(nodes) {
      FirstReplyIsFirst(nodes[1..]);
      var i :| 0 <= i < |nodes[1..]| && Digest(nodes[1..][i]) == FirstReply(nodes[1..])
               && forall j :: 0 <= j < i ==> Digest(nodes[1..][j]) == Ok(None);
      assert Digest(nodes[i + 1]) == FirstReply(nodes);
      assert forall j :: 0 < j < i + 1 ==> Digest(nodes[j]) == Ok(None) by {
        forall j | 0 < j < i + 1 ensures Digest(nodes[j]) == Ok(None) {
          assert nodes[j] == nodes[1..][j - 1];
        }
      }
    }
  }

  /** A search without a reply digested every node without a reply. */
  lemma {:induction false} NoReplyDigestsAll(nodes: seq<Node>)
    requires FirstReply(nodes) == Ok(None)
    ensures forall i :: 0 <= i < |nodes| ==> Digest(nodes[i]) == Ok(None)
    decreases |nodes|
  {
    if |nodes| > 0 {
      NoReplyDigestsAll(nodes[1..]);
      assert forall i :: 0 < i < |nodes| ==> nodes[i] == nodes[1..][i - 1];
    }
  }

  /**
    `process_node(input)`: the session decodes the payload's frames, and the
    reply of the first node that has one is returned, not sent.
   */
  function ProcessNode(env: Connection.Environment, s: Stream, input: seq<byte>): (r: (Result<Option<Node>>, Stream))
    requires Tokens.Valid(env.codec.tables)
    ensures r.1 == s.(session := Session.Decode(env.p, env.codec, s.session, input).1)
    ensures Session.Decode(env.p, env.codec, s.session, input).0.Err? ==>
      r.0 == Err(Session.Decode(env.p, env.codec, s.session, input).0.error)
    ensures Session.Decode(env.p, env.codec, s.session, input).0.Ok? ==>
      r.0 == FirstReply(Session.Decode(env.p, env.codec, s.session, input).0.value)
  {
    var (nodes, session) := Session.Decode(env.p, env.codec, s.session, input);
    match nodes
    case Err(e) => (Err(e), s.(session := session))
    case Ok(decoded) => (FirstReply(decoded), s.(session := session))
  }

  /** The node branch of `process`: the reply, if any, is sent. */
  ghost function Answer(env: Connection.Environment, s: Stream, payload: seq<byte>): (r: (Result<()>, Stream))
    requires Tokens.Valid(env.codec.tables)
    ensures r.1.state == s.state && Extends(s, r.1)
    ensures ProcessNode(env, s, payload).0.Err? ==> r == (Err(ProcessNode(env, s, payload).0.error), ProcessNode(env, s, payload).1)
    ensures ProcessNode(env, s, payload).0 == Ok(None) ==> r == (Ok(()), ProcessNode(env, s, payload).1)
    ensures ProcessNode(env, s, payload).0.Ok? && ProcessNode(env, s, payload).0.value.Some? ==>
      r == Send(env, ProcessNode(env, s, payload).1, Connection.NodeInput(ProcessNode(env, s, payload).0.value.value))
  {
    var (processed, next) := ProcessNode(env, s, payload);
    match processed
    case Err(e) => (Err(e), next)
    case Ok(None) => (Ok(()), next)
    case Ok(Some(reply)) => Send(env, next, Connection.NodeInput(reply))
  }

  /**
    `process(payload)`: before the node phase, a server hello moves the
    stream to `Handshake` and logs in; a binary message that is not a hello
    moves it to `Iq` for good and is read as nodes. In `Iq` every payload is
    read as nodes.
   */
  ghost function Process(env: Connection.Environment, s: Stream, payload: seq<byte>): (r: (Result<()>, Stream))
    requires Tokens.Valid(env.codec.tables)
    ensures s.state == Iq ==> r == Answer(env, s, payload)
    ensures s.state != Iq && ProcessBinary(payload).Err? ==> r == (Err(ProcessBinary(payload).error), s)
    ensures s.state != Iq && ProcessBinary(payload) == Ok(None) ==> r == Answer(env, s.(state := Iq), payload)
    ensures s.state != Iq && ProcessBinary(payload).Ok? && ProcessBinary(payload).value.Some? ==>
      r == Login(env, s.(state := Handshake), ProcessBinary(payload).value.value)
    ensures s.state == Iq ==> r.1.state == Iq
  {
    match s.state
    case Iq => Answer(env, s, payload)
    case _ =>
      match ProcessBinary(payload)
      case Err(e) => (Err(e), s)
      case Ok(Some(hello)) => Login(env, s.(state := Handshake), hello)
      case Ok(None) => Answer(env, s.(state := Iq), payload)
  }

  /** Once in `Iq` the stream never leaves it, whatever arrives. */
  lemma {:induction false} IqIsFinal(env: Connection.Environment, s: Stream, payloads: seq<seq<byte>>)
    requires Tokens.Valid(env.codec.tables)
    requires s.state == Iq
    ensures ProcessEach(env, s, payloads).1.state == Iq
    decreases |payloads|
  {
    if |payloads| > 0 {
      var (first, next) := Process(env, s, payloads[0]);
      if first.Ok? {
        IqIsFinal(env, next, payloads[1..]);
      }
    }
  }

  /** Payloads processed in order; the first failure ends the loop. */
  ghost function ProcessEach(env: Connection.Environment, s: Stream, payloads: seq<seq<byte>>): (r: (Result<()>, Stream))
    requires Tokens.Valid(env.codec.tables)
    decreases |payloads|
  {
    if |payloads| == 0 then (Ok(()), s)
    else
      var (first, next) := Process(env, s, payloads[0]);
      match first
      case Err(e) => (Err(e), next)
      case Ok(_) => ProcessEach(env, next, payloads[1..])
  }
}
