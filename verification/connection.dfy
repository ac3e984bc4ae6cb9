/**
  The websocket client of the newer generation (whatsapp-websocket/src/client.rs,
  whatsapp-websocket/src/stream.rs and the files under whatsapp-websocket/src/stream/): the
  connection state of whatsapp-util/src/binary/state.rs, the frames handed to
  the sink, and the dispatch of what the server sends.

  The sink is a flag and the frames it accepted; it is assumed to accept every
  frame. The socket is a list of rounds, one per connection attempt.
 */
module Connection {
  import opened Bytes
  import opened Errors
  import opened Wrappers
  import opened Crypto
  import opened Nodes
  import opened Revision
  import Jid
  import Tokens
  import Frame
  import Store
  import Session
  import Auth
  import Handshake
  import Pairing
  import Seqs

  /** `binary::state::State`; `Hello` is the derived default. */
  datatype State = Hello | Handshake | Connected | Reconnect | Closed

  /** `State::is_default`: frames sent in this state carry the prologue. */
  predicate IsDefault(s: State) {
    s == Hello
  }

  /** What the client hands to the sink. */
  datatype Message = Binary(data: seq<byte>) | Close

  /** `WebSocketClient`: the session, the state, whether a sink is held, and every message it accepted. */
  datatype Client = Client(session: Session.Session, state: State, sink: bool, sent: seq<Message>)

  /** `Transmission`: raw bytes to frame, or a node to encode, seal and frame. */
  datatype Transmission = BinaryInput(input: seq<byte>) | NodeInput(node: Node)

  /**
    What the client relies on but this model does not define: the primitives,
    the node codec's tables, the handshake's protobuf codec, pairing's
    conversions, the serialised `ClientHello` for an ephemeral public key
    (`write_to_bytes`), and `Node::error_code`.
   */
  datatype Environment = Environment(
    p: Primitives,
    codec: Session.Codec,
    protobuf: Auth.Protobuf,
    conv: Pairing.Conversions,
    clientHello: Bytes32 -> Result<seq<byte>>,
    errorCode: Node -> Option<nat>)

  /** The messages of `c` are the first messages of `d`: the sink is only ever appended to. */
  predicate Extends(c: Client, d: Client) {
    |c.sent| <= |d.sent| && d.sent[..|c.sent|] == c.sent
  }

  lemma ExtendsTransitive(a: Client, b: Client, c: Client)
    requires Extends(a, b) && Extends(b, c)
    ensures Extends(a, c)
  {
    assert c.sent[..|b.sent|][..|a.sent|] == c.sent[..|a.sent|];
  }

  /** `WebSocketClient::new(session)`: the given session or the default one, no sink, the default state. */
  function NewClient(session: Option<Session.Session>, default: Session.Session): (c: Client)
    ensures IsDefault(c.state) && !c.sink && c.sent == []
    ensures session.Some? ==> c.session == session.value
    ensures session.None? ==> c.session == default
  {
    Client(session.GetOr(default), Hello, false, [])
  }

  /**
    `close(reconnect)`: with a sink, the sink is given up after a close
    message, the state becomes `Reconnect` or `Closed`, and the traffic keys
    and counters return to their defaults while the companion is kept.
    Without a sink nothing happens.
   */
  function Close(c: Client, reconnect: bool): (r: Client)
    ensures !c.sink ==> r == c
    ensures c.sink ==> !r.sink && r.state == (if reconnect then Reconnect else Closed)
    ensures c.sink ==> r.sent == c.sent + [Message.Close]
    ensures c.sink ==> r.session.credentials == c.session.credentials
    ensures c.sink ==> r.session.store == Store.Default().(companion := c.session.store.companion,
                                                          companionIdentity := c.session.store.companionIdentity)
  {
    if !c.sink then c
    else
      var store := c.session.store.(encodeKey := Zeros(32), decodeKey := Zeros(32), readCount := 0, writeCount := 0);
      Client(c.session.(store := store), if reconnect then Reconnect else Closed, false, c.sent + [Message.Close])
  }

  /** A frame with or without the prologue is the prologue, when asked for, before the bare frame. */
  lemma IntroFrame(intro: bool, data: seq<byte>)
    ensures Frame.EncodeFrame(Corrected, intro, data) == Frame.Prologue(intro) + Frame.EncodeFrame(Corrected, false, data)
  {
    Frame.PrologueIffIntro(Corrected, data);
  }

  /** The client after the sink accepted one more frame. */
  function Accepted(c: Client, frame: seq<byte>): (r: Client)
    ensures Extends(c, r) && |r.sent| == |c.sent| + 1 && r.sent[|c.sent|] == Binary(frame)
  {
    c.(sent := c.sent + [Binary(frame)])
  }

  /**
    The node branch of `send`: the session encodes and seals the node (its
    counter advancing as the encoding says), and the frame goes to the sink;
    an encoding failure is wrapped in `EncodeNodeError` and nothing is sent.
   */
  ghost function SendNode(env: Environment, c: Client, node: Node): (r: (Result<()>, Client))
    requires Tokens.Valid(env.codec.tables)
    ensures r.1.state == c.state && r.1.sink == c.sink
    ensures r.1.session == Session.Encode(env.p, env.codec, c.session, IsDefault(c.state), node).1
    ensures r.0.Ok? <==> Session.TransposeEncode(env.p, env.codec, c.session.store, node).0.Ok?
    ensures r.0.Ok? ==> r.1 == Accepted(c.(session := r.1.session), Frame.Prologue(IsDefault(c.state))
        + Frame.EncodeFrame(Corrected, false, Session.TransposeEncode(env.p, env.codec, c.session.store, node).0.value))
    ensures r.0.Err? ==> r.1.sent == c.sent
    ensures r.0.Err? ==> r.0 == Err(EncodeNodeError(Session.Encode(env.p, env.codec, c.session, IsDefault(c.state), node).0.error))
  {
    var (encoded, session) := Session.Encode(env.p, env.codec, c.session, IsDefault(c.state), node);
    match encoded
    case Err(e) => (Err(EncodeNodeError(e)), c.(session := session))
    case Ok(bytes) =>
      IntroFrame(IsDefault(c.state), Session.TransposeEncode(env.p, env.codec, c.session.store, node).0.value);
      (Ok(()), Accepted(c.(session := session), bytes))
  }

  /**
    `send(transmission)`: without a sink, `StreamNotInitialized`. Raw bytes
    are framed as they are; a node is encoded and sealed by the session
    first. The frame carries the prologue exactly when the state is the
    default one.
   */
  ghost function Send(env: Environment, c: Client, t: Transmission): (r: (Result<()>, Client))
    requires Tokens.Valid(env.codec.tables)
    ensures !c.sink ==> r == (Err(StreamNotInitialized), c)
    ensures r.1.state == c.state && r.1.sink == c.sink && r.1.session.credentials == c.session.credentials
    ensures Extends(c, r.1)
    ensures r.0.Ok? <==> |r.1.sent| == |c.sent| + 1
    ensures r.0.Err? ==> r.1.sent == c.sent
    ensures c.sink && t.BinaryInput? ==>
      r == (Ok(()), Accepted(c, Frame.Prologue(IsDefault(c.state)) + Frame.EncodeFrame(Corrected, false, t.input)))
    ensures c.sink && t.NodeInput? ==> r == SendNode(env, c, t.node)
  {
    if !c.sink then (Err(StreamNotInitialized), c)
    else
      match t
      case BinaryInput(input) =>
        IntroFrame(IsDefault(c.state), input);
        (Ok(()), Accepted(c, Session.EncodeBinary(IsDefault(c.state), input)))
      case NodeInput(node) => SendNode(env, c, node)
  }

  /** Once closed, nothing can be sent until the next connection, and a failed send changes nothing. */
  lemma CloseThenSend(env: Environment, c: Client, reconnect: bool, t: Transmission)
    requires Tokens.Valid(env.codec.tables)
    ensures Send(env, Close(c, reconnect), t) == (Err(StreamNotInitialized), Close(c, reconnect))
  {
  }

  /**
    The query node of `query(method, category, body)`: an "iq" with a null
    id, the kind as its type, the WhatsApp server as addressee and the
    category as its namespace; the body is serialised as its content and can
    be read back from it.
   */
  function QueryNode(kind: string, category: string, body: Node): (n: Node)
    ensures n.description == "iq"
    ensures n.attributes.Keys == {"id", "type", "to", "xmlns"}
    ensures n.attributes["id"] == Null && n.attributes["type"] == Text(kind)
    ensures n.attributes["to"] == Text(Jid.Address(Jid.Whatsapp)) && n.attributes["xmlns"] == Text(category)
    ensures FromValue(n.content) == Ok(body)
  {
    FromToValue(body);
    New("iq", map["id" := Null, "type" := Text(kind), "to" := Text(Jid.Address(Jid.Whatsapp)), "xmlns" := Text(category)],
        ToValue(body))
  }

  /**
    `query(method, category, body)`: the query node, sent. Without a sink
    nothing happens; otherwise it succeeds exactly when the session can
    encode the query node, and then exactly one frame, the sealed encoding of
    that node, is added to what was sent. State, sink and credentials stay.
   */
  ghost function Query(env: Environment, c: Client, kind: string, category: string, body: Node): (r: (Result<()>, Client))
    requires Tokens.Valid(env.codec.tables)
    ensures !c.sink ==> r == (Err(StreamNotInitialized), c)
    ensures r.1.state == c.state && r.1.sink == c.sink && r.1.session.credentials == c.session.credentials
    ensures r.0.Ok? <==> c.sink && Session.TransposeEncode(env.p, env.codec, c.session.store, QueryNode(kind, category, body)).0.Ok?
    ensures r.0.Ok? ==> r.1.sent == c.sent + [Binary(Frame.Prologue(IsDefault(c.state)) + Frame.EncodeFrame(Corrected, false,
      Session.TransposeEncode(env.p, env.codec, c.session.store, QueryNode(kind, category, body)).0.value))]
    ensures r.0.Err? ==> r.1.sent == c.sent
  {
    Send(env, c, NodeInput(QueryNode(kind, category, body)))
  }

  /**
    `send_hello`: only in the default state. The client hello, carrying the
    ephemeral public key, is sent with the prologue, and the state moves to
    `Handshake` whether or not the send succeeded. A hello that cannot be
    serialised returns before anything changes.
   */
  ghost function SendHello(env: Environment, c: Client): (r: (Result<()>, Client))
    requires Tokens.Valid(env.codec.tables)
    ensures !IsDefault(c.state) ==> r == (Err(WrongState), c)
    ensures IsDefault(c.state) && env.clientHello(c.session.credentials.ephemeral.public).Err? ==>
      r == (Err(env.clientHello(c.session.credentials.ephemeral.public).error), c)
    ensures IsDefault(c.state) && env.clientHello(c.session.credentials.ephemeral.public).Ok? ==>
      r.1.state == Handshake && r.1.session == c.session && r.1.sink == c.sink
    ensures IsDefault(c.state) && env.clientHello(c.session.credentials.ephemeral.public).Ok? && c.sink ==>
      r.0.Ok? && r.1.sent == c.sent + [Binary(Frame.PROLOGUE
        + Frame.EncodeFrame(Corrected, false, env.clientHello(c.session.credentials.ephemeral.public).value))]
    ensures Extends(c, r.1)
  {
    if !IsDefault(c.state) then (Err(WrongState), c)
    else
      match env.clientHello(c.session.credentials.ephemeral.public)
      case Err(e) => (Err(e), c)
      case Ok(hello) =>
        var (result, next) := Send(env, c, BinaryInput(hello));
        (result, next.(state := Handshake))
  }

  /**
    `login(server_payload)`: the handshake of `create_login` runs on the
    session, which it borrows mutably. If it fails, the error is returned and
    only the exchanges it made stay recorded in the credentials. Otherwise the
    session takes the derived traffic keys, the login message is sent, and the
    state becomes `Connected` whether or not the send succeeded.
   */
  ghost function Login(env: Environment, c: Client, payload: seq<byte>): (r: (Result<()>, Client))
    requires Tokens.Valid(env.codec.tables)
    ensures r.1.session == Auth.CreateLogin(env.p, env.protobuf, c.session, payload).1
    ensures Auth.CreateLogin(env.p, env.protobuf, c.session, payload).0.Err? ==>
      r == (Err(Auth.CreateLogin(env.p, env.protobuf, c.session, payload).0.error),
            c.(session := Auth.CreateLogin(env.p, env.protobuf, c.session, payload).1))
    ensures Auth.CreateLogin(env.p, env.protobuf, c.session, payload).0.Ok? ==>
      r.1.state == Connected && r.1.sink == c.sink
    ensures Auth.CreateLogin(env.p, env.protobuf, c.session, payload).0.Ok? && c.sink ==>
      r.0.Ok? && r.1.sent == c.sent + [Binary(Frame.Prologue(IsDefault(c.state))
        + Auth.Prepare(Handshake.Binary, env.p, env.protobuf, Auth.Begin(env.p, c.session.credentials), payload).value.frame)]
    ensures Extends(c, r.1)
  {
    var (result, session) := Auth.CreateLogin(env.p, env.protobuf, c.session, payload);
    match result
    case Err(e) => (Err(e), c.(session := session))
    case Ok(message) =>
      var (sent, next) := Send(env, c.(session := session), BinaryInput(message));
      (sent, next.(state := Connected))
  }

  /** The frame the server closes the connection with. */
  const CLOSE_FRAME: seq<byte> := [0x88, 0x02, 0x03, 0xF3]

  /** A reply to the client hello is recognised by its first two bytes being zero. */
  predicate IsServerHello(input: seq<byte>) {
    |input| >= 2 && input[0] == 0 && input[1] == 0
  }

  /**
    `process_binary(input)` while handshaking: the close frame is `WsClose`;
    a server hello logs in with the first frame of the input, and a hello
    without a complete frame panics at `swap_remove(0)`; anything else is
    `UnexpectedMessage`.
   */
  ghost function ProcessBinary(env: Environment, c: Client, input: seq<byte>): (r: (Result<()>, Client))
    requires Tokens.Valid(env.codec.tables)
    ensures input == CLOSE_FRAME ==> r == (Err(WsClose), c)
    ensures input != CLOSE_FRAME && !IsServerHello(input) ==> r == (Err(UnexpectedMessage), c)
    ensures IsServerHello(input) && Session.DecodeBinary(input).Ok? && |Session.DecodeBinary(input).value| > 0 ==>
      r == Login(env, c, Session.DecodeBinary(input).value[0])
    ensures IsServerHello(input) && !(Session.DecodeBinary(input).Ok? && |Session.DecodeBinary(input).value| > 0) ==>
      r.0.Err? && r.0.error.Panic? && r.1 == c
    ensures Extends(c, r.1)
  {
    if input == CLOSE_FRAME then (Err(WsClose), c)
    else if IsServerHello(input) then
      match Session.DecodeBinary(input)
      case Err(e) => (Err(e), c)
      case Ok(frames) =>
        if |frames| == 0 then (Err(Panic("swap_remove index (is 0) should be < len (is 0)")), c)
        else Login(env, c, frames[0])
    else (Err(UnexpectedMessage), c)
  }

  /** `StreamError`, the two stream errors the client knows. */
  datatype StreamError = ForceReconnect | Unauthorized

  /** `StreamError::from(code)`: 515 asks for a reconnect, 401 means unauthorised; any other code panics. */
  function StreamErrorOf(code: nat): (r: Result<StreamError>)
    ensures r == Ok(ForceReconnect) <==> code == 515
    ensures r == Ok(Unauthorized) <==> code == 401
    ensures r.Err? ==> r.error.Panic?
  {
    if code == 515 then Ok(ForceReconnect)
    else if code == 401 then Ok(Unauthorized)
    else Err(Panic("not implemented"))
  }

  /**
    `handle_error(node)`: a forced reconnect closes the connection for
    reconnecting and digests to nothing; a missing code, an unauthorised
    client and any other code panic.
   */
  function HandleError(env: Environment, c: Client, node: Node): (r: (Result<()>, Client))
    ensures env.errorCode(node) == Some(515) ==> r == (Ok(()), Close(c, true))
    ensures env.errorCode(node) != Some(515) ==> r.0.Err? && r.0.error.Panic? && r.1 == c
  {
    match env.errorCode(node)
    case None => (Err(Panic("Expected error code")), c)
    case Some(code) =>
      match StreamErrorOf(code)
      case Err(e) => (Err(e), c)
      case Ok(ForceReconnect) => (Ok(()), Close(c, true))
      case Ok(Unauthorized) => (Err(Panic("not yet implemented")), c)
  }

  /**
    `handle_success`: the passive-mode query is sent (a failure to send
    panics), and then the handler stops at an unfinished `todo!`.
   */
  ghost function HandleSuccess(env: Environment, c: Client): (r: (Result<()>, Client))
    requires Tokens.Valid(env.codec.tables)
    ensures r.0.Err? && r.0.error.Panic?
    ensures r.1 == Query(env, c, "set", "passive", FromAttributes("active", map[])).1
  {
    var (queried, next) := Query(env, c, "set", "passive", FromAttributes("active", map[]));
    match queried
    case Err(_) => (Err(Panic("called `Result::unwrap()` on an `Err` value")), next)
    case Ok(_) => (Err(Panic("not yet implemented")), next)
  }

  /**
    `Stream::digest(node)`, dispatched on the description (the node's id).
    An "iq" is handed to the pairing digest on a copy of the session; only
    when it returns a reply is that copy written back, and the reply sent. A
    failed pairing leaves the session as it was.
   */
  ghost function Digest(env: Environment, c: Client, node: Node): (r: (Result<()>, Client))
    requires Tokens.Valid(env.codec.tables)
    ensures node.description == "iq" && Pairing.IqDigest(env.p, env.conv, c.session, node).Err? ==>
      r == (Err(Pairing.IqDigest(env.p, env.conv, c.session, node).error), c)
    ensures node.description == "iq" && Pairing.IqDigest(env.p, env.conv, c.session, node).Ok? ==>
      var reply := Pairing.IqDigest(env.p, env.conv, c.session, node).value.value;
      r == Send(env, c.(session := reply.session), NodeInput(reply.node))
    ensures node.description == "success" ==> r.0.Err? && r.0.error.Panic?
    ensures node.description == "stream:error" ==> r == HandleError(env, c, node)
    ensures node.description == "xmlstreamend" ==> r == (Ok(()), c)
    ensures node.description !in {"iq", "success", "stream:error", "xmlstreamend"} ==> r.0.Err? && r.0.error.Panic? && r.1 == c
    ensures Extends(c, r.1)
  {
    if node.description == "iq" then
      match Pairing.IqDigest(env.p, env.conv, c.session, node)
      case Err(e) => (Err(e), c)
      case Ok(reply) => Send(env, c.(session := reply.value.session), NodeInput(reply.value.node))
    else if node.description == "success" then HandleSuccess(env, c)
    else if node.description == "stream:error" then HandleError(env, c, node)
    else if node.description == "xmlstreamend" then (Ok(()), c)
    else (Err(Panic("not implemented")), c)
  }

  /** The nodes digested in order; the first failure ends the loop. */
  ghost function DigestAll(env: Environment, c: Client, nodes: seq<Node>): (r: (Result<()>, Client))
    requires Tokens.Valid(env.codec.tables)
    ensures |nodes| == 0 ==> r == (Ok(()), c)
    ensures Extends(c, r.1)
    decreases |nodes|
  {
    if |nodes| == 0 then (Ok(()), c)
    else
      var (first, next) := Digest(env, c, nodes[0]);
      match first
      case Err(e) => (Err(e), next)
      case Ok(_) =>
        var rest := DigestAll(env, next, nodes[1..]);
        ExtendsTransitive(c, next, rest.1);
        rest
  }

  /**
    `process_node(input)` once connected: the session decodes the payload's
    frames into nodes, which are digested in order. A decoding failure keeps
    what the session's counters did.
   */
  ghost function ProcessNode(env: Environment, c: Client, input: seq<byte>): (r: (Result<()>, Client))
    requires Tokens.Valid(env.codec.tables)
    ensures Session.Decode(env.p, env.codec, c.session, input).0.Err? ==>
      r == (Err(Session.Decode(env.p, env.codec, c.session, input).0.error),
            c.(session := Session.Decode(env.p, env.codec, c.session, input).1))
    ensures Session.Decode(env.p, env.codec, c.session, input).0.Ok? ==>
      r == DigestAll(env, c.(session := Session.Decode(env.p, env.codec, c.session, input).1),
                     Session.Decode(env.p, env.codec, c.session, input).0.value)
    ensures Extends(c, r.1)
  {
    var (nodes, session) := Session.Decode(env.p, env.codec, c.session, input);
    match nodes
    case Err(e) => (Err(e), c.(session := session))
    case Ok(decoded) => DigestAll(env, c.(session := session), decoded)
  }

  /**
    `process(payload)`, by state: nothing is expected before the hello is
    sent, the handshake reads the server hello, a connected client reads
    nodes, and a closing client ignores the payload.
   */
  ghost function Process(env: Environment, c: Client, payload: seq<byte>): (r: (Result<()>, Client))
    requires Tokens.Valid(env.codec.tables)
    ensures c.state == Hello ==> r == (Err(WrongState), c)
    ensures c.state == Handshake ==> r == ProcessBinary(env, c, payload)
    ensures c.state == Connected ==> r == ProcessNode(env, c, payload)
    ensures c.state in {Reconnect, Closed} ==> r == (Ok(()), c)
    ensures Extends(c, r.1)
  {
    match c.state
    case Hello => (Err(WrongState), c)
    case Handshake => ProcessBinary(env, c, payload)
    case Connected => ProcessNode(env, c, payload)
    case _ => (Ok(()), c)
  }

  /** What the socket yields: a binary message, or anything else (text, ping, close, an error), which is skipped. */
  datatype Incoming = BinaryFrame(data: seq<byte>) | Skipped

  /**
    One connection attempt: the outcome of `connect_async`, whether the
    response status was informational, and the messages read until the
    socket ended.
   */
  datatype Round = Round(connected: Result<()>, informational: bool, incoming: seq<Incoming>)

  /** The inner loop of `connect`: every binary message is processed, the first failure ends it. */
  ghost function ProcessAll(env: Environment, c: Client, incoming: seq<Incoming>): (r: (Result<()>, Client))
    requires Tokens.Valid(env.codec.tables)
    ensures |incoming| == 0 ==> r == (Ok(()), c)
    ensures Extends(c, r.1)
    decreases |incoming|
  {
    if |incoming| == 0 then (Ok(()), c)
    else
      match incoming[0]
      case Skipped => ProcessAll(env, c, incoming[1..])
      case BinaryFrame(data) =>
        var (first, next) := Process(env, c, data);
        match first
        case Err(e) => (Err(e), next)
        case Ok(_) =>
          var rest := ProcessAll(env, next, incoming[1..]);
          ExtendsTransitive(c, next, rest.1);
          rest
  }

  /** The attempt that `connect` makes for one round: it starts from the default state with a fresh sink. */
  ghost function Attempt(env: Environment, c: Client, round: Round): (r: (Result<()>, Client))
    requires Tokens.Valid(env.codec.tables)
    ensures round.connected.Err? ==> r == (Err(round.connected.error), c.(state := Hello))
    ensures round.connected.Ok? && !round.informational ==> r == (Err(WebSocketConnectError), c.(state := Hello))
    ensures round.connected.Ok? && round.informational && env.clientHello(c.session.credentials.ephemeral.public).Ok? ==>
      |r.1.sent| > |c.sent| && r.1.sent[|c.sent|] == Binary(Frame.PROLOGUE
        + Frame.EncodeFrame(Corrected, false, env.clientHello(c.session.credentials.ephemeral.public).value))
    ensures Extends(c, r.1)
  {
    var start := c.(state := Hello);
    if round.connected.Err? then (Err(round.connected.error), start)
    else if !round.informational then (Err(WebSocketConnectError), start)
    else
      var (hello, greeted) := SendHello(env, start.(sink := true));
      match hello
      case Err(e) => (Err(e), greeted)
      case Ok(_) =>
        var rest := ProcessAll(env, greeted, round.incoming);
        ExtendsTransitive(c, greeted, rest.1);
        rest
  }

  /**
    The outer loop of `connect`: attempts continue while the state is the
    default or a reconnect was asked for. `None` when the rounds given run
    out before the loop ends.
   */
  ghost function Reconnecting(env: Environment, c: Client, rounds: seq<Round>): (r: Option<(Result<()>, Client)>)
    requires Tokens.Valid(env.codec.tables)
    ensures c.state !in {Hello, Reconnect} ==> r == Some((Ok(()), c))
    ensures r.Some? ==> Extends(c, r.value.1)
    decreases |rounds|
  {
    if c.state !in {Hello, Reconnect} then Some((Ok(()), c))
    else if |rounds| == 0 then None
    else
      var (attempt, next) := Attempt(env, c, rounds[0]);
      match attempt
      case Err(e) => Some((Err(e), next))
      case Ok(_) =>
        var rest := Reconnecting(env, next, rounds[1..]);
        if rest.Some? then ExtendsTransitive(c, next, rest.value.1); rest else rest
  }

  /**
    `connect()`: a client that is neither in the default state nor closed is
    `StreamAlreadyInitialized`. A closed client passes the guard but never
    enters the loop, so connecting it does nothing.
   */
  ghost function Connect(env: Environment, c: Client, rounds: seq<Round>): (r: Option<(Result<()>, Client)>)
    requires Tokens.Valid(env.codec.tables)
    ensures c.state in {Handshake, Connected, Reconnect} ==> r == Some((Err(StreamAlreadyInitialized), c))
    ensures c.state == Closed ==> r == Some((Ok(()), c))
    ensures r.Some? ==> Extends(c, r.value.1)
  {
    if !IsDefault(c.state) && c.state != Closed then Some((Err(StreamAlreadyInitialized), c))
    else Reconnecting(env, c, rounds)
  }

  /**
    Every connection starts with the hello: when the first attempt connects,
    the first message the sink accepts is the client hello with the prologue.
   */
  lemma ConnectGreetsFirst(env: Environment, c: Client, rounds: seq<Round>, hello: seq<byte>)
    requires Tokens.Valid(env.codec.tables)
    requires c.state == Hello && |rounds| > 0 && rounds[0].connected.Ok? && rounds[0].informational
    requires env.clientHello(c.session.credentials.ephemeral.public) == Ok(hello)
    requires Connect(env, c, rounds).Some?
    ensures |Connect(env, c, rounds).value.1.sent| > |c.sent|
    ensures Connect(env, c, rounds).value.1.sent[|c.sent|] == Binary(Frame.PROLOGUE + Frame.EncodeFrame(Corrected, false, hello))
  {
    var (attempt, next) := Attempt(env, c, rounds[0]);
    if attempt.Ok? {
      var rest := Reconnecting(env, next, rounds[1..]);
      assert Connect(env, c, rounds) == rest;
      assert rest.value.1.sent[..|next.sent|][|c.sent|] == next.sent[|c.sent|];
    }
  }

  /** The three header bytes of a bare frame of `n` bytes. */
  lemma BareHeader(data: seq<byte>)
    requires |data| < 0x1_0000
    ensures |Frame.EncodeFrame(Corrected, false, data)| >= 3
    ensures Frame.EncodeFrame(Corrected, false, data)[0] == 0
    ensures Frame.EncodeFrame(Corrected, false, data)[1] == |data| / 256
    ensures Frame.EncodeFrame(Corrected, false, data)[2] == |data| % 256
  {
    BigEndian3(|data|);
  }

  /**
    The handshake on the wire: after the hello, a server hello that arrives
    as one frame is answered with exactly the frame the login handshake
    builds, and the client is connected. The hello goes out with the
    prologue, the login without it.
   */
  lemma {:induction false} HelloThenLogin(env: Environment, c: Client, hello: seq<byte>, greeted: Client, payload: seq<byte>,
                        done: (Result<()>, Client))
    requires Tokens.Valid(env.codec.tables)
    requires c.sink && c.state == Hello
    requires env.clientHello(c.session.credentials.ephemeral.public) == Ok(hello)
    requires greeted == SendHello(env, c).1
    requires |payload| < 256
    requires Auth.CreateLogin(env.p, env.protobuf, c.session, payload).0.Ok?
    requires done == Process(env, greeted, Frame.EncodeFrame(Corrected, false, payload))
    ensures done.0.Ok? && done.1.state == Connected
    ensures done.1.sent == c.sent + [Binary(Frame.PROLOGUE + Frame.EncodeFrame(Corrected, false, hello)),
      Binary(Auth.Prepare(Handshake.Binary, env.p, env.protobuf, Auth.Begin(env.p, c.session.credentials), payload).value.frame)]
  {
    assert greeted.state == Handshake && greeted.session == c.session && greeted.sink;
    LoginAfterHello(env, greeted, payload, done);
    var first := Binary(Frame.PROLOGUE + Frame.EncodeFrame(Corrected, false, hello));
    var second := Binary(Auth.Prepare(Handshake.Binary, env.p, env.protobuf, Auth.Begin(env.p, c.session.credentials), payload).value.frame);
    Seqs.AppendTwo(c.sent, first, second);
  }

  /** While handshaking, a server hello under 256 bytes framed alone is answered with the login frame, and the client is connected. */
  lemma {:induction false} LoginAfterHello(env: Environment, c: Client, payload: seq<byte>, done: (Result<()>, Client))
    requires Tokens.Valid(env.codec.tables)
    requires c.state == Handshake && c.sink && |payload| < 256
    requires Auth.CreateLogin(env.p, env.protobuf, c.session, payload).0.Ok?
    requires done == Process(env, c, Frame.EncodeFrame(Corrected, false, payload))
    ensures done.0.Ok? && done.1.state == Connected
    ensures done.1.sent == c.sent +
      [Binary(Auth.Prepare(Handshake.Binary, env.p, env.protobuf, Auth.Begin(env.p, c.session.credentials), payload).value.frame)]
  {
    ServerHelloLogsIn(env, c, payload);
    HandshakeLoginSends(env, c, payload);
  }

  /** While handshaking, a login that succeeds sends the finish frame without the prologue and connects. */
  lemma {:induction false} HandshakeLoginSends(env: Environment, c: Client, payload: seq<byte>)
    requires Tokens.Valid(env.codec.tables)
    requires c.state == Handshake && c.sink
    requires Auth.CreateLogin(env.p, env.protobuf, c.session, payload).0.Ok?
    ensures Login(env, c, payload).0.Ok? && Login(env, c, payload).1.state == Connected
    ensures Login(env, c, payload).1.sent == c.sent +
      [Binary(Auth.Prepare(Handshake.Binary, env.p, env.protobuf, Auth.Begin(env.p, c.session.credentials), payload).value.frame)]
  {
    var login := Auth.Prepare(Handshake.Binary, env.p, env.protobuf, Auth.Begin(env.p, c.session.credentials), payload).value.frame;
    assert Frame.Prologue(IsDefault(c.state)) + login == login;
  }

  /** While handshaking, a server hello under 256 bytes framed alone logs in with exactly that hello. */
  lemma {:induction false} ServerHelloLogsIn(env: Environment, c: Client, payload: seq<byte>)
    requires Tokens.Valid(env.codec.tables)
    requires c.state == Handshake && |payload| < 256
    ensures Process(env, c, Frame.EncodeFrame(Corrected, false, payload)) == Login(env, c, payload)
  {
    var frame := Frame.EncodeFrame(Corrected, false, payload);
    BareHeader(payload);
    assert IsServerHello(frame) && frame != CLOSE_FRAME;
    Session.OneFrame(payload);
  }

  /**
    A server hello of 256 bytes or more, framed alone, does not start with
    two zero bytes and is rejected as `UnexpectedMessage`.
   */
  lemma LongHelloUnexpected(env: Environment, c: Client, payload: seq<byte>)
    requires Tokens.Valid(env.codec.tables)
    requires 256 <= |payload| < 0x1_0000
    ensures ProcessBinary(env, c, Frame.EncodeFrame(Corrected, false, payload)) == (Err(UnexpectedMessage), c)
  {
    BareHeader(payload);
  }

  /**
    A failed pairing is forgotten: `identify` records the companion on the
    copy of the session before its checks fail, and the copy is dropped, so
    the client keeps the session it had.
   */
  lemma PairingFailureKeepsSession(env: Environment, c: Client, node: Node, container: Node)
    requires Tokens.Valid(env.codec.tables)
    requires node.description == "iq"
    requires Pairing.Container(node) == Ok(container) && container.description == "pair-success"
    requires Pairing.SaveCompanion(env.conv, container, c.session.store).Ok?
    requires Pairing.Accept(env.p, env.conv, c.session.credentials, container).Err?
    ensures Pairing.Identify(env.p, env.conv, c.session, node, container).1.store.companion.Some?
    ensures Digest(env, c, node) == (Err(Pairing.Accept(env.p, env.conv, c.session.credentials, container).error), c)
  {
  }
}
