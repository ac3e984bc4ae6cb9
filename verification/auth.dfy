/**
  The client side of the Noise XX handshake (`AuthHandler::login`,
  whatsapp-websocket/src/client/auth.rs): absorb the server hello, mix in
  three Diffie-Hellman results, decrypt the server's static key and payload,
  encrypt the client's noise key and payload, and send the finish message
  framed without the prologue.
 */
module Auth {
  import opened Bytes
  import opened Errors
  import opened Crypto
  import opened Nonces
  import opened Keys
  import Store
  import opened Handshake
  import Frame
  import Revision
  import Session

  /** `HandshakeMessage.serverHello`; an absent field reads as empty, as the protobuf accessors return. */
  datatype ServerHello = ServerHello(ephemeral: seq<byte>, serverStatic: seq<byte>, payload: seq<byte>)

  /**
    The protobuf side of login, which is not modelled: parsing the server's
    handshake message, serialising the client payload that
    `create_user_payload` builds from the credentials, and serialising
    `HandshakeMessage { clientFinish: { static, payload } }`.
   */
  datatype Protobuf = Protobuf(
    parseHello: seq<byte> -> Result<ServerHello>,
    clientPayload: Credentials -> Result<seq<byte>>,
    writeFinish: (seq<byte>, seq<byte>) -> Result<seq<byte>>)

  /** One AES-GCM call of the handshake: key, counter value, associated data and input. */
  datatype Cipher = Cipher(key: Bytes32, iv: u64, aad: Bytes32, input: seq<byte>)

  /** The handshake in progress: the transcript, the credentials whose key pairs record their exchanges, and the cipher calls made so far. */
  datatype Handshaking = Handshaking(t: Transcript, credentials: Credentials, calls: seq<Cipher>)

  function CallOf(t: Transcript, input: seq<byte>): Cipher {
    Cipher(t.key, t.iv, t.hash, input)
  }

  /** `handshake.decrypt(input)?`, recording the call. */
  function DecryptStep(gen: Generation, p: Primitives, h: Handshaking, input: seq<byte>): (r: Result<(seq<byte>, Handshaking)>)
    ensures r.Ok? <==> p.open(h.t.key, Nonce(h.t.iv), h.t.hash, input).Ok?
    ensures r.Ok? ==> r.value.0 == p.open(h.t.key, Nonce(h.t.iv), h.t.hash, input).value
    ensures r.Ok? ==> r.value.1.t == Decrypt(gen, p, h.t, input).state
    ensures r.Ok? ==> r.value.1.calls == h.calls + [CallOf(h.t, input)]
    ensures r.Ok? ==> r.value.1.credentials == h.credentials
  {
    var step := Decrypt(gen, p, h.t, input);
    var plain :- step.result;
    Ok((plain, Handshaking(step.state, h.credentials, h.calls + [CallOf(h.t, input)])))
  }

  /** `handshake.encrypt(input)?`, recording the call. */
  function EncryptStep(gen: Generation, p: Primitives, h: Handshaking, input: seq<byte>): (r: Result<(seq<byte>, Handshaking)>)
    ensures r.Ok? <==> p.seal(h.t.key, Nonce(h.t.iv), h.t.hash, input).Ok?
    ensures r.Ok? ==> r.value.0 == p.seal(h.t.key, Nonce(h.t.iv), h.t.hash, input).value
    ensures r.Ok? ==> r.value.1.t == Encrypt(gen, p, h.t, input).state
    ensures r.Ok? ==> r.value.1.calls == h.calls + [CallOf(h.t, input)]
    ensures r.Ok? ==> r.value.1.credentials == h.credentials
  {
    var step := Encrypt(gen, p, h.t, input);
    var sealed :- step.result;
    Ok((sealed, Handshaking(step.state, h.credentials, h.calls + [CallOf(h.t, input)])))
  }

  /**
    `mix_ephemeral_shared(their)`: the ephemeral key pair exchanges with the
    server's ephemeral key and the shared secret is mixed in. A key that is
    not 32 bytes panics.
   */
  function MixEphemeralShared(p: Primitives, h: Handshaking, their: seq<byte>): (r: Result<Handshaking>)
    ensures r.Ok? <==> |their| == 32
    ensures r.Ok? ==> r.value.t == Mix(p, h.t, p.dh(h.credentials.ephemeral.secret, their))
    ensures r.Ok? ==> r.value.calls == h.calls
    ensures r.Ok? ==>
      r.value.credentials.ephemeral.exchanges == h.credentials.ephemeral.exchanges + [p.dh(h.credentials.ephemeral.secret, their)]
    ensures r.Ok? ==> r.value.credentials.noise == h.credentials.noise
    ensures r.Err? ==> r.error.Panic?
  {
    var exchanged :- ExchangeWith(p, h.credentials.ephemeral, their);
    Ok(h.(t := Mix(p, h.t, exchanged.0), credentials := h.credentials.(ephemeral := exchanged.1)))
  }

  /** `mix_noise_shared(their)`: as `mix_ephemeral_shared`, with the noise key pair. */
  function MixNoiseShared(p: Primitives, h: Handshaking, their: seq<byte>): (r: Result<Handshaking>)
    ensures r.Ok? <==> |their| == 32
    ensures r.Ok? ==> r.value.t == Mix(p, h.t, p.dh(h.credentials.noise.secret, their))
    ensures r.Ok? ==> r.value.calls == h.calls
    ensures r.Ok? ==>
      r.value.credentials.noise.exchanges == h.credentials.noise.exchanges + [p.dh(h.credentials.noise.secret, their)]
    ensures r.Ok? ==> r.value.credentials.ephemeral == h.credentials.ephemeral
    ensures r.Err? ==> r.error.Panic?
  {
    var exchanged :- ExchangeWith(p, h.credentials.noise, their);
    Ok(h.(t := Mix(p, h.t, exchanged.0), credentials := h.credentials.(noise := exchanged.1)))
  }

  /**
    `mix_static(their)`: the server's encrypted static key is decrypted, the
    ephemeral key pair exchanges with the plaintext, and the result is mixed in.
   */
  function MixStatic(gen: Generation, p: Primitives, h: Handshaking, their: seq<byte>): (r: Result<Handshaking>)
    ensures r.Ok? ==> DecryptStep(gen, p, h, their).Ok?
    ensures r.Ok? ==> r.value.calls == h.calls + [CallOf(h.t, their)]
    ensures r.Ok? ==> r.value.t.iv == 0
  {
    var decrypted :- DecryptStep(gen, p, h, their);
    MixEphemeralShared(p, decrypted.1, decrypted.0)
  }

  /** `process_payload(their)`: the server payload is decrypted and its plaintext discarded. */
  function ProcessPayload(gen: Generation, p: Primitives, h: Handshaking, their: seq<byte>): (r: Result<Handshaking>)
    ensures r.Ok? <==> DecryptStep(gen, p, h, their).Ok?
    ensures r.Ok? ==> r.value == DecryptStep(gen, p, h, their).value.1
  {
    var decrypted :- DecryptStep(gen, p, h, their);
    Ok(decrypted.1)
  }

  /** What login sends: the serialised finish message and its frame; and the state it leaves behind. */
  datatype Finished = Finished(message: seq<byte>, frame: seq<byte>, handshake: Handshaking)

  /** The first half of login: the server hello up to and including `process_payload`. */
  function Receive(gen: Generation, p: Primitives, h: Handshaking, hello: ServerHello): (r: Result<Handshaking>)
    ensures r.Ok? ==> |r.value.calls| == |h.calls| + 2
    ensures r.Ok? ==> r.value.calls[|h.calls|].iv == 0 && r.value.calls[|h.calls| + 1].iv == 0
    ensures r.Ok? ==> r.value.calls[|h.calls|].input == hello.serverStatic
    ensures r.Ok? ==> r.value.calls[|h.calls| + 1].input == hello.payload
    ensures r.Ok? ==> r.value.calls[..|h.calls|] == h.calls
    ensures r.Ok? ==> r.value.t.iv == 1 && r.value.t.key == r.value.calls[|h.calls| + 1].key
  {
    var absorbed := h.(t := Rehash(p, h.t, hello.ephemeral));
    var mixed :- MixEphemeralShared(p, absorbed, hello.ephemeral);
    var keyed :- MixStatic(gen, p, mixed, hello.serverStatic);
    ProcessPayload(gen, p, keyed, hello.payload)
  }

  /** The second half of login: the client's noise key and payload, sealed. */
  function Respond(gen: Generation, p: Primitives, codec: Protobuf, h: Handshaking, hello: ServerHello)
    : (r: Result<Finished>)
    ensures r.Ok? ==> |r.value.handshake.calls| == |h.calls| + 2
    ensures r.Ok? ==> r.value.handshake.calls[|h.calls|] == CallOf(h.t, h.credentials.noise.public)
    ensures r.Ok? ==> r.value.handshake.calls[|h.calls| + 1].iv == 0
    ensures r.Ok? ==> r.value.handshake.calls[..|h.calls|] == h.calls
    ensures r.Ok? ==> r.value.frame == Frame.EncodeFrame(Revision.Corrected, false, r.value.message)
  {
    var sealedKey :- EncryptStep(gen, p, h, h.credentials.noise.public);
    var mixed :- MixNoiseShared(p, sealedKey.1, hello.ephemeral);
    var payload :- codec.clientPayload(mixed.credentials);
    var sealedPayload :- EncryptStep(gen, p, mixed, payload);
    var serialised := codec.writeFinish(sealedKey.0, sealedPayload.0);
    var frame :- Frame.EncodeMessage(Revision.Corrected, false, serialised);
    Ok(Finished(serialised.value, frame, sealedPayload.1))
  }

  /** `login` up to the send: everything that can fail before anything is sent. */
  function Prepare(gen: Generation, p: Primitives, codec: Protobuf, h: Handshaking, message: seq<byte>)
    : (r: Result<Finished>)
    ensures r.Ok? ==> r.value.frame == Frame.EncodeFrame(Revision.Corrected, false, r.value.message)
  {
    var hello :- codec.parseHello(message);
    var received :- Receive(gen, p, h, hello);
    Respond(gen, p, codec, received, hello)
  }

  /** A key pair that kept its keys and only recorded further exchanges. */
  predicate Grows(before: Keypair, after: Keypair) {
    after.public == before.public && after.secret == before.secret && before.exchanges <= after.exchanges
  }

  /** Credentials that only recorded further exchanges on their noise and ephemeral key pairs. */
  predicate Keeps(before: Credentials, after: Credentials) {
    && Grows(before.noise, after.noise) && Grows(before.ephemeral, after.ephemeral)
    && after.identity == before.identity && after.signed == before.signed
    && after.registrationId == before.registrationId
  }

  lemma KeepsTransitive(a: Credentials, b: Credentials, c: Credentials)
    requires Keeps(a, b) && Keeps(b, c)
    ensures Keeps(a, c)
  {
    assert a.noise.exchanges <= c.noise.exchanges;
    assert a.ephemeral.exchanges <= c.ephemeral.exchanges;
  }

  /**
    The credentials as the first half of login leaves them, whether or not it
    succeeds: the handler holds them by mutable reference, so an exchange made
    before a later step fails stays recorded.
   */
  function ReceiveLeaves(gen: Generation, p: Primitives, h: Handshaking, hello: ServerHello): (c: Credentials)
    ensures Receive(gen, p, h, hello).Ok? ==> c == Receive(gen, p, h, hello).value.credentials
    ensures Keeps(h.credentials, c)
    ensures c.noise == h.credentials.noise
    ensures |c.ephemeral.exchanges| <= |h.credentials.ephemeral.exchanges| + 2
    ensures |hello.ephemeral| != 32 ==> c == h.credentials
    ensures |hello.ephemeral| == 32 ==>
      |c.ephemeral.exchanges| > |h.credentials.ephemeral.exchanges| &&
      c.ephemeral.exchanges[|h.credentials.ephemeral.exchanges|] == p.dh(h.credentials.ephemeral.secret, hello.ephemeral)
  {
    var absorbed := h.(t := Rehash(p, h.t, hello.ephemeral));
    match MixEphemeralShared(p, absorbed, hello.ephemeral)
    case Err(_) => h.credentials
    case Ok(mixed) =>
      match MixStatic(gen, p, mixed, hello.serverStatic)
      case Err(_) => mixed.credentials
      case Ok(keyed) => keyed.credentials
  }

  /** The credentials as the second half of login leaves them, whether or not it succeeds. */
  function RespondLeaves(gen: Generation, p: Primitives, codec: Protobuf, h: Handshaking, hello: ServerHello)
    : (c: Credentials)
    ensures Respond(gen, p, codec, h, hello).Ok? ==> c == Respond(gen, p, codec, h, hello).value.handshake.credentials
    ensures Keeps(h.credentials, c)
    ensures c.ephemeral == h.credentials.ephemeral
    ensures |c.noise.exchanges| <= |h.credentials.noise.exchanges| + 1
  {
    RespondCredentials(gen, p, codec, h, hello);
    match EncryptStep(gen, p, h, h.credentials.noise.public)
    case Err(_) => h.credentials
    case Ok(sealedKey) =>
      match MixNoiseShared(p, sealedKey.1, hello.ephemeral)
      case Err(_) => h.credentials
      case Ok(mixed) => mixed.credentials
  }

  /** A response that succeeds carries the credentials as `mix_noise_shared` left them: sealing does not touch them. */
  lemma RespondCredentials(gen: Generation, p: Primitives, codec: Protobuf, h: Handshaking, hello: ServerHello)
    ensures Respond(gen, p, codec, h, hello).Ok? ==>
      && EncryptStep(gen, p, h, h.credentials.noise.public).Ok?
      && MixNoiseShared(p, EncryptStep(gen, p, h, h.credentials.noise.public).value.1, hello.ephemeral).Ok?
      && Respond(gen, p, codec, h, hello).value.handshake.credentials
         == MixNoiseShared(p, EncryptStep(gen, p, h, h.credentials.noise.public).value.1, hello.ephemeral).value.credentials
  {
  }

  /**
    The credentials as `login` leaves them, whether or not it succeeds: on
    success those of the finished handshake; after a failure, every exchange
    made before it. Once the hello parses with a 32-byte ephemeral key, the
    shared secret with it is recorded even when the server's static key then
    fails to decrypt.
   */
  function Reached(gen: Generation, p: Primitives, codec: Protobuf, h: Handshaking, message: seq<byte>): (c: Credentials)
    ensures Prepare(gen, p, codec, h, message).Ok? ==> c == Prepare(gen, p, codec, h, message).value.handshake.credentials
    ensures Keeps(h.credentials, c)
    ensures |c.ephemeral.exchanges| <= |h.credentials.ephemeral.exchanges| + 2
    ensures |c.noise.exchanges| <= |h.credentials.noise.exchanges| + 1
    ensures codec.parseHello(message).Err? ==> c == h.credentials
    ensures codec.parseHello(message).Ok? && |codec.parseHello(message).value.ephemeral| != 32 ==> c == h.credentials
    ensures codec.parseHello(message).Ok? && |codec.parseHello(message).value.ephemeral| == 32 ==>
      |c.ephemeral.exchanges| > |h.credentials.ephemeral.exchanges| &&
      c.ephemeral.exchanges[|h.credentials.ephemeral.exchanges|]
        == p.dh(h.credentials.ephemeral.secret, codec.parseHello(message).value.ephemeral)
  {
    match codec.parseHello(message)
    case Err(_) => h.credentials
    case Ok(hello) =>
      match Receive(gen, p, h, hello)
      case Err(_) => ReceiveLeaves(gen, p, h, hello)
      case Ok(received) =>
        var c := RespondLeaves(gen, p, codec, received, hello);
        assert received.credentials == ReceiveLeaves(gen, p, h, hello);
        KeepsTransitive(h.credentials, received.credentials, c);
        c
  }

  /** The outcome of `login`: its result, the frame handed to the sink if any, and the session store afterwards. */
  datatype Login = Login(result: Result<()>, sent: seq<seq<byte>>, store: Store.SessionStore, handshake: Handshaking)

  /**
    `login(message, sink)`. The finish frame is sent only once every step has
    succeeded; `finish()` then derives the traffic keys from the final salt,
    and a sink failure (`sent` is the outcome the sink reports) becomes
    "Sink error".
   */
  function LoginWith(gen: Generation, p: Primitives, codec: Protobuf, h: Handshaking, store: Store.SessionStore,
                     message: seq<byte>, sink: Result<()>): (r: Login)
    ensures Prepare(gen, p, codec, h, message).Err? ==>
      r.result == Err(Prepare(gen, p, codec, h, message).error) && r.sent == [] && r.store == store
    ensures Prepare(gen, p, codec, h, message).Ok? ==>
      r.sent == [Prepare(gen, p, codec, h, message).value.frame] &&
      r.store == Finish(p, Prepare(gen, p, codec, h, message).value.handshake.t, store)
    ensures r.result.Ok? <==> Prepare(gen, p, codec, h, message).Ok? && sink.Ok?
    ensures r.handshake.credentials == Reached(gen, p, codec, h, message)
  {
    match Prepare(gen, p, codec, h, message)
    case Err(e) => Login(Err(e), [], store, h.(credentials := Reached(gen, p, codec, h, message)))
    case Ok(finished) =>
      var result: Result<()> := if sink.Ok? then Ok(()) else Err(Bail("Sink error"));
      Login(result, [finished.frame], Finish(p, finished.handshake.t, store), finished.handshake)
  }

  /** A login that gets past every step parsed the hello, received it, and its outcome is the response. */
  lemma PrepareSteps(gen: Generation, p: Primitives, codec: Protobuf, h: Handshaking, message: seq<byte>)
    requires Prepare(gen, p, codec, h, message).Ok?
    ensures codec.parseHello(message).Ok?
    ensures Receive(gen, p, h, codec.parseHello(message).value).Ok?
    ensures Respond(gen, p, codec, Receive(gen, p, h, codec.parseHello(message).value).value, codec.parseHello(message).value)
         == Prepare(gen, p, codec, h, message)
  {
  }

  /**
    The four AES-GCM calls of a successful login, in order: the server static
    key, the server payload, the client noise key, and then the client payload.
   */
  lemma LoginCipherInputs(gen: Generation, p: Primitives, codec: Protobuf, h: Handshaking, message: seq<byte>)
    requires h.calls == []
    requires Prepare(gen, p, codec, h, message).Ok?
    ensures |Prepare(gen, p, codec, h, message).value.handshake.calls| == 4
    ensures Prepare(gen, p, codec, h, message).value.handshake.calls[0].input
         == codec.parseHello(message).value.serverStatic
    ensures Prepare(gen, p, codec, h, message).value.handshake.calls[1].input
         == codec.parseHello(message).value.payload
    ensures Prepare(gen, p, codec, h, message).value.handshake.calls[2].input == h.credentials.noise.public
  {
    PrepareSteps(gen, p, codec, h, message);
    var hello := codec.parseHello(message).value;
    var received := Receive(gen, p, h, hello).value;
    var finished := Respond(gen, p, codec, received, hello).value;
    CallsPrefix(received.calls, finished.handshake.calls);
  }

  /**
    The counters of those calls: the server static key at counter 0 under the
    first mixed key, the server payload at 0 and the client noise key at 1
    under the second, and the client payload at 0 under the third.
   */
  lemma LoginCipherCounters(gen: Generation, p: Primitives, codec: Protobuf, h: Handshaking, message: seq<byte>)
    requires h.calls == []
    requires Prepare(gen, p, codec, h, message).Ok?
    ensures |Prepare(gen, p, codec, h, message).value.handshake.calls| == 4
    ensures Prepare(gen, p, codec, h, message).value.handshake.calls[0].iv == 0
    ensures Prepare(gen, p, codec, h, message).value.handshake.calls[1].iv == 0
    ensures Prepare(gen, p, codec, h, message).value.handshake.calls[2].iv == 1
    ensures Prepare(gen, p, codec, h, message).value.handshake.calls[3].iv == 0
  {
    PrepareSteps(gen, p, codec, h, message);
    var hello := codec.parseHello(message).value;
    var received := Receive(gen, p, h, hello).value;
    var finished := Respond(gen, p, codec, received, hello).value;
    CallsPrefix(received.calls, finished.handshake.calls);
  }

  /** The server payload and the client noise key are sealed under the same key, the one `mix_static` derived. */
  lemma LoginCipherKeys(gen: Generation, p: Primitives, codec: Protobuf, h: Handshaking, message: seq<byte>)
    requires h.calls == []
    requires Prepare(gen, p, codec, h, message).Ok?
    ensures |Prepare(gen, p, codec, h, message).value.handshake.calls| == 4
    ensures Prepare(gen, p, codec, h, message).value.handshake.calls[1].key
         == Prepare(gen, p, codec, h, message).value.handshake.calls[2].key
  {
    PrepareSteps(gen, p, codec, h, message);
    var hello := codec.parseHello(message).value;
    var received := Receive(gen, p, h, hello).value;
    var finished := Respond(gen, p, codec, received, hello).value;
    CallsPrefix(received.calls, finished.handshake.calls);
  }

  /** The first two of four calls are the two calls made before. */
  lemma CallsPrefix(before: seq<Cipher>, after: seq<Cipher>)
    requires |before| == 2 && |after| == 4 && after[..2] == before
    ensures after[0] == before[0] && after[1] == before[1]
  {
    assert after[0] == after[..2][0];
    assert after[1] == after[..2][1];
  }

  /** A cipher step gives the same outcome in both generations: they differ only after a failure, which login does not survive. */
  lemma StepGenerations(p: Primitives, h: Handshaking, input: seq<byte>)
    ensures DecryptStep(Legacy, p, h, input) == DecryptStep(Binary, p, h, input)
    ensures EncryptStep(Legacy, p, h, input) == EncryptStep(Binary, p, h, input)
  {
    DecryptGenerations(p, h.t, input);
    EncryptGenerations(p, h.t, input);
  }

  lemma ReceiveGenerations(p: Primitives, h: Handshaking, hello: ServerHello)
    ensures Receive(Legacy, p, h, hello) == Receive(Binary, p, h, hello)
  {
    var absorbed := h.(t := Rehash(p, h.t, hello.ephemeral));
    var mixed := MixEphemeralShared(p, absorbed, hello.ephemeral);
    if mixed.Ok? {
      StepGenerations(p, mixed.value, hello.serverStatic);
      var keyed := MixStatic(Legacy, p, mixed.value, hello.serverStatic);
      if keyed.Ok? {
        StepGenerations(p, keyed.value, hello.payload);
      }
    }
  }

  lemma RespondGenerations(p: Primitives, codec: Protobuf, h: Handshaking, hello: ServerHello)
    ensures Respond(Legacy, p, codec, h, hello) == Respond(Binary, p, codec, h, hello)
  {
    StepGenerations(p, h, h.credentials.noise.public);
    var sealedKey := EncryptStep(Legacy, p, h, h.credentials.noise.public);
    if sealedKey.Ok? {
      var mixed := MixNoiseShared(p, sealedKey.value.1, hello.ephemeral);
      if mixed.Ok? {
        var payload := codec.clientPayload(mixed.value.credentials);
        if payload.Ok? {
          StepGenerations(p, mixed.value, payload.value);
        }
      }
    }
  }

  /**
    Login behaves the same over either handshake generation: the older one,
    which the login handler uses, could be replaced by the newer one.
   */
  lemma LoginGenerations(p: Primitives, codec: Protobuf, h: Handshaking, message: seq<byte>)
    ensures Prepare(Legacy, p, codec, h, message) == Prepare(Binary, p, codec, h, message)
  {
    var hello := codec.parseHello(message);
    if hello.Ok? {
      ReceiveGenerations(p, h, hello.value);
      var received := Receive(Legacy, p, h, hello.value);
      if received.Ok? {
        RespondGenerations(p, codec, received.value, hello.value);
      }
    }
  }

  /**
    `Handshake::new(store, credentials)` of the newer generation: the
    transcript starts from the credentials' ephemeral key and no cipher call
    has been made.
   */
  function Begin(p: Primitives, credentials: Credentials): (h: Handshaking)
    ensures h.t == Start(p, credentials.ephemeral.public) && h.credentials == credentials && h.calls == []
  {
    Handshaking(Start(p, credentials.ephemeral.public), credentials, [])
  }

  /**
    `AuthHandler::create_login(session, payload)`, which the connection layer
    calls: the login handshake of the newer generation over the session's
    credentials, which it borrows mutably. It returns the serialised finish
    message, which the caller frames, together with the session as it leaves
    it: on success the store holds the traffic keys `finish` derives; in every
    case the key pairs record the exchanges made, those before a failure
    included. A failure returns before the store is touched.
   */
  function CreateLogin(p: Primitives, codec: Protobuf, s: Session.Session, payload: seq<byte>)
    : (r: (Result<seq<byte>>, Session.Session))
    ensures r.0.Ok? <==> Prepare(Binary, p, codec, Begin(p, s.credentials), payload).Ok?
    ensures r.0.Ok? ==> r.1.store == Finish(p, Prepare(Binary, p, codec, Begin(p, s.credentials), payload).value.handshake.t, s.store)
    ensures r.0.Ok? ==> Frame.EncodeFrame(Revision.Corrected, false, r.0.value)
                        == Prepare(Binary, p, codec, Begin(p, s.credentials), payload).value.frame
    ensures r.0.Err? ==> r.0.error == Prepare(Binary, p, codec, Begin(p, s.credentials), payload).error
    ensures r.0.Err? ==> r.1.store == s.store
    ensures r.1.credentials == Reached(Binary, p, codec, Begin(p, s.credentials), payload)
  {
    var credentials := Reached(Binary, p, codec, Begin(p, s.credentials), payload);
    match Prepare(Binary, p, codec, Begin(p, s.credentials), payload)
    case Err(e) => (Err(e), s.(credentials := credentials))
    case Ok(finished) => (Ok(finished.message), Session.Session(Finish(p, finished.handshake.t, s.store), credentials))
  }

  /**
    The two login entry points agree: framing what `create_login` returns gives
    exactly the frame `login` hands to its sink, and both leave the same
    traffic keys, whichever handshake generation `login` runs.
   */
  lemma CreateLoginIsLogin(gen: Generation, p: Primitives, codec: Protobuf, s: Session.Session, payload: seq<byte>, sink: Result<()>)
    requires CreateLogin(p, codec, s, payload).0.Ok?
    ensures LoginWith(gen, p, codec, Begin(p, s.credentials), s.store, payload, sink).sent
         == [Frame.EncodeFrame(Revision.Corrected, false, CreateLogin(p, codec, s, payload).0.value)]
    ensures LoginWith(gen, p, codec, Begin(p, s.credentials), s.store, payload, sink).store
         == CreateLogin(p, codec, s, payload).1.store
  {
    LoginGenerations(p, codec, Begin(p, s.credentials), payload);
  }
}
