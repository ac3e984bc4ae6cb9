/**
  Pairing with the primary device (whatsapp-websocket/src/stream/digest/iq.rs):
  the reply to an iq request, the companion recorded in the session store,
  and the checks on the signed device identity the phone sends once it has
  scanned the QR code.
 */
module Pairing {
  import opened Bytes
  import opened Errors
  import opened Wrappers
  import opened Crypto
  import opened Keys
  import opened Adv
  import opened Jid
  import opened Nodes
  import Store
  import Session

  /** `ADVSignedDeviceIdentityHMAC`: each protobuf field may be absent. */
  datatype HmacIdentity = HmacIdentity(details: Option<seq<byte>>, hmac: Option<seq<byte>>)

  /**
    The protobuf and serde conversions pairing relies on, none of them modelled:
    parsing the HMAC envelope, the signed account identity and the inner device
    identity (for its key index), serialising an account identity to a value,
    reading a value's content as a byte array (`content_array_nums`), and
    `Node::parse_jid`.
   */
  datatype Conversions = Conversions(
    parseHmac: seq<byte> -> Result<HmacIdentity>,
    parseAccount: seq<byte> -> Result<DeviceIdentity>,
    keyIndex: seq<byte> -> Result<nat>,
    identityValue: DeviceIdentity -> Result<Value>,
    arrayNums: Value -> Option<seq<byte>>,
    parseJid: Value -> ContactJid)

  /** The attributes of a confirmation: the request's id, type "result", addressed to the WhatsApp server. */
  function ConfirmAttributes(id: string): map<string, Value> {
    map["id" := Text(id), "type" := Text("result"), "to" := Text(Address(Whatsapp))]
  }

  /**
    `send_confirm(node, content)`: an iq of type "result" to the WhatsApp
    server carrying the request's id and the given content. A request without
    an "id" attribute, or whose id is not a string, panics.
   */
  function SendConfirm(node: Node, content: Value): (r: Result<Node>)
    ensures r.Ok? <==> "id" in node.attributes && node.attributes["id"].Text?
    ensures r.Err? ==> r.error.Panic?
    ensures r.Ok? ==> r.value.description == "iq" && r.value.content == content
    ensures r.Ok? ==> r.value.attributes.Keys == {"id", "type", "to"}
    ensures r.Ok? ==> r.value.attributes["id"] == node.attributes["id"]
    ensures r.Ok? ==> r.value.attributes["to"] == Text("s.whatsapp.net") && r.value.attributes["type"] == Text("result")
  {
    if "id" !in node.attributes then Err(Panic("key \"id\" not found in attributes"))
    else
      match node.attributes["id"]
      case Text(id) => Ok(New("iq", ConfirmAttributes(id), content))
      case _ => Err(Panic("called `Option::unwrap()` on a `None` value"))
  }

  /** Confirming a confirmation gives the same confirmation: the id is carried over unchanged. */
  lemma ConfirmKeepsId(node: Node, content: Value)
    requires SendConfirm(node, content).Ok?
    ensures SendConfirm(SendConfirm(node, content).value, content) == SendConfirm(node, content)
  {
  }

  /**
    The container of an iq: `node.children().first()`, which is the node's
    content, must be a non-empty array whose first element deserialises as a
    node. Anything else panics, except a first element that is not a node
    object, which is a serde error.
   */
  function Container(node: Node): (r: Result<Node>)
    ensures r.Ok? ==> node.content.Array? && |node.content.items| > 0 && FromValue(node.content.items[0]) == r
    ensures !node.content.Array? || |node.content.items| == 0 ==> r.Err? && r.error.Panic?
    ensures node.content.Array? && |node.content.items| > 0 ==> (r.Ok? <==> IsNode(node.content.items[0]))
  {
    var children :- Children(node);
    match children[0]
    case Array(items) =>
      if |items| == 0 then Err(Panic("called `Option::unwrap()` on a `None` value"))
      else FromValue(items[0])
    case _ => Err(Panic("called `Option::unwrap()` on a `None` value"))
  }

  /**
    `save_companion(container, store)`: the "device" entry of the container,
    deserialised as a node, names the companion in its "jid" attribute. No
    "device" entry is `IqMissingDevice`; an entry that is not a node or has
    no "jid" panics. Only the companion changes.
   */
  function SaveCompanion(conv: Conversions, container: Node, store: Store.SessionStore): (r: Result<Store.SessionStore>)
    ensures FindDescription(container, "device") == Ok(None) ==> r == Err(IqMissingDevice)
    ensures r.Ok? ==> FindDescription(container, "device").Ok? && FindDescription(container, "device").value.Some?
    ensures r.Ok? ==> r.value == store.(companion := r.value.companion) && r.value.companion.Some?
    ensures r.Err? && r.error != IqMissingDevice ==> r.error.Panic?
    ensures FindDescription(container, "device").Ok? && FindDescription(container, "device").value.Some? ==>
      var entry := FindDescription(container, "device").value.value;
      (r.Ok? <==> IsNode(entry) && "jid" in FromValue(entry).value.attributes) &&
      (r.Ok? ==> r.value.companion == Some(conv.parseJid(FromValue(entry).value.attributes["jid"])))
  {
    var found :- FindDescription(container, "device");
    match found
    case None => Err(IqMissingDevice)
    case Some(entry) =>
      match FromValue(entry)
      case Err(_) => Err(Panic("called `Result::unwrap()` on an `Err` value"))
      case Ok(device) =>
        if "jid" !in device.attributes then Err(Panic("called `Option::unwrap()` on a `None` value"))
        else Ok(store.(companion := Some(conv.parseJid(device.attributes["jid"]))))
  }

  /**
    The device identity bytes of the container: the content of its
    "device-identity" entry read as a byte array. A missing entry or a content
    that is not a byte array panics.
   */
  function DeviceIdentityBytes(conv: Conversions, container: Node): (r: Result<seq<byte>>)
    ensures r.Err? ==> r.error.Panic?
    ensures r.Ok? ==> FindDescription(container, "device-identity").Ok?
    ensures r.Ok? ==> FindDescription(container, "device-identity").value.Some?
    ensures r.Ok? ==> conv.arrayNums(FindDescription(container, "device-identity").value.value) == Some(r.value)
  {
    var found :- FindDescription(container, "device-identity");
    match found
    case None => Err(Panic("Missing device-identity"))
    case Some(entry) =>
      match conv.arrayNums(entry)
      case None => Err(Panic("called `Option::unwrap()` on a `None` value"))
      case Some(bytes) => Ok(bytes)
  }

  /**
    The HMAC check: the details must carry an HMAC-SHA256, keyed with the
    signed pre-key's public key, equal to the one sent alongside. A mismatch
    is `IqInvalidSignature`; an absent field panics.
   */
  function CheckHmac(p: Primitives, credentials: Credentials, identity: HmacIdentity): (r: Result<seq<byte>>)
    ensures r.Ok? <==> identity.details.Some? && identity.hmac.Some?
                       && p.hmac(credentials.signed.public, identity.details.value) == identity.hmac.value
    ensures r.Ok? ==> r.value == identity.details.value
    ensures identity.details.Some? && identity.hmac.Some?
            && p.hmac(credentials.signed.public, identity.details.value) != identity.hmac.value
            ==> r == Err(IqInvalidSignature)
    ensures r.Err? && r.error != IqInvalidSignature ==> r.error.Panic?
  {
    match identity.details
    case None => Err(Panic("called `Option::unwrap()` on a `None` value"))
    case Some(details) =>
      match identity.hmac
      case None => Err(Panic("called `Option::unwrap()` on a `None` value"))
      case Some(hmac) =>
        if p.hmac(credentials.signed.public, details) != hmac then Err(IqInvalidSignature)
        else Ok(details)
  }

  /**
    The account signature check: the account signature must verify, under
    the account signature key, over `form_message`. A failed verification is
    `IqInvalidMessageSignature`; a verifier error is returned as it is.
   */
  function CheckAccount(p: Primitives, credentials: Credentials, account: DeviceIdentity): (r: Result<()>)
    ensures r.Ok? <==> (FormMessage(account, credentials).Ok?
      && p.verify(account.accountSignatureKey.GetOr([]), FormMessage(account, credentials).value,
                  account.accountSignature.GetOr([])) == Ok(true))
    ensures FormMessage(account, credentials).Ok?
      && p.verify(account.accountSignatureKey.GetOr([]), FormMessage(account, credentials).value,
                  account.accountSignature.GetOr([])) == Ok(false)
      ==> r == Err(IqInvalidMessageSignature)
  {
    var message :- FormMessage(account, credentials);
    var valid :- p.verify(account.accountSignatureKey.GetOr([]), message, account.accountSignature.GetOr([]));
    if valid then Ok(()) else Err(IqInvalidMessageSignature)
  }

  /**
    The checks of `identify` after the companion is saved: the HMAC
    envelope, the account signature, and the device's own signature added by
    `sign`. The result is the re-signed account identity.
   */
  function Accept(p: Primitives, conv: Conversions, credentials: Credentials, container: Node): (r: Result<DeviceIdentity>)
    ensures r.Ok? ==> DeviceIdentityBytes(conv, container).Ok?
    ensures r.Ok? ==> conv.parseHmac(DeviceIdentityBytes(conv, container).value).Ok?
    ensures r.Ok? ==>
      var details := CheckHmac(p, credentials, conv.parseHmac(DeviceIdentityBytes(conv, container).value).value);
      && details.Ok?
      && conv.parseAccount(details.value).Ok?
      && CheckAccount(p, credentials, conv.parseAccount(details.value).value).Ok?
      && Sign(p, conv.parseAccount(details.value).value, credentials) == (Ok(()), r.value)
  {
    var bytes :- DeviceIdentityBytes(conv, container);
    var identity :- conv.parseHmac(bytes);
    var details :- CheckHmac(p, credentials, identity);
    var account :- conv.parseAccount(details);
    var _ :- CheckAccount(p, credentials, account);
    var (signed, resigned) := Sign(p, account, credentials);
    var _ :- signed;
    Ok(resigned)
  }

  /**
    The "pair-device-sign" node: it holds the "device-identity" node with the
    key index of the inner device identity and, as content, the account
    identity without its key. Either conversion may fail.
   */
  function PairDeviceNode(conv: Conversions, account: DeviceIdentity): (r: Result<Node>)
    ensures r.Ok? <==> account.details.Some? && conv.keyIndex(account.details.value).Ok?
                       && conv.identityValue(WithoutKey(account)).Ok?
    ensures r.Ok? ==> r.value == New("pair-device-sign", map[], ToValue(
      New("device-identity", map["key-index" := Number(conv.keyIndex(account.details.value).value)],
          conv.identityValue(WithoutKey(account)).value)))
  {
    if account.details.None? then Err(Panic("called `Option::unwrap()` on a `None` value"))
    else
      var keyIndex :- conv.keyIndex(account.details.value);
      var identity :- conv.identityValue(WithoutKey(account));
      var identityNode := New("device-identity", map["key-index" := Number(keyIndex)], identity);
      Ok(New("pair-device-sign", map[], ToValue(identityNode)))
  }

  /** The reply to "pair-success": a confirmation whose content is the "pair-device-sign" node. */
  function PairDeviceSign(conv: Conversions, node: Node, account: DeviceIdentity): (r: Result<Node>)
    ensures r.Ok? ==> account.details.Some? && conv.keyIndex(account.details.value).Ok?
    ensures r.Ok? ==> conv.identityValue(WithoutKey(account)).Ok?
    ensures r.Ok? ==> r == SendConfirm(node, ToValue(New("pair-device-sign", map[], ToValue(
      New("device-identity", map["key-index" := Number(conv.keyIndex(account.details.value).value)],
          conv.identityValue(WithoutKey(account)).value)))))
  {
    var pairDevice :- PairDeviceNode(conv, account);
    SendConfirm(node, ToValue(pairDevice))
  }

  /**
    `identify(session, node, container)`: the companion is saved first, then
    the device identity is checked and re-signed and the "pair-device-sign"
    node built; only then is the identity stored as the companion identity,
    just before the confirmation is made. The session is returned as the
    function left it, also on failure: only a request without a string "id",
    on which `send_confirm` panics, fails after the identity is stored.
   */
  function Identify(p: Primitives, conv: Conversions, s: Session.Session, node: Node, container: Node)
    : (r: (Result<Node>, Session.Session))
    ensures SaveCompanion(conv, container, s.store).Err? ==> r == (Err(SaveCompanion(conv, container, s.store).error), s)
    ensures SaveCompanion(conv, container, s.store).Ok? && Accept(p, conv, s.credentials, container).Err? ==>
      r == (Err(Accept(p, conv, s.credentials, container).error), s.(store := SaveCompanion(conv, container, s.store).value))
    ensures SaveCompanion(conv, container, s.store).Ok? && Accept(p, conv, s.credentials, container).Ok? ==>
      r.0 == PairDeviceSign(conv, node, Accept(p, conv, s.credentials, container).value)
    ensures SaveCompanion(conv, container, s.store).Ok? && Accept(p, conv, s.credentials, container).Ok? ==>
      if PairDeviceNode(conv, Accept(p, conv, s.credentials, container).value).Ok?
      then r.1.store == SaveCompanion(conv, container, s.store).value.(companionIdentity := Some(Accept(p, conv, s.credentials, container).value))
      else r.1.store == SaveCompanion(conv, container, s.store).value
    ensures r.0.Err? && "id" in node.attributes && node.attributes["id"].Text? ==>
      r.1.store.companionIdentity == s.store.companionIdentity
    ensures r.1.credentials == s.credentials
  {
    match SaveCompanion(conv, container, s.store)
    case Err(e) => (Err(e), s)
    case Ok(store) =>
      var saved := s.(store := store);
      match Accept(p, conv, s.credentials, container)
      case Err(e) => (Err(e), saved)
      case Ok(account) =>
        match PairDeviceNode(conv, account)
        case Err(e) => (Err(e), saved)
        case Ok(pairDevice) =>
          (SendConfirm(node, ToValue(pairDevice)), saved.(store := store.(companionIdentity := Some(account))))
  }

  /**
    The companion identity is only ever the identity the account signed and
    this device re-signed: if `identify` changed it, every check passed.
   */
  lemma IdentityOnlyAfterChecks(p: Primitives, conv: Conversions, s: Session.Session, node: Node, container: Node)
    requires Identify(p, conv, s, node, container).1.store.companionIdentity != s.store.companionIdentity
    ensures Accept(p, conv, s.credentials, container).Ok?
    ensures PairDeviceNode(conv, Accept(p, conv, s.credentials, container).value).Ok?
    ensures Identify(p, conv, s, node, container).1.store.companionIdentity == Some(Accept(p, conv, s.credentials, container).value)
  {
  }

  /**
    The companion is recorded even when a later check fails: a bad HMAC still
    leaves the companion the container names.
   */
  lemma CompanionBeforeChecks(p: Primitives, conv: Conversions, s: Session.Session, node: Node, container: Node)
    requires SaveCompanion(conv, container, s.store).Ok?
    ensures Identify(p, conv, s, node, container).1.store.companion == SaveCompanion(conv, container, s.store).value.companion
  {
  }

  /**
    Whatever identity `identify` stores carries a device signature that
    verifies under this device's identity key over the signed message.
   */
  lemma StoredIdentityVerifies(p: Primitives, conv: Conversions, s: Session.Session, node: Node, container: Node)
    requires SignaturesSound(p)
    requires s.credentials.identity.public == PublicOf(p, s.credentials.identity.secret)
    requires Accept(p, conv, s.credentials, container).Ok?
    ensures
      var account := Accept(p, conv, s.credentials, container).value;
      && account.deviceSignature.Some?
      && p.verify(s.credentials.identity.public,
                  SignedMessage(conv.parseAccount(CheckHmac(p, s.credentials,
                    conv.parseHmac(DeviceIdentityBytes(conv, container).value).value).value).value, s.credentials),
                  account.deviceSignature.value) == Ok(true)
  {
    var details := CheckHmac(p, s.credentials, conv.parseHmac(DeviceIdentityBytes(conv, container).value).value).value;
    var parsed := conv.parseAccount(details).value;
    SignedIdentityVerifies(p, parsed, s.credentials);
  }

  /** The outcome of a digest handler: the session to keep and the node to send, if any. */
  datatype Reply = Reply(session: Session.Session, node: Node)

  /**
    `<Iq as Digest>::digest`: the container decides. "pair-device" (after the
    QR code is shown) is answered with an empty confirmation and the session
    unchanged; "pair-success" with `identify`'s reply and session; any other
    container panics.
   */
  function IqDigest(p: Primitives, conv: Conversions, s: Session.Session, node: Node): (r: Result<Option<Reply>>)
    ensures r.Ok? ==> Container(node).Ok? && r.value.Some?
    ensures r.Ok? && Container(node).value.description == "pair-device" ==>
      SendConfirm(node, Null).Ok? && r.value.value == Reply(s, SendConfirm(node, Null).value)
    ensures r.Ok? && Container(node).value.description == "pair-success" ==>
      Identify(p, conv, s, node, Container(node).value).0.Ok? &&
      r.value.value == Reply(Identify(p, conv, s, node, Container(node).value).1,
                             Identify(p, conv, s, node, Container(node).value).0.value)
    ensures Container(node).Ok? && Container(node).value.description == "pair-success"
            && Identify(p, conv, s, node, Container(node).value).0.Err? ==>
      r == Err(Identify(p, conv, s, node, Container(node).value).0.error)
    ensures Container(node).Ok? && Container(node).value.description !in {"pair-device", "pair-success"} ==>
      r.Err? && r.error.Panic?
  {
    var container :- Container(node);
    if container.description == "pair-device" then
      var reply :- SendConfirm(node, Null);
      Ok(Some(Reply(s, reply)))
    else if container.description == "pair-success" then
      var (result, next) := Identify(p, conv, s, node, container);
      var reply :- result;
      Ok(Some(Reply(next, reply)))
    else Err(Panic("internal error: entered unreachable code"))
  }
}
