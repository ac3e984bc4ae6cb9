/**
  The signed device identity exchanged while pairing
  (whatsapp-util/src/protobuf/adv_message.rs): the message the account
  signature is checked against, the device's own signature over it, and the
  copy sent back without the account key.
 */
module Adv {
  import opened Bytes
  import opened Errors
  import opened Wrappers
  import opened Crypto
  import opened Keys

  /** `MESSAGE_HEADER` and `SIGNATURE_HEADER` (whatsapp-util/src/protobuf.rs). */
  const MESSAGE_HEADER: seq<byte> := [6, 0]
  const SIGNATURE_HEADER: seq<byte> := [6, 1]

  /** `ADVSignedDeviceIdentity`: each protobuf field may be absent. */
  datatype DeviceIdentity = DeviceIdentity(
    details: Option<seq<byte>>,
    accountSignatureKey: Option<seq<byte>>,
    accountSignature: Option<seq<byte>>,
    deviceSignature: Option<seq<byte>>)

  /**
    `form_message`: the message header, the details and the local identity
    public key. Absent details are an `unwrap` panic.
   */
  function FormMessage(a: DeviceIdentity, credentials: Credentials): (r: Result<seq<byte>>)
    ensures r.Ok? <==> a.details.Some?
    ensures r.Ok? ==> |r.value| == 2 + |a.details.value| + 32
    ensures r.Ok? ==> r.value[..2] == MESSAGE_HEADER
    ensures r.Ok? ==> r.value[2..] == a.details.value + credentials.identity.public
    ensures r.Err? ==> r.error.Panic?
  {
    match a.details
    case None => Err(Panic("called `Option::unwrap()` on a `None` value"))
    case Some(details) => Ok(MESSAGE_HEADER + details + credentials.identity.public)
  }

  /**
    The bytes `sign` signs: the signature header, the details, the local
    identity public key and the account signature key, where an absent field
    reads as empty (the protobuf accessors' default).
   */
  function SignedMessage(a: DeviceIdentity, credentials: Credentials): (r: seq<byte>)
    ensures |r| >= 2 && r[..2] == SIGNATURE_HEADER
    ensures r[2..] == a.details.GetOr([]) + credentials.identity.public + a.accountSignatureKey.GetOr([])
  {
    SIGNATURE_HEADER + a.details.GetOr([]) + credentials.identity.public + a.accountSignatureKey.GetOr([])
  }

  /**
    `sign`: signs `SignedMessage` with the identity secret and stores the
    signature as the device signature. A signing failure is returned and the
    identity is left as it was.
   */
  function Sign(p: Primitives, a: DeviceIdentity, credentials: Credentials): (r: (Result<()>, DeviceIdentity))
    ensures r.0.Ok? <==> p.sign(credentials.identity.secret, SignedMessage(a, credentials)).Ok?
    ensures r.0.Ok? ==>
      r.1 == a.(deviceSignature := Some(p.sign(credentials.identity.secret, SignedMessage(a, credentials)).value))
    ensures r.0.Err? ==> r.1 == a
  {
    match p.sign(credentials.identity.secret, SignedMessage(a, credentials))
    case Err(e) => (Err(e), a)
    case Ok(signature) => (Ok(()), a.(deviceSignature := Some(signature)))
  }

  /** `without_key`: the same identity with the account signature key cleared. */
  function WithoutKey(a: DeviceIdentity): (r: DeviceIdentity)
    ensures r.accountSignatureKey.None?
    ensures r.details == a.details && r.accountSignature == a.accountSignature
    ensures r.deviceSignature == a.deviceSignature
  {
    a.(accountSignatureKey := None)
  }

  /**
    The message checked against the account signature and the message the
    device signs can never coincide: their headers differ in the second byte.
   */
  lemma DomainSeparated(a: DeviceIdentity, b: DeviceIdentity, credentials: Credentials)
    requires FormMessage(a, credentials).Ok?
    ensures FormMessage(a, credentials).value != SignedMessage(b, credentials)
  {
    var m := FormMessage(a, credentials).value;
    var s := SignedMessage(b, credentials);
    assert m[1] == m[..2][1] == 0;
    assert s[1] == s[..2][1] == 1;
  }

  /**
    After a successful `sign`, the device signature verifies over
    `SignedMessage` under the local identity public key, and `without_key`
    keeps it.
   */
  lemma SignedIdentityVerifies(p: Primitives, a: DeviceIdentity, credentials: Credentials)
    requires SignaturesSound(p)
    requires credentials.identity.public == PublicOf(p, credentials.identity.secret)
    requires Sign(p, a, credentials).0.Ok?
    ensures WithoutKey(Sign(p, a, credentials).1).deviceSignature.Some?
    ensures p.verify(credentials.identity.public, SignedMessage(a, credentials),
                     WithoutKey(Sign(p, a, credentials).1).deviceSignature.value) == Ok(true)
  {
  }
}
