/**
  Key pairs (whatsapp-util/src/security/keypair.rs) and the credentials that
  hold them (whatsapp-util/src/model/credentials.rs). An X25519 key pair keeps
  the list of shared secrets it has computed, in order; a signed key pair is
  the identity key pair together with its signature over the 33-byte
  "signal" form of the public key.
 */
module Keys {
  import opened Bytes
  import opened Errors
  import opened Crypto

  /** The X25519 base point u = 9, little-endian. */
  const BASEPOINT: Bytes32 := [9] + Zeros(31)

  /** Type byte of a Curve25519 public key in the signal key format. */
  const DJB_TYPE: byte := 5

  /** The public key of an X25519 secret: scalar multiplication of the base point. */
  function PublicOf(p: Primitives, secret: Bytes32): Bytes32 {
    p.dh(secret, BASEPOINT)
  }

  datatype Keypair = Keypair(public: Bytes32, secret: Bytes32, exchanges: seq<Bytes32>)

  /**
    `Keypair::default()`: the secret comes from the operating system's random
    generator, so it is a parameter here.
   */
  function Generate(p: Primitives, secret: Bytes32): (k: Keypair)
    ensures k.secret == secret && k.public == PublicOf(p, secret)
    ensures k.exchanges == []
  {
    Keypair(PublicOf(p, secret), secret, [])
  }

  /**
    `PublicKeyWrapper::from(&[u8])`: the slice is converted to a 32-byte array
    with `try_into().unwrap()`, so any other length panics.
   */
  function Wrap(input: seq<byte>): (r: Result<Bytes32>)
    ensures r.Ok? <==> |input| == 32
    ensures r.Ok? ==> r.value == input
    ensures r.Err? ==> r.error.Panic?
  {
    if |input| == 32 then Ok(input)
    else Result<Bytes32>.Err(Panic("called `Result::unwrap()` on an `Err` value"))
  }

  /**
    `exchange(their)`: computes the shared secret with the other party's public
    key, appends it to the history and returns it.
   */
  function Exchange(p: Primitives, k: Keypair, their: Bytes32): (r: (Bytes32, Keypair))
    ensures r.0 == p.dh(k.secret, their)
    ensures r.1.exchanges == k.exchanges + [r.0]
    ensures r.1.public == k.public && r.1.secret == k.secret
  {
    var shared := p.dh(k.secret, their);
    (shared, k.(exchanges := k.exchanges + [shared]))
  }

  /** `exchange` called with a byte slice: the slice is wrapped first. */
  function ExchangeWith(p: Primitives, k: Keypair, their: seq<byte>): (r: Result<(Bytes32, Keypair)>)
    ensures r.Ok? <==> |their| == 32
    ensures r.Ok? ==> r.value == Exchange(p, k, their)
  {
    var key :- Wrap(their);
    Ok(Exchange(p, k, key))
  }

  /** `clear_exchanges()` */
  function Clear(k: Keypair): (r: Keypair)
    ensures r.exchanges == []
    ensures r.public == k.public && r.secret == k.secret
  {
    k.(exchanges := [])
  }

  /** The key pair after exchanging with each of `theirs` in turn. */
  function ExchangeAll(p: Primitives, k: Keypair, theirs: seq<Bytes32>): Keypair
    decreases |theirs|
  {
    if |theirs| == 0 then k else ExchangeAll(p, Exchange(p, k, theirs[0]).1, theirs[1..])
  }

  /** The shared secrets of `secret` with each of `theirs`, in order. */
  function Shared(p: Primitives, secret: Bytes32, theirs: seq<Bytes32>): (r: seq<Bytes32>)
    ensures |r| == |theirs|
    ensures forall i :: 0 <= i < |theirs| ==> r[i] == p.dh(secret, theirs[i])
  {
    seq(|theirs|, i requires 0 <= i < |theirs| => p.dh(secret, theirs[i]))
  }

  /**
    `exchanges()` lists every shared secret in the order the exchanges were
    made, after whatever the history already held.
   */
  lemma {:induction false} ExchangeHistory(p: Primitives, k: Keypair, theirs: seq<Bytes32>)
    ensures ExchangeAll(p, k, theirs).exchanges == k.exchanges + Shared(p, k.secret, theirs)
    ensures ExchangeAll(p, k, theirs).secret == k.secret
    decreases |theirs|
  {
    if |theirs| > 0 {
      var next := Exchange(p, k, theirs[0]).1;
      ExchangeHistory(p, next, theirs[1..]);
      assert Shared(p, k.secret, theirs) == [p.dh(k.secret, theirs[0])] + Shared(p, k.secret, theirs[1..]);
    }
  }

  /** After `clear_exchanges()` the history holds exactly the exchanges made since. */
  lemma ClearThenExchange(p: Primitives, k: Keypair, theirs: seq<Bytes32>)
    ensures ExchangeAll(p, Clear(k), theirs).exchanges == Shared(p, k.secret, theirs)
  {
    ExchangeHistory(p, Clear(k), theirs);
  }

  datatype SignedKeypair = SignedKeypair(public: Bytes32, secret: Bytes32, signature: seq<byte>, keyId: int)

  /** The 33-byte signal form of a public key: the type byte 5, then the key. */
  function SignalPublic(public: Bytes32): (blob: seq<byte>)
    ensures |blob| == 33 && blob[0] == DJB_TYPE && blob[1..] == public
  {
    [DJB_TYPE] + public
  }

  /**
    `SignedKeypair::new(identity, key_id)`: the identity secret becomes a
    signal private key, whose public key is written in signal form and signed.
    A signing failure is an `unwrap` panic.
   */
  function NewSigned(p: Primitives, identity: Keypair, keyId: int): (r: Result<SignedKeypair>)
    ensures r.Ok? <==> p.sign(identity.secret, SignalPublic(PublicOf(p, identity.secret))).Ok?
    ensures r.Ok? ==> r.value.keyId == keyId && r.value.secret == identity.secret
    ensures r.Ok? ==> r.value.public == PublicOf(p, identity.secret)
    ensures r.Ok? ==> r.value.signature == p.sign(identity.secret, SignalPublic(r.value.public)).value
    ensures r.Err? ==> r.error.Panic?
  {
    var public := PublicOf(p, identity.secret);
    var signature :- p.sign(identity.secret, SignalPublic(public)).Unwrap();
    Ok(SignedKeypair(public, identity.secret, signature, keyId))
  }

  /** A signature made with a secret verifies under that secret's public key. */
  ghost predicate SignaturesSound(p: Primitives) {
    forall secret: Bytes32, message ::
      p.sign(secret, message).Ok? ==>
        p.verify(PublicOf(p, secret), message, p.sign(secret, message).value) == Ok(true)
  }

  /**
    The signed key pair's signature verifies over the signal form of its own
    public key, and that form is byte 5 followed by the key.
   */
  lemma SignedKeypairVerifies(p: Primitives, identity: Keypair, keyId: int)
    requires SignaturesSound(p)
    requires NewSigned(p, identity, keyId).Ok?
    ensures p.verify(NewSigned(p, identity, keyId).value.public,
                     [DJB_TYPE] + NewSigned(p, identity, keyId).value.public,
                     NewSigned(p, identity, keyId).value.signature) == Ok(true)
  {
    var k := NewSigned(p, identity, keyId).value;
    assert SignalPublic(k.public) == [DJB_TYPE] + k.public;
  }

  /** The exclusive upper bound of `gen_range(0..16380)`; the registration id adds one to the draw. */
  const REGISTRATION_DRAWS: nat := 16380

  datatype Credentials = Credentials(
    noise: Keypair,
    ephemeral: Keypair,
    identity: Keypair,
    signed: SignedKeypair,
    registrationId: nat)

  /**
    `Credentials::default()`: three fresh key pairs from the given secrets, the
    identity signed with key id 1, and a registration id one more than a draw
    from `0..16380`.
   */
  function NewCredentials(p: Primitives, noise: Bytes32, ephemeral: Bytes32, identity: Bytes32, draw: nat)
    : (r: Result<Credentials>)
    requires draw < REGISTRATION_DRAWS
    ensures r.Ok? ==> 1 <= r.value.registrationId <= REGISTRATION_DRAWS
    ensures r.Ok? ==> r.value.signed.keyId == 1 && r.value.signed.public == r.value.identity.public
    ensures r.Ok? ==> r.value.ephemeral.exchanges == [] && r.value.noise.exchanges == []
    ensures r.Ok? <==> NewSigned(p, Generate(p, identity), 1).Ok?
  {
    var id := Generate(p, identity);
    var signed :- NewSigned(p, id, 1);
    Ok(Credentials(Generate(p, noise), Generate(p, ephemeral), id, signed, draw + 1))
  }
}
