/**
  The per-connection transport state (whatsapp-util/src/model/session_store.rs):
  the two traffic keys derived at the end of the handshake, one message
  counter per direction, and the companion learnt while pairing.
 */
module Store {
  import opened Bytes
  import opened Errors
  import opened Wrappers
  import opened Crypto
  import opened Nonces
  import opened Jid
  import opened Adv

  datatype SessionStore = SessionStore(
    decodeKey: Bytes32,
    encodeKey: Bytes32,
    readCount: u64,
    writeCount: u64,
    companion: Option<ContactJid>,
    companionIdentity: Option<DeviceIdentity>)

  /** `SessionStore::default()` */
  function Default(): (s: SessionStore)
    ensures s.decodeKey == Zeros(32) && s.encodeKey == Zeros(32)
    ensures s.readCount == 0 && s.writeCount == 0
    ensures s.companion.None? && s.companionIdentity.None?
  {
    SessionStore(Zeros(32), Zeros(32), 0, 0, None, None)
  }

  datatype Traffic = Ingoing | Outgoing

  /**
    `count_nonce(traffic)`: the nonce of the direction's counter before the
    call, and the store with that counter, and only that one, advanced.
   */
  function CountNonce(s: SessionStore, traffic: Traffic): (r: (seq<byte>, SessionStore))
    ensures traffic == Ingoing ==> r == (Nonce(s.readCount), s.(readCount := Increment(s.readCount)))
    ensures traffic == Outgoing ==> r == (Nonce(s.writeCount), s.(writeCount := Increment(s.writeCount)))
  {
    match traffic
    case Ingoing =>
      var (nonce, next) := NextNonce(s.readCount);
      (nonce, s.(readCount := next))
    case Outgoing =>
      var (nonce, next) := NextNonce(s.writeCount);
      (nonce, s.(writeCount := next))
  }

  /**
    `encrypt(input)`: AES-GCM under the encode key with the next `Ingoing`
    nonce and no associated data. The nonce is drawn before the cipher runs,
    so the counter advances whether or not encryption succeeds.
   */
  function Encrypt(p: Primitives, s: SessionStore, input: seq<byte>): (r: (Result<seq<byte>>, SessionStore))
    ensures r.0 == p.seal(s.encodeKey, Nonce(s.readCount), [], input)
    ensures r.1 == s.(readCount := Increment(s.readCount))
  {
    var (nonce, next) := CountNonce(s, Ingoing);
    (p.seal(s.encodeKey, nonce, [], input), next)
  }

  /**
    `decrypt(input)`: AES-GCM under the decode key with the next `Outgoing`
    nonce and no associated data; the counter advances whether or not
    decryption succeeds.
   */
  function Decrypt(p: Primitives, s: SessionStore, input: seq<byte>): (r: (Result<seq<byte>>, SessionStore))
    ensures r.0 == p.open(s.decodeKey, Nonce(s.writeCount), [], input)
    ensures r.1 == s.(writeCount := Increment(s.writeCount))
  {
    var (nonce, next) := CountNonce(s, Outgoing);
    (p.open(s.decodeKey, nonce, [], input), next)
  }

  /**
    `update(salt)`: the encode key is the first half of HKDF(salt, []) and the
    decode key the second half. The slice conversions cannot fail (the halves
    are 32 bytes), so the result is the updated store.
   */
  function Update(p: Primitives, s: SessionStore, salt: Bytes32): (r: SessionStore)
    ensures r.encodeKey + r.decodeKey == p.hkdf(salt, [])
    ensures r.readCount == s.readCount && r.writeCount == s.writeCount
    ensures r.companion == s.companion && r.companionIdentity == s.companionIdentity
  {
    var expanded := p.hkdf(salt, []);
    Halves(expanded);
    s.(encodeKey := FirstHalf(expanded), decodeKey := SecondHalf(expanded))
  }

  /** Two stores are the two ends of one channel: what one encrypts the other decrypts, nonce for nonce. */
  predicate Paired(sender: SessionStore, receiver: SessionStore) {
    sender.encodeKey == receiver.decodeKey && sender.readCount == receiver.writeCount
  }

  /**
    A message encrypted by one end opens at the other, and both ends stay
    paired afterwards, so the next message does too.
   */
  lemma EncryptDecrypt(p: Primitives, sender: SessionStore, receiver: SessionStore, message: seq<byte>)
    requires AeadSound(p)
    requires Paired(sender, receiver)
    requires Encrypt(p, sender, message).0.Ok?
    ensures Decrypt(p, receiver, Encrypt(p, sender, message).0.value).0 == Ok(message)
    ensures Paired(Encrypt(p, sender, message).1, Decrypt(p, receiver, Encrypt(p, sender, message).0.value).1)
  {
  }

  /** The nonces one store uses for `k` successive messages in one direction. */
  function SendNonces(s: SessionStore, k: nat): (r: seq<seq<byte>>)
    decreases k
  {
    if k == 0 then [] else [CountNonce(s, Ingoing).0] + SendNonces(CountNonce(s, Ingoing).1, k - 1)
  }

  /**
    `k` successive encryptions use the nonces of the counter values
    `readCount`, `readCount + 1`, ... in turn (`NonceRunCounts` and
    `NonceRunDistinct` then say no nonce repeats before the counter wraps).
   */
  lemma {:induction false} SendNoncesFresh(s: SessionStore, k: nat)
    ensures SendNonces(s, k) == NonceRun(s.readCount, k).0
    decreases k
  {
    if k > 0 {
      var next := CountNonce(s, Ingoing).1;
      SendNoncesFresh(next, k - 1);
    }
  }

  /** `update` derives both keys from the salt alone: equal salts give equal keys, whatever the store held. */
  lemma UpdateDependsOnSalt(p: Primitives, s: SessionStore, t: SessionStore, salt: Bytes32)
    ensures Update(p, s, salt).encodeKey == Update(p, t, salt).encodeKey
    ensures Update(p, s, salt).decodeKey == Update(p, t, salt).decodeKey
  {
    var a := Update(p, s, salt);
    var b := Update(p, t, salt);
    assert a.encodeKey == (a.encodeKey + a.decodeKey)[..32];
    assert b.encodeKey == (b.encodeKey + b.decodeKey)[..32];
    assert a.decodeKey == (a.encodeKey + a.decodeKey)[32..];
    assert b.decodeKey == (b.encodeKey + b.decodeKey)[32..];
  }
}
