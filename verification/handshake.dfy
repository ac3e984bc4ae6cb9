/**
  The Noise handshake transcript, in both of the crate's generations
  (whatsapp-util/src/handshake.rs and whatsapp-util/src/binary/handshake.rs):
  a chaining hash, a cipher key, a chaining salt and a nonce counter, updated
  by MixHash (`rehash`), MixKey (`mix`), EncryptAndHash (`encrypt`) and
  DecryptAndHash (`decrypt`) as in section 5.2 of the Noise Protocol
  Framework (revision 34).
 */
module Handshake {
  import opened Bytes
  import opened Errors
  import opened Crypto
  import opened Nonces
  import opened Store
  import Frame

  /**
    `Legacy` is whatsapp-util/src/handshake.rs; `Binary` is
    whatsapp-util/src/binary/handshake.rs. They differ only in when a failed
    `decrypt` or `encrypt` advances the nonce counter.
   */
  datatype Generation = Legacy | Binary

  datatype Transcript = Transcript(hash: Bytes32, key: Bytes32, salt: Bytes32, iv: u64)

  /** `rehash(input)` / `rehash_mut` / `rehash_ref`: the hash absorbs the input; nothing else changes. */
  function Rehash(p: Primitives, t: Transcript, input: seq<byte>): (r: Transcript)
    ensures r.hash == p.sha256(t.hash + input)
    ensures r.key == t.key && r.salt == t.salt && r.iv == t.iv
  {
    t.(hash := p.sha256(t.hash + input))
  }

  /**
    `Handshake::new`: hash, key and salt start as `PROTOCOL` and the counter at
    zero; the hash then absorbs the prologue and the local ephemeral public key.
   */
  function Start(p: Primitives, ephemeralPublic: Bytes32): (t: Transcript)
    ensures t.hash == p.sha256(p.sha256(PROTOCOL + Frame.PROLOGUE) + ephemeralPublic)
    ensures t.key == PROTOCOL && t.salt == PROTOCOL && t.iv == 0
  {
    var initial := Transcript(PROTOCOL, PROTOCOL, PROTOCOL, 0);
    Rehash(p, Rehash(p, initial, Frame.PROLOGUE), ephemeralPublic)
  }

  /**
    `mix(input)`: HKDF over the salt and the input; the first half becomes the
    salt and the second half the key, the counter restarts at zero and the hash
    is kept.
   */
  function Mix(p: Primitives, t: Transcript, input: seq<byte>): (r: Transcript)
    ensures r.salt + r.key == p.hkdf(t.salt, input)
    ensures r.iv == 0 && r.hash == t.hash
  {
    var expanded := p.hkdf(t.salt, input);
    Halves(expanded);
    t.(salt := FirstHalf(expanded), key := SecondHalf(expanded), iv := 0)
  }

  /**
    `iv_as_nonce()` of the older generation, which builds the nonce the same
    way `AsNonce::nonce` does: four zero bytes, then the counter big-endian.
   */
  function IvAsNonce(iv: u64): (r: seq<byte>)
    ensures |r| == 12 && r[..4] == [0, 0, 0, 0]
    ensures FromBigEndian(r[4..]) == iv
  {
    NonceLayout(iv);
    Nonce(iv)
  }

  /** The output of one cipher call and the transcript after it. */
  datatype Step = Step(result: Result<seq<byte>>, state: Transcript)

  /**
    `decrypt(input)`: AES-GCM with the current key, the nonce of the current
    counter and the hash as associated data. On success the counter advances
    and the hash absorbs the ciphertext. On failure the hash is kept; the
    newer generation has already advanced the counter
    (`get_increment_nonce_mut` is evaluated as an argument), the older one
    has not.
   */
  function Decrypt(gen: Generation, p: Primitives, t: Transcript, input: seq<byte>): (r: Step)
    ensures r.result == p.open(t.key, Nonce(t.iv), t.hash, input)
    ensures r.state.key == t.key && r.state.salt == t.salt
    ensures r.result.Ok? ==> r.state.hash == p.sha256(t.hash + input) && r.state.iv == Increment(t.iv)
    ensures r.result.Err? && gen == Legacy ==> r.state == t
    ensures r.result.Err? && gen == Binary ==> r.state == t.(iv := Increment(t.iv))
  {
    match gen
    case Binary =>
      var (nonce, iv) := NextNonce(t.iv);
      var advanced := t.(iv := iv);
      (match p.open(t.key, nonce, t.hash, input)
       case Err(e) => Step(Err(e), advanced)
       case Ok(plain) => Step(Ok(plain), Rehash(p, advanced, input)))
    case Legacy =>
      match p.open(t.key, IvAsNonce(t.iv), t.hash, input)
      case Err(e) => Step(Err(e), t)
      case Ok(plain) => Step(Ok(plain), Rehash(p, t.(iv := Increment(t.iv)), input))
  }

  /**
    `encrypt(input)`: AES-GCM with the current key, the nonce of the current
    counter and the hash as associated data. On success the counter advances
    and the hash absorbs the ciphertext, not the plaintext. A failure is
    handled as in `Decrypt`.
   */
  function Encrypt(gen: Generation, p: Primitives, t: Transcript, input: seq<byte>): (r: Step)
    ensures r.result == p.seal(t.key, Nonce(t.iv), t.hash, input)
    ensures r.state.key == t.key && r.state.salt == t.salt
    ensures r.result.Ok? ==> r.state.hash == p.sha256(t.hash + r.result.value) && r.state.iv == Increment(t.iv)
    ensures r.result.Err? && gen == Legacy ==> r.state == t
    ensures r.result.Err? && gen == Binary ==> r.state == t.(iv := Increment(t.iv))
  {
    match gen
    case Binary =>
      var (nonce, iv) := NextNonce(t.iv);
      var advanced := t.(iv := iv);
      (match p.seal(t.key, nonce, t.hash, input)
       case Err(e) => Step(Err(e), advanced)
       case Ok(sealed) => Step(Ok(sealed), Rehash(p, advanced, sealed)))
    case Legacy =>
      match p.seal(t.key, IvAsNonce(t.iv), t.hash, input)
      case Err(e) => Step(Err(e), t)
      case Ok(sealed) => Step(Ok(sealed), Rehash(p, t.(iv := Increment(t.iv)), sealed))
  }

  /**
    `finish()`: the session store's traffic keys are derived from the final
    salt (`SessionStore::update`).
   */
  function Finish(p: Primitives, t: Transcript, store: SessionStore): (r: SessionStore)
    ensures r.encodeKey + r.decodeKey == p.hkdf(t.salt, [])
    ensures r.readCount == store.readCount && r.writeCount == store.writeCount
    ensures r.companion == store.companion && r.companionIdentity == store.companionIdentity
  {
    Update(p, store, t.salt)
  }

  /** The traffic keys depend on nothing but the final salt. */
  lemma FinishDependsOnSalt(p: Primitives, t: Transcript, u: Transcript, store: SessionStore, other: SessionStore)
    requires t.salt == u.salt
    ensures Finish(p, t, store).encodeKey == Finish(p, u, other).encodeKey
    ensures Finish(p, t, store).decodeKey == Finish(p, u, other).decodeKey
  {
    UpdateDependsOnSalt(p, store, other, t.salt);
  }

  /**
    The two generations return the same plaintext from the same transcript,
    and agree on the next transcript when decryption succeeds; on failure the
    newer one has used up the nonce and the older one has not.
   */
  lemma DecryptGenerations(p: Primitives, t: Transcript, input: seq<byte>)
    ensures Decrypt(Legacy, p, t, input).result == Decrypt(Binary, p, t, input).result
    ensures Decrypt(Legacy, p, t, input).result.Ok? ==>
      Decrypt(Legacy, p, t, input).state == Decrypt(Binary, p, t, input).state
    ensures Decrypt(Legacy, p, t, input).result.Err? ==>
      Decrypt(Binary, p, t, input).state.iv != Decrypt(Legacy, p, t, input).state.iv
  {
  }

  /** As `DecryptGenerations`, for `encrypt`. */
  lemma EncryptGenerations(p: Primitives, t: Transcript, input: seq<byte>)
    ensures Encrypt(Legacy, p, t, input).result == Encrypt(Binary, p, t, input).result
    ensures Encrypt(Legacy, p, t, input).result.Ok? ==>
      Encrypt(Legacy, p, t, input).state == Encrypt(Binary, p, t, input).state
    ensures Encrypt(Legacy, p, t, input).result.Err? ==>
      Encrypt(Binary, p, t, input).state.iv != Encrypt(Legacy, p, t, input).state.iv
  {
  }

  /**
    EncryptAndHash and DecryptAndHash are inverse: a peer holding the same
    transcript recovers the plaintext and both transcripts stay equal, of
    either generation.
   */
  lemma EncryptThenDecrypt(sender: Generation, receiver: Generation, p: Primitives, t: Transcript, message: seq<byte>)
    requires AeadSound(p)
    requires Encrypt(sender, p, t, message).result.Ok?
    ensures Decrypt(receiver, p, t, Encrypt(sender, p, t, message).result.value).result == Ok(message)
    ensures Decrypt(receiver, p, t, Encrypt(sender, p, t, message).result.value).state
         == Encrypt(sender, p, t, message).state
  {
  }

  /** The transcript operations, for stating what a sequence of them may change. */
  datatype Operation = MixHash(data: seq<byte>) | MixKey(data: seq<byte>) | Seal(data: seq<byte>) | Open(data: seq<byte>)

  function Apply(gen: Generation, p: Primitives, t: Transcript, op: Operation): Transcript {
    match op
    case MixHash(data) => Rehash(p, t, data)
    case MixKey(data) => Mix(p, t, data)
    case Seal(data) => Encrypt(gen, p, t, data).state
    case Open(data) => Decrypt(gen, p, t, data).state
  }

  function Run(gen: Generation, p: Primitives, t: Transcript, ops: seq<Operation>): Transcript
    decreases |ops|
  {
    if |ops| == 0 then t else Run(gen, p, Apply(gen, p, t, ops[0]), ops[1..])
  }

  /** Key and salt change only in `mix`: any run without one keeps both. */
  lemma {:induction false} KeyChangesOnlyInMix(gen: Generation, p: Primitives, t: Transcript, ops: seq<Operation>)
    requires forall i :: 0 <= i < |ops| ==> !ops[i].MixKey?
    ensures Run(gen, p, t, ops).key == t.key && Run(gen, p, t, ops).salt == t.salt
    decreases |ops|
  {
    if |ops| > 0 {
      KeyChangesOnlyInMix(gen, p, Apply(gen, p, t, ops[0]), ops[1..]);
    }
  }

  /** The counter changes only in `mix`, `encrypt` and `decrypt`: a run of `rehash` calls keeps it. */
  lemma {:induction false} CounterKeptByRehash(gen: Generation, p: Primitives, t: Transcript, ops: seq<Operation>)
    requires forall i :: 0 <= i < |ops| ==> ops[i].MixHash?
    ensures Run(gen, p, t, ops).iv == t.iv
    decreases |ops|
  {
    if |ops| > 0 {
      CounterKeptByRehash(gen, p, Apply(gen, p, t, ops[0]), ops[1..]);
    }
  }
}
