/**
  The cryptographic primitives the client calls into (SHA-256, HKDF, AES-GCM,
  X25519, HMAC-SHA256 and signatures). None of them is modelled: each is a
  field of `Primitives`, and a property that depends on one assumes only what
  a predicate below states of it. Fixed output widths are part of the types.
 */
module Crypto {
  import opened Bytes
  import opened Errors

  type Bytes32 = s: seq<byte> | |s| == 32 witness Zeros(32)
  type Bytes64 = s: seq<byte> | |s| == 64 witness Zeros(64)

  datatype Primitives = Primitives(
    // `hash::sha256(first, second)`: SHA-256 of `first ‖ second`
    sha256: seq<byte> -> Bytes32,
    // `hkdf::expand_extract(salt, input)`: HKDF-Extract with the salt, then
    // HKDF-Expand with empty info to 64 bytes (RFC 5869, sections 2.2 and 2.3)
    hkdf: (Bytes32, seq<byte>) -> Bytes64,
    // `aes::encrypt(key, aad, nonce, input)` and `aes::decrypt`: AES-256-GCM
    seal: (Bytes32, seq<byte>, seq<byte>, seq<byte>) -> Result<seq<byte>>,
    open: (Bytes32, seq<byte>, seq<byte>, seq<byte>) -> Result<seq<byte>>,
    // X25519 `diffie_hellman(secret, public)`
    dh: (Bytes32, Bytes32) -> Bytes32,
    // `hash::mac_sha256(key, message)`
    hmac: (seq<byte>, seq<byte>) -> Bytes32,
    // `keypair::sign(secret, message)` and `keypair::verify_signature(public, message, signature)`
    sign: (Bytes32, seq<byte>) -> Result<seq<byte>>,
    verify: (seq<byte>, seq<byte>, seq<byte>) -> Result<bool>)

  /** Authenticated decryption undoes a successful encryption under the same key, nonce and associated data. */
  ghost predicate AeadSound(p: Primitives) {
    forall key, nonce, aad, message ::
      p.seal(key, nonce, aad, message).Ok? ==>
        p.open(key, nonce, aad, p.seal(key, nonce, aad, message).value) == Ok(message)
  }

  /** `PROTOCOL`: "Noise_XX_25519_AESGCM_SHA256" padded with zero bytes to 32. */
  const PROTOCOL: Bytes32 := [
    78, 111, 105, 115, 101, 95, 88, 88, 95, 50, 53, 53, 49, 57, 95, 65,
    69, 83, 71, 67, 77, 95, 83, 72, 65, 50, 53, 54, 0, 0, 0, 0]

  /** The first and second halves of a 64-byte HKDF output. */
  function FirstHalf(s: Bytes64): Bytes32 {
    s[..32]
  }

  function SecondHalf(s: Bytes64): Bytes32 {
    s[32..]
  }

  lemma Halves(s: Bytes64)
    ensures FirstHalf(s) + SecondHalf(s) == s
  {
  }
}
