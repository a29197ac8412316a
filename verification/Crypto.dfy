/** Cryptographic and library primitives, as arbitrary functions.

    Every theorem holds for all choices of these functions; none of them is assumed to be
    collision free.  Conclusions that rest on a hash name the colliding pair instead. */
module Crypto {
  import opened Prelude

  type Digest32 = d: Bytes | |d| == 32 witness Repeat(0, 32)
  type Digest64 = d: Bytes | |d| == 64 witness Repeat(0, 64)

  /** A certificate's public key. */
  datatype PubKey = Rsa(rsa: Bytes) | EcP384(ec: Bytes)

  /** The signature algorithm a certificate names. */
  datatype SignatureAlgorithm = RsassaPss | EcdsaSha384 | OtherAlgorithm

  datatype Primitives = Primitives(
    sha256: Bytes -> Digest32,
    sha512: Bytes -> Digest64,
    base64Decode: Bytes -> Option<Bytes>,
    /** Whether 32 bytes decode to an Ed25519 point. */
    ed25519Key: Bytes -> bool,
    /** Strict Ed25519 verification of (key, message, signature). */
    ed25519Verify: (Bytes, Bytes, Bytes) -> bool,
    /** The subject key of a DER certificate, if it parses. */
    certKey: Bytes -> Option<PubKey>,
    /** The signature algorithm of a DER certificate, if it parses. */
    certAlgorithm: Bytes -> Option<SignatureAlgorithm>,
    /** RSASSA-PSS: is the signature well formed, and does it verify under (key, message)? */
    pssWellFormed: Bytes -> bool,
    pssVerify: (Bytes, Bytes, Bytes) -> bool,
    /** ECDSA P-384 with a DER signature, and with a 96-byte fixed signature. */
    ecdsaDerWellFormed: Bytes -> bool,
    ecdsaDerVerify: (Bytes, Bytes, Bytes) -> bool,
    ecdsaFixedWellFormed: Bytes -> bool,
    ecdsaFixedVerify: (Bytes, Bytes, Bytes) -> bool,
    /** The attestation key's modulus in a JWK set. */
    jwkModulus: Bytes -> Option<Bytes>,
    /** RSASSA-PKCS1-v1.5-SHA256 verification of (modulus, message, signature). */
    pkcs1Verify: (Bytes, Bytes, Bytes) -> bool
  )

  /** Two different inputs with one digest. */
  predicate Collides<D(==)>(h: Bytes -> D, a: Bytes, b: Bytes) { a != b && h(a) == h(b) }
}
