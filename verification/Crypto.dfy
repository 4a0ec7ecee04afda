/**
 * The cryptographic primitives the repository takes from other crates, as one record of functions. Nothing is
 * assumed of the functions except where a contract asks for `Sound`.
 */
module Crypto {
  import opened Bytes

  const TAG_LEN: nat := 8

  /**
   * `seal` returns ciphertext and tag together and `open` takes them together. `validPoint` is the check
   * made on a peer's signature key. `sigLen` is 64 for Ed25519 and 48 for Schnorr48.
   */
  datatype Crypto = Crypto(
    hash: bytes -> Bytes32,
    extract: (bytes, bytes) -> Bytes32,
    expand: (bytes, bytes, nat) -> bytes,
    dhPublic: Bytes32 -> Bytes32,
    dh: (Bytes32, Bytes32) -> Bytes32,
    verifyingKey: Bytes32 -> Bytes32,
    sign: (Bytes32, bytes) -> bytes,
    verify: (Bytes32, bytes, bytes) -> bool,
    validPoint: Bytes32 -> bool,
    seal: (bytes, bytes, bytes, bytes) -> bytes,
    open: (bytes, bytes, bytes, bytes) -> Option<bytes>,
    sigLen: nat)

  /** The lengths of what the primitives return. */
  ghost predicate Sizes(c: Crypto) {
    && (forall prk, info, n :: |c.expand(prk, info, n)| == n)
    && (forall k, n, a, p :: |c.seal(k, n, a, p)| == |p| + TAG_LEN)
    && (forall k, n, a, ct :: c.open(k, n, a, ct).Some? ==> |ct| == |c.open(k, n, a, ct).value| + TAG_LEN)
    && c.sigLen in {48, 64}
    && (forall x, m :: |c.sign(x, m)| == c.sigLen)
  }

  ghost predicate AeadCorrect(c: Crypto) {
    forall k, n, a, p :: c.open(k, n, a, c.seal(k, n, a, p)) == Some(p)
  }

  ghost predicate DhCommutes(c: Crypto) {
    forall x, y :: c.dh(x, c.dhPublic(y)) == c.dh(y, c.dhPublic(x))
  }

  ghost predicate SignaturesCorrect(c: Crypto) {
    && (forall x :: c.validPoint(c.verifyingKey(x)))
    && (forall x, m :: c.verify(c.verifyingKey(x), m, c.sign(x, m)))
  }

  /** Correctness and sizes; nothing about strength, so no law is stronger than a real implementation. */
  ghost predicate Sound(c: Crypto) {
    Sizes(c) && AeadCorrect(c) && DhCommutes(c) && SignaturesCorrect(c)
  }

  /** The laws contradict nothing: a toy instance has them. */
  lemma SoundIsSatisfiable()
    ensures exists c :: Sound(c)
  {
    var c := Crypto(
      (x: bytes) => Zeros(32),
      (salt: bytes, ikm: bytes) => Zeros(32),
      (prk: bytes, info: bytes, n: nat) => Zeros(n),
      (x: Bytes32) => Zeros(32),
      (x: Bytes32, p: Bytes32) => Zeros(32),
      (x: Bytes32) => Zeros(32),
      (x: Bytes32, m: bytes) => Zeros(64),
      (p: Bytes32, m: bytes, s: bytes) => true,
      (p: Bytes32) => true,
      (k: bytes, n: bytes, a: bytes, p: bytes) => p + Zeros(8),
      (k: bytes, n: bytes, a: bytes, ct: bytes) => if |ct| >= 8 then Some(ct[..|ct| - 8]) else None,
      64);
    assert Sound(c);
  }
}
