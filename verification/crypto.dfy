/** The cryptographic primitives Node's `crypto` module supplies, which this model does
    not compute: HMAC-SHA-256 (the PBKDF2 pseudorandom function), the AES-256 block
    permutation and its inverse, and Node's UTF-8 decoder (`Buffer.toString('utf-8')`).
    They enter as function values; `Sound` states everything the model assumes of them. */
module Crypto {

  import opened Bytes
  import Utf8

  /** AES-256 key length, also the PBKDF2 output length the source asks for. */
  const KeyLength: nat := 32
  /** AES block length, also the IV length. */
  const BlockLength: nat := 16
  /** HMAC-SHA-256 output length. */
  const DigestLength: nat := 32

  datatype Suite = Suite(
    /** HMAC-SHA-256(key, message). */
    hmac: (seq<byte>, seq<byte>) -> seq<byte>,
    /** AES-256 forward block transformation (key, block). */
    encryptBlock: (seq<byte>, seq<byte>) -> seq<byte>,
    /** AES-256 inverse block transformation (key, block). */
    decryptBlock: (seq<byte>, seq<byte>) -> seq<byte>,
    /** Node's lenient UTF-8 decoder, which replaces ill-formed input instead of failing. */
    utf8Decode: seq<byte> -> string)

  /** What the model assumes of the primitives: HMAC yields 32 bytes; the block
      functions map 16 bytes to 16 bytes, and under a 32-byte key the inverse undoes
      the forward transformation; the UTF-8 decoder agrees with the strict decoder
      on well-formed input. (Every function value is deterministic by construction.) */
  ghost predicate Sound(suite: Suite) {
    && (forall key, msg :: |suite.hmac(key, msg)| == DigestLength)
    && (forall key, block :: |block| == BlockLength ==> |suite.encryptBlock(key, block)| == BlockLength)
    && (forall key, block :: |block| == BlockLength ==> |suite.decryptBlock(key, block)| == BlockLength)
    && (forall key, block :: |key| == KeyLength && |block| == BlockLength ==>
          suite.decryptBlock(key, suite.encryptBlock(key, block)) == block)
    && (forall bytes :: Utf8.Decode(bytes).Some? ==> suite.utf8Decode(bytes) == Utf8.Decode(bytes).value)
  }

  /** A trivial suite (constant HMAC, identity block functions) meets the assumptions,
      so `Sound` is not contradictory and the theorems resting on it are not vacuous. */
  lemma SoundIsSatisfiable()
    ensures exists suite :: Sound(suite)
  {
    var zeros := seq(DigestLength, _ => 0 as byte);
    var suite := Suite(
      (key: seq<byte>, msg: seq<byte>) => zeros,
      (key: seq<byte>, block: seq<byte>) => block,
      (key: seq<byte>, block: seq<byte>) => block,
      (bytes: seq<byte>) => match Utf8.Decode(bytes) case Some(s) => s case None => "");
    assert Sound(suite);
  }
}
