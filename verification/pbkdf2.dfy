/** PBKDF2 (section 5.2 of RFC 8018) over an abstract pseudorandom function with a
    32-byte output, which is how Node's `pbkdf2Sync(..., 'sha256')` uses HMAC-SHA-256. */
module Pbkdf2 {

  import opened Bytes
  import opened Results
  import opened Crypto

  type Prf = (seq<byte>, seq<byte>) -> seq<byte>

  /** The pseudorandom function always yields hLen = 32 bytes. */
  ghost predicate FixedLength(prf: Prf) {
    forall key, msg :: |prf(key, msg)| == DigestLength
  }

  /** U_j xor U_(j+1) xor ... xor U_c, given u = U_j and count = c - j + 1 terms,
      where U_(j+1) = PRF(P, U_j). */
  function XorChain(prf: Prf, password: seq<byte>, u: seq<byte>, count: nat): (t: seq<byte>)
    requires FixedLength(prf) && |u| == DigestLength && count >= 1
    ensures |t| == DigestLength
    decreases count
  {
    if count == 1 then u else Xor(u, XorChain(prf, password, prf(password, u), count - 1))
  }

  /** F(P, S, c, i) = U_1 xor ... xor U_c with U_1 = PRF(P, S || INT(i)). */
  function BlockF(prf: Prf, password: seq<byte>, salt: seq<byte>, iterations: nat, index: nat): (t: seq<byte>)
    requires FixedLength(prf) && iterations >= 1 && 1 <= index < 0x1_0000_0000
    ensures |t| == DigestLength
  {
    XorChain(prf, password, prf(password, salt + Int32BigEndian(index)), iterations)
  }

  /** T_first || T_(first+1) || ... for `count` blocks. */
  function Blocks(prf: Prf, password: seq<byte>, salt: seq<byte>, iterations: nat, first: nat, count: nat)
    : (ts: seq<byte>)
    requires FixedLength(prf) && iterations >= 1 && 1 <= first && first + count <= 0x1_0000_0000
    ensures |ts| == DigestLength * count
    decreases count
  {
    if count == 0 then []
    else BlockF(prf, password, salt, iterations, first) + Blocks(prf, password, salt, iterations, first + 1, count - 1)
  }

  /** DK = T_1 || ... || T_l truncated to dkLen bytes, l = CEIL(dkLen / hLen); fails with
      "derived key too long" when dkLen exceeds (2^32 - 1) * hLen. */
  function Derive(prf: Prf, password: seq<byte>, salt: seq<byte>, iterations: nat, keyLength: nat)
    : (dk: Option<seq<byte>>)
    requires FixedLength(prf) && iterations >= 1
    ensures dk.Some? <==> keyLength <= (0x1_0000_0000 - 1) * DigestLength
    ensures dk.Some? ==> |dk.value| == keyLength
  {
    if keyLength > (0x1_0000_0000 - 1) * DigestLength then None
    else
      var l := (keyLength + DigestLength - 1) / DigestLength;
      Some(Blocks(prf, password, salt, iterations, 1, l)[..keyLength])
  }

  /** A key of exactly one digest length is the single block T_1 = F(P, S, c, 1). */
  lemma OneBlockKey(prf: Prf, password: seq<byte>, salt: seq<byte>, iterations: nat)
    requires FixedLength(prf) && iterations >= 1
    ensures Derive(prf, password, salt, iterations, DigestLength) == Some(BlockF(prf, password, salt, iterations, 1))
  {
    var t1 := BlockF(prf, password, salt, iterations, 1);
    assert Blocks(prf, password, salt, iterations, 1, 1) == t1 + [];
    assert (t1 + [])[..DigestLength] == t1;
  }
}
