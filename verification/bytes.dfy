/** Bytes and the byte-level helpers shared by the cipher and key-derivation layers. */
module Bytes {

  /** An octet, as its unsigned value. */
  newtype byte = x: int | 0 <= x < 0x100

  /** Bitwise exclusive or of two naturals, least significant bit first. */
  function BitXor(x: nat, y: nat): nat
    decreases x + y
  {
    if x == 0 then y
    else if y == 0 then x
    else (x + y) % 2 + 2 * BitXor(x / 2, y / 2)
  }

  /** Exclusive or of two values below 2^width stays below 2^width. */
  lemma {:induction false} BitXorBound(x: nat, y: nat, width: nat)
    requires x < Pow2(width) && y < Pow2(width)
    ensures BitXor(x, y) < Pow2(width)
    decreases x + y
  {
    if x != 0 && y != 0 {
      assert width > 0;
      BitXorBound(x / 2, y / 2, width - 1);
    }
  }

  lemma {:induction false} BitXorCancel(x: nat, y: nat)
    ensures BitXor(BitXor(x, y), y) == x
    decreases x + y
  {
    if x == 0 {
      BitXorSelf(y);
    } else if y != 0 {
      var z := BitXor(x / 2, y / 2);
      var w := BitXor(x, y);
      assert w == (x + y) % 2 + 2 * z;
      if w == 0 {
        BitXorZero(x, y);
      } else {
        assert w / 2 == z;
        assert (w + y) % 2 == x % 2;
        assert BitXor(w, y) == (w + y) % 2 + 2 * BitXor(w / 2, y / 2);
        BitXorCancel(x / 2, y / 2);
        assert BitXor(w, y) == x % 2 + 2 * (x / 2);
      }
    }
  }

  lemma {:induction false} BitXorSelf(y: nat)
    ensures BitXor(y, y) == 0
    decreases y
  {
    if y != 0 {
      BitXorSelf(y / 2);
    }
  }

  lemma {:induction false} BitXorZero(x: nat, y: nat)
    requires BitXor(x, y) == 0
    ensures x == y
    decreases x + y
  {
    if x != 0 && y != 0 {
      assert BitXor(x / 2, y / 2) == 0 && (x + y) % 2 == 0;
      BitXorZero(x / 2, y / 2);
    }
  }

  function Pow2(n: nat): (p: nat)
    ensures p >= 1
  {
    if n == 0 then 1 else 2 * Pow2(n - 1)
  }

  /** Bitwise exclusive or of two bytes. */
  function XorByte(a: byte, b: byte): byte {
    BitXorBound(a as nat, b as nat, 8);
    BitXor(a as nat, b as nat) as byte
  }

  /** Bytewise exclusive or of two byte strings of equal length. */
  function Xor(a: seq<byte>, b: seq<byte>): (r: seq<byte>)
    requires |a| == |b|
    ensures |r| == |a|
  {
    seq(|a|, i requires 0 <= i < |a| => XorByte(a[i], b[i]))
  }

  /** Exclusive or with the same mask twice is the identity. */
  lemma XorCancel(a: seq<byte>, b: seq<byte>)
    requires |a| == |b|
    ensures Xor(Xor(a, b), b) == a
  {
    forall i | 0 <= i < |a|
      ensures Xor(Xor(a, b), b)[i] == a[i]
    {
      BitXorCancel(a[i] as nat, b[i] as nat);
    }
  }

  /** INT(i) of RFC 8018: the four-octet big-endian encoding of i. */
  function Int32BigEndian(i: nat): (r: seq<byte>)
    requires i < 0x1_0000_0000
    ensures |r| == 4
    ensures (r[0] as int) * 0x100_0000 + (r[1] as int) * 0x1_0000 + (r[2] as int) * 0x100 + r[3] as int == i
  {
    var q1 := i / 0x100;
    var q2 := q1 / 0x100;
    var q3 := q2 / 0x100;
    OctetsOf(i);
    [q3 as byte, (q2 % 0x100) as byte, (q1 % 0x100) as byte, (i % 0x100) as byte]
  }

  /** Base-256 digits of a 32-bit value, most significant first, put back together. */
  lemma OctetsOf(i: nat)
    requires i < 0x1_0000_0000
    ensures var q1 := i / 0x100; var q2 := q1 / 0x100; var q3 := q2 / 0x100;
      && q3 < 0x100
      && q3 * 0x100_0000 + (q2 % 0x100) * 0x1_0000 + (q1 % 0x100) * 0x100 + i % 0x100 == i
  {
    var q1 := i / 0x100;
    var q2 := q1 / 0x100;
    var q3 := q2 / 0x100;
    assert i == q1 * 0x100 + i % 0x100;
    assert q1 == q2 * 0x100 + q1 % 0x100;
    assert q2 == q3 * 0x100 + q2 % 0x100;
  }
}
