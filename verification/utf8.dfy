/** UTF-8 (RFC 3629): the encoding Node applies to strings handed to `pbkdf2Sync` and
    `cipher.update(s, 'utf-8')`, and a strict decoder that accepts exactly well-formed
    UTF-8. A Dafny `char` is a Unicode scalar value, so every string is encodable. */
module Utf8 {

  import opened Bytes
  import opened Results

  /** The one to four bytes encoding one scalar value. */
  function EncodeChar(c: char): (bytes: seq<byte>)
    ensures 1 <= |bytes| <= 4
    ensures c as int < 0x80 ==> bytes == [c as int as byte]
  {
    var v := c as int;
    if v < 0x80 then [v as byte]
    else if v < 0x800 then [(0xC0 + v / 0x40) as byte, (0x80 + v % 0x40) as byte]
    else
      var q1 := v / 0x40;
      var q2 := q1 / 0x40;
      if v < 0x1_0000 then
        [(0xE0 + q2) as byte, (0x80 + q1 % 0x40) as byte, (0x80 + v % 0x40) as byte]
      else
        [(0xF0 + q2 / 0x40) as byte, (0x80 + q2 % 0x40) as byte, (0x80 + q1 % 0x40) as byte, (0x80 + v % 0x40) as byte]
  }

  /** The UTF-8 encoding of a string. */
  function Encode(s: string): (bytes: seq<byte>)
    ensures |s| <= |bytes| <= 4 * |s|
  {
    if s == [] then [] else EncodeChar(s[0]) + Encode(s[1..])
  }

  predicate IsContinuation(b: byte) {
    0x80 <= b < 0xC0
  }

  /** The scalar value with the given code point, when there is one. */
  function ScalarOf(v: int): Option<char> {
    if 0 <= v < 0xD800 || 0xE000 <= v < 0x11_0000 then Some(v as char) else None
  }

  /** Reads one well-formed sequence at the start of `bytes`: the character and the
      number of bytes it took. Overlong forms, surrogates and values beyond U+10FFFF fail. */
  function DecodeChar(bytes: seq<byte>): (r: Option<(char, nat)>)
    requires |bytes| >= 1
    ensures r.Some? ==> 1 <= r.value.1 <= |bytes|
  {
    var b0 := bytes[0] as int;
    if b0 < 0x80 then Some((b0 as char, 1))
    else if 0xC2 <= b0 < 0xE0 && |bytes| >= 2 && IsContinuation(bytes[1]) then
      var v := (b0 - 0xC0) * 0x40 + (bytes[1] as int - 0x80);
      Some((v as char, 2))
    else if 0xE0 <= b0 < 0xF0 && |bytes| >= 3 && IsContinuation(bytes[1]) && IsContinuation(bytes[2]) then
      var v := (b0 - 0xE0) * 0x1000 + (bytes[1] as int - 0x80) * 0x40 + (bytes[2] as int - 0x80);
      if v < 0x800 then None
      else match ScalarOf(v)
        case Some(c) => Some((c, 3))
        case None => None
    else if 0xF0 <= b0 < 0xF5 && |bytes| >= 4 && IsContinuation(bytes[1]) && IsContinuation(bytes[2])
      && IsContinuation(bytes[3]) then
      var v := (b0 - 0xF0) * 0x4_0000 + (bytes[1] as int - 0x80) * 0x1000
        + (bytes[2] as int - 0x80) * 0x40 + (bytes[3] as int - 0x80);
      if v < 0x1_0000 then None
      else match ScalarOf(v)
        case Some(c) => Some((c, 4))
        case None => None
    else None
  }

  /** Strict decoding: the string whose encoding `bytes` is, or None for ill-formed input. */
  function Decode(bytes: seq<byte>): Option<string>
    decreases |bytes|
  {
    if bytes == [] then Some("")
    else match DecodeChar(bytes)
      case None => None
      case Some((c, n)) =>
        match Decode(bytes[n..])
        case None => None
        case Some(rest) => Some([c] + rest)
  }

  /** The first character's encoding is read back whatever follows it. */
  lemma DecodeEncodeChar(c: char, tail: seq<byte>)
    ensures DecodeChar(EncodeChar(c) + tail) == Some((c, |EncodeChar(c)|))
  {
    var v := c as int;
    if v < 0x80 {
    } else if v < 0x800 {
      DecodeTwo(c, tail);
    } else if v < 0x1_0000 {
      DecodeThree(c, tail);
    } else {
      DecodeFour(c, tail);
    }
  }

  lemma DecodeTwo(c: char, tail: seq<byte>)
    requires 0x80 <= c as int < 0x800
    ensures DecodeChar(EncodeChar(c) + tail) == Some((c, 2))
  {
    var v := c as int;
    var bytes := EncodeChar(c) + tail;
    assert bytes[0] as int == 0xC0 + v / 0x40 && bytes[1] as int == 0x80 + v % 0x40;
  }

  lemma DecodeThree(c: char, tail: seq<byte>)
    requires 0x800 <= c as int < 0x1_0000
    ensures DecodeChar(EncodeChar(c) + tail) == Some((c, 3))
  {
    var v := c as int;
    var bytes := EncodeChar(c) + tail;
    var q1 := v / 0x40;
    var q2 := q1 / 0x40;
    Digits(v);
    assert bytes[0] as int == 0xE0 + q2 && bytes[1] as int == 0x80 + q1 % 0x40 && bytes[2] as int == 0x80 + v % 0x40;
    assert q2 * 0x1000 + (q1 % 0x40) * 0x40 + v % 0x40 == v;
    assert ScalarOf(q2 * 0x1000 + (q1 % 0x40) * 0x40 + v % 0x40) == Some(c);
  }

  lemma DecodeFour(c: char, tail: seq<byte>)
    requires 0x1_0000 <= c as int
    ensures DecodeChar(EncodeChar(c) + tail) == Some((c, 4))
  {
    var v := c as int;
    var bytes := EncodeChar(c) + tail;
    var q1 := v / 0x40;
    var q2 := q1 / 0x40;
    var q3 := q2 / 0x40;
    Digits(v);
    assert bytes[0] as int == 0xF0 + q3 && bytes[1] as int == 0x80 + q2 % 0x40;
    assert bytes[2] as int == 0x80 + q1 % 0x40 && bytes[3] as int == 0x80 + v % 0x40;
    assert ScalarOf(q3 * 0x4_0000 + (q2 % 0x40) * 0x1000 + (q1 % 0x40) * 0x40 + v % 0x40) == Some(c);
  }

  /** Base-64 digits of a code point, most significant first, put back together. */
  lemma Digits(v: nat)
    ensures var q1 := v / 0x40; var q2 := q1 / 0x40; var q3 := q2 / 0x40;
      && q2 * 0x1000 + (q1 % 0x40) * 0x40 + v % 0x40 == v
      && q3 * 0x4_0000 + (q2 % 0x40) * 0x1000 + (q1 % 0x40) * 0x40 + v % 0x40 == v
  {
    var q1 := v / 0x40;
    var q2 := q1 / 0x40;
    var q3 := q2 / 0x40;
    assert v == q1 * 0x40 + v % 0x40;
    assert q1 == q2 * 0x40 + q1 % 0x40;
    assert q2 == q3 * 0x40 + q2 % 0x40;
  }

  /** Strict decoding inverts encoding. */
  lemma {:induction false} DecodeEncode(s: string)
    ensures Decode(Encode(s)) == Some(s)
  {
    if s != [] {
      var head := EncodeChar(s[0]);
      var tail := Encode(s[1..]);
      DecodeEncodeChar(s[0], tail);
      assert (head + tail)[|head|..] == tail;
      DecodeEncode(s[1..]);
      assert [s[0]] + s[1..] == s;
    }
  }
}
