/** Base16 (section 8 of RFC 4648) as Node's `Buffer` implements it: `toString('hex')`
    writes lowercase digits; `Buffer.from(s, 'hex')` reads either case over the string's
    UTF-16 code units, each narrowed to its low byte, and never fails. */
module Hex {

  import opened Bytes
  import opened Strings

  /** The digit for a nibble, lowercase as Node writes it. */
  function DigitChar(v: nat): (c: char)
    requires v < 16
    ensures IsLowerDigit(c)
  {
    if v < 10 then ('0' as int + v) as char else ('a' as int + v - 10) as char
  }

  predicate IsLowerDigit(c: char) {
    '0' <= c <= '9' || 'a' <= c <= 'f'
  }

  /** Every character is a lowercase hexadecimal digit. */
  predicate IsLowerHex(s: string) {
    forall i :: 0 <= i < |s| ==> IsLowerDigit(s[i])
  }

  /** The value of a hexadecimal digit of either case, or -1 for any other character. */
  function DigitValue(c: char): (v: int)
    ensures -1 <= v < 16
  {
    if '0' <= c <= '9' then c as int - '0' as int
    else if 'a' <= c <= 'f' then c as int - 'a' as int + 10
    else if 'A' <= c <= 'F' then c as int - 'A' as int + 10
    else -1
  }

  /** `Buffer.toString('hex')`: two digits per byte, high nibble first. */
  function Encode(bytes: seq<byte>): (s: string)
    ensures |s| == 2 * |bytes|
    ensures IsLowerHex(s)
  {
    if bytes == [] then ""
    else [DigitChar(bytes[0] as nat / 16), DigitChar(bytes[0] as nat % 16)] + Encode(bytes[1..])
  }

  /** The digit value Node's decoder sees in a UTF-16 code unit: it narrows the unit to
      its low byte first, so U+0161 reads as 'a' (0x61) and U+0130 as '0'. */
  function UnitDigit(unit: int): (v: int)
    requires 0 <= unit < 0x1_0000
    ensures -1 <= v < 16
    ensures unit < 0x100 ==> v == DigitValue(unit as char)
  {
    DigitValue((unit % 0x100) as char)
  }

  /** Node's hex decoder over code units: digit pairs from the left, stopping without an
      error at the first pair holding a non-digit; an odd final unit is dropped. */
  function DecodeUnits(units: seq<int>): (bytes: seq<byte>)
    requires forall i :: 0 <= i < |units| ==> 0 <= units[i] < 0x1_0000
    ensures |bytes| <= |units| / 2
  {
    if |units| < 2 then []
    else
      var hi, lo := UnitDigit(units[0]), UnitDigit(units[1]);
      if hi < 0 || lo < 0 then [] else [(hi * 16 + lo) as byte] + DecodeUnits(units[2..])
  }

  /** `Buffer.from(s, 'hex')`: the decoder runs over the string's UTF-16 code units, so a
      character above U+FFFF counts as two units, and never fails. */
  function DecodeLenient(s: string): (bytes: seq<byte>)
    ensures |bytes| <= |Utf16(s)| / 2
    ensures |bytes| <= |s|
  {
    DecodeUnits(Utf16(s))
  }

  /** On text below U+0100 decoding reads the characters themselves: two digits make a
      byte, and anything else ends the result. */
  lemma Latin1Pair(c: char, d: char, rest: string)
    requires c as int < 0x100 && d as int < 0x100
    ensures DigitValue(c) >= 0 && DigitValue(d) >= 0 ==>
      DecodeLenient([c, d] + rest) == [(DigitValue(c) * 16 + DigitValue(d)) as byte] + DecodeLenient(rest)
    ensures DigitValue(c) < 0 || DigitValue(d) < 0 ==> DecodeLenient([c, d] + rest) == []
  {
    Utf16Append([c, d], rest);
    assert Utf16([c, d]) == [c as int, d as int];
    assert Utf16([c, d] + rest)[2..] == Utf16(rest);
  }

  /** Hex text holds no field separator of the envelope token. */
  lemma LowerHexHasNoColon(s: string)
    requires IsLowerHex(s)
    ensures ':' !in s
  {
  }

  /** Decoding what Node encodes gives back the bytes. */
  lemma {:induction false} DecodeEncode(bytes: seq<byte>)
    ensures DecodeLenient(Encode(bytes)) == bytes
  {
    if bytes != [] {
      var s := Encode(bytes);
      var b := bytes[0] as nat;
      assert s == [s[0], s[1]] + Encode(bytes[1..]);
      assert DigitValue(s[0]) == b / 16 && DigitValue(s[1]) == b % 16;
      Latin1Pair(s[0], s[1], Encode(bytes[1..]));
      DecodeEncode(bytes[1..]);
    }
  }

  /** Encoding the bytes of even-length lowercase hex gives back the text: together with
      DecodeEncode, the two are inverse bijections between byte strings and such text. */
  lemma {:induction false} EncodeDecode(s: string)
    requires IsLowerHex(s) && |s| % 2 == 0
    ensures Encode(DecodeLenient(s)) == s
  {
    if s != [] {
      var rest := s[2..];
      assert IsLowerDigit(s[0]) && IsLowerDigit(s[1]);
      assert s == [s[0], s[1]] + rest;
      Latin1Pair(s[0], s[1], rest);
      var b := PairByte(s[0], s[1]);
      var tail := DecodeLenient(rest);
      assert DecodeLenient(s) == [b] + tail;
      EncodeDecode(rest);
      assert ([b] + tail)[0] == b && ([b] + tail)[1..] == tail;
    }
  }

  /** The byte two lowercase digits spell, which encodes back to those digits. */
  function PairByte(c: char, d: char): (b: byte)
    requires IsLowerDigit(c) && IsLowerDigit(d)
    ensures b as int == DigitValue(c) * 16 + DigitValue(d)
    ensures DigitChar(b as nat / 16) == c && DigitChar(b as nat % 16) == d
  {
    (DigitValue(c) * 16 + DigitValue(d)) as byte
  }

  /** Characters above U+00FF are read through their low byte: U+0161 U+0030 ('š0')
      decodes to the byte 0xA0, as 'a0' does. */
  lemma NarrowedUnits()
    ensures DecodeLenient(['\U{0161}', '0']) == [0xA0 as byte]
  {
    assert Utf16(['\U{0161}', '0']) == [0x161, 0x30];
    assert DecodeUnits([0x161, 0x30]) == [0xA0 as byte] + DecodeUnits([]);
  }

  /** A character above U+FFFF is two code units, which pair up as digits: U+1CC31
      (units D833 DC31) decodes to the byte 0x31, from one character. */
  lemma AstralIsTwoUnits()
    ensures DecodeLenient(['\U{1CC31}']) == [0x31 as byte]
  {
    assert Utf16(['\U{1CC31}']) == [0xD833, 0xDC31];
    assert DecodeUnits([0xD833, 0xDC31]) == [0x31 as byte] + DecodeUnits([]);
  }
}
