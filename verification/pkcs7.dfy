/** PKCS#7 padding (section 6.3 of RFC 5652) for the 16-byte AES block, as OpenSSL
    applies it by default in `cipher.final()` and checks it in `decipher.final()`. */
module Pkcs7 {

  import opened Bytes
  import opened Results
  import opened Crypto

  /** Appends n copies of the byte n, where n in 1..16 brings the length to the next
      multiple of the block size; input that is already aligned gains a full block. */
  function Pad(data: seq<byte>): (padded: seq<byte>)
    ensures |padded| % BlockLength == 0
    ensures |data| < |padded| <= |data| + BlockLength
    ensures padded[..|data|] == data
  {
    var n := BlockLength - |data| % BlockLength;
    data + seq(n, _ => n as byte)
  }

  /** Strips the padding of a decrypted, block-aligned buffer. Fails, as OpenSSL's "bad
      decrypt", when the final byte n is 0 or above 16, or the last n bytes are not all n. */
  function Unpad(data: seq<byte>): Option<seq<byte>> {
    if |data| == 0 || |data| % BlockLength != 0 then None
    else
      var n := data[|data| - 1] as int;
      if n == 0 || n > BlockLength then None
      else if forall i :: |data| - n <= i < |data| ==> data[i] as int == n then Some(data[..|data| - n])
      else None
  }

  /** Unpad accepts exactly the padded buffers and returns what was padded. */
  lemma UnpadPad(data: seq<byte>, plain: seq<byte>)
    ensures Unpad(data) == Some(plain) <==> data == Pad(plain)
  {
    if data == Pad(plain) {
      var n := BlockLength - |plain| % BlockLength;
      assert data[|data| - 1] as int == n;
      assert forall i :: |data| - n <= i < |data| ==> data[i] as int == n;
      assert data[..|data| - n] == plain;
    }
    if Unpad(data) == Some(plain) {
      var n := data[|data| - 1] as int;
      assert |plain| == |data| - n;
      assert BlockLength - |plain| % BlockLength == n;
      assert data == plain + seq(n, _ => n as byte);
    }
  }
}
