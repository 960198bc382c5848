/** AES-256 in CBC mode (section 6.2 of NIST SP 800-38A) with PKCS#7 padding, the
    `aes-256-cbc` cipher of Node's `createCipheriv`/`createDecipheriv`: chaining is
    modelled here, the block transformation is the suite's. */
module AesCbc {

  import opened Bytes
  import opened Results
  import opened Crypto
  import Pkcs7

  /** Why `createDecipheriv`, `update` or `final` throws. */
  datatype CipherError =
    | InvalidKeyLength        // the key is not 32 bytes
    | InvalidIv               // the IV is not 16 bytes
    | WrongFinalBlockLength   // the ciphertext is empty or not a whole number of blocks
    | BadDecrypt              // the padding of the last block does not check

  /** C_j = CIPH_K(P_j xor C_(j-1)) with C_0 = IV, over whole blocks. */
  function EncryptBlocks(suite: Suite, key: seq<byte>, iv: seq<byte>, data: seq<byte>): (ct: seq<byte>)
    requires Sound(suite) && |iv| == BlockLength && |data| % BlockLength == 0
    ensures |ct| == |data|
    decreases |data|
  {
    if |data| == 0 then []
    else
      var c := suite.encryptBlock(key, Xor(data[..BlockLength], iv));
      c + EncryptBlocks(suite, key, c, data[BlockLength..])
  }

  /** P_j = CIPH^-1_K(C_j) xor C_(j-1) with C_0 = IV, over whole blocks. */
  function DecryptBlocks(suite: Suite, key: seq<byte>, iv: seq<byte>, ct: seq<byte>): (data: seq<byte>)
    requires Sound(suite) && |iv| == BlockLength && |ct| % BlockLength == 0
    ensures |data| == |ct|
    decreases |ct|
  {
    if |ct| == 0 then []
    else
      var c := ct[..BlockLength];
      Xor(suite.decryptBlock(key, c), iv) + DecryptBlocks(suite, key, c, ct[BlockLength..])
  }

  /** CBC decryption under the same key and IV inverts CBC encryption. */
  lemma {:induction false} DecryptEncryptBlocks(suite: Suite, key: seq<byte>, iv: seq<byte>, data: seq<byte>)
    requires Sound(suite) && |key| == KeyLength && |iv| == BlockLength && |data| % BlockLength == 0
    ensures DecryptBlocks(suite, key, iv, EncryptBlocks(suite, key, iv, data)) == data
    decreases |data|
  {
    if |data| != 0 {
      var p := data[..BlockLength];
      var c := suite.encryptBlock(key, Xor(p, iv));
      var rest := EncryptBlocks(suite, key, c, data[BlockLength..]);
      var ct := c + rest;
      assert ct[..BlockLength] == c && ct[BlockLength..] == rest;
      XorCancel(p, iv);
      DecryptEncryptBlocks(suite, key, c, data[BlockLength..]);
      assert data == p + data[BlockLength..];
    }
  }

  /** `cipher.update(plaintext)` followed by `cipher.final()`: the padded plaintext,
      CBC-encrypted. */
  function Encrypt(suite: Suite, key: seq<byte>, iv: seq<byte>, plaintext: seq<byte>): (ct: seq<byte>)
    requires Sound(suite) && |key| == KeyLength && |iv| == BlockLength
    ensures |ct| % BlockLength == 0
    ensures |plaintext| < |ct| <= |plaintext| + BlockLength
  {
    EncryptBlocks(suite, key, iv, Pkcs7.Pad(plaintext))
  }

  /** `createDecipheriv`, `decipher.update(ct)` and `decipher.final()`, with the
      exception each can throw. */
  function Decrypt(suite: Suite, key: seq<byte>, iv: seq<byte>, ct: seq<byte>): (r: Result<seq<byte>, CipherError>)
    requires Sound(suite)
    ensures r.Ok? ==> |key| == KeyLength && |iv| == BlockLength
    ensures r.Ok? ==> |ct| > 0 && |ct| % BlockLength == 0 && |ct| - BlockLength <= |r.value| < |ct|
  {
    if |key| != KeyLength then Err(InvalidKeyLength)
    else if |iv| != BlockLength then Err(InvalidIv)
    else if |ct| == 0 || |ct| % BlockLength != 0 then Err(WrongFinalBlockLength)
    else
      var padded := DecryptBlocks(suite, key, iv, ct);
      match Pkcs7.Unpad(padded)
      case Some(plaintext) =>
        Pkcs7.UnpadPad(padded, plaintext);
        Ok(plaintext)
      case None => Err(BadDecrypt)
  }

  /** Decrypting with the key and IV used to encrypt recovers the plaintext. */
  lemma DecryptEncrypt(suite: Suite, key: seq<byte>, iv: seq<byte>, plaintext: seq<byte>)
    requires Sound(suite) && |key| == KeyLength && |iv| == BlockLength
    ensures Decrypt(suite, key, iv, Encrypt(suite, key, iv, plaintext)) == Ok(plaintext)
  {
    var padded := Pkcs7.Pad(plaintext);
    DecryptEncryptBlocks(suite, key, iv, padded);
    Pkcs7.UnpadPad(padded, plaintext);
  }
}
