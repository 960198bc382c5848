/** The credential envelope codec of `utils/encryption.ts`: key derivation from the
    master password, encryption of a stored password into the token
    `hex(iv):hex(ciphertext):salt`, and decryption of such a token back to the password,
    where every failure comes back as `null` (here `None`).

    Randomness is a parameter: `random` stands for the 16 bytes `crypto.randomBytes(16)`
    would return, `iv` for the IV `encryptPassword` draws. */
module Encryption {

  import opened Bytes
  import opened Results
  import opened Crypto
  import opened Strings
  import Hex
  import Utf8
  import Pbkdf2
  import AesCbc

  /** PBKDF2 iteration count. */
  const Iterations: nat := 100000
  /** Random bytes behind a fresh salt. */
  const SaltLength: nat := 16
  /** Random bytes of IV, one AES block. */
  const IvLength: nat := BlockLength
  /** Field separator of the token. */
  const Separator: char := ':'

  /** The `{ key, salt }` object `generateKey` returns. */
  datatype DerivedKey = DerivedKey(key: seq<byte>, salt: string)

  /** The three parts of a token, before rendering. */
  datatype Envelope = Envelope(iv: seq<byte>, ciphertext: seq<byte>, salt: string)

  /** Why decryption failed; the caller only ever sees that it failed. */
  datatype DecryptError =
    | MissingCiphertext        // `Buffer.from(undefined, 'hex')` throws: the token has no ':'
    | Cipher(reason: AesCbc.CipherError)

  /** The default salt: the random bytes written as lowercase hex text. */
  function FreshSalt(random: seq<byte>): (salt: string)
    requires |random| == SaltLength
    ensures |salt| == 2 * SaltLength && Hex.IsLowerHex(salt) && Separator !in salt
    ensures Hex.DecodeLenient(salt) == random
  {
    Hex.DecodeEncode(random);
    Hex.LowerHexHasNoColon(Hex.Encode(random));
    Hex.Encode(random)
  }

  /** `generateKey(masterPassword, salt?)`: the salt text as given, or a fresh one when
      none is given, and the 32-byte PBKDF2-HMAC-SHA-256 key over the UTF-8 bytes of the
      password and of that salt TEXT (the hex is not decoded), with 100000 iterations. */
  function GenerateKey(suite: Suite, masterPassword: string, salt: Option<string>, random: seq<byte>)
    : (r: DerivedKey)
    requires Sound(suite) && |random| == SaltLength
    ensures |r.key| == KeyLength
    ensures salt.Some? ==> r.salt == salt.value
    ensures salt.None? ==> r.salt == FreshSalt(random)
    ensures Pbkdf2.Derive(suite.hmac, Utf8.Encode(masterPassword), Utf8.Encode(r.salt), Iterations, KeyLength)
      == Some(r.key)
  {
    var s := if salt.Some? then salt.value else FreshSalt(random);
    var dk := Pbkdf2.Derive(suite.hmac, Utf8.Encode(masterPassword), Utf8.Encode(s), Iterations, KeyLength);
    DerivedKey(dk.value, s)
  }

  /** The token text: both byte fields in hex, then the salt verbatim, joined by ':'. */
  function Render(e: Envelope): (token: string)
    requires Separator !in e.salt
    ensures Split(token, Separator) == [Hex.Encode(e.iv), Hex.Encode(e.ciphertext), e.salt]
  {
    var fields := [Hex.Encode(e.iv), Hex.Encode(e.ciphertext), e.salt];
    Hex.LowerHexHasNoColon(fields[0]);
    Hex.LowerHexHasNoColon(fields[1]);
    SplitJoin(fields, Separator);
    JoinThree(fields[0], fields[1], fields[2], Separator);
    fields[0] + [Separator] + fields[1] + [Separator] + fields[2]
  }

  /** The envelope `encryptPassword` builds before rendering it. */
  function Seal(suite: Suite, password: string, masterPassword: string, iv: seq<byte>, random: seq<byte>)
    : (e: Envelope)
    requires Sound(suite) && |iv| == IvLength && |random| == SaltLength
    ensures e.iv == iv && e.salt == FreshSalt(random)
    ensures |e.ciphertext| % BlockLength == 0
    ensures |Utf8.Encode(password)| < |e.ciphertext| <= |Utf8.Encode(password)| + BlockLength
  {
    var k := GenerateKey(suite, masterPassword, None, random);
    Envelope(iv, AesCbc.Encrypt(suite, k.key, iv, Utf8.Encode(password)), k.salt)
  }

  /** `encryptPassword(password, masterPassword).encryptedPassword`: a token of exactly
      three fields, a 32-digit IV, a ciphertext of a positive whole number of blocks
      (32 digits each) and the 32-digit fresh salt. */
  function EncryptPassword(suite: Suite, password: string, masterPassword: string, iv: seq<byte>, random: seq<byte>)
    : (token: string)
    requires Sound(suite) && |iv| == IvLength && |random| == SaltLength
    ensures var fields := Split(token, Separator);
      && |fields| == 3
      && fields[0] == Hex.Encode(iv) && |fields[0]| == 2 * IvLength
      && Hex.IsLowerHex(fields[1]) && |fields[1]| > 0 && |fields[1]| % (2 * BlockLength) == 0
      && fields[2] == FreshSalt(random)
  {
    var e := Seal(suite, password, masterPassword, iv, random);
    HexLengthOfBlocks(e.ciphertext);
    Render(e)
  }

  lemma HexLengthOfBlocks(bytes: seq<byte>)
    requires |bytes| % BlockLength == 0
    ensures |Hex.Encode(bytes)| % (2 * BlockLength) == 0
  {
    var k := |bytes| / BlockLength;
    assert |Hex.Encode(bytes)| == (2 * BlockLength) * k;
  }

  /** The body of `decryptPassword`'s `try` block, with the reason for each throw. */
  function Open(suite: Suite, token: string, masterPassword: string, random: seq<byte>)
    : Result<string, DecryptError>
    requires Sound(suite) && |random| == SaltLength
  {
    var fields := Split(token, Separator);
    var salt := if |fields| >= 3 then Some(fields[2]) else None;
    var key := GenerateKey(suite, masterPassword, salt, random).key;
    if |fields| < 2 then Err(MissingCiphertext)
    else
      match AesCbc.Decrypt(suite, key, Hex.DecodeLenient(fields[0]), Hex.DecodeLenient(fields[1]))
      case Ok(bytes) => Ok(suite.utf8Decode(bytes))
      case Err(reason) => Err(Cipher(reason))
  }

  /** `decryptPassword(token, masterPassword)`: never throws; any failure is `None`.
      Success needs a second field, a first field whose leading hex pairs give 16
      bytes, and a second giving a positive whole number of blocks. */
  function DecryptPassword(suite: Suite, token: string, masterPassword: string, random: seq<byte>)
    : (plaintext: Option<string>)
    requires Sound(suite) && |random| == SaltLength
    ensures plaintext.Some? ==>
      var fields := Split(token, Separator);
      && |fields| >= 2
      && |Hex.DecodeLenient(fields[0])| == IvLength
      && |Hex.DecodeLenient(fields[1])| > 0 && |Hex.DecodeLenient(fields[1])| % BlockLength == 0
  {
    Open(suite, token, masterPassword, random).ToOption()
  }

  /** Round trip: a token made by `encryptPassword` decrypts, under the same master
      password, to the password it was made from, whatever randomness decryption sees. */
  lemma RoundTrip(suite: Suite, password: string, masterPassword: string, iv: seq<byte>, random: seq<byte>,
                  decryptRandom: seq<byte>)
    requires Sound(suite) && |iv| == IvLength && |random| == SaltLength && |decryptRandom| == SaltLength
    ensures DecryptPassword(suite, EncryptPassword(suite, password, masterPassword, iv, random), masterPassword,
                            decryptRandom) == Some(password)
  {
    var e := Seal(suite, password, masterPassword, iv, random);
    var token := Render(e);
    var fields := Split(token, Separator);
    assert fields == [Hex.Encode(iv), Hex.Encode(e.ciphertext), e.salt];
    var k := GenerateKey(suite, masterPassword, None, random);
    assert GenerateKey(suite, masterPassword, Some(fields[2]), decryptRandom).key == k.key;
    Hex.DecodeEncode(iv);
    Hex.DecodeEncode(e.ciphertext);
    var bytes := Utf8.Encode(password);
    AesCbc.DecryptEncrypt(suite, k.key, iv, bytes);
    Utf8.DecodeEncode(password);
  }

  /** Only the first three fields are read: fields after the salt change nothing. */
  lemma ExtraFieldsIgnored(suite: Suite, token: string, masterPassword: string, random: seq<byte>)
    requires Sound(suite) && |random| == SaltLength
    requires |Split(token, Separator)| >= 3
    ensures var fields := Split(token, Separator);
      DecryptPassword(suite, token, masterPassword, random)
        == DecryptPassword(suite, Join(fields[..3], Separator), masterPassword, random)
  {
    var fields := Split(token, Separator);
    SplitJoin(fields[..3], Separator);
  }

  /** With a salt field present, decryption does not depend on the random salt. */
  lemma SaltedTokenIgnoresRandom(suite: Suite, token: string, masterPassword: string, r1: seq<byte>, r2: seq<byte>)
    requires Sound(suite) && |r1| == SaltLength && |r2| == SaltLength
    requires |Split(token, Separator)| >= 3
    ensures DecryptPassword(suite, token, masterPassword, r1) == DecryptPassword(suite, token, masterPassword, r2)
  {
  }

  /** A token without ':' has no ciphertext field and always fails. */
  lemma NoSeparatorFails(suite: Suite, token: string, masterPassword: string, random: seq<byte>)
    requires Sound(suite) && |random| == SaltLength
    requires Separator !in token
    ensures DecryptPassword(suite, token, masterPassword, random) == None
  {
  }

  /** Even the empty password is padded to a full block: 32 hex digits of ciphertext. */
  lemma EmptyPasswordCiphertext(suite: Suite, masterPassword: string, iv: seq<byte>, random: seq<byte>)
    requires Sound(suite) && |iv| == IvLength && |random| == SaltLength
    ensures |Split(EncryptPassword(suite, "", masterPassword, iv, random), Separator)[1]| == 2 * BlockLength
  {
    var e := Seal(suite, "", masterPassword, iv, random);
    assert Utf8.Encode("") == [];
    assert Split(Render(e), Separator)[1] == Hex.Encode(e.ciphertext);
  }
}
