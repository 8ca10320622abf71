/** src/crypto/fileEncryption.js: AES-GCM file encryption under a fresh 256-bit
    key and 96-bit IV, both handed back as standard padded base64. */
module FileEncryption {
  import opened Common
  import opened Base64
  import opened Primitives

  /** Length of the random file key drawn by `encryptFile`. */
  const KEY_BYTES := 32
  /** Length of the random IV drawn by `encryptFile`. */
  const IV_BYTES := 12

  /** The object `encryptFile` resolves to. */
  datatype Encrypted = Encrypted(encryptedFile: seq<byte>, fileKey: string, iv: string)

  /** Key lengths WebCrypto's `importKey('raw', …, 'AES-GCM')` accepts (128, 192, 256 bits). */
  predicate AesKeyLength(n: nat) {
    n == 16 || n == 24 || n == 32
  }

  /** `encryptFile(fileBuffer)`: the random key is draw `draw`, the IV draw `draw + 1`. */
  function EncryptFile(suite: Suite, fileBuffer: seq<byte>, draw: nat): (r: Encrypted)
    // the key and IV are fresh random bytes, returned in standard base64
    ensures r.fileKey == EncodeStd(suite.random(draw, KEY_BYTES))
    ensures r.iv == EncodeStd(suite.random(draw + 1, IV_BYTES))
    ensures r.encryptedFile == suite.aesEncrypt(suite.random(draw, KEY_BYTES), suite.random(draw + 1, IV_BYTES), fileBuffer)
  {
    var fileKeyBytes := suite.random(draw, KEY_BYTES);
    var iv := suite.random(draw + 1, IV_BYTES);
    Encrypted(suite.aesEncrypt(fileKeyBytes, iv, fileBuffer), EncodeStd(fileKeyBytes), EncodeStd(iv))
  }

  /** A 256-bit key is 44 base64 characters, a 96-bit IV 16. */
  lemma EncryptedLengths(suite: Suite, fileBuffer: seq<byte>, draw: nat)
    requires Lawful(suite)
    ensures |EncryptFile(suite, fileBuffer, draw).fileKey| == 44
    ensures |EncryptFile(suite, fileBuffer, draw).iv| == 16
  {
    var key := suite.random(draw, KEY_BYTES);
    var iv := suite.random(draw + 1, IV_BYTES);
    assert |key| == 32 && |iv| == 12;
    assert |EncodeStd(key)| == 4 * ((32 + 2) / 3) == 44;
    assert |EncodeStd(iv)| == 4 * ((12 + 2) / 3) == 16;
  }

  /** `decryptFile(encryptedBytes, fileKeyBase64, ivBase64)`. The IV is decoded before the
      key, and `importKey` refuses a key of any other size than 16, 24 or 32 bytes. */
  function DecryptFile(suite: Suite, encryptedBytes: seq<byte>, fileKeyBase64: string, ivBase64: JsValue)
    : (r: Result<seq<byte>, Error>)
    ensures !Truthy(ivBase64) ==> r == Err(NonceMissing)
    // a result only comes out of a successful authenticated decryption
    ensures r.Ok? ==>
      && Truthy(ivBase64)
      && ForgivingDecode(AsString(ivBase64)).Some?
      && ForgivingDecode(fileKeyBase64).Some?
      && AesKeyLength(|ForgivingDecode(fileKeyBase64).value|)
      && suite.aesDecrypt(ForgivingDecode(fileKeyBase64).value, ForgivingDecode(AsString(ivBase64)).value,
                          encryptedBytes) == Some(r.value)
    ensures r.Err? ==> r.error in {NonceMissing, InvalidBase64, InvalidLength, AuthenticationFailure}
  {
    if !Truthy(ivBase64) then Err(NonceMissing)
    else
      var iv := ForgivingDecode(AsString(ivBase64));
      var fileKey := ForgivingDecode(fileKeyBase64);
      if iv.None? || fileKey.None? then Err(InvalidBase64)
      else if !AesKeyLength(|fileKey.value|) then Err(InvalidLength)
      else
        match suite.aesDecrypt(fileKey.value, iv.value, encryptedBytes)
        case None => Err(AuthenticationFailure)
        case Some(decrypted) => Ok(decrypted)
  }

  /** Once the IV is present and both strings decode to a key of a valid size, the
      result is the authenticated decryption. */
  lemma DecryptDecoded(suite: Suite, c: seq<byte>, fileKey: string, iv: string)
    requires iv != "" && ForgivingDecode(iv).Some? && ForgivingDecode(fileKey).Some?
    requires |ForgivingDecode(fileKey).value| == KEY_BYTES
    ensures DecryptFile(suite, c, fileKey, Str(iv))
            == match suite.aesDecrypt(ForgivingDecode(fileKey).value, ForgivingDecode(iv).value, c)
               case None => Err(AuthenticationFailure)
               case Some(p) => Ok(p)
  {
  }

  /** Decrypting with the base64 key and IV that came out of encryption. */
  lemma {:induction false} DecryptWithCanonicalStrings(suite: Suite, c: seq<byte>, key: seq<byte>, iv: seq<byte>)
    requires |key| == KEY_BYTES && |iv| == IV_BYTES
    ensures DecryptFile(suite, c, EncodeStd(key), Str(EncodeStd(iv)))
            == match suite.aesDecrypt(key, iv, c)
               case None => Err(AuthenticationFailure)
               case Some(p) => Ok(p)
  {
    ForgivingDecodeEncodeStd(key);
    ForgivingDecodeEncodeStd(iv);
    assert |EncodeStd(iv)| > 0;
  }

  /** What `encryptFile` returns decrypts back to the file. */
  lemma {:induction false} DecryptAfterEncrypt(suite: Suite, fileBuffer: seq<byte>, draw: nat)
    requires Lawful(suite)
    ensures var e := EncryptFile(suite, fileBuffer, draw);
            DecryptFile(suite, e.encryptedFile, e.fileKey, Str(e.iv)) == Ok(fileBuffer)
  {
    var key := suite.random(draw, KEY_BYTES);
    var iv := suite.random(draw + 1, IV_BYTES);
    DecryptWithCanonicalStrings(suite, suite.aesEncrypt(key, iv, fileBuffer), key, iv);
  }

  /** Another 256-bit key, or another 96-bit IV, does not decrypt the file: WebCrypto
      rejects it with an OperationError. */
  lemma {:induction false} DecryptWithOtherKeyOrIvFails(suite: Suite, fileBuffer: seq<byte>, draw: nat,
                                                         key': seq<byte>, iv': seq<byte>)
    requires Lawful(suite) && |key'| == KEY_BYTES && |iv'| == IV_BYTES
    requires key' != suite.random(draw, KEY_BYTES) || iv' != suite.random(draw + 1, IV_BYTES)
    ensures var e := EncryptFile(suite, fileBuffer, draw);
            DecryptFile(suite, e.encryptedFile, EncodeStd(key'), Str(EncodeStd(iv'))) == Err(AuthenticationFailure)
  {
    var key := suite.random(draw, KEY_BYTES);
    var iv := suite.random(draw + 1, IV_BYTES);
    assert suite.aesDecrypt(key', iv', suite.aesEncrypt(key, iv, fileBuffer)).None?;
    DecryptWithCanonicalStrings(suite, suite.aesEncrypt(key, iv, fileBuffer), key', iv');
  }

  /** Integrity: whatever `decryptFile` accepts is an encryption of its result under the
      decoded key and IV, so a ciphertext altered in storage is refused. */
  lemma {:induction false} DecryptOnlyAuthentic(suite: Suite, c: seq<byte>, fileKey: string, iv: string)
    requires Lawful(suite)
    requires DecryptFile(suite, c, fileKey, Str(iv)).Ok?
    ensures c == suite.aesEncrypt(ForgivingDecode(fileKey).value, ForgivingDecode(iv).value,
                                  DecryptFile(suite, c, fileKey, Str(iv)).value)
  {
    var k := ForgivingDecode(fileKey).value;
    var v := ForgivingDecode(iv).value;
    assert suite.aesDecrypt(k, v, c).Some?;
  }
}
