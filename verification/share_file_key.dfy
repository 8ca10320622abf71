/** src/crypto/shareFileKey.js: wrapping a file key for one recipient with an
    anonymous sealed box, and unwrapping it with the recipient's key pair.
    The file key travels as standard padded base64 (atob/btoa); sealed values and
    both keys travel as URL-safe unpadded base64 (sodium's URLSAFE_NO_PADDING). */
module ShareFileKey {
  import opened Common
  import opened Base64
  import opened Primitives

  /** `encryptFileKeyForUser(fileKeyBase64, recipientPublicKeyBase64)`. */
  function EncryptFileKeyForUser(suite: Suite, fileKeyBase64: JsValue, recipientPublicKeyBase64: JsValue)
    : (r: Result<string, Error>)
    // the guard comes before any decoding
    ensures !Truthy(fileKeyBase64) || !Truthy(recipientPublicKeyBase64) ==> r == Err(MissingParameters)
    // the sealed value leaves as URL-safe unpadded base64 of a sealed box for the decoded key
    ensures r.Ok? ==>
      && Truthy(fileKeyBase64) && Truthy(recipientPublicKeyBase64)
      && ForgivingDecode(AsString(fileKeyBase64)).Some?
      && DecodeUrl(AsString(recipientPublicKeyBase64)).Some?
      && DecodeUrl(r.value) == Some(suite.boxSeal(ForgivingDecode(AsString(fileKeyBase64)).value,
                                                 DecodeUrl(AsString(recipientPublicKeyBase64)).value))
    ensures r.Err? ==> r.error in {MissingParameters, InvalidBase64, InvalidLength}
  {
    if !Truthy(fileKeyBase64) || !Truthy(recipientPublicKeyBase64) then Err(MissingParameters)
    else
      match ForgivingDecode(AsString(fileKeyBase64))
      case None => Err(InvalidBase64)
      case Some(fileKeyBytes) =>
        match DecodeUrl(AsString(recipientPublicKeyBase64))
        case None => Err(InvalidBase64)
        case Some(recipientPublicKey) =>
          if |recipientPublicKey| != BOX_KEY_BYTES then Err(InvalidLength)
          else
            var sealed := suite.boxSeal(fileKeyBytes, recipientPublicKey);
            DecodeUrlEncodeUrl(sealed);
            Ok(EncodeUrl(sealed))
  }

  /** What the three URL-safe arguments of `decryptFileKeyForUser` decode to and the
      sealed box opens to, when every step succeeds. */
  function OpenedKey(suite: Suite, sealed: JsValue, publicKey: JsValue, privateKey: JsValue): Option<seq<byte>> {
    var c := DecodeUrl(AsString(sealed));
    var pk := DecodeUrl(AsString(publicKey));
    var sk := DecodeUrl(AsString(privateKey));
    if c.None? || pk.None? || sk.None? then None
    else if |pk.value| != BOX_KEY_BYTES || |sk.value| != BOX_KEY_BYTES then None
    else suite.boxSealOpen(c.value, pk.value, sk.value)
  }

  /** `decryptFileKeyForUser(sealedBase64Url, senderPublicKeyBase64, userPrivateKeyBase64)`. */
  function DecryptFileKeyForUser(suite: Suite, sealedBase64Url: JsValue, senderPublicKeyBase64: JsValue,
                                 userPrivateKeyBase64: JsValue): (r: Result<string, Error>)
    // any of the three positional arguments missing or empty
    ensures !Truthy(sealedBase64Url) || !Truthy(senderPublicKeyBase64) || !Truthy(userPrivateKeyBase64) ==>
      r == Err(MissingParameters)
    // a value is returned only when the box opened, and it is the standard base64 of the opened bytes
    ensures r.Ok? ==>
      && OpenedKey(suite, sealedBase64Url, senderPublicKeyBase64, userPrivateKeyBase64).Some?
      && r.value == EncodeStd(OpenedKey(suite, sealedBase64Url, senderPublicKeyBase64, userPrivateKeyBase64).value)
    ensures r.Err? ==> r.error in {MissingParameters, InvalidBase64, InvalidLength, OpenFailed}
  {
    if !Truthy(sealedBase64Url) || !Truthy(senderPublicKeyBase64) || !Truthy(userPrivateKeyBase64) then
      Err(MissingParameters)
    else
      // from_base64 is applied to the three arguments in turn and throws on the first bad one
      var sealed := DecodeUrl(AsString(sealedBase64Url));
      var senderPublicKey := DecodeUrl(AsString(senderPublicKeyBase64));
      var userPrivateKey := DecodeUrl(AsString(userPrivateKeyBase64));
      if sealed.None? || senderPublicKey.None? || userPrivateKey.None? then Err(InvalidBase64)
      else if |senderPublicKey.value| != BOX_KEY_BYTES || |userPrivateKey.value| != BOX_KEY_BYTES then
        Err(InvalidLength)
      else
        // crypto_box_seal_open throws when it cannot open the box, so the test for a
        // falsy result and its 'Decryption failed. Check keys.' that follow it are
        // never reached
        match suite.boxSealOpen(sealed.value, senderPublicKey.value, userPrivateKey.value)
        case None => Err(OpenFailed)
        case Some(decrypted) => Ok(EncodeStd(decrypted))
  }

  /** A box that does not open makes crypto_box_seal_open throw once the arguments
      are present, decodable and of the right sizes. */
  lemma FailedOpenRaises(suite: Suite, sealed: string, publicKey: string, privateKey: string)
    requires sealed != "" && publicKey != "" && privateKey != ""
    requires DecodeUrl(sealed).Some? && DecodeUrl(publicKey).Some? && DecodeUrl(privateKey).Some?
    requires |DecodeUrl(publicKey).value| == BOX_KEY_BYTES && |DecodeUrl(privateKey).value| == BOX_KEY_BYTES
    requires suite.boxSealOpen(DecodeUrl(sealed).value, DecodeUrl(publicKey).value, DecodeUrl(privateKey).value).None?
    ensures DecryptFileKeyForUser(suite, Str(sealed), Str(publicKey), Str(privateKey)) == Err(OpenFailed)
  {
  }

  /** The public and private key strings of one key pair, as the session holds them. */
  function PublicKeyString(suite: Suite, sk: seq<byte>): string {
    EncodeUrl(suite.boxPublicKey(sk))
  }

  lemma KeyStringsPresent(suite: Suite, sk: seq<byte>)
    requires Lawful(suite) && |sk| == BOX_KEY_BYTES
    ensures PublicKeyString(suite, sk) != "" && EncodeUrl(sk) != ""
    ensures DecodeUrl(PublicKeyString(suite, sk)) == Some(suite.boxPublicKey(sk))
    ensures DecodeUrl(EncodeUrl(sk)) == Some(sk)
  {
    DecodeUrlEncodeUrl(suite.boxPublicKey(sk));
    DecodeUrlEncodeUrl(sk);
  }

  /** Wrapping a decodable file key for a well-formed public key succeeds, and the
      result is the URL-safe base64 of the sealed box. */
  lemma WrapSucceeds(suite: Suite, fileKey: string, pk: seq<byte>)
    requires fileKey != "" && ForgivingDecode(fileKey).Some? && |pk| == BOX_KEY_BYTES
    ensures EncryptFileKeyForUser(suite, Str(fileKey), Str(EncodeUrl(pk)))
            == Ok(EncodeUrl(suite.boxSeal(ForgivingDecode(fileKey).value, pk)))
  {
    DecodeUrlEncodeUrl(pk);
    EncodeUrlNonEmpty(pk);
  }

  /** Unwrapping decodes the three URL-safe strings back to the bytes they encode. */
  lemma UnwrapOpens(suite: Suite, c: seq<byte>, pk: seq<byte>, sk: seq<byte>)
    requires |pk| == BOX_KEY_BYTES && |sk| == BOX_KEY_BYTES && |c| > 0
    ensures DecryptFileKeyForUser(suite, Str(EncodeUrl(c)), Str(EncodeUrl(pk)), Str(EncodeUrl(sk)))
            == match suite.boxSealOpen(c, pk, sk)
               case None => Err(OpenFailed)
               case Some(m) => Ok(EncodeStd(m))
  {
    DecodeUrlEncodeUrl(c);
    DecodeUrlEncodeUrl(pk);
    DecodeUrlEncodeUrl(sk);
    EncodeUrlNonEmpty(c);
    EncodeUrlNonEmpty(pk);
    EncodeUrlNonEmpty(sk);
  }

  /** Opening what was sealed for the public key of `sk`, with that key pair, gives back
      the file key: the canonical standard base64 of the bytes `atob` read from it, so
      exactly the original string when it was canonical. */
  lemma {:induction false} UnwrapAfterWrap(suite: Suite, fileKey: string, sk: seq<byte>)
    requires Lawful(suite) && |sk| == BOX_KEY_BYTES
    requires fileKey != "" && ForgivingDecode(fileKey).Some?
    ensures var wrapped := EncryptFileKeyForUser(suite, Str(fileKey), Str(PublicKeyString(suite, sk)));
            && wrapped.Ok?
            && DecryptFileKeyForUser(suite, Str(wrapped.value), Str(PublicKeyString(suite, sk)), Str(EncodeUrl(sk)))
               == Ok(EncodeStd(ForgivingDecode(fileKey).value))
  {
    var pk := suite.boxPublicKey(sk);
    var m := ForgivingDecode(fileKey).value;
    assert |pk| == BOX_KEY_BYTES;
    WrapSucceeds(suite, fileKey, pk);
    var c := suite.boxSeal(m, pk);
    assert |c| == |m| + SEAL_BYTES;
    assert suite.boxSealOpen(c, pk, sk) == Some(m);
    UnwrapOpens(suite, c, pk, sk);
  }

  /** Round trip for a canonical file key (what `arrayBufferToBase64` produces). */
  lemma {:induction false} UnwrapAfterWrapCanonical(suite: Suite, key: seq<byte>, sk: seq<byte>)
    requires Lawful(suite) && |sk| == BOX_KEY_BYTES && |key| > 0
    ensures var wrapped := EncryptFileKeyForUser(suite, Str(EncodeStd(key)), Str(PublicKeyString(suite, sk)));
            && wrapped.Ok?
            && DecryptFileKeyForUser(suite, Str(wrapped.value), Str(PublicKeyString(suite, sk)), Str(EncodeUrl(sk)))
               == Ok(EncodeStd(key))
  {
    ForgivingDecodeEncodeStd(key);
    UnwrapAfterWrap(suite, EncodeStd(key), sk);
  }

  /** A key pair whose public key differs from the recipient's cannot unwrap: the open
      inside the call throws. */
  lemma {:induction false} UnwrapWithOtherKeyFails(suite: Suite, fileKey: string, sk: seq<byte>, sk': seq<byte>)
    requires Lawful(suite) && |sk| == BOX_KEY_BYTES && |sk'| == BOX_KEY_BYTES
    requires suite.boxPublicKey(sk) != suite.boxPublicKey(sk')
    requires fileKey != "" && ForgivingDecode(fileKey).Some?
    ensures var wrapped := EncryptFileKeyForUser(suite, Str(fileKey), Str(PublicKeyString(suite, sk)));
            && wrapped.Ok?
            && DecryptFileKeyForUser(suite, Str(wrapped.value), Str(PublicKeyString(suite, sk')), Str(EncodeUrl(sk')))
               == Err(OpenFailed)
  {
    var pk := suite.boxPublicKey(sk);
    var pk' := suite.boxPublicKey(sk');
    var m := ForgivingDecode(fileKey).value;
    assert |pk| == BOX_KEY_BYTES && |pk'| == BOX_KEY_BYTES;
    WrapSucceeds(suite, fileKey, pk);
    var c := suite.boxSeal(m, pk);
    assert |c| == |m| + SEAL_BYTES;
    assert suite.boxSealOpen(c, pk', sk').None?;
    UnwrapOpens(suite, c, pk', sk');
  }
}
