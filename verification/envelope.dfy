/** How src/pages/Dashboard.jsx obtains a file key before it decrypts a file: the owner
    unwraps `encrypted_file_key_owner`, any other reader unwraps the `encrypted_file_key`
    of their `file_shares` row, both with the key pair of the session. */
module Envelope {
  import opened Common
  import opened Base64
  import opened Primitives
  import opened ShareFileKey
  import opened FileEncryption
  import opened ShareTable
  import opened FileTable

  /** The logged-in user as the dashboard reads it: `user.userId`, `user.publicKey`,
      `user.privateKey` (URL-safe base64 strings when present). */
  datatype Session = Session(userId: UserId, publicKey: JsValue, privateKey: JsValue)

  /** The unwrap call as the dashboard writes it at every call site:
      `decryptFileKeyForUser({ sealedBase64Url, userPublicKeyBase64, userPrivateKeyBase64 })`,
      one object in the first position and nothing in the other two. */
  function UnwrapAsWritten(suite: Suite, sealed: string, session: Session): Result<string, Error> {
    DecryptFileKeyForUser(suite, Object, Nullish, Nullish)
  }

  /** Whatever the row holds and whoever is logged in, that call is refused by the
      parameter guard with 'Missing parameters'. */
  lemma OptionsObjectCallRejected(suite: Suite, sealed: string, session: Session)
    ensures UnwrapAsWritten(suite, sealed, session) == Err(MissingParameters)
  {
  }

  /** The evidently intended call: the sealed key, the session's public key and its
      private key as the three positional arguments. The rest of the model uses it. */
  function Unwrap(suite: Suite, sealed: string, session: Session): (r: Result<string, Error>)
    ensures r.Ok? ==> sealed != "" && Truthy(session.publicKey) && Truthy(session.privateKey)
  {
    DecryptFileKeyForUser(suite, Str(sealed), session.publicKey, session.privateKey)
  }

  /** The session of a user whose key pair has private key `sk`. */
  ghost predicate HoldsKeyPair(suite: Suite, session: Session, sk: seq<byte>) {
    && |sk| == BOX_KEY_BYTES
    && session.publicKey == Str(PublicKeyString(suite, sk))
    && session.privateKey == Str(EncodeUrl(sk))
  }

  /** Wrapping a canonical file key for the session's public key succeeds, and the
      intended call unwraps it to the same string. */
  lemma {:induction false} UnwrapOwnWrap(suite: Suite, session: Session, sk: seq<byte>, key: seq<byte>)
    requires Lawful(suite) && HoldsKeyPair(suite, session, sk) && |key| > 0
    ensures EncryptFileKeyForUser(suite, Str(EncodeStd(key)), session.publicKey).Ok?
    ensures Unwrap(suite, EncryptFileKeyForUser(suite, Str(EncodeStd(key)), session.publicKey).value, session)
            == Ok(EncodeStd(key))
  {
    UnwrapAfterWrapCanonical(suite, key, sk);
  }

  /** A key wrapped for another public key does not unwrap under this session. */
  lemma {:induction false} UnwrapOtherWrapFails(suite: Suite, session: Session, sk: seq<byte>, sk': seq<byte>,
                                                key: seq<byte>)
    requires Lawful(suite) && HoldsKeyPair(suite, session, sk) && |sk'| == BOX_KEY_BYTES && |key| > 0
    requires suite.boxPublicKey(sk) != suite.boxPublicKey(sk')
    ensures EncryptFileKeyForUser(suite, Str(EncodeStd(key)), Str(PublicKeyString(suite, sk'))).Ok?
    ensures Unwrap(suite, EncryptFileKeyForUser(suite, Str(EncodeStd(key)), Str(PublicKeyString(suite, sk'))).value,
                   session) == Err(OpenFailed)
  {
    ForgivingDecodeEncodeStd(key);
    UnwrapWithOtherKeyFails(suite, EncodeStd(key), sk', sk);
  }

  /** The session Login.jsx saves carries no public key, so even the intended call is
      refused there. */
  lemma LoginSessionCannotUnwrap(suite: Suite, sealed: string, userId: UserId, privateKey: JsValue)
    ensures Unwrap(suite, sealed, Session(userId, Nullish, privateKey)) == Err(MissingParameters)
  {
  }

  /** The file key a read uses: the owner unwraps the key on the file row; anyone else
      passes the access check and unwraps their share row. */
  function KeyFor(suite: Suite, session: Session, file: FileRow, shares: seq<ShareRow>, now: Time)
    : (r: Result<string, Error>)
    ensures file.ownerId != session.userId && (forall x :: x in shares ==> !IsPair(x, file.fileId, session.userId))
            ==> r == Err(NoAccess)
  {
    if file.ownerId == session.userId then Unwrap(suite, file.ownerKey, session)
    else
      match AccessRow(shares, file.fileId, session.userId, now)
      case Err(e) => Err(e)
      case Ok(share) => Unwrap(suite, share.wrappedKey, session)
  }

  /** What a read without rotation returns: the blob decrypted with that key and the
      IV of the file row. */
  function Plaintext(suite: Suite, session: Session, file: FileRow, shares: seq<ShareRow>, blob: seq<byte>, now: Time)
    : Result<seq<byte>, Error>
  {
    match KeyFor(suite, session, file, shares, now)
    case Err(e) => Err(e)
    case Ok(key) => DecryptFile(suite, blob, key, Str(file.iv))
  }
}
