/** src/crypto/keyDerivation.js: a 32-byte master key stretched from the password with
    Argon2id (crypto_pwhash), with the salt reused when one is given. */
module KeyDerivation {
  import opened Common
  import opened Base64
  import opened Primitives

  /** crypto_pwhash_SALTBYTES, the size of a freshly drawn salt. */
  const SALT_BYTES := 16
  const OPSLIMIT := 2
  const MEMLIMIT := 64 * 1024 * 1024
  /** Length of the derived master key. */
  const MASTER_KEY_BYTES := 32

  /** The object `deriveMasterKey` resolves to; both fields are URL-safe unpadded base64. */
  datatype Derived = Derived(masterKey: string, salt: string)

  /** The salt bytes: the decoded argument when it is truthy, otherwise a fresh draw. */
  function SaltBytes(suite: Suite, saltBase64: JsValue, draw: nat): Option<seq<byte>> {
    if Truthy(saltBase64) then DecodeUrl(AsString(saltBase64)) else Some(suite.random(draw, SALT_BYTES))
  }

  /** `deriveMasterKey(password, saltBase64)`. `password` is `None` for `undefined`/`null`;
      a missing salt draws `SALT_BYTES` random bytes as draw `draw`. crypto_pwhash refuses
      a salt of any other size than `SALT_BYTES`. */
  function DeriveMasterKey(suite: Suite, password: Option<string>, saltBase64: JsValue, draw: nat)
    : (r: Result<Derived, Error>)
    ensures r == Err(PasswordRequired) <==> password.None? || password.value == ""
    ensures r.Ok? ==>
      && password.Some?
      && SaltBytes(suite, saltBase64, draw).Some?
      && var salt := SaltBytes(suite, saltBase64, draw).value;
         && |salt| == SALT_BYTES
         && DecodeUrl(r.value.salt) == Some(salt)
         && DecodeUrl(r.value.masterKey) == Some(suite.pwhash(MASTER_KEY_BYTES, password.value, salt, OPSLIMIT, MEMLIMIT))
    ensures r.Err? ==> r.error in {PasswordRequired, InvalidBase64, InvalidLength}
  {
    if password.None? || password.value == "" then Err(PasswordRequired)
    else
      var salt := SaltBytes(suite, saltBase64, draw);
      if salt.None? then Err(InvalidBase64)
      else if |salt.value| != SALT_BYTES then Err(InvalidLength)
      else
        var key := suite.pwhash(MASTER_KEY_BYTES, password.value, salt.value, OPSLIMIT, MEMLIMIT);
        DecodeUrlEncodeUrl(key);
        DecodeUrlEncodeUrl(salt.value);
        Ok(Derived(EncodeUrl(key), EncodeUrl(salt.value)))
  }

  /** Without a salt a fresh one is drawn: a password always yields a 43-character master
      key (32 bytes) and a 22-character salt (16 bytes). */
  lemma {:induction false} FreshSaltDerivation(suite: Suite, password: string, draw: nat)
    requires Lawful(suite) && password != ""
    ensures var r := DeriveMasterKey(suite, Some(password), Nullish, draw);
            && r.Ok?
            && r.value.salt == EncodeUrl(suite.random(draw, SALT_BYTES))
            && |r.value.masterKey| == 43 && |r.value.salt| == 22
  {
    assert |suite.random(draw, SALT_BYTES)| == SALT_BYTES;
    assert |suite.pwhash(MASTER_KEY_BYTES, password, suite.random(draw, SALT_BYTES), OPSLIMIT, MEMLIMIT)| == 32;
  }

  /** Logging in again with the salt stored at registration derives the same master key
      and hands back the same salt string, whatever the random source would have drawn. */
  lemma {:induction false} RederiveWithStoredSalt(suite: Suite, password: string, saltBase64: JsValue,
                                                  draw: nat, draw': nat)
    requires DeriveMasterKey(suite, Some(password), saltBase64, draw).Ok?
    ensures var r := DeriveMasterKey(suite, Some(password), saltBase64, draw).value;
            DeriveMasterKey(suite, Some(password), Str(r.salt), draw') == Ok(r)
  {
    var r := DeriveMasterKey(suite, Some(password), saltBase64, draw).value;
    var salt := DecodeUrl(r.salt).value;
    DecodeUrlExactlyCanonical(r.salt, salt);
    assert |r.salt| > 0 by {
      assert |salt| == SALT_BYTES;
    }
  }

  /** A stored salt is used as is: the derivation does not depend on the random source,
      and the returned salt is the stored string, since only a canonical string decodes. */
  lemma {:induction false} StoredSaltReused(suite: Suite, password: string, saltBase64: string, draw: nat, draw': nat)
    requires saltBase64 != ""
    ensures DeriveMasterKey(suite, Some(password), Str(saltBase64), draw)
            == DeriveMasterKey(suite, Some(password), Str(saltBase64), draw')
    ensures DeriveMasterKey(suite, Some(password), Str(saltBase64), draw).Ok? ==>
            DeriveMasterKey(suite, Some(password), Str(saltBase64), draw).value.salt == saltBase64
  {
    var salt := DecodeUrl(saltBase64);
    if salt.Some? {
      DecodeUrlExactlyCanonical(saltBase64, salt.value);
    }
  }
}
