/** The foreign primitives the crypto modules call: libsodium's sealed boxes
    (crypto_box_seal, crypto_box_seal_open) and Argon2id password hashing
    (crypto_pwhash), WebCrypto's AES-GCM (NIST SP 800-38D), and the random
    byte sources (crypto.getRandomValues, randombytes_buf).

    They are not modelled as algorithms: a `Suite` is any collection of total
    functions, and `Lawful` states the only facts the rest of the model may use
    about them — the round trips and failure behaviour their standards promise,
    idealised (no collisions, no forgeries). `SymbolicSuite` is one lawful suite,
    which shows that these assumptions can hold together. */
module Primitives {
  import opened Common

  /** crypto_box_PUBLICKEYBYTES and crypto_box_SECRETKEYBYTES (X25519). */
  const BOX_KEY_BYTES := 32

  /** crypto_box_SEALBYTES: the ephemeral public key and the MAC a sealed box adds. */
  const SEAL_BYTES := 48

  datatype Suite = Suite(
    /** Draw number and length to that many random bytes. */
    random: (nat, nat) -> seq<byte>,
    /** crypto_box_seal(message, recipientPublicKey). */
    boxSeal: (seq<byte>, seq<byte>) -> seq<byte>,
    /** crypto_box_seal_open(sealed, recipientPublicKey, recipientPrivateKey); `None` where the
        wrapper throws (a box too short to hold the seal, or one the key pair does not open). */
    boxSealOpen: (seq<byte>, seq<byte>, seq<byte>) -> Option<seq<byte>>,
    /** The public key that belongs to a private key (crypto_scalarmult_base). */
    boxPublicKey: seq<byte> -> seq<byte>,
    /** AES-GCM encryption: key, IV, plaintext to ciphertext with tag. */
    aesEncrypt: (seq<byte>, seq<byte>, seq<byte>) -> seq<byte>,
    /** AES-GCM authenticated decryption, `None` when the tag does not verify. */
    aesDecrypt: (seq<byte>, seq<byte>, seq<byte>) -> Option<seq<byte>>,
    /** crypto_pwhash(outputLength, password, salt, opslimit, memlimit) with Argon2id. */
    pwhash: (nat, string, seq<byte>, nat, nat) -> seq<byte>
  )

  /** The assumptions on the primitives. */
  ghost predicate Lawful(s: Suite) {
    // random sources return exactly the requested number of bytes
    && (forall d, n :: |s.random(d, n)| == n)
    // a key pair's public key is a public key
    && (forall sk :: |sk| == BOX_KEY_BYTES ==> |s.boxPublicKey(sk)| == BOX_KEY_BYTES)
    // a sealed box is the message plus the fixed overhead
    && (forall m, pk :: |pk| == BOX_KEY_BYTES ==> |s.boxSeal(m, pk)| == |m| + SEAL_BYTES)
    // opening a box sealed for a key pair's public key gives the message back
    && (forall m, sk :: |sk| == BOX_KEY_BYTES ==>
          s.boxSealOpen(s.boxSeal(m, s.boxPublicKey(sk)), s.boxPublicKey(sk), sk) == Some(m))
    // an open succeeds only with a matching key pair, and only on a box sealed for it
    && (forall c, pk, sk :: s.boxSealOpen(c, pk, sk).Some? ==>
          pk == s.boxPublicKey(sk) && c == s.boxSeal(s.boxSealOpen(c, pk, sk).value, pk))
    // a box sealed for one public key does not open under another one
    && (forall m, pk, pk', sk :: |pk| == BOX_KEY_BYTES && |pk'| == BOX_KEY_BYTES && pk != pk' ==>
          s.boxSealOpen(s.boxSeal(m, pk), pk', sk).None?)
    // AES-GCM decryption inverts encryption under the same key and IV
    && (forall k, iv, p :: s.aesDecrypt(k, iv, s.aesEncrypt(k, iv, p)) == Some(p))
    // authenticity: a decryption succeeds only on an encryption under that key and IV
    && (forall k, iv, c :: s.aesDecrypt(k, iv, c).Some? ==>
          c == s.aesEncrypt(k, iv, s.aesDecrypt(k, iv, c).value))
    // a different key or IV of the same sizes rejects the ciphertext
    && (forall k, iv, k', iv', p :: |k| == |k'| && |iv| == |iv'| && (k != k' || iv != iv') ==>
          s.aesDecrypt(k', iv', s.aesEncrypt(k, iv, p)).None?)
    // the password hash has the requested length
    && (forall n, pw, salt, ops, mem :: |s.pwhash(n, pw, salt, ops, mem)| == n)
  }

  /** A transparent stand-in: sealing prefixes the public key and sixteen zero bytes,
      a private key is its own public key, encryption prefixes key and IV. It has no secrecy at all; it only
      witnesses that `Lawful` is satisfiable. */
  function SymbolicSeal(m: seq<byte>, pk: seq<byte>): seq<byte> {
    pk + Zeros(16) + m
  }

  function SymbolicOpen(c: seq<byte>, pk: seq<byte>, sk: seq<byte>): Option<seq<byte>> {
    if pk == sk && |c| >= |pk| + 16 && c[..|pk| + 16] == pk + Zeros(16) then Some(c[|pk| + 16..]) else None
  }

  function SymbolicDecrypt(k: seq<byte>, iv: seq<byte>, c: seq<byte>): Option<seq<byte>> {
    if |c| >= |k| + |iv| && c[..|k| + |iv|] == k + iv then Some(c[|k| + |iv|..]) else None
  }

  function Zeros(n: nat): (z: seq<byte>)
    ensures |z| == n
  {
    seq(n, i => 0)
  }

  function SymbolicSuite(): Suite {
    Suite(
      (d: nat, n: nat) => Zeros(n),
      SymbolicSeal,
      SymbolicOpen,
      (sk: seq<byte>) => sk,
      (k: seq<byte>, iv: seq<byte>, p: seq<byte>) => k + iv + p,
      SymbolicDecrypt,
      (n: nat, pw: string, salt: seq<byte>, ops: nat, mem: nat) => Zeros(n))
  }

  lemma SymbolicSealRoundTrip(m: seq<byte>, sk: seq<byte>)
    ensures SymbolicOpen(SymbolicSeal(m, sk), sk, sk) == Some(m)
  {
    var c := sk + Zeros(16) + m;
    assert c[..|sk| + 16] == sk + Zeros(16) && c[|sk| + 16..] == m;
  }

  lemma SymbolicOpenAuthentic(c: seq<byte>, pk: seq<byte>, sk: seq<byte>)
    requires SymbolicOpen(c, pk, sk).Some?
    ensures pk == sk && c == SymbolicSeal(SymbolicOpen(c, pk, sk).value, pk)
  {
    assert c == c[..|pk| + 16] + c[|pk| + 16..];
  }

  lemma SymbolicOpenOtherKey(m: seq<byte>, pk: seq<byte>, pk': seq<byte>, sk: seq<byte>)
    requires |pk| == |pk'| && pk != pk'
    ensures SymbolicOpen(SymbolicSeal(m, pk), pk', sk).None?
  {
    var c := pk + Zeros(16) + m;
    assert c[..|pk'| + 16][..|pk|] == pk;
    assert (pk' + Zeros(16))[..|pk'|] == pk';
  }

  lemma SymbolicAesRoundTrip(k: seq<byte>, iv: seq<byte>, p: seq<byte>)
    ensures SymbolicDecrypt(k, iv, k + iv + p) == Some(p)
  {
    assert (k + iv + p)[..|k| + |iv|] == k + iv && (k + iv + p)[|k| + |iv|..] == p;
  }

  lemma SymbolicAesAuthentic(k: seq<byte>, iv: seq<byte>, c: seq<byte>)
    requires SymbolicDecrypt(k, iv, c).Some?
    ensures c == k + iv + SymbolicDecrypt(k, iv, c).value
  {
    assert c == c[..|k| + |iv|] + c[|k| + |iv|..];
  }

  lemma SymbolicAesOtherKey(k: seq<byte>, iv: seq<byte>, k': seq<byte>, iv': seq<byte>, p: seq<byte>)
    requires |k| == |k'| && |iv| == |iv'| && (k != k' || iv != iv')
    ensures SymbolicDecrypt(k', iv', k + iv + p).None?
  {
    assert (k + iv + p)[..|k| + |iv|] == k + iv;
    assert (k + iv)[..|k|] == k && (k + iv)[|k|..] == iv;
    assert (k' + iv')[..|k'|] == k' && (k' + iv')[|k'|..] == iv';
  }

  lemma SymbolicSuiteIsLawful()
    ensures Lawful(SymbolicSuite())
  {
    var s := SymbolicSuite();
    forall m, pk | |pk| == BOX_KEY_BYTES ensures |s.boxSeal(m, pk)| == |m| + SEAL_BYTES {
    }
    forall m, sk | |sk| == BOX_KEY_BYTES
      ensures s.boxSealOpen(s.boxSeal(m, s.boxPublicKey(sk)), s.boxPublicKey(sk), sk) == Some(m)
    {
      SymbolicSealRoundTrip(m, sk);
    }
    forall c, pk, sk | s.boxSealOpen(c, pk, sk).Some?
      ensures pk == s.boxPublicKey(sk) && c == s.boxSeal(s.boxSealOpen(c, pk, sk).value, pk)
    {
      SymbolicOpenAuthentic(c, pk, sk);
    }
    forall m, pk, pk', sk | |pk| == BOX_KEY_BYTES && |pk'| == BOX_KEY_BYTES && pk != pk'
      ensures s.boxSealOpen(s.boxSeal(m, pk), pk', sk).None?
    {
      SymbolicOpenOtherKey(m, pk, pk', sk);
    }
    forall k, iv, p ensures s.aesDecrypt(k, iv, s.aesEncrypt(k, iv, p)) == Some(p) {
      SymbolicAesRoundTrip(k, iv, p);
    }
    forall k, iv, c | s.aesDecrypt(k, iv, c).Some?
      ensures c == s.aesEncrypt(k, iv, s.aesDecrypt(k, iv, c).value)
    {
      SymbolicAesAuthentic(k, iv, c);
    }
    forall k, iv, k', iv', p | |k| == |k'| && |iv| == |iv'| && (k != k' || iv != iv')
      ensures s.aesDecrypt(k', iv', s.aesEncrypt(k, iv, p)).None?
    {
      SymbolicAesOtherKey(k, iv, k', iv', p);
    }
  }
}
