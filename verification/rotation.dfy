/** The lazy key rotation of decryptFileHelper (src/pages/Dashboard.jsx): when the owner
    reads a file whose key is more than an hour old, a fresh key re-encrypts the
    content under the same IV, and the key is re-wrapped for the owner and for every
    share row of the file whose recipient has a public key. This module states what
    the re-wrap loop does to the share rows; the `Store` class performs it. */
module Rotation {
  import opened Common
  import opened Base64
  import opened Primitives
  import opened ShareFileKey
  import opened FileEncryption
  import opened ShareTable
  import opened FileTable
  import opened ByteHelpers
  import opened Envelope

  /** `u?.public_key` for a user id: the `users` row's public key, nothing when the
      `.single()` lookup finds no row. */
  function PublicKeyOf(users: map<UserId, JsValue>, id: UserId): JsValue {
    if id in users then users[id] else Nullish
  }

  /** The fresh file key of a rotation: 32 random bytes, draw `draw`. */
  function NewKeyBytes(suite: Suite, draw: nat): seq<byte> {
    suite.random(draw, KEY_BYTES)
  }

  /** `btoa(String.fromCharCode(...newFileKeyBytes))`: the standard base64 of those bytes. */
  function NewKey(suite: Suite, draw: nat): string {
    EncodeStd(NewKeyBytes(suite, draw))
  }

  /** Whether the recipient of `row` has a truthy public key, so the loop re-wraps it. */
  predicate HasKey(users: map<UserId, JsValue>, row: ShareRow) {
    Truthy(PublicKeyOf(users, row.recipient))
  }

  /** `encryptFileKeyForUser(newFileKey, u.public_key)` for the recipient of `row`. */
  function WrapFor(suite: Suite, users: map<UserId, JsValue>, newKey: string, row: ShareRow): Result<string, Error> {
    EncryptFileKeyForUser(suite, Str(newKey), PublicKeyOf(users, row.recipient))
  }

  /** Whether the loop throws at `row`: a recipient key is present but the wrap fails. */
  predicate Throws(suite: Suite, users: map<UserId, JsValue>, newKey: string, row: ShareRow) {
    HasKey(users, row) && WrapFor(suite, users, newKey, row).Err?
  }

  /** The index of the first selected row at which the loop throws; `|sel|` when it
      runs to the end. */
  function FirstFailure(suite: Suite, users: map<UserId, JsValue>, newKey: string, sel: seq<ShareRow>): (k: nat)
    ensures k <= |sel|
    ensures forall j :: 0 <= j < k ==> !Throws(suite, users, newKey, sel[j])
    ensures k < |sel| ==> Throws(suite, users, newKey, sel[k])
  {
    if sel == [] then 0
    else if Throws(suite, users, newKey, sel[0]) then 0
    else 1 + FirstFailure(suite, users, newKey, sel[1..])
  }

  /** Visiting row `i` of a loop that has not stopped yet: a row that throws is where it
      stops, any other row moves the stopping point past it. */
  lemma FirstFailureNext(suite: Suite, users: map<UserId, JsValue>, newKey: string, sel: seq<ShareRow>, i: nat)
    requires i < |sel| && i <= FirstFailure(suite, users, newKey, sel)
    ensures Throws(suite, users, newKey, sel[i]) ==> FirstFailure(suite, users, newKey, sel) == i
    ensures !Throws(suite, users, newKey, sel[i]) ==> i + 1 <= FirstFailure(suite, users, newKey, sel)
  {
  }

  /** A row as the loop leaves it once it has been visited: re-wrapped for its
      recipient and stamped, or untouched when the recipient has no public key. */
  function RewrapRow(suite: Suite, users: map<UserId, JsValue>, newKey: string, now: Time, row: ShareRow): ShareRow {
    if HasKey(users, row) && WrapFor(suite, users, newKey, row).Ok? then
      row.(wrappedKey := WrapFor(suite, users, newKey, row).value, updatedAt := Some(now))
    else row
  }

  function IdsOf(rows: seq<ShareRow>): set<ShareId> {
    set r | r in rows :: r.id
  }

  /** The table after the loop has visited the rows whose ids are in `done`. */
  function Rewrapped(suite: Suite, users: map<UserId, JsValue>, newKey: string, now: Time,
                     base: seq<ShareRow>, done: set<ShareId>): (out: seq<ShareRow>)
    ensures |out| == |base|
    ensures forall i :: 0 <= i < |base| ==>
      out[i] == if base[i].id in done then RewrapRow(suite, users, newKey, now, base[i]) else base[i]
  {
    seq(|base|, i requires 0 <= i < |base| =>
      if base[i].id in done then RewrapRow(suite, users, newKey, now, base[i]) else base[i])
  }

  /** One iteration of the loop: visiting a row that does not throw extends `done` by
      its id (`.update(…).eq('id', share.id)` touches that row alone). */
  lemma {:induction false} RewrapStep(suite: Suite, users: map<UserId, JsValue>, newKey: string, now: Time,
                                      base: seq<ShareRow>, done: set<ShareId>, s: ShareRow)
    requires UniqueIds(base) && s in base && !Throws(suite, users, newKey, s)
    ensures (if HasKey(users, s) then SetKey(Rewrapped(suite, users, newKey, now, base, done), s.id,
                                             WrapFor(suite, users, newKey, s).value, now)
             else Rewrapped(suite, users, newKey, now, base, done))
            == Rewrapped(suite, users, newKey, now, base, done + {s.id})
  {
    if HasKey(users, s) {
      RewrapStepKeyed(suite, users, newKey, now, base, done, s);
    } else {
      RewrapStepKeyless(suite, users, newKey, now, base, done, s);
    }
  }

  /** A recipient with a public key: the update by id is the visit. */
  lemma RewrapStepKeyed(suite: Suite, users: map<UserId, JsValue>, newKey: string, now: Time,
                        base: seq<ShareRow>, done: set<ShareId>, s: ShareRow)
    requires UniqueIds(base) && s in base && HasKey(users, s) && WrapFor(suite, users, newKey, s).Ok?
    ensures SetKey(Rewrapped(suite, users, newKey, now, base, done), s.id, WrapFor(suite, users, newKey, s).value, now)
            == Rewrapped(suite, users, newKey, now, base, done + {s.id})
  {
    var enc := WrapFor(suite, users, newKey, s).value;
    var before := Rewrapped(suite, users, newKey, now, base, done);
    var after := Rewrapped(suite, users, newKey, now, base, done + {s.id});
    var out := SetKey(before, s.id, enc, now);
    forall i | 0 <= i < |base| ensures out[i] == after[i] {
      if base[i].id == s.id {
        SameIdSameRow(base, s, i);
      }
    }
  }

  /** A recipient without a public key: the visit leaves the row as it was. */
  lemma RewrapStepKeyless(suite: Suite, users: map<UserId, JsValue>, newKey: string, now: Time,
                          base: seq<ShareRow>, done: set<ShareId>, s: ShareRow)
    requires UniqueIds(base) && s in base && !HasKey(users, s)
    ensures Rewrapped(suite, users, newKey, now, base, done) == Rewrapped(suite, users, newKey, now, base, done + {s.id})
  {
    var before := Rewrapped(suite, users, newKey, now, base, done);
    var after := Rewrapped(suite, users, newKey, now, base, done + {s.id});
    forall i | 0 <= i < |base| ensures before[i] == after[i] {
      if base[i].id == s.id {
        SameIdSameRow(base, s, i);
      }
    }
  }

  /** Ids are unique, so the row with the id of `s` is `s`. */
  lemma SameIdSameRow(base: seq<ShareRow>, s: ShareRow, i: nat)
    requires UniqueIds(base) && s in base && i < |base| && base[i].id == s.id
    ensures base[i] == s
  {
    var k :| 0 <= k < |base| && base[k] == s;
    assert !(i < k) && !(k < i);
  }

  /** The prefix of the selected rows the loop has visited, as a set of ids. */
  lemma IdsOfPrefix(sel: seq<ShareRow>, i: nat)
    requires i < |sel|
    ensures IdsOf(sel[..i + 1]) == IdsOf(sel[..i]) + {sel[i].id}
  {
    assert sel[..i + 1] == sel[..i] + [sel[i]];
  }

  /** The rows of the file, `.select('id, shared_with_user_id').eq('file_id', fileId)`. */
  function RowsOfFile(rows: seq<ShareRow>, fileId: FileId): (out: seq<ShareRow>)
    ensures forall r :: r in out <==> r in rows && r.fileId == fileId
  {
    Where(rows, (r: ShareRow) => r.fileId == fileId)
  }

  /** When the loop visits every row of the file: exactly the rows of that file whose
      recipient has a public key carry the new key and the new time stamp; rows of other
      files, and rows whose recipient has no key, are as they were. */
  lemma {:induction false} RewrapOfFile(suite: Suite, users: map<UserId, JsValue>, newKey: string, now: Time,
                                        base: seq<ShareRow>, fileId: FileId)
    requires UniqueIds(base)
    ensures forall i :: 0 <= i < |base| ==>
      Rewrapped(suite, users, newKey, now, base, IdsOf(RowsOfFile(base, fileId)))[i]
      == if base[i].fileId == fileId then RewrapRow(suite, users, newKey, now, base[i]) else base[i]
  {
    var ids := IdsOf(RowsOfFile(base, fileId));
    forall i | 0 <= i < |base| ensures base[i].id in ids <==> base[i].fileId == fileId {
      if base[i].id in ids {
        var r :| r in RowsOfFile(base, fileId) && r.id == base[i].id;
        var j :| 0 <= j < |base| && base[j] == r;
        assert !(i < j) && !(j < i);
      }
      if base[i].fileId == fileId {
        assert base[i] in RowsOfFile(base, fileId);
      }
    }
  }

  /** The re-wrap changes keys and stamps only, so the table invariant survives. */
  lemma RewrapKeepsValid(suite: Suite, users: map<UserId, JsValue>, newKey: string, now: Time,
                         base: seq<ShareRow>, done: set<ShareId>, nextId: ShareId)
    requires Valid(base, nextId)
    ensures Valid(Rewrapped(suite, users, newKey, now, base, done), nextId)
  {
    var out := Rewrapped(suite, users, newKey, now, base, done);
    forall r | r in out ensures r.id < nextId {
      var i :| 0 <= i < |out| && out[i] == r;
      assert base[i] in base;
    }
  }

  /** The IV bytes of a file row as the rotation decodes them (`base64ToUint8Array`). */
  function IvBytes(file: FileRow): seq<byte> {
    match ForgivingDecode(file.iv)
    case Some(iv) => iv
    case None => []
  }

  /** The ciphertext a rotation stores: the plaintext under the new key and the
      unchanged IV. */
  function RotatedBlob(suite: Suite, draw: nat, file: FileRow, plain: seq<byte>): seq<byte> {
    suite.aesEncrypt(NewKeyBytes(suite, draw), IvBytes(file), plain)
  }

  /** The new key string decodes to the new key bytes, which have a valid AES size. */
  lemma NewKeyDecodes(suite: Suite, draw: nat)
    requires Lawful(suite)
    ensures |NewKeyBytes(suite, draw)| == KEY_BYTES
    ensures ForgivingDecode(NewKey(suite, draw)) == Some(NewKeyBytes(suite, draw))
    ensures NewKey(suite, draw) != ""
  {
    HelpersRoundTrip(NewKeyBytes(suite, draw));
  }

  /** The new key string and the file's IV decrypt the rotated ciphertext back to the
      plaintext it was made from. */
  lemma {:induction false} RotatedBlobDecrypts(suite: Suite, draw: nat, file: FileRow, plain: seq<byte>)
    requires Lawful(suite) && file.iv != "" && ForgivingDecode(file.iv).Some?
    ensures DecryptFile(suite, RotatedBlob(suite, draw, file, plain), NewKey(suite, draw), Str(file.iv)) == Ok(plain)
  {
    NewKeyDecodes(suite, draw);
    DecryptDecoded(suite, RotatedBlob(suite, draw, file, plain), NewKey(suite, draw), file.iv);
    var k, iv := NewKeyBytes(suite, draw), IvBytes(file);
    assert suite.aesDecrypt(k, iv, suite.aesEncrypt(k, iv, plain)) == Some(plain);
  }

  /** Any other 32-byte key is refused on the rotated ciphertext: a reader still holding
      the old key (a share row the loop skipped, or the owner's row read before its
      update lands) gets an authentication failure, not the file. */
  lemma {:induction false} RotatedBlobRejectsOtherKey(suite: Suite, draw: nat, file: FileRow, plain: seq<byte>,
                                                      oldKey: string)
    requires Lawful(suite) && file.iv != "" && ForgivingDecode(file.iv).Some?
    requires ForgivingDecode(oldKey).Some? && |ForgivingDecode(oldKey).value| == KEY_BYTES
    requires ForgivingDecode(oldKey).value != NewKeyBytes(suite, draw)
    ensures DecryptFile(suite, RotatedBlob(suite, draw, file, plain), oldKey, Str(file.iv)) == Err(AuthenticationFailure)
  {
    NewKeyDecodes(suite, draw);
    var k := NewKeyBytes(suite, draw);
    var k' := ForgivingDecode(oldKey).value;
    var iv := IvBytes(file);
    DecryptDecoded(suite, RotatedBlob(suite, draw, file, plain), oldKey, file.iv);
    assert suite.aesDecrypt(k', iv, suite.aesEncrypt(k, iv, plain)).None?;
  }

  /** The owner's row as the rotation rewrites it unwraps, for the owner, to the new key,
      and the rotated ciphertext reads back as the old plaintext with no further
      rotation due for an hour. */
  lemma {:induction false} RotatedOwnerRowReads(suite: Suite, draw: nat, session: Session, sk: seq<byte>,
                                                file: FileRow, shares: seq<ShareRow>, plain: seq<byte>, at: Time, now: Time)
    requires Lawful(suite) && HoldsKeyPair(suite, session, sk) && file.ownerId == session.userId
    requires file.iv != "" && ForgivingDecode(file.iv).Some?
    ensures EncryptFileKeyForUser(suite, Str(NewKey(suite, draw)), session.publicKey).Ok?
    ensures var row := file.(ownerKey := EncryptFileKeyForUser(suite, Str(NewKey(suite, draw)), session.publicKey).value,
                             updatedAt := Some(at));
            && Plaintext(suite, session, row, shares, RotatedBlob(suite, draw, file, plain), now) == Ok(plain)
            && (NeedRotate(row, now) <==> now > at + ROTATE_AFTER)
  {
    NewKeyDecodes(suite, draw);
    UnwrapOwnWrap(suite, session, sk, NewKeyBytes(suite, draw));
    RotatedBlobDecrypts(suite, draw, file, plain);
  }

  /** After a completed rotation a recipient whose public key is on record, and whose
      share has not expired, reads the old plaintext from the rotated ciphertext through
      the re-wrapped row. */
  lemma {:induction false} RotatedShareReads(suite: Suite, draw: nat, users: map<UserId, JsValue>, at: Time,
                                             shares: seq<ShareRow>, nextId: ShareId, file: FileRow, plain: seq<byte>,
                                             session: Session, sk: seq<byte>, row: ShareRow, now: Time)
    requires Lawful(suite) && Valid(shares, nextId)
    requires row in shares && row.fileId == file.fileId && row.recipient == session.userId
    requires file.ownerId != session.userId && !IsExpired(row, now)
    requires HoldsKeyPair(suite, session, sk) && PublicKeyOf(users, row.recipient) == session.publicKey
    requires file.iv != "" && ForgivingDecode(file.iv).Some?
    ensures var after := Rewrapped(suite, users, NewKey(suite, draw), at, shares, IdsOf(RowsOfFile(shares, file.fileId)));
            Plaintext(suite, session, file, after, RotatedBlob(suite, draw, file, plain), now) == Ok(plain)
  {
    var newKey := NewKey(suite, draw);
    var after := Rewrapped(suite, users, newKey, at, shares, IdsOf(RowsOfFile(shares, file.fileId)));
    NewKeyDecodes(suite, draw);
    UnwrapOwnWrap(suite, session, sk, NewKeyBytes(suite, draw));
    KeyStringsPresent(suite, sk);
    var i :| 0 <= i < |shares| && shares[i] == row;
    RewrapOfFile(suite, users, newKey, at, shares, file.fileId);
    assert HasKey(users, row);
    var wrapped := WrapFor(suite, users, newKey, row).value;
    assert after[i] == row.(wrappedKey := wrapped, updatedAt := Some(at));
    RewrapKeepsValid(suite, users, newKey, at, shares, IdsOf(RowsOfFile(shares, file.fileId)), nextId);
    assert after[i] in after;
    AccessOfRow(after, after[i], now);
    assert KeyFor(suite, session, file, after, now) == Ok(newKey);
    RotatedBlobDecrypts(suite, draw, file, plain);
  }

  /** A recipient with no public key on record keeps the old wrapped key, which no longer
      opens the file: after the rotation that recipient's read fails authentication. */
  lemma {:induction false} KeylessRecipientLosesAccess(suite: Suite, draw: nat, users: map<UserId, JsValue>, at: Time,
                                                       shares: seq<ShareRow>, nextId: ShareId, file: FileRow,
                                                       plain: seq<byte>, session: Session, row: ShareRow, now: Time,
                                                       oldKey: seq<byte>)
    requires Lawful(suite) && Valid(shares, nextId)
    requires row in shares && row.fileId == file.fileId && row.recipient == session.userId
    requires file.ownerId != session.userId && !IsExpired(row, now)
    requires !Truthy(PublicKeyOf(users, row.recipient))
    requires file.iv != "" && ForgivingDecode(file.iv).Some?
    // the old row unwraps to a 32-byte key other than the new one
    requires Unwrap(suite, row.wrappedKey, session) == Ok(EncodeStd(oldKey))
    requires |oldKey| == KEY_BYTES && oldKey != NewKeyBytes(suite, draw)
    ensures var after := Rewrapped(suite, users, NewKey(suite, draw), at, shares, IdsOf(RowsOfFile(shares, file.fileId)));
            Plaintext(suite, session, file, after, RotatedBlob(suite, draw, file, plain), now) == Err(AuthenticationFailure)
  {
    var newKey := NewKey(suite, draw);
    var after := Rewrapped(suite, users, newKey, at, shares, IdsOf(RowsOfFile(shares, file.fileId)));
    assert KeyFor(suite, session, file, after, now) == Ok(EncodeStd(oldKey)) by {
      var i :| 0 <= i < |shares| && shares[i] == row;
      RewrapOfFile(suite, users, newKey, at, shares, file.fileId);
      assert after[i] == row;
      RewrapKeepsValid(suite, users, newKey, at, shares, IdsOf(RowsOfFile(shares, file.fileId)), nextId);
      AccessOfRow(after, row, now);
    }
    HelpersRoundTrip(oldKey);
    RotatedBlobRejectsOtherKey(suite, draw, file, plain, EncodeStd(oldKey));
  }
}
