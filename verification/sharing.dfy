/** What the two sharing loops of src/pages/Dashboard.jsx do to the share table:
    handleShareSubmit re-wraps the key of each selected file for the recipient and
    stops at the first error, handleShareFolder does the same for every file below a
    folder and skips the files that fail. Each is a fold of one step over the files;
    the `Store` class runs the loops against these folds. */
module Sharing {
  import opened Common
  import opened Base64
  import opened Primitives
  import opened ShareFileKey
  import opened ShareTable
  import opened FileTable
  import opened Envelope
  import opened DashboardHelpers
  import opened FolderTree

  /** The `users` row found for the recipient: `id` and `public_key`. */
  datatype Recipient = Recipient(id: UserId, publicKey: JsValue)

  /** The share table and its next id. */
  datatype Table = Table(rows: seq<ShareRow>, nextId: ShareId)

  /** How one file of handleShareSubmit's loop ends: skipped with an alert, thrown out of
      the loop, or granted. */
  datatype Step = Skipped | Failed(error: Error) | Shared(table: Table)

  /** How the whole loop ends: the table it leaves and the error that stopped it. */
  datatype Outcome = Outcome(table: Table, error: Option<Error>)

  /** The file key the sharer unwraps: the owner from the file row, anyone else from
      their own share row, found with `.single()` (no row, or more than one, means none).
      That lookup does not look at the expiry. */
  function SharerKey(suite: Suite, session: Session, file: FileRow, rows: seq<ShareRow>): Option<Result<string, Error>> {
    if file.ownerId == session.userId then Some(Unwrap(suite, file.ownerKey, session))
    else
      match MaybeSingle(rows, file.fileId, session.userId)
      case None => None
      case Some(mine) => Some(Unwrap(suite, mine.wrappedKey, session))
  }

  /** One iteration of handleShareSubmit's loop. */
  function ShareStep(suite: Suite, session: Session, recipient: Recipient, expires: Option<Time>,
                     t: Table, file: FileRow): (s: Step)
    // only a sharer without a share row of their own is skipped
    ensures s.Skipped? <==> file.ownerId != session.userId && MaybeSingle(t.rows, file.fileId, session.userId).None?
  {
    match SharerKey(suite, session, file, t.rows)
    case None => Skipped
    case Some(Err(e)) => Failed(e)
    case Some(Ok(key)) =>
      var wrapped := EncryptFileKeyForUser(suite, Str(key), recipient.publicKey);
      if wrapped.Err? then Failed(wrapped.error)
      else
        var (rows', nextId') := Grant(t.rows, t.nextId, file.fileId, recipient.id, wrapped.value, expires);
        Shared(Table(rows', nextId'))
  }

  /** A step that grants stores the sharer's key sealed for the recipient: one row for
      the pair with that key and the chosen expiry, every other pair untouched. */
  lemma ShareStepGrants(suite: Suite, session: Session, recipient: Recipient, expires: Option<Time>,
                        t: Table, file: FileRow)
    requires Valid(t.rows, t.nextId)
    requires ShareStep(suite, session, recipient, expires, t, file).Shared?
    ensures var key := SharerKey(suite, session, file, t.rows);
            var s := ShareStep(suite, session, recipient, expires, t, file);
            && key.Some? && key.value.Ok?
            && EncryptFileKeyForUser(suite, Str(key.value.value), recipient.publicKey).Ok?
            && Granted(t.rows, s.table.rows, s.table.nextId, file.fileId, recipient.id,
                       EncryptFileKeyForUser(suite, Str(key.value.value), recipient.publicKey).value, expires)
  {
    var key := SharerKey(suite, session, file, t.rows).value.value;
    var wrapped := EncryptFileKeyForUser(suite, Str(key), recipient.publicKey).value;
    GrantLeavesOneRow(t.rows, t.nextId, file.fileId, recipient.id, wrapped, expires);
  }

  /** The loop of handleShareSubmit over `files`, from table `t`. */
  function ShareAll(suite: Suite, session: Session, recipient: Recipient, expires: Option<Time>,
                    t: Table, files: seq<FileRow>): Outcome
    decreases files
  {
    if files == [] then Outcome(t, None)
    else
      match ShareStep(suite, session, recipient, expires, t, files[0])
      case Skipped => ShareAll(suite, session, recipient, expires, t, files[1..])
      case Failed(e) => Outcome(t, Some(e))
      case Shared(t') => ShareAll(suite, session, recipient, expires, t', files[1..])
  }

  /** The loop keeps the share table's invariant, whether it completes or stops. */
  lemma {:induction false} ShareAllKeepsValid(suite: Suite, session: Session, recipient: Recipient,
                                              expires: Option<Time>, t: Table, files: seq<FileRow>)
    requires Valid(t.rows, t.nextId)
    ensures var o := ShareAll(suite, session, recipient, expires, t, files);
            Valid(o.table.rows, o.table.nextId)
    decreases |files|
  {
    if files != [] {
      match ShareStep(suite, session, recipient, expires, t, files[0])
      case Skipped => ShareAllKeepsValid(suite, session, recipient, expires, t, files[1..]);
      case Failed(e) =>
      case Shared(t') =>
        ShareStepGrants(suite, session, recipient, expires, t, files[0]);
        ShareAllKeepsValid(suite, session, recipient, expires, t', files[1..]);
    }
  }

  /** `rows` holds a row of `file` for `user` with this wrapped key and expiry. */
  ghost predicate HasGrant(rows: seq<ShareRow>, file: FileId, user: UserId, wrapped: string, expires: Option<Time>) {
    exists r :: r in rows && IsPair(r, file, user) && r.wrappedKey == wrapped && r.expiresAt == expires
  }

  /** A grant for one pair leaves the grants of every other file in place. */
  lemma GrantedKeepsOtherFile(rows: seq<ShareRow>, rows': seq<ShareRow>, nextId': ShareId, file: FileId, user: UserId,
                              wrapped: string, expires: Option<Time>, other: FileId, w: string, e: Option<Time>)
    requires Granted(rows, rows', nextId', file, user, wrapped, expires) && other != file
    requires HasGrant(rows, other, user, w, e)
    ensures HasGrant(rows', other, user, w, e)
  {
    var r :| r in rows && IsPair(r, other, user) && r.wrappedKey == w && r.expiresAt == e;
    assert !IsPair(r, file, user);
  }

  /** The steps after a grant leave it in place when they are about other files. */
  lemma {:induction false} ShareAllKeepsGrant(suite: Suite, session: Session, recipient: Recipient,
                                              expires: Option<Time>, t: Table, files: seq<FileRow>,
                                              file: FileId, w: string)
    requires Valid(t.rows, t.nextId) && HasGrant(t.rows, file, recipient.id, w, expires)
    requires forall g :: g in files ==> g.fileId != file
    ensures HasGrant(ShareAll(suite, session, recipient, expires, t, files).table.rows, file, recipient.id, w, expires)
    decreases |files|
  {
    if files != [] {
      assert files[0] in files;
      match ShareStep(suite, session, recipient, expires, t, files[0])
      case Skipped => ShareAllKeepsGrant(suite, session, recipient, expires, t, files[1..], file, w);
      case Failed(e) =>
      case Shared(t') =>
        ShareStepGrants(suite, session, recipient, expires, t, files[0]);
        var key := SharerKey(suite, session, files[0], t.rows).value.value;
        var wrapped := EncryptFileKeyForUser(suite, Str(key), recipient.publicKey).value;
        GrantedKeepsOtherFile(t.rows, t'.rows, t'.nextId, files[0].fileId, recipient.id, wrapped, expires,
                              file, w, expires);
        ShareAllKeepsGrant(suite, session, recipient, expires, t', files[1..], file, w);
    }
  }

  /** When the loop completes, every file of the list that the sharer owns has one row
      for the recipient, holding the owner's file key sealed for the recipient's public
      key with the chosen expiry. */
  lemma {:induction false} ShareAllGrantsOwned(suite: Suite, session: Session, recipient: Recipient,
                                               expires: Option<Time>, t: Table, files: seq<FileRow>, f: FileRow)
    requires Valid(t.rows, t.nextId) && UniqueFileIds(files) && f in files && f.ownerId == session.userId
    requires ShareAll(suite, session, recipient, expires, t, files).error.None?
    ensures var key := Unwrap(suite, f.ownerKey, session);
            && key.Ok?
            && EncryptFileKeyForUser(suite, Str(key.value), recipient.publicKey).Ok?
            && HasGrant(ShareAll(suite, session, recipient, expires, t, files).table.rows, f.fileId, recipient.id,
                        EncryptFileKeyForUser(suite, Str(key.value), recipient.publicKey).value, expires)
    decreases |files|
  {
    var rest := files[1..];
    UniqueTail(files);
    if files[0] == f {
      ShareAllGrantsHead(suite, session, recipient, expires, t, files);
    } else {
      assert f in rest;
      match ShareStep(suite, session, recipient, expires, t, files[0])
      case Skipped => ShareAllGrantsOwned(suite, session, recipient, expires, t, rest, f);
      case Shared(t') =>
        ShareStepGrants(suite, session, recipient, expires, t, files[0]);
        ShareAllGrantsOwned(suite, session, recipient, expires, t', rest, f);
    }
  }

  lemma UniqueTail(files: seq<FileRow>)
    requires UniqueFileIds(files) && files != []
    ensures UniqueFileIds(files[1..])
    ensures forall g :: g in files[1..] ==> g.fileId != files[0].fileId
  {
    var rest := files[1..];
    forall i, j | 0 <= i < j < |rest| ensures rest[i].fileId != rest[j].fileId {
      assert rest[i] == files[i + 1] && rest[j] == files[j + 1];
    }
    forall g | g in rest ensures g.fileId != files[0].fileId {
      var k :| 0 <= k < |rest| && rest[k] == g;
      assert files[k + 1] == g;
    }
  }

  /** The file at the head of the list: its grant is made in the first step and the
      rest of the loop leaves it alone. */
  lemma ShareAllGrantsHead(suite: Suite, session: Session, recipient: Recipient,
                           expires: Option<Time>, t: Table, files: seq<FileRow>)
    requires Valid(t.rows, t.nextId) && UniqueFileIds(files) && files != [] && files[0].ownerId == session.userId
    requires ShareAll(suite, session, recipient, expires, t, files).error.None?
    ensures var key := Unwrap(suite, files[0].ownerKey, session);
            && key.Ok?
            && EncryptFileKeyForUser(suite, Str(key.value), recipient.publicKey).Ok?
            && HasGrant(ShareAll(suite, session, recipient, expires, t, files).table.rows, files[0].fileId, recipient.id,
                        EncryptFileKeyForUser(suite, Str(key.value), recipient.publicKey).value, expires)
  {
    var f, rest := files[0], files[1..];
    UniqueTail(files);
    var step := ShareStep(suite, session, recipient, expires, t, f);
    assert step.Shared?;
    ShareStepGrants(suite, session, recipient, expires, t, f);
    var key := Unwrap(suite, f.ownerKey, session).value;
    var wrapped := EncryptFileKeyForUser(suite, Str(key), recipient.publicKey).value;
    var x := Matching(step.table.rows, f.fileId, recipient.id)[0];
    assert x in Matching(step.table.rows, f.fileId, recipient.id);
    assert HasGrant(step.table.rows, f.fileId, recipient.id, wrapped, expires);
    ShareAllKeepsGrant(suite, session, recipient, expires, step.table, rest, f.fileId, wrapped);
  }


  /** End to end: after the owner shares a file and the loop completes, the recipient's
      read of it, before the expiry, gives the same plaintext as the owner's read. The
      file key on the row is the one the upload wrapped for the owner. */
  lemma {:induction false} RecipientReadsSharedFile(suite: Suite, owner: Session, skOwner: seq<byte>,
                                                    reader: Session, skReader: seq<byte>, expires: Option<Time>,
                                                    t: Table, files: seq<FileRow>, f: FileRow, key: seq<byte>,
                                                    others: seq<ShareRow>, blob: seq<byte>, now: Time)
    requires Lawful(suite) && Valid(t.rows, t.nextId) && UniqueFileIds(files) && f in files
    requires HoldsKeyPair(suite, owner, skOwner) && HoldsKeyPair(suite, reader, skReader)
    requires f.ownerId == owner.userId && reader.userId != owner.userId && |key| > 0
    requires EncryptFileKeyForUser(suite, Str(EncodeStd(key)), owner.publicKey) == Ok(f.ownerKey)
    requires expires.None? || expires.value >= now
    requires ShareAll(suite, owner, Recipient(reader.userId, reader.publicKey), expires, t, files).error.None?
    ensures var o := ShareAll(suite, owner, Recipient(reader.userId, reader.publicKey), expires, t, files);
            Plaintext(suite, reader, f, o.table.rows, blob, now) == Plaintext(suite, owner, f, others, blob, now)
  {
    var recipient := Recipient(reader.userId, reader.publicKey);
    var o := ShareAll(suite, owner, recipient, expires, t, files);
    var k := EncodeStd(key);
    UnwrapOwnWrap(suite, owner, skOwner, key);
    assert KeyFor(suite, owner, f, others, now) == Ok(k);
    ShareAllGrantsOwned(suite, owner, recipient, expires, t, files, f);
    ShareAllKeepsValid(suite, owner, recipient, expires, t, files);
    var wrapped := EncryptFileKeyForUser(suite, Str(k), reader.publicKey).value;
    assert HasGrant(o.table.rows, f.fileId, reader.userId, wrapped, expires);
    GrantReads(suite, reader, f, o.table.rows, wrapped, expires, now);
    UnwrapOwnWrap(suite, reader, skReader, key);
    assert KeyFor(suite, reader, f, o.table.rows, now) == Ok(k);
  }

  /** A recipient holding an unexpired grant of a file it does not own reads the file
      with the key its grant unwraps to. */
  lemma GrantReads(suite: Suite, reader: Session, f: FileRow, rows: seq<ShareRow>, wrapped: string,
                   expires: Option<Time>, now: Time)
    requires UniquePairs(rows) && f.ownerId != reader.userId
    requires HasGrant(rows, f.fileId, reader.userId, wrapped, expires)
    requires expires.None? || expires.value >= now
    ensures KeyFor(suite, reader, f, rows, now) == Unwrap(suite, wrapped, reader)
  {
    var r :| r in rows && IsPair(r, f.fileId, reader.userId) && r.wrappedKey == wrapped && r.expiresAt == expires;
    AccessOfRow(rows, r, now);
  }

  /** The share lookup of a sharer who is not the owner ignores the expiry: a recipient
      whose share has expired still unwraps the key and can pass the file on. */
  lemma ExpiredRecipientCanReshare(suite: Suite, session: Session, file: FileRow, rows: seq<ShareRow>,
                                   mine: ShareRow, now: Time)
    requires file.ownerId != session.userId && Matching(rows, file.fileId, session.userId) == [mine]
    requires IsExpired(mine, now)
    ensures AccessRow(rows, file.fileId, session.userId, now) == Err(ShareExpired)
    ensures SharerKey(suite, session, file, rows) == Some(Unwrap(suite, mine.wrappedKey, session))
  {
    assert mine in Matching(rows, file.fileId, session.userId);
    assert FirstMatch(rows, file.fileId, session.userId) == Some(mine);
  }

  // ---------------------------------------------------------------- folder sharing

  /** `folderShareIdMap` after the first `k` folders of `list` were shared: each folder
      id to the id of the last `folder_shares` row inserted for it, row `j` taking the
      id `base + j`. */
  function ShareIdMap(list: seq<FolderRow>, base: nat, k: nat): map<FolderId, nat>
    requires k <= |list|
  {
    if k == 0 then map[] else ShareIdMap(list, base, k - 1)[list[k - 1].folderId := base + k - 1]
  }

  /** `folder.parent_id ? folderShareIdMap[folder.parent_id] : null`: the share of the
      parent folder when one was made in this run, and null otherwise. Folder ids are
      database keys and never falsy. */
  function ParentShare(m: map<FolderId, nat>, folder: FolderRow): Option<nat> {
    if folder.parentId.Some? && folder.parentId.value in m then Some(m[folder.parentId.value]) else None
  }

  /** The `folder_shares` rows handleShareFolder inserts for `list` (the root, then its
      subfolders) for `recipient`, with ids from `base` on. */
  function FolderShareRows(list: seq<FolderRow>, recipient: UserId, base: nat): (rows: seq<FolderShareRow>)
    ensures |rows| == |list|
  {
    seq(|list|, j requires 0 <= j < |list| =>
      FolderShareRow(base + j, list[j].folderId, recipient, ParentShare(ShareIdMap(list, base, j), list[j])))
  }

  /** A folder id in the map came from an earlier folder of the list, and maps to the
      id of that folder's row. */
  lemma {:induction false} ShareIdMapLookup(list: seq<FolderRow>, base: nat, k: nat, x: FolderId)
    requires k <= |list|
    ensures x in ShareIdMap(list, base, k) <==> exists i :: 0 <= i < k && list[i].folderId == x
    ensures x in ShareIdMap(list, base, k) ==>
      exists i :: 0 <= i < k && list[i].folderId == x && ShareIdMap(list, base, k)[x] == base + i
  {
    if k > 0 {
      ShareIdMapLookup(list, base, k - 1, x);
      if list[k - 1].folderId != x && x in ShareIdMap(list, base, k) {
        var i :| 0 <= i < k - 1 && list[i].folderId == x && ShareIdMap(list, base, k - 1)[x] == base + i;
      }
    }
  }

  /** In the list of handleShareFolder every subfolder's parent comes earlier. */
  lemma ParentListedEarlier(root: FolderRow, subs: seq<FolderRow>, j: nat)
    requires ParentsFirst(subs, {root.folderId}) && 0 < j < 1 + |subs|
    ensures var list := [root] + subs;
            list[j].parentId.Some? && exists i :: 0 <= i < j && list[i].folderId == list[j].parentId.value
  {
    var list := [root] + subs;
    var parent := subs[j - 1].parentId.value;
    assert list[j] == subs[j - 1];
    if parent == root.folderId {
      assert list[0].folderId == parent;
    } else {
      var i :| 0 <= i < j - 1 && subs[i].folderId == parent;
      assert list[i + 1] == subs[i];
    }
  }

  /** The folder shares mirror the folder tree: the root's share has no parent share,
      and the share of every subfolder points at the share made for its parent folder
      earlier in the same run. */
  lemma FolderSharesMirrorTree(root: FolderRow, subs: seq<FolderRow>, recipient: UserId, base: nat, j: nat)
    requires ParentsFirst(subs, {root.folderId})
    requires j < 1 + |subs|
    ensures var list := [root] + subs;
            var rows := FolderShareRows(list, recipient, base);
            && rows[j].id == base + j && rows[j].folderId == list[j].folderId && rows[j].recipient == recipient
            && (j == 0 ==> rows[j].parentShareId.None?)
            && (j > 0 ==> exists i :: 0 <= i < j && rows[i].folderId == list[j].parentId.value &&
                                      rows[j].parentShareId == Some(rows[i].id))
  {
    if j > 0 {
      ParentListedEarlier(root, subs, j);
      ShareLinksParent([root] + subs, recipient, base, j);
    }
  }

  /** A folder whose parent was shared earlier in the run gets a share pointing at the
      share of that parent. */
  lemma ShareLinksParent(list: seq<FolderRow>, recipient: UserId, base: nat, j: nat)
    requires j < |list| && list[j].parentId.Some?
    requires exists i :: 0 <= i < j && list[i].folderId == list[j].parentId.value
    ensures var rows := FolderShareRows(list, recipient, base);
            exists i :: 0 <= i < j && rows[i].folderId == list[j].parentId.value && rows[j].parentShareId == Some(rows[i].id)
  {
    var rows := FolderShareRows(list, recipient, base);
    var parent := list[j].parentId.value;
    var earlier :| 0 <= earlier < j && list[earlier].folderId == parent;
    InShareIdMap(list, base, j, earlier);
    var i := ShareIdMapIndex(list, base, j, parent);
    ParentShareIs(ShareIdMap(list, base, j), list[j], base + i);
    assert rows[j].parentShareId == Some(base + i);
    assert rows[i].folderId == parent && rows[i].id == base + i;
  }

  lemma ParentShareIs(m: map<FolderId, nat>, folder: FolderRow, v: nat)
    requires folder.parentId.Some? && folder.parentId.value in m && m[folder.parentId.value] == v
    ensures ParentShare(m, folder) == Some(v)
  {
  }

  /** Every folder shared so far has an entry in the map. */
  lemma {:induction false} InShareIdMap(list: seq<FolderRow>, base: nat, k: nat, i: nat)
    requires i < k <= |list|
    ensures list[i].folderId in ShareIdMap(list, base, k)
  {
    if i < k - 1 {
      InShareIdMap(list, base, k - 1, i);
    }
  }

  /** The index of the folder whose row id the map holds for `x`. */
  lemma {:induction false} ShareIdMapIndex(list: seq<FolderRow>, base: nat, k: nat, x: FolderId) returns (i: nat)
    requires k <= |list| && x in ShareIdMap(list, base, k)
    ensures i < k && list[i].folderId == x && ShareIdMap(list, base, k)[x] == base + i
  {
    if list[k - 1].folderId == x {
      i := k - 1;
    } else {
      i := ShareIdMapIndex(list, base, k - 1, x);
    }
  }

  /** One file of handleShareFolder's per-file loop: the owner's wrapped key is unwrapped
      with the sharer's own key pair, whoever owns the file. A failure anywhere (the
      owner's `users` row missing when the sharer is not the owner, an unwrap or a wrap
      error) is caught and the file is skipped, giving `None`. */
  function FolderFileStep(suite: Suite, session: Session, users: map<UserId, JsValue>, recipient: Recipient,
                          expires: Option<Time>, t: Table, file: FileRow): (r: Option<Table>)
    ensures file.ownerId != session.userId && file.ownerId !in users ==> r.None?
    ensures Unwrap(suite, file.ownerKey, session).Err? ==> r.None?
  {
    if file.ownerId != session.userId && file.ownerId !in users then None
    else
      var key := Unwrap(suite, file.ownerKey, session);
      if key.Err? then None
      else
        var wrapped := EncryptFileKeyForUser(suite, Str(key.value), recipient.publicKey);
        if wrapped.Err? then None
        else
          var (rows', nextId') := Grant(t.rows, t.nextId, file.fileId, recipient.id, wrapped.value, expires);
          Some(Table(rows', nextId'))
  }

  /** A file the folder loop does not skip is granted with the owner's file key, as the
      sharer unwraps it, sealed for the recipient. */
  lemma FolderFileStepGrants(suite: Suite, session: Session, users: map<UserId, JsValue>, recipient: Recipient,
                             expires: Option<Time>, t: Table, file: FileRow)
    requires Valid(t.rows, t.nextId)
    requires FolderFileStep(suite, session, users, recipient, expires, t, file).Some?
    ensures var key := Unwrap(suite, file.ownerKey, session);
            var r := FolderFileStep(suite, session, users, recipient, expires, t, file);
            && key.Ok?
            && EncryptFileKeyForUser(suite, Str(key.value), recipient.publicKey).Ok?
            && Granted(t.rows, r.value.rows, r.value.nextId, file.fileId, recipient.id,
                       EncryptFileKeyForUser(suite, Str(key.value), recipient.publicKey).value, expires)
  {
    var key := Unwrap(suite, file.ownerKey, session).value;
    var wrapped := EncryptFileKeyForUser(suite, Str(key), recipient.publicKey).value;
    GrantLeavesOneRow(t.rows, t.nextId, file.fileId, recipient.id, wrapped, expires);
  }

  /** The per-file loop of handleShareFolder over `files`. */
  function ShareFolderFiles(suite: Suite, session: Session, users: map<UserId, JsValue>, recipient: Recipient,
                            expires: Option<Time>, t: Table, files: seq<FileRow>): Table
    decreases files
  {
    if files == [] then t
    else
      match FolderFileStep(suite, session, users, recipient, expires, t, files[0])
      case None => ShareFolderFiles(suite, session, users, recipient, expires, t, files[1..])
      case Some(t') => ShareFolderFiles(suite, session, users, recipient, expires, t', files[1..])
  }

  /** The folder loop keeps the share table's invariant. */
  lemma {:induction false} ShareFolderFilesKeepsValid(suite: Suite, session: Session, users: map<UserId, JsValue>,
                                                      recipient: Recipient, expires: Option<Time>, t: Table,
                                                      files: seq<FileRow>)
    requires Valid(t.rows, t.nextId)
    ensures var t' := ShareFolderFiles(suite, session, users, recipient, expires, t, files);
            Valid(t'.rows, t'.nextId)
    decreases |files|
  {
    if files != [] {
      match FolderFileStep(suite, session, users, recipient, expires, t, files[0])
      case None => ShareFolderFilesKeepsValid(suite, session, users, recipient, expires, t, files[1..]);
      case Some(t') =>
        FolderFileStepGrants(suite, session, users, recipient, expires, t, files[0]);
        ShareFolderFilesKeepsValid(suite, session, users, recipient, expires, t', files[1..]);
    }
  }

  /** The steps of the folder loop after a grant leave it in place when they are about
      other files. */
  lemma {:induction false} ShareFolderFilesKeepsGrant(suite: Suite, session: Session, users: map<UserId, JsValue>,
                                                      recipient: Recipient, expires: Option<Time>, t: Table,
                                                      files: seq<FileRow>, file: FileId, w: string)
    requires Valid(t.rows, t.nextId) && HasGrant(t.rows, file, recipient.id, w, expires)
    requires forall g :: g in files ==> g.fileId != file
    ensures HasGrant(ShareFolderFiles(suite, session, users, recipient, expires, t, files).rows, file, recipient.id, w, expires)
    decreases |files|
  {
    if files != [] {
      assert files[0] in files;
      match FolderFileStep(suite, session, users, recipient, expires, t, files[0])
      case None => ShareFolderFilesKeepsGrant(suite, session, users, recipient, expires, t, files[1..], file, w);
      case Some(t') =>
        FolderFileStepGrants(suite, session, users, recipient, expires, t, files[0]);
        var key := Unwrap(suite, files[0].ownerKey, session).value;
        var wrapped := EncryptFileKeyForUser(suite, Str(key), recipient.publicKey).value;
        GrantedKeepsOtherFile(t.rows, t'.rows, t'.nextId, files[0].fileId, recipient.id, wrapped, expires,
                              file, w, expires);
        ShareFolderFilesKeepsGrant(suite, session, users, recipient, expires, t', files[1..], file, w);
    }
  }

  /** When the folder loop is done, every file of the tree it does not skip (its
      owner's `users` row is there or the sharer owns it, and its key unwraps and wraps)
      has one row for the recipient, holding the owner's file key, as the sharer
      unwraps it, sealed for the recipient's public key with the chosen expiry. */
  lemma {:induction false} ShareFolderFilesGrants(suite: Suite, session: Session, users: map<UserId, JsValue>,
                                                  recipient: Recipient, expires: Option<Time>, t: Table,
                                                  files: seq<FileRow>, f: FileRow)
    requires Valid(t.rows, t.nextId) && UniqueFileIds(files) && f in files
    requires f.ownerId == session.userId || f.ownerId in users
    requires Unwrap(suite, f.ownerKey, session).Ok?
    requires EncryptFileKeyForUser(suite, Str(Unwrap(suite, f.ownerKey, session).value), recipient.publicKey).Ok?
    ensures var t' := ShareFolderFiles(suite, session, users, recipient, expires, t, files);
            var m := Matching(t'.rows, f.fileId, recipient.id);
            && |m| == 1
            && m[0].wrappedKey == EncryptFileKeyForUser(suite, Str(Unwrap(suite, f.ownerKey, session).value),
                                                        recipient.publicKey).value
            && m[0].expiresAt == expires
    decreases |files|
  {
    var wrapped := EncryptFileKeyForUser(suite, Str(Unwrap(suite, f.ownerKey, session).value), recipient.publicKey).value;
    ShareFolderFilesHas(suite, session, users, recipient, expires, t, files, f);
    var t' := ShareFolderFiles(suite, session, users, recipient, expires, t, files);
    ShareFolderFilesKeepsValid(suite, session, users, recipient, expires, t, files);
    OneGrant(t'.rows, t'.nextId, f.fileId, recipient.id, wrapped, expires);
  }

  /** The grant half of `ShareFolderFilesGrants`: the row is there. */
  lemma {:induction false} ShareFolderFilesHas(suite: Suite, session: Session, users: map<UserId, JsValue>,
                                               recipient: Recipient, expires: Option<Time>, t: Table,
                                               files: seq<FileRow>, f: FileRow)
    requires Valid(t.rows, t.nextId) && UniqueFileIds(files) && f in files
    requires f.ownerId == session.userId || f.ownerId in users
    requires Unwrap(suite, f.ownerKey, session).Ok?
    requires EncryptFileKeyForUser(suite, Str(Unwrap(suite, f.ownerKey, session).value), recipient.publicKey).Ok?
    ensures HasGrant(ShareFolderFiles(suite, session, users, recipient, expires, t, files).rows, f.fileId, recipient.id,
                     EncryptFileKeyForUser(suite, Str(Unwrap(suite, f.ownerKey, session).value), recipient.publicKey).value,
                     expires)
    decreases |files|
  {
    var wrapped := EncryptFileKeyForUser(suite, Str(Unwrap(suite, f.ownerKey, session).value), recipient.publicKey).value;
    UniqueTail(files);
    var step := FolderFileStep(suite, session, users, recipient, expires, t, files[0]);
    if files[0] == f {
      assert step.Some?;
      FolderFileStepGrants(suite, session, users, recipient, expires, t, f);
      var x := Matching(step.value.rows, f.fileId, recipient.id)[0];
      assert x in Matching(step.value.rows, f.fileId, recipient.id);
      assert HasGrant(step.value.rows, f.fileId, recipient.id, wrapped, expires);
      ShareFolderFilesKeepsGrant(suite, session, users, recipient, expires, step.value, files[1..], f.fileId, wrapped);
    } else {
      assert f in files[1..];
      match step
      case None => ShareFolderFilesHas(suite, session, users, recipient, expires, t, files[1..], f);
      case Some(t') =>
        FolderFileStepGrants(suite, session, users, recipient, expires, t, files[0]);
        ShareFolderFilesHas(suite, session, users, recipient, expires, t', files[1..], f);
    }
  }

  /** Under the table's invariant, a row for a pair is the only one. */
  lemma OneGrant(rows: seq<ShareRow>, nextId: ShareId, file: FileId, user: UserId, w: string, e: Option<Time>)
    requires Valid(rows, nextId) && HasGrant(rows, file, user, w, e)
    ensures var m := Matching(rows, file, user);
            |m| == 1 && m[0].wrappedKey == w && m[0].expiresAt == e
  {
    var r :| r in rows && IsPair(r, file, user) && r.wrappedKey == w && r.expiresAt == e;
    var m := Matching(rows, file, user);
    AtMostOneMatch(rows, file, user);
    assert r in m;
  }

  /** A file someone else owns is never shared by the folder loop: the owner's wrapped
      key does not open with the sharer's key pair. */
  lemma ForeignFileSkipped(suite: Suite, session: Session, sk: seq<byte>, skOwner: seq<byte>, users: map<UserId, JsValue>,
                           recipient: Recipient, expires: Option<Time>, t: Table, file: FileRow, key: seq<byte>)
    requires Lawful(suite) && HoldsKeyPair(suite, session, sk) && |skOwner| == BOX_KEY_BYTES && |key| > 0
    requires suite.boxPublicKey(sk) != suite.boxPublicKey(skOwner)
    requires EncryptFileKeyForUser(suite, Str(EncodeStd(key)), Str(PublicKeyString(suite, skOwner))) == Ok(file.ownerKey)
    ensures FolderFileStep(suite, session, users, recipient, expires, t, file).None?
  {
    UnwrapOtherWrapFails(suite, session, sk, skOwner, key);
    assert Unwrap(suite, file.ownerKey, session).Err?;
  }
}
