/** The handlers of src/pages/Dashboard.jsx as they change the backend: the `files`,
    `file_shares`, `folders`, `folder_shares` and `users` tables and the
    `encrypted-files` storage bucket are the fields of one `Store`. Each handler is a
    method that performs the source's steps in its order, and its contract ties the new
    state to the pure definitions of the other modules. Writes whose result the source
    does not look at always succeed here. */
module Dashboard {
  import opened Common
  import opened Base64
  import opened Primitives
  import opened ShareFileKey
  import opened FileEncryption
  import opened ShareTable
  import opened FileTable
  import opened ByteHelpers
  import opened Envelope
  import opened Rotation
  import opened Sharing
  import opened FolderTree
  import opened FolderUpload
  import opened DashboardHelpers

  class Store {
    var files: seq<FileRow>
    var shares: seq<ShareRow>
    var nextShareId: ShareId
    /** The storage bucket: ciphertext by storage path. */
    var blobs: map<string, seq<byte>>
    /** `users.public_key` by user id. */
    var users: map<UserId, JsValue>
    var folders: seq<FolderRow>
    var nextFolderId: FolderId
    var folderShares: seq<FolderShareRow>
    var nextFolderShareId: nat

    /** The database's own guarantees: the share table's pair and id uniqueness, and
        every id positive (serial columns start at 1, so no id is the falsy 0 the page
        tests against) and below the next one handed out. */
    ghost predicate Valid()
      reads this
    {
      && ShareTable.Valid(shares, nextShareId)
      && 0 < nextFolderId && (forall f :: f in folders ==> 0 < f.folderId < nextFolderId)
      && 0 < nextFolderShareId && (forall s :: s in folderShares ==> 0 < s.id < nextFolderShareId)
    }

    constructor (users: map<UserId, JsValue>)
      ensures Valid()
      ensures files == [] && shares == [] && blobs == map[] && folders == [] && folderShares == []
      ensures this.users == users
      // every id counter starts at 1, as a serial column does
      ensures nextShareId == 1 && nextFolderId == 1 && nextFolderShareId == 1
    {
      files := [];
      shares := [];
      nextShareId := 1;
      blobs := map[];
      this.users := users;
      folders := [];
      nextFolderId := 1;
      folderShares := [];
      nextFolderShareId := 1;
    }

    // ------------------------------------------------------------ reading and rotation

    /** `decryptFileHelper(file)` for the row `file` as the page holds it. A read by the
        owner of a key more than an hour old rotates the key on the way; any other read
        changes nothing. `draw` stands for the random bytes of the new key. */
    method ReadFile(suite: Suite, session: Session, file: FileRow, now: Time, draw: nat)
      returns (r: Result<seq<byte>, Error>)
      requires Valid()
      modifies this
      ensures Valid()
      ensures users == old(users) && nextShareId == old(nextShareId)
      ensures folders == old(folders) && nextFolderId == old(nextFolderId)
      ensures folderShares == old(folderShares) && nextFolderShareId == old(nextFolderShareId)
      // a download error is thrown before anything is read
      ensures file.storagePath !in old(blobs) ==>
        r == Err(StorageError) && files == old(files) && shares == old(shares) && blobs == old(blobs)
      // no rotation: the read of the row as it stands, and nothing changes
      ensures file.storagePath in old(blobs) && !(file.ownerId == session.userId && NeedRotate(file, now)) ==>
        && r == Plaintext(suite, session, file, old(shares), old(blobs)[file.storagePath], now)
        && files == old(files) && shares == old(shares) && blobs == old(blobs)
      ensures file.storagePath in old(blobs) && file.ownerId == session.userId && NeedRotate(file, now) ==>
        RotationEffect(suite, session, old(users), file, now, draw, old(files), old(shares), old(blobs),
                       files, shares, blobs, r)
      // rotating or not, what a successful read returns is the content the row stood for
      ensures Lawful(suite) && r.Ok? ==>
        file.storagePath in old(blobs) && r == Plaintext(suite, session, file, old(shares), old(blobs)[file.storagePath], now)
    {
      if file.storagePath !in blobs {
        return Err(StorageError);
      }
      var encryptedBytes := blobs[file.storagePath];
      if file.ownerId != session.userId || !NeedRotate(file, now) {
        r := ReadAsIs(suite, session, file, shares, encryptedBytes, now);
        return;
      }
      ghost var (files0, shares0, blobs0) := (files, shares, blobs);
      r := Rotate(suite, session, file, encryptedBytes, now, draw);
      if Lawful(suite) && r.Ok? {
        RotationKeepsContent(suite, session, users, file, now, draw, files0, shares0, blobs0, files, shares, blobs, r);
      }
    }

    /** The owner's read with rotation, from the unwrap of the old key on. */
    method Rotate(suite: Suite, session: Session, file: FileRow, encryptedBytes: seq<byte>, now: Time, draw: nat)
      returns (r: Result<seq<byte>, Error>)
      requires Valid() && file.storagePath in blobs && blobs[file.storagePath] == encryptedBytes
      modifies this
      ensures Valid()
      ensures users == old(users) && nextShareId == old(nextShareId)
      ensures folders == old(folders) && nextFolderId == old(nextFolderId)
      ensures folderShares == old(folderShares) && nextFolderShareId == old(nextFolderShareId)
      ensures RotationEffect(suite, session, old(users), file, now, draw, old(files), old(shares), old(blobs),
                             files, shares, blobs, r)
    {
      var oldFileKey := Unwrap(suite, file.ownerKey, session);
      if oldFileKey.Err? {
        return Err(oldFileKey.error);
      }
      var decrypted := DecryptFile(suite, encryptedBytes, oldFileKey.value, Str(file.iv));
      if decrypted.Err? {
        return Err(decrypted.error);
      }
      var newFileKey, newEncrypted := Reencrypt(suite, file, decrypted.value, draw);
      r := Install(suite, session, file, newFileKey, newEncrypted, now);
    }

    /** The writes of a rotation: the new ciphertext is uploaded, the new key wrapped for
        the owner (a failure ends the read there), stored on the owner's row with the
        time, and re-wrapped on the file's share rows; the read returns the new ciphertext
        decrypted with the new key. */
    method Install(suite: Suite, session: Session, file: FileRow, newFileKey: string, newEncrypted: seq<byte>, now: Time)
      returns (r: Result<seq<byte>, Error>)
      requires Valid()
      modifies this
      ensures Valid()
      ensures users == old(users) && nextShareId == old(nextShareId)
      ensures folders == old(folders) && nextFolderId == old(nextFolderId)
      ensures folderShares == old(folderShares) && nextFolderShareId == old(nextFolderShareId)
      ensures Installed(suite, session, old(users), file, now, newFileKey, newEncrypted, old(files), old(shares), old(blobs),
                        files, shares, blobs, r)
    {
      var files1, shares1, blobs1;
      files1, shares1, blobs1, r := InstallRows(suite, session, users, file, now, newFileKey, newEncrypted,
                                                files, shares, nextShareId, blobs);
      files, shares, blobs := files1, shares1, blobs1;
    }

    /** The read with the row looked up in `files` when the read starts, so that the
        key and time a rotation stored are what the next read sees. */
    method ReadCurrent(suite: Suite, session: Session, fileId: FileId, now: Time, draw: nat)
      returns (r: Result<seq<byte>, Error>)
      requires Valid()
      modifies this
      ensures Valid()
      ensures users == old(users) && nextShareId == old(nextShareId)
      ensures folders == old(folders) && nextFolderId == old(nextFolderId)
      ensures folderShares == old(folderShares) && nextFolderShareId == old(nextFolderShareId)
      ensures FileById(old(files), fileId).None? ==>
        r == Err(RowMissing) && files == old(files) && shares == old(shares) && blobs == old(blobs)
      ensures Lawful(suite) && r.Ok? ==>
        var f := FileById(old(files), fileId);
        f.Some? && f.value.storagePath in old(blobs)
        && r == Plaintext(suite, session, f.value, old(shares), old(blobs)[f.value.storagePath], now)
    {
      var current := FileById(files, fileId);
      if current.None? {
        return Err(RowMissing);
      }
      r := ReadFile(suite, session, current.value, now, draw);
    }

    // ------------------------------------------------------------ uploads

    /** `handleUploadFile` for one file `name` with content `plain` into `folderId`:
        the content is encrypted under a fresh key and IV (draws `draw`, `draw + 1`),
        stored under the sanitised path, and the key is wrapped for the owner's public
        key from `users`. The upload happens before the key is wrapped, so a missing
        `users` row or a failing wrap leaves the ciphertext in the bucket with no row.
        An insert under a file id already in use fails silently: no row, no error. */
    method UploadFile(suite: Suite, session: Session, fileId: FileId, name: string, plain: seq<byte>,
                      folderId: Option<FolderId>, draw: nat, now: Time) returns (r: Result<Option<FileRow>, Error>)
      requires Valid()
      modifies this
      ensures Valid()
      ensures users == old(users) && shares == old(shares) && nextShareId == old(nextShareId)
      ensures folders == old(folders) && nextFolderId == old(nextFolderId)
      ensures folderShares == old(folderShares) && nextFolderShareId == old(nextFolderShareId)
      ensures var e := EncryptFile(suite, plain, draw);
              blobs == old(blobs)[StoragePath(fileId, name) := e.encryptedFile]
      ensures old(blobs).Keys <= blobs.Keys && StoragePath(fileId, name) in blobs
      ensures session.userId !in users ==> r == Err(RowMissing) && files == old(files)
      ensures session.userId in users ==>
        var e := EncryptFile(suite, plain, draw);
        match EncryptFileKeyForUser(suite, Str(e.fileKey), users[session.userId])
        case Err(err) => r == Err(err) && files == old(files)
        case Ok(wrapped) =>
          var row := FileRow(fileId, session.userId, folderId, StoragePath(fileId, name), wrapped, e.iv, now, None);
          if FileById(old(files), fileId).Some? then r == Ok(None) && files == old(files)
          else r == Ok(Some(row)) && files == old(files) + [row]
    {
      var e := EncryptFile(suite, plain, draw);
      var storagePath := StoragePath(fileId, name);
      blobs := blobs[storagePath := e.encryptedFile];
      if session.userId !in users {
        return Err(RowMissing);
      }
      var encryptedFileKeyOwner := EncryptFileKeyForUser(suite, Str(e.fileKey), users[session.userId]);
      if encryptedFileKeyOwner.Err? {
        return Err(encryptedFileKeyOwner.error);
      }
      var row := FileRow(fileId, session.userId, folderId, storagePath, encryptedFileKeyOwner.value, e.iv, now, None);
      if FileById(files, fileId).Some? {
        return Ok(None);
      }
      files := files + [row];
      r := Ok(Some(row));
    }

    /** `handleUploadFolder` for the files `uploads` into `currentFolderId`: a folder
        row for every directory on the way to a file, created parents first, then each
        file uploaded into the folder of its directory. A failing file upload is
        reported by `handleUploadFile` and the next file goes on. */
    method UploadFolder(suite: Suite, session: Session, uploads: seq<Upload>, currentFolderId: Option<FolderId>,
                        now: Time) returns (ids: map<Path, FolderId>, created: seq<FolderRow>)
      requires Valid()
      modifies this
      ensures Valid()
      ensures users == old(users) && shares == old(shares) && nextShareId == old(nextShareId)
      ensures folderShares == old(folderShares) && nextFolderShareId == old(nextFolderShareId)
      // one new folder per directory, linked to the folder of its enclosing directory
      ensures Planned(session.userId, Dirs(uploads), currentFolderId, old(nextFolderId), ids, created)
      ensures folders == old(folders) + created && nextFolderId == old(nextFolderId) + |ids|
      // every file's ciphertext is stored, and every new row is one of the files, in
      // the folder of its directory
      ensures forall k :: 0 <= k < |uploads| ==> uploads[k].dir == [] || uploads[k].dir in ids
      ensures blobs == BlobsAfter(suite, old(blobs), uploads, |uploads|)
      ensures files == FilesAfter(suite, users, session.userId, ids, currentFolderId, now, old(files), uploads, |uploads|)
      ensures Stored(uploads) <= blobs.Keys
      ensures |files| >= |old(files)| && files[..|old(files)|] == old(files)
      ensures forall f :: f in files[|old(files)|..] ==>
        FromUploads(f, uploads, |uploads|, session.userId, ids, currentFolderId)
    {
      ids, created := AddFolderRows(session.userId, uploads, currentFolderId);
      UploadFiles(suite, session, uploads, ids, currentFolderId, now);
    }

    /** The folder loop of handleUploadFolder on this store's folder table. */
    method AddFolderRows(owner: UserId, uploads: seq<Upload>, currentFolderId: Option<FolderId>)
      returns (ids: map<Path, FolderId>, created: seq<FolderRow>)
      requires Valid()
      modifies this
      ensures Valid()
      ensures files == old(files) && blobs == old(blobs) && users == old(users)
      ensures shares == old(shares) && nextShareId == old(nextShareId)
      ensures folderShares == old(folderShares) && nextFolderShareId == old(nextFolderShareId)
      ensures Planned(owner, Dirs(uploads), currentFolderId, old(nextFolderId), ids, created)
      ensures folders == old(folders) + created && nextFolderId == old(nextFolderId) + |ids|
      ensures forall k :: 0 <= k < |uploads| ==> uploads[k].dir == [] || uploads[k].dir in ids
    {
      var folders1, nextFolderId1;
      ids, created, folders1, nextFolderId1 := AddFolders(owner, uploads, currentFolderId, folders, nextFolderId);
      folders, nextFolderId := folders1, nextFolderId1;
    }

    /** The file loop of handleUploadFolder: each file uploaded into the folder of its
        directory. */
    method UploadFiles(suite: Suite, session: Session, uploads: seq<Upload>, ids: map<Path, FolderId>,
                       currentFolderId: Option<FolderId>, now: Time)
      requires Valid()
      requires forall k :: 0 <= k < |uploads| ==> uploads[k].dir == [] || uploads[k].dir in ids
      modifies this
      ensures Valid()
      ensures users == old(users) && shares == old(shares) && nextShareId == old(nextShareId)
      ensures folders == old(folders) && nextFolderId == old(nextFolderId)
      ensures folderShares == old(folderShares) && nextFolderShareId == old(nextFolderShareId)
      // the bucket and the table are the fold of UploadFile's effect over the files
      ensures blobs == BlobsAfter(suite, old(blobs), uploads, |uploads|)
      ensures files == FilesAfter(suite, users, session.userId, ids, currentFolderId, now, old(files), uploads, |uploads|)
      ensures Stored(uploads) <= blobs.Keys
      ensures |files| >= |old(files)| && files[..|old(files)|] == old(files)
      ensures forall f :: f in files[|old(files)|..] ==>
        FromUploads(f, uploads, |uploads|, session.userId, ids, currentFolderId)
    {
      ghost var files0, blobs0 := files, blobs;
      for k := 0 to |uploads|
        invariant Valid()
        invariant users == old(users) && shares == old(shares) && nextShareId == old(nextShareId)
        invariant folders == old(folders) && nextFolderId == old(nextFolderId)
        invariant folderShares == old(folderShares) && nextFolderShareId == old(nextFolderShareId)
        invariant blobs == BlobsAfter(suite, blobs0, uploads, k)
        invariant files == FilesAfter(suite, users, session.userId, ids, currentFolderId, now, files0, uploads, k)
      {
        var u := uploads[k];
        UploadInto(suite, session, u, TargetFolder(ids, currentFolderId, u.dir), now);
      }
      UploadsReachStoredPaths(suite, blobs0, uploads);
      UploadsOnlyAppend(suite, users, session.userId, ids, currentFolderId, now, files0, uploads);
    }

    // ------------------------------------------------------------ sharing

    /** `handleShareSubmit`: the recipient is the `users` row found for the entered
        username (`recipientId`, none when the name is empty or unknown); the files are
        the selected ids among the listed rows `listed`, de-duplicated; each one's key is
        sealed for the recipient and stored with the expiry `expires`. An error thrown
        by an unwrap or a wrap ends the loop, keeping the shares made before it. */
    method ShareFiles(suite: Suite, session: Session, recipientId: Option<UserId>, listed: seq<FileRow>,
                      targetIds: seq<FileId>, expires: Option<Time>) returns (err: Option<Error>)
      requires Valid()
      modifies this
      ensures Valid()
      ensures users == old(users) && files == old(files) && blobs == old(blobs)
      ensures folders == old(folders) && nextFolderId == old(nextFolderId)
      ensures folderShares == old(folderShares) && nextFolderShareId == old(nextFolderShareId)
      ensures recipientId.None? || recipientId.value !in users ==>
        err == Some(RowMissing) && shares == old(shares) && nextShareId == old(nextShareId)
      ensures recipientId.Some? && recipientId.value in users ==>
        var o := ShareAll(suite, session, Recipient(recipientId.value, users[recipientId.value]), expires,
                          Table(old(shares), old(nextShareId)), FilesToShare(listed, targetIds));
        shares == o.table.rows && nextShareId == o.table.nextId && err == o.error
    {
      if recipientId.None? || recipientId.value !in users {
        return Some(RowMissing);
      }
      var recipient := Recipient(recipientId.value, users[recipientId.value]);
      var filesToShare := FilesToShare(listed, targetIds);
      var o := ShareLoop(suite, session, recipient, expires, Table(shares, nextShareId), filesToShare);
      ShareAllKeepsValid(suite, session, recipient, expires, Table(shares, nextShareId), filesToShare);
      shares, nextShareId := o.table.rows, o.table.nextId;
      err := o.error;
    }

    /** `handleShareFolderSubmit` and `handleShareFolder`: one `folder_shares` row for
        the folder `rootFolderId` and each folder below it, each pointing at the share
        of its parent folder, then every file in that tree shared with the recipient,
        skipping the files whose key does not unwrap or wrap. The subtree walks of the
        source are unbounded; here they go `|folders|` levels deep, which reaches every
        folder of an acyclic table. */
    method ShareFolder(suite: Suite, session: Session, rootFolderId: FolderId, recipientId: Option<UserId>,
                       expires: Option<Time>) returns (err: Option<Error>)
      requires Valid()
      modifies this
      ensures Valid()
      ensures users == old(users) && files == old(files) && blobs == old(blobs)
      ensures folders == old(folders) && nextFolderId == old(nextFolderId)
      // no recipient, or no root folder (the loop then throws on `null.parent_id`): nothing is written
      ensures recipientId.None? || recipientId.value !in users || Find(folders, Some(rootFolderId)).None? ==>
        && err == Some(RowMissing)
        && shares == old(shares) && nextShareId == old(nextShareId)
        && folderShares == old(folderShares) && nextFolderShareId == old(nextFolderShareId)
      ensures recipientId.Some? && recipientId.value in users && Find(folders, Some(rootFolderId)).Some? ==>
        var recipient := Recipient(recipientId.value, users[recipientId.value]);
        var list := [Find(folders, Some(rootFolderId)).value] + Subfolders(folders, rootFolderId, |folders|);
        var t := ShareFolderFiles(suite, session, users, recipient, expires, Table(old(shares), old(nextShareId)),
                                  FilesInTree(folders, files, rootFolderId, |folders|));
        && err.None?
        && folderShares == old(folderShares) + FolderShareRows(list, recipient.id, old(nextFolderShareId))
        && nextFolderShareId == old(nextFolderShareId) + |list|
        && shares == t.rows && nextShareId == t.nextId
    {
      if recipientId.None? || recipientId.value !in users {
        return Some(RowMissing);
      }
      var recipient := Recipient(recipientId.value, users[recipientId.value]);
      var rootFolderData := Find(folders, Some(rootFolderId));
      var subfolders := Subfolders(folders, rootFolderId, |folders|);
      if rootFolderData.None? {
        return Some(RowMissing);
      }
      var allFolders := [rootFolderData.value] + subfolders;
      var rows := FolderShareLoop(allFolders, recipient.id, nextFolderShareId);
      folderShares := folderShares + rows;
      nextFolderShareId := nextFolderShareId + |allFolders|;
      var allFiles := FilesInTree(folders, files, rootFolderId, |folders|);
      var t := FolderFilesLoop(suite, session, users, recipient, expires, Table(shares, nextShareId), allFiles);
      ShareFolderFilesKeepsValid(suite, session, users, recipient, expires, Table(shares, nextShareId), allFiles);
      shares, nextShareId := t.rows, t.nextId;
      err := None;
    }

    // ------------------------------------------------------------ deletion

    /** `handleDeleteFile` for a listed entry: a shared copy (`sharedId` set) deletes
        only its share row; the owner's file goes with all its share rows, its
        ciphertext and its row. */
    method DeleteFile(file: FileRow, sharedId: Option<ShareId>)
      requires Valid()
      modifies this
      ensures Valid()
      ensures users == old(users) && nextShareId == old(nextShareId)
      ensures folders == old(folders) && nextFolderId == old(nextFolderId)
      ensures folderShares == old(folderShares) && nextFolderShareId == old(nextFolderShareId)
      ensures sharedId.Some? ==>
        shares == DeleteById(old(shares), sharedId.value) && files == old(files) && blobs == old(blobs)
      ensures sharedId.None? ==>
        && shares == DeleteByFile(old(shares), file.fileId)
        && files == DeleteFileRow(old(files), file.fileId)
        && blobs == old(blobs) - {file.storagePath}
    {
      if sharedId.Some? {
        WhereKeepsValid(shares, (r: ShareRow) => r.id != sharedId.value, nextShareId);
        shares := DeleteById(shares, sharedId.value);
      } else {
        files, shares, blobs := DeleteFileFromDb(files, shares, nextShareId, blobs, file);
      }
    }

    /** `handleDeleteFolder`: a shared folder (`sharedId` set) deletes only its
        `folder_shares` row. Otherwise every file in the tree is deleted as the owner
        deletes a file, then the shares of the folder, then each subfolder, deepest
        listed first, with its shares, and finally the folder's own row. The subtree
        walks go `|folders|` levels deep. */
    method DeleteFolder(folderId: FolderId, sharedId: Option<nat>)
      requires Valid()
      modifies this
      ensures Valid()
      ensures users == old(users) && nextShareId == old(nextShareId)
      ensures nextFolderId == old(nextFolderId) && nextFolderShareId == old(nextFolderShareId)
      ensures sharedId.Some? ==>
        && folderShares == DeleteFolderShare(old(folderShares), sharedId.value)
        && files == old(files) && shares == old(shares) && blobs == old(blobs) && folders == old(folders)
      ensures sharedId.None? ==>
        TreeDeleted(old(folders), old(folderShares), old(files), old(shares), old(blobs),
                    folders, folderShares, files, shares, blobs, folderId)
    {
      if sharedId.Some? {
        folderShares := DeleteFolderShare(folderShares, sharedId.value);
        return;
      }
      var folders', folderShares', files', shares', blobs' :=
        DeleteTree(folders, folderShares, files, shares, nextShareId, blobs, folderId);
      folders, folderShares, files, shares, blobs := folders', folderShares', files', shares', blobs';
    }

    // ------------------------------------------------------------ expiry

    /** The share part of `loadData` for the signed-in user at `now`: their expired
        shares are deleted one by one, and the shares that are still valid are listed.
        A share expiring exactly at `now` is neither deleted nor listed. */
    method LoadShared(session: Session, now: Time) returns (listed: seq<ShareRow>)
      requires Valid()
      modifies this
      ensures Valid()
      ensures users == old(users) && files == old(files) && blobs == old(blobs) && nextShareId == old(nextShareId)
      ensures folders == old(folders) && nextFolderId == old(nextFolderId)
      ensures folderShares == old(folderShares) && nextFolderShareId == old(nextFolderShareId)
      ensures forall r :: r in shares <==> r in old(shares) && !(r.recipient == session.userId && IsExpired(r, now))
      ensures listed == Visible(SharesOf(old(shares), session.userId), now)
    {
      var sharedFilesData := SharesOf(shares, session.userId);
      var expiredShares := Expired(sharedFilesData, now);
      shares := DeleteShareIds(shares, nextShareId, ShareIdsOf(expiredShares));
      listed := Visible(sharedFilesData, now);
    }

    /** One tick of the minute timer over the listed shared files `prev`: when one has
        expired, every expired one is deleted and the list keeps only the valid ones;
        otherwise the list is kept as it is. */
    method CleanupTick(prev: seq<ShareRow>, now: Time) returns (next: seq<ShareRow>)
      requires Valid()
      modifies this
      ensures Valid()
      ensures users == old(users) && files == old(files) && blobs == old(blobs) && nextShareId == old(nextShareId)
      ensures folders == old(folders) && nextFolderId == old(nextFolderId)
      ensures folderShares == old(folderShares) && nextFolderShareId == old(nextFolderShareId)
      ensures forall r :: r in shares <==> r in old(shares) && r.id !in ShareIdsOf(Expired(prev, now))
      ensures next == if Expired(prev, now) == [] then prev else Visible(prev, now)
    {
      var expiredFileShares := Expired(prev, now);
      if |expiredFileShares| > 0 {
        shares := DeleteShareIds(shares, nextShareId, ShareIdsOf(expiredFileShares));
        return Visible(prev, now);
      }
      assert ShareIdsOf(expiredFileShares) == [];
      next := prev;
    }

    /** `handleUploadFile({ target: { files: [file] } }, targetFolderId)` as the folder
        upload calls it: the outcome is only reported, and at most the file's own row is
        added. */
    method UploadInto(suite: Suite, session: Session, u: Upload, target: Option<FolderId>, now: Time)
      requires Valid()
      modifies this
      ensures Valid()
      ensures users == old(users) && shares == old(shares) && nextShareId == old(nextShareId)
      ensures folders == old(folders) && nextFolderId == old(nextFolderId)
      ensures folderShares == old(folderShares) && nextFolderShareId == old(nextFolderShareId)
      // exactly the effect of UploadFile on the bucket and on the table
      ensures blobs == old(blobs)[StoragePath(u.fileId, u.name) := Ciphertext(suite, u)]
      ensures files == Inserted(old(files), UploadRow(suite, users, session.userId, u, target, now))
    {
      assert Ciphertext(suite, u) == EncryptFile(suite, u.content, u.draw).encryptedFile;
      var _ := UploadFile(suite, session, u.fileId, u.name, u.content, target, u.draw, now);
    }
  }

  /** A read that does not rotate: the owner unwraps the key of the row, anyone else
      unwraps the first share row of the pair unless it has expired; then the blob is
      decrypted with that key and the row's IV. */
  method ReadAsIs(suite: Suite, session: Session, file: FileRow, shares: seq<ShareRow>, encryptedBytes: seq<byte>,
                  now: Time) returns (r: Result<seq<byte>, Error>)
    ensures r == Plaintext(suite, session, file, shares, encryptedBytes, now)
  {
    var key;
    if file.ownerId == session.userId {
      key := Unwrap(suite, file.ownerKey, session);
    } else {
      match AccessRow(shares, file.fileId, session.userId, now) {
        case Err(e) => return Err(e);
        case Ok(share) => key := Unwrap(suite, share.wrappedKey, session);
      }
    }
    if key.Err? {
      return Err(key.error);
    }
    r := DecryptFile(suite, encryptedBytes, key.value, Str(file.iv));
  }

  /** The new key of a rotation and the content encrypted under it with the file's IV,
      which the owner has just used to decrypt it. */
  method Reencrypt(suite: Suite, file: FileRow, decrypted: seq<byte>, draw: nat) returns (newFileKey: string, newEncrypted: seq<byte>)
    requires ForgivingDecode(file.iv).Some?
    ensures newFileKey == NewKey(suite, draw)
    ensures newEncrypted == RotatedBlob(suite, draw, file, decrypted)
  {
    var newFileKeyBytes := suite.random(draw, KEY_BYTES);
    HelpersRoundTrip(newFileKeyBytes);
    newFileKey := Btoa(BinaryString(newFileKeyBytes)).value;
    var ivBytes := Base64ToUint8Array(file.iv);
    if ivBytes.Err? {
      assert false;
      return newFileKey, [];
    }
    newEncrypted := suite.aesEncrypt(newFileKeyBytes, ivBytes.value[..], decrypted);
  }

  /** What a rotating read leaves behind, from the tables `files0`, `shares0` and the
      bucket `blobs0` before it to `files1`, `shares1`, `blobs1` after it. The old key is
      unwrapped and the old ciphertext decrypted; either failing ends the read with
      nothing changed. Otherwise the content is re-encrypted under the new key and the
      same IV and uploaded; then the new key is wrapped for the owner (a failure ends the
      read after the upload), the owner's row takes the new key and the time, and the
      share rows of the file are re-wrapped until one fails. */
  ghost predicate RotationEffect(suite: Suite, session: Session, users: map<UserId, JsValue>, file: FileRow, now: Time,
                                 draw: nat, files0: seq<FileRow>, shares0: seq<ShareRow>, blobs0: map<string, seq<byte>>,
                                 files1: seq<FileRow>, shares1: seq<ShareRow>, blobs1: map<string, seq<byte>>,
                                 r: Result<seq<byte>, Error>)
    requires file.storagePath in blobs0
  {
    var key := Unwrap(suite, file.ownerKey, session);
    var plain := if key.Err? then Err(key.error) else DecryptFile(suite, blobs0[file.storagePath], key.value, Str(file.iv));
    if plain.Err? then
      r == Err(plain.error) && files1 == files0 && shares1 == shares0 && blobs1 == blobs0
    else
      Installed(suite, session, users, file, now, NewKey(suite, draw), RotatedBlob(suite, draw, file, plain.value),
                files0, shares0, blobs0, files1, shares1, blobs1, r)
  }

  /** The steps of `Store.Install` on the tables as values. */
  method InstallRows(suite: Suite, session: Session, users: map<UserId, JsValue>, file: FileRow, now: Time,
                     newFileKey: string, newEncrypted: seq<byte>,
                     files0: seq<FileRow>, shares0: seq<ShareRow>, nextShareId: ShareId, blobs0: map<string, seq<byte>>)
    returns (files: seq<FileRow>, shares: seq<ShareRow>, blobs: map<string, seq<byte>>, r: Result<seq<byte>, Error>)
    requires ShareTable.Valid(shares0, nextShareId)
    ensures ShareTable.Valid(shares, nextShareId)
    ensures Installed(suite, session, users, file, now, newFileKey, newEncrypted, files0, shares0, blobs0,
                      files, shares, blobs, r)
  {
    files, shares := files0, shares0;
    blobs := blobs0[file.storagePath := newEncrypted];
    var encryptedFileKeyOwner := EncryptFileKeyForUser(suite, Str(newFileKey), session.publicKey);
    if encryptedFileKeyOwner.Err? {
      return files, shares, blobs, Err(encryptedFileKeyOwner.error);
    }
    files := SetOwnerKey(files0, file.fileId, encryptedFileKeyOwner.value, now);
    var sel := RowsOfFile(shares0, file.fileId);
    var rows, err := RewrapLoop(suite, users, newFileKey, shares0, file.fileId, now);
    RewrapKeepsValid(suite, users, newFileKey, now, shares0,
                     IdsOf(sel[..FirstFailure(suite, users, newFileKey, sel)]), nextShareId);
    shares := rows;
    if err.Some? {
      return files, shares, blobs, Err(err.value);
    }
    r := DecryptFile(suite, newEncrypted, newFileKey, Str(file.iv));
  }

  ghost predicate Installed(suite: Suite, session: Session, users: map<UserId, JsValue>, file: FileRow, now: Time,
                            newKey: string, newBlob: seq<byte>,
                            files0: seq<FileRow>, shares0: seq<ShareRow>, blobs0: map<string, seq<byte>>,
                            files1: seq<FileRow>, shares1: seq<ShareRow>, blobs1: map<string, seq<byte>>,
                            r: Result<seq<byte>, Error>)
  {
    && blobs1 == blobs0[file.storagePath := newBlob]
    && match EncryptFileKeyForUser(suite, Str(newKey), session.publicKey)
       case Err(e) => r == Err(e) && files1 == files0 && shares1 == shares0
       case Ok(wrapped) =>
         var sel := RowsOfFile(shares0, file.fileId);
         var k := FirstFailure(suite, users, newKey, sel);
         && files1 == SetOwnerKey(files0, file.fileId, wrapped, now)
         && shares1 == Rewrapped(suite, users, newKey, now, shares0, IdsOf(sel[..k]))
         && r == if k < |sel| then Err(WrapFor(suite, users, newKey, sel[k]).error)
                 else DecryptFile(suite, newBlob, newKey, Str(file.iv))
  }

  /** A rotating read that succeeds returns what the file held before the rotation: the
      new ciphertext decrypts, under the new key and the unchanged IV, to the content the
      old key opened. */
  lemma RotationKeepsContent(suite: Suite, session: Session, users: map<UserId, JsValue>, file: FileRow, now: Time,
                             draw: nat, files0: seq<FileRow>, shares0: seq<ShareRow>, blobs0: map<string, seq<byte>>,
                             files1: seq<FileRow>, shares1: seq<ShareRow>, blobs1: map<string, seq<byte>>,
                             r: Result<seq<byte>, Error>)
    requires Lawful(suite) && file.storagePath in blobs0 && file.ownerId == session.userId
    requires RotationEffect(suite, session, users, file, now, draw, files0, shares0, blobs0, files1, shares1, blobs1, r)
    requires r.Ok?
    ensures r == Plaintext(suite, session, file, shares0, blobs0[file.storagePath], now)
  {
    var key := Unwrap(suite, file.ownerKey, session).value;
    var plain := DecryptFile(suite, blobs0[file.storagePath], key, Str(file.iv)).value;
    RotationSucceeded(suite, session, users, file, now, draw, files0, shares0, blobs0, files1, shares1, blobs1, r);
    RotatedBlobDecrypts(suite, draw, file, plain);
  }

  /** A rotating read ends well only when the old key opened the old ciphertext and the
      result is the new ciphertext read with the new key. */
  lemma RotationSucceeded(suite: Suite, session: Session, users: map<UserId, JsValue>, file: FileRow, now: Time,
                          draw: nat, files0: seq<FileRow>, shares0: seq<ShareRow>, blobs0: map<string, seq<byte>>,
                          files1: seq<FileRow>, shares1: seq<ShareRow>, blobs1: map<string, seq<byte>>,
                          r: Result<seq<byte>, Error>)
    requires file.storagePath in blobs0 && file.ownerId == session.userId
    requires RotationEffect(suite, session, users, file, now, draw, files0, shares0, blobs0, files1, shares1, blobs1, r)
    requires r.Ok?
    ensures Unwrap(suite, file.ownerKey, session).Ok?
    ensures var plain := DecryptFile(suite, blobs0[file.storagePath], Unwrap(suite, file.ownerKey, session).value, Str(file.iv));
            && plain.Ok?
            && Plaintext(suite, session, file, shares0, blobs0[file.storagePath], now) == plain
            && file.iv != "" && ForgivingDecode(file.iv).Some?
            && r == DecryptFile(suite, RotatedBlob(suite, draw, file, plain.value), NewKey(suite, draw), Str(file.iv))
  {
    var key := Unwrap(suite, file.ownerKey, session);
    assert key.Ok?;
    var plain := DecryptFile(suite, blobs0[file.storagePath], key.value, Str(file.iv));
    assert plain.Ok?;
    var wrapped := EncryptFileKeyForUser(suite, Str(NewKey(suite, draw)), session.publicKey);
    assert wrapped.Ok?;
  }

  /** A second read from the same stale row, as the page does after a rotation since it
      keeps the row it loaded: the row still carries the old key and the old time, so
      the read rotates again, unwraps the old key and fails authentication on the new
      ciphertext, changing nothing. */
  lemma StaleRowRereadFails(suite: Suite, session: Session, users: map<UserId, JsValue>, file: FileRow, now: Time,
                            draw: nat, files0: seq<FileRow>, shares0: seq<ShareRow>, blobs0: map<string, seq<byte>>,
                            files1: seq<FileRow>, shares1: seq<ShareRow>, blobs1: map<string, seq<byte>>,
                            r: Result<seq<byte>, Error>, oldKey: seq<byte>, later: Time, draw2: nat,
                            files2: seq<FileRow>, shares2: seq<ShareRow>, blobs2: map<string, seq<byte>>,
                            r2: Result<seq<byte>, Error>)
    requires Lawful(suite) && file.storagePath in blobs0 && file.ownerId == session.userId && NeedRotate(file, now)
    requires RotationEffect(suite, session, users, file, now, draw, files0, shares0, blobs0, files1, shares1, blobs1, r)
    requires r.Ok?
    // the old key is a 32-byte key other than the one the rotation drew
    requires Unwrap(suite, file.ownerKey, session) == Ok(EncodeStd(oldKey))
    requires |oldKey| == KEY_BYTES && oldKey != NewKeyBytes(suite, draw)
    requires later >= now && file.storagePath in blobs1
    requires RotationEffect(suite, session, users, file, later, draw2, files1, shares1, blobs1, files2, shares2, blobs2, r2)
    ensures NeedRotate(file, later)
    ensures r2 == Err(AuthenticationFailure) && files2 == files1 && shares2 == shares1 && blobs2 == blobs1
  {
    RotationSucceeded(suite, session, users, file, now, draw, files0, shares0, blobs0, files1, shares1, blobs1, r);
    var plain := DecryptFile(suite, blobs0[file.storagePath], EncodeStd(oldKey), Str(file.iv)).value;
    assert blobs1[file.storagePath] == RotatedBlob(suite, draw, file, plain);
    HelpersRoundTrip(oldKey);
    RotatedBlobRejectsOtherKey(suite, draw, file, plain, EncodeStd(oldKey));
  }

  /** Reading the row the rotation wrote instead: it unwraps to the new key, reads back
      the same content, and is not due for rotation for an hour. */
  lemma FreshRowRereads(suite: Suite, session: Session, sk: seq<byte>, users: map<UserId, JsValue>, file: FileRow,
                        now: Time, draw: nat, files0: seq<FileRow>, shares0: seq<ShareRow>, blobs0: map<string, seq<byte>>,
                        files1: seq<FileRow>, shares1: seq<ShareRow>, blobs1: map<string, seq<byte>>,
                        r: Result<seq<byte>, Error>, i: nat, later: Time)
    requires Lawful(suite) && HoldsKeyPair(suite, session, sk)
    requires file.storagePath in blobs0 && file.ownerId == session.userId
    requires RotationEffect(suite, session, users, file, now, draw, files0, shares0, blobs0, files1, shares1, blobs1, r)
    requires r.Ok? && i < |files0| && files0[i] == file
    ensures i < |files1| && file.storagePath in blobs1
    ensures Plaintext(suite, session, files1[i], shares1, blobs1[file.storagePath], later) == r
    ensures NeedRotate(files1[i], later) <==> later > now + ROTATE_AFTER
  {
    RotationSucceeded(suite, session, users, file, now, draw, files0, shares0, blobs0, files1, shares1, blobs1, r);
    var plain := DecryptFile(suite, blobs0[file.storagePath], Unwrap(suite, file.ownerKey, session).value, Str(file.iv)).value;
    RotatedOwnerRowReads(suite, draw, session, sk, file, shares1, plain, now, later);
    var wrapped := EncryptFileKeyForUser(suite, Str(NewKey(suite, draw)), session.publicKey).value;
    assert files1 == SetOwnerKey(files0, file.fileId, wrapped, now);
    assert files1[i] == file.(ownerKey := wrapped, updatedAt := Some(now));
    RotatedBlobDecrypts(suite, draw, file, plain);
  }

  /** The first row of `files` with the id. */
  function FileById(files: seq<FileRow>, fileId: FileId): (r: Option<FileRow>)
    ensures r.Some? ==> r.value in files && r.value.fileId == fileId
    ensures r.None? <==> forall f :: f in files ==> f.fileId != fileId
  {
    if files == [] then None
    else if files[0].fileId == fileId then Some(files[0])
    else FileById(files[1..], fileId)
  }

  /** An upload reads back: the owner, holding the key pair whose public key the
      `users` row lists, unwraps the stored key and decrypts the stored ciphertext to
      the uploaded content, at any later time before the key is rotated. */
  lemma OwnerReadsUpload(suite: Suite, session: Session, sk: seq<byte>, fileId: FileId, name: string,
                         plain: seq<byte>, folderId: Option<FolderId>, draw: nat, at: Time,
                         shares: seq<ShareRow>, later: Time)
    requires Lawful(suite) && HoldsKeyPair(suite, session, sk)
    ensures var e := EncryptFile(suite, plain, draw);
            && EncryptFileKeyForUser(suite, Str(e.fileKey), session.publicKey).Ok?
            && var row := FileRow(fileId, session.userId, folderId, StoragePath(fileId, name),
                                  EncryptFileKeyForUser(suite, Str(e.fileKey), session.publicKey).value, e.iv, at, None);
               Plaintext(suite, session, row, shares, e.encryptedFile, later) == Ok(plain)
  {
    var e := EncryptFile(suite, plain, draw);
    var keyBytes := suite.random(draw, KEY_BYTES);
    assert |keyBytes| == KEY_BYTES;
    UnwrapOwnWrap(suite, session, sk, keyBytes);
    DecryptAfterEncrypt(suite, plain, draw);
  }

  /** The folder ids handed out to the first `k` directories of the creation order. */
  function IdsUpTo(sorted: seq<Path>, base: FolderId, k: nat): (ids: map<Path, FolderId>)
    requires k <= |sorted|
  {
    if k == 0 then map[] else IdsUpTo(sorted, base, k - 1)[sorted[k - 1] := base + k - 1]
  }

  /** With no path repeated, the `j`-th directory has folder id `base + j`. */
  lemma {:induction false} IdsUpToLookup(sorted: seq<Path>, base: FolderId, k: nat, j: nat)
    requires Distinct(sorted) && j < k <= |sorted|
    ensures sorted[j] in IdsUpTo(sorted, base, k) && IdsUpTo(sorted, base, k)[sorted[j]] == base + j
  {
    if j < k - 1 {
      IdsUpToLookup(sorted, base, k - 1, j);
    }
  }

  /** The enclosing directory of the `j`-th directory is in the list as well. */
  ghost predicate ParentListed(sorted: seq<Path>, j: nat)
    requires j < |sorted|
  {
    |sorted[j]| > 1 ==> Parent(sorted[j]) in sorted
  }

  /** `row` is the folder row created for the `j`-th directory: the next id, the last
      segment as the name, and as parent the folder created earlier for the enclosing
      directory, or the folder the upload started in for a top directory. */
  ghost predicate CreatedFor(row: FolderRow, sorted: seq<Path>, j: nat, owner: UserId,
                             currentFolderId: Option<FolderId>, base: FolderId)
    requires j < |sorted| && |sorted[j]| > 0
  {
    row.folderId == base + j && row.ownerId == owner && row.name == sorted[j][|sorted[j]| - 1] &&
    (|sorted[j]| == 1 ==> row.parentId == currentFolderId) &&
    (|sorted[j]| > 1 ==> exists i :: 0 <= i < j && sorted[i] == Parent(sorted[j]) && row.parentId == Some(base + i))
  }

  /** The second loop of handleUploadFolder, on the rows it inserts: one folder row per
      directory, in creation order, each linked to the folder of its enclosing
      directory. */
  method AssignFolderIds(owner: UserId, sorted: seq<Path>, structure: map<Path, Entry>,
                         currentFolderId: Option<FolderId>, base: FolderId)
    returns (ids: map<Path, FolderId>, created: seq<FolderRow>)
    requires ByDepth(sorted) && Distinct(sorted)
    requires forall j :: 0 <= j < |sorted| ==>
      sorted[j] in structure && |sorted[j]| > 0 && structure[sorted[j]] == Fresh(sorted[j])
    requires forall j :: 0 <= j < |sorted| ==> ParentListed(sorted, j)
    ensures ids == IdsUpTo(sorted, base, |sorted|)
    ensures |created| == |sorted|
    ensures forall j :: 0 <= j < |sorted| ==> CreatedFor(created[j], sorted, j, owner, currentFolderId, base)
  {
    ids := map[];
    created := [];
    for k := 0 to |sorted|
      invariant ids == IdsUpTo(sorted, base, k)
      invariant |created| == k
      invariant forall j :: 0 <= j < k ==> CreatedFor(created[j], sorted, j, owner, currentFolderId, base)
    {
      var path := sorted[k];
      var row := NextFolder(owner, sorted, k, structure[path], ids, currentFolderId, base);
      created := created + [row];
      ids := ids[path := base + k];
    }
  }

  /** One step of that loop: the row for the `k`-th directory, its parent looked up
      among the ids handed out so far. */
  method NextFolder(owner: UserId, sorted: seq<Path>, k: nat, folder: Entry, ids: map<Path, FolderId>,
                    currentFolderId: Option<FolderId>, base: FolderId)
    returns (row: FolderRow)
    requires ByDepth(sorted) && Distinct(sorted) && k < |sorted| && |sorted[k]| > 0
    requires folder == Fresh(sorted[k]) && ParentListed(sorted, k) && ids == IdsUpTo(sorted, base, k)
    ensures CreatedFor(row, sorted, k, owner, currentFolderId, base)
  {
    var parentFolderId;
    if folder.parentPath != [] {
      ParentCreatedFirst(sorted, k);
      var i :| 0 <= i < k && sorted[i] == Parent(sorted[k]);
      IdsUpToLookup(sorted, base, k, i);
      parentFolderId := Some(ids[folder.parentPath]);
      assert parentFolderId == Some(base + i);
    } else {
      parentFolderId := currentFolderId;
    }
    row := FolderRow(base + k, folder.name, parentFolderId, owner);
  }

  /** One file of a folder upload: its directory below the chosen folder, its name,
      content and the file id and random draw its upload uses. */
  datatype Upload = Upload(dir: Path, name: string, content: seq<byte>, fileId: FileId, draw: nat)

  /** The storage paths of the files. */
  ghost function Stored(uploads: seq<Upload>): set<string>
  {
    set j | 0 <= j < |uploads| :: StoragePath(uploads[j].fileId, uploads[j].name)
  }

  function Dirs(uploads: seq<Upload>): (dirs: seq<Path>)
    ensures |dirs| == |uploads| && forall k :: 0 <= k < |uploads| ==> dirs[k] == uploads[k].dir
  {
    if uploads == [] then [] else [uploads[0].dir] + Dirs(uploads[1..])
  }

  /** `targetFolderId`: the folder created for the file's directory, or the folder the
      upload started in for a file at the top. */
  function TargetFolder(ids: map<Path, FolderId>, currentFolderId: Option<FolderId>, dir: Path): Option<FolderId>
    requires dir == [] || dir in ids
  {
    if dir == [] then currentFolderId else Some(ids[dir])
  }

  /** `f` is the row the upload of one of the first `k` files inserted, in the folder of
      its directory. */
  ghost predicate FromUploads(f: FileRow, uploads: seq<Upload>, k: nat, owner: UserId,
                              ids: map<Path, FolderId>, currentFolderId: Option<FolderId>)
    requires k <= |uploads|
  {
    exists m :: 0 <= m < k && (uploads[m].dir == [] || uploads[m].dir in ids) &&
      f.fileId == uploads[m].fileId && f.ownerId == owner &&
      f.storagePath == StoragePath(uploads[m].fileId, uploads[m].name) &&
      f.folderId == TargetFolder(ids, currentFolderId, uploads[m].dir)
  }

  /** The row `handleUploadFile` builds for `u` in `target`: none when the owner has no
      `users` row or the fresh file key does not wrap for the owner's public key. */
  function UploadRow(suite: Suite, users: map<UserId, JsValue>, owner: UserId, u: Upload,
                     target: Option<FolderId>, now: Time): (r: Option<FileRow>)
    ensures r.Some? ==>
      r.value.fileId == u.fileId && r.value.ownerId == owner && r.value.folderId == target &&
      r.value.storagePath == StoragePath(u.fileId, u.name)
  {
    if owner !in users then None
    else
      var e := EncryptFile(suite, u.content, u.draw);
      match EncryptFileKeyForUser(suite, Str(e.fileKey), users[owner])
      case Err(_) => None
      case Ok(wrapped) => Some(FileRow(u.fileId, owner, target, StoragePath(u.fileId, u.name), wrapped, e.iv, now, None))
  }

  /** The `files` table after inserting `row`: unchanged when there is no row or its id
      is already taken. */
  function Inserted(files: seq<FileRow>, row: Option<FileRow>): seq<FileRow>
  {
    if row.Some? && FileById(files, row.value.fileId).None? then files + [row.value] else files
  }

  /** The `files` table after inserting `rows` in turn. */
  function InsertAll(files: seq<FileRow>, rows: seq<Option<FileRow>>): seq<FileRow>
  {
    if rows == [] then files else Inserted(InsertAll(files, rows[..|rows| - 1]), rows[|rows| - 1])
  }

  /** What the upload of `u` stores: its content under AES-GCM with the fresh key and IV
      its draws give, the `encryptedFile` that EncryptFile returns. */
  function Ciphertext(suite: Suite, u: Upload): seq<byte>
  {
    suite.aesEncrypt(suite.random(u.draw, KEY_BYTES), suite.random(u.draw + 1, IV_BYTES), u.content)
  }

  /** The bucket after storing `writes` in turn, each a storage path and its bytes. */
  function PutAll(blobs: map<string, seq<byte>>, writes: seq<(string, seq<byte>)>): map<string, seq<byte>>
  {
    if writes == [] then blobs
    else PutAll(blobs, writes[..|writes| - 1])[writes[|writes| - 1].0 := writes[|writes| - 1].1]
  }

  /** What each file of a folder upload stores: its ciphertext under its storage path. */
  function UploadWrites(suite: Suite, uploads: seq<Upload>): (writes: seq<(string, seq<byte>)>)
    ensures |writes| == |uploads|
    ensures forall j :: 0 <= j < |uploads| ==>
      writes[j] == (StoragePath(uploads[j].fileId, uploads[j].name),
                    Ciphertext(suite, uploads[j]))
  {
    seq(|uploads|, j requires 0 <= j < |uploads| =>
      (StoragePath(uploads[j].fileId, uploads[j].name), Ciphertext(suite, uploads[j])))
  }

  /** The bucket after the uploads of the first `k` files: their writes stored in turn. */
  function BlobsAfter(suite: Suite, blobs: map<string, seq<byte>>, uploads: seq<Upload>, k: nat): map<string, seq<byte>>
    requires k <= |uploads|
  {
    if k == 0 then blobs
    else
      var u := uploads[k - 1];
      BlobsAfter(suite, blobs, uploads, k - 1)[StoragePath(u.fileId, u.name) := Ciphertext(suite, u)]
  }

  lemma {:induction false} BlobsAfterPutsWrites(suite: Suite, blobs: map<string, seq<byte>>, uploads: seq<Upload>, k: nat)
    requires k <= |uploads|
    ensures BlobsAfter(suite, blobs, uploads, k) == PutAll(blobs, UploadWrites(suite, uploads)[..k])
  {
    if k > 0 {
      BlobsAfterPutsWrites(suite, blobs, uploads, k - 1);
      PutAllStep(blobs, UploadWrites(suite, uploads), k);
    }
  }

  lemma PutAllStep(blobs: map<string, seq<byte>>, writes: seq<(string, seq<byte>)>, k: nat)
    requires 0 < k <= |writes|
    ensures PutAll(blobs, writes[..k]) == PutAll(blobs, writes[..k - 1])[writes[k - 1].0 := writes[k - 1].1]
  {
    assert writes[..k][..k - 1] == writes[..k - 1];
  }

  /** The row each file of a folder upload builds, in the folder of its directory. */
  function UploadRows(suite: Suite, users: map<UserId, JsValue>, owner: UserId, ids: map<Path, FolderId>,
                      currentFolderId: Option<FolderId>, now: Time, uploads: seq<Upload>): (rows: seq<Option<FileRow>>)
    requires forall j :: 0 <= j < |uploads| ==> uploads[j].dir == [] || uploads[j].dir in ids
    ensures |rows| == |uploads|
    ensures forall j :: 0 <= j < |uploads| ==>
      rows[j] == UploadRow(suite, users, owner, uploads[j], TargetFolder(ids, currentFolderId, uploads[j].dir), now)
  {
    seq(|uploads|, j requires 0 <= j < |uploads| =>
      UploadRow(suite, users, owner, uploads[j], TargetFolder(ids, currentFolderId, uploads[j].dir), now))
  }

  /** The `files` table after the uploads of the first `k` files, each into the folder
      of its directory: the rows of those files inserted in turn. */
  function FilesAfter(suite: Suite, users: map<UserId, JsValue>, owner: UserId, ids: map<Path, FolderId>,
                      currentFolderId: Option<FolderId>, now: Time, files: seq<FileRow>, uploads: seq<Upload>,
                      k: nat): (r: seq<FileRow>)
    requires k <= |uploads|
    requires forall j :: 0 <= j < |uploads| ==> uploads[j].dir == [] || uploads[j].dir in ids
    ensures r == InsertAll(files, UploadRows(suite, users, owner, ids, currentFolderId, now, uploads)[..k])
  {
    if k == 0 then files
    else
      var u := uploads[k - 1];
      var rows := UploadRows(suite, users, owner, ids, currentFolderId, now, uploads);
      assert rows[..k][..k - 1] == rows[..k - 1];
      Inserted(FilesAfter(suite, users, owner, ids, currentFolderId, now, files, uploads, k - 1),
               UploadRow(suite, users, owner, u, TargetFolder(ids, currentFolderId, u.dir), now))
  }

  /** Every path written is in the bucket afterwards. */
  lemma {:induction false} PutAllHas(blobs: map<string, seq<byte>>, writes: seq<(string, seq<byte>)>, j: nat)
    requires j < |writes|
    ensures writes[j].0 in PutAll(blobs, writes)
  {
    if j < |writes| - 1 {
      PutAllHas(blobs, writes[..|writes| - 1], j);
    }
  }

  /** Every object in the bucket afterwards was there before or was written. */
  lemma {:induction false} PutAllOnly(blobs: map<string, seq<byte>>, writes: seq<(string, seq<byte>)>, p: string)
    requires p in PutAll(blobs, writes)
    ensures p in blobs || exists j :: 0 <= j < |writes| && writes[j].0 == p
  {
    if writes != [] && p != writes[|writes| - 1].0 {
      var rest := writes[..|writes| - 1];
      PutAllOnly(blobs, rest, p);
      if p !in blobs {
        var j :| 0 <= j < |rest| && rest[j].0 == p;
        assert writes[j].0 == p;
      }
    }
  }

  /** An object no write touches keeps its bytes. */
  lemma {:induction false} PutAllKeeps(blobs: map<string, seq<byte>>, writes: seq<(string, seq<byte>)>, p: string)
    requires p in blobs && forall j :: 0 <= j < |writes| ==> writes[j].0 != p
    ensures p in PutAll(blobs, writes) && PutAll(blobs, writes)[p] == blobs[p]
  {
    if writes != [] {
      PutAllKeeps(blobs, writes[..|writes| - 1], p);
    }
  }

  /** A path holds the bytes of its last write. */
  lemma {:induction false} PutAllLastWrite(blobs: map<string, seq<byte>>, writes: seq<(string, seq<byte>)>, j: nat)
    requires j < |writes| && forall i :: j < i < |writes| ==> writes[i].0 != writes[j].0
    ensures writes[j].0 in PutAll(blobs, writes) && PutAll(blobs, writes)[writes[j].0] == writes[j].1
  {
    if j < |writes| - 1 {
      PutAllLastWrite(blobs, writes[..|writes| - 1], j);
    }
  }

  /** After a folder upload every file's storage path is in the bucket. */
  lemma UploadsReachStoredPaths(suite: Suite, blobs: map<string, seq<byte>>, uploads: seq<Upload>)
    ensures Stored(uploads) <= BlobsAfter(suite, blobs, uploads, |uploads|).Keys
  {
    var writes := UploadWrites(suite, uploads);
    assert writes[..|uploads|] == writes;
    BlobsAfterPutsWrites(suite, blobs, uploads, |uploads|);
    forall p | p in Stored(uploads) ensures p in PutAll(blobs, writes) {
      var j :| 0 <= j < |uploads| && StoragePath(uploads[j].fileId, uploads[j].name) == p;
      PutAllHas(blobs, writes, j);
    }
  }

  /** A folder upload writes nothing but the files' storage paths: every object in the
      bucket afterwards was there before or is one of those paths. */
  lemma UploadsWriteOnlyTheirPaths(suite: Suite, blobs: map<string, seq<byte>>, uploads: seq<Upload>, p: string)
    requires p in BlobsAfter(suite, blobs, uploads, |uploads|)
    ensures p in blobs || p in Stored(uploads)
  {
    var writes := UploadWrites(suite, uploads);
    assert writes[..|uploads|] == writes;
    BlobsAfterPutsWrites(suite, blobs, uploads, |uploads|);
    PutAllOnly(blobs, writes, p);
    if p !in blobs {
      var j :| 0 <= j < |writes| && writes[j].0 == p;
      assert StoragePath(uploads[j].fileId, uploads[j].name) == p;
    }
  }

  /** An object that none of the files writes keeps its bytes. */
  lemma UploadsKeepOtherBlobs(suite: Suite, blobs: map<string, seq<byte>>, uploads: seq<Upload>, p: string)
    requires p in blobs && p !in Stored(uploads)
    ensures p in BlobsAfter(suite, blobs, uploads, |uploads|)
    ensures BlobsAfter(suite, blobs, uploads, |uploads|)[p] == blobs[p]
  {
    var writes := UploadWrites(suite, uploads);
    assert writes[..|uploads|] == writes;
    BlobsAfterPutsWrites(suite, blobs, uploads, |uploads|);
    forall j | 0 <= j < |writes| ensures writes[j].0 != p {
      assert StoragePath(uploads[j].fileId, uploads[j].name) in Stored(uploads);
    }
    PutAllKeeps(blobs, writes, p);
  }

  /** File `j`'s storage path holds file `j`'s ciphertext, unless a later file writes
      the same path. */
  lemma UploadsStoreCiphertexts(suite: Suite, blobs: map<string, seq<byte>>, uploads: seq<Upload>, j: nat)
    requires j < |uploads|
    requires forall i :: j < i < |uploads| ==>
      StoragePath(uploads[i].fileId, uploads[i].name) != StoragePath(uploads[j].fileId, uploads[j].name)
    ensures StoragePath(uploads[j].fileId, uploads[j].name) in BlobsAfter(suite, blobs, uploads, |uploads|)
    ensures BlobsAfter(suite, blobs, uploads, |uploads|)[StoragePath(uploads[j].fileId, uploads[j].name)] ==
      Ciphertext(suite, uploads[j])
  {
    var writes := UploadWrites(suite, uploads);
    assert writes[..|uploads|] == writes;
    BlobsAfterPutsWrites(suite, blobs, uploads, |uploads|);
    PutAllLastWrite(blobs, writes, j);
  }

  /** Inserting rows keeps the table's rows and appends only rows among `rows`. */
  lemma {:induction false} InsertAllAppends(files: seq<FileRow>, rows: seq<Option<FileRow>>)
    ensures var after := InsertAll(files, rows);
      |after| >= |files| && after[..|files|] == files &&
      forall f :: f in after[|files|..] ==> Some(f) in rows
  {
    if rows != [] {
      var rest := rows[..|rows| - 1];
      InsertAllAppends(files, rest);
      var before := InsertAll(files, rest);
      var after := InsertAll(files, rows);
      if after != before {
        assert after == before + [rows[|rows| - 1].value];
        assert after[..|files|] == before[..|files|];
        assert after[|files|..] == before[|files|..] + [rows[|rows| - 1].value];
      }
      forall f | f in after[|files|..] ensures Some(f) in rows {
        if f in before[|files|..] {
          assert Some(f) in rest;
        } else {
          assert rows[|rows| - 1] == Some(f);
        }
      }
    }
  }

  /** A row whose id is new to the table and to the rows before it is inserted. */
  lemma {:induction false} InsertAllAdds(files: seq<FileRow>, rows: seq<Option<FileRow>>, j: nat)
    requires j < |rows| && rows[j].Some? && FileById(files, rows[j].value.fileId).None?
    requires forall i :: 0 <= i < j && rows[i].Some? ==> rows[i].value.fileId != rows[j].value.fileId
    ensures rows[j].value in InsertAll(files, rows)
  {
    var rest := rows[..|rows| - 1];
    if j == |rows| - 1 {
      InsertAllAppends(files, rest);
      var before := InsertAll(files, rest);
      forall f | f in before ensures f.fileId != rows[j].value.fileId {
        var i :| 0 <= i < |before| && before[i] == f;
        if i < |files| {
          assert f == before[..|files|][i];
        } else {
          assert f == before[|files|..][i - |files|];
          var m :| 0 <= m < |rest| && rest[m] == Some(f);
        }
      }
    } else {
      InsertAllAdds(files, rest, j);
      InsertAllAppends(InsertAll(files, rest), rows[|rows| - 1..]);
    }
  }

  /** A folder upload keeps the rows it found and appends only rows of its own files,
      each in the folder of its directory. */
  lemma UploadsOnlyAppend(suite: Suite, users: map<UserId, JsValue>, owner: UserId, ids: map<Path, FolderId>,
                          currentFolderId: Option<FolderId>, now: Time, files: seq<FileRow>, uploads: seq<Upload>)
    requires forall j :: 0 <= j < |uploads| ==> uploads[j].dir == [] || uploads[j].dir in ids
    ensures var after := FilesAfter(suite, users, owner, ids, currentFolderId, now, files, uploads, |uploads|);
      |after| >= |files| && after[..|files|] == files &&
      forall f :: f in after[|files|..] ==> FromUploads(f, uploads, |uploads|, owner, ids, currentFolderId)
  {
    var rows := UploadRows(suite, users, owner, ids, currentFolderId, now, uploads);
    assert rows[..|uploads|] == rows;
    InsertAllAppends(files, rows);
    forall f | f in InsertAll(files, rows)[|files|..] ensures FromUploads(f, uploads, |uploads|, owner, ids, currentFolderId) {
      assert Some(f) in rows;
      var m :| 0 <= m < |uploads| && rows[m] == Some(f);
      assert f == UploadRow(suite, users, owner, uploads[m], TargetFolder(ids, currentFolderId, uploads[m].dir), now).value;
    }
  }

  /** A file whose owner has a `users` row, whose key wraps for the owner and whose id
      is new to the table and to the files before it gets its row. */
  lemma UploadsAddRows(suite: Suite, users: map<UserId, JsValue>, owner: UserId, ids: map<Path, FolderId>,
                       currentFolderId: Option<FolderId>, now: Time, files: seq<FileRow>, uploads: seq<Upload>, j: nat)
    requires j < |uploads|
    requires forall i :: 0 <= i < |uploads| ==> uploads[i].dir == [] || uploads[i].dir in ids
    requires owner in users
    requires EncryptFileKeyForUser(suite, Str(EncryptFile(suite, uploads[j].content, uploads[j].draw).fileKey),
                                   users[owner]).Ok?
    requires FileById(files, uploads[j].fileId).None?
    requires forall i :: 0 <= i < j ==> uploads[i].fileId != uploads[j].fileId
    ensures UploadRow(suite, users, owner, uploads[j], TargetFolder(ids, currentFolderId, uploads[j].dir), now).Some?
    ensures UploadRow(suite, users, owner, uploads[j], TargetFolder(ids, currentFolderId, uploads[j].dir), now).value
      in FilesAfter(suite, users, owner, ids, currentFolderId, now, files, uploads, |uploads|)
  {
    var rows := UploadRows(suite, users, owner, ids, currentFolderId, now, uploads);
    assert rows[..|uploads|] == rows;
    InsertAllAdds(files, rows, j);
  }

  /** `rows` holds the folder created for directory `p`: the id `ids` gives it, its last
      segment as the name, and as parent the folder of its enclosing directory, or the
      folder the upload started in for a top directory. */
  ghost predicate FolderMade(rows: seq<FolderRow>, ids: map<Path, FolderId>, p: Path, owner: UserId,
                             currentFolderId: Option<FolderId>)
  {
    && |p| > 0 && p in ids && (|p| > 1 ==> Parent(p) in ids)
    && FolderRow(ids[p], p[|p| - 1], if |p| > 1 then Some(ids[Parent(p)]) else currentFolderId, owner) in rows
  }

  /** `f` is the folder row created for directory `p`: the id `ids` gives it, its last
      segment as the name, and as parent the folder of its enclosing directory, or the
      folder the upload started in for a top directory. */
  ghost predicate RowFor(f: FolderRow, ids: map<Path, FolderId>, p: Path, owner: UserId,
                         currentFolderId: Option<FolderId>)
  {
    && |p| > 0 && p in ids && (|p| > 1 ==> Parent(p) in ids)
    && f == FolderRow(ids[p], p[|p| - 1], if |p| > 1 then Some(ids[Parent(p)]) else currentFolderId, owner)
  }

  /** With no path repeated, the first `k` directories get `k` ids. */
  lemma {:induction false} IdsUpToSize(sorted: seq<Path>, base: FolderId, k: nat)
    requires Distinct(sorted) && k <= |sorted|
    ensures |IdsUpTo(sorted, base, k)| == k
  {
    if k > 0 {
      IdsUpToSize(sorted, base, k - 1);
      if sorted[k - 1] in IdsUpTo(sorted, base, k - 1) {
        IdsUpToKeys(sorted, base, k - 1, sorted[k - 1]);
        assert false;
      }
    }
  }

  lemma {:induction false} IdsUpToKeys(sorted: seq<Path>, base: FolderId, k: nat, p: Path)
    requires k <= |sorted| && p in IdsUpTo(sorted, base, k)
    ensures exists j :: 0 <= j < k && sorted[j] == p
  {
    if p != sorted[k - 1] {
      IdsUpToKeys(sorted, base, k - 1, p);
    }
  }

  /** Seen against the finished table of ids, every created row is the folder of its
      directory. */
  lemma FolderRowsMade(sorted: seq<Path>, base: FolderId, owner: UserId, currentFolderId: Option<FolderId>,
                       created: seq<FolderRow>, j: nat)
    requires Distinct(sorted) && |created| == |sorted| && j < |sorted| && |sorted[j]| > 0
    requires CreatedFor(created[j], sorted, j, owner, currentFolderId, base)
    ensures RowFor(created[j], IdsUpTo(sorted, base, |sorted|), sorted[j], owner, currentFolderId)
    ensures FolderMade(created, IdsUpTo(sorted, base, |sorted|), sorted[j], owner, currentFolderId)
  {
    var ids := IdsUpTo(sorted, base, |sorted|);
    var p := sorted[j];
    IdsUpToLookup(sorted, base, |sorted|, j);
    if |p| > 1 {
      var i :| 0 <= i < j && sorted[i] == Parent(p) && created[j].parentId == Some(base + i);
      IdsUpToLookup(sorted, base, |sorted|, i);
    }
    assert created[j] == FolderRow(ids[p], p[|p| - 1], if |p| > 1 then Some(ids[Parent(p)]) else currentFolderId, owner);
  }

  lemma AllFoldersMade(sorted: seq<Path>, base: FolderId, owner: UserId, currentFolderId: Option<FolderId>,
                       created: seq<FolderRow>)
    requires Distinct(sorted) && |created| == |sorted|
    requires forall j :: 0 <= j < |sorted| ==> |sorted[j]| > 0
    requires forall j :: 0 <= j < |sorted| ==> CreatedFor(created[j], sorted, j, owner, currentFolderId, base)
    ensures forall p :: p in IdsUpTo(sorted, base, |sorted|) ==>
      FolderMade(created, IdsUpTo(sorted, base, |sorted|), p, owner, currentFolderId)
  {
    forall p | p in IdsUpTo(sorted, base, |sorted|)
      ensures FolderMade(created, IdsUpTo(sorted, base, |sorted|), p, owner, currentFolderId)
    {
      IdsUpToKeys(sorted, base, |sorted|, p);
      var j :| 0 <= j < |sorted| && sorted[j] == p;
      FolderRowsMade(sorted, base, owner, currentFolderId, created, j);
    }
  }

  /** The folder half of handleUploadFolder on values: the directory table, the order
      by depth and the folder rows, with ids handed out from `base` on. */
  method PlanFolders(owner: UserId, dirs: seq<Path>, currentFolderId: Option<FolderId>, base: FolderId)
    returns (ids: map<Path, FolderId>, created: seq<FolderRow>)
    ensures Planned(owner, dirs, currentFolderId, base, ids, created)
  {
    var order, structure := BuildStructure(dirs);
    var sorted := SortPaths(order, structure);
    ids, created := AssignFolderIds(owner, sorted, structure, currentFolderId, base);
    FoldersPlanned(owner, dirs, sorted, structure, currentFolderId, base, ids, created);
    CreatedRowsFor(sorted, base, owner, currentFolderId, created);
  }

  /** `ids` and `created` are what the folder loop of handleUploadFolder makes of the
      directories `dirs` under `currentFolderId`, with ids handed out from `base` on:
      an id for exactly the directories named on the way to a file, distinct and fresh,
      and one folder row per directory, each the row made for its directory. */
  ghost predicate Planned(owner: UserId, dirs: seq<Path>, currentFolderId: Option<FolderId>, base: FolderId,
                          ids: map<Path, FolderId>, created: seq<FolderRow>)
  {
    && (forall p :: p in ids <==> NamedBy(dirs, p))
    && |created| == |ids|
    && (forall p :: p in ids ==> FolderMade(created, ids, p, owner, currentFolderId))
    && (forall f :: f in created ==> exists p :: RowFor(f, ids, p, owner, currentFolderId))
    && (forall p :: p in ids ==> base <= ids[p] < base + |ids|)
    && (forall p, q :: p in ids && q in ids && p != q ==> ids[p] != ids[q])
  }

  /** The folder half of handleUploadFolder on the folder table `folders0` with next
      id `next0`: the planned rows appended and the next id moved past them. */
  method AddFolders(owner: UserId, uploads: seq<Upload>, currentFolderId: Option<FolderId>,
                    folders0: seq<FolderRow>, next0: FolderId)
    returns (ids: map<Path, FolderId>, created: seq<FolderRow>, folders: seq<FolderRow>, next: FolderId)
    requires 0 < next0 && forall f :: f in folders0 ==> 0 < f.folderId < next0
    ensures Planned(owner, Dirs(uploads), currentFolderId, next0, ids, created)
    ensures folders == folders0 + created && next == next0 + |ids|
    ensures 0 < next && forall f :: f in folders ==> 0 < f.folderId < next
    ensures forall k :: 0 <= k < |uploads| ==> uploads[k].dir == [] || uploads[k].dir in ids
  {
    ids, created := PlanFolders(owner, Dirs(uploads), currentFolderId, next0);
    folders := folders0 + created;
    next := next0 + |created|;
    forall f | f in created ensures 0 < f.folderId < next {
      var p :| RowFor(f, ids, p, owner, currentFolderId);
    }
    DirsInIds(uploads, Dirs(uploads), ids);
  }

  /** Every file's directory, unless it is the top, has a folder. */
  lemma DirsInIds(uploads: seq<Upload>, dirs: seq<Path>, ids: map<Path, FolderId>)
    requires |dirs| == |uploads| && forall k :: 0 <= k < |uploads| ==> dirs[k] == uploads[k].dir
    requires forall p :: p in ids <==> NamedBy(dirs, p)
    ensures forall k :: 0 <= k < |uploads| ==> uploads[k].dir == [] || uploads[k].dir in ids
  {
    forall k | 0 <= k < |uploads| ensures uploads[k].dir == [] || uploads[k].dir in ids {
      var dir := uploads[k].dir;
      if dir != [] {
        assert dirs[k][..|dir|] == dir;
      }
    }
  }

  /** What the id assignment gives, seen against the directories the files name. */
  lemma FoldersPlanned(owner: UserId, dirs: seq<Path>, sorted: seq<Path>, structure: map<Path, Entry>,
                       currentFolderId: Option<FolderId>, base: FolderId,
                       ids: map<Path, FolderId>, created: seq<FolderRow>)
    requires forall p :: p in structure <==> NamedBy(dirs, p)
    requires Distinct(sorted) && forall p :: p in sorted <==> p in structure
    requires forall j :: 0 <= j < |sorted| ==> |sorted[j]| > 0
    requires ids == IdsUpTo(sorted, base, |sorted|) && |created| == |sorted|
    requires forall j :: 0 <= j < |sorted| ==> CreatedFor(created[j], sorted, j, owner, currentFolderId, base)
    ensures forall p :: p in ids <==> NamedBy(dirs, p)
    ensures forall p :: p in ids ==> FolderMade(created, ids, p, owner, currentFolderId)
    ensures forall p :: p in ids ==> base <= ids[p] < base + |created|
    ensures forall p, q :: p in ids && q in ids && p != q ==> ids[p] != ids[q]
  {
    IdsUpToKeysAll(sorted, base);
    AllFoldersMade(sorted, base, owner, currentFolderId, created);
    IdsInRange(sorted, base);
    IdsUpToInjective(sorted, base);
  }

  /** Every created row is the row made for one directory, and there are as many rows
      as directories. */
  lemma CreatedRowsFor(sorted: seq<Path>, base: FolderId, owner: UserId, currentFolderId: Option<FolderId>,
                       created: seq<FolderRow>)
    requires Distinct(sorted) && |created| == |sorted|
    requires forall j :: 0 <= j < |sorted| ==> |sorted[j]| > 0
    requires forall j :: 0 <= j < |sorted| ==> CreatedFor(created[j], sorted, j, owner, currentFolderId, base)
    ensures |created| == |IdsUpTo(sorted, base, |sorted|)|
    ensures forall f :: f in created ==> exists p :: RowFor(f, IdsUpTo(sorted, base, |sorted|), p, owner, currentFolderId)
  {
    IdsUpToSize(sorted, base, |sorted|);
    forall f | f in created ensures exists p :: RowFor(f, IdsUpTo(sorted, base, |sorted|), p, owner, currentFolderId) {
      var j :| 0 <= j < |created| && created[j] == f;
      FolderRowsMade(sorted, base, owner, currentFolderId, created, j);
    }
  }

  /** `Object.keys(folderStructure).sort(byDepth)`, with what the id assignment
      needs of it. */
  method SortPaths(order: seq<Path>, structure: map<Path, Entry>) returns (sorted: seq<Path>)
    requires Distinct(order) && forall p :: p in order <==> p in structure
    requires forall p :: p in structure ==> |p| > 0 && structure[p] == Fresh(p)
    requires forall p {:trigger Parent(p)} :: p in structure && |p| > 1 ==> Parent(p) in structure
    ensures sorted == SortByDepth(order)
    ensures ByDepth(sorted) && Distinct(sorted)
    ensures forall p :: p in sorted <==> p in structure
    ensures forall j :: 0 <= j < |sorted| ==>
      sorted[j] in structure && |sorted[j]| > 0 && structure[sorted[j]] == Fresh(sorted[j])
    ensures forall j :: 0 <= j < |sorted| ==> ParentListed(sorted, j)
  {
    sorted := SortByDepth(order);
    SortByDepthPermutes(order);
    SortedDistinct(order);
    assert forall p :: p in sorted <==> p in multiset(order);
    forall j | 0 <= j < |sorted|
      ensures sorted[j] in structure && |sorted[j]| > 0 && structure[sorted[j]] == Fresh(sorted[j])
    {
      assert sorted[j] in multiset(sorted);
    }
    forall j | 0 <= j < |sorted| ensures ParentListed(sorted, j) {
      assert sorted[j] in multiset(sorted);
      if |sorted[j]| > 1 {
        assert Parent(sorted[j]) in structure;
        assert Parent(sorted[j]) in multiset(order);
      }
    }
  }

  /** The finished table has an id for exactly the listed directories. */
  lemma IdsUpToKeysAll(sorted: seq<Path>, base: FolderId)
    requires Distinct(sorted)
    ensures forall p :: p in IdsUpTo(sorted, base, |sorted|) <==> p in sorted
  {
    forall p ensures p in IdsUpTo(sorted, base, |sorted|) <==> p in sorted {
      if p in IdsUpTo(sorted, base, |sorted|) {
        IdsUpToKeys(sorted, base, |sorted|, p);
      }
      if p in sorted {
        var j :| 0 <= j < |sorted| && sorted[j] == p;
        IdsUpToLookup(sorted, base, |sorted|, j);
      }
    }
  }

  /** Every directory's id is from the range handed out. */
  lemma IdsInRange(sorted: seq<Path>, base: FolderId)
    requires Distinct(sorted)
    ensures forall p :: p in IdsUpTo(sorted, base, |sorted|) ==> base <= IdsUpTo(sorted, base, |sorted|)[p] < base + |sorted|
  {
    forall p | p in IdsUpTo(sorted, base, |sorted|)
      ensures base <= IdsUpTo(sorted, base, |sorted|)[p] < base + |sorted|
    {
      IdsUpToKeys(sorted, base, |sorted|, p);
      var j :| 0 <= j < |sorted| && sorted[j] == p;
      IdsUpToLookup(sorted, base, |sorted|, j);
    }
  }

  /** Distinct directories get distinct folder ids. */
  lemma IdsUpToInjective(sorted: seq<Path>, base: FolderId)
    requires Distinct(sorted)
    ensures var ids := IdsUpTo(sorted, base, |sorted|);
            forall p, q :: p in ids && q in ids && p != q ==> ids[p] != ids[q]
  {
    var ids := IdsUpTo(sorted, base, |sorted|);
    forall p, q | p in ids && q in ids && p != q ensures ids[p] != ids[q] {
      IdsUpToKeys(sorted, base, |sorted|, p);
      IdsUpToKeys(sorted, base, |sorted|, q);
      var i :| 0 <= i < |sorted| && sorted[i] == p;
      var j :| 0 <= j < |sorted| && sorted[j] == q;
      IdsUpToLookup(sorted, base, |sorted|, i);
      IdsUpToLookup(sorted, base, |sorted|, j);
    }
  }

  /** The loop of handleShareSubmit on the share table `t0`: the sharer's key for each
      file, sealed for the recipient and granted; a sharer with no share row of their
      own skips the file, and a failing unwrap or wrap ends the loop. */
  method ShareLoop(suite: Suite, session: Session, recipient: Recipient, expires: Option<Time>, t0: Table,
                   fs: seq<FileRow>) returns (o: Outcome)
    ensures o == ShareAll(suite, session, recipient, expires, t0, fs)
  {
    var t := t0;
    for i := 0 to |fs|
      invariant ShareAll(suite, session, recipient, expires, t0, fs) == ShareAll(suite, session, recipient, expires, t, fs[i..])
    {
      var file := fs[i];
      assert fs[i..][1..] == fs[i + 1..];
      var key: Result<string, Error>;
      if file.ownerId == session.userId {
        key := Unwrap(suite, file.ownerKey, session);
      } else {
        var mine := MaybeSingle(t.rows, file.fileId, session.userId);
        if mine.None? {
          continue;
        }
        key := Unwrap(suite, mine.value.wrappedKey, session);
      }
      if key.Err? {
        return Outcome(t, Some(key.error));
      }
      var wrapped := EncryptFileKeyForUser(suite, Str(key.value), recipient.publicKey);
      if wrapped.Err? {
        return Outcome(t, Some(wrapped.error));
      }
      var (rows', nextId') := Grant(t.rows, t.nextId, file.fileId, recipient.id, wrapped.value, expires);
      t := Table(rows', nextId');
    }
    o := Outcome(t, None);
  }

  /** The `folder_shares` loop of handleShareFolder: each folder of `list` in turn gets
      the next share id, and its parent's share id is looked up in the map of the
      shares made so far. */
  method FolderShareLoop(list: seq<FolderRow>, recipient: UserId, base: nat) returns (rows: seq<FolderShareRow>)
    ensures rows == FolderShareRows(list, recipient, base)
  {
    var folderShareIdMap: map<FolderId, nat> := map[];
    rows := [];
    for k := 0 to |list|
      invariant folderShareIdMap == ShareIdMap(list, base, k)
      invariant |rows| == k && forall j :: 0 <= j < k ==> rows[j] == FolderShareRows(list, recipient, base)[j]
    {
      var folder := list[k];
      var parentShareId := ParentShare(folderShareIdMap, folder);
      var id := base + k;
      rows := rows + [FolderShareRow(id, folder.folderId, recipient, parentShareId)];
      folderShareIdMap := folderShareIdMap[folder.folderId := id];
    }
  }

  /** The per-file loop of handleShareFolder on the share table `t0`: a file whose
      owner has no `users` row, or whose key does not unwrap with the sharer's keys or
      does not wrap for the recipient, is skipped; the others are granted. */
  method FolderFilesLoop(suite: Suite, session: Session, users: map<UserId, JsValue>, recipient: Recipient,
                         expires: Option<Time>, t0: Table, fs: seq<FileRow>) returns (t: Table)
    ensures t == ShareFolderFiles(suite, session, users, recipient, expires, t0, fs)
  {
    t := t0;
    for i := 0 to |fs|
      invariant ShareFolderFiles(suite, session, users, recipient, expires, t0, fs)
             == ShareFolderFiles(suite, session, users, recipient, expires, t, fs[i..])
    {
      var file := fs[i];
      assert fs[i..][1..] == fs[i + 1..];
      if file.ownerId != session.userId && file.ownerId !in users {
        continue;
      }
      var decryptedFileKeyBase64 := Unwrap(suite, file.ownerKey, session);
      if decryptedFileKeyBase64.Err? {
        continue;
      }
      var recipientEncryptedKey := EncryptFileKeyForUser(suite, Str(decryptedFileKeyBase64.value), recipient.publicKey);
      if recipientEncryptedKey.Err? {
        continue;
      }
      var (rows', nextId') := Grant(t.rows, t.nextId, file.fileId, recipient.id, recipientEncryptedKey.value, expires);
      t := Table(rows', nextId');
    }
  }

  /** The file ids of a list of file rows. */
  function FileIdsOf(fs: seq<FileRow>): set<FileId> {
    set f | f in fs :: f.fileId
  }

  /** The storage paths of a list of file rows. */
  function PathsOf(fs: seq<FileRow>): set<string> {
    set f | f in fs :: f.storagePath
  }

  /** The ids of a list of share rows, in order. */
  function ShareIdsOf(rows: seq<ShareRow>): (ids: seq<ShareId>)
    ensures |ids| == |rows| && forall i :: 0 <= i < |rows| ==> ids[i] == rows[i].id
  {
    seq(|rows|, i requires 0 <= i < |rows| => rows[i].id)
  }

  /** `.from('file_shares').select(…).eq('shared_with_user_id', user)`. */
  function SharesOf(rows: seq<ShareRow>, user: UserId): (out: seq<ShareRow>)
    ensures forall r :: r in out <==> r in rows && r.recipient == user
  {
    Where(rows, (r: ShareRow) => r.recipient == user)
  }

  /** `deleteFileFromDB(file)` for a row of `files`: its share rows, its ciphertext and
      its row, in that order. */
  method DeleteFileFromDb(files0: seq<FileRow>, shares0: seq<ShareRow>, nextId: ShareId,
                          blobs0: map<string, seq<byte>>, file: FileRow)
    returns (files: seq<FileRow>, shares: seq<ShareRow>, blobs: map<string, seq<byte>>)
    requires ShareTable.Valid(shares0, nextId)
    ensures ShareTable.Valid(shares, nextId)
    ensures shares == DeleteByFile(shares0, file.fileId)
    ensures blobs == blobs0 - {file.storagePath}
    ensures files == DeleteFileRow(files0, file.fileId)
  {
    WhereKeepsValid(shares0, (r: ShareRow) => r.fileId != file.fileId, nextId);
    shares := DeleteByFile(shares0, file.fileId);
    blobs := blobs0 - {file.storagePath};
    files := DeleteFileRow(files0, file.fileId);
  }

  /** The file loop of handleDeleteFolder: `deleteFileFromDB` for each listed file. */
  method DeleteFilesLoop(files0: seq<FileRow>, shares0: seq<ShareRow>, nextId: ShareId,
                         blobs0: map<string, seq<byte>>, list: seq<FileRow>)
    returns (files: seq<FileRow>, shares: seq<ShareRow>, blobs: map<string, seq<byte>>)
    requires ShareTable.Valid(shares0, nextId)
    ensures ShareTable.Valid(shares, nextId)
    ensures forall f :: f in files <==> f in files0 && f.fileId !in FileIdsOf(list)
    ensures forall r :: r in shares <==> r in shares0 && r.fileId !in FileIdsOf(list)
    ensures blobs.Keys == blobs0.Keys - PathsOf(list) && forall q :: q in blobs ==> blobs[q] == blobs0[q]
  {
    files, shares, blobs := files0, shares0, blobs0;
    for k := 0 to |list|
      invariant ShareTable.Valid(shares, nextId)
      invariant forall f :: f in files <==> f in files0 && f.fileId !in FileIdsOf(list[..k])
      invariant forall r :: r in shares <==> r in shares0 && r.fileId !in FileIdsOf(list[..k])
      invariant blobs.Keys == blobs0.Keys - PathsOf(list[..k]) && forall q :: q in blobs ==> blobs[q] == blobs0[q]
    {
      assert list[..k + 1] == list[..k] + [list[k]];
      assert FileIdsOf(list[..k + 1]) == FileIdsOf(list[..k]) + {list[k].fileId};
      assert PathsOf(list[..k + 1]) == PathsOf(list[..k]) + {list[k].storagePath};
      files, shares, blobs := DeleteFileFromDb(files, shares, nextId, blobs, list[k]);
    }
    assert list[..|list|] == list;
  }

  /** The subfolder loop of handleDeleteFolder: for each folder of `list`, its
      `folder_shares` rows and then its row. */
  method DeleteFoldersLoop(folders0: seq<FolderRow>, fshares0: seq<FolderShareRow>, list: seq<FolderRow>)
    returns (folders: seq<FolderRow>, fshares: seq<FolderShareRow>)
    ensures forall f :: f in folders <==> f in folders0 && f.folderId !in FolderIds(list)
    ensures forall x :: x in fshares <==> x in fshares0 && x.folderId !in FolderIds(list)
  {
    folders, fshares := folders0, fshares0;
    for k := 0 to |list|
      invariant forall f :: f in folders <==> f in folders0 && f.folderId !in FolderIds(list[..k])
      invariant forall x :: x in fshares <==> x in fshares0 && x.folderId !in FolderIds(list[..k])
    {
      assert list[..k + 1] == list[..k] + [list[k]];
      assert FolderIds(list[..k + 1]) == FolderIds(list[..k]) + {list[k].folderId};
      fshares := DeleteSharesOfFolder(fshares, list[k].folderId);
      folders := DeleteFolderRow(folders, list[k].folderId);
    }
    assert list[..|list|] == list;
  }

  /** `Array.prototype.reverse`. */
  function Reverse<T>(s: seq<T>): (r: seq<T>)
    ensures |r| == |s| && forall k :: 0 <= k < |s| ==> r[k] == s[|s| - 1 - k]
  {
    seq(|s|, k requires 0 <= k < |s| => s[|s| - 1 - k])
  }

  /** The state after `handleDeleteFolder` removed the tree of `folderId` as its owner:
      the folder and every listed subfolder lose their rows and their shares, and every
      file of the tree loses its row, its shares and its ciphertext. Nothing else
      changes. */
  ghost predicate TreeDeleted(folders0: seq<FolderRow>, fshares0: seq<FolderShareRow>, files0: seq<FileRow>,
                              shares0: seq<ShareRow>, blobs0: map<string, seq<byte>>,
                              folders: seq<FolderRow>, fshares: seq<FolderShareRow>, files: seq<FileRow>,
                              shares: seq<ShareRow>, blobs: map<string, seq<byte>>, folderId: FolderId)
  {
    var gone := {folderId} + FolderIds(Subfolders(folders0, folderId, |folders0|));
    var tree := FilesInTree(folders0, files0, folderId, |folders0|);
    && (forall f :: f in folders <==> f in folders0 && f.folderId !in gone)
    && (forall x :: x in fshares <==> x in fshares0 && x.folderId !in gone)
    && (forall f :: f in files <==> f in files0 && f.fileId !in FileIdsOf(tree))
    && (forall r :: r in shares <==> r in shares0 && r.fileId !in FileIdsOf(tree))
    && blobs.Keys == blobs0.Keys - PathsOf(tree)
    && (forall q :: q in blobs ==> blobs[q] == blobs0[q])
  }

  /** The owner's branch of `handleDeleteFolder`, in the source's order. */
  method DeleteTree(folders0: seq<FolderRow>, fshares0: seq<FolderShareRow>, files0: seq<FileRow>,
                    shares0: seq<ShareRow>, nextId: ShareId, blobs0: map<string, seq<byte>>, folderId: FolderId)
    returns (folders: seq<FolderRow>, fshares: seq<FolderShareRow>, files: seq<FileRow>,
             shares: seq<ShareRow>, blobs: map<string, seq<byte>>)
    requires ShareTable.Valid(shares0, nextId)
    ensures ShareTable.Valid(shares, nextId)
    ensures TreeDeleted(folders0, fshares0, files0, shares0, blobs0, folders, fshares, files, shares, blobs, folderId)
    ensures (forall f :: f in folders ==> f in folders0) && (forall x :: x in fshares ==> x in fshares0)
  {
    var allFiles := FilesInTree(folders0, files0, folderId, |folders0|);
    files, shares, blobs := DeleteFilesLoop(files0, shares0, nextId, blobs0, allFiles);
    var fs := DeleteSharesOfFolder(fshares0, folderId);
    var allSubfolders := Subfolders(folders0, folderId, |folders0|);
    var sortedSubfolders := Reverse(allSubfolders);
    ReverseSameIds(allSubfolders);
    folders, fshares := DeleteFoldersLoop(folders0, fs, sortedSubfolders);
    folders := DeleteFolderRow(folders, folderId);
  }

  lemma ReverseSameIds(fs: seq<FolderRow>)
    ensures FolderIds(Reverse(fs)) == FolderIds(fs)
  {
    var r := Reverse(fs);
    forall f | f in fs ensures f in r {
      var k :| 0 <= k < |fs| && fs[k] == f;
      assert r[|fs| - 1 - k] == f;
    }
  }

  /** Deleting the tree leaves no row, share or ciphertext of a file in it. */
  lemma TreeDeletedRevokes(folders0: seq<FolderRow>, fshares0: seq<FolderShareRow>, files0: seq<FileRow>,
                           shares0: seq<ShareRow>, blobs0: map<string, seq<byte>>,
                           folders: seq<FolderRow>, fshares: seq<FolderShareRow>, files: seq<FileRow>,
                           shares: seq<ShareRow>, blobs: map<string, seq<byte>>, folderId: FolderId)
    requires TreeDeleted(folders0, fshares0, files0, shares0, blobs0, folders, fshares, files, shares, blobs, folderId)
    ensures forall f :: f in files0 && InTree(folders0, f, folderId, |folders0|) ==>
      && (forall g :: g in files ==> g.fileId != f.fileId)
      && (forall r :: r in shares ==> r.fileId != f.fileId)
      && f.storagePath !in blobs
  {
    var tree := FilesInTree(folders0, files0, folderId, |folders0|);
    FilesInTreeExact(folders0, files0, folderId, |folders0|);
    forall f | f in files0 && InTree(folders0, f, folderId, |folders0|)
      ensures f.fileId in FileIdsOf(tree) && f.storagePath in PathsOf(tree)
    {
      assert f in tree;
    }
  }

  /** After the owner deleted a file, no one else gets its key: no share row of the
      file is left, so every other user is told they have no access. */
  lemma OwnerDeleteRevokes(suite: Suite, session: Session, file: FileRow, shares: seq<ShareRow>, now: Time)
    requires session.userId != file.ownerId
    ensures KeyFor(suite, session, file, DeleteByFile(shares, file.fileId), now) == Err(NoAccess)
  {
  }

  /** Deleting a shared copy revokes exactly that recipient: they are told they have
      no access to the file, and every other row stays. */
  lemma {:induction false} SharedCopyDeleteRevokes(suite: Suite, shares: seq<ShareRow>, nextId: ShareId,
                                                   r: ShareRow, file: FileRow, session: Session, now: Time)
    requires ShareTable.Valid(shares, nextId) && r in shares
    requires file.fileId == r.fileId && session.userId == r.recipient && file.ownerId != r.recipient
    ensures KeyFor(suite, session, file, DeleteById(shares, r.id), now) == Err(NoAccess)
    ensures forall x :: x in shares && x != r ==> x in DeleteById(shares, r.id)
  {
    DeleteSharedCopy(shares, nextId, r);
    forall x | x in DeleteById(shares, r.id) ensures !IsPair(x, file.fileId, session.userId) {
      if IsPair(x, file.fileId, session.userId) {
        PairRowUnique(shares, r, x);
      }
    }
  }

  /** After the purge of `loadData` the user keeps no expired share: each of their
      remaining rows is listed or expires exactly now. */
  lemma PurgeLeavesNoExpired(shares0: seq<ShareRow>, shares: seq<ShareRow>, user: UserId, now: Time)
    requires forall r :: r in shares <==> r in shares0 && !(r.recipient == user && IsExpired(r, now))
    ensures forall r :: r in shares && r.recipient == user ==> r in Visible(SharesOf(shares0, user), now) || ExpiresNow(r, now)
  {
    ExpirySplit(shares, now);
  }

  /** A tick never keeps an expired entry in the list. A share expiring exactly at the
      tick stays listed when nothing else expired, and is dropped when something did. */
  lemma {:induction false} TickOutcome(prev: seq<ShareRow>, now: Time)
    ensures var next := if Expired(prev, now) == [] then prev else Visible(prev, now);
      && (forall r :: r in next ==> r in prev && !IsExpired(r, now))
      && (forall r :: r in prev && IsVisible(r, now) ==> r in next)
      && (forall r :: r in prev && ExpiresNow(r, now) ==> (r in next <==> Expired(prev, now) == []))
  {
    ExpirySplit(prev, now);
  }

  /** A tick at the time the list was loaded changes nothing. */
  lemma TickAfterLoadKeepsList(rows: seq<ShareRow>, now: Time)
    ensures Expired(Visible(rows, now), now) == []
  {
    EmptyWithoutMembers(Expired(Visible(rows, now), now));
  }

  lemma EmptyWithoutMembers<T>(s: seq<T>)
    ensures s == [] <==> forall x :: x !in s
  {
    if s != [] {
      assert s[0] in s;
    }
  }

  /** The share rows with the listed ids deleted, one `.delete().eq('id', …)` at a time. */
  method DeleteShareIds(rows0: seq<ShareRow>, nextId: ShareId, ids: seq<ShareId>) returns (rows: seq<ShareRow>)
    requires ShareTable.Valid(rows0, nextId)
    ensures ShareTable.Valid(rows, nextId)
    ensures forall r :: r in rows <==> r in rows0 && r.id !in ids
  {
    rows := rows0;
    for k := 0 to |ids|
      invariant ShareTable.Valid(rows, nextId)
      invariant forall r :: r in rows <==> r in rows0 && r.id !in ids[..k]
    {
      assert ids[..k + 1] == ids[..k] + [ids[k]];
      WhereKeepsValid(rows, (r: ShareRow) => r.id != ids[k], nextId);
      rows := DeleteById(rows, ids[k]);
    }
    assert ids[..|ids|] == ids;
  }

  /** One visit of the rotation's share loop: a recipient with a public key gets the
      new key sealed for that key, and a failing wrap is the error that ends the loop. */
  method RewrapVisit(suite: Suite, users: map<UserId, JsValue>, newKey: string, now: Time, base: seq<ShareRow>,
                     done: set<ShareId>, cur: seq<ShareRow>, share: ShareRow) returns (next: seq<ShareRow>, err: Option<Error>)
    requires UniqueIds(base) && share in base && cur == Rewrapped(suite, users, newKey, now, base, done)
    ensures err.Some? <==> Throws(suite, users, newKey, share)
    ensures err.Some? ==> err.value == WrapFor(suite, users, newKey, share).error && next == cur
    ensures err.None? ==> next == Rewrapped(suite, users, newKey, now, base, done + {share.id})
  {
    var pk := PublicKeyOf(users, share.recipient);
    if Truthy(pk) {
      var enc := EncryptFileKeyForUser(suite, Str(newKey), pk);
      assert WrapFor(suite, users, newKey, share) == enc;
      if enc.Err? {
        return cur, Some(enc.error);
      }
      RewrapStep(suite, users, newKey, now, base, done, share);
      next := SetKey(cur, share.id, enc.value, now);
    } else {
      assert !HasKey(users, share);
      RewrapStep(suite, users, newKey, now, base, done, share);
      next := cur;
    }
    err := None;
  }

  /** The share loop of the rotation over the rows of `file_shares`: every row of the
      file, in table order, is re-wrapped under the new key for a recipient with a public
      key; the first wrap that fails ends the loop with its error, and the rows visited
      before it keep their update. */
  method RewrapLoop(suite: Suite, users: map<UserId, JsValue>, newKey: string, rows: seq<ShareRow>,
                    fileId: FileId, now: Time) returns (out: seq<ShareRow>, err: Option<Error>)
    requires UniqueIds(rows)
    ensures var sel := RowsOfFile(rows, fileId);
            var k := FirstFailure(suite, users, newKey, sel);
            && out == Rewrapped(suite, users, newKey, now, rows, IdsOf(sel[..k]))
            && (err.None? <==> k == |sel|)
            && (k < |sel| ==> err == Some(WrapFor(suite, users, newKey, sel[k]).error))
  {
    out := rows;
    var sel := RowsOfFile(rows, fileId);
    assert Rewrapped(suite, users, newKey, now, rows, IdsOf(sel[..0])) == rows;
    for i := 0 to |sel|
      invariant i <= FirstFailure(suite, users, newKey, sel)
      invariant out == Rewrapped(suite, users, newKey, now, rows, IdsOf(sel[..i]))
    {
      var err;
      out, err := RewrapVisit(suite, users, newKey, now, rows, IdsOf(sel[..i]), out, sel[i]);
      FirstFailureNext(suite, users, newKey, sel, i);
      if err.Some? {
        return out, err;
      }
      IdsOfPrefix(sel, i);
    }
    assert FirstFailure(suite, users, newKey, sel) == |sel|;
    return out, None;
  }
}
