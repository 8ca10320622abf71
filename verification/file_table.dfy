/** The `files` table of src/pages/Dashboard.jsx: one row per uploaded file with the
    owner's wrapped file key, the IV, the storage path of the ciphertext, and the
    timestamps the lazy key rotation reads. */
module FileTable {
  import opened Common
  import opened ShareTable

  /** A folder id. The database generates these; the model numbers them. */
  type FolderId = nat

  /** One `files` row: `file_id`, `owner_id`, `folder_id`, `storage_path`,
      `encrypted_file_key_owner`, `iv`, `created_at`, `updated_at`. */
  datatype FileRow = FileRow(fileId: FileId, ownerId: UserId, folderId: Option<FolderId>, storagePath: string,
                             ownerKey: string, iv: string, createdAt: Time, updatedAt: Option<Time>)

  /** One hour in milliseconds: the age after which the owner's next read rotates the key. */
  const ROTATE_AFTER := 3600 * 1000

  /** When the file key was last set: `updated_at || created_at`. */
  function KeySetAt(file: FileRow): Time {
    if file.updatedAt.Some? then file.updatedAt.value else file.createdAt
  }

  /** `needRotate`: strictly more than an hour since the key was last set. */
  predicate NeedRotate(file: FileRow, now: Time) {
    now - KeySetAt(file) > ROTATE_AFTER
  }

  /** `.update({ encrypted_file_key_owner, updated_at }).eq('file_id', fileId)`. */
  function SetOwnerKey(files: seq<FileRow>, fileId: FileId, ownerKey: string, at: Time): (out: seq<FileRow>)
    ensures |out| == |files|
    ensures forall i :: 0 <= i < |files| ==>
      out[i] == if files[i].fileId == fileId then files[i].(ownerKey := ownerKey, updatedAt := Some(at)) else files[i]
  {
    seq(|files|, i requires 0 <= i < |files| =>
      if files[i].fileId == fileId then files[i].(ownerKey := ownerKey, updatedAt := Some(at)) else files[i])
  }

  /** `.delete().eq('file_id', fileId)`. */
  function DeleteFileRow(files: seq<FileRow>, fileId: FileId): (out: seq<FileRow>)
    ensures forall f :: f in out <==> f in files && f.fileId != fileId
  {
    Where(files, (f: FileRow) => f.fileId != fileId)
  }

  /** `.select('*').eq('folder_id', folder)`. */
  function FilesIn(files: seq<FileRow>, folder: FolderId): (out: seq<FileRow>)
    ensures forall f :: f in out <==> f in files && f.folderId == Some(folder)
  {
    Where(files, (f: FileRow) => f.folderId == Some(folder))
  }

  /** A rotation at `at` restarts the clock: the rewritten row needs no rotation for the
      next hour, and needs one again once more than an hour has passed. */
  lemma RotationRestartsClock(files: seq<FileRow>, fileId: FileId, ownerKey: string, at: Time, i: nat, now: Time)
    requires i < |files| && files[i].fileId == fileId
    ensures NeedRotate(SetOwnerKey(files, fileId, ownerKey, at)[i], now) <==> now > at + ROTATE_AFTER
  {
  }
}
