# File-key envelopes of the encrypted file dashboard

This project models the file-key envelope protocol of an end-to-end encrypted file
store written in React on top of Supabase, libsodium and WebCrypto, and proves
properties of the model.

**Files and keys.**
- Every uploaded file is encrypted with AES-GCM under a fresh 256-bit file key and a
  96-bit IV.
- The file key is sealed (libsodium `crypto_box_seal`) for the owner's public key and
  stored on the `files` row.
- Each recipient gets a `file_shares` row holding the same key sealed for their public
  key, with an optional expiry.

**The Dashboard page.**
- The page calls `decryptFileKeyForUser` with one options object where the function
  takes three positional arguments, so as written every unwrap is refused with
  'Missing parameters' (`Envelope.OptionsObjectCallRejected`, first row of
  "## Findings"). The operations below are modelled with that call corrected to the
  positional form (`Envelope.Unwrap`); "## Left out" says what each one does as written.
- With the call corrected, a read by the owner of a key more than an hour old rotates the key. The content is
  re-encrypted under a new key with the same IV, and the key is re-sealed for the owner
  and for every share row of the file.
- Sharing a file grants the key to a recipient by update-or-insert on the pair
  (file, recipient).
- Sharing a folder also records a `folder_shares` row per folder of the tree, each
  pointing at the share of its parent.
- Expired shares are deleted when the page loads and on a one-minute timer.
- Deleting a file or a folder tree removes rows, shares and ciphertexts.
- A folder upload creates one folder per directory, parents first.
- Smaller pieces: the breadcrumb walk, the selection toggle, the de-duplication before
  sharing, file-name sanitising, and the expiry countdown.

**The crypto modules.**
- The parameter guards, the key, IV and salt sizes, and the two base64 alphabets:
  standard padded base64 (section 4 of RFC 4648) and URL-safe unpadded base64
  (section 5 of RFC 4648).
- The byte/binary-string helper loops.
- The salt rule of password key derivation.

**Structure.**
- `common.dfy`: bytes, `Option`, `Result`, the thrown errors and JavaScript truthiness.
- `primitives.dfy`: the foreign primitives (sealed boxes, AES-GCM, Argon2id, the random
  sources). They are a record of total functions, and the `Lawful` predicate states the
  round trips and failures their standards promise. `SymbolicSuite` is one lawful
  instance, so the assumptions are consistent.
- `base64.dfy` and `byte_helpers.dfy`: the two base64 codecs, `atob`/`btoa`, and the
  helper loops.
- `share_file_key.dfy`, `file_encryption.dfy` and `key_derivation.dfy`: the three crypto
  modules.
- The tables:
  - `share_table.dfy`: `file_shares`, its one-row-per-pair invariant, grant, access
    check, expiry filters and deletes;
  - `file_table.dfy`: `files`;
  - `folder_tree.dfy`: `folders` and `folder_shares`, subtree walks and the breadcrumb.
- `envelope.dfy`: how a reader obtains the file key.
- `rotation.dfy`: what the rotation does to keys, ciphertext and share rows.
- `sharing.dfy`: the two sharing loops, as folds.
- `folder_upload.dfy`: the directory table of a folder upload.
- `countdown.dfy` and `dashboard_helpers.dfy`: the small pure helpers of the page.
- `store.dfy`: the class `Dashboard.Store`, which holds the tables and the storage
  bucket as fields. Its methods run the page's handlers step by step, and their
  contracts tie the new state to the definitions above.

## Model

| member | source | states |
|---|---|---|
| Common.Where | src/pages/Dashboard.jsx:190 | a filter keeps exactly the elements its predicate accepts, never more than the input |
| Base64.EncodeUrl | src/crypto/shareFileKey.js:13 | `sodium.to_base64` with URLSAFE_NO_PADDING writes only URL-safe alphabet characters, ceil(4n/3) of them for n bytes |
| Base64.DecodeUrl | src/crypto/shareFileKey.js:21-23 | `sodium.from_base64` yields bytes only for strings made wholly of URL-safe alphabet characters |
| Base64.EncodeStd | src/crypto/shareFileKey.js:38 | `btoa` output is padded to a multiple of four: 4 * ceil(n/3) characters for n bytes |
| Base64.StripWhitespace | src/crypto/shareFileKey.js:42 | the forgiving decode of `atob` first drops ASCII whitespace: the result has none, is no longer than the input, and a string without whitespace is kept as is |
| Base64.DecodeUrlEncodeUrl | src/crypto/shareFileKey.js:10-13 | decoding URL-safe unpadded base64 gives back the encoded bytes |
| Base64.DecodeUrlExactlyCanonical | src/crypto/shareFileKey.js:21-23 | the strict libsodium decoder accepts a string exactly when it is the canonical encoding of the bytes it yields |
| Base64.StandardCharsRefusedByDecodeUrl | src/crypto/shareFileKey.js:21 | any string containing a standard `+` or `/` or a `=` pad is refused by the URL-safe decoder, so the two alphabets cannot be mixed |
| Base64.StandardPadRefusedByDecodeUrl | src/crypto/shareFileKey.js:21 | `btoa` output for a byte count that is not a multiple of three ends in a pad and is refused by the URL-safe decoder |
| Base64.ForgivingDecodeEncodeStd | src/crypto/shareFileKey.js:38-42 | `atob` reads back the bytes of what `btoa` wrote |
| Base64.FromToSextets | src/crypto/shareFileKey.js:38 | packing bytes into six-bit groups and unpacking them is the identity |
| Base64.ToFromSextets | src/crypto/shareFileKey.js:21 | unpacking six-bit groups whose unused tail bits are zero and packing again is the identity |
| ByteHelpers.BinaryString | src/crypto/shareFileKey.js:33-37 | character i of the binary string has code b[i], and the lengths agree |
| ByteHelpers.Btoa | src/crypto/shareFileKey.js:38 | `btoa` succeeds exactly on strings whose code units are all below 256, and fails with InvalidCharacter otherwise |
| ByteHelpers.Atob | src/crypto/shareFileKey.js:42 | `atob` fails exactly when the forgiving decode fails, and otherwise yields a binary string |
| ByteHelpers.AtobBtoa | src/crypto/shareFileKey.js:38-42 | `atob(btoa(s)) == s` for every binary string |
| ByteHelpers.ArrayBufferToBase64 | src/crypto/shareFileKey.js:32-39 | the loop builds the binary string of the bytes, and the result is their padded standard base64 |
| ByteHelpers.Base64ToUint8Array | src/crypto/shareFileKey.js:41-48 | the result is a fresh array holding exactly the decoded bytes; the call fails exactly when `atob` throws |
| ByteHelpers.HelpersRoundTrip | src/crypto/fileEncryption.js:52-68 | the two helpers are inverses: decode(encode(b)) == b, via the binary string whose character i has code b[i] |
| Primitives.SymbolicSuiteIsLawful | src/crypto/shareFileKey.js:11-25 | one concrete suite meets every assumed law of the primitives, so the assumptions are consistent |
| ShareFileKey.EncryptFileKeyForUser | src/crypto/shareFileKey.js:4-14 | a missing or empty argument is rejected with 'Missing parameters' before any decoding; a result is the URL-safe base64 of the box sealed for the decoded public key around the `atob` bytes of the file key |
| ShareFileKey.DecryptFileKeyForUser | src/crypto/shareFileKey.js:16-29 | any of the three positional arguments missing gives 'Missing parameters'; a result exists only when the box opened and is the standard base64 of the opened bytes; a box that does not open is the error crypto_box_seal_open throws itself, so the 'Decryption failed. Check keys.' test after it (line 26) is never reached |
| ShareFileKey.FailedOpenRaises | src/crypto/shareFileKey.js:25 | with well-formed arguments, a box that does not open makes crypto_box_seal_open throw (`OpenFailed`) |
| ShareFileKey.KeyStringsPresent | src/crypto/shareFileKey.js:22-23 | a key pair's URL-safe key strings are non-empty and decode back to the keys |
| ShareFileKey.WrapSucceeds | src/crypto/shareFileKey.js:7-13 | wrapping a decodable key for a 32-byte public key succeeds with the URL-safe encoding of the sealed box |
| ShareFileKey.UnwrapOpens | src/crypto/shareFileKey.js:19-28 | unwrapping URL-safe strings opens exactly the encoded bytes, giving the error crypto_box_seal_open throws (`OpenFailed`) or the standard base64 of the message |
| ShareFileKey.UnwrapAfterWrap | src/crypto/shareFileKey.js:4-29 | opening with the matching key pair what was sealed for its public key returns the canonical standard base64 of the file-key bytes |
| ShareFileKey.UnwrapAfterWrapCanonical | src/tests/debugTests.js:112-122 | for a canonical file-key string the round trip returns the same string |
| ShareFileKey.UnwrapWithOtherKeyFails | src/crypto/shareFileKey.js:25 | a key pair with another public key cannot unwrap: crypto_box_seal_open throws (`OpenFailed`) |
| FileEncryption.EncryptFile | src/crypto/fileEncryption.js:2-26 | the key is 32 fresh random bytes and the IV 12; both are returned as standard base64 of exactly those bytes, and the ciphertext is AES-GCM of the file under them |
| FileEncryption.EncryptedLengths | src/crypto/fileEncryption.js:4-5 | the returned key string has 44 characters and the IV string 16 |
| FileEncryption.DecryptFile | src/crypto/fileEncryption.js:28-49 | a missing or empty IV throws 'nonce cannot be null or undefined' before anything else; a result comes only from a successful authenticated decryption under the decoded key and IV |
| FileEncryption.DecryptDecoded | src/crypto/fileEncryption.js:28-49 | with an IV present and a key that decodes to 32 bytes, the result is the plaintext of a successful authenticated decryption, otherwise an authentication failure |
| FileEncryption.DecryptWithCanonicalStrings | src/crypto/fileEncryption.js:29-48 | with canonical key and IV strings, decryptFile is exactly AES-GCM decryption under those bytes |
| FileEncryption.DecryptAfterEncrypt | src/crypto/fileEncryption.js:2-49 | decryptFile(encryptFile(p).encryptedFile, fileKey, iv) == p |
| FileEncryption.DecryptWithOtherKeyOrIvFails | src/crypto/fileEncryption.js:42-48 | another 32-byte key or 12-byte IV makes the decrypt reject with an authentication failure |
| FileEncryption.DecryptOnlyAuthentic | src/crypto/fileEncryption.js:42-48 | anything decryptFile accepts is the encryption of its result under the decoded key and IV, so tampered ciphertext is refused |
| KeyDerivation.DeriveMasterKey | src/crypto/keyDerivation.js:16-41 | 'Password is required' exactly for a missing or empty password; otherwise the salt is the decoded argument or a fresh 16-byte draw, and the key is the 32-byte Argon2id hash with OPSLIMIT 2 and MEMLIMIT 64 MiB; both are returned as URL-safe base64 |
| KeyDerivation.FreshSaltDerivation | src/crypto/keyDerivation.js:4 | with no salt a password always derives: the salt is the encoding of a fresh 16-byte draw; the key has 43 characters, the salt 22 (also lines 24-26) |
| KeyDerivation.RederiveWithStoredSalt | src/crypto/keyDerivation.js:37-40 | feeding the returned salt back with the same password gives the same master key and salt, whatever the random source |
| KeyDerivation.StoredSaltReused | src/crypto/keyDerivation.js:24-26 | a non-empty salt argument makes the result independent of the random source, and is returned unchanged |
| ShareTable.Expired | src/pages/Dashboard.jsx:190 | the selected shares are exactly those with an expiry strictly before now |
| ShareTable.Visible | src/pages/Dashboard.jsx:196-197 | the listed shares are exactly those with no expiry or an expiry strictly after now |
| ShareTable.ExpirySplit | src/pages/Dashboard.jsx:188-202 | every share is exactly one of deleted, listed, or expiring exactly now; the three filters split the rows as a multiset |
| ShareTable.Matching | src/pages/Dashboard.jsx:734-737 | the rows selected for a pair are exactly the table's rows of that file and recipient |
| ShareTable.MaybeSingle | src/pages/Dashboard.jsx:738 | `.maybeSingle()` yields a row exactly when one row of the pair matches, and then it is that row |
| ShareTable.FirstMatch | src/pages/Dashboard.jsx:417-424 | `.limit(1)` then `[0]` is the first matching row in table order (the head of all matching rows), or nothing when none matches |
| ShareTable.AtMostOneMatch | src/pages/Dashboard.jsx:733-758 | under the one-row-per-pair invariant, a pair has zero or one rows |
| ShareTable.SingleIsFirst | src/pages/Dashboard.jsx:715 | under the invariant, `.maybeSingle()` and `.limit(1)` read the same row (also line 422) |
| ShareTable.PairRowUnique | src/pages/Dashboard.jsx:733-758 | under the invariant, any row of a row's pair is that row |
| ShareTable.SetKeyAndExpiry | src/pages/Dashboard.jsx:746-748 | the update rewrites key and expiry of the row with the id and leaves every other row as it was |
| ShareTable.SetKey | src/pages/Dashboard.jsx:399-401 | the rotation's update rewrites key and stamp of the row with the id only |
| ShareTable.SetKeyAndExpiryKeepsShape | src/pages/Dashboard.jsx:746-748 | an update keeps ids and pairs, so the invariant holds |
| ShareTable.GrantUpdatesExisting | src/pages/Dashboard.jsx:745-749 | when the pair has a row, the grant rewrites it in place and inserts nothing |
| ShareTable.GrantInsertsNew | src/pages/Dashboard.jsx:750-757 | when the pair has no row, the grant appends one with the next id |
| ShareTable.GrantLeavesOneRow | src/pages/Dashboard.jsx:733-758 | a grant keeps the invariant and leaves exactly one row for the pair, with the new key and expiry; other rows are unchanged (also lines 623-642) |
| ShareTable.GrantIdempotent | src/pages/Dashboard.jsx:733-758 | granting the same pair, key and expiry twice is the same as granting once |
| ShareTable.AccessRow | src/pages/Dashboard.jsx:417-429 | 'No access to this shared file' exactly when the pair has no row; otherwise the first matching row decides: 'Share expired' exactly when its expiry is before now, and that row handed over when it is not |
| ShareTable.AccessOfRow | src/pages/Dashboard.jsx:417-429 | under the invariant the check reads the pair's one row: expired gives 'Share expired', otherwise that row |
| ShareTable.GrantThenAccess | src/pages/Dashboard.jsx:733-758 | right after a grant, the recipient's access check returns the granted key while unexpired (also lines 417-435) |
| ShareTable.DeleteById | src/pages/Dashboard.jsx:822-825 | deleting by id keeps exactly the rows with another id |
| ShareTable.DeleteByFile | src/pages/Dashboard.jsx:829-832 | deleting by file keeps exactly the rows of other files |
| ShareTable.WhereKeepsValid | src/pages/Dashboard.jsx:820-846 | any deletion keeps the table invariant |
| ShareTable.DeleteSharedCopy | src/pages/Dashboard.jsx:820-826 | deleting a shared copy removes that row and no other |
| FileTable.SetOwnerKey | src/pages/Dashboard.jsx:380-382 | the owner-key update rewrites key and `updated_at` of that file's row only |
| FileTable.DeleteFileRow | src/pages/Dashboard.jsx:842-845 | deleting by file id keeps exactly the other files |
| FileTable.FilesIn | src/pages/Dashboard.jsx:898 | the files selected for a folder are exactly the rows in that folder |
| FileTable.RotationRestartsClock | src/pages/Dashboard.jsx:341-343 | after the owner-key update at `at`, a rotation is due again exactly when more than 3 600 000 ms have passed (also lines 380-382) |
| Envelope.OptionsObjectCallRejected | src/pages/Dashboard.jsx:351-355 | the options-object call, as written at every call site, is always refused with 'Missing parameters' |
| Envelope.Unwrap | src/pages/Dashboard.jsx:431-435 | the positional call yields a key only when the sealed key and both session keys are present |
| Envelope.UnwrapOwnWrap | src/pages/Dashboard.jsx:351-355 | a key sealed for the session's public key unwraps to the same key string (also line 461) |
| Envelope.UnwrapOtherWrapFails | src/pages/Dashboard.jsx:431-435 | a key sealed for another public key fails: crypto_box_seal_open throws (`OpenFailed`) |
| Envelope.LoginSessionCannotUnwrap | src/pages/Login.jsx:48-52 | a session without a public key cannot unwrap: 'Missing parameters' |
| Envelope.KeyFor | src/pages/Dashboard.jsx:350-436 | a non-owner with no share row of the file gets 'No access to this shared file' |
| Rotation.FirstFailure | src/pages/Dashboard.jsx:390-403 | the loop stops at the first row whose recipient has a key that fails to wrap, and at no earlier row |
| Rotation.FirstFailureNext | src/pages/Dashboard.jsx:390-403 | visiting a row either is the stop or moves the stop past it |
| Rotation.Rewrapped | src/pages/Dashboard.jsx:390-403 | after visiting the rows with ids in `done`, those rows carry the re-wrapped key and stamp when their recipient has a key, and every other row is unchanged |
| Rotation.RewrapStep | src/pages/Dashboard.jsx:397-402 | one visit is the update by id for a recipient with a key and nothing otherwise, and it extends the visited set by that row |
| Rotation.RowsOfFile | src/pages/Dashboard.jsx:385-389 | the share rows selected for re-wrapping are exactly the rows of the file |
| Rotation.RewrapOfFile | src/pages/Dashboard.jsx:385-403 | after a full loop, exactly the rows of the file whose recipient has a key are re-wrapped; other files' rows and keyless recipients' rows are unchanged |
| Rotation.RewrapKeepsValid | src/pages/Dashboard.jsx:390-403 | the re-wrap keeps the table invariant |
| Rotation.NewKeyDecodes | src/pages/Dashboard.jsx:363-364 | the new key has 32 bytes and its `btoa` string decodes back to them |
| Rotation.RotatedBlobDecrypts | src/pages/Dashboard.jsx:366-372 | the rotated ciphertext decrypts under the new key and the unchanged IV to the plaintext it was made from (also line 406) |
| Rotation.RotatedBlobRejectsOtherKey | src/pages/Dashboard.jsx:375-382 | any other 32-byte key fails authentication on the rotated ciphertext, so a stop between upload and key update strands the file |
| Rotation.RotatedOwnerRowReads | src/pages/Dashboard.jsx:379-382 | the owner's rewritten row reads the old plaintext from the rotated ciphertext, with no rotation due for an hour |
| Rotation.RotatedShareReads | src/pages/Dashboard.jsx:390-403 | after a completed rotation, a recipient with a public key and an unexpired share reads the same plaintext (also lines 417-441) |
| Rotation.KeylessRecipientLosesAccess | src/pages/Dashboard.jsx:397 | a recipient with no public key keeps the old key, and their read fails authentication |
| FolderTree.DeleteFolderRow | src/pages/Dashboard.jsx:934 | deleting a folder row keeps exactly the other folders |
| FolderTree.DeleteSharesOfFolder | src/pages/Dashboard.jsx:915 | deleting a folder's shares keeps exactly the shares of other folders |
| FolderTree.DeleteFolderShare | src/pages/Dashboard.jsx:893 | deleting a folder share by id keeps exactly the other shares |
| FolderTree.Children | src/pages/Dashboard.jsx:559 | the children selected are exactly the folders whose parent is the folder |
| FolderTree.SubfoldersParentsFirst | src/pages/Dashboard.jsx:558-565 | the recursive listing meets every folder's parent before the folder |
| FolderTree.SubfoldersFromTable | src/pages/Dashboard.jsx:558-565 | every listed folder is a row of the table |
| FolderTree.ReverseChildrenFirst | src/pages/Dashboard.jsx:929-935 | in the reversed list, every folder comes before its parent |
| FolderTree.FilesInTreeExact | src/pages/Dashboard.jsx:596-604 | the files listed for a folder are exactly the files in it or in one of its listed subfolders (also lines 897-905) |
| FolderTree.Find | src/pages/Dashboard.jsx:269 | `find` gives a folder with the id from the list, and nothing only when no folder has it |
| FolderTree.Breadcrumb | src/pages/Dashboard.jsx:267-275 | the path ends at the current folder, each entry is the parent of the next, and it starts at a folder whose parent is not found unless the walk was cut |
| FolderTree.CutBreadcrumbRepeats | src/pages/Dashboard.jsx:270-273 | a walk that reaches the bound has repeated a folder: only a cyclic parent chain gets there |
| FolderUpload.BuildStructure | src/pages/Dashboard.jsx:497-512 | the table holds exactly the directories named on the way to some file; each entry's parent path is the path one segment shorter, each directory is listed once, and every enclosing directory is there |
| FolderUpload.AddPrefixes | src/pages/Dashboard.jsx:503-511 | the inner loop adds exactly the leading parts of one directory and keeps the table well formed |
| FolderUpload.PrefixesMembers | src/pages/Dashboard.jsx:504-506 | the leading parts of a path are exactly its prefixes, closed under taking the parent |
| FolderUpload.InsertByDepth | src/pages/Dashboard.jsx:514-516 | inserting into a depth-sorted list keeps it sorted and adds exactly that path |
| FolderUpload.SortByDepth | src/pages/Dashboard.jsx:514-516 | the sorted list is ordered by segment count |
| FolderUpload.SortByDepthPermutes | src/pages/Dashboard.jsx:514-516 | sorting holds the same paths, each as often |
| FolderUpload.SortedDistinct | src/pages/Dashboard.jsx:514-516 | sorting keeps a list free of repeats |
| FolderUpload.ParentCreatedFirst | src/pages/Dashboard.jsx:518-522 | in the sorted order every enclosing directory comes before its children, so its id is set before they read it |
| Countdown.IndexOf | src/pages/Dashboard.jsx:22 | the index of the first occurrence, or the length when there is none |
| Countdown.ReplaceFirst | src/pages/Dashboard.jsx:22 | `replace` with a one-character pattern changes only the first occurrence |
| Countdown.NormalizeUtc | src/pages/Dashboard.jsx:20-22 | a timestamp naming an offset is kept; otherwise the first space becomes 'T' and 'Z' is appended, so the result always names UTC |
| Countdown.NormalizeUtcIdempotent | src/pages/Dashboard.jsx:20-22 | normalising twice is normalising once |
| Countdown.Countdown | src/pages/Dashboard.jsx:25-46 | 'Expired' exactly when diff <= 0; otherwise the two largest non-zero units, each the floor of the time left, bounded in milliseconds |
| Countdown.LastSecondShowsZero | src/pages/Dashboard.jsx:33-45 | less than a second left reads '0s left' |
| DashboardHelpers.Toggle | src/pages/Dashboard.jsx:260-265 | the id's membership is flipped, and every other id is unchanged |
| DashboardHelpers.ToggleTwice | src/pages/Dashboard.jsx:260-265 | toggling twice gives back the selection |
| DashboardHelpers.Put | src/pages/Dashboard.jsx:693 | `Map.set` keeps one entry per file id: the new row replaces the old one of its id |
| DashboardHelpers.Dedup | src/pages/Dashboard.jsx:693 | the de-duplicated list has one row per file id |
| DashboardHelpers.DedupKeepsLast | src/pages/Dashboard.jsx:691-693 | for each file id, the de-duplicated list holds exactly the last row with that id |
| DashboardHelpers.FilesToShare | src/pages/Dashboard.jsx:690-695 | the files to share are exactly the de-duplicated rows whose id was selected, one per id |
| DashboardHelpers.SafeName | src/pages/Dashboard.jsx:453 | every character outside `[a-zA-Z0-9.\-_]` becomes '_', the others are kept, and the length is unchanged |
| DashboardHelpers.SafeNameIdempotent | src/pages/Dashboard.jsx:453 | sanitising twice is sanitising once |
| DashboardHelpers.StoragePathStaysInFolder | src/pages/Dashboard.jsx:453-454 | with a file id free of '/', the storage path has no '/' after `demo/`, whatever the file name |
| Sharing.ShareStep | src/pages/Dashboard.jsx:703-766 | a file is skipped exactly when the sharer neither owns it nor has a share row of it |
| Sharing.ShareStepGrants | src/pages/Dashboard.jsx:727-758 | a granting step leaves one row for the pair with the sharer's key sealed for the recipient and the chosen expiry |
| Sharing.ShareAllKeepsValid | src/pages/Dashboard.jsx:703-766 | the share loop keeps the table invariant whether it completes or stops |
| Sharing.GrantedKeepsOtherFile | src/pages/Dashboard.jsx:733-758 | a grant for one file leaves the grants of other files in place |
| Sharing.ShareAllKeepsGrant | src/pages/Dashboard.jsx:703-766 | later steps about other files leave an earlier grant in place |
| Sharing.ShareAllGrantsOwned | src/pages/Dashboard.jsx:703-766 | when the loop completes, every listed file the sharer owns has one row for the recipient with the owner's key sealed for them and the expiry |
| Sharing.ShareAllGrantsHead | src/pages/Dashboard.jsx:703-766 | the first file of a completed loop, owned by the sharer, ends with its key sealed for the recipient and the expiry in the share table |
| Sharing.RecipientReadsSharedFile | src/pages/Dashboard.jsx:703-766 | end to end: once the owner has shared a file, the recipient's read returns the key the upload wrapped (also lines 417-441) |
| Sharing.GrantReads | src/pages/Dashboard.jsx:417-435 | a recipient with an unexpired grant obtains the key that grant unwraps to |
| Sharing.ExpiredRecipientCanReshare | src/pages/Dashboard.jsx:715-725 | a recipient whose share has expired is refused a read but still unwraps the key to share it on |
| Sharing.FolderShareRows | src/pages/Dashboard.jsx:572-593 | one `folder_shares` row per listed folder |
| Sharing.ShareIdMapLookup | src/pages/Dashboard.jsx:572-592 | a folder is in the id map exactly when it was shared earlier in the run, and maps to that share's id |
| Sharing.ParentListedEarlier | src/pages/Dashboard.jsx:567-569 | in the list of the root followed by its subfolders, every subfolder's parent comes earlier |
| Sharing.FolderSharesMirrorTree | src/pages/Dashboard.jsx:572-593 | each share names its folder and the recipient; the root's share has no parent share; every other share points at the share of its parent folder made earlier in the run |
| Sharing.ShareLinksParent | src/pages/Dashboard.jsx:575 | a folder whose parent was shared earlier gets that parent's share id as `parent_share_id` |
| Sharing.FolderFileStep | src/pages/Dashboard.jsx:608-645 | a file whose owner has no `users` row, or whose owner key does not unwrap, is skipped |
| Sharing.FolderFileStepGrants | src/pages/Dashboard.jsx:615-642 | a file not skipped is granted with the owner's key as the sharer unwraps it, sealed for the recipient |
| Sharing.ShareFolderFilesKeepsValid | src/pages/Dashboard.jsx:608-646 | the folder's file loop keeps the table invariant |
| Sharing.ShareFolderFilesGrants | src/pages/Dashboard.jsx:608-646 | after the folder's file loop, every file of the tree it does not skip (owner row present or the sharer's own file, key unwraps and wraps) has exactly one row for the recipient, holding the owner's file key sealed for the recipient with the chosen expiry |
| Sharing.ForeignFileSkipped | src/pages/Dashboard.jsx:615-619 | a file owned by someone else is never shared by the folder loop: the owner key does not open with the sharer's key pair |
| Dashboard.Store.constructor | src/pages/Dashboard.jsx:89-97 | an empty store with the given users is valid; every id counter starts at 1, as a serial column does, and `Valid` keeps every id positive, so no id is the falsy 0 that `!!file.shared_id` (also line 811) and `folder.parent_id ? … : null` (also line 575) test against |
| Dashboard.Store.ReadFile | src/pages/Dashboard.jsx:329-443 | a missing blob throws first; without rotation the read is the row's plaintext and nothing changes; a rotating read has the rotation's effect; any successful read returns what the row stood for |
| Dashboard.Store.Rotate | src/pages/Dashboard.jsx:351-407 | the owner's rotating read unwraps, decrypts, re-encrypts and installs, with exactly the rotation's effect |
| Dashboard.Store.Install | src/pages/Dashboard.jsx:375-407 | the writes of a rotation in order: upload, owner key (a failure ends there), share rows until one fails, then the read |
| Dashboard.Store.ReadCurrent | src/pages/Dashboard.jsx:329-443 | a read of the row as `files` holds it now: a missing row gives RowMissing, and a success is that row's plaintext |
| Dashboard.Store.UploadFile | src/pages/Dashboard.jsx:446-490 | the ciphertext is stored under the sanitised path first; then the key is wrapped for the owner's public key, and one row is added with the owner, folder, path, wrapped key and IV, unless the id is taken |
| Dashboard.Store.UploadFolder | src/pages/Dashboard.jsx:492-553 | returns the id map and the created folder rows: `Planned` holds of them (an id for exactly the named directories, fresh and distinct; one row per directory, each the row made for its directory: its id, its last segment, the folder of its enclosing directory or the starting folder as parent, the user as owner); the folder list is the old one followed by exactly those rows, and the next folder id moves by their number; then the bucket and the file table are exactly `BlobsAfter` and `FilesAfter`, the per-file upload effect folded over the files in order; every file's ciphertext stored; every new file row is one of the files, in the folder of its directory |
| Dashboard.Store.UploadFiles | src/pages/Dashboard.jsx:539-546 | each file is uploaded in order into the folder of its directory: the bucket and the file table become exactly `BlobsAfter` and `FilesAfter` of the old ones, and the folder table is untouched |
| Dashboard.Store.UploadInto | src/pages/Dashboard.jsx:545 | a nested upload has exactly `handleUploadFile`'s effect: the file's ciphertext written under its path, and its row (if the owner row is there and the key wraps) inserted unless the id is taken |
| Dashboard.UploadRow | src/pages/Dashboard.jsx:460-482 | the row an upload inserts carries the file's id, the owner, the target folder and the sanitised storage path |
| Dashboard.FilesAfter | src/pages/Dashboard.jsx:539-546 | the file table after the first k files of a folder upload is the old table with those files' rows inserted in turn |
| Dashboard.InsertAllAppends | src/pages/Dashboard.jsx:471-482 | inserting rows in turn keeps the table's rows as a prefix and appends only rows that were inserted |
| Dashboard.InsertAllAdds | src/pages/Dashboard.jsx:471-482 | a row whose id is new to the table and to every row inserted before it ends up in the table |
| Dashboard.PutAllHas | src/pages/Dashboard.jsx:457 | every path uploaded to is in the bucket afterwards |
| Dashboard.PutAllOnly | src/pages/Dashboard.jsx:457 | every object in the bucket after the uploads was there before or was uploaded to |
| Dashboard.PutAllKeeps | src/pages/Dashboard.jsx:457 | an object no upload names keeps its bytes |
| Dashboard.PutAllLastWrite | src/pages/Dashboard.jsx:457 | with `upsert`, a path holds the bytes of the last upload to it |
| Dashboard.UploadsReachStoredPaths | src/pages/Dashboard.jsx:539-546 | after a folder upload every file's storage path is in the bucket |
| Dashboard.UploadsWriteOnlyTheirPaths | src/pages/Dashboard.jsx:539-546 | a folder upload writes no object but the files' storage paths |
| Dashboard.UploadsKeepOtherBlobs | src/pages/Dashboard.jsx:539-546 | every object that none of the files writes keeps its bytes |
| Dashboard.UploadsStoreCiphertexts | src/pages/Dashboard.jsx:539-546 | each file's path holds that file's ciphertext unless a later file of the upload writes the same path |
| Dashboard.UploadsOnlyAppend | src/pages/Dashboard.jsx:539-546 | the file table keeps its rows and gains only rows of the uploaded files, each in the folder of its directory |
| Dashboard.UploadsAddRows | src/pages/Dashboard.jsx:539-546 | a file whose owner has a `users` row, whose key wraps for the owner and whose id is new to the table and to the files before it gets its row (also lines 460-482) |
| Dashboard.Store.ShareFiles | src/pages/Dashboard.jsx:670-774 | an unknown recipient changes nothing; otherwise the share table is what the share loop leaves over the de-duplicated selected files |
| Dashboard.Store.ShareFolder | src/pages/Dashboard.jsx:555-653 | an unknown recipient or root changes nothing; otherwise one folder share per folder of the tree, linked to its parent's share, and the file loop's grants (also lines 776-807) |
| Dashboard.Store.DeleteFile | src/pages/Dashboard.jsx:810-858 | a shared copy deletes its share row only; an owned file loses all its share rows, its ciphertext and its row |
| Dashboard.Store.DeleteFolder | src/pages/Dashboard.jsx:881-940 | a shared folder deletes its share only; otherwise the folder and its subfolders lose rows and shares, and every file in the tree loses its row, shares and ciphertext |
| Dashboard.Store.LoadShared | src/pages/Dashboard.jsx:177-202 | the user's expired shares are deleted and no other row is; the list is the user's shares that are still valid |
| Dashboard.Store.CleanupTick | src/pages/Dashboard.jsx:235-257 | the listed entries that expired are deleted; the list drops everything not still valid when one expired, and is kept otherwise |
| Dashboard.ReadAsIs | src/pages/Dashboard.jsx:410-442 | a read without rotation is the row's plaintext: key by ownership or access check, then decryption with the row's IV |
| Dashboard.Reencrypt | src/pages/Dashboard.jsx:361-372 | the new key string is the `btoa` of 32 fresh bytes, and the new ciphertext is the plaintext under them and the old IV |
| Dashboard.RotationKeepsContent | src/pages/Dashboard.jsx:358-407 | a successful rotating read returns exactly the plaintext the row held before |
| Dashboard.RotationSucceeded | src/pages/Dashboard.jsx:351-407 | a rotating read succeeds only if the old key opened the old ciphertext, and returns the new ciphertext read under the new key |
| Dashboard.StaleRowRereadFails | src/pages/Dashboard.jsx:341-361 | re-reading from the row loaded before a rotation rotates again with the old key and fails authentication, changing nothing |
| Dashboard.FreshRowRereads | src/pages/Dashboard.jsx:379-382 | re-reading the row the rotation wrote returns the same plaintext, with no rotation due for an hour |
| Dashboard.FileById | src/pages/Dashboard.jsx:850 | the row found has the id; nothing is found only when no row has it |
| Dashboard.OwnerReadsUpload | src/pages/Dashboard.jsx:451-482 | what an upload stores reads back as the uploaded content for its owner |
| Dashboard.SortPaths | src/pages/Dashboard.jsx:514-516 | the creation order is the depth sort of the table's keys: shallower first, each directory once, exactly the table's paths |
| Dashboard.AssignFolderIds | src/pages/Dashboard.jsx:518-537 | each sorted directory gets the next id, and its row names the id of its enclosing directory or the current folder |
| Dashboard.NextFolder | src/pages/Dashboard.jsx:518-531 | the row made for the k-th directory carries the next id and the last path segment, and as parent the id already handed to its enclosing directory, or the current folder for a top directory |
| Dashboard.PlanFolders | src/pages/Dashboard.jsx:497-537 | `Planned`: the id map covers exactly the named directories; as many rows as directories; each directory has its row, and each row is the row made for one directory (id, last segment as name, parent folder or starting folder, owner); ids are fresh, in range and distinct |
| Dashboard.FoldersPlanned | src/pages/Dashboard.jsx:497-537 | the ids handed out in creation order cover exactly the named directories, each with its folder row under its parent, fresh, in range and pairwise distinct |
| Dashboard.CreatedRowsFor | src/pages/Dashboard.jsx:518-536 | there are as many created rows as ids, and every created row is the row made for one directory |
| Dashboard.IdsUpToSize | src/pages/Dashboard.jsx:514-518 | the paths are distinct, so the creation order hands out one id per directory: as many ids as directories |
| Dashboard.IdsInRange | src/pages/Dashboard.jsx:518-536 | every directory's id lies in the range handed out from the base |
| Dashboard.AddFolders | src/pages/Dashboard.jsx:497-537 | `Planned` holds of the ids and rows it returns; the folder list is the old one followed by exactly those rows; the next id moves by the number of directories, and every folder id stays positive and below it; every file's directory has a folder |
| Dashboard.DirsInIds | src/pages/Dashboard.jsx:539-543 | every file's directory, unless it is the top, has an entry in the folder table, so computing `targetFolderId` never misses |
| Dashboard.Dirs | src/pages/Dashboard.jsx:500-501 | the directory of each file is its relative path without the last segment |
| Dashboard.ShareLoop | src/pages/Dashboard.jsx:703-766 | the imperative share loop computes exactly the fold `ShareAll` |
| Dashboard.FolderShareLoop | src/pages/Dashboard.jsx:572-593 | the imperative folder-share loop inserts exactly `FolderShareRows` |
| Dashboard.FolderFilesLoop | src/pages/Dashboard.jsx:608-646 | the imperative per-file loop computes exactly the fold `ShareFolderFiles` |
| Dashboard.RewrapVisit | src/pages/Dashboard.jsx:391-402 | one visit fails exactly when the recipient has a key that does not wrap; otherwise the visited set grows by the row |
| Dashboard.RewrapLoop | src/pages/Dashboard.jsx:385-403 | the rotation's loop re-wraps the file's rows up to the first failing wrap and returns that error |
| Dashboard.SharesOf | src/pages/Dashboard.jsx:177-186 | the selected shares are exactly the user's rows |
| Dashboard.ShareIdsOf | src/pages/Dashboard.jsx:191-192 | the ids of the rows, in order |
| Dashboard.DeleteFileFromDb | src/pages/Dashboard.jsx:861-879 | deleting an owned file removes its share rows, then its ciphertext, then its row, keeping the invariant |
| Dashboard.DeleteFilesLoop | src/pages/Dashboard.jsx:907-912 | exactly the listed files lose rows, shares and ciphertexts |
| Dashboard.DeleteFoldersLoop | src/pages/Dashboard.jsx:932-935 | exactly the listed folders lose their rows and shares |
| Dashboard.Reverse | src/pages/Dashboard.jsx:930 | element k of the reverse is element n-1-k |
| Dashboard.DeleteTree | src/pages/Dashboard.jsx:896-939 | the owner's branch removes exactly the tree's folders, their shares, and the tree's files with their shares and ciphertexts |
| Dashboard.ReverseSameIds | src/pages/Dashboard.jsx:930-935 | reversing the subfolder list deletes the same folders |
| Dashboard.TreeDeletedRevokes | src/pages/Dashboard.jsx:896-912 | after the tree is deleted, no file in it keeps a row, a share or a ciphertext |
| Dashboard.OwnerDeleteRevokes | src/pages/Dashboard.jsx:829-832 | after the owner deletes a file, every other user is told they have no access |
| Dashboard.SharedCopyDeleteRevokes | src/pages/Dashboard.jsx:820-826 | deleting a shared copy revokes exactly that recipient, and every other row stays |
| Dashboard.DeleteShareIds | src/pages/Dashboard.jsx:191-194 | exactly the rows with the listed ids are deleted, keeping the invariant (also lines 244-248) |
| Dashboard.PurgeLeavesNoExpired | src/pages/Dashboard.jsx:188-197 | after the purge, each remaining row of the user is listed or expires exactly now |
| Dashboard.TickOutcome | src/pages/Dashboard.jsx:239-252 | a tick keeps no expired entry and every still-valid one; an entry expiring exactly now stays exactly when nothing else expired |
| Dashboard.TickAfterLoadKeepsList | src/pages/Dashboard.jsx:196-202 | a tick at the time of loading finds nothing expired, so it keeps the list (also lines 239-252) |

## Left out

**Modelled only through stated laws, not as algorithms.**
- The primitives: `crypto_box_seal`/`_open`, AES-GCM (NIST SP 800-38D), Argon2id `crypto_pwhash` (RFC 9106) and the random sources.
  - The model assumes the laws in `Primitives.Lawful`: round trips, authenticity, rejection under another key, and output sizes.
  - Sealing is deterministic in the model: the ephemeral key of a sealed box is not modelled.

**Inputs standing in for effects.**
- Randomness: a draw number `draw`.
- The clock: one `now` stands for the several clock reads of a handler.
- `crypto.randomUUID()`: the file id is a parameter.
- The username lookup: the recipient's user id is a parameter (`recipientId`), and none stands for an empty or unknown name.
- `new Date(...)` parsing: times are integer milliseconds.
  - The two `new Date(shareExpiresAt).toISOString()` conversions are not modelled.

**Backend behaviour not modelled.**
- Supabase failures:
  - writes whose result the source ignores always succeed;
  - the `if (error) throw` branches after deletes and inserts are never taken;
  - no transactions.
- Row-level security and ownership checks of the backend: handleDeleteFolder deletes every file of the tree, whoever owns it.
- FolderTree.Subfolders, FolderTree.FilesInTree: the walks are bounded by `|folders|` levels. The source's recursion is unbounded; the bound reaches every folder of an acyclic table. Dashboard.Store.ShareFolder and Dashboard.Store.DeleteFolder inherit this bound.
- FolderTree.Breadcrumb: on a cyclic parent chain the source loops forever; the model stops after `|list| + 1` folders (`FolderTree.CutBreadcrumbRepeats` shows only a cycle reaches that).
- Dashboard.Store.ShareFolder: a missing root row makes the source throw a TypeError on `null.parent_id`. The model reports `RowMissing` and writes nothing.
- `.single()` for the root folder reads the first match (`FolderTree.Find`).

**Parts of the page not modelled.**
- The signature check of handleDownload (src/pages/Dashboard.jsx:305-309) is not part of this model, because src/crypto/keyPair.js is not part of this model. Preview skips the check. A rotation re-encrypts the file without re-signing it, so the stored signature no longer matches.
- handleDownloadFolder (src/pages/Dashboard.jsx:120-163): JSZip and browser downloads.
- React state, effects and timers, alerts and JSX.
  - After a delete, the filtering of the page's lists (src/pages/Dashboard.jsx:850-851, 943-946) only touches the page's own state.
  - The shared-folder mapping of loadData (src/pages/Dashboard.jsx:207-223) and the owner's folder and file listing (171-174) are display only.
- Countdown.Countdown: returns the units it shows rather than the formatted text, and leaves out the colour and weight choices of the component.
- The `shared_id` branch of deleteFileFromDB (src/pages/Dashboard.jsx:862-865) filters on a column `file_shares` does not have. It is only ever reached with rows read from `files`, which carry no `shared_id`, so the branch is unreachable and not modelled.

**Other files and representation choices.**
- JavaScript strings are UTF-16 code units; the model uses `char`. Paths are sequences of segments rather than '/'-joined strings.
- src/crypto/keyPair.js, src/crypto/fileSharing.js, src/crypto/initSodium.js, src/utils/session.js and the Register and Login pages are not part of this model.
  - The private-key-at-rest functions those pages import are not defined in the shown code.

**The unwrap call, modelled as corrected.** The dashboard's calls of `decryptFileKeyForUser` (src/pages/Dashboard.jsx:351-355, 431-435, 615-619, 708-712, 721-725) always throw 'Missing parameters'. The members below model the page with the positional call instead; as written they do the following.
- Envelope.Unwrap: models the corrected positional call; the call as written is `Envelope.UnwrapAsWritten`, always refused (`Envelope.OptionsObjectCallRejected`).
- Envelope.KeyFor: as written, the owner's unwrap (351-355) and a recipient's unwrap (431-435) both throw, so no read obtains a key.
- Dashboard.ReadAsIs: as written, every read throws 'Missing parameters' before decryption.
- Dashboard.Store.ReadFile: as written, an owner read throws at 351-355 before the `needRotate` test, so no owner read succeeds and no rotation ever happens; a shared read fails the same way at 431-435.
- Dashboard.Store.Rotate: as written, never reached, because the unwrap before it throws.
- Dashboard.Store.ShareFiles, Dashboard.ShareLoop, Sharing.ShareStep: as written, the loop stops with 'Missing parameters' at the first file the sharer owns (708-712) or holds a share of (721-725). No row is written for that file or any later one.
- Dashboard.Store.ShareFolder, Dashboard.FolderFilesLoop, Sharing.FolderFileStep: as written, every `folder_shares` row is inserted. Then each file's unwrap at 615-619 throws into the per-file `catch` at 643, so no file of the tree is shared.

**Plain-object lookups not modelled.**
- FolderUpload.BuildStructure: the table is a map, while the source's `folderStructure` is a plain `{}` (src/pages/Dashboard.jsx:497). Its test `if (!folderStructure[currentPath])` at 508 sees inherited properties. A selected top folder named after an `Object.prototype` property (`constructor`, `toString`, `valueOf`, `hasOwnProperty`, `__proto__`, …) therefore gets no entry in the source. The model creates one, and its "exactly the named directories" does not hold for such a name.
- Dashboard.Store.UploadFolder: for such a top folder the source creates no folder row for it. Its subdirectories get `parent_id` undefined (520-522) and land at the root. Its files get an undefined `targetFolderId` (543), so handleUploadFile's default folder applies. The model creates the folder and puts both under it.

**Behaviour the model follows as written.**
- Rotation re-wraps every share row of the file, expired ones included. A wrap that throws ends the loop, and the rows after it keep the old key.
- The non-owner path of handleShareSubmit looks up the sharer's share without checking its expiry (`Sharing.ExpiredRecipientCanReshare`). The `parentShareId` it computes is never stored.

## Findings

| source | as written | input that shows it | evidently intended | confidence | as-written member | corrected member |
|---|---|---|---|---|---|---|
| src/pages/Dashboard.jsx:351-355 | every call of `decryptFileKeyForUser` (also 431-435, 615-619, 708-712, 721-725) passes one options object, while the function takes three positional arguments and rejects a missing second one | any file row and any session: the guard at src/crypto/shareFileKey.js:19 sees `senderPublicKeyBase64` undefined and throws 'Missing parameters' | pass the sealed key, the session's public key and its private key positionally | high; not executed | Envelope.OptionsObjectCallRejected | Envelope.UnwrapOwnWrap |
| src/pages/Dashboard.jsx:341-361 | the rotation updates the `files` row but not the row object the page keeps, so the next read of that file starts from the old key and the old `updated_at` | an owner reads a file whose key is over an hour old, then reads it again without reloading: the second read rotates again, unwraps the old key and fails authentication on the rotated ciphertext | read the current row, or refresh the page's row after a rotation | medium; not executed | Dashboard.StaleRowRereadFails | Dashboard.FreshRowRereads |
