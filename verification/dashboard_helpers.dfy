/** Small pure pieces of src/pages/Dashboard.jsx that decide which rows an operation
    works on and where an upload is stored: the selection toggle, the de-duplication of
    the file lists before sharing, and the storage path of an upload. */
module DashboardHelpers {
  import opened Common
  import opened ShareTable
  import opened FileTable

  // ---------------------------------------------------------------- selection

  /** `toggleSelect(id)`: a copy of the selection with `id` removed when present and
      added when absent. */
  function Toggle<T(!new)>(selection: set<T>, id: T): (r: set<T>)
    ensures id in r <==> id !in selection
    ensures forall x :: x != id ==> (x in r <==> x in selection)
  {
    if id in selection then selection - {id} else selection + {id}
  }

  /** Toggling the same id twice gives the selection back. */
  lemma ToggleTwice<T(!new)>(selection: set<T>, id: T)
    ensures Toggle(Toggle(selection, id), id) == selection
  {
  }

  // ---------------------------------------------------------------- de-duplication

  predicate UniqueFileIds(rows: seq<FileRow>) {
    forall i, j :: 0 <= i < j < |rows| ==> rows[i].fileId != rows[j].fileId
  }

  /** `map.set(f.file_id, f)` on a `Map` kept as its entries in insertion order: an
      existing key keeps its place and takes the new row, a new key goes last. */
  function Put(entries: seq<FileRow>, f: FileRow): (r: seq<FileRow>)
    requires UniqueFileIds(entries)
    ensures UniqueFileIds(r)
    ensures forall g :: g in r <==> g == f || (g in entries && g.fileId != f.fileId)
  {
    if entries == [] then [f]
    else if entries[0].fileId == f.fileId then
      assert forall g :: g in entries[1..] ==> g.fileId != f.fileId by {
        forall k | 0 <= k < |entries[1..]| ensures entries[1..][k].fileId != f.fileId {
          assert entries[1..][k] == entries[k + 1];
        }
      }
      [f] + entries[1..]
    else
      var rest := Put(entries[1..], f);
      assert forall g :: g in rest ==> g.fileId != entries[0].fileId by {
        forall k | 0 <= k < |entries[1..]| ensures entries[1..][k].fileId != entries[0].fileId {
          assert entries[1..][k] == entries[k + 1];
        }
      }
      [entries[0]] + rest
  }

  /** `Array.from(new Map(allFiles.map(f => [f.file_id, f])).values())`. */
  function Dedup(all: seq<FileRow>): (r: seq<FileRow>)
    ensures UniqueFileIds(r)
  {
    if all == [] then [] else Put(Dedup(all[..|all| - 1]), all[|all| - 1])
  }

  /** `all[i]` is the last row of `all` with its file id. */
  predicate LastOfId(all: seq<FileRow>, i: nat)
    requires i < |all|
  {
    forall j :: i < j < |all| ==> all[j].fileId != all[i].fileId
  }

  /** The de-duplicated list holds, for every file id in the input, exactly the last
      row with that id. */
  lemma DedupKeepsLast(all: seq<FileRow>)
    ensures forall g :: g in Dedup(all) <==> exists i :: 0 <= i < |all| && all[i] == g && LastOfId(all, i)
  {
    DedupSound(all);
    DedupComplete(all);
  }

  /** Every row the de-duplication keeps is the last of its id. */
  lemma {:induction false} DedupSound(all: seq<FileRow>)
    ensures forall g :: g in Dedup(all) ==> exists i :: 0 <= i < |all| && all[i] == g && LastOfId(all, i)
  {
    if all != [] {
      var front := all[..|all| - 1];
      var f := all[|all| - 1];
      DedupSound(front);
      forall g | g in Dedup(all) ensures exists i :: 0 <= i < |all| && all[i] == g && LastOfId(all, i) {
        if g == f {
          assert LastOfId(all, |all| - 1);
        } else {
          assert g in Dedup(front) && g.fileId != f.fileId;
          var i :| 0 <= i < |front| && front[i] == g && LastOfId(front, i);
          LastOfIdExtend(all, i);
          assert all[i] == g;
        }
      }
    }
  }

  /** The last row of each id is kept. */
  lemma {:induction false} DedupComplete(all: seq<FileRow>)
    ensures forall i :: 0 <= i < |all| && LastOfId(all, i) ==> all[i] in Dedup(all)
  {
    if all != [] {
      var front := all[..|all| - 1];
      DedupComplete(front);
      forall i | 0 <= i < |all| && LastOfId(all, i) ensures all[i] in Dedup(all) {
        if i < |all| - 1 {
          LastOfIdExtend(all, i);
          assert front[i] == all[i];
        }
      }
    }
  }

  /** Seen from the whole list, an earlier row is last of its id exactly when it is
      last in the list without the final row and the final row has another id. */
  lemma LastOfIdExtend(all: seq<FileRow>, i: nat)
    requires i < |all| - 1
    ensures LastOfId(all, i) <==> LastOfId(all[..|all| - 1], i) && all[|all| - 1].fileId != all[i].fileId
  {
    var front := all[..|all| - 1];
    assert forall j :: i < j < |front| ==> front[j] == all[j];
  }

  /** `filesToShare`: the de-duplicated rows whose id was selected. */
  function FilesToShare(all: seq<FileRow>, targetIds: seq<FileId>): (r: seq<FileRow>)
    ensures UniqueFileIds(r)
    ensures forall g :: g in r <==> g in Dedup(all) && g.fileId in targetIds
  {
    WhereKeepsUnique(Dedup(all), (g: FileRow) => g.fileId in targetIds);
    Where(Dedup(all), (g: FileRow) => g.fileId in targetIds)
  }

  lemma {:induction false} WhereKeepsUnique(rows: seq<FileRow>, keep: FileRow -> bool)
    requires UniqueFileIds(rows)
    ensures UniqueFileIds(Where(rows, keep))
  {
    if rows != [] {
      WhereKeepsUnique(rows[1..], keep);
      forall g | g in Where(rows[1..], keep) ensures g.fileId != rows[0].fileId {
        var k :| 0 <= k < |rows[1..]| && rows[1..][k] == g;
        assert rows[k + 1] == g;
      }
    }
  }

  // ---------------------------------------------------------------- storage path

  /** The characters `/[^a-zA-Z0-9.\-_]/` leaves alone. */
  predicate SafeChar(c: char) {
    ('a' <= c <= 'z') || ('A' <= c <= 'Z') || ('0' <= c <= '9') || c == '.' || c == '-' || c == '_'
  }

  /** `name.replace(/[^a-zA-Z0-9.\-_]/g, '_')`. */
  function SafeName(name: string): (r: string)
    ensures |r| == |name|
    ensures forall k :: 0 <= k < |r| ==> SafeChar(r[k])
    ensures forall k :: 0 <= k < |name| && SafeChar(name[k]) ==> r[k] == name[k]
    ensures forall k :: 0 <= k < |name| && !SafeChar(name[k]) ==> r[k] == '_'
  {
    if name == [] then [] else [if SafeChar(name[0]) then name[0] else '_'] + SafeName(name[1..])
  }

  /** A name that is already safe is kept, so sanitising twice changes nothing. */
  lemma SafeNameIdempotent(name: string)
    ensures SafeName(SafeName(name)) == SafeName(name)
  {
    var once := SafeName(name);
    assert SafeName(once) == once;
  }

  /** `demo/${fileId}_${safeName}`. */
  function StoragePath(fileId: FileId, name: string): string {
    "demo/" + fileId + "_" + SafeName(name)
  }

  /** With a file id free of '/', the only '/' of the path is the one after "demo": a
      file name cannot place the ciphertext outside that folder. */
  lemma StoragePathStaysInFolder(fileId: FileId, name: string)
    requires '/' !in fileId
    ensures var p := StoragePath(fileId, name);
            p[..5] == "demo/" && forall k :: 5 <= k < |p| ==> p[k] != '/'
  {
    var p := StoragePath(fileId, name);
    var safe := SafeName(name);
    forall k | 5 <= k < |p| ensures p[k] != '/' {
      if k < 5 + |fileId| {
        assert p[k] == fileId[k - 5];
      } else if k > 5 + |fileId| {
        assert p[k] == safe[k - 6 - |fileId|];
      }
    }
  }
}
