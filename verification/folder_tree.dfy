/** The folder bookkeeping of src/pages/Dashboard.jsx: the `folders` table, the recursive
    subtree listings used when a folder is shared or deleted, and the breadcrumb
    walk up the parent links. Recursion that the source leaves unbounded (it would not
    terminate on a cyclic parent chain) takes a `fuel` bound here. */
module FolderTree {
  import opened Common
  import opened ShareTable
  import opened FileTable

  /** One `folders` row: `folder_id`, `name`, `parent_id`, `owner_id`. */
  datatype FolderRow = FolderRow(folderId: FolderId, name: string, parentId: Option<FolderId>, ownerId: UserId)

  /** One `folder_shares` row: `id`, `folder_id`, `shared_with_user_id`, `parent_share_id`. */
  datatype FolderShareRow = FolderShareRow(id: nat, folderId: FolderId, recipient: UserId, parentShareId: Option<nat>)

  function FolderIds(fs: seq<FolderRow>): set<FolderId> {
    set f | f in fs :: f.folderId
  }

  /** `.from('folders').delete().eq('folder_id', fid)`. */
  function DeleteFolderRow(folders: seq<FolderRow>, fid: FolderId): (out: seq<FolderRow>)
    ensures forall f :: f in out <==> f in folders && f.folderId != fid
  {
    Where(folders, (f: FolderRow) => f.folderId != fid)
  }

  /** `.from('folder_shares').delete().eq('folder_id', fid)`. */
  function DeleteSharesOfFolder(rows: seq<FolderShareRow>, fid: FolderId): (out: seq<FolderShareRow>)
    ensures forall s :: s in out <==> s in rows && s.folderId != fid
  {
    Where(rows, (s: FolderShareRow) => s.folderId != fid)
  }

  /** `.from('folder_shares').delete().eq('id', id)`. */
  function DeleteFolderShare(rows: seq<FolderShareRow>, id: nat): (out: seq<FolderShareRow>)
    ensures forall s :: s in out <==> s in rows && s.id != id
  {
    Where(rows, (s: FolderShareRow) => s.id != id)
  }

  /** `.select('*').eq('parent_id', fid)`. */
  function Children(folders: seq<FolderRow>, fid: FolderId): (out: seq<FolderRow>)
    ensures forall f :: f in out <==> f in folders && f.parentId == Some(fid)
  {
    Where(folders, (f: FolderRow) => f.parentId == Some(fid))
  }

  /** `getAllSubfolders(fid)`: the direct children, then the subfolders of each child in
      turn, down to depth `fuel`. */
  function Subfolders(folders: seq<FolderRow>, fid: FolderId, fuel: nat): seq<FolderRow>
    decreases fuel, 0, 0
  {
    if fuel == 0 then []
    else Children(folders, fid) + SubfoldersOfEach(folders, Children(folders, fid), fuel - 1)
  }

  /** The concatenation of `getAllSubfolders(sf.folder_id)` over the folders `cs`. */
  function SubfoldersOfEach(folders: seq<FolderRow>, cs: seq<FolderRow>, fuel: nat): seq<FolderRow>
    decreases fuel, 1, |cs|
  {
    if cs == [] then []
    else Subfolders(folders, cs[0].folderId, fuel) + SubfoldersOfEach(folders, cs[1..], fuel)
  }

  /** Every folder of `list` hangs below one of `roots` or below a folder listed
      earlier: reading the list front to back meets every parent before its children. */
  predicate ParentsFirst(list: seq<FolderRow>, roots: set<FolderId>) {
    forall j :: 0 <= j < |list| ==>
      list[j].parentId.Some? &&
      (list[j].parentId.value in roots || exists i :: 0 <= i < j && list[i].folderId == list[j].parentId.value)
  }

  lemma ParentsFirstWiden(list: seq<FolderRow>, roots: set<FolderId>, roots': set<FolderId>)
    requires ParentsFirst(list, roots) && roots <= roots'
    ensures ParentsFirst(list, roots')
  {
    forall j | 0 <= j < |list|
      ensures list[j].parentId.Some? &&
              (list[j].parentId.value in roots' || exists i :: 0 <= i < j && list[i].folderId == list[j].parentId.value)
    {
    }
  }

  /** Appending a list whose parents come from `roots` or the first list keeps the order. */
  lemma ParentsFirstAppend(a: seq<FolderRow>, b: seq<FolderRow>, roots: set<FolderId>)
    requires ParentsFirst(a, roots) && ParentsFirst(b, roots + FolderIds(a))
    ensures ParentsFirst(a + b, roots)
  {
    var ab := a + b;
    forall j | 0 <= j < |a|
      ensures ab[j].parentId.Some? &&
              (ab[j].parentId.value in roots || exists i :: 0 <= i < j && ab[i].folderId == ab[j].parentId.value)
    {
      assert ab[j] == a[j];
      if a[j].parentId.value !in roots {
        var i :| 0 <= i < j && a[i].folderId == a[j].parentId.value;
        assert ab[i] == a[i];
      }
    }
    forall j | |a| <= j < |ab|
      ensures ab[j].parentId.Some? &&
              (ab[j].parentId.value in roots || exists i :: 0 <= i < j && ab[i].folderId == ab[j].parentId.value)
    {
      assert ab[j] == b[j - |a|];
      var p := ab[j].parentId.value;
      if p !in roots {
        if p in FolderIds(a) {
          var f :| f in a && f.folderId == p;
          var i :| 0 <= i < |a| && a[i] == f;
          assert ab[i] == f;
        } else {
          var i :| 0 <= i < j - |a| && b[i].folderId == p;
          assert ab[i + |a|] == b[i];
        }
      }
    }
  }

  /** The listing of `getAllSubfolders` meets every parent before its children, so its
      reverse (the deletion order) meets every child before its parent. */
  lemma {:induction false} SubfoldersParentsFirst(folders: seq<FolderRow>, fid: FolderId, fuel: nat)
    ensures ParentsFirst(Subfolders(folders, fid, fuel), {fid})
    decreases fuel, 0, 0
  {
    if fuel > 0 {
      var cs := Children(folders, fid);
      assert ParentsFirst(cs, {fid}) by {
        forall j | 0 <= j < |cs| ensures cs[j].parentId == Some(fid) {
          assert cs[j] in cs;
        }
      }
      SubfoldersOfEachParentsFirst(folders, cs, fuel - 1);
      ParentsFirstWiden(SubfoldersOfEach(folders, cs, fuel - 1), FolderIds(cs), {fid} + FolderIds(cs));
      ParentsFirstAppend(cs, SubfoldersOfEach(folders, cs, fuel - 1), {fid});
    }
  }

  lemma {:induction false} SubfoldersOfEachParentsFirst(folders: seq<FolderRow>, cs: seq<FolderRow>, fuel: nat)
    ensures ParentsFirst(SubfoldersOfEach(folders, cs, fuel), FolderIds(cs))
    decreases fuel, 1, |cs|
  {
    if cs != [] {
      var head := Subfolders(folders, cs[0].folderId, fuel);
      var rest := SubfoldersOfEach(folders, cs[1..], fuel);
      SubfoldersParentsFirst(folders, cs[0].folderId, fuel);
      SubfoldersOfEachParentsFirst(folders, cs[1..], fuel);
      assert cs[0] in cs;
      ParentsFirstWiden(head, {cs[0].folderId}, FolderIds(cs));
      forall f | f in cs[1..] ensures f in cs {
      }
      ParentsFirstWiden(rest, FolderIds(cs[1..]), FolderIds(cs) + FolderIds(head));
      ParentsFirstAppend(head, rest, FolderIds(cs));
    }
  }

  /** Every folder listed lies below `fid` in the table. */
  lemma {:induction false} SubfoldersFromTable(folders: seq<FolderRow>, fid: FolderId, fuel: nat)
    ensures forall f :: f in Subfolders(folders, fid, fuel) ==> f in folders
    decreases fuel, 0, 0
  {
    if fuel > 0 {
      SubfoldersOfEachFromTable(folders, Children(folders, fid), fuel - 1);
    }
  }

  lemma {:induction false} SubfoldersOfEachFromTable(folders: seq<FolderRow>, cs: seq<FolderRow>, fuel: nat)
    ensures forall f :: f in SubfoldersOfEach(folders, cs, fuel) ==> f in folders
    decreases fuel, 1, |cs|
  {
    if cs != [] {
      SubfoldersFromTable(folders, cs[0].folderId, fuel);
      SubfoldersOfEachFromTable(folders, cs[1..], fuel);
    }
  }

  /** The reversed list: every folder whose parent is listed comes before that parent. */
  lemma ReverseChildrenFirst(list: seq<FolderRow>, root: FolderId, rev: seq<FolderRow>)
    requires ParentsFirst(list, {root})
    requires |rev| == |list| && forall k :: 0 <= k < |list| ==> rev[k] == list[|list| - 1 - k]
    ensures forall j :: 0 <= j < |rev| ==>
      rev[j].parentId == Some(root) || exists i :: j < i < |rev| && rev[i].folderId == rev[j].parentId.value
  {
    forall j | 0 <= j < |rev|
      ensures rev[j].parentId == Some(root) || exists i :: j < i < |rev| && rev[i].folderId == rev[j].parentId.value
    {
      var jj := |list| - 1 - j;
      assert rev[j] == list[jj];
      if rev[j].parentId != Some(root) {
        var ii :| 0 <= ii < jj && list[ii].folderId == list[jj].parentId.value;
        assert rev[|list| - 1 - ii] == list[ii];
      }
    }
  }

  /** `getAllFilesInFolder(fid)`: the files directly in `fid`, then those below each
      child folder in turn, down to depth `fuel`. */
  function FilesInTree(folders: seq<FolderRow>, files: seq<FileRow>, fid: FolderId, fuel: nat): seq<FileRow>
    decreases fuel, 0, 0
  {
    FilesIn(files, fid) + (if fuel == 0 then [] else FilesOfEach(folders, files, Children(folders, fid), fuel - 1))
  }

  function FilesOfEach(folders: seq<FolderRow>, files: seq<FileRow>, cs: seq<FolderRow>, fuel: nat): seq<FileRow>
    decreases fuel, 1, |cs|
  {
    if cs == [] then []
    else FilesInTree(folders, files, cs[0].folderId, fuel) + FilesOfEach(folders, files, cs[1..], fuel)
  }

  /** Whether file `f` sits in `fid` or in one of the subfolders listed for it. */
  predicate InTree(folders: seq<FolderRow>, f: FileRow, fid: FolderId, fuel: nat) {
    f.folderId.Some? && (f.folderId.value == fid || f.folderId.value in FolderIds(Subfolders(folders, fid, fuel)))
  }

  /** The files listed for a folder are exactly the table's files in that folder or in
      one of its listed subfolders. */
  lemma {:induction false} FilesInTreeExact(folders: seq<FolderRow>, files: seq<FileRow>, fid: FolderId, fuel: nat)
    ensures forall f :: f in FilesInTree(folders, files, fid, fuel) <==> f in files && InTree(folders, f, fid, fuel)
    decreases fuel, 0, 0
  {
    if fuel > 0 {
      var cs := Children(folders, fid);
      FilesOfEachExact(folders, files, cs, fuel - 1);
      assert Subfolders(folders, fid, fuel) == cs + SubfoldersOfEach(folders, cs, fuel - 1);
    }
  }

  lemma {:induction false} FilesOfEachExact(folders: seq<FolderRow>, files: seq<FileRow>, cs: seq<FolderRow>, fuel: nat)
    ensures forall f :: f in FilesOfEach(folders, files, cs, fuel) <==>
      f in files && f.folderId.Some? &&
      (f.folderId.value in FolderIds(cs) || f.folderId.value in FolderIds(SubfoldersOfEach(folders, cs, fuel)))
    decreases fuel, 1, |cs|
  {
    if cs != [] {
      FilesInTreeExact(folders, files, cs[0].folderId, fuel);
      FilesOfEachExact(folders, files, cs[1..], fuel);
      assert cs == [cs[0]] + cs[1..];
      assert FolderIds(cs) == {cs[0].folderId} + FolderIds(cs[1..]);
      assert FolderIds(SubfoldersOfEach(folders, cs, fuel))
          == FolderIds(Subfolders(folders, cs[0].folderId, fuel)) + FolderIds(SubfoldersOfEach(folders, cs[1..], fuel));
    }
  }

  // ---------------------------------------------------------------- breadcrumb

  /** `list.find(f => f.folder_id === id)`: the first folder with that id; `null` never
      matches a folder id. */
  function Find(list: seq<FolderRow>, id: Option<FolderId>): (r: Option<FolderRow>)
    ensures r.Some? ==> r.value in list && id == Some(r.value.folderId)
    ensures r.None? ==> forall f :: f in list ==> id != Some(f.folderId)
  {
    if list == [] then None
    else if id == Some(list[0].folderId) then Some(list[0])
    else Find(list[1..], id)
  }

  /** `getBreadcrumb`: start at the current folder and prepend each parent until a
      parent is not found. The source loops forever on a cyclic parent chain; here the
      walk stops after `|list| + 1` folders, which only a cycle can reach. */
  method Breadcrumb(list: seq<FolderRow>, currentFolderId: Option<FolderId>) returns (path: seq<FolderRow>)
    ensures |path| <= |list| + 1
    ensures forall f :: f in path ==> f in list
    // the last entry is the current folder, and there is none when it is not found
    ensures path == [] <==> Find(list, currentFolderId).None?
    ensures path != [] ==> path[|path| - 1] == Find(list, currentFolderId).value
    // each entry is the folder the next entry names as its parent
    ensures forall i :: 0 <= i < |path| - 1 ==> Find(list, path[i + 1].parentId) == Some(path[i])
    // the walk ends at a folder whose parent is not in the list, unless it was cut
    ensures path != [] && |path| <= |list| ==> Find(list, path[0].parentId).None?
  {
    path := [];
    var folder := Find(list, currentFolderId);
    while folder.Some? && |path| <= |list|
      invariant |path| <= |list| + 1
      invariant forall f :: f in path ==> f in list
      invariant path == [] ==> folder == Find(list, currentFolderId)
      invariant path != [] ==> Find(list, currentFolderId).Some? && path[|path| - 1] == Find(list, currentFolderId).value
      invariant path != [] ==> folder == Find(list, path[0].parentId)
      invariant forall i :: 0 <= i < |path| - 1 ==> Find(list, path[i + 1].parentId) == Some(path[i])
      decreases |list| + 1 - |path|
    {
      path := [folder.value] + path;
      folder := Find(list, folder.value.parentId);
    }
  }

  /** A breadcrumb as long as the bound repeats a folder: the parent chain is cyclic,
      where the source's walk would not end. */
  lemma {:induction false} CutBreadcrumbRepeats(list: seq<FolderRow>, path: seq<FolderRow>)
    requires |path| == |list| + 1 && forall f :: f in path ==> f in list
    ensures exists i, j :: 0 <= i < j < |path| && path[i] == path[j]
  {
    if forall i, j :: 0 <= i < j < |path| ==> path[i] != path[j] {
      DistinctCardinality(path);
      SubsetCardinality(set f | f in path, set f | f in list);
      SetOfSeqCardinality(list);
    }
  }

  lemma {:induction false} DistinctCardinality(s: seq<FolderRow>)
    requires forall i, j :: 0 <= i < j < |s| ==> s[i] != s[j]
    ensures |set f | f in s| == |s|
  {
    if s != [] {
      var tail := s[1..];
      DistinctCardinality(tail);
      assert (set f | f in s) == (set f | f in tail) + {s[0]};
      forall k | 0 <= k < |tail| ensures tail[k] != s[0] {
        assert tail[k] == s[k + 1];
      }
    }
  }

  lemma {:induction false} SubsetCardinality(a: set<FolderRow>, b: set<FolderRow>)
    requires a <= b
    ensures |a| <= |b|
    decreases a
  {
    if a != {} {
      var x :| x in a;
      SubsetCardinality(a - {x}, b - {x});
    }
  }

  lemma {:induction false} SetOfSeqCardinality(s: seq<FolderRow>)
    ensures |set f | f in s| <= |s|
  {
    if s != [] {
      SetOfSeqCardinality(s[1..]);
      assert (set f | f in s) == (set f | f in s[1..]) + {s[0]};
    }
  }
}
