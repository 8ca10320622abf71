/** The directory bookkeeping of handleUploadFolder (src/pages/Dashboard.jsx): the
    table of every directory named on the way to an uploaded file, and the order in
    which the folders are created. A directory path is its sequence of segments; the
    source keys the same table by the segments joined with '/'. */
module FolderUpload {
  import opened Common
  import opened FileTable

  /** The segments of a directory path, outermost first. */
  type Path = seq<string>

  /** One `folderStructure` entry: the enclosing path, the last segment, and the id of
      the folder once it has been created. */
  datatype Entry = Entry(parentPath: Path, name: string, folderId: Option<FolderId>)

  /** `p` is a non-empty leading part of the directory of one of the files. */
  ghost predicate NamedBy(dirs: seq<Path>, p: Path) {
    exists i, n :: 0 <= i < |dirs| && 1 <= n <= |dirs[i]| && p == dirs[i][..n]
  }

  /** The enclosing directory of `p`. */
  function Parent(p: Path): Path
    requires |p| > 0
  {
    p[..|p| - 1]
  }

  /** The entry the table holds for `p` before any folder is created. */
  function Fresh(p: Path): Entry
    requires |p| > 0
  {
    Entry(p[..|p| - 1], p[|p| - 1], None)
  }

  predicate Distinct(ps: seq<Path>) {
    forall i, j :: 0 <= i < j < |ps| ==> ps[i] != ps[j]
  }

  /** The leading parts of `parts` with 1 to `j` segments. */
  function Prefixes(parts: Path, j: nat): set<Path>
    requires j <= |parts|
  {
    if j == 0 then {} else Prefixes(parts, j - 1) + {parts[..j]}
  }

  /** Every non-empty leading part of the directories of the first `i` files. */
  function AllPrefixes(dirs: seq<Path>, i: nat): set<Path>
    requires i <= |dirs|
  {
    if i == 0 then {} else AllPrefixes(dirs, i - 1) + Prefixes(dirs[i - 1], |dirs[i - 1]|)
  }

  lemma {:induction false} PrefixesMembers(parts: Path, j: nat)
    requires j <= |parts|
    ensures forall p :: p in Prefixes(parts, j) <==> exists n :: 1 <= n <= j && p == parts[..n]
    ensures forall p {:trigger Parent(p)} :: p in Prefixes(parts, j) && |p| > 1 ==> Parent(p) in Prefixes(parts, j)
  {
    if j > 0 {
      PrefixesMembers(parts, j - 1);
      if j > 1 {
        assert parts[..j][..j - 1] == parts[..j - 1];
      }
    }
  }

  lemma {:induction false} AllPrefixesMembers(dirs: seq<Path>, i: nat)
    requires i <= |dirs|
    ensures forall p :: p in AllPrefixes(dirs, i) <==>
      exists k, n :: 0 <= k < i && 1 <= n <= |dirs[k]| && p == dirs[k][..n]
    ensures forall p {:trigger Parent(p)} :: p in AllPrefixes(dirs, i) && |p| > 1 ==> Parent(p) in AllPrefixes(dirs, i)
  {
    if i > 0 {
      AllPrefixesMembers(dirs, i - 1);
      PrefixesMembers(dirs[i - 1], |dirs[i - 1]|);
    }
  }

  /** The table holds a fresh entry for each of its paths, and `order` lists its
      paths once each. */
  ghost predicate Table(order: seq<Path>, structure: map<Path, Entry>) {
    (forall p :: p in structure ==> |p| > 0 && structure[p] == Fresh(p)) &&
    Distinct(order) && forall p :: p in order <==> p in structure
  }

  /** The first loop of handleUploadFolder: walk the directory of every file and add an
      entry for each leading part not yet in the table. `order` is the order of
      insertion. `Object.keys` lists an index-like key (a top directory named `2024`)
      first, but only a one-segment path can be index-like, a folder upload has a single
      top directory, and the sort by depth puts it first anyway, so the difference
      never reaches the folders created. */
  method BuildStructure(dirs: seq<Path>) returns (order: seq<Path>, structure: map<Path, Entry>)
    // exactly the directories named on the way to some file
    ensures forall p :: p in structure <==> NamedBy(dirs, p)
    ensures forall p :: p in structure ==> |p| > 0 && structure[p] == Fresh(p)
    // each directory once, and every enclosing directory is there too
    ensures Distinct(order) && forall p :: p in order <==> p in structure
    ensures forall p {:trigger Parent(p)} :: p in structure && |p| > 1 ==> Parent(p) in structure
  {
    order := [];
    structure := map[];
    for i := 0 to |dirs|
      invariant structure.Keys == AllPrefixes(dirs, i)
      invariant Table(order, structure)
    {
      order, structure := AddPrefixes(dirs[i], order, structure);
    }
    AllPrefixesMembers(dirs, |dirs|);
  }

  /** The inner loop: the leading parts of one file's directory. */
  method AddPrefixes(parts: Path, order0: seq<Path>, structure0: map<Path, Entry>)
    returns (order: seq<Path>, structure: map<Path, Entry>)
    requires Table(order0, structure0)
    ensures structure.Keys == structure0.Keys + Prefixes(parts, |parts|)
    ensures Table(order, structure)
  {
    order, structure := order0, structure0;
    for j := 0 to |parts|
      invariant structure.Keys == structure0.Keys + Prefixes(parts, j)
      invariant Table(order, structure)
    {
      var currentPath := parts[..j + 1];
      assert currentPath[..j] == parts[..j];
      if currentPath !in structure {
        structure := structure[currentPath := Entry(parts[..j], parts[j], None)];
        order := order + [currentPath];
      }
    }
  }

  /** Shallower paths first: `(a, b) => a.split('/').length - b.split('/').length`. */
  predicate ByDepth(ps: seq<Path>) {
    forall i, j :: 0 <= i < j < |ps| ==> |ps[i]| <= |ps[j]|
  }

  /** Places `p` after every path no deeper than it. */
  function InsertByDepth(p: Path, sorted: seq<Path>): (out: seq<Path>)
    requires ByDepth(sorted)
    ensures ByDepth(out)
    ensures forall x :: x in out <==> x == p || x in sorted
  {
    if sorted == [] then [p]
    else if |p| < |sorted[0]| then [p] + sorted
    else
      var rest := InsertByDepth(p, sorted[1..]);
      assert forall x :: x in sorted[1..] ==> |sorted[0]| <= |x|;
      [sorted[0]] + rest
  }

  lemma {:induction false} InsertByDepthCounts(p: Path, sorted: seq<Path>)
    requires ByDepth(sorted)
    ensures multiset(InsertByDepth(p, sorted)) == multiset(sorted) + multiset{p}
  {
    if sorted != [] && |p| >= |sorted[0]| {
      InsertByDepthCounts(p, sorted[1..]);
      assert sorted == [sorted[0]] + sorted[1..];
    }
  }

  /** `Object.keys(folderStructure).sort(byDepth)`, a stable sort. */
  function SortByDepth(ps: seq<Path>): (out: seq<Path>)
    ensures ByDepth(out)
  {
    if ps == [] then [] else InsertByDepth(ps[|ps| - 1], SortByDepth(ps[..|ps| - 1]))
  }

  /** The sorted list holds the same paths, each as often. */
  lemma {:induction false} SortByDepthPermutes(ps: seq<Path>)
    ensures multiset(SortByDepth(ps)) == multiset(ps)
  {
    if ps != [] {
      SortByDepthPermutes(ps[..|ps| - 1]);
      InsertByDepthCounts(ps[|ps| - 1], SortByDepth(ps[..|ps| - 1]));
      assert ps == ps[..|ps| - 1] + [ps[|ps| - 1]];
    }
  }

  /** Sorting keeps a list free of repeats. */
  lemma SortedDistinct(ps: seq<Path>)
    requires Distinct(ps)
    ensures Distinct(SortByDepth(ps))
  {
    var out := SortByDepth(ps);
    forall i, j | 0 <= i < j < |out| ensures out[i] != out[j] {
      if out[i] == out[j] {
        RepeatCountsTwice(out, i, j);
        SortByDepthPermutes(ps);
        MultiplicityOne(ps, out[i]);
      }
    }
  }

  lemma RepeatCountsTwice(s: seq<Path>, i: nat, j: nat)
    requires i < j < |s| && s[i] == s[j]
    ensures multiset(s)[s[i]] >= 2
  {
    var front := s[..j];
    assert s == front + [s[j]] + s[j + 1..];
    assert front[i] == s[i];
    assert multiset(front)[s[i]] >= 1;
  }

  lemma {:induction false} MultiplicityOne(ps: seq<Path>, p: Path)
    requires Distinct(ps)
    ensures multiset(ps)[p] <= 1
  {
    if ps != [] {
      MultiplicityOne(ps[1..], p);
      assert ps == [ps[0]] + ps[1..];
      if ps[0] == p {
        forall k | 0 <= k < |ps[1..]| ensures ps[1..][k] != p {
          assert ps[1..][k] == ps[k + 1];
        }
      }
    }
  }

  /** In the creation order every enclosing directory comes before the directories
      inside it, so its folder id is set by the time a child reads it. */
  lemma ParentCreatedFirst(sorted: seq<Path>, k: nat)
    requires ByDepth(sorted) && k < |sorted| && |sorted[k]| > 1
    requires Parent(sorted[k]) in sorted
    ensures exists i :: 0 <= i < k && sorted[i] == Parent(sorted[k])
  {
    var i :| 0 <= i < |sorted| && sorted[i] == Parent(sorted[k]);
  }
}
