/** Ordering the two tables by full path: what moving and re-indexing every entry keeps. */
module RomFsSort {
  import opened Order
  import opened RomFsPath
  import opened RomFsTree

  function DirPaths(dirs: seq<DirEntry>): (ps: seq<Str>)
    ensures |ps| == |dirs| && forall i :: 0 <= i < |dirs| ==> ps[i] == dirs[i].path
  {
    seq(|dirs|, i requires 0 <= i < |dirs| => dirs[i].path)
  }

  function DirNames(dirs: seq<DirEntry>): (ns: seq<Str>)
    ensures |ns| == |dirs| && forall i :: 0 <= i < |dirs| ==> ns[i] == dirs[i].name
  {
    seq(|dirs|, i requires 0 <= i < |dirs| => dirs[i].name)
  }

  function FilePaths(files: seq<FileEntry>): (ps: seq<Str>)
    ensures |ps| == |files| && forall i :: 0 <= i < |files| ==> ps[i] == files[i].path
  {
    seq(|files|, i requires 0 <= i < |files| => files[i].path)
  }

  function FileNames(files: seq<FileEntry>): (ns: seq<Str>)
    ensures |ns| == |files| && forall i :: 0 <= i < |files| ==> ns[i] == files[i].name
  {
    seq(|files|, i requires 0 <= i < |files| => files[i].name)
  }

  /** `inverse` says where each entry ends up when `order` lists which entry comes next. */
  ghost predicate IsInverse(inverse: seq<nat>, order: seq<nat>) {
    |inverse| == |order| && InRange(order, |order|) && InRange(inverse, |order|) &&
    (forall k :: 0 <= k < |order| ==> inverse[order[k]] == k) &&
    (forall i :: 0 <= i < |order| ==> order[inverse[i]] == i)
  }

  function Moved(xs: seq<nat>, to: seq<nat>): (r: seq<nat>)
    requires InRange(xs, |to|)
    ensures |r| == |xs| && forall i :: 0 <= i < |xs| ==> r[i] == to[xs[i]]
  {
    seq(|xs|, i requires 0 <= i < |xs| => to[xs[i]])
  }

  /** Indices the entries hold are in range of the two tables. */
  ghost predicate IndicesFit(dirs: seq<DirEntry>, files: seq<FileEntry>) {
    (forall i {:trigger DirFits(dirs[i], |dirs|, |files|)} :: 0 <= i < |dirs| ==> DirFits(dirs[i], |dirs|, |files|)) &&
    (forall j :: 0 <= j < |files| ==> files[j].parent < |dirs|)
  }

  predicate DirFits(d: DirEntry, dirCount: nat, fileCount: nat) {
    d.parent < dirCount && InRange(d.children, dirCount) && InRange(d.files, fileCount)
  }

  function RelabelDir(d: DirEntry, newDir: seq<nat>, newFile: seq<nat>): DirEntry
    requires DirFits(d, |newDir|, |newFile|)
  {
    d.(parent := newDir[d.parent], children := Moved(d.children, newDir), files := Moved(d.files, newFile))
  }

  /** The directory table moved into `order`, every index rewritten. */
  ghost predicate DirsMoved(was: seq<DirEntry>, now: seq<DirEntry>, order: seq<nat>, newDir: seq<nat>, newFile: seq<nat>) {
    |now| == |was| == |order| == |newDir| && InRange(order, |order|) &&
    forall k {:trigger now[k]} :: 0 <= k < |now| ==>
      DirFits(was[order[k]], |newDir|, |newFile|) && now[k] == RelabelDir(was[order[k]], newDir, newFile)
  }

  ghost predicate FilesMoved(was: seq<FileEntry>, now: seq<FileEntry>, order: seq<nat>, newDir: seq<nat>) {
    |now| == |was| == |order| && InRange(order, |order|) &&
    forall k {:trigger now[k]} :: 0 <= k < |now| ==>
      was[order[k]].parent < |newDir| && now[k] == was[order[k]].(parent := newDir[was[order[k]].parent])
  }

  // ---- The order is a permutation, and it ascends ----

  lemma {:induction false} TreeIndicesFit(dirs: seq<DirEntry>, files: seq<FileEntry>)
    requires IsTree(dirs, files)
    ensures IndicesFit(dirs, files)
  {
    forall i {:trigger DirFits(dirs[i], |dirs|, |files|)} | 0 <= i < |dirs|
      ensures DirFits(dirs[i], |dirs|, |files|)
    {
      assert ListsAt(dirs, files, i);
      ListedInRange(dirs[i].children, |dirs|);
      ListedInRange(dirs[i].files, |files|);
      assert i > 0 ==> DirLinked(dirs, i);
    }
    forall j | 0 <= j < |files|
      ensures files[j].parent < |dirs|
    {
      assert FileLinked(dirs, files[j]);
    }
  }

  lemma {:induction false} ListedInRange(xs: seq<nat>, n: nat)
    requires forall x :: x in xs ==> x < n
    ensures InRange(xs, n)
  {
    forall i | 0 <= i < |xs|
      ensures xs[i] < n
    {
      assert xs[i] in xs;
    }
  }

  lemma {:induction false} InverseOfPermutation(order: seq<nat>, inverse: seq<nat>)
    requires |inverse| == |order| && InRange(order, |order|) && Distinct(order)
    requires forall i :: 0 <= i < |order| ==> i in order
    requires forall k :: 0 <= k < |order| ==> inverse[order[k]] == k
    ensures IsInverse(inverse, order)
  {
    forall i | 0 <= i < |order|
      ensures inverse[i] < |order| && order[inverse[i]] == i
    {
      assert i in order;
      var k :| 0 <= k < |order| && order[k] == i;
      assert inverse[order[k]] == k;
    }
  }

  /** In an ascending table the order of paths is the order of indices. */
  lemma {:induction false} PathOrderIsIndexOrder(paths: seq<Str>, i: nat, j: nat)
    requires Ascending(paths) && i < |paths| && j < |paths|
    ensures Less(paths[i], paths[j]) <==> i < j
  {
    if i == j {
      LessIrreflexive(paths[i]);
    } else if j < i {
      LessAsymmetric(paths[i], paths[j]);
    }
  }

  // ---- Moving keeps the tree ----

  /** The tree after moving, before the child lists are put back in order. */
  ghost predicate Loose(dirs: seq<DirEntry>, files: seq<FileEntry>) {
    DirsLinked(dirs) && FilesLinked(dirs, files) && Ascending(DirPaths(dirs)) && Ascending(FilePaths(files)) &&
    OccupiedBut(dirs, 0) &&
    forall i {:trigger LooseAt(dirs, files, i)} :: 0 <= i < |dirs| ==> LooseAt(dirs, files, i)
  }

  ghost predicate LooseAt(dirs: seq<DirEntry>, files: seq<FileEntry>, i: nat)
    requires i < |dirs|
  {
    Distinct(dirs[i].children) && ListsChildren(dirs[i].children, dirs, i) &&
    Distinct(dirs[i].files) && ListsFiles(dirs[i].files, files, i)
  }

  /** The root's path is empty, so it sorts first. */
  lemma {:induction false} RootStaysFirst(dirs: seq<DirEntry>, order: seq<nat>, newDir: seq<nat>)
    requires DirsLinked(dirs) && |order| == |dirs| && IsInverse(newDir, order)
    requires Ascending(KeysOf(order, DirPaths(dirs)))
    ensures order[0] == 0 && newDir[0] == 0
  {
    var ks := KeysOf(order, DirPaths(dirs));
    assert forall k :: 0 < k < |ks| ==> Less(ks[0], ks[k]) && ks[k] != [];
    assert order[newDir[0]] == 0 && ks[newDir[0]] == [];
  }

  lemma {:induction false} MovedDirsLinked(was: seq<DirEntry>, now: seq<DirEntry>, order: seq<nat>, newDir: seq<nat>, newFile: seq<nat>)
    requires DirsLinked(was) && IsInverse(newDir, order) && DirsMoved(was, now, order, newDir, newFile)
    requires Ascending(KeysOf(order, DirPaths(was)))
    ensures DirsLinked(now) && Ascending(DirPaths(now))
  {
    hide Ascending;
    var ks := KeysOf(order, DirPaths(was));
    assert DirPaths(now) == ks;
    RootStaysFirst(was, order, newDir);
    assert now[0] == RelabelDir(was[0], newDir, newFile);
    forall k {:trigger DirLinked(now, k)} | 0 < k < |now|
      ensures DirLinked(now, k)
    {
      var i := order[k];
      assert i != 0 by { assert newDir[order[k]] == k; }
      assert DirLinked(was, i);
      var p := newDir[was[i].parent];
      assert order[p] == was[i].parent;
      assert now[k].parent == p && now[p].path == was[was[i].parent].path;
      assert now[k].path == now[p].path + ([SLASH] + now[k].name);
      PrefixIsLess(now[p].path, [SLASH] + now[k].name);
      PathOrderIsIndexOrder(ks, p, k);
    }
  }

  lemma {:induction false} MovedFilesLinked(wasDirs: seq<DirEntry>, dirs: seq<DirEntry>, order: seq<nat>, newDir: seq<nat>, newFile: seq<nat>,
                                            was: seq<FileEntry>, now: seq<FileEntry>, fileOrder: seq<nat>)
    requires FilesLinked(wasDirs, was) && IsInverse(newDir, order) && DirsMoved(wasDirs, dirs, order, newDir, newFile)
    requires FilesMoved(was, now, fileOrder, newDir) && Ascending(KeysOf(fileOrder, FilePaths(was)))
    ensures FilesLinked(dirs, now) && Ascending(FilePaths(now))
  {
    assert FilePaths(now) == KeysOf(fileOrder, FilePaths(was));
    forall k | 0 <= k < |now|
      ensures FileLinked(dirs, now[k])
    {
      var f := was[fileOrder[k]];
      assert FileLinked(wasDirs, f);
      assert order[newDir[f.parent]] == f.parent;
      assert dirs[newDir[f.parent]].path == wasDirs[f.parent].path;
    }
  }

  /** A list of exactly the entries with some property, once moved, lists exactly the moved entries with it. */
  lemma {:induction false} MovedMembers(xs: seq<nat>, inverse: seq<nat>, order: seq<nat>, y: nat)
    requires IsInverse(inverse, order) && InRange(xs, |order|) && y < |order|
    ensures y in Moved(xs, inverse) <==> order[y] in xs
  {
    var ys := Moved(xs, inverse);
    if order[y] in xs {
      var i :| 0 <= i < |xs| && xs[i] == order[y];
      assert ys[i] == y;
    }
    if y in ys {
      var i :| 0 <= i < |ys| && ys[i] == y;
      assert order[inverse[xs[i]]] == xs[i];
    }
  }

  lemma {:induction false} MovedDistinct(xs: seq<nat>, inverse: seq<nat>, order: seq<nat>)
    requires IsInverse(inverse, order) && InRange(xs, |order|) && Increasing(xs)
    ensures Distinct(Moved(xs, inverse)) && InRange(Moved(xs, inverse), |order|)
  {
    forall i, j | 0 <= i < j < |xs|
      ensures Moved(xs, inverse)[i] != Moved(xs, inverse)[j]
    {
      assert order[inverse[xs[i]]] == xs[i] && order[inverse[xs[j]]] == xs[j];
    }
  }

  lemma {:induction false} MovedListsAt(was: seq<DirEntry>, now: seq<DirEntry>, order: seq<nat>, newDir: seq<nat>, newFile: seq<nat>,
                                        wasFiles: seq<FileEntry>, files: seq<FileEntry>, fileOrder: seq<nat>, k: nat)
    requires Listed(was, wasFiles) && IsInverse(newDir, order) && IsInverse(newFile, fileOrder)
    requires DirsMoved(was, now, order, newDir, newFile) && FilesMoved(wasFiles, files, fileOrder, newDir) && k < |now|
    requires order[0] == 0
    ensures LooseAt(now, files, k)
  {
    var i := order[k];
    assert newDir[i] == k;
    assert ListsAt(was, wasFiles, i);
    var d := was[i];
    var moved := now[k];
    assert moved == RelabelDir(d, newDir, newFile);
    MovedDistinct(d.children, newDir, order);
    MovedDistinct(d.files, newFile, fileOrder);
    forall c: nat
      ensures c in now[k].children <==> 0 < c < |now| && now[c].parent == k
    {
      if c < |now| {
        MovedMembers(d.children, newDir, order, c);
        assert newDir[order[c]] == c && now[c].parent == newDir[was[order[c]].parent];
        SamePlace(newDir, order, was[order[c]].parent, i);
        SamePlace(newDir, order, order[c], 0);
      }
    }
    forall j: nat
      ensures j in now[k].files <==> 0 <= j < |files| && files[j].parent == k
    {
      if j < |files| {
        MovedMembers(d.files, newFile, fileOrder, j);
        assert files[j].parent == newDir[wasFiles[fileOrder[j]].parent];
        SamePlace(newDir, order, wasFiles[fileOrder[j]].parent, i);
      }
    }
  }

  lemma {:induction false} SamePlace(inverse: seq<nat>, order: seq<nat>, a: nat, b: nat)
    requires IsInverse(inverse, order) && a < |order| && b < |order|
    ensures inverse[a] == inverse[b] <==> a == b
  {
    assert order[inverse[a]] == a && order[inverse[b]] == b;
  }

  /** Sorting by path is a relabelling of the same tree, root first and parents before children. */
  lemma {:induction false} MovedTree(was: seq<DirEntry>, now: seq<DirEntry>, order: seq<nat>, newDir: seq<nat>, newFile: seq<nat>,
                                     wasFiles: seq<FileEntry>, files: seq<FileEntry>, fileOrder: seq<nat>)
    requires IsTree(was, wasFiles) && IsInverse(newDir, order) && IsInverse(newFile, fileOrder)
    requires DirsMoved(was, now, order, newDir, newFile) && FilesMoved(wasFiles, files, fileOrder, newDir)
    requires Ascending(KeysOf(order, DirPaths(was))) && Ascending(KeysOf(fileOrder, FilePaths(wasFiles)))
    ensures Loose(now, files)
  {
    hide Ascending, LooseAt, FileLinked;
    MovedDirsLinked(was, now, order, newDir, newFile);
    MovedFilesLinked(was, now, order, newDir, newFile, wasFiles, files, fileOrder);
    RootStaysFirst(was, order, newDir);
    forall i {:trigger LooseAt(now, files, i)} | 0 <= i < |now|
      ensures LooseAt(now, files, i)
    {
      MovedListsAt(was, now, order, newDir, newFile, wasFiles, files, fileOrder, i);
    }
    MovedOccupied(was, now, order, newDir, newFile);
  }

  lemma {:induction false} MovedOccupied(was: seq<DirEntry>, now: seq<DirEntry>, order: seq<nat>, newDir: seq<nat>, newFile: seq<nat>)
    requires OccupiedBut(was, 0) && IsInverse(newDir, order) && DirsMoved(was, now, order, newDir, newFile) && |was| > 0 && order[0] == 0
    ensures OccupiedBut(now, 0)
  {
    forall k | 0 < k < |now|
      ensures now[k].children != [] || now[k].files != []
    {
      SamePlace(newDir, order, order[k], 0);
      assert newDir[order[k]] == k && newDir[order[0]] == 0;
      var moved, d := now[k], was[order[k]];
      assert moved == RelabelDir(d, newDir, newFile);
    }
  }

  // ---- Child lists by name ----

  /** The tables as the image is laid out from them: a tree in path order throughout. */
  ghost predicate IsSorted(dirs: seq<DirEntry>, files: seq<FileEntry>) {
    DirsLinked(dirs) && FilesLinked(dirs, files) && Ascending(DirPaths(dirs)) && Ascending(FilePaths(files)) &&
    OccupiedBut(dirs, 0) && Listed(dirs, files)
  }

  /** Both lists of every directory ordered by name, everything else as it was. */
  ghost predicate ListsSorted(was: seq<DirEntry>, now: seq<DirEntry>, files: seq<FileEntry>) {
    |now| == |was| &&
    forall i {:trigger now[i]} :: 0 <= i < |now| ==>
      DirFits(was[i], |was|, |files|) &&
      now[i] == was[i].(children := Sort(was[i].children, DirNames(was)), files := Sort(was[i].files, FileNames(files)))
  }

  /** Among children of one directory, name order is path order, which is table order. */
  lemma {:induction false} SiblingsByName(paths: seq<Str>, names: seq<Str>, parent: Str, xs: seq<nat>)
    requires |names| == |paths| && Ascending(paths) && InRange(xs, |paths|) && Distinct(xs)
    requires forall i :: 0 <= i < |xs| ==> paths[xs[i]] == ChildPath(parent, names[xs[i]])
    ensures Increasing(Sort(xs, names)) && InRange(Sort(xs, names), |paths|)
  {
    SiblingNamesDistinct(paths, names, parent, xs);
    SortAscends(xs, names);
    var r := Sort(xs, names);
    forall i, j | 0 <= i < j < |r|
      ensures r[i] < r[j]
    {
      assert Less(KeysOf(r, names)[i], KeysOf(r, names)[j]);
      assert r[i] in xs && r[j] in xs;
      LessPastPrefix(parent + [SLASH], names[r[i]], names[r[j]]);
      PathOrderIsIndexOrder(paths, r[i], r[j]);
    }
  }

  lemma {:induction false} SiblingNamesDistinct(paths: seq<Str>, names: seq<Str>, parent: Str, xs: seq<nat>)
    requires |names| == |paths| && Ascending(paths) && InRange(xs, |paths|) && Distinct(xs)
    requires forall i :: 0 <= i < |xs| ==> paths[xs[i]] == ChildPath(parent, names[xs[i]])
    ensures KeysDistinct(xs, names)
  {
    var ks := KeysOf(xs, names);
    AscendingKeysDistinct(paths);
    forall i, j | 0 <= i < j < |ks|
      ensures ks[i] != ks[j]
    {
      assert paths[xs[i]] != paths[xs[j]];
    }
  }

  lemma {:induction false} ChildrenSort(dirs: seq<DirEntry>, files: seq<FileEntry>, i: nat)
    requires Loose(dirs, files) && i < |dirs|
    ensures DirFits(dirs[i], |dirs|, |files|)
    ensures Increasing(Sort(dirs[i].children, DirNames(dirs))) && Increasing(Sort(dirs[i].files, FileNames(files)))
  {
    var d := dirs[i];
    assert LooseAt(dirs, files, i);
    ListedInRange(d.children, |dirs|);
    ListedInRange(d.files, |files|);
    assert i > 0 ==> DirLinked(dirs, i);
    forall k | 0 <= k < |d.children|
      ensures DirPaths(dirs)[d.children[k]] == ChildPath(d.path, DirNames(dirs)[d.children[k]])
    {
      assert d.children[k] in d.children;
      assert DirLinked(dirs, d.children[k]);
    }
    SiblingsByName(DirPaths(dirs), DirNames(dirs), d.path, d.children);
    forall k | 0 <= k < |d.files|
      ensures FilePaths(files)[d.files[k]] == ChildPath(d.path, FileNames(files)[d.files[k]])
    {
      assert d.files[k] in d.files;
      assert FileLinked(dirs, files[d.files[k]]);
    }
    SiblingsByName(FilePaths(files), FileNames(files), d.path, d.files);
  }

  /** Ordering the child lists by name completes the sorted tree. */
  lemma {:induction false} ListsSortedTree(was: seq<DirEntry>, now: seq<DirEntry>, files: seq<FileEntry>)
    requires Loose(was, files) && ListsSorted(was, now, files)
    ensures IsSorted(now, files)
  {
    hide Ascending, Increasing;
    assert DirPaths(now) == DirPaths(was) by {
      forall i | 0 <= i < |now| ensures now[i].path == was[i].path {}
    }
    forall i {:trigger DirLinked(now, i)} | 0 < i < |now|
      ensures DirLinked(now, i)
    {
      assert DirLinked(was, i);
      var a, b := now[i], now[was[i].parent];
    }
    forall j | 0 <= j < |files|
      ensures FileLinked(now, files[j])
    {
      assert FileLinked(was, files[j]);
      var p := now[files[j].parent];
    }
    forall i {:trigger ListsAt(now, files, i)} | 0 <= i < |now|
      ensures ListsAt(now, files, i)
    {
      SortedListsAt(was, now, files, i);
    }
    forall i | 0 < i < |now|
      ensures now[i].children != [] || now[i].files != []
    {
      var d := now[i];
    }
    var root := now[0];
  }

  lemma {:induction false} SortedListsAt(was: seq<DirEntry>, now: seq<DirEntry>, files: seq<FileEntry>, i: nat)
    requires Loose(was, files) && ListsSorted(was, now, files) && i < |now|
    ensures ListsAt(now, files, i)
  {
    hide Ascending, Sort;
    ChildrenSort(was, files, i);
    assert LooseAt(was, files, i);
    var d := now[i];
    forall c: nat
      ensures c in d.children <==> 0 < c < |now| && now[c].parent == i
    {
      if c < |now| {
        assert now[c].parent == was[c].parent;
      }
    }
  }

  // ---- The sorted tables depend on the contents alone ----

  lemma {:induction false} MovedContents(was: seq<FileEntry>, now: seq<FileEntry>, order: seq<nat>, inverse: seq<nat>, newDir: seq<nat>)
    requires FilePathsDistinct(was) && FilePathsDistinct(now) && IsInverse(inverse, order) && FilesMoved(was, now, order, newDir)
    ensures Contents(now) == Contents(was)
  {
    forall j | 0 <= j < |was|
      ensures inverse[j] < |now| && now[inverse[j]].path == was[j].path && now[inverse[j]].data == was[j].data
    {
      MovedFileKept(was, now, order, inverse, newDir, j);
    }
    forall k | 0 <= k < |now|
      ensures order[k] < |was| && was[order[k]].path == now[k].path && was[order[k]].data == now[k].data
    {
      var f := now[k];
    }
    ContentsWithin(was, now, inverse);
    ContentsWithin(now, was, order);
  }

  /** Every file of one table is found in the other. */
  lemma {:induction false} ContentsWithin(a: seq<FileEntry>, b: seq<FileEntry>, to: seq<nat>)
    requires FilePathsDistinct(a) && FilePathsDistinct(b) && |to| == |a|
    requires forall j :: 0 <= j < |a| ==> to[j] < |b| && b[to[j]].path == a[j].path && b[to[j]].data == a[j].data
    ensures forall p :: p in Contents(a) ==> p in Contents(b) && Contents(b)[p] == Contents(a)[p]
  {
    forall p | p in Contents(a)
      ensures p in Contents(b) && Contents(b)[p] == Contents(a)[p]
    {
      var j :| 0 <= j < |a| && a[j].path == p;
      assert b[to[j]].path == p && Contents(b)[b[to[j]].path] == b[to[j]].data && Contents(a)[a[j].path] == a[j].data;
    }
  }

  lemma {:induction false} MovedFileKept(was: seq<FileEntry>, now: seq<FileEntry>, order: seq<nat>, inverse: seq<nat>, newDir: seq<nat>, j: nat)
    requires IsInverse(inverse, order) && FilesMoved(was, now, order, newDir) && j < |was|
    ensures inverse[j] < |now| && now[inverse[j]].path == was[j].path && now[inverse[j]].data == was[j].data
  {
    var f := now[inverse[j]];
    assert order[inverse[j]] == j;
  }

  lemma {:induction false} SortedPathsDistinct(dirs: seq<DirEntry>, files: seq<FileEntry>)
    requires IsSorted(dirs, files)
    ensures FilePathsDistinct(files) && DirPathsDistinct(dirs)
  {
    AscendingKeysDistinct(FilePaths(files));
    AscendingKeysDistinct(DirPaths(dirs));
    var ps, qs := FilePaths(files), DirPaths(dirs);
    assert forall i :: 0 <= i < |files| ==> files[i].path == ps[i];
    assert forall i :: 0 <= i < |dirs| ==> dirs[i].path == qs[i];
  }

  /** Equal entries, wherever they are to be written. */
  ghost predicate SameDir(a: DirEntry, b: DirEntry) {
    a.(entryOffset := b.entryOffset) == b
  }

  ghost predicate SameFile(a: FileEntry, b: FileEntry) {
    a.(entryOffset := b.entryOffset, dataOffset := b.dataOffset) == b
  }

  ghost predicate SameTables(d1: seq<DirEntry>, f1: seq<FileEntry>, d2: seq<DirEntry>, f2: seq<FileEntry>) {
    |d1| == |d2| && |f1| == |f2| && (forall i :: 0 <= i < |d1| ==> SameDir(d1[i], d2[i])) &&
    forall j :: 0 <= j < |f1| ==> SameFile(f1[j], f2[j])
  }

  /** Offsets play no part in the tree. */
  lemma {:induction false} SameTablesSorted(d1: seq<DirEntry>, f1: seq<FileEntry>, d2: seq<DirEntry>, f2: seq<FileEntry>)
    requires SameTables(d1, f1, d2, f2) && IsSorted(d1, f1)
    ensures IsSorted(d2, f2)
  {
    hide Ascending, Increasing;
    assert DirPaths(d2) == DirPaths(d1) && FilePaths(f2) == FilePaths(f1);
    forall i {:trigger DirLinked(d2, i)} | 0 < i < |d2|
      ensures DirLinked(d2, i)
    {
      assert DirLinked(d1, i);
    }
    forall j | 0 <= j < |f2|
      ensures FileLinked(d2, f2[j])
    {
      assert FileLinked(d1, f1[j]);
    }
    forall i {:trigger ListsAt(d2, f2, i)} | 0 <= i < |d2|
      ensures ListsAt(d2, f2, i)
    {
      assert ListsAt(d1, f1, i);
    }
  }

  lemma {:induction false} IncreasingUnique(a: seq<nat>, b: seq<nat>)
    requires Increasing(a) && Increasing(b) && forall x :: x in a <==> x in b
    ensures a == b
  {
    if a != [] {
      assert a[0] in b;
    }
    if b != [] {
      assert b[0] in a;
      LeastFirst(a, b[0]);
      LeastFirst(b, a[0]);
      forall x
        ensures x in a[1..] <==> x in b[1..]
      {
        RestOf(a, x);
        RestOf(b, x);
      }
      IncreasingUnique(a[1..], b[1..]);
      assert a == [a[0]] + a[1..] && b == [b[0]] + b[1..];
    }
  }

  lemma {:induction false} LeastFirst(a: seq<nat>, x: nat)
    requires Increasing(a) && x in a
    ensures a[0] <= x
  {
  }

  lemma {:induction false} RestOf(a: seq<nat>, x: nat)
    requires Increasing(a) && a != []
    ensures x in a[1..] <==> x in a && x != a[0]
  {
    if x in a[1..] {
      var k :| 0 <= k < |a[1..]| && a[1..][k] == x;
      assert a[0] < a[k + 1];
    }
  }

  /** Every directory leads to a file, so a tree storing the same files has a directory at the same path. */
  lemma {:induction false} SharedDir(d1: seq<DirEntry>, f1: seq<FileEntry>, d2: seq<DirEntry>, f2: seq<FileEntry>, i: nat) returns (k: nat)
    requires IsSorted(d1, f1) && IsSorted(d2, f2) && FilePathsDistinct(f1) && FilePathsDistinct(f2)
    requires Contents(f1) == Contents(f2) && i < |d1|
    ensures k < |d2| && d2[k].path == d1[i].path
    decreases |d1| - i
  {
    hide Ascending, Increasing;
    if i == 0 {
      k := 0;
    } else {
      assert ListsAt(d1, f1, i);
      if d1[i].children != [] {
        var c := d1[i].children[0];
        assert c in d1[i].children && DirLinked(d1, c);
        var c' := SharedDir(d1, f1, d2, f2, c);
        assert c' > 0 ==> DirLinked(d2, c');
        k := d2[c'].parent;
        ParentAndNameUnique(d1[i].path, d1[c].name, d2[k].path, d2[c'].name);
      } else {
        var j := d1[i].files[0];
        assert j in d1[i].files && FileLinked(d1, f1[j]);
        assert f1[j].path in Contents(f2);
        var j' :| 0 <= j' < |f2| && f2[j'].path == f1[j].path;
        assert FileLinked(d2, f2[j']);
        k := f2[j'].parent;
        ParentAndNameUnique(d1[i].path, f1[j].name, d2[k].path, f2[j'].name);
      }
    }
  }

  lemma {:induction false} SameDirPaths(d1: seq<DirEntry>, f1: seq<FileEntry>, d2: seq<DirEntry>, f2: seq<FileEntry>)
    requires IsSorted(d1, f1) && IsSorted(d2, f2) && FilePathsDistinct(f1) && FilePathsDistinct(f2)
    requires Contents(f1) == Contents(f2)
    ensures DirPaths(d1) == DirPaths(d2)
  {
    forall p
      ensures p in DirPaths(d1) <==> p in DirPaths(d2)
    {
      if p in DirPaths(d1) {
        var i :| 0 <= i < |d1| && DirPaths(d1)[i] == p;
        var k := SharedDir(d1, f1, d2, f2, i);
        assert DirPaths(d2)[k] == p;
      }
      if p in DirPaths(d2) {
        var i :| 0 <= i < |d2| && DirPaths(d2)[i] == p;
        var k := SharedDir(d2, f2, d1, f1, i);
        assert DirPaths(d1)[k] == p;
      }
    }
    AscendingUnique(DirPaths(d1), DirPaths(d2));
  }

  lemma {:induction false} SameFilePaths(d1: seq<DirEntry>, f1: seq<FileEntry>, d2: seq<DirEntry>, f2: seq<FileEntry>)
    requires IsSorted(d1, f1) && IsSorted(d2, f2) && FilePathsDistinct(f1) && FilePathsDistinct(f2)
    requires Contents(f1) == Contents(f2)
    ensures FilePaths(f1) == FilePaths(f2)
    ensures forall j :: 0 <= j < |f1| ==> f1[j].data == f2[j].data
  {
    forall p
      ensures p in FilePaths(f1) <==> p in FilePaths(f2)
    {
      PathStored(f1, p);
      PathStored(f2, p);
    }
    AscendingUnique(FilePaths(f1), FilePaths(f2));
    forall j | 0 <= j < |f1|
      ensures f1[j].data == f2[j].data
    {
      assert FilePaths(f1)[j] == FilePaths(f2)[j];
      assert Contents(f1)[f1[j].path] == f1[j].data && Contents(f2)[f2[j].path] == f2[j].data;
    }
  }

  lemma {:induction false} PathStored(files: seq<FileEntry>, p: Str)
    requires FilePathsDistinct(files)
    ensures p in FilePaths(files) <==> p in Contents(files)
  {
    if p in FilePaths(files) {
      var j :| 0 <= j < |files| && FilePaths(files)[j] == p;
      assert files[j].path in Contents(files);
    }
    if p in Contents(files) {
      var j :| 0 <= j < |files| && files[j].path == p;
      assert FilePaths(files)[j] == p;
    }
  }

  /** Two sorted trees storing the same files are the same tables, entry for entry. */
  lemma {:induction false} SortedIsCanonical(d1: seq<DirEntry>, f1: seq<FileEntry>, d2: seq<DirEntry>, f2: seq<FileEntry>)
    requires IsSorted(d1, f1) && IsSorted(d2, f2) && FilePathsDistinct(f1) && FilePathsDistinct(f2)
    requires Contents(f1) == Contents(f2)
    ensures SameTables(d1, f1, d2, f2)
  {
    hide Ascending, Increasing;
    SameDirPaths(d1, f1, d2, f2);
    SameFilePaths(d1, f1, d2, f2);
    AscendingKeysDistinct(DirPaths(d1));
    assert |d1| == |DirPaths(d1)| == |d2| && |f1| == |FilePaths(f1)| == |f2|;
    forall i | 0 <= i < |d1|
      ensures d1[i].path == d2[i].path && d1[i].name == d2[i].name && d1[i].parent == d2[i].parent
    {
      SameDirLink(d1, d2, i);
    }
    forall j | 0 <= j < |f1|
      ensures SameFile(f1[j], f2[j]) && f1[j].parent == f2[j].parent
    {
      SameFileLink(d1, f1, d2, f2, j);
    }
    forall i | 0 <= i < |d1|
      ensures SameDir(d1[i], d2[i])
    {
      assert ListsAt(d1, f1, i) && ListsAt(d2, f2, i);
      IncreasingUnique(d1[i].children, d2[i].children);
      IncreasingUnique(d1[i].files, d2[i].files);
    }
  }

  lemma {:induction false} SameDirLink(d1: seq<DirEntry>, d2: seq<DirEntry>, i: nat)
    requires DirsLinked(d1) && DirsLinked(d2) && DirPaths(d1) == DirPaths(d2) && Distinct(DirPaths(d1)) && i < |d1|
    ensures |d1| == |d2| && d1[i].path == d2[i].path && d1[i].name == d2[i].name && d1[i].parent == d2[i].parent
  {
    var ps := DirPaths(d1);
    assert |ps| == |d1| && |ps| == |d2|;
    assert ps[i] == d1[i].path && ps[i] == d2[i].path;
    if i > 0 {
      assert DirLinked(d1, i) && DirLinked(d2, i);
      var p, q := d1[i].parent, d2[i].parent;
      ParentAndNameUnique(d1[p].path, d1[i].name, d2[q].path, d2[i].name);
      assert ps[p] == ps[q];
    }
  }

  lemma {:induction false} SameFileLink(d1: seq<DirEntry>, f1: seq<FileEntry>, d2: seq<DirEntry>, f2: seq<FileEntry>, j: nat)
    requires FilesLinked(d1, f1) && FilesLinked(d2, f2)
    requires DirPaths(d1) == DirPaths(d2) && Distinct(DirPaths(d1)) && FilePaths(f1) == FilePaths(f2) && j < |f1|
    requires |f1| == |f2| && f1[j].data == f2[j].data
    ensures SameFile(f1[j], f2[j])
  {
    assert FilePaths(f1)[j] == FilePaths(f2)[j];
    assert FileLinked(d1, f1[j]) && FileLinked(d2, f2[j]);
    var p, q := f1[j].parent, f2[j].parent;
    ParentAndNameUnique(d1[p].path, f1[j].name, d2[q].path, f2[j].name);
    var ps := DirPaths(d1);
    assert ps[p] == d1[p].path && ps[q] == d2[q].path;
  }
}
