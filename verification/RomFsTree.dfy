/** The RomFS builder's directory tree: two index-linked tables that grow as files are added. */
module RomFsTree {
  import opened Bytes
  import opened Order
  import opened RomFsPath

  datatype DirEntry = DirEntry(path: Str, name: Str, entryOffset: u32, children: seq<nat>, files: seq<nat>, parent: nat)

  datatype FileEntry = FileEntry(path: Str, name: Str, data: seq<u8>, entryOffset: u32, dataOffset: u64, parent: nat)

  datatype BuildError = Empty | InvalidPath(path: Str) | DuplicateEntry(path: Str)

  const ROOT := DirEntry([], [], 0, [], [], 0)

  // ---- What links the two tables into a tree ----

  function ChildPath(parent: Str, name: Str): Str {
    parent + [SLASH] + name
  }

  /** A parent comes before its children, and a child's path extends its parent's by one name. */
  ghost predicate DirLinked(dirs: seq<DirEntry>, i: nat)
    requires i < |dirs|
  {
    var d := dirs[i];
    d.parent < i && IsName(d.name) && d.path == ChildPath(dirs[d.parent].path, d.name)
  }

  ghost predicate DirsLinked(dirs: seq<DirEntry>) {
    |dirs| > 0 && dirs[0].path == [] && dirs[0].name == [] && dirs[0].parent == 0 &&
    forall i {:trigger DirLinked(dirs, i)} :: 0 < i < |dirs| ==> DirLinked(dirs, i)
  }

  ghost predicate FileLinked(dirs: seq<DirEntry>, f: FileEntry) {
    f.parent < |dirs| && IsName(f.name) && f.path == ChildPath(dirs[f.parent].path, f.name)
  }

  ghost predicate FilesLinked(dirs: seq<DirEntry>, files: seq<FileEntry>) {
    forall j :: 0 <= j < |files| ==> FileLinked(dirs, files[j])
  }

  ghost predicate DirPathsDistinct(dirs: seq<DirEntry>) {
    forall i, j :: 0 <= i < j < |dirs| ==> dirs[i].path != dirs[j].path
  }

  ghost predicate FilePathsDistinct(files: seq<FileEntry>) {
    forall i, j :: 0 <= i < j < |files| ==> files[i].path != files[j].path
  }

  ghost predicate Increasing(xs: seq<nat>) {
    forall i, j :: 0 <= i < j < |xs| ==> xs[i] < xs[j]
  }

  /** `xs` holds exactly the directories whose parent is `i`. */
  ghost predicate ListsChildren(xs: seq<nat>, dirs: seq<DirEntry>, i: nat) {
    forall c :: c in xs <==> 0 < c < |dirs| && dirs[c].parent == i
  }

  /** `xs` holds exactly the files whose parent is `i`. */
  ghost predicate ListsFiles(xs: seq<nat>, files: seq<FileEntry>, i: nat) {
    forall j :: j in xs <==> 0 <= j < |files| && files[j].parent == i
  }

  ghost predicate ListsAt(dirs: seq<DirEntry>, files: seq<FileEntry>, i: nat)
    requires i < |dirs|
  {
    Increasing(dirs[i].children) && ListsChildren(dirs[i].children, dirs, i) &&
    Increasing(dirs[i].files) && ListsFiles(dirs[i].files, files, i)
  }

  ghost predicate Listed(dirs: seq<DirEntry>, files: seq<FileEntry>) {
    forall i {:trigger ListsAt(dirs, files, i)} :: 0 <= i < |dirs| ==> ListsAt(dirs, files, i)
  }

  /** Nothing but the root is empty, except possibly directory `but`, which is being filled. */
  ghost predicate OccupiedBut(dirs: seq<DirEntry>, but: nat) {
    forall i :: 0 < i < |dirs| && i != but ==> dirs[i].children != [] || dirs[i].files != []
  }

  ghost predicate TreeBut(dirs: seq<DirEntry>, files: seq<FileEntry>, but: nat) {
    DirsLinked(dirs) && FilesLinked(dirs, files) && DirPathsDistinct(dirs) && FilePathsDistinct(files) &&
    Listed(dirs, files) && OccupiedBut(dirs, but)
  }

  /** A tree every directory of which leads to some file. */
  ghost predicate IsTree(dirs: seq<DirEntry>, files: seq<FileEntry>) {
    TreeBut(dirs, files, 0)
  }

  /** The files stored, by full path. */
  ghost function Contents(files: seq<FileEntry>): (m: map<Str, seq<u8>>)
    requires FilePathsDistinct(files)
    ensures forall j :: 0 <= j < |files| ==> files[j].path in m && m[files[j].path] == files[j].data
    ensures forall p :: p in m ==> exists j :: 0 <= j < |files| && files[j].path == p
  {
    map j | 0 <= j < |files| :: files[j].path := files[j].data
  }

  // ---- Growing the tree ----

  function WithDir(dirs: seq<DirEntry>, cur: nat, name: Str): seq<DirEntry>
    requires cur < |dirs|
  {
    var d := dirs[cur];
    dirs[cur := d.(children := d.children + [|dirs|])] + [DirEntry(ChildPath(d.path, name), name, 0, [], [], cur)]
  }

  function NewFile(dirs: seq<DirEntry>, cur: nat, name: Str, data: seq<u8>): FileEntry
    requires cur < |dirs|
  {
    FileEntry(ChildPath(dirs[cur].path, name), name, data, 0, 0, cur)
  }

  function WithFile(dirs: seq<DirEntry>, files: seq<FileEntry>, cur: nat): seq<DirEntry>
    requires cur < |dirs|
  {
    dirs[cur := dirs[cur].(files := dirs[cur].files + [|files|])]
  }

  /** At most one directory has a given parent and name. */
  lemma {:induction false} ChildByName(dirs: seq<DirEntry>, cur: nat, name: Str, i: nat)
    requires DirsLinked(dirs) && DirPathsDistinct(dirs) && cur < |dirs| && i < |dirs| && SlashFree(name)
    requires dirs[i].path == ChildPath(dirs[cur].path, name)
    ensures i > 0 && dirs[i].parent == cur && dirs[i].name == name
  {
    assert dirs[i].path != [];
    assert DirLinked(dirs, i);
    ParentAndNameUnique(dirs[cur].path, name, dirs[dirs[i].parent].path, dirs[i].name);
  }

  lemma {:induction false} FileByName(dirs: seq<DirEntry>, files: seq<FileEntry>, cur: nat, name: Str, j: nat)
    requires DirPathsDistinct(dirs) && FilesLinked(dirs, files) && cur < |dirs| && j < |files| && SlashFree(name)
    requires files[j].path == ChildPath(dirs[cur].path, name)
    ensures files[j].parent == cur && files[j].name == name
  {
    assert FileLinked(dirs, files[j]);
    ParentAndNameUnique(dirs[cur].path, name, dirs[files[j].parent].path, files[j].name);
    assert dirs[files[j].parent].path == dirs[cur].path;
  }

  lemma {:induction false} WithDirLinked(dirs: seq<DirEntry>, cur: nat, name: Str)
    requires DirsLinked(dirs) && cur < |dirs| && IsName(name)
    ensures DirsLinked(WithDir(dirs, cur, name))
  {
    var next := WithDir(dirs, cur, name);
    forall i {:trigger DirLinked(next, i)} | 0 < i < |next|
      ensures DirLinked(next, i)
    {
      if i < |dirs| {
        assert DirLinked(dirs, i);
      }
    }
  }

  lemma {:induction false} WithDirDistinct(dirs: seq<DirEntry>, cur: nat, name: Str)
    requires DirsLinked(dirs) && DirPathsDistinct(dirs) && cur < |dirs| && IsName(name)
    requires forall i :: 0 < i < |dirs| && dirs[i].parent == cur ==> dirs[i].name != name
    ensures DirPathsDistinct(WithDir(dirs, cur, name))
  {
    var next := WithDir(dirs, cur, name);
    forall i | 0 <= i < |dirs|
      ensures next[i].path != next[|dirs|].path
    {
      if dirs[i].path == ChildPath(dirs[cur].path, name) {
        ChildByName(dirs, cur, name, i);
      }
    }
  }

  lemma {:induction false} WithDirListed(dirs: seq<DirEntry>, files: seq<FileEntry>, cur: nat, name: Str)
    requires DirsLinked(dirs) && FilesLinked(dirs, files) && Listed(dirs, files) && cur < |dirs|
    ensures Listed(WithDir(dirs, cur, name), files)
  {
    hide DirLinked, IsName;
    var next := WithDir(dirs, cur, name);
    forall i {:trigger ListsAt(next, files, i)} | 0 <= i < |next|
      ensures ListsAt(next, files, i)
    {
      if i < |dirs| {
        assert ListsAt(dirs, files, i);
        if i == cur {
          IncreasingPush(dirs[i].children, |dirs|);
        }
      } else {
        NothingUnderNewest(dirs, files);
      }
    }
  }

  lemma {:induction false} IncreasingPush(xs: seq<nat>, n: nat)
    requires Increasing(xs) && forall c :: c in xs ==> c < n
    ensures Increasing(xs + [n])
    ensures forall c :: c in xs + [n] <==> c in xs || c == n
  {
    forall i | 0 <= i < |xs|
      ensures xs[i] < n
    {
      assert xs[i] in xs;
    }
  }

  lemma {:induction false} NothingUnderNewest(dirs: seq<DirEntry>, files: seq<FileEntry>)
    requires DirsLinked(dirs) && FilesLinked(dirs, files)
    ensures forall c :: 0 < c < |dirs| ==> dirs[c].parent != |dirs|
    ensures forall j :: 0 <= j < |files| ==> files[j].parent != |dirs|
  {
    forall c | 0 < c < |dirs|
      ensures dirs[c].parent != |dirs|
    {
      assert DirLinked(dirs, c);
    }
  }

  /** Creating a directory keeps the tree, with the new directory as the one to fill. */
  lemma {:induction false} WithDirKeepsTree(dirs: seq<DirEntry>, files: seq<FileEntry>, cur: nat, name: Str)
    requires TreeBut(dirs, files, cur) && cur < |dirs| && IsName(name)
    requires forall i :: 0 < i < |dirs| && dirs[i].parent == cur ==> dirs[i].name != name
    ensures TreeBut(WithDir(dirs, cur, name), files, |dirs|)
  {
    WithDirLinked(dirs, cur, name);
    WithDirDistinct(dirs, cur, name);
    WithDirListed(dirs, files, cur, name);
    var next := WithDir(dirs, cur, name);
    forall j | 0 <= j < |files|
      ensures FileLinked(next, files[j])
    {
      assert FileLinked(dirs, files[j]);
    }
  }

  /** Storing a file keeps the tree and fills the directory. */
  lemma {:induction false} WithFileKeepsTree(dirs: seq<DirEntry>, files: seq<FileEntry>, cur: nat, name: Str, data: seq<u8>)
    requires TreeBut(dirs, files, cur) && cur < |dirs| && IsName(name)
    requires forall j :: 0 <= j < |files| && files[j].parent == cur ==> files[j].name != name
    ensures IsTree(WithFile(dirs, files, cur), files + [NewFile(dirs, cur, name, data)])
  {
    var f := NewFile(dirs, cur, name, data);
    var next, all := WithFile(dirs, files, cur), files + [f];
    WithFileLinked(dirs, files, cur, name, data);
    WithFileListed(dirs, files, cur, name, data);
    forall i, j | 0 <= i < j < |all|
      ensures all[i].path != all[j].path
    {
      if j == |files| && files[i].path == f.path {
        FileByName(dirs, files, cur, name, i);
      }
    }
  }

  lemma {:induction false} WithFileLinked(dirs: seq<DirEntry>, files: seq<FileEntry>, cur: nat, name: Str, data: seq<u8>)
    requires DirsLinked(dirs) && FilesLinked(dirs, files) && cur < |dirs| && IsName(name)
    ensures DirsLinked(WithFile(dirs, files, cur))
    ensures FilesLinked(WithFile(dirs, files, cur), files + [NewFile(dirs, cur, name, data)])
  {
    var next, all := WithFile(dirs, files, cur), files + [NewFile(dirs, cur, name, data)];
    forall i {:trigger DirLinked(next, i)} | 0 < i < |next|
      ensures DirLinked(next, i)
    {
      assert DirLinked(dirs, i);
    }
    forall j | 0 <= j < |all|
      ensures FileLinked(next, all[j])
    {
      if j < |files| {
        assert FileLinked(dirs, files[j]);
      }
    }
  }

  lemma {:induction false} WithFileListed(dirs: seq<DirEntry>, files: seq<FileEntry>, cur: nat, name: Str, data: seq<u8>)
    requires Listed(dirs, files) && cur < |dirs|
    ensures Listed(WithFile(dirs, files, cur), files + [NewFile(dirs, cur, name, data)])
  {
    var next, all := WithFile(dirs, files, cur), files + [NewFile(dirs, cur, name, data)];
    forall i {:trigger ListsAt(next, all, i)} | 0 <= i < |next|
      ensures ListsAt(next, all, i)
    {
      assert ListsAt(dirs, files, i);
      if i == cur {
        IncreasingPush(dirs[i].files, |files|);
      }
    }
  }
}
