/** The RomFS builder: files are added one at a time, then the tree is sorted, laid out and written. */
module RomFsBuild {
  import opened Bytes
  import opened Packing
  import opened Order
  import opened RomFsPath
  import opened RomFsFormat
  import opened RomFsTree
  import opened RomFsSort
  import opened RomFsLayout
  import opened RomFsImage

  /** What adding a file at `path` answers when `contents` is what is stored already. */
  function AddResult(path: Str, contents: map<Str, seq<u8>>): Result<Str, BuildError> {
    if path == [] || path[0] != SLASH || Components(path[1..]) == [] then Err(InvalidPath(path))
    else if Join(Components(path[1..])) in contents then Err(DuplicateEntry(path))
    else Ok(Join(Components(path[1..])))
  }

  lemma {:induction false} ContentsPush(files: seq<FileEntry>, f: FileEntry)
    requires FilePathsDistinct(files) && FilePathsDistinct(files + [f])
    ensures Contents(files + [f]) == Contents(files)[f.path := f.data]
  {
    hide Contents;
    var all, m := files + [f], Contents(files)[f.path := f.data];
    assert all[|files|] == f;
    forall p | p in Contents(all)
      ensures p in m && m[p] == Contents(all)[p]
    {
      var j :| 0 <= j < |all| && all[j].path == p;
      assert Contents(all)[all[j].path] == all[j].data;
      if j < |files| {
        assert all[j] == files[j] && all[j].path != all[|files|].path;
      }
    }
    forall p | p in m
      ensures p in Contents(all)
    {
      ContainedInPushed(files, f, p);
    }
  }

  lemma {:induction false} ContainedInPushed(files: seq<FileEntry>, f: FileEntry, p: Str)
    requires FilePathsDistinct(files) && FilePathsDistinct(files + [f])
    requires p == f.path || p in Contents(files)
    ensures p in Contents(files + [f])
  {
    hide Contents;
    var all := files + [f];
    var j :| 0 <= j < |all| && all[j].path == p by {
      if p == f.path {
        assert all[|files|].path == p;
      } else {
        var j :| 0 <= j < |files| && files[j].path == p;
        assert all[j].path == p;
      }
    }
  }

  // ---- Placing entries one at a time ----

  ghost predicate DirsPlaced(was: seq<DirEntry>, now: seq<DirEntry>, i: nat)
    requires i <= |was|
  {
    |now| == |was| && (forall k :: 0 <= k < |now| ==> SameDir(was[k], now[k])) &&
    forall k :: 0 <= k < i ==> now[k].entryOffset == DirOffset(was, k)
  }

  ghost predicate DataPlaced(was: seq<FileEntry>, now: seq<FileEntry>, j: nat)
    requires j <= |was|
  {
    |now| == |was| && (forall k :: 0 <= k < |now| ==> SameFile(was[k], now[k])) &&
    forall k :: 0 <= k < j ==> now[k].dataOffset == AlignUp(DataEnd(was, k), 0x10)
  }

  ghost predicate FilesPlaced(was: seq<FileEntry>, now: seq<FileEntry>, j: nat)
    requires j <= |was|
  {
    DataPlaced(was, now, |was|) && forall k :: 0 <= k < j ==> now[k].entryOffset == FileOffset(was, k)
  }

  lemma {:induction false} PlacedNone(dirs: seq<DirEntry>, files: seq<FileEntry>)
    ensures DirsPlaced(dirs, dirs, 0) && DataPlaced(files, files, 0)
  {
  }

  lemma {:induction false} FilesPlacedNone(was: seq<FileEntry>, now: seq<FileEntry>)
    requires DataPlaced(was, now, |was|)
    ensures FilesPlaced(was, now, 0)
  {
  }

  lemma {:induction false} DirPlacedNext(was: seq<DirEntry>, now: seq<DirEntry>, i: nat)
    requires i < |was| && DirsPlaced(was, now, i) && DirOffset(was, |was|) < 0x1_0000_0000
    ensures |now| == |was| && now[i].name == was[i].name && DirOffset(was, i) < 0x1_0000_0000
    ensures DirsPlaced(was, now[i := now[i].(entryOffset := DirOffset(was, i))], i + 1)
  {
    DirOffsetsRise(was, i, |was|);
    assert SameDir(was[i], now[i]);
  }

  lemma {:induction false} DataPlacedNext(was: seq<FileEntry>, now: seq<FileEntry>, j: nat)
    requires j < |was| && DataPlaced(was, now, j) && PartitionSize(was) <= USIZE_MAX
    ensures |now| == |was| && now[j].data == was[j].data && AlignUp(DataEnd(was, j), 0x10) <= USIZE_MAX
    ensures DataPlaced(was, now[j := now[j].(dataOffset := AlignUp(DataEnd(was, j), 0x10))], j + 1)
  {
    hide AlignUp;
    DataEndsRise(was, j, |was|);
    assert SameFile(was[j], now[j]);
  }

  lemma {:induction false} FilePlacedNext(was: seq<FileEntry>, now: seq<FileEntry>, j: nat)
    requires j < |was| && FilesPlaced(was, now, j) && FileOffset(was, |was|) < 0x1_0000_0000
    ensures |now| == |was| && now[j].name == was[j].name && FileOffset(was, j) < 0x1_0000_0000
    ensures FilesPlaced(was, now[j := now[j].(entryOffset := FileOffset(was, j))], j + 1)
  {
    hide AlignUp;
    FileOffsetsRise(was, j, |was|);
    assert SameFile(was[j], now[j]);
  }

  lemma {:induction false} PlacedAll(wasDirs: seq<DirEntry>, wasFiles: seq<FileEntry>, dirs: seq<DirEntry>, files: seq<FileEntry>)
    requires DirsPlaced(wasDirs, dirs, |wasDirs|) && FilesPlaced(wasFiles, files, |wasFiles|)
    ensures LaidOut(dirs, files) && SameTables(wasDirs, wasFiles, dirs, files)
  {
    hide AlignUp;
    forall i | 0 <= i < |dirs|
      ensures DirOffset(dirs, i) == DirOffset(wasDirs, i)
    {
      SameDirOffsets(wasDirs, dirs, i);
    }
    forall j | 0 <= j < |files|
      ensures FileOffset(files, j) == FileOffset(wasFiles, j) && DataEnd(files, j) == DataEnd(wasFiles, j)
    {
      SameFileOffsets(wasFiles, files, j);
    }
  }

  /** A path is stored exactly when its directory lists a file of that name. */
  lemma {:induction false} StoredUnder(dirs: seq<DirEntry>, files: seq<FileEntry>, cur: nat, name: Str)
    requires DirPathsDistinct(dirs) && FilesLinked(dirs, files) && FilePathsDistinct(files) && cur < |dirs| && SlashFree(name)
    ensures ChildPath(dirs[cur].path, name) in Contents(files) <==>
            exists j :: 0 <= j < |files| && files[j].parent == cur && files[j].name == name
  {
    var p := ChildPath(dirs[cur].path, name);
    if p in Contents(files) {
      var j :| 0 <= j < |files| && files[j].path == p;
      FileByName(dirs, files, cur, name, j);
    }
    if j :| 0 <= j < |files| && files[j].parent == cur && files[j].name == name {
      assert FileLinked(dirs, files[j]);
      assert files[j].path in Contents(files);
    }
  }

  /** Going down to a listed child, nothing is left empty behind. */
  lemma {:induction false} DescendKeepsTree(dirs: seq<DirEntry>, files: seq<FileEntry>, cur: nat, child: nat)
    requires TreeBut(dirs, files, cur) && cur < |dirs| && child in dirs[cur].children
    ensures TreeBut(dirs, files, child) && 0 < child < |dirs| && dirs[child].parent == cur
    ensures dirs[child].path == ChildPath(dirs[cur].path, dirs[child].name)
  {
    assert ListsAt(dirs, files, cur);
    assert DirLinked(dirs, child);
  }

  class RomFsBuilder {
    var dirs: seq<DirEntry>
    var files: seq<FileEntry>
    var dirHashSiblings: seq<u32>
    var fileHashSiblings: seq<u32>

    ghost predicate Valid()
      reads this
    {
      IsTree(dirs, files)
    }

    /** Nothing but the root directory. */
    constructor ()
      ensures Valid() && Contents(files) == map[]
    {
      dirs := [ROOT];
      files := [];
      dirHashSiblings := [];
      fileHashSiblings := [];
      new;
      assert ListsAt(dirs, files, 0);
    }

    // ---- Adding a file ----

    method FindChild(cur: nat, name: Str) returns (r: Option<nat>)
      requires cur < |dirs| && InRange(dirs[cur].children, |dirs|)
      ensures r.Some? ==> r.value in dirs[cur].children && r.value < |dirs| && dirs[r.value].name == name
      ensures r.None? ==> forall c :: c in dirs[cur].children ==> c < |dirs| && dirs[c].name != name
    {
      var children := dirs[cur].children;
      for k := 0 to |children|
        invariant forall c :: c in children[..k] ==> c < |dirs| && dirs[c].name != name
      {
        if dirs[children[k]].name == name {
          return Some(children[k]);
        }
        TakeOneMore(children, k);
      }
      assert children[..|children|] == children;
      r := None;
    }

    method HasFile(cur: nat, name: Str) returns (r: bool)
      requires cur < |dirs| && InRange(dirs[cur].files, |files|)
      ensures r <==> exists j :: j in dirs[cur].files && j < |files| && files[j].name == name
    {
      var listed := dirs[cur].files;
      for k := 0 to |listed|
        invariant forall j :: j in listed[..k] ==> j < |files| && files[j].name != name
      {
        if files[listed[k]].name == name {
          return true;
        }
        TakeOneMore(listed, k);
      }
      assert listed[..|listed|] == listed;
      r := false;
    }

    /** Step into the directory `name` under `cur`, creating it if it is missing. */
    method Enter(cur: nat, name: Str) returns (next: nat)
      requires TreeBut(dirs, files, cur) && cur < |dirs| && IsName(name)
      modifies this`dirs
      ensures TreeBut(dirs, files, next) && next < |dirs| && dirs[next].path == ChildPath(old(dirs[cur].path), name)
      ensures dirs == old(dirs) || (dirs[next].children == [] && dirs[next].files == [])
      ensures old(dirs[cur].children) == [] ==> dirs[next].children == [] && dirs[next].files == []
    {
      hide DirLinked, FileLinked;
      assert ListsAt(dirs, files, cur);
      ListedInRange(dirs[cur].children, |dirs|);
      var found := FindChild(cur, name);
      if found.Some? {
        next := found.value;
        DescendKeepsTree(dirs, files, cur, next);
      } else {
        next := |dirs|;
        WithDirKeepsTree(dirs, files, cur, name);
        dirs := dirs + [DirEntry(ChildPath(dirs[cur].path, name), name, 0, [], [], cur)];
        dirs := dirs[cur := dirs[cur].(children := dirs[cur].children + [next])];
        assert dirs == WithDir(old(dirs), cur, name);
      }
    }

    /** Store `data` at `path`, creating the directories the path implies. */
    method AddFile(path: Str, data: seq<u8>) returns (r: Result<(), BuildError>)
      requires Valid()
      modifies this`dirs, this`files
      ensures Valid()
      ensures var answer := AddResult(path, old(Contents(files)));
        if answer.Ok? then r == Ok(()) && Contents(files) == old(Contents(files))[answer.value := data]
        else r == Err(answer.error) && dirs == old(dirs) && files == old(files)
    {
      hide TreeBut;
      if path == [] || path[0] != SLASH {
        return Err(InvalidPath(path));
      }
      var components := Components(path[1..]);
      if components == [] {
        return Err(InvalidPath(path));
      }
      var last := |components| - 1;
      var cur: nat := 0;
      assert components[..0] == [];
      RootFirst(dirs, files, 0);
      for k := 0 to last
        invariant cur < |dirs| && TreeBut(dirs, files, cur) && dirs[cur].path == Join(components[..k])
        invariant files == old(files)
        invariant dirs == old(dirs) || (dirs[cur].children == [] && dirs[cur].files == [])
      {
        TakeOneMore(components, k);
        JoinSnoc(components[..k], components[k]);
        cur := Enter(cur, components[k]);
      }
      assert components == components[..last] + [components[last]];
      JoinSnoc(components[..last], components[last]);
      r := Place(cur, components[last], path, data);
    }

    /** Put a file into the directory the path led to, unless the name is taken there. */
    method Place(cur: nat, name: Str, path: Str, data: seq<u8>) returns (r: Result<(), BuildError>)
      requires cur < |dirs| && TreeBut(dirs, files, cur) && IsName(name)
      requires FilePathsDistinct(files)
      modifies this`dirs, this`files
      ensures var at := ChildPath(old(dirs[cur].path), name);
        if at in old(Contents(files)) then
          r == Err(DuplicateEntry(path)) && dirs == old(dirs) && files == old(files) && dirs[cur].files != []
        else r == Ok(()) && IsTree(dirs, files) && Contents(files) == old(Contents(files))[at := data]
    {
      hide DirLinked, FileLinked, Contents;
      assert ListsAt(dirs, files, cur);
      ListedInRange(dirs[cur].files, |files|);
      StoredUnder(dirs, files, cur, name);
      var taken := HasFile(cur, name);
      if taken {
        return Err(DuplicateEntry(path));
      }
      ghost var wasDirs, wasFiles := dirs, files;
      WithFileKeepsTree(dirs, files, cur, name, data);
      var index := |files|;
      files := files + [FileEntry(ChildPath(dirs[cur].path, name), name, data, 0, 0, cur)];
      dirs := dirs[cur := dirs[cur].(files := dirs[cur].files + [index])];
      assert dirs == WithFile(wasDirs, wasFiles, cur);
      ContentsPush(wasFiles, files[index]);
      r := Ok(());
    }

    // ---- Path order ----

    /** Apply the path order to both tables and rewrite every index they hold. */
    method SortEntriesByPath()
      returns (ghost order: seq<nat>, ghost newDir: seq<nat>, ghost fileOrder: seq<nat>, ghost newFile: seq<nat>)
      requires Valid()
      modifies this`dirs, this`files
      ensures IsInverse(newDir, order) && DirsMoved(old(dirs), dirs, order, newDir, newFile)
      ensures IsInverse(newFile, fileOrder) && FilesMoved(old(files), files, fileOrder, newDir)
      ensures Ascending(DirPaths(dirs)) && Ascending(FilePaths(files))
      ensures Loose(dirs, files) && FilePathsDistinct(files) && Contents(files) == old(Contents(files))
    {
      hide Ascending, Loose, Contents, IsTree, Distinct;
      TreeIndicesFit(dirs, files);
      TreePathsDistinct(dirs, files);
      var dirOrder := Sort(Indices(|dirs|), DirPaths(dirs));
      SortedOrder(DirPaths(dirs), dirOrder);
      var newDirIndex := InverseOf(dirOrder);
      var filesInOrder := Sort(Indices(|files|), FilePaths(files));
      SortedOrder(FilePaths(files), filesInOrder);
      var newFileIndex := InverseOf(filesInOrder);
      ghost var wasDirs, wasFiles := dirs, files;
      dirs := Arranged(dirs, dirOrder);
      files := Arranged(files, filesInOrder);
      RelabelDirs(wasDirs, dirOrder, newDirIndex, newFileIndex);
      RelabelFiles(wasFiles, filesInOrder, newDirIndex);
      MovedTree(wasDirs, dirs, dirOrder, newDirIndex, newFileIndex, wasFiles, files, filesInOrder);
      LoosePathsDistinct(dirs, files);
      MovedContents(wasFiles, files, filesInOrder, newFileIndex, newDirIndex);
      order, newDir, fileOrder, newFile := dirOrder, newDirIndex, filesInOrder, newFileIndex;
    }

    method RelabelDirs(ghost was: seq<DirEntry>, ghost order: seq<nat>, newDir: seq<nat>, newFile: seq<nat>)
      requires |was| == |order| == |newDir| && InRange(order, |was|) && dirs == Arranged(was, order)
      requires forall i {:trigger was[i]} :: 0 <= i < |was| ==> DirFits(was[i], |newDir|, |newFile|)
      modifies this`dirs
      ensures DirsMoved(was, dirs, order, newDir, newFile)
    {
      for i := 0 to |dirs|
        invariant |dirs| == |order|
        invariant forall k {:trigger dirs[k]} :: 0 <= k < i ==> dirs[k] == RelabelDir(was[order[k]], newDir, newFile)
        invariant forall k {:trigger dirs[k]} :: i <= k < |dirs| ==> dirs[k] == was[order[k]]
      {
        var dir := dirs[i];
        var children := Relabel(dir.children, newDir);
        var listed := Relabel(dir.files, newFile);
        dirs := dirs[i := dir.(parent := newDir[dir.parent], children := children, files := listed)];
      }
    }

    method RelabelFiles(ghost was: seq<FileEntry>, ghost order: seq<nat>, newDir: seq<nat>)
      requires |was| == |order| && InRange(order, |was|) && files == Arranged(was, order)
      requires forall i :: 0 <= i < |was| ==> was[i].parent < |newDir|
      modifies this`files
      ensures FilesMoved(was, files, order, newDir)
    {
      for i := 0 to |files|
        invariant |files| == |order|
        invariant forall k {:trigger files[k]} :: 0 <= k < i ==> files[k] == was[order[k]].(parent := newDir[was[order[k]].parent])
        invariant forall k {:trigger files[k]} :: i <= k < |files| ==> files[k] == was[order[k]]
      {
        files := files[i := files[i].(parent := newDir[files[i].parent])];
      }
    }

    /** Put both lists of every directory into name order. */
    method SortChildren()
      requires Loose(dirs, files)
      modifies this`dirs
      ensures IsSorted(dirs, files)
    {
      hide Ascending, Loose;
      ghost var was := dirs;
      LooseDirsFit(dirs, files);
      for i := 0 to |dirs|
        invariant |dirs| == |was|
        invariant forall k {:trigger dirs[k]} :: 0 <= k < i ==>
          dirs[k] == was[k].(children := Sort(was[k].children, DirNames(was)), files := Sort(was[k].files, FileNames(files)))
        invariant forall k {:trigger dirs[k]} :: i <= k < |dirs| ==> dirs[k] == was[k]
      {
        SameNames(was, dirs);
        var dir := dirs[i];
        assert DirFits(was[i], |was|, |files|);
        dirs := dirs[i := dir.(children := Sort(dir.children, DirNames(dirs)))];
        SameNames(was, dirs);
        dirs := dirs[i := dirs[i].(files := Sort(dir.files, FileNames(files)))];
      }
      ListsSortedTree(was, dirs, files);
    }

    // ---- Offsets ----

    /** Say where every entry and every file's contents will be written. */
    method CalculateOffsets()
      requires Fits(dirs, files)
      modifies this`dirs, this`files
      ensures LaidOut(dirs, files) && SameTables(old(dirs), old(files), dirs, files)
    {
      hide DirsPlaced, DataPlaced, FilesPlaced;
      ghost var wasDirs, wasFiles := dirs, files;
      DataEndsRise(files, 0, |files|);
      PlaceContents();
      FilesPlacedNone(wasFiles, files);
      PlaceFileEntries(wasFiles);
      PlaceDirEntries();
      PlacedAll(wasDirs, wasFiles, dirs, files);
    }

    method PlaceContents()
      requires PartitionSize(files) <= USIZE_MAX
      modifies this`files
      ensures |files| == |old(files)| && DataPlaced(old(files), files, |old(files)|)
    {
      hide DataPlaced, AlignUp;
      ghost var was := files;
      PlacedNone(dirs, files);
      var dataOffset := 0;
      for j := 0 to |files|
        invariant |files| == |was| && dataOffset == DataEnd(was, j) && DataPlaced(was, files, j)
      {
        DataPlacedNext(was, files, j);
        dataOffset := AlignUp(dataOffset, 0x10);
        var file := files[j];
        files := files[j := file.(dataOffset := dataOffset)];
        dataOffset := dataOffset + |file.data|;
      }
    }

    method PlaceFileEntries(ghost was: seq<FileEntry>)
      requires |files| == |was| && FilesPlaced(was, files, 0) && FileOffset(was, |was|) < 0x1_0000_0000
      modifies this`files
      ensures FilesPlaced(was, files, |was|)
    {
      hide FilesPlaced, AlignUp;
      var entryOffset := 0;
      for j := 0 to |files|
        invariant |files| == |was| && entryOffset == FileOffset(was, j) && FilesPlaced(was, files, j)
      {
        FilePlacedNext(was, files, j);
        var file := files[j];
        files := files[j := file.(entryOffset := entryOffset)];
        entryOffset := entryOffset + FILE_ENTRY_SIZE + AlignUp(|file.name|, 4);
      }
    }

    method PlaceDirEntries()
      requires DirOffset(dirs, |dirs|) < 0x1_0000_0000
      modifies this`dirs
      ensures DirsPlaced(old(dirs), dirs, |old(dirs)|)
    {
      hide DirsPlaced, AlignUp;
      ghost var was := dirs;
      PlacedNone(dirs, files);
      var entryOffset := 0;
      for i := 0 to |dirs|
        invariant |dirs| == |was| && entryOffset == DirOffset(was, i) && DirsPlaced(was, dirs, i)
      {
        DirPlacedNext(was, dirs, i);
        var dir := dirs[i];
        dirs := dirs[i := dir.(entryOffset := entryOffset)];
        entryOffset := entryOffset + DIR_ENTRY_SIZE + AlignUp(|dir.name|, 4);
      }
    }

    method CalculateFilePartitionSize() returns (size: nat)
      ensures size == PartitionSize(files)
    {
      size := 0;
      for j := 0 to |files|
        invariant size == DataEnd(files, j)
      {
        size := AlignUp(size, 0x10);
        size := size + |files[j].data|;
      }
    }

    // ---- Hash tables ----

    method GenerateDirHashTable() returns (table: seq<u32>)
      requires Expressible(dirs, files) && |dirHashSiblings| == |dirs|
      modifies this`dirHashSiblings
      ensures table == DirHashTable(dirs, files) && dirHashSiblings == DirSiblings(dirs, files)
    {
      hide Chained, PathHash, HashCount, IndicesFit;
      ParentsFitOf(dirs, files);
      ghost var buckets, offsets := DirBuckets(dirs), DirOffsets(dirs);
      var tableSize := ComputeHashCount(|dirs|);
      table := seq(tableSize, _ => NO_ENTRY);
      NothingChained(buckets, offsets, table, dirHashSiblings);
      for i := 0 to |dirs|
        invariant |table| == tableSize && |dirHashSiblings| == |dirs| && Chained(buckets, offsets, i, table, dirHashSiblings)
      {
        var dir := dirs[i];
        var parentOffset := dirs[dir.parent].entryOffset;
        var hash := ComputePathHash(parentOffset, dir.name);
        var bucket := hash % tableSize;
        assert bucket == DirBucket(dirs, dir) == buckets[i];
        ChainOneMore(buckets, offsets, i, table, dirHashSiblings);
        var oldHead := table[bucket];
        table := table[bucket := dir.entryOffset];
        dirHashSiblings := dirHashSiblings[i := oldHead];
      }
      AllChained(buckets, offsets, table, dirHashSiblings);
    }

    method GenerateFileHashTable() returns (table: seq<u32>)
      requires Expressible(dirs, files) && |fileHashSiblings| == |files|
      modifies this`fileHashSiblings
      ensures table == FileHashTable(dirs, files) && fileHashSiblings == FileSiblings(dirs, files)
    {
      hide Chained, PathHash, HashCount, IndicesFit;
      ParentsFitOf(dirs, files);
      ghost var buckets, offsets := FileBuckets(dirs, files), FileOffsets(files);
      var tableSize := ComputeHashCount(|files|);
      table := seq(tableSize, _ => NO_ENTRY);
      NothingChained(buckets, offsets, table, fileHashSiblings);
      for j := 0 to |files|
        invariant |table| == tableSize && |fileHashSiblings| == |files| && Chained(buckets, offsets, j, table, fileHashSiblings)
      {
        var file := files[j];
        var parentOffset := dirs[file.parent].entryOffset;
        var hash := ComputePathHash(parentOffset, file.name);
        var bucket := hash % tableSize;
        assert bucket == FileBucket(dirs, file, tableSize) == buckets[j];
        ChainOneMore(buckets, offsets, j, table, fileHashSiblings);
        var oldHead := table[bucket];
        table := table[bucket := file.entryOffset];
        fileHashSiblings := fileHashSiblings[j := oldHead];
      }
      AllChained(buckets, offsets, table, fileHashSiblings);
    }

    // ---- Metadata tables ----

    /** The directory after this one in its parent's list, told apart by offset. */
    method FindSiblingDir(dir: DirEntry, ghost i: nat) returns (r: u32)
      requires IndicesFit(dirs, files) && LaidOut(dirs, files) && i < |dirs| && dirs[i] == dir && dir.parent < |dirs|
      requires InRange(dirs[dir.parent].children, |dirs|)
      ensures r == DirOffsetOf(dirs, NextAfter(dirs[dir.parent].children, i))
    {
      hide IndicesFit, LaidOut;
      var children := dirs[dir.parent].children;
      var k: nat := 0;
      assert children[0..] == children;
      while k + 1 < |children|
        invariant k <= |children| && NextAfter(children[k..], i) == NextAfter(children, i)
      {
        DirOffsetsTellApart(dirs, files, children[k], i);
        assert children[k..][1..] == children[k + 1..];
        if dirs[children[k]].entryOffset == dir.entryOffset {
          return dirs[children[k + 1]].entryOffset;
        }
        k := k + 1;
      }
      r := NO_ENTRY;
    }

    method FindSiblingFile(file: FileEntry, ghost j: nat) returns (r: u32)
      requires LaidOut(dirs, files) && j < |files| && files[j] == file && file.parent < |dirs|
      requires InRange(dirs[file.parent].files, |files|)
      ensures r == FileOffsetOf(files, NextAfter(dirs[file.parent].files, j))
    {
      hide LaidOut;
      var listed := dirs[file.parent].files;
      var k: nat := 0;
      assert listed[0..] == listed;
      while k + 1 < |listed|
        invariant k <= |listed| && NextAfter(listed[k..], j) == NextAfter(listed, j)
      {
        FileOffsetsTellApart(dirs, files, listed[k], j);
        assert listed[k..][1..] == listed[k + 1..];
        if files[listed[k]].entryOffset == file.entryOffset {
          return files[listed[k + 1]].entryOffset;
        }
        k := k + 1;
      }
      r := NO_ENTRY;
    }

    method BuildDirTable() returns (table: seq<u8>)
      requires Expressible(dirs, files) && LaidOut(dirs, files) && dirHashSiblings == DirSiblings(dirs, files)
      ensures table == Concat(DirParts(dirs, files))
    {
      hide LaidOut, AlignUp, PadTo, PaddedName, DirSiblings, InRange, NextAfter, First;
      ghost var parts := DirParts(dirs, files);
      table := [];
      assert parts[..0] == [];
      for i := 0 to |dirs|
        invariant table == Concat(parts[..i]) && |table| % 4 == 0
      {
        var dir := dirs[i];
        assert DirFits(dir, |dirs|, |files|) && DirFits(dirs[dir.parent], |dirs|, |files|);
        var parentOffset := dirs[dir.parent].entryOffset;
        var siblingOffset := FindSiblingDir(dir, i);
        var firstChild := FirstDirOffset(dir);
        var firstFile := FirstFileOffset(dir);
        var hashSibling := dirHashSiblings[i];
        ghost var fields := DirFields(parentOffset, siblingOffset, firstChild, firstFile, hashSibling, |dir.name|);
        assert fields == DirFieldsOf(dirs, files, dirHashSiblings, i);
        var words := Words([parentOffset, siblingOffset, firstChild, firstFile, hashSibling, |dir.name|]);
        assert words == Words(DirWords(fields));
        EntryAppended(table, words, dir.name);
        TakeOneMore(parts, i);
        ConcatSnoc(parts[..i], parts[i]);
        table := table + words;
        table := table + dir.name;
        table := PadTo(table, 4);
      }
      assert parts[..|dirs|] == parts;
    }

    method FirstDirOffset(dir: DirEntry) returns (r: u32)
      requires InRange(dir.children, |dirs|)
      ensures (First(dir.children).Some? ==> First(dir.children).value < |dirs|) && r == DirOffsetOf(dirs, First(dir.children))
    {
      r := if dir.children == [] then NO_ENTRY else dirs[dir.children[0]].entryOffset;
    }

    method FirstFileOffset(dir: DirEntry) returns (r: u32)
      requires InRange(dir.files, |files|)
      ensures (First(dir.files).Some? ==> First(dir.files).value < |files|) && r == FileOffsetOf(files, First(dir.files))
    {
      r := if dir.files == [] then NO_ENTRY else files[dir.files[0]].entryOffset;
    }

    method BuildFileTable() returns (table: seq<u8>)
      requires Expressible(dirs, files) && LaidOut(dirs, files) && fileHashSiblings == FileSiblings(dirs, files)
      ensures table == Concat(FileParts(dirs, files))
    {
      hide LaidOut, AlignUp, PadTo, PaddedName, FileSiblings, InRange, NextAfter, First, Halves;
      ghost var parts := FileParts(dirs, files);
      table := [];
      assert parts[..0] == [];
      for j := 0 to |files|
        invariant table == Concat(parts[..j]) && |table| % 4 == 0
      {
        var file := files[j];
        assert DirFits(dirs[file.parent], |dirs|, |files|);
        var parentOffset := dirs[file.parent].entryOffset;
        var siblingOffset := FindSiblingFile(file, j);
        var hashSibling := fileHashSiblings[j];
        ghost var fields := FileFields(parentOffset, siblingOffset, file.dataOffset, |file.data|, hashSibling, |file.name|);
        assert fields == FileFieldsOf(dirs, files, fileHashSiblings, j);
        var words := Words([parentOffset, siblingOffset, Halves(file.dataOffset)[0], Halves(file.dataOffset)[1],
                            Halves(|file.data|)[0], Halves(|file.data|)[1], hashSibling, |file.name|]);
        assert words == Words(FileWords(fields));
        EntryAppended(table, words, file.name);
        TakeOneMore(parts, j);
        ConcatSnoc(parts[..j], parts[j]);
        table := table + words;
        table := table + file.name;
        table := PadTo(table, 4);
      }
      assert parts[..|files|] == parts;
    }

    // ---- The image ----

    method WriteHeader(dirHashTable: seq<u32>, dirTable: seq<u8>, fileHashTable: seq<u32>, fileTable: seq<u8>, partitionSize: nat)
      returns (buf: seq<u8>)
      requires Fits(dirs, files) && partitionSize == PartitionSize(files)
      requires |dirHashTable| == HashCount(|dirs|) && |dirTable| == DirOffset(dirs, |dirs|)
      requires |fileHashTable| == HashCount(|files|) && |fileTable| == FileOffset(files, |files|)
      ensures buf == Longs(HeaderFields(HeaderOf(dirs, files)))
    {
      hide HashCount, DirOffset, FileOffset, DataEnd, AlignUp, Longs;
      var dataEnd := FILE_PARTITION + partitionSize;
      var dirHashOffset := AlignUp(dataEnd, 4);
      var dirHashSize := |dirHashTable| * 4;
      var dirTableOffset := dirHashOffset + dirHashSize;
      var fileHashOffset := dirTableOffset + |dirTable|;
      var fileHashSize := |fileHashTable| * 4;
      var fileTableOffset := fileHashOffset + fileHashSize;
      buf := Longs([HEADER_SIZE, dirHashOffset, dirHashSize, dirTableOffset, |dirTable|,
                    fileHashOffset, fileHashSize, fileTableOffset, |fileTable|, FILE_PARTITION]);
    }

    /** The contents, each file padded up to a 16-byte boundary first. */
    method WriteContents(front: seq<u8>) returns (buf: seq<u8>)
      ensures buf == DataRegion(front, files, |files|)
    {
      buf := front;
      for j := 0 to |files|
        invariant buf == DataRegion(front, files, j)
      {
        buf := PadTo(buf, 0x10);
        buf := buf + files[j].data;
      }
    }

    /** Build the image; a builder holding no file is refused. */
    method Build() returns (r: Result<seq<u8>, BuildError>)
      requires Valid() && ContentsFit(Contents(files))
      modifies this
      ensures old(files) == [] ==> r == Err(Empty) && dirs == old(dirs) && files == old(files)
      ensures old(files) != [] ==> Stored(dirs, files, old(Contents(files))) && Fits(dirs, files) && Expressible(dirs, files)
      ensures old(files) != [] ==> r == Ok(Image(dirs, files)) && IsImageOf(r.value, old(Contents(files)))
    {
      hide IsTree, Contents, IsSorted, Loose, LaidOut, Fits, SameTables, Expressible, DirParts, FileParts, DataRegion, Concat, Words;
      if files == [] {
        return Err(Empty);
      }
      TreePathsDistinct(dirs, files);
      ghost var contents := Contents(files);
      ghost var order, newDir, fileOrder, newFile := SortEntriesByPath();
      SortChildren();
      SortedTablesFit(dirs, files, contents);
      ghost var bareDirs, bareFiles := dirs, files;
      CalculateOffsets();
      LaidOutStored(bareDirs, bareFiles, dirs, files);
      SortedTablesFit(dirs, files, contents);
      FitsExpressible(dirs, files);
      dirHashSiblings := seq(|dirs|, _ => NO_ENTRY);
      fileHashSiblings := seq(|files|, _ => NO_ENTRY);
      var dirHashTable := GenerateDirHashTable();
      var fileHashTable := GenerateFileHashTable();
      var dirTable := BuildDirTable();
      var fileTable := BuildFileTable();
      TableSizes(dirs, files);
      var partitionSize := CalculateFilePartitionSize();
      var buf := WriteHeader(dirHashTable, dirTable, fileHashTable, fileTable, partitionSize);
      buf := buf + Zeros(FILE_PARTITION - |buf|);
      assert buf == Front(dirs, files);
      buf := WriteContents(buf);
      buf := PadTo(buf, 4);
      buf := buf + Words(dirHashTable);
      buf := buf + dirTable;
      buf := buf + Words(fileHashTable);
      buf := buf + fileTable;
      r := Ok(buf);
    }
  }

  lemma {:induction false} NothingChained(buckets: seq<nat>, offsets: seq<u32>, table: seq<u32>, siblings: seq<u32>)
    requires |buckets| == |offsets| == |siblings| && forall b :: 0 <= b < |table| ==> table[b] == NO_ENTRY
    ensures Chained(buckets, offsets, 0, table, siblings)
  {
  }

  lemma {:induction false} DirOffsetsTellApart(dirs: seq<DirEntry>, files: seq<FileEntry>, a: nat, b: nat)
    requires LaidOut(dirs, files) && a < |dirs| && b < |dirs|
    ensures dirs[a].entryOffset == dirs[b].entryOffset <==> a == b
  {
    if a < b {
      DirOffsetsRise(dirs, a, b);
    } else {
      DirOffsetsRise(dirs, b, a);
    }
  }

  lemma {:induction false} FileOffsetsTellApart(dirs: seq<DirEntry>, files: seq<FileEntry>, a: nat, b: nat)
    requires LaidOut(dirs, files) && a < |files| && b < |files|
    ensures files[a].entryOffset == files[b].entryOffset <==> a == b
  {
    if a < b {
      FileOffsetsRise(files, a, b);
    } else {
      FileOffsetsRise(files, b, a);
    }
  }

  lemma {:induction false} SortedTablesFit(dirs: seq<DirEntry>, files: seq<FileEntry>, contents: map<Str, seq<u8>>)
    requires IsSorted(dirs, files) && ContentsFit(contents) && FilePathsDistinct(files) && Contents(files) == contents
    ensures Fits(dirs, files)
  {
  }

  lemma {:induction false} LaidOutStored(d1: seq<DirEntry>, f1: seq<FileEntry>, d2: seq<DirEntry>, f2: seq<FileEntry>)
    requires IsSorted(d1, f1) && FilePathsDistinct(f1) && SameTables(d1, f1, d2, f2)
    ensures IsSorted(d2, f2) && FilePathsDistinct(f2) && Contents(f2) == Contents(f1)
  {
    hide IsSorted, Contents;
    SameTablesSorted(d1, f1, d2, f2);
    assert |f1| == |f2|;
    var same := Indices(|f1|);
    assert forall j :: 0 <= j < |f1| ==> SameFile(f1[j], f2[j]);
    ContentsWithin(f1, f2, same);
    ContentsWithin(f2, f1, same);
  }

  lemma {:induction false} TableSizes(dirs: seq<DirEntry>, files: seq<FileEntry>)
    requires Expressible(dirs, files)
    ensures |Concat(DirParts(dirs, files))| == DirOffset(dirs, |dirs|)
    ensures |Concat(FileParts(dirs, files))| == FileOffset(files, |files|)
  {
    hide Expressible, DirFieldsOf, FileFieldsOf, DirBytes, FileBytes, DirParts, FileParts;
    DirPartsLength(DirParts(dirs, files), dirs);
    FilePartsLength(FileParts(dirs, files), files);
  }

  /** Where each entry ends up. */
  method InverseOf(order: seq<nat>) returns (inverse: seq<nat>)
    requires InRange(order, |order|) && Distinct(order) && forall i :: 0 <= i < |order| ==> i in order
    ensures IsInverse(inverse, order)
  {
    inverse := seq(|order|, _ => 0);
    for k := 0 to |order|
      invariant |inverse| == |order| && forall m :: 0 <= m < k ==> inverse[order[m]] == m
    {
      inverse := inverse[order[k] := k];
    }
    InverseOfPermutation(order, inverse);
  }

  method Relabel(xs: seq<nat>, to: seq<nat>) returns (r: seq<nat>)
    requires InRange(xs, |to|)
    ensures r == Moved(xs, to)
  {
    r := xs;
    for k := 0 to |xs|
      invariant |r| == |xs|
      invariant forall m :: 0 <= m < k ==> r[m] == to[xs[m]]
      invariant forall m :: k <= m < |xs| ==> r[m] == xs[m]
    {
      r := r[k := to[r[k]]];
    }
  }

  lemma {:induction false} TreePathsDistinct(dirs: seq<DirEntry>, files: seq<FileEntry>)
    requires IsTree(dirs, files)
    ensures Distinct(DirPaths(dirs)) && Distinct(FilePaths(files)) && FilePathsDistinct(files)
  {
    var ps, qs := DirPaths(dirs), FilePaths(files);
    assert forall i :: 0 <= i < |ps| ==> ps[i] == dirs[i].path;
    assert forall i :: 0 <= i < |qs| ==> qs[i] == files[i].path;
  }

  lemma {:induction false} LoosePathsDistinct(dirs: seq<DirEntry>, files: seq<FileEntry>)
    requires Loose(dirs, files)
    ensures Ascending(DirPaths(dirs)) && Ascending(FilePaths(files)) && FilePathsDistinct(files)
  {
    hide Ascending;
    AscendingKeysDistinct(FilePaths(files));
    var qs := FilePaths(files);
    assert forall i :: 0 <= i < |qs| ==> qs[i] == files[i].path;
  }

  lemma {:induction false} LooseDirsFit(dirs: seq<DirEntry>, files: seq<FileEntry>)
    requires Loose(dirs, files)
    ensures forall i {:trigger dirs[i]} :: 0 <= i < |dirs| ==> DirFits(dirs[i], |dirs|, |files|)
  {
    forall i {:trigger dirs[i]} | 0 <= i < |dirs|
      ensures DirFits(dirs[i], |dirs|, |files|)
    {
      ChildrenSort(dirs, files, i);
    }
  }

  lemma {:induction false} SameNames(was: seq<DirEntry>, now: seq<DirEntry>)
    requires |now| == |was| && forall k {:trigger now[k]} :: 0 <= k < |now| ==> now[k].name == was[k].name
    ensures DirNames(now) == DirNames(was)
  {
  }

  lemma {:induction false} RootFirst(dirs: seq<DirEntry>, files: seq<FileEntry>, but: nat)
    requires TreeBut(dirs, files, but)
    ensures |dirs| > 0 && dirs[0].path == [] && FilePathsDistinct(files)
  {
  }
}
