/** Looking names up in a built image: the chains the reader follows are the lists the builder sorted. */
module RomFsLookup {
  import opened Bytes
  import opened Order
  import opened RomFsPath
  import opened RomFsFormat
  import opened RomFsTree
  import opened RomFsSort
  import opened RomFsLayout
  import opened RomFsReadBack
  import Read = RomFsRead

  function DirChainOf(dirs: seq<DirEntry>, xs: seq<nat>): (chain: seq<u32>)
    requires InRange(xs, |dirs|)
    ensures |chain| == |xs| && forall k :: 0 <= k < |xs| ==> chain[k] == dirs[xs[k]].entryOffset
  {
    seq(|xs|, k requires 0 <= k < |xs| => dirs[xs[k]].entryOffset)
  }

  function FileChainOf(files: seq<FileEntry>, xs: seq<nat>): (chain: seq<u32>)
    requires InRange(xs, |files|)
    ensures |chain| == |xs| && forall k :: 0 <= k < |xs| ==> chain[k] == files[xs[k]].entryOffset
  {
    seq(|xs|, k requires 0 <= k < |xs| => files[xs[k]].entryOffset)
  }

  // ---- Following siblings ----

  lemma {:induction false} NextAfterAt(xs: seq<nat>, k: nat)
    requires Increasing(xs) && k < |xs|
    ensures NextAfter(xs, xs[k]) == if k + 1 < |xs| then Some(xs[k + 1]) else None
  {
    if k > 0 {
      NextAfterAt(xs[1..], k - 1);
    }
  }

  lemma {:induction false} DirLinks(dirs: seq<DirEntry>, files: seq<FileEntry>, p: nat, k: nat)
    requires IsSorted(dirs, files) && Expressible(dirs, files) && p < |dirs| && k < |dirs[p].children|
    requires InRange(dirs[p].children, |dirs|)
    ensures DirViewOf(dirs, files, dirs[p].children[k]).entry.sibling ==
            if k + 1 < |dirs[p].children| then dirs[dirs[p].children[k + 1]].entryOffset else NO_ENTRY
  {
    hide Ascending, DirSiblings, NextAfter, Expressible;
    var xs := dirs[p].children;
    assert ListsAt(dirs, files, p);
    NextAfterAt(xs, k);
    assert xs[k] in xs;
  }

  lemma {:induction false} FileLinks(dirs: seq<DirEntry>, files: seq<FileEntry>, p: nat, k: nat)
    requires IsSorted(dirs, files) && Expressible(dirs, files) && p < |dirs| && k < |dirs[p].files|
    requires InRange(dirs[p].files, |files|)
    ensures FileViewOf(dirs, files, dirs[p].files[k]).entry.sibling ==
            if k + 1 < |dirs[p].files| then files[dirs[p].files[k + 1]].entryOffset else NO_ENTRY
  {
    hide Ascending, FileSiblings, NextAfter, Expressible;
    var xs := dirs[p].files;
    assert ListsAt(dirs, files, p);
    NextAfterAt(xs, k);
    assert xs[k] in xs;
  }

  lemma {:induction false} FirstLinks(dirs: seq<DirEntry>, files: seq<FileEntry>, p: nat)
    requires Expressible(dirs, files) && p < |dirs| && DirFits(dirs[p], |dirs|, |files|)
    ensures var e, d := DirViewOf(dirs, files, p).entry, dirs[p];
      e.child == (if d.children != [] then dirs[d.children[0]].entryOffset else NO_ENTRY) &&
      e.file == (if d.files != [] then files[d.files[0]].entryOffset else NO_ENTRY)
  {
    hide DirSiblings, NextAfter, Expressible;
  }

  ghost predicate DirChainedFrom(fs: Read.RomFs, dirs: seq<DirEntry>, xs: seq<nat>, k: nat)
    requires Read.Opened(fs) && k <= |xs| && InRange(xs, |dirs|)
  {
    Read.DirChain(fs, if k < |xs| then dirs[xs[k]].entryOffset else NO_ENTRY, DirChainOf(dirs, xs)[k..])
  }

  lemma {:induction false} DirChainFrom(fs: Read.RomFs, dirs: seq<DirEntry>, files: seq<FileEntry>, p: nat, k: nat)
    requires IsViewOf(fs, dirs, files) && Read.Opened(fs) && p < |dirs| && k <= |dirs[p].children|
    requires InRange(dirs[p].children, |dirs|)
    ensures DirChainedFrom(fs, dirs, dirs[p].children, k)
    decreases |dirs[p].children| - k
  {
    hide IsViewOf, IsSorted, LaidOut, Expressible, Read.Opened, Read.DirFromOffset, DirViewOf, DirChainOf;
    var xs := dirs[p].children;
    if k < |xs| {
      DirReadsBack(fs, dirs, files, xs[k]);
      ViewParts(fs, dirs, files);
      DirLinks(dirs, files, p, k);
      DirChainFrom(fs, dirs, files, p, k + 1);
      var chain := DirChainOf(dirs, xs);
      assert chain[k..][1..] == chain[k + 1..];
    }
  }

  ghost predicate FileChainedFrom(fs: Read.RomFs, files: seq<FileEntry>, xs: seq<nat>, k: nat)
    requires Read.Opened(fs) && k <= |xs| && InRange(xs, |files|)
  {
    Read.FileChain(fs, if k < |xs| then files[xs[k]].entryOffset else NO_ENTRY, FileChainOf(files, xs)[k..])
  }

  lemma {:induction false} FileChainFrom(fs: Read.RomFs, dirs: seq<DirEntry>, files: seq<FileEntry>, p: nat, k: nat)
    requires IsViewOf(fs, dirs, files) && Read.Opened(fs) && p < |dirs| && k <= |dirs[p].files|
    requires InRange(dirs[p].files, |files|)
    ensures FileChainedFrom(fs, files, dirs[p].files, k)
    decreases |dirs[p].files| - k
  {
    hide IsViewOf, IsSorted, LaidOut, Expressible, Read.Opened, Read.FileFromOffset, FileViewOf, FileChainOf;
    var xs := dirs[p].files;
    if k < |xs| {
      FileReadsBack(fs, dirs, files, xs[k]);
      ViewParts(fs, dirs, files);
      FileLinks(dirs, files, p, k);
      FileChainFrom(fs, dirs, files, p, k + 1);
      var chain := FileChainOf(files, xs);
      assert chain[k..][1..] == chain[k + 1..];
    }
  }

  lemma {:induction false} ViewParts(fs: Read.RomFs, dirs: seq<DirEntry>, files: seq<FileEntry>)
    requires IsViewOf(fs, dirs, files)
    ensures IsSorted(dirs, files) && LaidOut(dirs, files) && Expressible(dirs, files)
  {
  }

  /** The sibling chains of every directory are finite: they are its child lists, in order. */
  lemma {:induction false} ChainsAreLists(fs: Read.RomFs, dirs: seq<DirEntry>, files: seq<FileEntry>, p: nat)
    requires IsViewOf(fs, dirs, files) && Read.Opened(fs) && p < |dirs|
    ensures Expressible(dirs, files) && DirFits(dirs[p], |dirs|, |files|)
    ensures Read.DirChain(fs, DirViewOf(dirs, files, p).entry.child, DirChainOf(dirs, dirs[p].children))
    ensures Read.FileChain(fs, DirViewOf(dirs, files, p).entry.file, FileChainOf(files, dirs[p].files))
  {
    hide IsViewOf, Read.Opened, DirViewOf, DirChainOf, FileChainOf, Read.DirChain, Read.FileChain;
    ViewParts(fs, dirs, files);
    assert DirFits(dirs[p], |dirs|, |files|);
    FirstLinks(dirs, files, p);
    DirChainFrom(fs, dirs, files, p, 0);
    FileChainFrom(fs, dirs, files, p, 0);
    var a, b := DirChainOf(dirs, dirs[p].children), FileChainOf(files, dirs[p].files);
    assert a[0..] == a && b[0..] == b;
  }

  // ---- Names ----

  /** The first listed entry of that name. */
  function FirstNamed(xs: seq<nat>, names: seq<Str>, name: Str): (r: Option<nat>)
    requires InRange(xs, |names|)
    ensures r.Some? ==> r.value in xs && r.value < |names| && names[r.value] == name
    ensures r.None? ==> forall x :: x in xs ==> x < |names| && names[x] != name
  {
    if xs == [] then None
    else if names[xs[0]] == name then Some(xs[0])
    else
      assert xs == [xs[0]] + xs[1..];
      FirstNamed(xs[1..], names, name)
  }

  lemma {:induction false} DirLookupIn(fs: Read.RomFs, dirs: seq<DirEntry>, files: seq<FileEntry>, xs: seq<nat>, name: Str)
    requires IsViewOf(fs, dirs, files) && Read.Opened(fs) && Expressible(dirs, files) && InRange(xs, |dirs|)
    ensures Read.DirLookup(fs, DirChainOf(dirs, xs), name) ==
            match FirstNamed(xs, DirNames(dirs), name)
            case Some(c) => Ok(DirViewOf(dirs, files, c))
            case None => Err(Read.DirNotFound)
  {
    hide IsViewOf, Read.Opened, Read.DirFromOffset, DirFieldsOf, Expressible;
    if xs != [] {
      DirReadsBack(fs, dirs, files, xs[0]);
      assert DirChainOf(dirs, xs)[1..] == DirChainOf(dirs, xs[1..]);
      DirLookupIn(fs, dirs, files, xs[1..], name);
    }
  }

  lemma {:induction false} FileLookupIn(fs: Read.RomFs, dirs: seq<DirEntry>, files: seq<FileEntry>, xs: seq<nat>, name: Str)
    requires IsViewOf(fs, dirs, files) && Read.Opened(fs) && Expressible(dirs, files) && InRange(xs, |files|)
    ensures Read.FileLookup(fs, FileChainOf(files, xs), name) ==
            match FirstNamed(xs, FileNames(files), name)
            case Some(j) => Ok(FileViewOf(dirs, files, j))
            case None => Err(Read.FileNotFound)
  {
    hide IsViewOf, Read.Opened, Read.FileFromOffset, FileFieldsOf, Expressible;
    if xs != [] {
      FileReadsBack(fs, dirs, files, xs[0]);
      assert FileChainOf(files, xs)[1..] == FileChainOf(files, xs[1..]);
      FileLookupIn(fs, dirs, files, xs[1..], name);
    }
  }

  // ---- Descending ----

  /** Where a descent through the tables from directory `i` ends. */
  function Resolve(dirs: seq<DirEntry>, files: seq<FileEntry>, i: nat, comps: seq<Str>): (r: Result<nat, Read.OpenError>)
    requires comps != [] && i < |dirs| && forall k :: 0 <= k < |dirs| ==> DirFits(dirs[k], |dirs|, |files|)
    ensures r.Ok? ==> r.value < |files|
    decreases |comps|
  {
    assert DirFits(dirs[i], |dirs|, |files|);
    if |comps| == 1 then
      match FirstNamed(dirs[i].files, FileNames(files), comps[0])
      case Some(j) => Ok(j)
      case None => Err(Read.FileNotFound)
    else
      match FirstNamed(dirs[i].children, DirNames(dirs), comps[0])
      case Some(c) => Resolve(dirs, files, c, comps[1..])
      case None => Err(Read.DirNotFound)
  }

  /** The reader's descent through the bytes is the descent through the tables. */
  lemma {:induction false} DescentAgrees(fs: Read.RomFs, dirs: seq<DirEntry>, files: seq<FileEntry>, i: nat, comps: seq<Str>)
    requires IsViewOf(fs, dirs, files) && Read.Opened(fs) && Expressible(dirs, files) && i < |dirs| && comps != []
    requires forall k :: 0 <= k < |dirs| ==> DirFits(dirs[k], |dirs|, |files|)
    ensures Read.OpensTo(fs, DirViewOf(dirs, files, i), comps,
              match Resolve(dirs, files, i, comps) case Ok(j) => Ok(FileViewOf(dirs, files, j)) case Err(e) => Err(e))
    decreases |comps|
  {
    hide IsViewOf, Read.Opened, Expressible, DirViewOf, FileViewOf, DirChainOf, FileChainOf, Read.DirChain, Read.FileChain,
         Read.DirLookup, Read.FileLookup, FirstNamed;
    var d := dirs[i];
    ChainsAreLists(fs, dirs, files, i);
    if |comps| == 1 {
      FileLookupIn(fs, dirs, files, d.files, comps[0]);
    } else {
      DirLookupIn(fs, dirs, files, d.children, comps[0]);
      var found := FirstNamed(d.children, DirNames(dirs), comps[0]);
      if found.Some? {
        DescentAgrees(fs, dirs, files, found.value, comps[1..]);
      }
    }
  }

  /** A directory whose path continues `q` has an ancestor at `q`. */
  lemma {:induction false} PrefixDirExists(dirs: seq<DirEntry>, d: nat, q: Str, comps: seq<Str>) returns (k: nat)
    requires DirsLinked(dirs) && d < |dirs| && AllSlashFree(comps) && dirs[d].path == q + Join(comps)
    ensures k < |dirs| && dirs[k].path == q
    decreases |comps|
  {
    if comps == [] {
      k := d;
    } else {
      var n := |comps| - 1;
      AppendJoin(q, comps);
      assert d > 0;
      assert DirLinked(dirs, d);
      ParentAndNameUnique(q + Join(comps[..n]), comps[n], dirs[dirs[d].parent].path, dirs[d].name);
      k := PrefixDirExists(dirs, dirs[d].parent, q, comps[..n]);
    }
  }

  ghost predicate HasDirAt(dirs: seq<DirEntry>, path: Str) {
    exists i :: 0 <= i < |dirs| && dirs[i].path == path
  }

  /** A descent finds the file at the joined path, or tells which part of the path is missing. */
  lemma {:induction false} ResolveByPath(dirs: seq<DirEntry>, files: seq<FileEntry>, i: nat, comps: seq<Str>)
    requires IsSorted(dirs, files) && i < |dirs| && comps != [] && AllSlashFree(comps)
    requires forall k :: 0 <= k < |dirs| ==> DirFits(dirs[k], |dirs|, |files|)
    ensures var r, p := Resolve(dirs, files, i, comps), dirs[i].path;
      if r.Ok? then files[r.value].path == p + Join(comps)
      else
        (forall j :: 0 <= j < |files| ==> files[j].path != p + Join(comps)) &&
        r.error == if HasDirAt(dirs, p + Join(comps[..|comps| - 1])) then Read.FileNotFound else Read.DirNotFound
    decreases |comps|
  {
    hide Ascending, Increasing, FirstNamed;
    SortedPathsDistinct(dirs, files);
    AppendJoin(dirs[i].path, comps);
    assert ListsAt(dirs, files, i);
    if |comps| == 1 {
      assert comps[..0] == [] && comps[1..] == [] && dirs[i].path + [] == dirs[i].path;
      var found := FirstNamed(dirs[i].files, FileNames(files), comps[0]);
      if found.Some? {
        assert FileLinked(dirs, files[found.value]);
      } else {
        NoSuchFile(dirs, files, i, comps[0]);
      }
    } else {
      var found := FirstNamed(dirs[i].children, DirNames(dirs), comps[0]);
      if found.Some? {
        assert DirLinked(dirs, found.value);
        ResolveByPath(dirs, files, found.value, comps[1..]);
        var n := |comps| - 1;
        AppendJoin(dirs[i].path, comps[..n]);
        assert comps[..n][1..] == comps[1..][..n - 1];
      } else {
        NoSuchPath(dirs, files, i, comps);
      }
    }
  }

  lemma {:induction false} FileAtPath(dirs: seq<DirEntry>, files: seq<FileEntry>, i: nat, name: Str, j: nat)
    requires IsSorted(dirs, files) && DirPathsDistinct(dirs) && i < |dirs| && SlashFree(name) && j < |files|
    requires files[j].path == ChildPath(dirs[i].path, name)
    ensures j in dirs[i].files && files[j].name == name
  {
    hide Ascending, Increasing;
    assert ListsAt(dirs, files, i);
    FileByName(dirs, files, i, name, j);
  }

  lemma {:induction false} DirOnPath(dirs: seq<DirEntry>, files: seq<FileEntry>, i: nat, comps: seq<Str>, k: nat) returns (c: nat)
    requires IsSorted(dirs, files) && DirPathsDistinct(dirs) && i < |dirs| && comps != [] && AllSlashFree(comps)
    requires k < |dirs| && dirs[k].path == dirs[i].path + Join(comps)
    ensures c < |dirs| && c in dirs[i].children && dirs[c].name == comps[0]
  {
    hide Ascending, Increasing;
    assert ListsAt(dirs, files, i);
    AppendJoin(dirs[i].path, comps);
    c := PrefixDirExists(dirs, k, ChildPath(dirs[i].path, comps[0]), comps[1..]);
    ChildByName(dirs, i, comps[0], c);
  }

  lemma {:induction false} ParentOnPath(dirs: seq<DirEntry>, files: seq<FileEntry>, q: Str, name: Str, j: nat)
    requires FilesLinked(dirs, files) && j < |files| && SlashFree(name) && files[j].path == q + [SLASH] + name
    ensures HasDirAt(dirs, q)
  {
    assert FileLinked(dirs, files[j]);
    ParentAndNameUnique(q, name, dirs[files[j].parent].path, files[j].name);
  }

  lemma {:induction false} NoSuchFile(dirs: seq<DirEntry>, files: seq<FileEntry>, i: nat, name: Str)
    requires IsSorted(dirs, files) && DirPathsDistinct(dirs) && i < |dirs| && SlashFree(name) && InRange(dirs[i].files, |files|)
    requires FirstNamed(dirs[i].files, FileNames(files), name).None?
    ensures forall j :: 0 <= j < |files| ==> files[j].path != ChildPath(dirs[i].path, name)
  {
    hide IsSorted, FirstNamed;
    forall j | 0 <= j < |files|
      ensures files[j].path != ChildPath(dirs[i].path, name)
    {
      if files[j].path == ChildPath(dirs[i].path, name) {
        FileAtPath(dirs, files, i, name, j);
      }
    }
  }

  lemma {:induction false} NoSuchPath(dirs: seq<DirEntry>, files: seq<FileEntry>, i: nat, comps: seq<Str>)
    requires IsSorted(dirs, files) && DirPathsDistinct(dirs) && i < |dirs| && |comps| > 1 && AllSlashFree(comps)
    requires InRange(dirs[i].children, |dirs|) && FirstNamed(dirs[i].children, DirNames(dirs), comps[0]).None?
    ensures !HasDirAt(dirs, dirs[i].path + Join(comps[..|comps| - 1]))
    ensures forall j :: 0 <= j < |files| ==> files[j].path != dirs[i].path + Join(comps)
  {
    hide Ascending, Increasing, FirstNamed, DirLinked, ListsAt;
    var p, n := dirs[i].path, |comps| - 1;
    var parent := p + Join(comps[..n]);
    if k :| 0 <= k < |dirs| && dirs[k].path == parent {
      var c := DirOnPath(dirs, files, i, comps[..n], k);
    }
    AppendJoin(p, comps);
    forall j | 0 <= j < |files|
      ensures files[j].path != p + Join(comps)
    {
      if files[j].path == p + Join(comps) {
        ParentOnPath(dirs, files, parent, comps[n], j);
      }
    }
  }
}
