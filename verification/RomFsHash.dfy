/** The hash index of a built image: what each bucket chains, and why probing it agrees with the sibling walk. */
module RomFsHash {
  import opened Bytes
  import opened Packing
  import opened Order
  import opened RomFsFormat
  import opened RomFsTree
  import opened RomFsSort
  import opened RomFsLayout
  import opened RomFsImage
  import opened RomFsReadBack
  import opened RomFsLookup
  import RomFsBuild
  import Read = RomFsRead

  // ---- One bucket ----

  ghost predicate Decreasing(xs: seq<nat>) {
    forall i, j :: 0 <= i < j < |xs| ==> xs[i] > xs[j]
  }

  /** The entries of bucket `b` among the first `n`, latest first. */
  function Members(buckets: seq<nat>, n: nat, b: nat): (xs: seq<nat>)
    requires n <= |buckets|
    ensures InRange(xs, n) && Decreasing(xs)
    ensures forall x :: x in xs <==> 0 <= x < n && buckets[x] == b
  {
    if n == 0 then []
    else if buckets[n - 1] == b then [n - 1] + Members(buckets, n - 1, b)
    else Members(buckets, n - 1, b)
  }

  /** `chain` lists the directories met along the hash links from `offset` on, all of them readable. */
  ghost predicate DirHashChain(fs: Read.RomFs, offset: u32, chain: seq<u32>)
    requires Read.Opened(fs)
    decreases |chain|
  {
    if offset == NO_ENTRY then chain == []
    else
      chain != [] && chain[0] == offset && Read.DirFromOffset(fs, offset).Ok? &&
      DirHashChain(fs, Read.DirFromOffset(fs, offset).value.entry.hashSibling, chain[1..])
  }

  ghost predicate FileHashChain(fs: Read.RomFs, offset: u32, chain: seq<u32>)
    requires Read.Opened(fs)
    decreases |chain|
  {
    if offset == NO_ENTRY then chain == []
    else
      chain != [] && chain[0] == offset && Read.FileFromOffset(fs, offset).Ok? &&
      FileHashChain(fs, Read.FileFromOffset(fs, offset).value.entry.hashSibling, chain[1..])
  }

  /** A bucket's head, as stored in the hash table at `table`. */
  function BucketHead(fs: Read.RomFs, table: nat, b: nat): u32
    requires table + 4 * b + 4 <= |fs.bytes|
  {
    U32At(fs.bytes, table + 4 * b)
  }

  lemma {:induction false} DirHashLink(dirs: seq<DirEntry>, files: seq<FileEntry>, i: nat)
    requires Expressible(dirs, files) && i < |dirs| && ParentsFit(dirs, [])
    ensures DirViewOf(dirs, files, i).entry.hashSibling == LatestIn(DirBuckets(dirs), DirOffsets(dirs), i, DirBuckets(dirs)[i])
  {
    hide Expressible, LatestIn, NextAfter, First, DirBucket;
  }

  lemma {:induction false} FileHashLink(dirs: seq<DirEntry>, files: seq<FileEntry>, j: nat)
    requires Expressible(dirs, files) && j < |files| && ParentsFit(dirs, files)
    ensures FileViewOf(dirs, files, j).entry.hashSibling ==
            LatestIn(FileBuckets(dirs, files), FileOffsets(files), j, FileBuckets(dirs, files)[j])
  {
    hide Expressible, LatestIn, NextAfter, First, FileBucket;
  }

  function Picked(offsets: seq<u32>, xs: seq<nat>): (r: seq<u32>)
    requires InRange(xs, |offsets|)
    ensures |r| == |xs| && forall k :: 0 <= k < |xs| ==> r[k] == offsets[xs[k]]
  {
    seq(|xs|, k requires 0 <= k < |xs| => offsets[xs[k]])
  }

  ghost predicate DirHashLinkedAt(fs: Read.RomFs, buckets: seq<nat>, offsets: seq<u32>, k: nat)
    requires Read.Opened(fs) && k < |buckets| == |offsets|
  {
    offsets[k] < NO_ENTRY && Read.DirFromOffset(fs, offsets[k]).Ok? &&
    Read.DirFromOffset(fs, offsets[k]).value.entry.hashSibling == LatestIn(buckets, offsets, k, buckets[k])
  }

  ghost predicate DirHashLinked(fs: Read.RomFs, buckets: seq<nat>, offsets: seq<u32>)
    requires Read.Opened(fs) && |buckets| == |offsets|
  {
    forall k {:trigger DirHashLinkedAt(fs, buckets, offsets, k)} :: 0 <= k < |offsets| ==> DirHashLinkedAt(fs, buckets, offsets, k)
  }

  lemma {:induction false} DirMembersChained(fs: Read.RomFs, buckets: seq<nat>, offsets: seq<u32>, n: nat, b: nat)
    requires Read.Opened(fs) && n <= |buckets| == |offsets| && DirHashLinked(fs, buckets, offsets)
    ensures DirHashChain(fs, LatestIn(buckets, offsets, n, b), Picked(offsets, Members(buckets, n, b)))
  {
    hide Read.Opened, Read.DirFromOffset;
    if n > 0 {
      DirMembersChained(fs, buckets, offsets, n - 1, b);
      if buckets[n - 1] == b {
        assert DirHashLinkedAt(fs, buckets, offsets, n - 1);
        var rest := Members(buckets, n - 1, b);
        assert Picked(offsets, [n - 1] + rest)[1..] == Picked(offsets, rest);
      }
    }
  }

  lemma {:induction false} DirHashLinks(fs: Read.RomFs, dirs: seq<DirEntry>, files: seq<FileEntry>)
    requires IsViewOf(fs, dirs, files) && Read.Opened(fs) && ParentsFit(dirs, [])
    ensures DirHashLinked(fs, DirBuckets(dirs), DirOffsets(dirs))
  {
    hide IsViewOf, IsSorted, LaidOut, Expressible, Read.Opened, Read.DirFromOffset, DirViewOf, ParentsFit, DirBucket, LatestIn;
    ViewParts(fs, dirs, files);
    forall k {:trigger DirHashLinkedAt(fs, DirBuckets(dirs), DirOffsets(dirs), k)} | 0 <= k < |dirs|
      ensures DirHashLinkedAt(fs, DirBuckets(dirs), DirOffsets(dirs), k)
    {
      DirReadsBack(fs, dirs, files, k);
      DirHashLink(dirs, files, k);
    }
  }

  ghost predicate FileHashLinkedAt(fs: Read.RomFs, buckets: seq<nat>, offsets: seq<u32>, k: nat)
    requires Read.Opened(fs) && k < |buckets| == |offsets|
  {
    offsets[k] < NO_ENTRY && Read.FileFromOffset(fs, offsets[k]).Ok? &&
    Read.FileFromOffset(fs, offsets[k]).value.entry.hashSibling == LatestIn(buckets, offsets, k, buckets[k])
  }

  ghost predicate FileHashLinked(fs: Read.RomFs, buckets: seq<nat>, offsets: seq<u32>)
    requires Read.Opened(fs) && |buckets| == |offsets|
  {
    forall k {:trigger FileHashLinkedAt(fs, buckets, offsets, k)} :: 0 <= k < |offsets| ==> FileHashLinkedAt(fs, buckets, offsets, k)
  }

  lemma {:induction false} FileMembersChained(fs: Read.RomFs, buckets: seq<nat>, offsets: seq<u32>, n: nat, b: nat)
    requires Read.Opened(fs) && n <= |buckets| == |offsets| && FileHashLinked(fs, buckets, offsets)
    ensures FileHashChain(fs, LatestIn(buckets, offsets, n, b), Picked(offsets, Members(buckets, n, b)))
  {
    hide Read.Opened, Read.FileFromOffset;
    if n > 0 {
      FileMembersChained(fs, buckets, offsets, n - 1, b);
      if buckets[n - 1] == b {
        assert FileHashLinkedAt(fs, buckets, offsets, n - 1);
        var rest := Members(buckets, n - 1, b);
        assert Picked(offsets, [n - 1] + rest)[1..] == Picked(offsets, rest);
      }
    }
  }

  lemma {:induction false} FileHashLinks(fs: Read.RomFs, dirs: seq<DirEntry>, files: seq<FileEntry>)
    requires IsViewOf(fs, dirs, files) && Read.Opened(fs) && ParentsFit(dirs, files)
    ensures FileHashLinked(fs, FileBuckets(dirs, files), FileOffsets(files))
  {
    hide IsViewOf, IsSorted, LaidOut, Expressible, Read.Opened, Read.FileFromOffset, FileViewOf, ParentsFit, FileBucket, LatestIn;
    ViewParts(fs, dirs, files);
    forall k {:trigger FileHashLinkedAt(fs, FileBuckets(dirs, files), FileOffsets(files), k)} | 0 <= k < |files|
      ensures FileHashLinkedAt(fs, FileBuckets(dirs, files), FileOffsets(files), k)
    {
      FileReadsBack(fs, dirs, files, k);
      FileHashLink(dirs, files, k);
    }
  }

  lemma {:induction false} HeadsRead(bytes: seq<u8>, at: nat, size: nat, table: seq<u32>, b: nat)
    requires at + size <= |bytes| && size == 4 * |table| && bytes[at..at + size] == Words(table) && b < |table|
    ensures at + 4 * b + 4 <= |bytes| && U32At(bytes, at + 4 * b) == table[b]
  {
    WordReads(bytes, at, table, b);
  }

  /**
   * Each directory bucket heads a finite chain of strictly falling offsets that holds exactly the
   * directories whose parent and name hash to it.
   */
  lemma {:induction false} DirBucketChain(fs: Read.RomFs, dirs: seq<DirEntry>, files: seq<FileEntry>, b: nat) returns (xs: seq<nat>)
    requires IsViewOf(fs, dirs, files) && Read.Opened(fs) && b < HashCount(|dirs|)
    ensures ParentsFit(dirs, []) && InRange(xs, |dirs|)
    ensures forall x :: x in xs <==> 0 <= x < |dirs| && DirBucket(dirs, dirs[x]) == b
    ensures fs.header.dirHashOffset + 4 * b + 4 <= |fs.bytes|
    ensures DirHashChain(fs, BucketHead(fs, fs.header.dirHashOffset, b), DirChainOf(dirs, xs)) && Decreasing(DirChainOf(dirs, xs))
  {
    hide IsViewOf, IsSorted, LaidOut, DirHashChain, DirHashLinked, Expressible, HashCount, Words, DirBucket, LatestIn, Members, Read.Opened;
    ViewParts(fs, dirs, files);
    SortedIndicesFit(dirs, files);
    ParentsFitOf(dirs, files);
    xs := Members(DirBuckets(dirs), |dirs|, b);
    DirHashLinks(fs, dirs, files);
    DirMembersChained(fs, DirBuckets(dirs), DirOffsets(dirs), |dirs|, b);
    assert DirChainOf(dirs, xs) == Picked(DirOffsets(dirs), xs);
    HashTablesAt(fs, dirs, files);
    HeadsRead(fs.bytes, fs.header.dirHashOffset, fs.header.dirHashSize, DirHashTable(dirs, files), b);
    DirChainFalls(dirs, files, xs);
  }

  lemma {:induction false} DirChainFalls(dirs: seq<DirEntry>, files: seq<FileEntry>, xs: seq<nat>)
    requires LaidOut(dirs, files) && InRange(xs, |dirs|) && Decreasing(xs)
    ensures Decreasing(DirChainOf(dirs, xs))
  {
    forall i, j | 0 <= i < j < |xs|
      ensures DirChainOf(dirs, xs)[i] > DirChainOf(dirs, xs)[j]
    {
      DirOffsetsRise(dirs, xs[j], xs[i]);
    }
  }

  lemma {:induction false} FileChainFalls(dirs: seq<DirEntry>, files: seq<FileEntry>, xs: seq<nat>)
    requires LaidOut(dirs, files) && InRange(xs, |files|) && Decreasing(xs)
    ensures Decreasing(FileChainOf(files, xs))
  {
    forall i, j | 0 <= i < j < |xs|
      ensures FileChainOf(files, xs)[i] > FileChainOf(files, xs)[j]
    {
      FileOffsetsRise(files, xs[j], xs[i]);
    }
  }

  lemma {:induction false} HashTablesAt(fs: Read.RomFs, dirs: seq<DirEntry>, files: seq<FileEntry>)
    requires IsViewOf(fs, dirs, files) && Read.Opened(fs)
    ensures Expressible(dirs, files)
    ensures var h := fs.header;
      h.dirHashOffset + h.dirHashSize <= |fs.bytes| && h.dirHashSize == 4 * |DirHashTable(dirs, files)| &&
      fs.bytes[h.dirHashOffset..h.dirHashOffset + h.dirHashSize] == Words(DirHashTable(dirs, files)) &&
      h.fileHashOffset + h.fileHashSize <= |fs.bytes| && h.fileHashSize == 4 * |FileHashTable(dirs, files)| &&
      fs.bytes[h.fileHashOffset..h.fileHashOffset + h.fileHashSize] == Words(FileHashTable(dirs, files))
  {
    hide Fits, IsSorted, LaidOut, Image, Expressible, HashCount, Words, DirParts, FileParts, DirHashTable, FileHashTable, MetaStart,
         DataRegion, PadTo, Concat, DirOffset, FileOffset;
    ViewIsOpened(fs, dirs, files);
  }

  lemma {:induction false} FileBucketChain(fs: Read.RomFs, dirs: seq<DirEntry>, files: seq<FileEntry>, b: nat) returns (xs: seq<nat>)
    requires IsViewOf(fs, dirs, files) && Read.Opened(fs) && b < HashCount(|files|)
    ensures ParentsFit(dirs, files) && InRange(xs, |files|)
    ensures forall x :: x in xs <==> 0 <= x < |files| && FileBucket(dirs, files[x], HashCount(|files|)) == b
    ensures fs.header.fileHashOffset + 4 * b + 4 <= |fs.bytes|
    ensures FileHashChain(fs, BucketHead(fs, fs.header.fileHashOffset, b), FileChainOf(files, xs)) && Decreasing(FileChainOf(files, xs))
  {
    hide IsViewOf, IsSorted, LaidOut, FileHashChain, FileHashLinked, Expressible, HashCount, Words, FileBucket, LatestIn, Members, Read.Opened;
    ViewParts(fs, dirs, files);
    SortedIndicesFit(dirs, files);
    ParentsFitOf(dirs, files);
    xs := Members(FileBuckets(dirs, files), |files|, b);
    FileHashLinks(fs, dirs, files);
    FileMembersChained(fs, FileBuckets(dirs, files), FileOffsets(files), |files|, b);
    assert FileChainOf(files, xs) == Picked(FileOffsets(files), xs);
    HashTablesAt(fs, dirs, files);
    HeadsRead(fs.bytes, fs.header.fileHashOffset, fs.header.fileHashSize, FileHashTable(dirs, files), b);
    FileChainFalls(dirs, files, xs);
  }

  // ---- Probing ----

  /** The bucket a name under directory `p` belongs to, of a table of `count` entries. */
  function BucketOf(dirs: seq<DirEntry>, p: nat, name: Str, count: nat): (b: nat)
    requires p < |dirs|
    ensures b < HashCount(count)
  {
    PathHash(dirs[p].entryOffset, name) % HashCount(count)
  }

  /** The lookup the hash index is for: the first entry of the chain with this parent and name. */
  function ProbeDirs(fs: Read.RomFs, chain: seq<u32>, parentOffset: u32, name: Str): Result<Read.DirView, Read.OpenError>
    requires Read.Opened(fs)
  {
    if chain == [] then Err(Read.DirNotFound)
    else
      match Read.DirFromOffset(fs, chain[0])
      case Err(e) => Err(e)
      case Ok(d) =>
        if d.entry.parent == parentOffset && d.name == name then Ok(d) else ProbeDirs(fs, chain[1..], parentOffset, name)
  }

  function ProbeFiles(fs: Read.RomFs, chain: seq<u32>, parentOffset: u32, name: Str): Result<Read.FileView, Read.OpenError>
    requires Read.Opened(fs)
  {
    if chain == [] then Err(Read.FileNotFound)
    else
      match Read.FileFromOffset(fs, chain[0])
      case Err(e) => Err(e)
      case Ok(f) =>
        if f.entry.parent == parentOffset && f.name == name then Ok(f) else ProbeFiles(fs, chain[1..], parentOffset, name)
  }

  lemma {:induction false} ProbeDirsIn(fs: Read.RomFs, dirs: seq<DirEntry>, files: seq<FileEntry>, xs: seq<nat>, p: nat, name: Str,
                                       only: Option<nat>)
    requires IsViewOf(fs, dirs, files) && Read.Opened(fs) && Expressible(dirs, files) && InRange(xs, |dirs|) && p < |dirs|
    requires forall x :: x in xs ==> ((dirs[x].parent == p && dirs[x].name == name) <==> only == Some(x))
    requires only.Some? ==> only.value in xs
    ensures ProbeDirs(fs, DirChainOf(dirs, xs), dirs[p].entryOffset, name) ==
            match only case Some(c) => Ok(DirViewOf(dirs, files, c)) case None => Err(Read.DirNotFound)
  {
    hide IsViewOf, Read.Opened, Read.DirFromOffset, Expressible, DirViewOf;
    if xs != [] {
      var x := xs[0];
      assert x in xs;
      DirReadsBack(fs, dirs, files, x);
      DirParentIs(fs, dirs, files, x, p);
      if only != Some(x) {
        var rest := xs[1..];
        assert DirChainOf(dirs, xs)[1..] == DirChainOf(dirs, rest);
        assert xs == [x] + rest;
        ProbeDirsIn(fs, dirs, files, rest, p, name, only);
      }
    }
  }

  lemma {:induction false} DirParentField(dirs: seq<DirEntry>, files: seq<FileEntry>, x: nat)
    requires Expressible(dirs, files) && x < |dirs|
    ensures dirs[x].parent < |dirs| && DirViewOf(dirs, files, x).entry.parent == dirs[dirs[x].parent].entryOffset
    ensures DirViewOf(dirs, files, x).name == dirs[x].name
  {
    hide DirSiblings, NextAfter, First;
    assert DirFits(dirs[x], |dirs|, |files|);
  }

  lemma {:induction false} DirParentIs(fs: Read.RomFs, dirs: seq<DirEntry>, files: seq<FileEntry>, x: nat, p: nat)
    requires IsViewOf(fs, dirs, files) && Expressible(dirs, files) && x < |dirs| && p < |dirs|
    ensures DirViewOf(dirs, files, x).entry.parent == dirs[p].entryOffset <==> dirs[x].parent == p
    ensures DirViewOf(dirs, files, x).name == dirs[x].name
  {
    hide IsViewOf, IsSorted, LaidOut, Expressible, DirViewOf;
    ViewParts(fs, dirs, files);
    DirParentField(dirs, files, x);
    RomFsBuild.DirOffsetsTellApart(dirs, files, dirs[x].parent, p);
  }

  lemma {:induction false} FileParentField(dirs: seq<DirEntry>, files: seq<FileEntry>, x: nat)
    requires Expressible(dirs, files) && x < |files|
    ensures files[x].parent < |dirs| && FileViewOf(dirs, files, x).entry.parent == dirs[files[x].parent].entryOffset
    ensures FileViewOf(dirs, files, x).name == files[x].name
  {
    hide FileSiblings, NextAfter, First;
  }

  lemma {:induction false} FileParentIs(fs: Read.RomFs, dirs: seq<DirEntry>, files: seq<FileEntry>, x: nat, p: nat)
    requires IsViewOf(fs, dirs, files) && Expressible(dirs, files) && x < |files| && p < |dirs|
    ensures FileViewOf(dirs, files, x).entry.parent == dirs[p].entryOffset <==> files[x].parent == p
    ensures FileViewOf(dirs, files, x).name == files[x].name
  {
    hide IsViewOf, IsSorted, LaidOut, Expressible, FileViewOf;
    ViewParts(fs, dirs, files);
    FileParentField(dirs, files, x);
    RomFsBuild.DirOffsetsTellApart(dirs, files, files[x].parent, p);
  }

  lemma {:induction false} ProbeFilesIn(fs: Read.RomFs, dirs: seq<DirEntry>, files: seq<FileEntry>, xs: seq<nat>, p: nat, name: Str,
                                        only: Option<nat>)
    requires IsViewOf(fs, dirs, files) && Read.Opened(fs) && Expressible(dirs, files) && InRange(xs, |files|) && p < |dirs|
    requires forall x :: x in xs ==> ((files[x].parent == p && files[x].name == name) <==> only == Some(x))
    requires only.Some? ==> only.value in xs
    ensures ProbeFiles(fs, FileChainOf(files, xs), dirs[p].entryOffset, name) ==
            match only case Some(j) => Ok(FileViewOf(dirs, files, j)) case None => Err(Read.FileNotFound)
  {
    hide IsViewOf, Read.Opened, Read.FileFromOffset, Expressible, FileViewOf;
    if xs != [] {
      var x := xs[0];
      assert x in xs;
      FileReadsBack(fs, dirs, files, x);
      FileParentIs(fs, dirs, files, x, p);
      if only != Some(x) {
        var rest := xs[1..];
        assert FileChainOf(files, xs)[1..] == FileChainOf(files, rest);
        assert xs == [x] + rest;
        ProbeFilesIn(fs, dirs, files, rest, p, name, only);
      }
    }
  }

  /** Directories with this parent and name: only the one the sibling walk finds, the root aside. */
  lemma {:induction false} OnlyChildNamed(dirs: seq<DirEntry>, files: seq<FileEntry>, p: nat, name: Str, x: nat)
    requires IsSorted(dirs, files) && p < |dirs| && InRange(dirs[p].children, |dirs|) && x < |dirs|
    requires p > 0 || name != []
    ensures (dirs[x].parent == p && dirs[x].name == name) <==> FirstNamed(dirs[p].children, DirNames(dirs), name) == Some(x)
  {
    hide Ascending, Increasing, FirstNamed;
    SortedPathsDistinct(dirs, files);
    assert ListsAt(dirs, files, p);
    var found := FirstNamed(dirs[p].children, DirNames(dirs), name);
    assert x > 0 ==> DirLinked(dirs, x);
    if found.Some? {
      assert DirLinked(dirs, found.value);
      assert x < found.value ==> dirs[x].path != dirs[found.value].path;
      assert x > found.value ==> dirs[x].path != dirs[found.value].path;
    }
    assert dirs[x].parent == p && x > 0 ==> x in dirs[p].children;
  }

  lemma {:induction false} OnlyFileNamed(dirs: seq<DirEntry>, files: seq<FileEntry>, p: nat, name: Str, x: nat)
    requires IsSorted(dirs, files) && p < |dirs| && InRange(dirs[p].files, |files|) && x < |files|
    ensures (files[x].parent == p && files[x].name == name) <==> FirstNamed(dirs[p].files, FileNames(files), name) == Some(x)
  {
    hide Ascending, Increasing, FirstNamed;
    SortedPathsDistinct(dirs, files);
    assert ListsAt(dirs, files, p);
    var found := FirstNamed(dirs[p].files, FileNames(files), name);
    assert FileLinked(dirs, files[x]);
    if found.Some? {
      assert FileLinked(dirs, files[found.value]);
      assert x < found.value ==> files[x].path != files[found.value].path;
      assert x > found.value ==> files[x].path != files[found.value].path;
    }
    assert files[x].parent == p ==> x in dirs[p].files;
  }

  /** Probing the bucket of (`p`, `name`) finds what walking the children of `p` finds. */
  lemma {:induction false} ProbeAgreesOnDirs(fs: Read.RomFs, dirs: seq<DirEntry>, files: seq<FileEntry>, p: nat, name: Str,
                                             xs: seq<nat>)
    requires IsViewOf(fs, dirs, files) && Read.Opened(fs) && ParentsFit(dirs, []) && p < |dirs| && InRange(xs, |dirs|)
    requires InRange(dirs[p].children, |dirs|) && (p > 0 || name != [])
    requires forall x :: x in xs <==>
      0 <= x < |dirs| && DirBucket(dirs, dirs[x]) == BucketOf(dirs, p, name, |dirs|)
    ensures ProbeDirs(fs, DirChainOf(dirs, xs), dirs[p].entryOffset, name) ==
            Read.DirLookup(fs, DirChainOf(dirs, dirs[p].children), name)
  {
    hide IsViewOf, IsSorted, LaidOut, Expressible, FirstNamed, PathHash, HashCount, Read.Opened, ProbeDirs, Read.DirLookup;
    ViewParts(fs, dirs, files);
    var found := FirstNamed(dirs[p].children, DirNames(dirs), name);
    forall x | 0 <= x < |dirs|
      ensures (dirs[x].parent == p && dirs[x].name == name) <==> found == Some(x)
    {
      OnlyChildNamed(dirs, files, p, name, x);
    }
    ProbeDirsIn(fs, dirs, files, xs, p, name, found);
    DirLookupIn(fs, dirs, files, dirs[p].children, name);
  }

  lemma {:induction false} ProbeAgreesOnFiles(fs: Read.RomFs, dirs: seq<DirEntry>, files: seq<FileEntry>, p: nat, name: Str,
                                              xs: seq<nat>)
    requires IsViewOf(fs, dirs, files) && Read.Opened(fs) && ParentsFit(dirs, files) && p < |dirs| && InRange(xs, |files|)
    requires InRange(dirs[p].files, |files|)
    requires forall x :: x in xs <==>
      0 <= x < |files| && FileBucket(dirs, files[x], HashCount(|files|)) == BucketOf(dirs, p, name, |files|)
    ensures ProbeFiles(fs, FileChainOf(files, xs), dirs[p].entryOffset, name) ==
            Read.FileLookup(fs, FileChainOf(files, dirs[p].files), name)
  {
    hide IsViewOf, IsSorted, LaidOut, Expressible, FirstNamed, PathHash, HashCount, Read.Opened, ProbeFiles,
         Read.FileLookup;
    ViewParts(fs, dirs, files);
    var found := FirstNamed(dirs[p].files, FileNames(files), name);
    forall x | 0 <= x < |files|
      ensures (files[x].parent == p && files[x].name == name) <==> found == Some(x)
    {
      OnlyFileNamed(dirs, files, p, name, x);
    }
    ProbeFilesIn(fs, dirs, files, xs, p, name, found);
    FileLookupIn(fs, dirs, files, dirs[p].files, name);
  }

  // ---- The index agrees with the walk ----

  /** `bucket` is the chain of hash bucket `b`, whose table starts at `table`. */
  ghost predicate DirBucketIs(fs: Read.RomFs, table: nat, b: nat, bucket: seq<u32>)
    requires Read.Opened(fs)
  {
    table + 4 * b + 4 <= |fs.bytes| && DirHashChain(fs, BucketHead(fs, table, b), bucket)
  }

  ghost predicate FileBucketIs(fs: Read.RomFs, table: nat, b: nat, bucket: seq<u32>)
    requires Read.Opened(fs)
  {
    table + 4 * b + 4 <= |fs.bytes| && FileHashChain(fs, BucketHead(fs, table, b), bucket)
  }

  /**
   * From the bytes alone: the bucket of (parent, name) heads a finite chain, the parent's children form
   * a finite chain, and looking the name up in either gives the same directory or the same error. The
   * one exception is the root, which is chained under itself with an empty name.
   */
  lemma {:induction false} DirIndexAgrees(fs: Read.RomFs, dirs: seq<DirEntry>, files: seq<FileEntry>, p: nat, name: Str)
    returns (dir: Read.DirView, bucket: seq<u32>, children: seq<u32>)
    requires IsViewOf(fs, dirs, files) && Read.Opened(fs) && p < |dirs|
    ensures Read.DirFromOffset(fs, dirs[p].entryOffset) == Ok(dir) && Read.DirChain(fs, dir.entry.child, children)
    ensures DirBucketIs(fs, fs.header.dirHashOffset, BucketOf(dirs, p, name, |dirs|), bucket)
    ensures ProbeDirs(fs, bucket, dirs[p].entryOffset, name) == Read.DirLookup(fs, children, name) <==> p > 0 || name != []
  {
    hide IsViewOf, IsSorted, LaidOut, Expressible, PathHash, HashCount, Read.Opened, ProbeDirs, Read.DirLookup, DirViewOf,
         DirHashChain, Read.DirChain, DirBucket, DirChainOf, Read.DirFromOffset;
    ChainsAreLists(fs, dirs, files, p);
    DirReadsBack(fs, dirs, files, p);
    dir := DirViewOf(dirs, files, p);
    children := DirChainOf(dirs, dirs[p].children);
    var xs := DirBucketChain(fs, dirs, files, BucketOf(dirs, p, name, |dirs|));
    bucket := DirChainOf(dirs, xs);
    if p > 0 || name != [] {
      ProbeAgreesOnDirs(fs, dirs, files, p, name, xs);
    } else {
      RootChainedUnderItself(fs, dirs, files, xs);
    }
  }

  lemma {:induction false} RootChainedUnderItself(fs: Read.RomFs, dirs: seq<DirEntry>, files: seq<FileEntry>, xs: seq<nat>)
    requires IsViewOf(fs, dirs, files) && Read.Opened(fs) && ParentsFit(dirs, []) && |dirs| > 0
    requires InRange(xs, |dirs|) && InRange(dirs[0].children, |dirs|)
    requires forall x :: x in xs <==>
      0 <= x < |dirs| && DirBucket(dirs, dirs[x]) == BucketOf(dirs, 0, [], |dirs|)
    ensures ProbeDirs(fs, DirChainOf(dirs, xs), dirs[0].entryOffset, []).Ok?
    ensures Read.DirLookup(fs, DirChainOf(dirs, dirs[0].children), []).Err?
  {
    hide IsViewOf, LaidOut, Ascending, Expressible, FirstNamed, PathHash, HashCount, Read.Opened, ProbeDirs, Read.DirLookup, DirViewOf;
    ViewParts(fs, dirs, files);
    forall x | 0 <= x < |dirs|
      ensures (dirs[x].parent == 0 && dirs[x].name == []) <==> Some(0) == Some(x)
    {
      assert x > 0 ==> DirLinked(dirs, x);
    }
    ProbeDirsIn(fs, dirs, files, xs, 0, [], Some(0));
    DirLookupIn(fs, dirs, files, dirs[0].children, []);
    var found := FirstNamed(dirs[0].children, DirNames(dirs), []);
    assert ListsAt(dirs, files, 0);
    forall c | c in dirs[0].children
      ensures dirs[c].name != []
    {
      assert DirLinked(dirs, c);
    }
  }

  /** The same for files, without exception: no file has an empty name. */
  lemma {:induction false} FileIndexAgrees(fs: Read.RomFs, dirs: seq<DirEntry>, files: seq<FileEntry>, p: nat, name: Str)
    returns (dir: Read.DirView, bucket: seq<u32>, listed: seq<u32>)
    requires IsViewOf(fs, dirs, files) && Read.Opened(fs) && p < |dirs|
    ensures Read.DirFromOffset(fs, dirs[p].entryOffset) == Ok(dir) && Read.FileChain(fs, dir.entry.file, listed)
    ensures FileBucketIs(fs, fs.header.fileHashOffset, BucketOf(dirs, p, name, |files|), bucket)
    ensures ProbeFiles(fs, bucket, dirs[p].entryOffset, name) == Read.FileLookup(fs, listed, name)
  {
    hide IsViewOf, IsSorted, LaidOut, Expressible, PathHash, HashCount, Read.Opened, ProbeFiles, Read.FileLookup, DirViewOf,
         FileHashChain, Read.FileChain, FileBucket, FileChainOf, Read.DirFromOffset;
    ChainsAreLists(fs, dirs, files, p);
    DirReadsBack(fs, dirs, files, p);
    dir := DirViewOf(dirs, files, p);
    listed := FileChainOf(files, dirs[p].files);
    var xs := FileBucketChain(fs, dirs, files, BucketOf(dirs, p, name, |files|));
    bucket := FileChainOf(files, xs);
    ProbeAgreesOnFiles(fs, dirs, files, p, name, xs);
  }
}
