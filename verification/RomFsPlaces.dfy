/** A RomFS image in plain numbers: which byte holds which field of the header, of each entry and of each file. */
module RomFsPlaces {
  import opened Bytes
  import opened Packing
  import opened Order
  import opened RomFsPath
  import opened RomFsFormat
  import opened RomFsTree
  import opened RomFsSort
  import opened RomFsLayout
  import opened RomFsReadBack
  import opened RomFsLookup
  import RomFsBuild
  import RomFsHash
  import Read = RomFsRead

  /** A file named by bytes none of which is 0x2F, put right under the root, is stored as given. */
  lemma {:induction false} RootPathInNumbers(name: Str)
    requires name != [] && 0x2F !in name
    ensures RomFsBuild.AddResult([0x2F] + name, map[]) == Ok([0x2F] + name)
  {
    var path := [0x2F] + name;
    forall i | 0 <= i < |name|
      ensures name[i] != SLASH
    {
      assert name[i] in name;
    }
    SplitSlashFree(name);
    assert path[1..] == name;
    assert [name][1..] == [] && NonEmpty([name]) == [name] + NonEmpty([]);
    assert [name] + [] == [name] && Components(name) == [name];
    assert [name][..0] == [] && Join([name]) == [] + [SLASH] + name;
    assert [] + [SLASH] == [SLASH];
  }

  /**
   * The header: its size, then offset and size of the directory hash table, the directory table, the file
   * hash table and the file table, which follow each other to the end, and 0x200 for the contents.
   */
  lemma {:induction false} HeaderInNumbers(fs: Read.RomFs, dirs: seq<DirEntry>, files: seq<FileEntry>)
    requires IsViewOf(fs, dirs, files)
    ensures var b := fs.bytes;
      |b| >= 0x50 && U64At(b, 0) == 0x50 && U64At(b, 8) == (0x200 + DataEnd(files, |files|) + 3) / 4 * 4 &&
      U64At(b, 0x10) == 4 * HashCount(|dirs|) && U64At(b, 0x18) == U64At(b, 8) + U64At(b, 0x10) &&
      U64At(b, 0x20) == DirOffset(dirs, |dirs|) && U64At(b, 0x28) == U64At(b, 0x18) + U64At(b, 0x20) &&
      U64At(b, 0x30) == 4 * HashCount(|files|) && U64At(b, 0x38) == U64At(b, 0x28) + U64At(b, 0x30) &&
      U64At(b, 0x40) == FileOffset(files, |files|) && |b| == U64At(b, 0x38) + U64At(b, 0x40) && U64At(b, 0x48) == 0x200
    ensures Read.HeaderAt(fs.bytes) == fs.header
  {
    hide IsSorted, LaidOut, Fits, Expressible, Image, HashCount, DirOffset, FileOffset, DataEnd, FromLe64, Read.TryFromBytes;
    BuiltIsAccepted(dirs, files);
    ViewSize(fs, dirs, files);
    assert Read.TryFromBytes(fs.bytes) == Ok(fs);
    SameHeader(fs);
    FieldsAt(fs.bytes);
  }

  lemma {:induction false} SameHeader(fs: Read.RomFs)
    requires |fs.bytes| <= USIZE_MAX && Read.TryFromBytes(fs.bytes) == Ok(fs)
    ensures |fs.bytes| >= 0x50 && Read.HeaderAt(fs.bytes) == fs.header
  {
    hide Read.HeaderAt, Read.TryFromBytes;
  }

  lemma {:induction false} FieldsAt(b: seq<u8>)
    requires |b| >= 0x50
    ensures var h := Read.HeaderAt(b);
      h.headerSize == U64At(b, 0) && h.dirHashOffset == U64At(b, 8) && h.dirHashSize == U64At(b, 0x10) &&
      h.dirMetaOffset == U64At(b, 0x18) && h.dirMetaSize == U64At(b, 0x20) && h.fileHashOffset == U64At(b, 0x28) &&
      h.fileHashSize == U64At(b, 0x30) && h.fileMetaOffset == U64At(b, 0x38) && h.fileMetaSize == U64At(b, 0x40) &&
      h.fileDataOffset == U64At(b, 0x48)
  {
    hide FromLe64;
  }

  lemma {:induction false} ViewSize(fs: Read.RomFs, dirs: seq<DirEntry>, files: seq<FileEntry>)
    requires IsViewOf(fs, dirs, files)
    ensures |fs.bytes| == MetaStart(files) + 4 * HashCount(|dirs|) + DirOffset(dirs, |dirs|) + 4 * HashCount(|files|) + FileOffset(files, |files|)
  {
    hide IsSorted, LaidOut, Expressible, Image, HashCount, DirOffset, FileOffset, DataEnd, AlignUp, PadTo, Words, Concat;
    ViewIsOpened(fs, dirs, files);
  }

  /** Entries follow each other, each 0x18 or 0x20 bytes and a name padded to four; contents start at multiples of 16. */
  lemma {:induction false} OffsetsInNumbers(dirs: seq<DirEntry>, files: seq<FileEntry>, i: nat)
    requires LaidOut(dirs, files)
    ensures (|dirs| > 0 ==> dirs[0].entryOffset == 0) && (|files| > 0 ==> files[0].entryOffset == 0 && files[0].dataOffset == 0)
    ensures i + 1 < |dirs| ==> dirs[i + 1].entryOffset == dirs[i].entryOffset + 0x18 + (|dirs[i].name| + 3) / 4 * 4
    ensures i + 1 < |files| ==>
      files[i + 1].entryOffset == files[i].entryOffset + 0x20 + (|files[i].name| + 3) / 4 * 4 &&
      files[i + 1].dataOffset == (files[i].dataOffset + |files[i].data| + 0xF) / 0x10 * 0x10
  {
    hide AlignUp, DirOffset, FileOffset, DataEnd;
    FirstOffsets(dirs, files);
    if i + 1 < |dirs| {
      NextDirOffset(dirs, i);
    }
    if i + 1 < |files| {
      NextFileOffset(files, i);
      AlignInNumbers(DataEnd(files, i + 1));
    }
  }

  lemma {:induction false} FirstOffsets(dirs: seq<DirEntry>, files: seq<FileEntry>)
    ensures DirOffset(dirs, 0) == 0 && FileOffset(files, 0) == 0 && AlignUp(DataEnd(files, 0), 0x10) == 0
  {
  }

  lemma {:induction false} NextDirOffset(dirs: seq<DirEntry>, i: nat)
    requires i < |dirs|
    ensures DirOffset(dirs, i + 1) == DirOffset(dirs, i) + 0x18 + (|dirs[i].name| + 3) / 4 * 4
  {
    hide AlignUp;
    AlignInNumbers(|dirs[i].name|);
  }

  lemma {:induction false} NextFileOffset(files: seq<FileEntry>, i: nat)
    requires i < |files|
    ensures FileOffset(files, i + 1) == FileOffset(files, i) + 0x20 + (|files[i].name| + 3) / 4 * 4
    ensures DataEnd(files, i + 1) == AlignUp(DataEnd(files, i), 0x10) + |files[i].data|
  {
    hide AlignUp;
    AlignInNumbers(|files[i].name|);
  }

  lemma {:induction false} AlignInNumbers(x: nat)
    ensures AlignUp(x, 4) == (x + 3) / 4 * 4 && AlignUp(x, 0x10) == (x + 0xF) / 0x10 * 0x10
  {
    DivMod(x + 3, 4);
    DivMod(x + 0xF, 0x10);
  }

  lemma {:induction false} DivMod(v: nat, unit: nat)
    requires unit > 0
    ensures v - v % unit == v / unit * unit
  {
  }

  lemma {:induction false} WordInSlice(b: seq<u8>, lo: nat, hi: nat, at: nat)
    requires lo <= hi <= |b| && at + 4 <= hi - lo
    ensures U32At(b[lo..hi], at) == U32At(b, lo + at)
  {
    hide FromLe32;
    SliceOfSlice(b, lo, hi, at, at + 4);
  }

  lemma {:induction false} LongInSlice(b: seq<u8>, lo: nat, hi: nat, at: nat)
    requires lo <= hi <= |b| && at + 8 <= hi - lo
    ensures U64At(b[lo..hi], at) == U64At(b, lo + at)
  {
    hide FromLe64;
    SliceOfSlice(b, lo, hi, at, at + 8);
  }

  /** A directory's six words and its name behind them. */
  ghost predicate DirIs(b: seq<u8>, at: nat, e: DirFields, name: Str) {
    at + 0x18 <= |b| && U32At(b, at) == e.parent && U32At(b, at + 4) == e.sibling && U32At(b, at + 8) == e.child &&
    U32At(b, at + 12) == e.file && U32At(b, at + 16) == e.hashSibling && U32At(b, at + 20) == |name| && Holds(b, at + 0x18, name)
  }

  /** A file's eight words, two of its fields taking two each, and its name behind them. */
  ghost predicate FileIs(b: seq<u8>, at: nat, e: FileFields, name: Str) {
    at + 0x20 <= |b| && U32At(b, at) == e.parent && U32At(b, at + 4) == e.sibling && U64At(b, at + 8) == e.dataOffset &&
    U64At(b, at + 16) == e.dataSize && U32At(b, at + 24) == e.hashSibling && U32At(b, at + 28) == |name| && Holds(b, at + 0x20, name)
  }

  lemma {:induction false} DirBytesAt(fs: Read.RomFs, at: u32, v: Read.DirView)
    requires Read.Opened(fs) && Read.DirFromOffset(fs, at) == Ok(v)
    ensures DirIs(fs.bytes, fs.header.dirMetaOffset + at, v.entry, v.name)
  {
    hide FromLe32, Read.DirFromOffset;
    Read.DirReadAt(fs, at);
    var lo, hi := fs.header.dirMetaOffset, fs.header.dirMetaOffset + fs.header.dirMetaSize;
    WordInSlice(fs.bytes, lo, hi, at);
    WordInSlice(fs.bytes, lo, hi, at + 4);
    WordInSlice(fs.bytes, lo, hi, at + 8);
    WordInSlice(fs.bytes, lo, hi, at + 12);
    WordInSlice(fs.bytes, lo, hi, at + 16);
    WordInSlice(fs.bytes, lo, hi, at + 20);
    SliceOfSlice(fs.bytes, lo, hi, at + 0x18, at + 0x18 + |v.name|);
  }

  lemma {:induction false} FileBytesAt(fs: Read.RomFs, at: u32, v: Read.FileView)
    requires Read.Opened(fs) && Read.FileFromOffset(fs, at) == Ok(v)
    ensures FileIs(fs.bytes, fs.header.fileMetaOffset + at, v.entry, v.name)
  {
    hide FromLe32, FromLe64, Read.FileFromOffset;
    Read.FileReadAt(fs, at);
    var lo, hi := fs.header.fileMetaOffset, fs.header.fileMetaOffset + fs.header.fileMetaSize;
    WordInSlice(fs.bytes, lo, hi, at);
    WordInSlice(fs.bytes, lo, hi, at + 4);
    LongInSlice(fs.bytes, lo, hi, at + 8);
    LongInSlice(fs.bytes, lo, hi, at + 16);
    WordInSlice(fs.bytes, lo, hi, at + 24);
    WordInSlice(fs.bytes, lo, hi, at + 28);
    SliceOfSlice(fs.bytes, lo, hi, at + 0x20, at + 0x20 + |v.name|);
  }

  /** The offset of a listed entry, or 0xFFFFFFFF past the end of its list. */
  function ListedDir(dirs: seq<DirEntry>, xs: seq<nat>, k: nat): int
    requires InRange(xs, |dirs|)
  {
    if k < |xs| then dirs[xs[k]].entryOffset else 0xFFFF_FFFF
  }

  function ListedFile(files: seq<FileEntry>, xs: seq<nat>, k: nat): int
    requires InRange(xs, |files|)
  {
    if k < |xs| then files[xs[k]].entryOffset else 0xFFFF_FFFF
  }

  /** Directory `i` in the image: its parent, its first child and first file, the length of its name, and its name. */
  lemma {:induction false} DirInNumbers(fs: Read.RomFs, dirs: seq<DirEntry>, files: seq<FileEntry>, i: nat)
    requires IsViewOf(fs, dirs, files) && Read.Opened(fs) && i < |dirs|
    ensures dirs[i].parent < |dirs| && InRange(dirs[i].children, |dirs|) && InRange(dirs[i].files, |files|)
    ensures var b, d, at := fs.bytes, dirs[i], fs.header.dirMetaOffset + dirs[i].entryOffset;
      at + 0x18 <= |b| && U32At(b, at) == dirs[d.parent].entryOffset && U32At(b, at + 8) == ListedDir(dirs, d.children, 0) &&
      U32At(b, at + 12) == ListedFile(files, d.files, 0) && U32At(b, at + 20) == |d.name| && Holds(b, at + 0x18, d.name)
  {
    hide IsViewOf, IsSorted, LaidOut, Read.Opened, Expressible, DirViewOf, Read.DirFromOffset, U32At, Holds;
    ViewParts(fs, dirs, files);
    ListsInRange(dirs, files, i);
    DirReadsBack(fs, dirs, files, i);
    DirBytesAt(fs, dirs[i].entryOffset, DirViewOf(dirs, files, i));
    RomFsHash.DirParentField(dirs, files, i);
    FirstLinks(dirs, files, i);
  }

  lemma {:induction false} ListsInRange(dirs: seq<DirEntry>, files: seq<FileEntry>, i: nat)
    requires Expressible(dirs, files) && i < |dirs|
    ensures DirFits(dirs[i], |dirs|, |files|) && dirs[i].parent < |dirs|
    ensures InRange(dirs[i].children, |dirs|) && InRange(dirs[i].files, |files|)
  {
    assert DirFits(dirs[i], |dirs|, |files|);
  }

  /** The `k`-th subdirectory of directory `p` is chained to the next, and the `k`-th file too. */
  lemma {:induction false} SiblingsInNumbers(fs: Read.RomFs, dirs: seq<DirEntry>, files: seq<FileEntry>, p: nat, k: nat)
    requires IsViewOf(fs, dirs, files) && Read.Opened(fs) && p < |dirs|
    ensures InRange(dirs[p].children, |dirs|) && InRange(dirs[p].files, |files|)
    ensures k < |dirs[p].children| ==>
      var at := fs.header.dirMetaOffset + dirs[dirs[p].children[k]].entryOffset;
      at + 8 <= |fs.bytes| && U32At(fs.bytes, at + 4) == ListedDir(dirs, dirs[p].children, k + 1)
    ensures k < |dirs[p].files| ==>
      var at := fs.header.fileMetaOffset + files[dirs[p].files[k]].entryOffset;
      at + 8 <= |fs.bytes| && U32At(fs.bytes, at + 4) == ListedFile(files, dirs[p].files, k + 1)
  {
    hide IsViewOf, IsSorted, LaidOut, Read.Opened, Expressible, DirViewOf, FileViewOf, Read.DirFromOffset, Read.FileFromOffset, U32At, U64At,
         Holds;
    ViewParts(fs, dirs, files);
    ListsInRange(dirs, files, p);
    if k < |dirs[p].children| {
      var c := dirs[p].children[k];
      DirReadsBack(fs, dirs, files, c);
      DirBytesAt(fs, dirs[c].entryOffset, DirViewOf(dirs, files, c));
      DirLinks(dirs, files, p, k);
    }
    if k < |dirs[p].files| {
      var j := dirs[p].files[k];
      FileReadsBack(fs, dirs, files, j);
      FileBytesAt(fs, files[j].entryOffset, FileViewOf(dirs, files, j));
      FileLinks(dirs, files, p, k);
    }
  }

  /** File `j` in the image: its parent, where its contents start past 0x200, how long they are, its name, and they themselves. */
  lemma {:induction false} FileInNumbers(fs: Read.RomFs, dirs: seq<DirEntry>, files: seq<FileEntry>, j: nat)
    requires IsViewOf(fs, dirs, files) && Read.Opened(fs) && j < |files|
    ensures files[j].parent < |dirs|
    ensures var b, f, at := fs.bytes, files[j], fs.header.fileMetaOffset + files[j].entryOffset;
      at + 0x20 <= |b| && U32At(b, at) == dirs[f.parent].entryOffset && U64At(b, at + 8) == f.dataOffset && U64At(b, at + 16) == |f.data| &&
      U32At(b, at + 28) == |f.name| && Holds(b, at + 0x20, f.name) && Holds(b, 0x200 + f.dataOffset, f.data)
  {
    hide IsViewOf, IsSorted, LaidOut, Read.Opened, Expressible, FileViewOf, Read.FileFromOffset, U32At, U64At, Read.HeaderAt, DataEnd,
         HashCount;
    ViewParts(fs, dirs, files);
    FileReadsBack(fs, dirs, files, j);
    FileBytesAt(fs, files[j].entryOffset, FileViewOf(dirs, files, j));
    RomFsHash.FileParentField(dirs, files, j);
    FileFieldsKnown(dirs, files, j);
    DataInNumbers(fs, dirs, files, j);
  }

  lemma {:induction false} DataInNumbers(fs: Read.RomFs, dirs: seq<DirEntry>, files: seq<FileEntry>, j: nat)
    requires IsViewOf(fs, dirs, files) && Read.Opened(fs) && j < |files|
    ensures Holds(fs.bytes, 0x200 + files[j].dataOffset, files[j].data)
  {
    hide IsSorted, LaidOut, Fits, Expressible, Image, HashCount, DirOffset, FileOffset, DataEnd;
    DataPlaced(fs, dirs, files, j);
  }

  /** Both tables of an image are in the byte order of full paths. */
  lemma {:induction false} TablesInByteOrder(dirs: seq<DirEntry>, files: seq<FileEntry>)
    requires IsSorted(dirs, files)
    ensures InByteOrder(DirPaths(dirs)) && InByteOrder(FilePaths(files))
  {
    hide Ascending, InByteOrder;
    AscendingIsByteOrder(DirPaths(dirs));
    AscendingIsByteOrder(FilePaths(files));
  }

  /** The head of the bucket of (`p`, `name`): a word of the hash table, at the hash modulo the number of buckets. */
  lemma {:induction false} BucketsInNumbers(fs: Read.RomFs, dirs: seq<DirEntry>, files: seq<FileEntry>, p: nat, name: Str)
    requires IsViewOf(fs, dirs, files) && Read.Opened(fs) && p < |dirs|
    ensures |fs.bytes| >= 0x50
    ensures var b, k := fs.bytes, PathHash(dirs[p].entryOffset, name) % HashCount(|dirs|);
      U64At(b, 8) + 4 * k + 4 <= |b| &&
      RomFsHash.BucketHead(fs, fs.header.dirHashOffset, RomFsHash.BucketOf(dirs, p, name, |dirs|)) == U32At(b, U64At(b, 8) + 4 * k)
    ensures var b, k := fs.bytes, PathHash(dirs[p].entryOffset, name) % HashCount(|files|);
      U64At(b, 0x28) + 4 * k + 4 <= |b| &&
      RomFsHash.BucketHead(fs, fs.header.fileHashOffset, RomFsHash.BucketOf(dirs, p, name, |files|)) == U32At(b, U64At(b, 0x28) + 4 * k)
  {
    hide IsViewOf, PathHash, HashCount, FromLe32, FromLe64, Read.Opened, Read.HeaderAt;
    HeaderInNumbers(fs, dirs, files);
    FieldsAt(fs.bytes);
  }

  /** Which buffers are accepted: a header of 0x50 bytes that says so, and all four tables and the data start inside. */
  lemma {:induction false} AcceptedInNumbers(b: seq<u8>)
    requires |b| <= USIZE_MAX
    ensures Read.TryFromBytes(b).Ok? <==>
      |b| >= 0x50 && U64At(b, 0) == 0x50 && U64At(b, 8) + U64At(b, 0x10) <= |b| && U64At(b, 0x18) + U64At(b, 0x20) <= |b| &&
      U64At(b, 0x28) + U64At(b, 0x30) <= |b| && U64At(b, 0x38) + U64At(b, 0x40) <= |b| && U64At(b, 0x48) <= |b|
  {
    hide Read.HeaderAt, Read.TryFromBytes, FromLe64;
    if |b| >= 0x50 {
      FieldsAt(b);
    }
  }

  /** Why a directory cannot be read, in bytes of the table for its fields and of the buffer for its name. */
  lemma {:induction false} DirRefusal(fs: Read.RomFs, at: u32)
    requires Read.Opened(fs) && Read.DirFromOffset(fs, at).Err?
    ensures var e, base, size := Read.DirFromOffset(fs, at).error, fs.header.dirMetaOffset, fs.header.dirMetaSize;
      if at + 0x18 > size then e == Read.TableTooSmall(at + 0x18, base + size)
      else e == Read.TableTooSmall(base + at + 0x18 + U32At(fs.bytes, base + at + 20), base + size)
  {
    hide FromLe32;
    if at + 0x18 <= fs.header.dirMetaSize {
      WordInSlice(fs.bytes, fs.header.dirMetaOffset, fs.header.dirMetaOffset + fs.header.dirMetaSize, at + 20);
    }
  }

  lemma {:induction false} FileRefusal(fs: Read.RomFs, at: u32)
    requires Read.Opened(fs) && Read.FileFromOffset(fs, at).Err?
    ensures var e, base, size := Read.FileFromOffset(fs, at).error, fs.header.fileMetaOffset, fs.header.fileMetaSize;
      if at + 0x20 > size then e == Read.TableTooSmall(at + 0x20, base + size)
      else e == Read.TableTooSmall(base + at + 0x20 + U32At(fs.bytes, base + at + 28), base + size)
  {
    hide FromLe32, FromLe64;
    if at + 0x20 <= fs.header.fileMetaSize {
      WordInSlice(fs.bytes, fs.header.fileMetaOffset, fs.header.fileMetaOffset + fs.header.fileMetaSize, at + 28);
    }
  }

  /** A path is invalid when it does not start with byte 0x2F or has no other; any other is refused only as a duplicate. */
  lemma {:induction false} PathRefusal(path: Str, contents: map<Str, seq<u8>>)
    ensures RomFsBuild.AddResult(path, contents) == Err(InvalidPath(path)) <==>
      path == [] || path[0] != 0x2F || forall i :: 0 <= i < |path| ==> path[i] == 0x2F
    ensures RomFsBuild.AddResult(path, contents).Err? ==>
      RomFsBuild.AddResult(path, contents).error == InvalidPath(path) || RomFsBuild.AddResult(path, contents).error == DuplicateEntry(path)
  {
    if path != [] && path[0] == 0x2F {
      OnlySlashes(path[1..]);
      assert (forall i :: 0 <= i < |path| ==> path[i] == 0x2F) <==> (forall i :: 0 <= i < |path| - 1 ==> path[1..][i] == 0x2F) by {
        if forall i :: 0 <= i < |path| - 1 ==> path[1..][i] == 0x2F {
          assert forall i :: 0 < i < |path| ==> path[i] == path[1..][i - 1];
        }
      }
    }
  }

  lemma {:induction false} OnlySlashes(s: Str)
    ensures Components(s) == [] <==> forall i :: 0 <= i < |s| ==> s[i] == SLASH
  {
    if s == [] {
      assert Split(s)[1..] == [];
    } else if s[0] == SLASH {
      OnlySlashes(s[1..]);
      assert Split(s)[1..] == Split(s[1..]);
      assert (forall i :: 0 <= i < |s| - 1 ==> s[1..][i] == SLASH) ==> forall i :: 0 <= i < |s| ==> s[i] == SLASH by {
        assert forall i :: 0 < i < |s| ==> s[i] == s[1..][i - 1];
      }
    }
  }
}
