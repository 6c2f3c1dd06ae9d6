/** What the reader sees in a built image: every table, every entry and every file's contents. */
module RomFsReadBack {
  import opened Bytes
  import opened Packing
  import opened Order
  import opened RomFsFormat
  import opened RomFsTree
  import opened RomFsSort
  import opened RomFsLayout
  import Read = RomFsRead

  // ---- Regions ----

  lemma {:induction false} FiveRegions(a: seq<u8>, b: seq<u8>, c: seq<u8>, d: seq<u8>, e: seq<u8>)
    ensures var s := a + b + c + d + e; var n := |a| + |b|; var m := n + |c|; var k := m + |d|;
      |s| == k + |e| && s[..|a|] == a && s[|a|..n] == b && s[n..m] == c && s[m..k] == d && s[k..k + |e|] == e
  {
    var s := a + b + c + d + e;
    var n := |a| + |b|;
    var m := n + |c|;
    var k := m + |d|;
    SliceOfAppend(a + b + c + d, e, 0, |a|);
    SliceOfAppend(a + b + c + d, e, |a|, n);
    SliceOfAppend(a + b + c + d, e, n, m);
    SliceOfAppend(a + b + c + d, e, m, k);
    SliceOfAppend(a + b + c, d, 0, |a|);
    SliceOfAppend(a + b + c, d, |a|, n);
    SliceOfAppend(a + b + c, d, n, m);
    SliceOfAppend(a + b, c, 0, |a|);
    SliceOfAppend(a + b, c, |a|, n);
  }

  /** Where each region of an image lies. */
  ghost predicate Regions(image: seq<u8>, dirs: seq<DirEntry>, files: seq<FileEntry>)
    requires Fits(dirs, files) && Expressible(dirs, files)
  {
    var h := HeaderOf(dirs, files);
    |image| == ImageSize(dirs, files) &&
    image[..MetaStart(files)] == PadTo(DataRegion(Front(dirs, files), files, |files|), 4) &&
    image[h.dirHashOffset..h.dirHashOffset + h.dirHashSize] == Words(DirHashTable(dirs, files)) &&
    image[h.dirMetaOffset..h.dirMetaOffset + h.dirMetaSize] == Concat(DirParts(dirs, files)) &&
    image[h.fileHashOffset..h.fileHashOffset + h.fileHashSize] == Words(FileHashTable(dirs, files)) &&
    image[h.fileMetaOffset..h.fileMetaOffset + h.fileMetaSize] == Concat(FileParts(dirs, files))
  }

  lemma {:induction false} ImageRegions(dirs: seq<DirEntry>, files: seq<FileEntry>)
    requires Fits(dirs, files) && Expressible(dirs, files)
    ensures Regions(Image(dirs, files), dirs, files)
  {
    hide Expressible, DirParts, FileParts, DirHashTable, FileHashTable, DataRegion, Concat, Words, HashCount, AlignUp, PadTo,
         Front, DirOffset, FileOffset, DataEnd, DirFieldsOf, FileFieldsOf, DirBytes, FileBytes;
    var region := DataRegion(Front(dirs, files), files, |files|);
    DataRegionLength(Front(dirs, files), files, |files|);
    DirPartsLength(DirParts(dirs, files), dirs);
    FilePartsLength(FileParts(dirs, files), files);
    FiveRegions(PadTo(region, 4), Words(DirHashTable(dirs, files)), Concat(DirParts(dirs, files)),
                Words(FileHashTable(dirs, files)), Concat(FileParts(dirs, files)));
  }

  /** The reader's header is the one written. */
  lemma {:induction false} HeaderReadsBack(image: seq<u8>, h: Header)
    requires |image| >= HEADER_SIZE && image[..HEADER_SIZE] == Longs(HeaderFields(h))
    ensures Read.HeaderAt(image) == h
  {
    hide Longs;
    var xs := HeaderFields(h);
    assert image[0..0 + 8 * |xs|] == image[..HEADER_SIZE];
    LongReads(image, 0, xs, 0);
    LongReads(image, 0, xs, 1);
    LongReads(image, 0, xs, 2);
    LongReads(image, 0, xs, 3);
    LongReads(image, 0, xs, 4);
    LongReads(image, 0, xs, 5);
    LongReads(image, 0, xs, 6);
    LongReads(image, 0, xs, 7);
    LongReads(image, 0, xs, 8);
    LongReads(image, 0, xs, 9);
  }

  lemma {:induction false} HeaderInFront(image: seq<u8>, dirs: seq<DirEntry>, files: seq<FileEntry>)
    requires Fits(dirs, files) && Expressible(dirs, files) && Regions(image, dirs, files)
    ensures |image| >= HEADER_SIZE && image[..HEADER_SIZE] == Longs(HeaderFields(HeaderOf(dirs, files)))
  {
    hide Expressible, DirParts, FileParts, DirHashTable, FileHashTable, DataRegion, Concat, Words, HashCount, AlignUp, PadTo,
         HeaderOf, HeaderFields, Longs, DirOffset, FileOffset, DataEnd;
    var front := Front(dirs, files);
    var region := DataRegion(front, files, |files|);
    DataRegionLength(front, files, |files|);
    FrontOfRegion(front, files, |files|);
    TakeOfTake(image, MetaStart(files), HEADER_SIZE);
    TakeOfTake(PadTo(region, 4), |region|, HEADER_SIZE);
    TakeOfTake(region, |front|, HEADER_SIZE);
    TakeOfAppend(Longs(HeaderFields(HeaderOf(dirs, files))), Zeros(FILE_PARTITION - HEADER_SIZE), HEADER_SIZE);
  }

  /** A built image is accepted, and every table is found where it was put. */
  lemma {:induction false} BuiltIsAccepted(dirs: seq<DirEntry>, files: seq<FileEntry>)
    requires Fits(dirs, files) && Expressible(dirs, files)
    ensures |Image(dirs, files)| <= USIZE_MAX
    ensures Read.TryFromBytes(Image(dirs, files)) == Ok(Read.RomFs(Image(dirs, files), HeaderOf(dirs, files)))
  {
    hide Expressible, DirParts, FileParts, DirHashTable, FileHashTable, DataRegion, Concat, Words, HashCount, AlignUp, PadTo, Image,
         Longs, DirOffset, FileOffset, DataEnd, Front, Read.HeaderAt, Read.TryFromBytes;
    ImageRegions(dirs, files);
    HeaderInFront(Image(dirs, files), dirs, files);
    HeaderReadsBack(Image(dirs, files), HeaderOf(dirs, files));
  }

  // ---- Entries ----

  lemma {:induction false} DirBytesRead(table: seq<u8>, at: nat, f: DirFields, name: Str)
    requires at + |DirBytes(f, name)| <= |table| && table[at..at + |DirBytes(f, name)|] == DirBytes(f, name)
    ensures Read.DirFieldsAt(table, at) == f
    ensures table[at + DIR_ENTRY_SIZE..at + DIR_ENTRY_SIZE + |name|] == name
  {
    hide AlignUp, PaddedName, Words;
    var ws, end := DirWords(f), at + |DirBytes(f, name)|;
    FrontAndName(table, at, Words(ws), name);
    WordReads(table, at, ws, 0);
    WordReads(table, at, ws, 1);
    WordReads(table, at, ws, 2);
    WordReads(table, at, ws, 3);
    WordReads(table, at, ws, 4);
    WordReads(table, at, ws, 5);
  }

  lemma {:induction false} FrontAndName(table: seq<u8>, at: nat, fields: seq<u8>, name: Str)
    requires at + |fields| + |PaddedName(name)| <= |table|
    requires table[at..at + |fields| + |PaddedName(name)|] == fields + PaddedName(name)
    ensures table[at..at + |fields|] == fields
    ensures table[at + |fields|..at + |fields| + |name|] == name
  {
    hide AlignUp, PaddedName;
    var whole := fields + PaddedName(name);
    SliceOfSlice(table, at, at + |whole|, 0, |fields|);
    SliceOfSlice(table, at, at + |whole|, |fields|, |fields| + |name|);
    assert whole[0..|fields|] == fields;
    assert whole[|fields|..|fields| + |name|] == PaddedName(name)[..|name|];
  }

  lemma {:induction false} FileBytesRead(table: seq<u8>, at: nat, f: FileFields, name: Str)
    requires at + |FileBytes(f, name)| <= |table| && table[at..at + |FileBytes(f, name)|] == FileBytes(f, name)
    ensures Read.FileFieldsAt(table, at) == f
    ensures table[at + FILE_ENTRY_SIZE..at + FILE_ENTRY_SIZE + |name|] == name
  {
    hide AlignUp, PaddedName, Words, Halves, FromLe64, FromLe32;
    var ws := FileWords(f);
    FrontAndName(table, at, Words(ws), name);
    WordReads(table, at, ws, 0);
    WordReads(table, at, ws, 1);
    DoubleWordReads(table, at, ws, 2, f.dataOffset);
    DoubleWordReads(table, at, ws, 4, f.dataSize);
    WordReads(table, at, ws, 6);
    WordReads(table, at, ws, 7);
  }

  /** What the reader makes of directory `i`. */
  ghost function DirViewOf(dirs: seq<DirEntry>, files: seq<FileEntry>, i: nat): Read.DirView
    requires Expressible(dirs, files) && i < |dirs|
  {
    Read.DirView(DirFieldsOf(dirs, files, DirSiblings(dirs, files), i), dirs[i].name)
  }

  ghost function FileViewOf(dirs: seq<DirEntry>, files: seq<FileEntry>, j: nat): Read.FileView
    requires Expressible(dirs, files) && j < |files|
  {
    Read.FileView(FileFieldsOf(dirs, files, FileSiblings(dirs, files), j), files[j].name)
  }

  /** The view the reader has of the image of these tables. */
  ghost predicate IsViewOf(fs: Read.RomFs, dirs: seq<DirEntry>, files: seq<FileEntry>) {
    IsSorted(dirs, files) && LaidOut(dirs, files) && Fits(dirs, files) && Expressible(dirs, files) &&
    fs == Read.RomFs(Image(dirs, files), HeaderOf(dirs, files))
  }

  lemma {:induction false} ViewIsOpened(fs: Read.RomFs, dirs: seq<DirEntry>, files: seq<FileEntry>)
    requires IsViewOf(fs, dirs, files)
    ensures Read.Opened(fs) && Regions(fs.bytes, dirs, files) && Fits(dirs, files) && Expressible(dirs, files)
    ensures Read.DirTable(fs) == Concat(DirParts(dirs, files)) && Read.FileTable(fs) == Concat(FileParts(dirs, files))
    ensures DirOffset(dirs, |dirs|) < 0x1_0000_0000 && FileOffset(files, |files|) < 0x1_0000_0000
    ensures MetaStart(files) <= |fs.bytes| && fs.header.fileDataOffset == FILE_PARTITION
    ensures fs.bytes[..MetaStart(files)] == PadTo(DataRegion(Front(dirs, files), files, |files|), 4)
  {
    hide IsSorted, LaidOut, Expressible, DirParts, FileParts, DirHashTable, FileHashTable, DataRegion, Concat, Words, HashCount,
         AlignUp, PadTo, Image, DirOffset, FileOffset, DataEnd, Front;
    ImageRegions(dirs, files);
  }

  lemma {:induction false} DirEntryReads(fs: Read.RomFs, at: u32, f: DirFields, name: Str)
    requires Read.Opened(fs) && f.nameLen == |name|
    requires Holds(Read.DirTable(fs), at, DirBytes(f, name))
    ensures Read.DirFromOffset(fs, at) == Ok(Read.DirView(f, name))
  {
    hide DirBytes, AlignUp, Read.DirFieldsAt, Read.DirTable;
    DirBytesRead(Read.DirTable(fs), at, f, name);
  }

  lemma {:induction false} FileEntryReads(fs: Read.RomFs, at: u32, f: FileFields, name: Str)
    requires Read.Opened(fs) && f.nameLen == |name|
    requires Holds(Read.FileTable(fs), at, FileBytes(f, name))
    ensures Read.FileFromOffset(fs, at) == Ok(Read.FileView(f, name))
  {
    hide FileBytes, AlignUp, Read.FileFieldsAt, Read.FileTable;
    FileBytesRead(Read.FileTable(fs), at, f, name);
  }

  lemma {:induction false} DirPartAt(parts: seq<seq<u8>>, dirs: seq<DirEntry>, i: nat)
    requires |parts| == |dirs| && i < |dirs| && forall k :: 0 <= k < |dirs| ==> |parts[k]| == DirSize(dirs[k])
    ensures DirOffset(dirs, i) + |parts[i]| <= |Concat(parts)| == DirOffset(dirs, |dirs|)
    ensures Concat(parts)[DirOffset(dirs, i)..DirOffset(dirs, i) + |parts[i]|] == parts[i]
  {
    hide Concat, AlignUp;
    DirPartsStart(parts, dirs, i);
    PartInConcat(parts, i);
    DirPartsLength(parts, dirs);
  }

  lemma {:induction false} FilePartAt(parts: seq<seq<u8>>, files: seq<FileEntry>, j: nat)
    requires |parts| == |files| && j < |files| && forall k :: 0 <= k < |files| ==> |parts[k]| == FileSize(files[k])
    ensures FileOffset(files, j) + |parts[j]| <= |Concat(parts)| == FileOffset(files, |files|)
    ensures Concat(parts)[FileOffset(files, j)..FileOffset(files, j) + |parts[j]|] == parts[j]
  {
    hide Concat, AlignUp;
    FilePartsStart(parts, files, j);
    PartInConcat(parts, j);
    FilePartsLength(parts, files);
  }

  lemma {:induction false} DirPartIs(dirs: seq<DirEntry>, files: seq<FileEntry>, i: nat)
    requires Expressible(dirs, files) && i < |dirs|
    ensures var v := DirViewOf(dirs, files, i); DirParts(dirs, files)[i] == DirBytes(v.entry, v.name)
  {
    hide Expressible, DirBytes, DirFieldsOf, DirSiblings, AlignUp;
  }

  lemma {:induction false} FilePartIs(dirs: seq<DirEntry>, files: seq<FileEntry>, j: nat)
    requires Expressible(dirs, files) && j < |files|
    ensures var v := FileViewOf(dirs, files, j); FileParts(dirs, files)[j] == FileBytes(v.entry, v.name)
  {
    hide Expressible, FileBytes, FileFieldsOf, FileSiblings, AlignUp;
  }

  lemma {:induction false} PlacedAt(fs: Read.RomFs, dirs: seq<DirEntry>, files: seq<FileEntry>)
    requires IsViewOf(fs, dirs, files)
    ensures forall i :: 0 <= i < |dirs| ==> dirs[i].entryOffset == DirOffset(dirs, i)
    ensures forall j :: 0 <= j < |files| ==>
      files[j].entryOffset == FileOffset(files, j) && files[j].dataOffset == AlignUp(DataEnd(files, j), 0x10)
  {
  }

  lemma {:induction false} TablesOf(fs: Read.RomFs, dirs: seq<DirEntry>, files: seq<FileEntry>)
    requires IsViewOf(fs, dirs, files) && Read.Opened(fs)
    ensures Expressible(dirs, files)
    ensures Read.DirTable(fs) == Concat(DirParts(dirs, files)) && Read.FileTable(fs) == Concat(FileParts(dirs, files))
    ensures DirOffset(dirs, |dirs|) < 0x1_0000_0000 && FileOffset(files, |files|) < 0x1_0000_0000
  {
    hide IsViewOf, Fits, Expressible, DirParts, FileParts, Concat, DirOffset, FileOffset, Regions, Read.DirTable, Read.FileTable,
         Read.Opened, MetaStart, PadTo, DataRegion, Front;
    ViewIsOpened(fs, dirs, files);
  }

  lemma {:induction false} DirPlaced(fs: Read.RomFs, dirs: seq<DirEntry>, files: seq<FileEntry>, i: nat)
    requires IsViewOf(fs, dirs, files) && Read.Opened(fs) && i < |dirs|
    ensures Expressible(dirs, files) && dirs[i].entryOffset < NO_ENTRY
    ensures Holds(Read.DirTable(fs), dirs[i].entryOffset, DirParts(dirs, files)[i])
  {
    hide IsViewOf, Expressible, DirParts, FileParts, DirFieldsOf, FileFieldsOf, DirSiblings, FileSiblings, DirBytes, FileBytes,
         Concat, AlignUp, DirOffset, FileOffset, Read.DirTable, Read.FileTable, Read.Opened;
    TablesOf(fs, dirs, files);
    PlacedAt(fs, dirs, files);
    var parts := DirParts(dirs, files);
    DirPartAt(parts, dirs, i);
    assert |parts[i]| == DirSize(dirs[i]) >= DIR_ENTRY_SIZE;
  }

  lemma {:induction false} FilePlaced(fs: Read.RomFs, dirs: seq<DirEntry>, files: seq<FileEntry>, j: nat)
    requires IsViewOf(fs, dirs, files) && Read.Opened(fs) && j < |files|
    ensures Expressible(dirs, files) && files[j].entryOffset < NO_ENTRY
    ensures Holds(Read.FileTable(fs), files[j].entryOffset, FileParts(dirs, files)[j])
  {
    hide IsViewOf, Expressible, DirParts, FileParts, DirFieldsOf, FileFieldsOf, DirSiblings, FileSiblings, DirBytes, FileBytes,
         Concat, AlignUp, DirOffset, FileOffset, Read.DirTable, Read.FileTable, Read.Opened;
    TablesOf(fs, dirs, files);
    PlacedAt(fs, dirs, files);
    var parts := FileParts(dirs, files);
    FilePartAt(parts, files, j);
    assert |parts[j]| == FileSize(files[j]) >= FILE_ENTRY_SIZE;
  }

  /** Each directory is read back whole at its offset. */
  lemma {:induction false} DirReadsBack(fs: Read.RomFs, dirs: seq<DirEntry>, files: seq<FileEntry>, i: nat)
    requires IsViewOf(fs, dirs, files) && Read.Opened(fs) && i < |dirs|
    ensures dirs[i].entryOffset < NO_ENTRY
    ensures Read.DirFromOffset(fs, dirs[i].entryOffset) == Ok(DirViewOf(dirs, files, i))
  {
    hide IsViewOf, Expressible, DirParts, DirBytes, DirViewOf, DirFieldsOf, DirSiblings, Holds, Read.DirFromOffset,
         Read.DirTable, Read.Opened;
    DirPlaced(fs, dirs, files, i);
    DirPartIs(dirs, files, i);
    NameLenOf(dirs, files, i);
    DirEntryReads(fs, dirs[i].entryOffset, DirViewOf(dirs, files, i).entry, dirs[i].name);
  }

  lemma {:induction false} NameLenOf(dirs: seq<DirEntry>, files: seq<FileEntry>, i: nat)
    requires Expressible(dirs, files) && i < |dirs|
    ensures DirViewOf(dirs, files, i).entry.nameLen == |dirs[i].name| && DirViewOf(dirs, files, i).name == dirs[i].name
  {
    hide DirSiblings, NextAfter, First, Expressible;
  }

  lemma {:induction false} FileFieldsKnown(dirs: seq<DirEntry>, files: seq<FileEntry>, j: nat)
    requires Expressible(dirs, files) && j < |files|
    ensures var e := FileViewOf(dirs, files, j).entry;
      e.nameLen == |files[j].name| && FileViewOf(dirs, files, j).name == files[j].name && e.dataOffset == files[j].dataOffset && e.dataSize == |files[j].data|
  {
    hide FileSiblings, NextAfter, First, Expressible;
  }

  lemma {:induction false} FileReadsBack(fs: Read.RomFs, dirs: seq<DirEntry>, files: seq<FileEntry>, j: nat)
    requires IsViewOf(fs, dirs, files) && Read.Opened(fs) && j < |files|
    ensures files[j].entryOffset < NO_ENTRY
    ensures Read.FileFromOffset(fs, files[j].entryOffset) == Ok(FileViewOf(dirs, files, j))
  {
    hide IsViewOf, Expressible, FileParts, FileBytes, FileViewOf, FileFieldsOf, FileSiblings, Holds, Read.FileFromOffset,
         Read.FileTable, Read.Opened;
    FilePlaced(fs, dirs, files, j);
    FilePartIs(dirs, files, j);
    FileFieldsKnown(dirs, files, j);
    FileEntryReads(fs, files[j].entryOffset, FileViewOf(dirs, files, j).entry, files[j].name);
  }

  lemma {:induction false} DataInImage(bytes: seq<u8>, front: seq<u8>, files: seq<FileEntry>, end: nat, j: nat)
    requires end <= |bytes| && bytes[..end] == PadTo(DataRegion(front, files, |files|), 4)
    requires j < |files| && |front| == FILE_PARTITION
    ensures var at := FILE_PARTITION + AlignUp(DataEnd(files, j), 0x10);
      at + |files[j].data| <= |bytes| && bytes[at..at + |files[j].data|] == files[j].data
  {
    hide AlignUp, PadTo, DataEnd;
    DataInRegion(front, files, |files|, j);
    var region := DataRegion(front, files, |files|);
    var padded := PadTo(region, 4);
    var at := FILE_PARTITION + AlignUp(DataEnd(files, j), 0x10);
    assert bytes[0..end] == bytes[..end] && padded[0..|region|] == padded[..|region|];
    SliceOfSlice(bytes, 0, end, at, at + |files[j].data|);
    SliceOfSlice(padded, 0, |region|, at, at + |files[j].data|);
  }

  lemma {:induction false} DataPlaced(fs: Read.RomFs, dirs: seq<DirEntry>, files: seq<FileEntry>, j: nat)
    requires IsViewOf(fs, dirs, files) && Read.Opened(fs) && j < |files|
    ensures var at, n := fs.header.fileDataOffset + files[j].dataOffset, |files[j].data|;
      Expressible(dirs, files) && at + n <= |fs.bytes| <= USIZE_MAX && fs.bytes[at..at + n] == files[j].data
  {
    hide IsViewOf, Fits, Expressible, DirParts, FileParts, Concat, AlignUp, PadTo, MetaStart, Front, DataEnd, DataRegion,
         Regions, Read.DirTable, Read.FileTable, HeaderOf, Image, LaidOut, DirOffset, FileOffset, DirFieldsOf, FileFieldsOf,
         DirSiblings, FileSiblings;
    ViewIsOpened(fs, dirs, files);
    PlacedAt(fs, dirs, files);
    DataInImage(fs.bytes, Front(dirs, files), files, MetaStart(files), j);
  }

  /** And its contents are exactly the bytes stored. */
  lemma {:induction false} DataReadsBack(fs: Read.RomFs, dirs: seq<DirEntry>, files: seq<FileEntry>, j: nat)
    requires IsViewOf(fs, dirs, files) && Read.Opened(fs) && j < |files|
    ensures Read.Data(fs, FileViewOf(dirs, files, j)) == Ok(files[j].data)
  {
    hide IsViewOf, Expressible, FileViewOf, Read.Opened;
    DataPlaced(fs, dirs, files, j);
    FileFieldsKnown(dirs, files, j);
  }
}
