/** The RomFS image of a sorted tree: offsets, links, hash chains, and the bytes that carry them. */
module RomFsLayout {
  import opened Bytes
  import opened Packing
  import opened Order
  import opened RomFsFormat
  import opened RomFsTree
  import opened RomFsSort

  // ---- Offsets ----

  function DirSize(d: DirEntry): nat {
    DIR_ENTRY_SIZE + AlignUp(|d.name|, 4)
  }

  function FileSize(f: FileEntry): nat {
    FILE_ENTRY_SIZE + AlignUp(|f.name|, 4)
  }

  /** Bytes the first `i` directory entries take. */
  function DirOffset(dirs: seq<DirEntry>, i: nat): nat
    requires i <= |dirs|
  {
    if i == 0 then 0 else DirOffset(dirs, i - 1) + DirSize(dirs[i - 1])
  }

  function FileOffset(files: seq<FileEntry>, j: nat): nat
    requires j <= |files|
  {
    if j == 0 then 0 else FileOffset(files, j - 1) + FileSize(files[j - 1])
  }

  /** Bytes the contents of the first `j` files take, each on a 16-byte boundary. */
  function DataEnd(files: seq<FileEntry>, j: nat): nat
    requires j <= |files|
  {
    if j == 0 then 0 else AlignUp(DataEnd(files, j - 1), 0x10) + |files[j - 1].data|
  }

  function PartitionSize(files: seq<FileEntry>): nat {
    DataEnd(files, |files|)
  }

  /** Where the directory hash table starts, right after the contents. */
  function MetaStart(files: seq<FileEntry>): nat {
    AlignUp(FILE_PARTITION + PartitionSize(files), 4)
  }

  function ImageSize(dirs: seq<DirEntry>, files: seq<FileEntry>): nat {
    MetaStart(files) + 4 * HashCount(|dirs|) + DirOffset(dirs, |dirs|) + 4 * HashCount(|files|) + FileOffset(files, |files|)
  }

  /** Both metadata tables can be addressed by `u32` offsets, and the image by `u64` ones. */
  ghost predicate Fits(dirs: seq<DirEntry>, files: seq<FileEntry>) {
    DirOffset(dirs, |dirs|) < 0x1_0000_0000 && FileOffset(files, |files|) < 0x1_0000_0000 &&
    ImageSize(dirs, files) <= USIZE_MAX
  }

  /** Every entry records where it will be written. */
  ghost predicate LaidOut(dirs: seq<DirEntry>, files: seq<FileEntry>) {
    (forall i :: 0 <= i < |dirs| ==> dirs[i].entryOffset == DirOffset(dirs, i)) &&
    (forall j :: 0 <= j < |files| ==>
       files[j].entryOffset == FileOffset(files, j) && files[j].dataOffset == AlignUp(DataEnd(files, j), 0x10))
  }

  lemma {:induction false} DirOffsetsRise(dirs: seq<DirEntry>, i: nat, j: nat)
    requires i <= j <= |dirs|
    ensures DirOffset(dirs, i) <= DirOffset(dirs, j)
    ensures i < j ==> DirOffset(dirs, i) + DirSize(dirs[i]) <= DirOffset(dirs, j)
    decreases j
  {
    if i < j {
      DirOffsetsRise(dirs, i, j - 1);
    }
  }

  lemma {:induction false} FileOffsetsRise(files: seq<FileEntry>, i: nat, j: nat)
    requires i <= j <= |files|
    ensures FileOffset(files, i) <= FileOffset(files, j)
    ensures i < j ==> FileOffset(files, i) + FileSize(files[i]) <= FileOffset(files, j)
    decreases j
  {
    if i < j {
      FileOffsetsRise(files, i, j - 1);
    }
  }

  lemma {:induction false} DataEndsRise(files: seq<FileEntry>, i: nat, j: nat)
    requires i <= j <= |files|
    ensures DataEnd(files, i) <= DataEnd(files, j)
    ensures i < j ==> AlignUp(DataEnd(files, i), 0x10) + |files[i].data| <= DataEnd(files, j)
    decreases j
  {
    if i < j {
      DataEndsRise(files, i, j - 1);
    }
  }

  // ---- Links ----

  /** The element after the first occurrence of `x`, if there is one. */
  function NextAfter(xs: seq<nat>, x: nat): (r: Option<nat>)
    ensures r.Some? ==> r.value in xs
  {
    if |xs| < 2 then None
    else if xs[0] == x then Some(xs[1])
    else
      assert forall y :: y in xs[1..] ==> y in xs;
      NextAfter(xs[1..], x)
  }

  function DirOffsetOf(dirs: seq<DirEntry>, i: Option<nat>): u32
    requires i.Some? ==> i.value < |dirs|
  {
    if i.Some? then dirs[i.value].entryOffset else NO_ENTRY
  }

  function FileOffsetOf(files: seq<FileEntry>, j: Option<nat>): u32
    requires j.Some? ==> j.value < |files|
  {
    if j.Some? then files[j.value].entryOffset else NO_ENTRY
  }

  function First(xs: seq<nat>): (r: Option<nat>)
    ensures r.Some? ==> r.value in xs
  {
    if xs == [] then None else Some(xs[0])
  }

  // ---- Hash chains ----

  /** Offset of the latest of the first `n` entries in bucket `b`. */
  function LatestIn(buckets: seq<nat>, offsets: seq<u32>, n: nat, b: nat): u32
    requires n <= |buckets| == |offsets|
  {
    if n == 0 then NO_ENTRY
    else if buckets[n - 1] == b then offsets[n - 1]
    else LatestIn(buckets, offsets, n - 1, b)
  }

  function HashTable(buckets: seq<nat>, offsets: seq<u32>, size: nat): (t: seq<u32>)
    requires |buckets| == |offsets|
    ensures |t| == size && forall b :: 0 <= b < size ==> t[b] == LatestIn(buckets, offsets, |buckets|, b)
  {
    seq(size, b requires 0 <= b < size => LatestIn(buckets, offsets, |buckets|, b))
  }

  /** Each entry chained to the previous one in its bucket. */
  function HashSiblings(buckets: seq<nat>, offsets: seq<u32>): (s: seq<u32>)
    requires |buckets| == |offsets|
    ensures |s| == |buckets| && forall i :: 0 <= i < |s| ==> s[i] == LatestIn(buckets, offsets, i, buckets[i])
  {
    seq(|buckets|, i requires 0 <= i < |buckets| => LatestIn(buckets, offsets, i, buckets[i]))
  }

  /** The table and the sibling list once the first `n` entries are chained in. */
  ghost predicate Chained(buckets: seq<nat>, offsets: seq<u32>, n: nat, table: seq<u32>, siblings: seq<u32>) {
    n <= |buckets| == |offsets| == |siblings| && (forall b :: 0 <= b < |table| ==> table[b] == LatestIn(buckets, offsets, n, b)) &&
    forall k :: 0 <= k < n ==> siblings[k] == LatestIn(buckets, offsets, k, buckets[k])
  }

  lemma {:induction false} ChainOneMore(buckets: seq<nat>, offsets: seq<u32>, n: nat, table: seq<u32>, siblings: seq<u32>)
    requires Chained(buckets, offsets, n, table, siblings) && n < |buckets| && buckets[n] < |table|
    ensures Chained(buckets, offsets, n + 1, table[buckets[n] := offsets[n]], siblings[n := table[buckets[n]]])
  {
  }

  lemma {:induction false} AllChained(buckets: seq<nat>, offsets: seq<u32>, table: seq<u32>, siblings: seq<u32>)
    requires Chained(buckets, offsets, |buckets|, table, siblings)
    ensures table == HashTable(buckets, offsets, |table|) && siblings == HashSiblings(buckets, offsets)
  {
  }

  function DirOffsets(dirs: seq<DirEntry>): (s: seq<u32>)
    ensures |s| == |dirs| && forall i :: 0 <= i < |dirs| ==> s[i] == dirs[i].entryOffset
  {
    seq(|dirs|, i requires 0 <= i < |dirs| => dirs[i].entryOffset)
  }

  function FileOffsets(files: seq<FileEntry>): (s: seq<u32>)
    ensures |s| == |files| && forall j :: 0 <= j < |files| ==> s[j] == files[j].entryOffset
  {
    seq(|files|, j requires 0 <= j < |files| => files[j].entryOffset)
  }

  predicate ParentsFit(dirs: seq<DirEntry>, files: seq<FileEntry>) {
    (forall i :: 0 <= i < |dirs| ==> dirs[i].parent < |dirs|) && forall j :: 0 <= j < |files| ==> files[j].parent < |dirs|
  }

  function DirBucket(dirs: seq<DirEntry>, d: DirEntry): nat
    requires d.parent < |dirs|
  {
    PathHash(dirs[d.parent].entryOffset, d.name) % HashCount(|dirs|)
  }

  function FileBucket(dirs: seq<DirEntry>, f: FileEntry, count: nat): nat
    requires f.parent < |dirs| && count > 0
  {
    PathHash(dirs[f.parent].entryOffset, f.name) % count
  }

  function DirBuckets(dirs: seq<DirEntry>): (b: seq<nat>)
    requires ParentsFit(dirs, [])
    ensures |b| == |dirs| && forall i {:trigger b[i]} :: 0 <= i < |dirs| ==> b[i] == DirBucket(dirs, dirs[i])
  {
    seq(|dirs|, i requires 0 <= i < |dirs| => DirBucket(dirs, dirs[i]))
  }

  function FileBuckets(dirs: seq<DirEntry>, files: seq<FileEntry>): (b: seq<nat>)
    requires ParentsFit(dirs, files)
    ensures |b| == |files| && forall j {:trigger b[j]} :: 0 <= j < |files| ==> b[j] == FileBucket(dirs, files[j], HashCount(|files|))
  {
    seq(|files|, j requires 0 <= j < |files| => FileBucket(dirs, files[j], HashCount(|files|)))
  }

  // ---- Entries ----

  datatype DirFields = DirFields(parent: u32, sibling: u32, child: u32, file: u32, hashSibling: u32, nameLen: u32)

  datatype FileFields = FileFields(parent: u32, sibling: u32, dataOffset: u64, dataSize: u64, hashSibling: u32, nameLen: u32)

  /** A name padded to a 4-byte boundary. */
  function PaddedName(name: Str): (b: seq<u8>)
    ensures |b| == AlignUp(|name|, 4) && b[..|name|] == name
  {
    name + Zeros(AlignUp(|name|, 4) - |name|)
  }

  function DirWords(f: DirFields): (ws: seq<u32>)
    ensures |ws| == 6
  {
    [f.parent, f.sibling, f.child, f.file, f.hashSibling, f.nameLen]
  }

  function FileWords(f: FileFields): (ws: seq<u32>)
    ensures |ws| == 8
  {
    [f.parent, f.sibling, Halves(f.dataOffset)[0], Halves(f.dataOffset)[1],
     Halves(f.dataSize)[0], Halves(f.dataSize)[1], f.hashSibling, f.nameLen]
  }

  function DirBytes(f: DirFields, name: Str): (b: seq<u8>)
    ensures |b| == DIR_ENTRY_SIZE + AlignUp(|name|, 4)
  {
    Words(DirWords(f)) + PaddedName(name)
  }

  function FileBytes(f: FileFields, name: Str): (b: seq<u8>)
    ensures |b| == FILE_ENTRY_SIZE + AlignUp(|name|, 4)
  {
    Words(FileWords(f)) + PaddedName(name)
  }

  /** What has to hold of the tables for their entries to be expressible. */
  ghost predicate Expressible(dirs: seq<DirEntry>, files: seq<FileEntry>) {
    IndicesFit(dirs, files) && (forall i :: 0 <= i < |dirs| ==> |dirs[i].name| < 0x1_0000_0000) &&
    (forall j :: 0 <= j < |files| ==> |files[j].name| < 0x1_0000_0000 && |files[j].data| <= USIZE_MAX)
  }

  lemma {:induction false} ParentsFitOf(dirs: seq<DirEntry>, files: seq<FileEntry>)
    requires IndicesFit(dirs, files)
    ensures ParentsFit(dirs, files) && ParentsFit(dirs, [])
  {
    forall i | 0 <= i < |dirs|
      ensures dirs[i].parent < |dirs|
    {
      assert DirFits(dirs[i], |dirs|, |files|);
    }
  }

  /** The fields directory `i` is written with. */
  ghost function DirFieldsOf(dirs: seq<DirEntry>, files: seq<FileEntry>, siblings: seq<u32>, i: nat): DirFields
    requires Expressible(dirs, files) && i < |dirs| == |siblings|
  {
    var d := dirs[i];
    assert DirFits(d, |dirs|, |files|);
    var p := dirs[d.parent];
    assert DirFits(p, |dirs|, |files|);
    DirFields(p.entryOffset, DirOffsetOf(dirs, NextAfter(p.children, i)), DirOffsetOf(dirs, First(d.children)),
              FileOffsetOf(files, First(d.files)), siblings[i], |d.name|)
  }

  ghost function FileFieldsOf(dirs: seq<DirEntry>, files: seq<FileEntry>, siblings: seq<u32>, j: nat): FileFields
    requires Expressible(dirs, files) && j < |files| == |siblings|
  {
    var f := files[j];
    var p := dirs[f.parent];
    assert DirFits(p, |dirs|, |files|);
    FileFields(p.entryOffset, FileOffsetOf(files, NextAfter(p.files, j)), f.dataOffset, |f.data|, siblings[j], |f.name|)
  }

  ghost function DirSiblings(dirs: seq<DirEntry>, files: seq<FileEntry>): (s: seq<u32>)
    requires Expressible(dirs, files)
    ensures |s| == |dirs|
  {
    ParentsFitOf(dirs, files);
    HashSiblings(DirBuckets(dirs), DirOffsets(dirs))
  }

  ghost function FileSiblings(dirs: seq<DirEntry>, files: seq<FileEntry>): (s: seq<u32>)
    requires Expressible(dirs, files)
    ensures |s| == |files|
  {
    ParentsFitOf(dirs, files);
    HashSiblings(FileBuckets(dirs, files), FileOffsets(files))
  }

  ghost function DirParts(dirs: seq<DirEntry>, files: seq<FileEntry>): (parts: seq<seq<u8>>)
    requires Expressible(dirs, files)
    ensures |parts| == |dirs| && forall i {:trigger parts[i]} :: 0 <= i < |dirs| ==> |parts[i]| == DirSize(dirs[i])
    ensures forall i {:trigger parts[i]} :: 0 <= i < |dirs| ==> parts[i] == DirBytes(DirFieldsOf(dirs, files, DirSiblings(dirs, files), i), dirs[i].name)
  {
    seq(|dirs|, i requires 0 <= i < |dirs| => DirBytes(DirFieldsOf(dirs, files, DirSiblings(dirs, files), i), dirs[i].name))
  }

  ghost function FileParts(dirs: seq<DirEntry>, files: seq<FileEntry>): (parts: seq<seq<u8>>)
    requires Expressible(dirs, files)
    ensures |parts| == |files| && forall j {:trigger parts[j]} :: 0 <= j < |files| ==> |parts[j]| == FileSize(files[j])
    ensures forall j {:trigger parts[j]} :: 0 <= j < |files| ==> parts[j] == FileBytes(FileFieldsOf(dirs, files, FileSiblings(dirs, files), j), files[j].name)
  {
    seq(|files|, j requires 0 <= j < |files| => FileBytes(FileFieldsOf(dirs, files, FileSiblings(dirs, files), j), files[j].name))
  }

  /** Entries laid end to end start where the offsets say. */
  lemma {:induction false} DirPartsStart(parts: seq<seq<u8>>, dirs: seq<DirEntry>, i: nat)
    requires |parts| == |dirs| && i <= |dirs|
    requires forall k :: 0 <= k < |dirs| ==> |parts[k]| == DirSize(dirs[k])
    ensures StartOf(parts, i) == DirOffset(dirs, i)
  {
    if i > 0 {
      DirPartsStart(parts, dirs, i - 1);
      PartInConcat(parts, i - 1);
    }
  }

  lemma {:induction false} FilePartsStart(parts: seq<seq<u8>>, files: seq<FileEntry>, j: nat)
    requires |parts| == |files| && j <= |files|
    requires forall k :: 0 <= k < |files| ==> |parts[k]| == FileSize(files[k])
    ensures StartOf(parts, j) == FileOffset(files, j)
  {
    if j > 0 {
      FilePartsStart(parts, files, j - 1);
      PartInConcat(parts, j - 1);
    }
  }

  lemma {:induction false} DirPartsLength(parts: seq<seq<u8>>, dirs: seq<DirEntry>)
    requires |parts| == |dirs| && forall k :: 0 <= k < |dirs| ==> |parts[k]| == DirSize(dirs[k])
    ensures |Concat(parts)| == DirOffset(dirs, |dirs|)
  {
    DirPartsStart(parts, dirs, |dirs|);
    assert parts[..|dirs|] == parts;
  }

  lemma {:induction false} FilePartsLength(parts: seq<seq<u8>>, files: seq<FileEntry>)
    requires |parts| == |files| && forall k :: 0 <= k < |files| ==> |parts[k]| == FileSize(files[k])
    ensures |Concat(parts)| == FileOffset(files, |files|)
  {
    FilePartsStart(parts, files, |files|);
    assert parts[..|files|] == parts;
  }

  /** An entry appended to a table of whole entries pads the table's end. */
  lemma {:induction false} EntryAppended(table: seq<u8>, fields: seq<u8>, name: Str)
    requires |table| % 4 == 0 && |fields| % 4 == 0
    ensures PadTo(table + fields + name, 4) == table + (fields + PaddedName(name))
    ensures |table + (fields + PaddedName(name))| % 4 == 0
  {
    var n := |table| + |fields|;
    assert n % 4 == 0 && (n + |name| + 3) % 4 == (|name| + 3) % 4;
    assert AlignUp(n + |name|, 4) == n + AlignUp(|name|, 4);
    var pad := Zeros(AlignUp(|name|, 4) - |name|);
    assert PadTo(table + fields + name, 4) == table + fields + name + pad;
    AppendIsAssociative(table + fields, name, pad);
    AppendIsAssociative(table, fields, name + pad);
  }

  // ---- Regions ----

  /** Header, then the contents of the first `j` files, each padded up to a 16-byte boundary first. */
  function DataRegion(front: seq<u8>, files: seq<FileEntry>, j: nat): seq<u8>
    requires j <= |files|
  {
    if j == 0 then front else PadTo(DataRegion(front, files, j - 1), 0x10) + files[j - 1].data
  }

  lemma {:induction false} AlignPastPartition(x: nat)
    ensures AlignUp(FILE_PARTITION + x, 0x10) == FILE_PARTITION + AlignUp(x, 0x10)
  {
    assert (FILE_PARTITION + x + 15) % 16 == (x + 15) % 16;
  }

  lemma {:induction false} DataRegionLength(front: seq<u8>, files: seq<FileEntry>, j: nat)
    requires j <= |files| && |front| == FILE_PARTITION
    ensures |DataRegion(front, files, j)| == FILE_PARTITION + DataEnd(files, j)
  {
    if j > 0 {
      DataRegionLength(front, files, j - 1);
      AlignPastPartition(DataEnd(files, j - 1));
    }
  }

  lemma {:induction false} SliceBeforePadding(before: seq<u8>, data: seq<u8>, lo: nat, hi: nat)
    requires lo <= hi <= |before|
    ensures (PadTo(before, 0x10) + data)[lo..hi] == before[lo..hi]
  {
    hide AlignUp;
    var padded := PadTo(before, 0x10);
    SliceOfAppend(padded, data, lo, hi);
    SliceOfAppend(before, Zeros(AlignUp(|before|, 0x10) - |before|), lo, hi);
  }

  lemma {:induction false} SliceAtEnd(before: seq<u8>, data: seq<u8>)
    ensures (before + data)[|before|..|before| + |data|] == data
  {
  }

  /** The contents of file `k` lie at its data offset. */
  lemma {:induction false} DataInRegion(front: seq<u8>, files: seq<FileEntry>, j: nat, k: nat)
    requires k < j <= |files| && |front| == FILE_PARTITION
    ensures var at := FILE_PARTITION + AlignUp(DataEnd(files, k), 0x10);
      at + |files[k].data| <= |DataRegion(front, files, j)| &&
      DataRegion(front, files, j)[at..at + |files[k].data|] == files[k].data
    decreases j
  {
    hide AlignUp, PadTo;
    var before := DataRegion(front, files, j - 1);
    DataRegionLength(front, files, j - 1);
    AlignPastPartition(DataEnd(files, j - 1));
    if k < j - 1 {
      DataInRegion(front, files, j - 1, k);
      var at := FILE_PARTITION + AlignUp(DataEnd(files, k), 0x10);
      SliceBeforePadding(before, files[j - 1].data, at, at + |files[k].data|);
    } else {
      SliceAtEnd(PadTo(before, 0x10), files[k].data);
    }
  }

  lemma {:induction false} FrontOfRegion(front: seq<u8>, files: seq<FileEntry>, j: nat)
    requires j <= |files|
    ensures |front| <= |DataRegion(front, files, j)| && DataRegion(front, files, j)[..|front|] == front
  {
    if j > 0 {
      FrontOfRegion(front, files, j - 1);
      var before := DataRegion(front, files, j - 1);
      TakeOfTake(PadTo(before, 0x10), |before|, |front|);
      TakeOfAppend(PadTo(before, 0x10), files[j - 1].data, |front|);
    }
  }

  // ---- The image ----

  datatype Header = Header(
    headerSize: u64,
    dirHashOffset: u64, dirHashSize: u64, dirMetaOffset: u64, dirMetaSize: u64,
    fileHashOffset: u64, fileHashSize: u64, fileMetaOffset: u64, fileMetaSize: u64,
    fileDataOffset: u64)

  function HeaderFields(h: Header): (xs: seq<u64>)
    ensures |xs| == 10
  {
    [h.headerSize, h.dirHashOffset, h.dirHashSize, h.dirMetaOffset, h.dirMetaSize,
     h.fileHashOffset, h.fileHashSize, h.fileMetaOffset, h.fileMetaSize, h.fileDataOffset]
  }

  /** The header of the image of these tables. */
  ghost function HeaderOf(dirs: seq<DirEntry>, files: seq<FileEntry>): Header
    requires Fits(dirs, files)
  {
    var dirHash := MetaStart(files);
    var dirMeta := dirHash + 4 * HashCount(|dirs|);
    var fileHash := dirMeta + DirOffset(dirs, |dirs|);
    var fileMeta := fileHash + 4 * HashCount(|files|);
    Header(HEADER_SIZE, dirHash, 4 * HashCount(|dirs|), dirMeta, DirOffset(dirs, |dirs|),
           fileHash, 4 * HashCount(|files|), fileMeta, FileOffset(files, |files|), FILE_PARTITION)
  }

  ghost function Front(dirs: seq<DirEntry>, files: seq<FileEntry>): (b: seq<u8>)
    requires Fits(dirs, files)
    ensures |b| == FILE_PARTITION
  {
    Longs(HeaderFields(HeaderOf(dirs, files))) + Zeros(FILE_PARTITION - HEADER_SIZE)
  }

  ghost function DirHashTable(dirs: seq<DirEntry>, files: seq<FileEntry>): (t: seq<u32>)
    requires Expressible(dirs, files)
    ensures |t| == HashCount(|dirs|)
  {
    ParentsFitOf(dirs, files);
    HashTable(DirBuckets(dirs), DirOffsets(dirs), HashCount(|dirs|))
  }

  ghost function FileHashTable(dirs: seq<DirEntry>, files: seq<FileEntry>): (t: seq<u32>)
    requires Expressible(dirs, files)
    ensures |t| == HashCount(|files|)
  {
    ParentsFitOf(dirs, files);
    HashTable(FileBuckets(dirs, files), FileOffsets(files), HashCount(|files|))
  }

  /** The six regions of the image, in order. */
  ghost function Image(dirs: seq<DirEntry>, files: seq<FileEntry>): seq<u8>
    requires Fits(dirs, files) && Expressible(dirs, files)
  {
    PadTo(DataRegion(Front(dirs, files), files, |files|), 4) +
    Words(DirHashTable(dirs, files)) + Concat(DirParts(dirs, files)) +
    Words(FileHashTable(dirs, files)) + Concat(FileParts(dirs, files))
  }
}
