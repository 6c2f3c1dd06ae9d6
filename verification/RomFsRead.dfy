/** The RomFS reader: tables checked once, entries checked as they are walked. */
module RomFsRead {
  import opened Bytes
  import opened Packing
  import opened Order
  import opened RomFsPath
  import opened RomFsFormat
  import Layout = RomFsLayout

  type Header = Layout.Header
  type DirFields = Layout.DirFields
  type FileFields = Layout.FileFields

  datatype RomFs = RomFs(bytes: seq<u8>, header: Header)

  datatype DirView = DirView(entry: DirFields, name: Str)

  datatype FileView = FileView(entry: FileFields, name: Str)

  datatype TableError = Overflow(offset: nat, size: nat) | OutOfBounds(offset: nat, size: nat, available: nat)

  datatype FromBytesError =
    | BufferTooSmall(required: nat, available: nat)
    | InvalidHeaderSize(found: nat)
    | DirMetaTable(cause: TableError)
    | DirHashTable(cause: TableError)
    | FileMetaTable(cause: TableError)
    | FileHashTable(cause: TableError)
    | FileDataOffsetOutOfBounds(offset: nat, available: nat)
    | FileDataBoundsOverflow(fileDataOffset: nat, dataOffset: nat, dataSize: nat)
    | FileDataOutOfBounds(dataOffset: nat, dataSize: nat, available: nat)

  datatype OpenError = TableTooSmall(required: nat, available: nat) | PathNotFound | DirNotFound | FileNotFound

  // ---- Parsing ----

  function HeaderAt(bytes: seq<u8>): Header
    requires |bytes| >= HEADER_SIZE
  {
    Layout.Header(U64At(bytes, 0), U64At(bytes, 8), U64At(bytes, 16), U64At(bytes, 24), U64At(bytes, 32),
                  U64At(bytes, 40), U64At(bytes, 48), U64At(bytes, 56), U64At(bytes, 64), U64At(bytes, 72))
  }

  /** What is wrong with a table of `size` bytes at `offset`, if anything. */
  function TableFault(offset: u64, size: u64, available: nat): (fault: Option<TableError>)
    ensures fault.None? <==> offset + size <= USIZE_MAX && offset + size <= available
  {
    if offset + size > USIZE_MAX then Some(Overflow(offset, size))
    else if offset + size > available then Some(OutOfBounds(offset, size, available))
    else None
  }

  /** All four tables and the start of the data region lie inside the buffer. */
  predicate TablesInside(h: Header, available: nat) {
    h.dirMetaOffset + h.dirMetaSize <= available && h.dirHashOffset + h.dirHashSize <= available &&
    h.fileMetaOffset + h.fileMetaSize <= available && h.fileHashOffset + h.fileHashSize <= available &&
    h.fileDataOffset <= available
  }

  predicate HasHeader(bytes: seq<u8>) {
    |bytes| >= HEADER_SIZE && HeaderAt(bytes).headerSize == HEADER_SIZE
  }

  /** What each error says of the buffer: what is wrong, and that nothing checked before it is. */
  predicate Reports(e: FromBytesError, bytes: seq<u8>) {
    match e
    case BufferTooSmall(required, available) => required == HEADER_SIZE > available == |bytes|
    case InvalidHeaderSize(found) => |bytes| >= HEADER_SIZE && HeaderAt(bytes).headerSize == found != HEADER_SIZE
    case FileDataBoundsOverflow(_, _, _) => false
    case FileDataOutOfBounds(_, _, _) => false
    case _ =>
      HasHeader(bytes) &&
      var h := HeaderAt(bytes);
      var dirMeta, dirHash := TableFault(h.dirMetaOffset, h.dirMetaSize, |bytes|), TableFault(h.dirHashOffset, h.dirHashSize, |bytes|);
      var fileMeta, fileHash := TableFault(h.fileMetaOffset, h.fileMetaSize, |bytes|), TableFault(h.fileHashOffset, h.fileHashSize, |bytes|);
      match e
      case DirMetaTable(cause) => dirMeta == Some(cause)
      case DirHashTable(cause) => dirMeta.None? && dirHash == Some(cause)
      case FileMetaTable(cause) => dirMeta.None? && dirHash.None? && fileMeta == Some(cause)
      case FileHashTable(cause) => dirMeta.None? && dirHash.None? && fileMeta.None? && fileHash == Some(cause)
      case FileDataOffsetOutOfBounds(offset, available) =>
        dirMeta.None? && dirHash.None? && fileMeta.None? && fileHash.None? && offset == h.fileDataOffset > available == |bytes|
  }

  /** Accepts exactly the buffers that hold a header of the right size and every table it locates. */
  function TryFromBytes(bytes: seq<u8>): (r: Result<RomFs, FromBytesError>)
    requires |bytes| <= USIZE_MAX
    ensures r.Ok? <==> HasHeader(bytes) && TablesInside(HeaderAt(bytes), |bytes|)
    ensures r.Ok? ==> r.value == RomFs(bytes, HeaderAt(bytes))
    ensures r.Err? ==> Reports(r.error, bytes)
  {
    if |bytes| < HEADER_SIZE then Err(BufferTooSmall(HEADER_SIZE, |bytes|))
    else
      var h := HeaderAt(bytes);
      if h.headerSize != HEADER_SIZE then Err(InvalidHeaderSize(h.headerSize))
      else
        var dirMeta := TableFault(h.dirMetaOffset, h.dirMetaSize, |bytes|);
        if dirMeta.Some? then Err(DirMetaTable(dirMeta.value))
        else
          var dirHash := TableFault(h.dirHashOffset, h.dirHashSize, |bytes|);
          if dirHash.Some? then Err(DirHashTable(dirHash.value))
          else
            var fileMeta := TableFault(h.fileMetaOffset, h.fileMetaSize, |bytes|);
            if fileMeta.Some? then Err(FileMetaTable(fileMeta.value))
            else
              var fileHash := TableFault(h.fileHashOffset, h.fileHashSize, |bytes|);
              if fileHash.Some? then Err(FileHashTable(fileHash.value))
              else if h.fileDataOffset > |bytes| then Err(FileDataOffsetOutOfBounds(h.fileDataOffset, |bytes|))
              else Ok(RomFs(bytes, h))
  }

  /** A view whose tables were found inside the buffer. */
  predicate Opened(fs: RomFs) {
    |fs.bytes| <= USIZE_MAX && TablesInside(fs.header, |fs.bytes|)
  }

  function DirTable(fs: RomFs): seq<u8>
    requires Opened(fs)
  {
    fs.bytes[fs.header.dirMetaOffset..fs.header.dirMetaOffset + fs.header.dirMetaSize]
  }

  function FileTable(fs: RomFs): seq<u8>
    requires Opened(fs)
  {
    fs.bytes[fs.header.fileMetaOffset..fs.header.fileMetaOffset + fs.header.fileMetaSize]
  }

  // ---- Entries ----

  function DirFieldsAt(table: seq<u8>, at: nat): DirFields
    requires at + DIR_ENTRY_SIZE <= |table|
  {
    Layout.DirFields(U32At(table, at), U32At(table, at + 4), U32At(table, at + 8), U32At(table, at + 12),
                     U32At(table, at + 16), U32At(table, at + 20))
  }

  function FileFieldsAt(table: seq<u8>, at: nat): FileFields
    requires at + FILE_ENTRY_SIZE <= |table|
  {
    Layout.FileFields(U32At(table, at), U32At(table, at + 4), U64At(table, at + 8), U64At(table, at + 16),
                      U32At(table, at + 24), U32At(table, at + 28))
  }

  /**
   * The directory at a byte offset of its table. The table's length is checked against the entry and
   * then against the name; on a 64-bit machine the sum of a 32-bit offset, the entry's size and a
   * 32-bit length cannot overflow.
   */
  function DirFromOffset(fs: RomFs, offset: u32): (r: Result<DirView, OpenError>)
    requires Opened(fs)
    ensures r.Ok? ==> offset + DIR_ENTRY_SIZE + |r.value.name| <= fs.header.dirMetaSize
    ensures r.Err? ==> r.error.TableTooSmall?
  {
    var table, base := DirTable(fs), fs.header.dirMetaOffset;
    if offset >= |table| then Err(TableTooSmall(offset + DIR_ENTRY_SIZE, base + |table|))
    else if |table| - offset < DIR_ENTRY_SIZE then Err(TableTooSmall(offset + DIR_ENTRY_SIZE, base + |table|))
    else
      var entry := DirFieldsAt(table, offset);
      var nameEnd := offset + DIR_ENTRY_SIZE + entry.nameLen;
      if nameEnd > |table| then Err(TableTooSmall(base + nameEnd, base + |table|))
      else Ok(DirView(entry, table[offset + DIR_ENTRY_SIZE..nameEnd]))
  }

  function FileFromOffset(fs: RomFs, offset: u32): (r: Result<FileView, OpenError>)
    requires Opened(fs)
    ensures r.Ok? ==> offset + FILE_ENTRY_SIZE + |r.value.name| <= fs.header.fileMetaSize
    ensures r.Err? ==> r.error.TableTooSmall?
  {
    var table, base := FileTable(fs), fs.header.fileMetaOffset;
    if offset >= |table| then Err(TableTooSmall(offset + FILE_ENTRY_SIZE, base + |table|))
    else if |table| - offset < FILE_ENTRY_SIZE then Err(TableTooSmall(offset + FILE_ENTRY_SIZE, base + |table|))
    else
      var entry := FileFieldsAt(table, offset);
      var nameEnd := offset + FILE_ENTRY_SIZE + entry.nameLen;
      if nameEnd > |table| then Err(TableTooSmall(base + nameEnd, base + |table|))
      else Ok(FileView(entry, table[offset + FILE_ENTRY_SIZE..nameEnd]))
  }

  /** A directory is read exactly when its fields and then its name lie in the table, and it is what lies there. */
  lemma {:induction false} DirReadAt(fs: RomFs, offset: u32)
    requires Opened(fs)
    ensures var r, table := DirFromOffset(fs, offset), DirTable(fs);
      (r.Ok? <==> offset + DIR_ENTRY_SIZE <= |table| && offset + DIR_ENTRY_SIZE + U32At(table, offset + 20) <= |table|) &&
      (r.Ok? ==>
         r.value.entry == DirFieldsAt(table, offset) && |r.value.name| == U32At(table, offset + 20) &&
         Holds(table, offset + DIR_ENTRY_SIZE, r.value.name))
  {
    hide FromLe32;
  }

  lemma {:induction false} FileReadAt(fs: RomFs, offset: u32)
    requires Opened(fs)
    ensures var r, table := FileFromOffset(fs, offset), FileTable(fs);
      (r.Ok? <==> offset + FILE_ENTRY_SIZE <= |table| && offset + FILE_ENTRY_SIZE + U32At(table, offset + 28) <= |table|) &&
      (r.Ok? ==>
         r.value.entry == FileFieldsAt(table, offset) && |r.value.name| == U32At(table, offset + 28) &&
         Holds(table, offset + FILE_ENTRY_SIZE, r.value.name))
  {
    hide FromLe32, FromLe64;
  }

  function RootDir(fs: RomFs): Result<DirView, OpenError>
    requires Opened(fs)
  {
    DirFromOffset(fs, 0)
  }

  /** A file's bytes, its extent checked against the buffer first. */
  function Data(fs: RomFs, file: FileView): (r: Result<seq<u8>, FromBytesError>)
    requires Opened(fs)
    ensures r.Ok? <==> fs.header.fileDataOffset + file.entry.dataOffset + file.entry.dataSize <= |fs.bytes|
    ensures r.Ok? ==> |r.value| == file.entry.dataSize
  {
    var start := fs.header.fileDataOffset + file.entry.dataOffset;
    var end := start + file.entry.dataSize;
    if start > USIZE_MAX || end > USIZE_MAX then
      Err(FileDataBoundsOverflow(fs.header.fileDataOffset, file.entry.dataOffset, file.entry.dataSize))
    else if end > |fs.bytes| then Err(FileDataOutOfBounds(file.entry.dataOffset, file.entry.dataSize, |fs.bytes|))
    else Ok(fs.bytes[start..end])
  }

  /** The bytes are those of the file's extent, and the extent is refused for what is wrong with it. */
  lemma {:induction false} DataIsExtent(fs: RomFs, file: FileView)
    requires Opened(fs)
    ensures var r, at, size := Data(fs, file), fs.header.fileDataOffset + file.entry.dataOffset, file.entry.dataSize;
      (r.Ok? ==> |r.value| == size && Holds(fs.bytes, at, r.value)) &&
      (r.Err? ==>
         if at + size > USIZE_MAX then r.error == FileDataBoundsOverflow(fs.header.fileDataOffset, file.entry.dataOffset, size)
         else at + size > |fs.bytes| && r.error == FileDataOutOfBounds(file.entry.dataOffset, size, |fs.bytes|))
  {
  }

  // ---- Chains ----

  /** `chain` lists the directories met from `offset` on, up to the end or the first malformed one. */
  ghost predicate DirChain(fs: RomFs, offset: u32, chain: seq<u32>)
    requires Opened(fs)
    decreases |chain|
  {
    if offset == NO_ENTRY then chain == []
    else
      chain != [] && chain[0] == offset &&
      match DirFromOffset(fs, offset)
      case Err(_) => |chain| == 1
      case Ok(d) => DirChain(fs, d.entry.sibling, chain[1..])
  }

  ghost predicate FileChain(fs: RomFs, offset: u32, chain: seq<u32>)
    requires Opened(fs)
    decreases |chain|
  {
    if offset == NO_ENTRY then chain == []
    else
      chain != [] && chain[0] == offset &&
      match FileFromOffset(fs, offset)
      case Err(_) => |chain| == 1
      case Ok(f) => FileChain(fs, f.entry.sibling, chain[1..])
  }

  /** The first directory of the chain with this name. */
  function DirLookup(fs: RomFs, chain: seq<u32>, name: Str): Result<DirView, OpenError>
    requires Opened(fs)
  {
    if chain == [] then Err(DirNotFound)
    else
      match DirFromOffset(fs, chain[0])
      case Err(e) => Err(e)
      case Ok(d) => if d.name == name then Ok(d) else DirLookup(fs, chain[1..], name)
  }

  function FileLookup(fs: RomFs, chain: seq<u32>, name: Str): Result<FileView, OpenError>
    requires Opened(fs)
  {
    if chain == [] then Err(FileNotFound)
    else
      match FileFromOffset(fs, chain[0])
      case Err(e) => Err(e)
      case Ok(f) => if f.name == name then Ok(f) else FileLookup(fs, chain[1..], name)
  }

  lemma {:induction false} DirChainUnique(fs: RomFs, offset: u32, a: seq<u32>, b: seq<u32>)
    requires Opened(fs) && DirChain(fs, offset, a) && DirChain(fs, offset, b)
    ensures a == b
    decreases |a|
  {
    if offset != NO_ENTRY {
      match DirFromOffset(fs, offset)
      case Err(_) =>
      case Ok(d) =>
        DirChainUnique(fs, d.entry.sibling, a[1..], b[1..]);
        assert a == [a[0]] + a[1..] && b == [b[0]] + b[1..];
    }
  }

  lemma {:induction false} FileChainUnique(fs: RomFs, offset: u32, a: seq<u32>, b: seq<u32>)
    requires Opened(fs) && FileChain(fs, offset, a) && FileChain(fs, offset, b)
    ensures a == b
    decreases |a|
  {
    if offset != NO_ENTRY {
      match FileFromOffset(fs, offset)
      case Err(_) =>
      case Ok(f) =>
        FileChainUnique(fs, f.entry.sibling, a[1..], b[1..]);
        assert a == [a[0]] + a[1..] && b == [b[0]] + b[1..];
    }
  }

  // ---- Looking names up ----

  /** Walk the children of `dir`. The chain is finite: the source itself has no guard against a cyclic one. */
  method FindDir(fs: RomFs, dir: DirView, name: Str, ghost chain: seq<u32>) returns (r: Result<DirView, OpenError>)
    requires Opened(fs) && DirChain(fs, dir.entry.child, chain)
    ensures r == DirLookup(fs, chain, name)
  {
    var childOffset := dir.entry.child;
    ghost var rest := chain;
    while childOffset != NO_ENTRY
      invariant DirChain(fs, childOffset, rest) && DirLookup(fs, rest, name) == DirLookup(fs, chain, name)
      decreases |rest|
    {
      var child := DirFromOffset(fs, childOffset);
      if child.Err? {
        return Err(child.error);
      }
      if child.value.name == name {
        return child;
      }
      childOffset := child.value.entry.sibling;
      rest := rest[1..];
    }
    r := Err(DirNotFound);
  }

  method FindFile(fs: RomFs, dir: DirView, name: Str, ghost chain: seq<u32>) returns (r: Result<FileView, OpenError>)
    requires Opened(fs) && FileChain(fs, dir.entry.file, chain)
    ensures r == FileLookup(fs, chain, name)
  {
    var fileOffset := dir.entry.file;
    ghost var rest := chain;
    while fileOffset != NO_ENTRY
      invariant FileChain(fs, fileOffset, rest) && FileLookup(fs, rest, name) == FileLookup(fs, chain, name)
      decreases |rest|
    {
      var file := FileFromOffset(fs, fileOffset);
      if file.Err? {
        return Err(file.error);
      }
      if file.value.name == name {
        return file;
      }
      fileOffset := file.value.entry.sibling;
      rest := rest[1..];
    }
    r := Err(FileNotFound);
  }

  /** Descending from `dir` along `comps` meets finite chains only, and ends in `r`. */
  ghost predicate OpensTo(fs: RomFs, dir: DirView, comps: seq<Str>, r: Result<FileView, OpenError>)
    requires Opened(fs) && comps != []
    decreases |comps|
  {
    if |comps| == 1 then
      exists chain :: FileChain(fs, dir.entry.file, chain) && r == FileLookup(fs, chain, comps[0])
    else
      exists chain :: DirChain(fs, dir.entry.child, chain) &&
        match DirLookup(fs, chain, comps[0])
        case Err(e) => r == Err(e)
        case Ok(next) => OpensTo(fs, next, comps[1..], r)
  }

  /** There is at most one way for a descent to end. */
  lemma {:induction false} OpensToUnique(fs: RomFs, dir: DirView, comps: seq<Str>,
                                         a: Result<FileView, OpenError>, b: Result<FileView, OpenError>)
    requires Opened(fs) && comps != [] && OpensTo(fs, dir, comps, a) && OpensTo(fs, dir, comps, b)
    ensures a == b
    decreases |comps|
  {
    if |comps| == 1 {
      var x :| FileChain(fs, dir.entry.file, x) && a == FileLookup(fs, x, comps[0]);
      var y :| FileChain(fs, dir.entry.file, y) && b == FileLookup(fs, y, comps[0]);
      FileChainUnique(fs, dir.entry.file, x, y);
    } else {
      forall x, y | DirChain(fs, dir.entry.child, x) && DirChain(fs, dir.entry.child, y)
        ensures x == y
      {
        DirChainUnique(fs, dir.entry.child, x, y);
      }
      var x :| DirChain(fs, dir.entry.child, x);
      match DirLookup(fs, x, comps[0])
      case Err(_) =>
      case Ok(next) => OpensToUnique(fs, next, comps[1..], a, b);
    }
  }

  /** What opening `path` comes to, as a relation: it holds for no `r` when the walk never ends. */
  ghost predicate PathOpensTo(fs: RomFs, path: Str, r: Result<FileView, OpenError>)
    requires Opened(fs)
  {
    if TrimSlashes(path) == [] then r == Err(PathNotFound)
    else
      match RootDir(fs)
      case Err(e) => r == Err(e)
      case Ok(root) => OpensTo(fs, root, Split(TrimSlashes(path)), r)
  }

  /** Resolve a path from the root, one component at a time. */
  method Open(fs: RomFs, path: Str, ghost expected: Result<FileView, OpenError>) returns (r: Result<FileView, OpenError>)
    requires Opened(fs) && PathOpensTo(fs, path, expected)
    ensures r == expected
  {
    var trimmed := TrimSlashes(path);
    if trimmed == [] {
      return Err(PathNotFound);
    }
    var root := RootDir(fs);
    if root.Err? {
      return Err(root.error);
    }
    var current := root.value;
    var components := Split(trimmed);
    var last := None;
    assert components[0..] == components;
    for k := 0 to |components|
      invariant last == if k == 0 then None else Some(components[k - 1])
      invariant OpensTo(fs, current, components[if k == 0 then 0 else k - 1..], expected)
    {
      if last.Some? {
        ghost var rest := components[k - 1..];
        assert rest[1..] == components[k..];
        ghost var chain :| DirChain(fs, current.entry.child, chain) &&
          match DirLookup(fs, chain, rest[0])
          case Err(e) => expected == Err(e)
          case Ok(next) => OpensTo(fs, next, rest[1..], expected);
        var next := FindDir(fs, current, last.value, chain);
        if next.Err? {
          return Err(next.error);
        }
        current := next.value;
      }
      last := Some(components[k]);
    }
    ghost var chain :| FileChain(fs, current.entry.file, chain) && expected == FileLookup(fs, chain, last.value);
    r := FindFile(fs, current, last.value, chain);
  }

  // ---- Listing a directory ----

  datatype Entry = Dir(dir: DirView) | File(file: FileView)

  /** The directories of a chain that can be read, up to the first that cannot. */
  function Dirs(fs: RomFs, chain: seq<u32>): seq<Entry>
    requires Opened(fs)
  {
    if chain == [] then []
    else
      match DirFromOffset(fs, chain[0])
      case Err(_) => []
      case Ok(d) => [Dir(d)] + Dirs(fs, chain[1..])
  }

  function Files(fs: RomFs, chain: seq<u32>): seq<Entry>
    requires Opened(fs)
  {
    if chain == [] then []
    else
      match FileFromOffset(fs, chain[0])
      case Err(_) => []
      case Ok(f) => [File(f)] + Files(fs, chain[1..])
  }

  /** A walk over one directory: two cursors, moved as entries are yielded. */
  class DirIterator {
    const fs: RomFs
    var nextDirOffset: u32
    var nextFileOffset: u32
    ghost var dirChain: seq<u32>
    ghost var fileChain: seq<u32>

    ghost predicate Valid()
      reads this
    {
      Opened(fs) && DirChain(fs, nextDirOffset, dirChain) && FileChain(fs, nextFileOffset, fileChain)
    }

    /** Everything still to be yielded: subdirectories first, then files. */
    ghost function Remaining(): seq<Entry>
      requires Valid()
      reads this
    {
      Dirs(fs, dirChain) + Files(fs, fileChain)
    }

    constructor (fs: RomFs, dir: DirView, ghost dirChain: seq<u32>, ghost fileChain: seq<u32>)
      requires Opened(fs) && DirChain(fs, dir.entry.child, dirChain) && FileChain(fs, dir.entry.file, fileChain)
      ensures Valid() && Remaining() == Dirs(fs, dirChain) + Files(fs, fileChain)
    {
      this.fs := fs;
      nextDirOffset := dir.entry.child;
      nextFileOffset := dir.entry.file;
      this.dirChain := dirChain;
      this.fileChain := fileChain;
    }

    /** Yield the next entry. A malformed directory ends the directories but not the files. */
    method Next() returns (r: Option<Entry>)
      requires Valid()
      modifies this
      ensures Valid()
      ensures old(Remaining()) == [] ==> r == None && Remaining() == []
      ensures old(Remaining()) != [] ==> r == Some(old(Remaining())[0]) && Remaining() == old(Remaining())[1..]
    {
      hide DirFromOffset, FileFromOffset, Opened;
      if nextDirOffset != NO_ENTRY {
        var dir := DirFromOffset(fs, nextDirOffset);
        if dir.Ok? {
          nextDirOffset := dir.value.entry.sibling;
          dirChain := dirChain[1..];
          return Some(Dir(dir.value));
        }
      }
      if nextFileOffset != NO_ENTRY {
        var file := FileFromOffset(fs, nextFileOffset);
        if file.Ok? {
          nextFileOffset := file.value.entry.sibling;
          fileChain := fileChain[1..];
          return Some(File(file.value));
        }
      }
      r := None;
    }
  }
}
