/** The PFS0 archive of a sorted list of files: header, entry table, string table, data. */
module Pfs0Format {
  import opened Bytes
  import opened Packing
  import opened Order

  const PFS0_MAGIC: u32 := 0x3053_4650
  const HEADER_SIZE := 0x10
  const ENTRY_SIZE := 0x18
  const NAME_ALIGN := 0x20
  const NUL: u8 := 0
  const SLASH: u8 := 0x2F
  const BACKSLASH: u8 := 0x5C

  datatype FileEntry = FileEntry(name: Str, data: seq<u8>)

  /** A name the string table can hold: not empty, no terminator and no separator in it. */
  predicate IsName(name: Str) {
    name != [] && NUL !in name && SLASH !in name && BACKSLASH !in name
  }

  function Names(files: seq<FileEntry>): (ns: seq<Str>)
    ensures |ns| == |files| && forall i :: 0 <= i < |files| ==> ns[i] == files[i].name
  {
    seq(|files|, i requires 0 <= i < |files| => files[i].name)
  }

  ghost predicate NamesOk(files: seq<FileEntry>) {
    (forall i :: 0 <= i < |files| ==> IsName(files[i].name)) && Distinct(Names(files))
  }

  /** What is stored, by name. */
  ghost function Contents(files: seq<FileEntry>): (m: map<Str, seq<u8>>)
    requires Distinct(Names(files))
    ensures forall i :: 0 <= i < |files| ==> files[i].name in m && m[files[i].name] == files[i].data
    ensures forall n :: n in m ==> exists i :: 0 <= i < |files| && files[i].name == n
  {
    assert forall i :: 0 <= i < |files| ==> Names(files)[i] == files[i].name;
    map i | 0 <= i < |files| :: files[i].name := files[i].data
  }

  // ---- Regions ----

  function NameParts(files: seq<FileEntry>): (ps: seq<seq<u8>>)
    ensures |ps| == |files| && forall i :: 0 <= i < |files| ==> ps[i] == files[i].name + [NUL]
  {
    seq(|files|, i requires 0 <= i < |files| => files[i].name + [NUL])
  }

  function DataParts(files: seq<FileEntry>): (ps: seq<seq<u8>>)
    ensures |ps| == |files| && forall i :: 0 <= i < |files| ==> ps[i] == files[i].data
  {
    seq(|files|, i requires 0 <= i < |files| => files[i].data)
  }

  function StringTableSize(files: seq<FileEntry>): nat {
    AlignUp(|Concat(NameParts(files))|, NAME_ALIGN)
  }

  function TotalSize(files: seq<FileEntry>): nat {
    HEADER_SIZE + ENTRY_SIZE * |files| + StringTableSize(files) + |Concat(DataParts(files))|
  }

  /** The count and the string table's size fit their 32-bit fields, and the archive fits in memory. */
  predicate Fits(files: seq<FileEntry>) {
    |files| < 0x1_0000_0000 && StringTableSize(files) < 0x1_0000_0000 && TotalSize(files) <= USIZE_MAX
  }

  function EntryBytes(offset: u64, size: u64, nameOffset: u32): (b: seq<u8>)
    ensures |b| == ENTRY_SIZE
  {
    Longs([offset, size]) + Words([nameOffset, 0])
  }

  /** The entry of file `i`: offsets into the data region and the string table. */
  function EntryOf(files: seq<FileEntry>, i: nat): (b: seq<u8>)
    requires Fits(files) && i < |files|
    ensures |b| == ENTRY_SIZE
  {
    PartInConcat(DataParts(files), i);
    PartInConcat(NameParts(files), i);
    EntryBytes(StartOf(DataParts(files), i), |files[i].data|, StartOf(NameParts(files), i))
  }

  function EntryParts(files: seq<FileEntry>): (ps: seq<seq<u8>>)
    requires Fits(files)
    ensures |ps| == |files| && forall i :: 0 <= i < |files| ==> ps[i] == EntryOf(files, i) && |ps[i]| == ENTRY_SIZE
  {
    seq(|files|, i requires 0 <= i < |files| => EntryOf(files, i))
  }

  function HeaderBytes(files: seq<FileEntry>): (b: seq<u8>)
    requires Fits(files)
    ensures |b| == HEADER_SIZE
  {
    Words([PFS0_MAGIC, |files|, StringTableSize(files), 0])
  }

  function Image(files: seq<FileEntry>): seq<u8>
    requires Fits(files)
  {
    HeaderBytes(files) + Concat(EntryParts(files)) + PadTo(Concat(NameParts(files)), NAME_ALIGN) + Concat(DataParts(files))
  }

  // ---- Which image a set of files has ----

  /** Files in the order they are written. */
  ghost predicate IsSorted(files: seq<FileEntry>) {
    Ascending(Names(files)) && NamesOk(files)
  }

  ghost predicate ContentsFit(contents: map<Str, seq<u8>>) {
    forall files {:trigger IsSorted(files)} :: IsSorted(files) && Contents(files) == contents ==> Fits(files)
  }

  ghost predicate IsArchiveOf(image: seq<u8>, contents: map<Str, seq<u8>>) {
    exists files {:trigger IsSorted(files)} :: IsSorted(files) && Contents(files) == contents && Fits(files) && image == Image(files)
  }

  lemma {:induction false} NameStored(files: seq<FileEntry>, n: Str)
    requires Distinct(Names(files))
    ensures n in Names(files) <==> n in Contents(files)
  {
    hide Contents;
    if n in Names(files) {
      var i :| 0 <= i < |files| && Names(files)[i] == n;
      assert files[i].name in Contents(files);
    }
    if n in Contents(files) {
      var i :| 0 <= i < |files| && files[i].name == n;
      assert Names(files)[i] == n;
    }
  }

  lemma {:induction false} SortedIsCanonical(a: seq<FileEntry>, b: seq<FileEntry>)
    requires IsSorted(a) && IsSorted(b) && Contents(a) == Contents(b)
    ensures a == b
  {
    hide Contents, Ascending;
    forall n
      ensures n in Names(a) <==> n in Names(b)
    {
      NameStored(a, n);
      NameStored(b, n);
    }
    AscendingUnique(Names(a), Names(b));
    assert |a| == |Names(a)| == |b|;
    forall i | 0 <= i < |a|
      ensures a[i] == b[i]
    {
      assert Names(a)[i] == a[i].name && Names(b)[i] == b[i].name;
      assert Contents(a)[a[i].name] == a[i].data && Contents(b)[b[i].name] == b[i].data;
    }
  }

  /** One set of files has one archive, whatever order the files were added in. */
  lemma {:induction false} ArchiveIsCanonical(a: seq<u8>, b: seq<u8>, contents: map<Str, seq<u8>>)
    requires IsArchiveOf(a, contents) && IsArchiveOf(b, contents)
    ensures a == b
  {
    hide Ascending, Contents, Image, Fits;
    var f :| IsSorted(f) && Contents(f) == contents && Fits(f) && a == Image(f);
    var g :| IsSorted(g) && Contents(g) == contents && Fits(g) && b == Image(g);
    SortedIsCanonical(f, g);
  }
}
