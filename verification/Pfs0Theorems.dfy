/** What a built PFS0 archive promises its readers. */
module Pfs0Theorems {
  import opened Bytes
  import opened Packing
  import opened Order
  import opened Pfs0Format
  import opened Pfs0Build
  import Read = Pfs0Read

  lemma {:induction false} FourRegions(a: seq<u8>, b: seq<u8>, c: seq<u8>, d: seq<u8>)
    ensures var s := a + b + c + d; var n := |a| + |b|; var m := n + |c|;
      s[..|a|] == a && s[|a|..n] == b && s[n..m] == c && s[m..] == d
  {
  }

  /** The view the reader should have. */
  ghost predicate IsViewOf(p: Read.Pfs0, files: seq<FileEntry>)
    requires Fits(files)
  {
    |p.entries| == |files| && p.stringTable == PadTo(Concat(NameParts(files)), NAME_ALIGN) && p.data == Concat(DataParts(files)) &&
    forall i :: 0 <= i < |files| ==> EntryIs(p.entries[i], files, i)
  }

  ghost predicate EntryIs(e: Read.Entry, files: seq<FileEntry>, i: nat)
    requires i < |files|
  {
    e.offset == StartOf(DataParts(files), i) && e.size == |files[i].data| && e.nameOffset == StartOf(NameParts(files), i)
  }

  lemma {:induction false} EntryReads(bytes: seq<u8>, at: nat, offset: u64, size: u64, nameOffset: u32)
    requires at + ENTRY_SIZE <= |bytes| && bytes[at..at + ENTRY_SIZE] == EntryBytes(offset, size, nameOffset)
    ensures Read.EntryAt(bytes, at) == Read.Entry(offset, size, nameOffset)
  {
    hide Longs, Words, FromLe32, FromLe64;
    var xs, ws := [offset, size], [nameOffset, 0];
    var e := Longs(xs) + Words(ws);
    SliceOfSlice(bytes, at, at + ENTRY_SIZE, 0, 16);
    SliceOfSlice(bytes, at, at + ENTRY_SIZE, 16, 24);
    assert e[0..16] == Longs(xs) && e[16..24] == Words(ws);
    LongReads(bytes, at, xs, 0);
    LongReads(bytes, at, xs, 1);
    WordReads(bytes, at + 16, ws, 0);
  }

  lemma {:induction false} EntryInTable(bytes: seq<u8>, files: seq<FileEntry>, i: nat)
    requires Fits(files) && i < |files| && HEADER_SIZE + ENTRY_SIZE * |files| <= |bytes|
    requires bytes[HEADER_SIZE..HEADER_SIZE + ENTRY_SIZE * |files|] == Concat(EntryParts(files))
    ensures EntryIs(Read.EntryAt(bytes, HEADER_SIZE + ENTRY_SIZE * i), files, i)
  {
    hide Concat, EntryBytes, Fits, Read.EntryAt;
    EqualPartAt(EntryParts(files), ENTRY_SIZE, i);
    SliceOfSlice(bytes, HEADER_SIZE, HEADER_SIZE + ENTRY_SIZE * |files|, ENTRY_SIZE * i, ENTRY_SIZE * i + ENTRY_SIZE);
    NextFits(files, i);
    SizesAddUp(files);
    EntryReads(bytes, HEADER_SIZE + ENTRY_SIZE * i, StartOf(DataParts(files), i), |files[i].data|, StartOf(NameParts(files), i));
  }

  lemma {:induction false} HeaderReads(bytes: seq<u8>, files: seq<FileEntry>)
    requires Fits(files) && |bytes| >= HEADER_SIZE && bytes[..HEADER_SIZE] == HeaderBytes(files)
    ensures U32At(bytes, 0) == PFS0_MAGIC && U32At(bytes, 4) == |files| && U32At(bytes, 8) == StringTableSize(files)
  {
    hide Words, FromLe32, StringTableSize;
    var ws := [PFS0_MAGIC, |files|, StringTableSize(files), 0];
    assert bytes[0..0 + 4 * |ws|] == bytes[..HEADER_SIZE];
    WordReads(bytes, 0, ws, 0);
    WordReads(bytes, 0, ws, 1);
    WordReads(bytes, 0, ws, 2);
  }

  /** Each name is found terminated at its offset. */
  lemma {:induction false} NameInTable(files: seq<FileEntry>, i: nat)
    requires i < |files| && NUL !in files[i].name
    ensures var table, at := PadTo(Concat(NameParts(files)), NAME_ALIGN), StartOf(NameParts(files), i);
      at <= |table| && NUL in table[at..] && table[at..][..Read.NulAt(table[at..])] == files[i].name
  {
    hide Concat, AlignUp, Read.NulAt;
    var parts, name := NameParts(files), files[i].name;
    var all, at := Concat(parts), StartOf(parts, i);
    var table := PadTo(all, NAME_ALIGN);
    PartInConcat(parts, i);
    assert all[at..at + |name| + 1] == name + [NUL];
    assert table[..|all|] == all;
    assert table[at..at + |name| + 1] == table[..|all|][at..at + |name| + 1];
    TerminatedName(table[at..], name);
  }

  lemma {:induction false} TerminatedName(s: seq<u8>, name: Str)
    requires |s| > |name| && s[..|name| + 1] == name + [NUL] && NUL !in name
    ensures NUL in s && Read.NulAt(s) == |name| && s[..|name|] == name
  {
    var front := name + [NUL];
    assert s[..|name| + 1][0] == s[0] && s[..|name|] == s[..|name| + 1][..|name|] == name;
    if name == [] {
      assert s[0] == NUL;
    } else {
      assert s[0] == front[0] == name[0] && name[0] in name;
      assert s[1..][..|name|] == s[..|name| + 1][1..] == front[1..] == name[1..] + [NUL];
      TerminatedName(s[1..], name[1..]);
    }
  }

  /** The reader's view of an archive of these files is sound throughout. */
  lemma {:induction false} ViewAccepted(p: Read.Pfs0, files: seq<FileEntry>)
    requires Fits(files) && NamesOk(files) && IsViewOf(p, files)
    ensures Read.Accepted(p)
  {
    hide Concat, PadTo, Fits, StringTableSize;
    forall i | 0 <= i < |p.entries|
      ensures Read.EntryFault(i, p.entries[i], p.stringTable, |p.data|).None?
    {
      assert EntryIs(p.entries[i], files, i);
      NextFits(files, i);
      NameInTable(files, i);
    }
  }

  /** A built archive is accepted, and read as it was laid out. */
  lemma {:induction false} ArchiveReads(files: seq<FileEntry>) returns (p: Read.Pfs0)
    requires Fits(files) && NamesOk(files)
    ensures Read.TryFromBytes(Image(files)) == Ok(p) && Read.Accepted(p) && IsViewOf(p, files)
  {
    hide Concat, HeaderBytes, EntryParts, NameParts, DataParts, EntryIs, NamesOk, AlignUp, Read.EntryFault;
    var es, ns, ds := Concat(EntryParts(files)), PadTo(Concat(NameParts(files)), NAME_ALIGN), Concat(DataParts(files));
    EntryTableLength(files);
    FourRegions(HeaderBytes(files), es, ns, ds);
    var bytes := Image(files);
    HeaderReads(bytes, files);
    var tableEnd := HEADER_SIZE + ENTRY_SIZE * |files|;
    var entries := Read.EntriesAt(bytes, HEADER_SIZE, |files|);
    forall i | 0 <= i < |files|
      ensures EntryIs(entries[i], files, i)
    {
      EntryInTable(bytes, files, i);
    }
    p := Read.Pfs0(entries, ns, ds);
    ViewAccepted(p, files);
  }

  lemma {:induction false} EntryTableLength(files: seq<FileEntry>)
    requires Fits(files)
    ensures |Concat(EntryParts(files))| == ENTRY_SIZE * |files|
  {
    hide EntryOf;
    EqualPartsStart(EntryParts(files), ENTRY_SIZE, |files|);
    assert EntryParts(files)[..|files|] == EntryParts(files);
  }

  /** File `i` resolves to the `i`-th file in name order. */
  lemma {:induction false} ResolvesTo(p: Read.Pfs0, files: seq<FileEntry>, i: nat)
    requires Fits(files) && NamesOk(files) && IsViewOf(p, files) && Read.Accepted(p) && i < |files|
    ensures Read.Resolve(p, i) == Read.File(files[i].name, files[i].data)
  {
    hide Concat, PadTo, Fits;
    assert EntryIs(p.entries[i], files, i);
    PartInConcat(DataParts(files), i);
    NameInTable(files, i);
  }

  lemma {:induction false} FoundFrom(p: Read.Pfs0, files: seq<FileEntry>, k: nat, name: Str)
    requires Fits(files) && NamesOk(files) && IsViewOf(p, files) && Read.Accepted(p) && k <= |files|
    requires forall i :: 0 <= i < k ==> files[i].name != name
    ensures Read.FindFrom(p, k, name) == if name in Contents(files) then Some(Read.File(name, Contents(files)[name])) else None
    decreases |files| - k
  {
    hide Fits, Read.Accepted, Read.Resolve, Contents, EntryIs;
    if k < |files| {
      ResolvesTo(p, files, k);
      if files[k].name != name {
        FoundFrom(p, files, k + 1, name);
      }
    }
  }

  /** The round trip: the archive is accepted and each name finds its own bytes, any other name nothing. */
  lemma {:induction false} FileByNameFindsWhatIsStored(image: seq<u8>, contents: map<Str, seq<u8>>, name: Str) returns (p: Read.Pfs0)
    requires IsArchiveOf(image, contents)
    ensures Read.TryFromBytes(image) == Ok(p) && Read.Accepted(p)
    ensures Read.FileByName(p, name) == if name in contents then Some(Read.File(name, contents[name])) else None
  {
    hide Ascending, Fits, Image, Read.TryFromBytes, Contents, IsName;
    var files :| IsSorted(files) && Contents(files) == contents && Fits(files) && image == Image(files);
    p := ArchiveReads(files);
    FoundFrom(p, files, 0, name);
  }

  /** Listing an archive gives every file once, in name order. */
  lemma {:induction false} FilesInNameOrder(files: seq<FileEntry>) returns (p: Read.Pfs0)
    requires IsSorted(files) && Fits(files)
    ensures Read.TryFromBytes(Image(files)) == Ok(p) && Read.Accepted(p) && |p.entries| == |files|
    ensures forall i :: 0 <= i < |files| ==> Read.Resolve(p, i) == Read.File(files[i].name, files[i].data)
    ensures InByteOrder(Names(files))
  {
    AscendingIsByteOrder(Names(files));
    hide InByteOrder, Ascending, Fits, Image, Read.TryFromBytes, Read.Accepted, Read.Resolve, EntryIs;
    p := ArchiveReads(files);
    forall i | 0 <= i < |files|
      ensures Read.Resolve(p, i) == Read.File(files[i].name, files[i].data)
    {
      ResolvesTo(p, files, i);
    }
  }

  // ---- Which contents fit ----

  /** Every name has at most `longest` bytes, every file at most `largest`, and there are not too many. */
  predicate WithinBounds(contents: map<Str, seq<u8>>, longest: nat, largest: nat) {
    (forall n :: n in contents ==> |n| <= longest && |contents[n]| <= largest) &&
    |contents| * (longest + 1) < 0xFFFF_FFE0 && |contents| * largest <= 0x7FFF_FFFF_FFFF_FFFF
  }

  /** Contents within such bounds fit, which can be checked before building. */
  lemma {:induction false} BoundedContentsFit(contents: map<Str, seq<u8>>, longest: nat, largest: nat)
    requires WithinBounds(contents, longest, largest)
    ensures ContentsFit(contents)
  {
    hide Ascending, Fits, Contents, WithinBounds, IsName;
    forall files {:trigger IsSorted(files)} | IsSorted(files) && Contents(files) == contents
      ensures Fits(files)
    {
      BoundedFilesFit(files, contents, longest, largest);
    }
  }

  lemma {:induction false} BoundedFilesFit(files: seq<FileEntry>, contents: map<Str, seq<u8>>, longest: nat, largest: nat)
    requires NamesOk(files) && Contents(files) == contents && WithinBounds(contents, longest, largest)
    ensures Fits(files)
  {
    hide IsName, Fits, Concat;
    NoMoreFiles(files, contents);
    forall i | 0 <= i < |files|
      ensures |files[i].name| <= longest && |files[i].data| <= largest
    {
      assert files[i].name in contents && contents[files[i].name] == files[i].data;
    }
    RegionsAtMost(files, |contents|, longest, largest);
    SizesFit(files, |contents| * (longest + 1), |contents| * largest);
  }

  lemma {:induction false} NoMoreFiles(files: seq<FileEntry>, contents: map<Str, seq<u8>>)
    requires NamesOk(files) && Contents(files) == contents
    ensures |files| <= |contents|
  {
    hide IsName;
    forall i | 0 <= i < |files|
      ensures Names(files)[i] in contents.Keys
    {
      assert files[i].name in contents;
    }
    DistinctWithin(Names(files), contents.Keys);
  }

  lemma {:induction false} RegionsAtMost(files: seq<FileEntry>, count: nat, longest: nat, largest: nat)
    requires |files| <= count
    requires forall i :: 0 <= i < |files| ==> |files[i].name| <= longest && |files[i].data| <= largest
    ensures |files| <= count * (longest + 1)
    ensures |Concat(NameParts(files))| <= count * (longest + 1) && |Concat(DataParts(files))| <= count * largest
  {
    hide Concat;
    ConcatAtMost(NameParts(files), longest + 1);
    ConcatAtMost(DataParts(files), largest);
    TimesMonotone(|files|, count, longest + 1);
    TimesMonotone(|files|, count, largest);
    TimesMonotone(1, longest + 1, |files|);
  }

  lemma {:induction false} SizesFit(files: seq<FileEntry>, names: nat, data: nat)
    requires |Concat(NameParts(files))| <= names < 0xFFFF_FFE0 && |Concat(DataParts(files))| <= data <= 0x7FFF_FFFF_FFFF_FFFF
    requires |files| <= names
    ensures Fits(files)
  {
    hide Concat;
  }
}
