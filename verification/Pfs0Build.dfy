/** The PFS0 builder: names checked as files are added, the archive written into a zeroed buffer. */
module Pfs0Build {
  import opened Bytes
  import opened Packing
  import opened Buffers
  import opened Order
  import opened Pfs0Format

  datatype Reason = NullByte | PathSeparator

  datatype AddFileError = EmptyFileName | InvalidFileName(name: Str, reason: Reason) | DuplicateFile(name: Str)

  /** What adding `name` answers when `contents` is what is stored already. */
  function AddResult(name: Str, contents: map<Str, seq<u8>>): (r: Result<(), AddFileError>)
    ensures r.Ok? <==> IsName(name) && name !in contents
  {
    if name == [] then Err(EmptyFileName)
    else if NUL in name then Err(InvalidFileName(name, NullByte))
    else if SLASH in name || BACKSLASH in name then Err(InvalidFileName(name, PathSeparator))
    else if name in contents then Err(DuplicateFile(name))
    else Ok(())
  }

  // ---- Filling the zeroed archive ----

  /** Writing at the front of a run of zeros. */
  lemma {:induction false} WriteOverZeros(front: seq<u8>, x: seq<u8>, n: nat, back: seq<u8>, s: seq<u8>)
    requires |s| <= n
    ensures Spliced(front + (x + Zeros(n)) + back, |front| + |x|, s) == front + (x + s + Zeros(n - |s|)) + back
  {
    var b, r := front + (x + Zeros(n)) + back, front + (x + s + Zeros(n - |s|)) + back;
    var at := |front| + |x|;
    assert b[..at] == front + x;
    assert b[at + |s|..] == Zeros(n - |s|) + back;
  }

  /** A name written over zeros comes out terminated. */
  lemma {:induction false} TerminatorIsThere(x: seq<u8>, name: Str, n: nat)
    requires |name| < n
    ensures x + name + Zeros(n - |name|) == (x + (name + [NUL])) + Zeros(n - |name| - 1)
  {
    assert Zeros(n - |name|) == [NUL] + Zeros(n - |name| - 1);
  }

  /** The archive with the first `i` files written and zeros where the rest will go. */
  ghost function Partly(files: seq<FileEntry>, i: nat): seq<u8>
    requires Fits(files) && i <= |files|
  {
    HeaderBytes(files) + Filled(EntryParts(files), i, ENTRY_SIZE * |files|) +
    Filled(NameParts(files), i, StringTableSize(files)) + Filled(DataParts(files), i, |Concat(DataParts(files))|)
  }

  ghost function Filled(parts: seq<seq<u8>>, i: nat, size: nat): seq<u8>
    requires i <= |parts|
  {
    if |Concat(parts[..i])| <= size then Concat(parts[..i]) + Zeros(size - |Concat(parts[..i])|) else []
  }

  // ---- The builder ----

  class Pfs0Builder {
    var files: seq<FileEntry>

    ghost predicate Valid()
      reads this
    {
      NamesOk(files)
    }

    constructor ()
      ensures Valid() && Contents(files) == map[]
    {
      files := [];
    }

    method HasName(name: Str) returns (r: bool)
      ensures r <==> name in Names(files)
    {
      for i := 0 to |files|
        invariant forall k :: 0 <= k < i ==> files[k].name != name
      {
        if files[i].name == name {
          assert Names(files)[i] == name;
          return true;
        }
      }
      r := false;
    }

    /** Store `data` under `name`, unless the name cannot be stored or is taken. */
    method AddFile(name: Str, data: seq<u8>) returns (r: Result<(), AddFileError>)
      requires Valid()
      modifies this
      ensures Valid() && r == AddResult(name, old(Contents(files)))
      ensures if r.Ok? then Contents(files) == old(Contents(files))[name := data] else files == old(files)
    {
      hide Contents;
      if name == [] {
        return Err(EmptyFileName);
      }
      if NUL in name {
        return Err(InvalidFileName(name, NullByte));
      }
      if SLASH in name || BACKSLASH in name {
        return Err(InvalidFileName(name, PathSeparator));
      }
      NameStored(files, name);
      var taken := HasName(name);
      if taken {
        return Err(DuplicateFile(name));
      }
      PushKeepsNames(files, FileEntry(name, data));
      files := files + [FileEntry(name, data)];
      r := Ok(());
    }

    /** Sort by name and write the archive; nothing can be wrong with the entries any more. */
    method Build() returns (image: seq<u8>)
      requires Valid() && ContentsFit(Contents(files))
      modifies this
      ensures IsSorted(files) && Contents(files) == old(Contents(files)) && Fits(files) && image == Image(files)
      ensures IsArchiveOf(image, old(Contents(files)))
    {
      hide Contents, IsName, Fits, Image, Ascending;
      ghost var contents := Contents(files);
      var order := Sort(Indices(|files|), Names(files));
      SortedFiles(files, order);
      files := Arranged(files, order);
      FitsSorted(files, contents);
      image := Write(files);
    }
  }

  lemma {:induction false} FitsSorted(files: seq<FileEntry>, contents: map<Str, seq<u8>>)
    requires IsSorted(files) && Contents(files) == contents && ContentsFit(contents)
    ensures Fits(files)
  {
  }

  lemma {:induction false} PushKeepsNames(files: seq<FileEntry>, f: FileEntry)
    requires NamesOk(files) && IsName(f.name) && f.name !in Names(files)
    ensures NamesOk(files + [f]) && Contents(files + [f]) == Contents(files)[f.name := f.data]
  {
    hide Contents;
    var all := files + [f];
    assert Names(all) == Names(files) + [f.name];
    var m := Contents(files)[f.name := f.data];
    forall n | n in Contents(all)
      ensures n in m && m[n] == Contents(all)[n]
    {
      var i :| 0 <= i < |all| && all[i].name == n;
      assert Contents(all)[all[i].name] == all[i].data;
      if i < |files| {
        assert all[i] == files[i] && Names(files)[i] == n;
      }
    }
    forall n | n in m
      ensures n in Contents(all)
    {
      NameStored(all, n);
      NameStored(files, n);
      assert Names(all)[|files|] == f.name;
    }
  }

  /** Rearranging the files by name sorts them and stores the same. */
  lemma {:induction false} SortedFiles(files: seq<FileEntry>, order: seq<nat>)
    requires NamesOk(files) && order == Sort(Indices(|files|), Names(files))
    ensures InRange(order, |files|) && IsSorted(Arranged(files, order)) && Contents(Arranged(files, order)) == Contents(files)
  {
    hide Contents, Ascending, Sort;
    SortedOrder(Names(files), order);
    var now := Arranged(files, order);
    assert Names(now) == KeysOf(order, Names(files));
    AscendingKeysDistinct(Names(now));
    forall n | n in Contents(now)
      ensures n in Contents(files) && Contents(files)[n] == Contents(now)[n]
    {
      var k :| 0 <= k < |now| && now[k].name == n;
      assert now[k] == files[order[k]];
      assert Contents(now)[now[k].name] == now[k].data && Contents(files)[files[order[k]].name] == files[order[k]].data;
    }
    forall n | n in Contents(files)
      ensures n in Contents(now)
    {
      var i :| 0 <= i < |files| && files[i].name == n;
      assert i in order;
      var k :| 0 <= k < |order| && order[k] == i;
      assert now[k].name == n;
    }
  }

  // ---- Writing ----

  method SumOfLengths(parts: seq<seq<u8>>) returns (n: nat)
    ensures n == |Concat(parts)|
  {
    n := 0;
    for i := 0 to |parts|
      invariant n == StartOf(parts, i)
    {
      PartInConcat(parts, i);
      n := n + |parts[i]|;
    }
    assert parts[..|parts|] == parts;
  }

  method Write(files: seq<FileEntry>) returns (image: seq<u8>)
    requires Fits(files)
    ensures image == Image(files)
  {
    hide Fits, Image, HeaderBytes, EntryOf, EntryBytes, StringTableSize, TotalSize, Concat, Words, Longs, Spliced, Partly, AlignUp;
    SizesAddUp(files);
    var fileTableEnd := HEADER_SIZE + ENTRY_SIZE * |files|;
    var rawNames := SumOfLengths(NameParts(files));
    var stringTableSize := AlignUp(rawNames, NAME_ALIGN);
    var dataStart := fileTableEnd + stringTableSize;
    var totalData := SumOfLengths(DataParts(files));
    var buf := new u8[dataStart + totalData](_ => 0);
    var header := Words([PFS0_MAGIC, |files|, stringTableSize, 0]);
    HeaderFirst(files, buf[..], header);
    CopyInto(buf, 0, header);
    var stringOffset, dataOffset := 0, 0;
    for i := 0 to |files|
      invariant stringOffset == StartOf(NameParts(files), i) && dataOffset == StartOf(DataParts(files), i)
      invariant buf[..] == Partly(files, i)
    {
      var file := files[i];
      NextFits(files, i);
      var entry := EntryBytes(dataOffset, |file.data|, stringOffset);
      ghost var was := buf[..];
      CopyInto(buf, HEADER_SIZE + ENTRY_SIZE * i, entry);
      CopyInto(buf, fileTableEnd + stringOffset, file.name);
      CopyInto(buf, dataStart + dataOffset, file.data);
      NextWritten(files, i, entry);
      stringOffset := stringOffset + |file.name| + 1;
      dataOffset := dataOffset + |file.data|;
    }
    AllWritten(files);
    image := buf[..];
  }

  lemma {:induction false} SizesAddUp(files: seq<FileEntry>)
    requires Fits(files)
    ensures |files| < 0x1_0000_0000 && StringTableSize(files) < 0x1_0000_0000
    ensures StringTableSize(files) == AlignUp(|Concat(NameParts(files))|, NAME_ALIGN)
    ensures TotalSize(files) == HEADER_SIZE + ENTRY_SIZE * |files| + StringTableSize(files) + |Concat(DataParts(files))|
    ensures HeaderBytes(files) == Words([PFS0_MAGIC, |files|, StringTableSize(files), 0])
  {
  }

  lemma {:induction false} HeaderFirst(files: seq<FileEntry>, zeroed: seq<u8>, header: seq<u8>)
    requires Fits(files) && header == HeaderBytes(files) && |zeroed| == TotalSize(files)
    requires forall k :: 0 <= k < |zeroed| ==> zeroed[k] == 0
    ensures Spliced(zeroed, 0, header) == Partly(files, 0)
    ensures StartOf(NameParts(files), 0) == StartOf(DataParts(files), 0) == 0
  {
    hide HeaderBytes, EntryOf;
    var e, s, d := ENTRY_SIZE * |files|, StringTableSize(files), |Concat(DataParts(files))|;
    assert EntryParts(files)[..0] == [] && NameParts(files)[..0] == [] && DataParts(files)[..0] == [];
    assert Filled(EntryParts(files), 0, e) == Zeros(e) && Filled(NameParts(files), 0, s) == Zeros(s);
    assert Filled(DataParts(files), 0, d) == Zeros(d);
    assert zeroed[HEADER_SIZE..] == Zeros(e) + Zeros(s) + Zeros(d);
  }

  /** File `i` has room in every region. */
  lemma {:induction false} NextFits(files: seq<FileEntry>, i: nat)
    requires Fits(files) && i < |files|
    ensures HEADER_SIZE + ENTRY_SIZE * i + ENTRY_SIZE <= HEADER_SIZE + ENTRY_SIZE * |files|
    ensures StartOf(NameParts(files), i) + |files[i].name| + 1 == StartOf(NameParts(files), i + 1) <= StringTableSize(files)
    ensures StartOf(DataParts(files), i) + |files[i].data| == StartOf(DataParts(files), i + 1) <= |Concat(DataParts(files))| <= USIZE_MAX
    ensures EntryOf(files, i) == EntryBytes(StartOf(DataParts(files), i), |files[i].data|, StartOf(NameParts(files), i))
  {
    hide Concat;
    PartInConcat(NameParts(files), i);
    PartInConcat(DataParts(files), i);
  }

  lemma {:induction false} FilledNext(parts: seq<seq<u8>>, i: nat, size: nat)
    requires i < |parts| && StartOf(parts, i) + |parts[i]| <= size
    ensures Filled(parts, i, size) == Concat(parts[..i]) + Zeros(size - StartOf(parts, i))
    ensures Filled(parts, i + 1, size) == Concat(parts[..i]) + parts[i] + Zeros(size - StartOf(parts, i) - |parts[i]|)
    ensures |Filled(parts, i, size)| == |Filled(parts, i + 1, size)| == size
  {
    TakeOneMore(parts, i);
    ConcatSnoc(parts[..i], parts[i]);
  }

  lemma {:induction false} NextWritten(files: seq<FileEntry>, i: nat, entry: seq<u8>)
    requires Fits(files) && i < |files| && entry == EntryOf(files, i) && |Partly(files, i)| == TotalSize(files)
    requires StartOf(NameParts(files), i) + |files[i].name| < StringTableSize(files)
    requires StartOf(DataParts(files), i) + |files[i].data| <= |Concat(DataParts(files))|
    ensures var table := HEADER_SIZE + ENTRY_SIZE * |files|; var start := table + StringTableSize(files);
      var a := Spliced(Partly(files, i), HEADER_SIZE + ENTRY_SIZE * i, entry);
      var b := Spliced(a, table + StartOf(NameParts(files), i), files[i].name);
      Spliced(b, start + StartOf(DataParts(files), i), files[i].data) == Partly(files, i + 1)
  {
    hide Concat, Fits, HeaderBytes, EntryOf, StringTableSize, TotalSize, Spliced, Filled;
    var es, ns, ds := EntryParts(files), NameParts(files), DataParts(files);
    var e, s, d := ENTRY_SIZE * |files|, StringTableSize(files), |Concat(ds)|;
    var h, n := HeaderBytes(files), StartOf(ns, i);
    EqualPartsStart(es, ENTRY_SIZE, i);
    FilledNext(es, i, e);
    FilledNext(ns, i, s);
    FilledNext(ds, i, d);
    var e0, e1, n0, n1, d0, d1 := Filled(es, i, e), Filled(es, i + 1, e), Filled(ns, i, s), Filled(ns, i + 1, s), Filled(ds, i, d), Filled(ds, i + 1, d);
    WriteOverZeros(h, Concat(es[..i]), e - ENTRY_SIZE * i, n0 + d0, entry);
    AppendIsAssociative(h + e0, n0, d0);
    AppendIsAssociative(h + e1, n0, d0);
    WriteOverZeros(h + e1, Concat(ns[..i]), s - n, d0, files[i].name);
    TerminatorIsThere(Concat(ns[..i]), files[i].name, s - n);
    assert n1 == Concat(ns[..i]) + files[i].name + Zeros(s - n - |files[i].name|);
    WriteOverZeros(h + e1 + n1, Concat(ds[..i]), d - StartOf(ds, i), [], files[i].data);
    assert h + e1 + n1 + d0 + [] == h + e1 + n1 + d0 && h + e1 + n1 + d1 + [] == h + e1 + n1 + d1;
  }

  lemma {:induction false} AllWritten(files: seq<FileEntry>)
    requires Fits(files)
    ensures Partly(files, |files|) == Image(files)
  {
    hide Concat, HeaderBytes, EntryOf;
    var es, ns, ds := EntryParts(files), NameParts(files), DataParts(files);
    EqualPartsStart(es, ENTRY_SIZE, |files|);
    assert es[..|files|] == es && ns[..|files|] == ns && ds[..|files|] == ds;
  }
}
