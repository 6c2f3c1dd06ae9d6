/** The PFS0 archive in plain numbers: which names it takes, and which byte holds what. */
module Pfs0Numbers {
  import opened Bytes
  import opened Packing
  import opened Order
  import opened Pfs0Format
  import opened Pfs0Build
  import opened Pfs0Theorems
  import Read = Pfs0Read

  /** A name is taken when it is new, not empty, and without the bytes 0, 0x2F and 0x5C. */
  lemma {:induction false} NamesInNumbers(name: Str, contents: map<Str, seq<u8>>)
    ensures AddResult(name, contents) ==
      if name == [] then Err(EmptyFileName)
      else if 0 in name then Err(InvalidFileName(name, NullByte))
      else if 0x2F in name || 0x5C in name then Err(InvalidFileName(name, PathSeparator))
      else if name in contents then Err(DuplicateFile(name))
      else Ok(())
  {
  }

  /** `PFS0`, the file count, the string table's size - a multiple of 0x20 - and a zero word. */
  lemma {:induction false} HeaderInNumbers(files: seq<FileEntry>)
    requires Fits(files)
    ensures var b, names := Image(files), |Concat(NameParts(files))|;
      |b| >= 0x10 && b[..4] == [0x50, 0x46, 0x53, 0x30] && U32At(b, 4) == |files| &&
      U32At(b, 8) == (names + 0x1F) / 0x20 * 0x20 && U32At(b, 12) == 0
  {
    hide Words, FromLe32, Concat, EntryParts, NameParts, DataParts, StringTableSize;
    var b, ws := Image(files), [PFS0_MAGIC, |files|, StringTableSize(files), 0];
    var tail := Concat(EntryParts(files)) + PadTo(Concat(NameParts(files)), NAME_ALIGN) + Concat(DataParts(files));
    assert b == HeaderBytes(files) + tail;
    assert b[0..0 + 4 * |ws|] == Words(ws);
    WordReads(b, 0, ws, 0);
    WordReads(b, 0, ws, 1);
    WordReads(b, 0, ws, 2);
    WordReads(b, 0, ws, 3);
    Magic(b);
    TableSize(files);
  }

  lemma {:induction false} TableSize(files: seq<FileEntry>)
    ensures StringTableSize(files) == (|Concat(NameParts(files))| + 0x1F) / 0x20 * 0x20
  {
    hide Concat;
  }

  lemma {:induction false} Magic(b: seq<u8>)
    requires |b| >= 4 && U32At(b, 0) == PFS0_MAGIC
    ensures b[..4] == [0x50, 0x46, 0x53, 0x30]
  {
    assert b[0..4] == b[..4];
    var b0: int, b1: int, b2: int, b3: int := b[0], b[1], b[2], b[3];
    assert b0 + 0x100 * (b1 + 0x100 * (b2 + 0x100 * b3)) == 0x3053_4650;
  }

  /** Names follow each other with a zero byte between, contents with nothing between. */
  lemma {:induction false} OffsetsInNumbers(files: seq<FileEntry>, i: nat)
    requires i < |files|
    ensures StartOf(NameParts(files), 0) == 0 && StartOf(DataParts(files), 0) == 0
    ensures StartOf(NameParts(files), i + 1) == StartOf(NameParts(files), i) + |files[i].name| + 1
    ensures StartOf(DataParts(files), i + 1) == StartOf(DataParts(files), i) + |files[i].data|
  {
    hide Concat;
    PartInConcat(NameParts(files), i);
    PartInConcat(DataParts(files), i);
    StartsAtZero(NameParts(files));
    StartsAtZero(DataParts(files));
  }

  lemma {:induction false} StartsAtZero(parts: seq<seq<u8>>)
    ensures StartOf(parts, 0) == 0
  {
    assert parts[..0] == [];
  }

  /**
   * File `i`: 0x18 bytes of entry - where its contents start in the data region, how long they are, where its
   * name starts in the string table, and a zero word - its name with a zero byte behind it, and its contents.
   */
  lemma {:induction false} FileInNumbers(files: seq<FileEntry>, i: nat)
    requires Fits(files) && i < |files|
    ensures var b, at := Image(files), 0x10 + 0x18 * i;
      var strings := 0x10 + 0x18 * |files|;
      var data := strings + StringTableSize(files);
      at + 0x18 <= strings <= data <= |b| &&
      U64At(b, at) == StartOf(DataParts(files), i) && U64At(b, at + 8) == |files[i].data| &&
      U32At(b, at + 16) == StartOf(NameParts(files), i) && U32At(b, at + 20) == 0 &&
      Holds(b, strings + StartOf(NameParts(files), i), files[i].name + [0]) && Holds(b, data + StartOf(DataParts(files), i), files[i].data)
  {
    hide Words, Longs, FromLe32, FromLe64, Concat, EntryParts, NameParts, DataParts, StringTableSize, HeaderBytes, Fits, Holds;
    var b := Image(files);
    EntryTableLength(files);
    var h, es, ns, ds := HeaderBytes(files), Concat(EntryParts(files)), PadTo(Concat(NameParts(files)), NAME_ALIGN), Concat(DataParts(files));
    SizesAddUp(files);
    assert Holds(b, 0, h + es + ns + ds) by { WholeHeld(h + es + ns + ds); }
    HoldsMiddle(b, 0, h + es, ns, ds);
    HoldsMiddle(b, 0, h, es, []) by { assert h + es + [] == h + es; }
    EntryHeld(files, b, i);
    NameHeld(files, b, 0x10 + 0x18 * |files|, i);
    DataHeld(files, b, 0x10 + 0x18 * |files| + StringTableSize(files), i);
  }

  lemma {:induction false} WholeHeld(b: seq<u8>)
    ensures Holds(b, 0, b)
  {
    assert b[0..|b|] == b;
  }

  lemma {:induction false} EntryHeld(files: seq<FileEntry>, b: seq<u8>, i: nat)
    requires Fits(files) && i < |files| && Holds(b, 0x10, Concat(EntryParts(files)))
    ensures var at := 0x10 + 0x18 * i;
      at + 0x18 <= |b| && U64At(b, at) == StartOf(DataParts(files), i) && U64At(b, at + 8) == |files[i].data| &&
      U32At(b, at + 16) == StartOf(NameParts(files), i) && U32At(b, at + 20) == 0
  {
    hide Words, Longs, FromLe32, FromLe64, Concat, Fits;
    PartsRead(b, 0x10, EntryParts(files), ENTRY_SIZE, i);
    NextFits(files, i);
    SizesAddUp(files);
    var at := 0x10 + 0x18 * i;
    var xs, ws := [StartOf(DataParts(files), i), |files[i].data|], [StartOf(NameParts(files), i), 0];
    HoldsMiddle(b, at, Longs(xs), Words(ws), []) by { assert Longs(xs) + Words(ws) + [] == EntryOf(files, i); }
    LongReads(b, at, xs, 0);
    LongReads(b, at, xs, 1);
    WordReads(b, at + 16, ws, 0);
    WordReads(b, at + 16, ws, 1);
  }

  lemma {:induction false} NameHeld(files: seq<FileEntry>, b: seq<u8>, strings: nat, i: nat)
    requires i < |files| && Holds(b, strings, PadTo(Concat(NameParts(files)), NAME_ALIGN))
    ensures Holds(b, strings + StartOf(NameParts(files), i), files[i].name + [0])
  {
    hide Concat, AlignUp;
    var parts := NameParts(files);
    PartInConcat(parts, i);
    HoldsPart(b, strings, PadTo(Concat(parts), NAME_ALIGN), 0, Concat(parts)) by {
      var padded := PadTo(Concat(parts), NAME_ALIGN);
      assert padded[0..0 + |Concat(parts)|] == padded[..|Concat(parts)|];
    }
    HoldsPart(b, strings, Concat(parts), StartOf(parts, i), parts[i]);
  }

  lemma {:induction false} DataHeld(files: seq<FileEntry>, b: seq<u8>, data: nat, i: nat)
    requires i < |files| && Holds(b, data, Concat(DataParts(files)))
    ensures Holds(b, data + StartOf(DataParts(files), i), files[i].data)
  {
    hide Concat;
    var parts := DataParts(files);
    PartInConcat(parts, i);
    HoldsPart(b, data, Concat(parts), StartOf(parts, i), parts[i]);
  }

  /** What the header locates: 0x18 bytes an entry from 0x10 on, then the string table, then the data. */
  lemma {:induction false} TablesInNumbers(b: seq<u8>)
    ensures Read.HasTables(b) <==>
      |b| >= 0x10 && b[..4] == [0x50, 0x46, 0x53, 0x30] && 0x10 + 0x18 * U32At(b, 4) + U32At(b, 8) <= |b|
    ensures Read.HasTables(b) ==>
      var p, n, s := Read.View(b), U32At(b, 4), U32At(b, 8);
      |p.entries| == n && |p.stringTable| == s && Holds(b, 0x10 + 0x18 * n, p.stringTable) && Holds(b, 0x10 + 0x18 * n + s, p.data) &&
      forall i :: 0 <= i < n ==>
        p.entries[i] == Read.Entry(U64At(b, 0x10 + 0x18 * i), U64At(b, 0x18 + 0x18 * i), U32At(b, 0x20 + 0x18 * i))
  {
    hide FromLe32, FromLe64;
    if |b| >= 0x10 {
      MagicIff(b);
    }
  }

  lemma {:induction false} MagicIff(b: seq<u8>)
    requires |b| >= 4
    ensures U32At(b, 0) == PFS0_MAGIC <==> b[..4] == [0x50, 0x46, 0x53, 0x30]
  {
    if U32At(b, 0) == PFS0_MAGIC {
      Magic(b);
    }
    assert b[0..4] == b[..4];
  }
}
