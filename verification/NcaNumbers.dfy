/** The NCA in plain numbers: which byte of a built archive holds what, and what the reader makes of any byte there. */
module NcaNumbers {
  import opened Bytes
  import opened Packing
  import opened HashBlocks
  import opened NcaFormat
  import opened NcaBuild
  import opened NcaTheorems
  import Read = NcaRead
  import Ivfc
  import Partition

  // ---- What the reader makes of an FS header ----

  /**
   * Verification kind 2 takes the extent at 0x38 and 0x40 of the superblock, kind 3 that of the level two
   * below the level count at 0xC, which has to be from 2 to 7.
   */
  lemma {:induction false} ExtentInNumbers(index: nat, f: FsHeader)
    ensures f.hashType == 2 ==> Read.DataExtent(index, f) == Ok((U64At(f.superblock, 0x38), U64At(f.superblock, 0x40)))
    ensures f.hashType == 3 ==>
      var levels := U32At(f.superblock, 0xC);
      if levels < 2 || levels > 7 then Read.DataExtent(index, f) == Err(Read.IvfcLevelCountInvalid(index, levels))
      else
        var at := 0x10 + 0x18 * (levels - 2);
        Read.DataExtent(index, f) == Ok((U64At(f.superblock, at), U64At(f.superblock, at + 8)))
  {
    hide FromLe32, FromLe64;
  }

  /** The extent is the data's, exactly when it ends inside the section. */
  lemma {:induction false} RangeInNumbers(index: nat, f: FsHeader, sectionSize: nat, offset: u64, size: u64)
    requires Read.DataExtent(index, f) == Ok((offset, size)) && sectionSize <= USIZE_MAX
    ensures Read.DataRange(index, f, sectionSize) ==
      if offset + size <= sectionSize then Ok(Read.Range(offset, offset + size))
      else Err(Read.DataRegionOutOfBounds(index, offset, size, sectionSize))
  {
    hide Read.DataExtent;
  }

  /** A slot is checked as to place, then as to encryption, 1 to 4, then as to verification, 2 or 3, then as to data. */
  lemma {:induction false} SlotInNumbers(index: nat, e: SectionEntry, f: FsHeader, available: nat)
    ensures var fault, start, end := Read.SectionFault(index, e, f, available), 0x200 * e.mediaStart, 0x200 * e.mediaEnd;
      if e.mediaEnd == 0 then fault == None
      else if end < start || start < 0xC00 then fault == Some(Read.SectionBoundsInvalid(index, start, end))
      else if end > available then fault == Some(Read.SectionOutOfBounds(index, start, end, available))
      else if f.cryptType < 1 || f.cryptType > 4 then fault == Some(Read.UnknownCryptType(index, f.cryptType))
      else if f.hashType < 2 || f.hashType > 3 then fault == Some(Read.UnknownHashType(index, f.hashType))
      else
        var data := Read.DataRange(index, f, end - start);
        fault == if data.Err? then Some(data.error) else None
  {
    hide Read.DataRange;
  }

  /** Where the reader takes a slot's fields from. */
  lemma {:induction false} SlotFieldsAt(b: seq<u8>, i: nat)
    requires |b| >= 0xC00 && i < 4
    ensures var h, at := HeaderAt(b), 0x400 + 0x200 * i;
      h.magic == U32At(b, 0x200) && h.contentType == b[0x205] && h.entries[i].mediaEnd == U32At(b, 0x244 + 0x10 * i) &&
      h.fsHeaders[i].hashType == b[at + 3] && h.fsHeaders[i].cryptType == b[at + 4] && FourSlots(h)
  {
    hide FromLe32, FromLe64;
  }

  /** In an accepted buffer every occupied slot has such kinds, at these bytes. */
  lemma {:induction false} AcceptedKinds(b: seq<u8>, i: nat)
    requires Read.TryFromBytes(b).Ok? && i < 4 && U32At(b, 0x244 + 0x10 * i) != 0
    ensures b[0x200..0x204] == [0x4E, 0x43, 0x41, 0x33] && b[0x205] <= 5
    ensures var at := 0x400 + 0x200 * i; (b[at + 3] == 2 || b[at + 3] == 3) && 1 <= b[at + 4] <= 4
  {
    hide Read.SectionFault, HeaderAt, U32At, Read.DataRange;
    var h := HeaderAt(b);
    SlotFieldsAt(b, i);
    SlotInNumbers(i, h.entries[i], h.fsHeaders[i], |b|);
    assert Read.SectionFault(i, h.entries[i], h.fsHeaders[i], |b|).None?;
    FourBytes(b, 0x200);
    Nca3(b[0x200], b[0x201], b[0x202], b[0x203]);
  }

  /** A word read, as its bytes. */
  lemma {:induction false} FourBytes(b: seq<u8>, at: nat)
    requires at + 4 <= |b|
    ensures b[at..at + 4] == [b[at], b[at + 1], b[at + 2], b[at + 3]] && U32At(b, at) == FromLe32([b[at], b[at + 1], b[at + 2], b[at + 3]])
  {
    hide FromLe32;
  }

  lemma {:induction false} Nca3(b0: u8, b1: u8, b2: u8, b3: u8)
    ensures FromLe32([b0, b1, b2, b3]) == NCA3_MAGIC <==> [b0, b1, b2, b3] == [0x4E, 0x43, 0x41, 0x33]
  {
    var c0: int, c1: int, c2: int, c3: int := b0, b1, b2, b3;
    assert FromLe32([b0, b1, b2, b3]) == c0 + 0x100 * (c1 + 0x100 * (c2 + 0x100 * c3));
  }

  // ---- What a built archive holds ----

  /** The header's fixed fields at their places; the key generation goes in 0x206 and 0x220. */
  lemma {:induction false} IdentityBytes(nca: PlainNca, hash: Hash, sections: seq<Option<Section>>, builder: NcaBuilder)
    requires IsArchiveOf(nca, hash, sections) && SameIdentity(nca.header, builder)
    ensures var b := ToBytes(nca);
      |b| >= 0xC00 && b[0x200..0x204] == [0x4E, 0x43, 0x41, 0x33] && b[0x204] == 0 && b[0x205] == builder.contentType &&
      b[0x206] == (if builder.keyGeneration == 1 then 0 else 2) && b[0x207] == 0 && U64At(b, 0x208) == |b| &&
      U64At(b, 0x210) == builder.titleId && U32At(b, 0x21C) == builder.sdkVersion &&
      b[0x220] == (if builder.keyGeneration <= 2 && builder.keyGeneration > 0 then 0 else builder.keyGeneration)
    ensures var b := ToBytes(nca);
      (forall k :: 0 <= k < 0x200 ==> b[k] == 0) && (forall k :: 0x230 <= k < 0x240 ==> b[k] == 0) &&
      forall i :: 0 <= i < 4 ==> b[0x300 + 0x10 * i..0x310 + 0x10 * i] == builder.keyArea[i]
  {
    hide IsArchiveOf, HeaderBytes, U32At, U64At, Body, EntryAt, FsHeaderAt, SlotDescribed, AllFit;
    ArchiveFits(nca, hash, sections);
    SectionsTile(nca, hash, sections, 0);
    var b, h := ToBytes(nca), nca.header;
    HeaderLength(h);
    HeaderHeld(nca);
    HeaderReadsBack(b, h);
    FourBytes(b, 0x200);
    Nca3(b[0x200], b[0x201], b[0x202], b[0x203]);
    SignaturesClear(b, h);
    var back := HeaderAt(b);
    assert back.rightsId == Zeros(0x10);
    forall k | 0x230 <= k < 0x240
      ensures b[k] == 0
    {
      assert b[k] == back.rightsId[k - 0x230];
    }
    forall i | 0 <= i < 4
      ensures b[0x300 + 0x10 * i..0x310 + 0x10 * i] == builder.keyArea[i]
    {
      assert back.keys[i] == h.keys[i];
    }
  }

  lemma {:induction false} HeaderHeld(nca: PlainNca)
    requires FourSlots(nca.header)
    ensures Holds(ToBytes(nca), 0, HeaderBytes(nca.header))
  {
    hide HeaderBytes;
    assert ToBytes(nca)[0..|HeaderBytes(nca.header)|] == HeaderBytes(nca.header);
  }

  lemma {:induction false} SignaturesClear(b: seq<u8>, h: Header)
    requires FourSlots(h) && Holds(b, 0, HeaderBytes(h)) && |b| >= 0xC00
    ensures forall k :: 0 <= k < 0x200 ==> b[k] == 0
  {
    hide Concat, FixedBytes, EntryParts, HashParts, KeyParts, FsParts;
    HeaderLength(h);
    var z, rest := Zeros(0x200), FixedBytes(h) + Concat(EntryParts(h.entries)) + Concat(HashParts(h.sectionHashes)) +
      Concat(KeyParts(h.keys)) + Zeros(0xC0) + Concat(FsParts(h.fsHeaders));
    assert HeaderBytes(h) == z + rest;
    forall k | 0 <= k < 0x200
      ensures b[k] == 0
    {
      assert b[k] == b[0..0 + |HeaderBytes(h)|][k] == z[k];
    }
  }

  /** Slot `i`'s entry, hash and FS header, where they lie. */
  lemma {:induction false} SlotHeld(nca: PlainNca, i: nat)
    requires FourSlots(nca.header) && i < 4
    ensures var b, h := ToBytes(nca), nca.header;
      |b| >= 0xC00 && Holds(b, 0x400 + 0x200 * i, FsHeaderBytes(h.fsHeaders[i])) && Holds(b, 0x280 + 0x20 * i, h.sectionHashes[i]) &&
      Holds(b, 0x240 + 0x10 * i, EntryBytes(h.entries[i]))
  {
    hide HeaderBytes, Concat, FsHeaderBytes, EntryBytes, Holds, EntryParts, HashParts, FsParts;
    var b, h := ToBytes(nca), nca.header;
    HeaderHeld(nca);
    HeaderRegions(b, h);
    HeaderLength(h);
    PartsRead(b, 0x240, EntryParts(h.entries), 0x10, i);
    PartsRead(b, 0x280, HashParts(h.sectionHashes), 0x20, i);
    PartsRead(b, 0x400, FsParts(h.fsHeaders), FS_HEADER_SIZE, i);
  }

  /** An FS header's own fields: version 2, its three kinds, and zeros for the counter. */
  ghost predicate KindsAre(b: seq<u8>, at: nat, fsType: u8, hashType: u8, cryptType: u8) {
    at + 0x200 <= |b| && b[at..at + 8] == [2, 0, fsType, hashType, cryptType, 0, 0, 0] &&
    forall k :: at + 0x140 <= k < at + 0x200 ==> b[k] == 0
  }

  lemma {:induction false} FsHeaderInNumbers(b: seq<u8>, at: nat, f: FsHeader)
    requires Holds(b, at, FsHeaderBytes(f)) && f.version == 2 && f.sectionCtr == Zeros(0x8)
    ensures KindsAre(b, at, f.fsType, f.hashType, f.cryptType) && b[at + 8..at + 0x140] == f.superblock
  {
    var front, tail := FsHeaderFront(f), Zeros(0xB8);
    HoldsMiddle(b, at, front + f.superblock, f.sectionCtr, tail);
    assert front + f.superblock + [] == front + f.superblock;
    HoldsMiddle(b, at, front, f.superblock, []);
    forall k | at + 0x140 <= k < at + 0x200
      ensures b[k] == 0
    {
      if k < at + 0x148 {
        assert b[k] == b[at + 0x140..at + 0x148][k - at - 0x140];
      } else {
        assert b[k] == b[at + 0x148..at + 0x200][k - at - 0x148];
      }
    }
  }

  /**
   * An occupied slot's bytes: media units in the entry, the kinds - RomFS 0 and 3, partition 1 and 2, plain 1,
   * CTR 3 - in the FS header, and that header's digest. An empty slot is all zeros.
   */
  lemma {:induction false} SlotBytes(nca: PlainNca, hash: Hash, sections: seq<Option<Section>>, i: nat)
    requires IsArchiveOf(nca, hash, sections) && i < 4
    ensures |sections| == 4 && AllFit(hash, sections) && |ToBytes(nca)| >= 0xC00
    ensures sections[i].Some? ==>
      var b, at, entry, s := ToBytes(nca), 0x400 + 0x200 * i, 0x240 + 0x10 * i, sections[i].value;
      0x200 * U32At(b, entry) == StartAt(hash, sections, i) && 0x200 * U32At(b, entry + 4) == StartAt(hash, sections, i + 1) &&
      b[entry + 8..entry + 16] == [1, 0, 0, 0, 0, 0, 0, 0] &&
      KindsAre(b, at, if s.data.RomFsImage? then 0 else 1, if s.data.RomFsImage? then 3 else 2, if s.encryption == Ctr then 3 else 1) &&
      b[0x280 + 0x20 * i..0x2A0 + 0x20 * i] == hash(b[at..at + 0x200])
    ensures sections[i].None? ==>
      var b, at, entry := ToBytes(nca), 0x400 + 0x200 * i, 0x240 + 0x10 * i;
      b[entry..entry + 0x10] == Zeros(0x10) && b[0x280 + 0x20 * i..0x2A0 + 0x20 * i] == Zeros(0x20) && b[at..at + 0x200] == Zeros(0x200)
  {
    hide IsArchiveOf, Body, SectionBytes, FsHeaderBytes, FirstTooFar, SectionFits, EntryBytes, PfsSuperblockBytes, RomFsSuperblockBytes,
         FsHeaderOf, KindsAre, FromLe32, StartAt, ToBytes;
    ArchiveFits(nca, hash, sections);
    SectionsTile(nca, hash, sections, i);
    SlotHeld(nca, i);
    assert SlotDescribed(hash, sections, i, nca.header);
    var b, h := ToBytes(nca), nca.header;
    EntryReads(b, 0x240 + 0x10 * i, h.entries[i]);
    if sections[i].Some? {
      OccupiedKinds(b, 0x400 + 0x200 * i, hash, sections[i].value);
    } else {
      EmptyInNumbers();
    }
  }

  lemma {:induction false} OccupiedKinds(b: seq<u8>, at: nat, hash: Hash, s: Section)
    requires SectionFits(hash, s) && Holds(b, at, FsHeaderBytes(FsHeaderOf(hash, s)))
    ensures KindsAre(b, at, if s.data.RomFsImage? then 0 else 1, if s.data.RomFsImage? then 3 else 2, if s.encryption == Ctr then 3 else 1)
    ensures b[at..at + 0x200] == FsHeaderBytes(FsHeaderOf(hash, s))
  {
    hide FsHeaderBytes, PfsSuperblockBytes, RomFsSuperblockBytes, Ivfc.TreeOf, Partition.SuperblockOf, KindsAre, SectionFits;
    FsHeaderInNumbers(b, at, FsHeaderOf(hash, s));
  }

  lemma {:induction false} EmptyInNumbers()
    ensures EntryBytes(EMPTY_ENTRY) == Zeros(0x10) && FsHeaderBytes(EMPTY_FS_HEADER) == Zeros(0x200)
  {
    hide Words;
    var ws := [0, 0];
    ZeroWords();
    assert EntryBytes(EMPTY_ENTRY) == Words(ws) + Zeros(0x8);
    var front := FsHeaderFront(EMPTY_FS_HEADER);
    assert front == Zeros(8);
  }

  lemma {:induction false} ZeroWords()
    ensures Words([0, 0]) == Zeros(8)
  {
    hide Le32;
    assert [0, 0][..1] == [0] && [0][..0] == [];
    assert Le32(0) == Zeros(4) by { ZeroWord(); }
    assert Words([0]) == Words([]) + Le32(0);
  }

  lemma {:induction false} ZeroWord()
    ensures Le32(0) == Zeros(4)
  {
  }

  // ---- Superblocks ----

  /** A partition's superblock: root hash, block size, two layers, then the table's and the archive's extents. */
  lemma {:induction false} PartitionSuperblock(s: Partition.Superblock)
    ensures var b := PfsSuperblockBytes(s);
      b[..0x20] == s.masterHash && U32At(b, 0x20) == s.blockSize && U32At(b, 0x24) == s.layerCount &&
      U64At(b, 0x28) == s.hashTableOffset && U64At(b, 0x30) == s.hashTableSize && U64At(b, 0x38) == s.pfs0Offset && U64At(b, 0x40) == s.pfs0Size
  {
    hide Words, Longs, FromLe64, FromLe32;
    var b, xs, ws := PfsSuperblockBytes(s), [s.hashTableOffset, s.hashTableSize, s.pfs0Offset, s.pfs0Size], [s.blockSize, s.layerCount];
    var front := s.masterHash + Words(ws);
    assert Holds(b, 0, front + Longs(xs) + Zeros(0xF0));
    HoldsMiddle(b, 0, front, Longs(xs), Zeros(0xF0));
    LongReads(b, 0x28, xs, 0);
    LongReads(b, 0x28, xs, 1);
    LongReads(b, 0x28, xs, 2);
    LongReads(b, 0x28, xs, 3);
    HoldsMiddle(b, 0, s.masterHash, Words(ws), []) by { assert s.masterHash + Words(ws) + [] == front; }
    WordReads(b, 0x20, ws, 0);
    WordReads(b, 0x20, ws, 1);
  }

  /** Two layers, the table first, the archive behind its padding. */
  lemma {:induction false} PartitionInNumbers(hash: Hash, archive: seq<u8>, blockSize: u32)
    requires Partition.Fits(hash, archive, blockSize)
    ensures var s, digests := Partition.SuperblockOf(hash, archive, blockSize), AllDigests(hash, archive, blockSize);
      s.layerCount == 2 && s.hashTableOffset == 0 && s.hashTableSize == |digests| && s.masterHash == hash(digests) &&
      s.pfs0Offset == (|digests| / 0x200 + 1) * 0x200 && s.pfs0Size == |archive|
    ensures var data, digests := Partition.DataOf(hash, archive, blockSize), AllDigests(hash, archive, blockSize);
      IsPadded(data[..(|digests| / 0x200 + 1) * 0x200], digests) && data[(|digests| / 0x200 + 1) * 0x200..] == archive
  {
    hide AllDigests;
    var digests := AllDigests(hash, archive, blockSize);
    PaddedInNumbers(digests, 0x200);
    var table := PadAlways(digests, 0x200);
    assert Partition.DataOf(hash, archive, blockSize) == table + archive;
  }

  /** Some bytes, and zeros behind them. */
  ghost predicate IsPadded(padded: seq<u8>, s: seq<u8>) {
    |s| <= |padded| && padded[..|s|] == s && forall k :: |s| <= k < |padded| ==> padded[k] == 0
  }

  lemma {:induction false} PaddedInNumbers(s: seq<u8>, unit: nat)
    requires unit > 0
    ensures |PadAlways(s, unit)| == (|s| / unit + 1) * unit && IsPadded(PadAlways(s, unit), s)
  {
    assert |s| == unit * (|s| / unit) + |s| % unit;
    assert (|s| / unit + 1) * unit == unit * (|s| / unit) + unit;
  }

  /** A RomFS superblock: `IVFC`, version 0x20000, 0x20-byte root hash, seven layers, six levels, and the root hash. */
  lemma {:induction false} IvfcSuperblock(levels: seq<Ivfc.LevelHeader>, masterHash: Digest, k: nat)
    requires |levels| == 6 && k < 6
    ensures var b := RomFsSuperblockBytes(levels, masterHash);
      U32At(b, 0) == 0x4346_5649 && U32At(b, 4) == 0x2_0000 && U32At(b, 8) == 0x20 && U32At(b, 12) == 7 &&
      U64At(b, 0x10 + 0x18 * k) == levels[k].logicalOffset && U64At(b, 0x18 + 0x18 * k) == levels[k].hashDataSize &&
      U32At(b, 0x20 + 0x18 * k) == levels[k].blockSize && b[0xC0..0xE0] == masterHash
  {
    hide Words, Longs, FromLe64, FromLe32, Concat, LevelParts;
    RomFsSuperblockReads(levels, masterHash, k);
    LevelsLength(levels);
    var b, front, parts := RomFsSuperblockBytes(levels, masterHash), IvfcFront(), LevelParts(levels);
    var tail := Zeros(0x20) + masterHash + Zeros(0x58);
    assert b == front + Concat(parts) + tail;
    assert Holds(b, 0, front + Concat(parts) + tail);
    HoldsMiddle(b, 0, front, Concat(parts), tail);
    var ws := [IVFC_MAGIC, IVFC_VERSION, 0x20, Ivfc.LEVELS + 1];
    WordReads(b, 0, ws, 0);
    WordReads(b, 0, ws, 1);
    WordReads(b, 0, ws, 2);
    WordReads(b, 0, ws, 3);
    PartsRead(b, 0x10, parts, 0x18, k);
    var xs, zs := [levels[k].logicalOffset, levels[k].hashDataSize], [levels[k].blockSize, 0];
    HoldsMiddle(b, 0x10 + 0x18 * k, Longs(xs), Words(zs), []) by { assert Longs(xs) + Words(zs) + [] == LevelBytes(levels[k]); }
    WordReads(b, 0x20 + 0x18 * k, zs, 0);
  }

  /** Blocks of 0x4000 bytes, 14 as a power of two; each level starts where the one before it ends. */
  lemma {:induction false} TreeInNumbers(hash: Hash, romfs: seq<u8>, k: nat)
    requires Ivfc.Fits(hash, romfs) && k < 6
    ensures var tree, levels := Ivfc.TreeOf(hash, romfs), Ivfc.Levels(hash, romfs);
      |levels| == 6 && levels[5] == romfs && tree.masterHash == hash(levels[0]) && |tree.levelHeaders| == 6 &&
      tree.levelHeaders[k].blockSize == 14 && tree.levelHeaders[k].hashDataSize == |levels[k]| && tree.levelHeaders[0].logicalOffset == 0 &&
      (k < 5 ==> tree.levelHeaders[k + 1].logicalOffset == tree.levelHeaders[k].logicalOffset + |levels[k]|) &&
      (k < 5 ==>
         var digests := AllDigests(hash, levels[k + 1], 0x4000);
         |levels[k]| == (|digests| / 0x4000 + 1) * 0x4000 && IsPadded(levels[k], digests))
  {
    hide AllDigests, Concat, Ivfc.TreeOf, PadAlways, IsPadded;
    var tree, levels := Ivfc.TreeOf(hash, romfs), Ivfc.Levels(hash, romfs);
    assert Ivfc.IsTreeOf(tree, hash, romfs);
    assert Ivfc.HeaderIs(tree.levelHeaders[k], levels, k) && Ivfc.HeaderIs(tree.levelHeaders[0], levels, 0);
    assert levels[..0] == [] && StartOf(levels, 0) == 0 by { StartIsZero(levels); }
    if k < 5 {
      assert Ivfc.HeaderIs(tree.levelHeaders[k + 1], levels, k + 1);
      PaddedInNumbers(AllDigests(hash, levels[k + 1], 0x4000), 0x4000);
      PartInConcat(levels, k);
    }
  }

  lemma {:induction false} StartIsZero(parts: seq<seq<u8>>)
    ensures parts[..0] == [] && StartOf(parts, 0) == 0
  {
  }

  // ---- Padding and counters ----

  /** A section is followed by zeros up to the next multiple of 0x200, and by none if it ends on one. */
  lemma {:induction false} PaddingInNumbers(body: seq<u8>)
    ensures var r := PadToMediaUnit(body);
      |r| == (|body| + 0x1FF) / 0x200 * 0x200 && r[..|body|] == body && forall k :: |body| <= k < |r| ==> r[k] == 0
  {
    var q, rest := |body| / 0x200, |body| % 0x200;
    assert |body| == 0x200 * q + rest;
    assert (|body| + 0x1FF) / 0x200 == if rest == 0 then q else q + 1;
  }

  /** A counter's sixteen bytes: the section's eight the other way round, then the offset in 16-byte blocks, big-endian. */
  lemma {:induction false} CounterBytes(sectionCtr: Bytes8, offset: u64)
    ensures var c, low, high := CounterOf(sectionCtr, offset), offset / 0x10 % 0x1_0000_0000, offset / 0x10 / 0x1_0000_0000;
      (forall k :: 0 <= k < 8 ==> c[k] == sectionCtr[7 - k]) &&
      c[15] == low % 0x100 && c[14] == low / 0x100 % 0x100 && c[13] == low / 0x1_0000 % 0x100 && c[12] == low / 0x100_0000 &&
      c[11] == high % 0x100 && c[10] == high / 0x100 % 0x100 && c[9] == high / 0x1_0000 % 0x100 && c[8] == high / 0x100_0000
  {
    hide Le32;
    var n := offset / 0x10;
    var low, high := n % 0x1_0000_0000, n / 0x1_0000_0000;
    WordBytes(low);
    WordBytes(high);
    var c, b := CounterOf(sectionCtr, offset), Le32(low) + Le32(high);
    assert Le64(n) == b;
    forall k | 8 <= k < 16
      ensures c[k] == b[15 - k]
    {
      assert c[k] == Be64(n)[k - 8] == b[7 - (k - 8)];
    }
  }

  lemma {:induction false} WordBytes(n: u32)
    ensures var b := Le32(n); b[0] == n % 0x100 && b[1] == n / 0x100 % 0x100 && b[2] == n / 0x1_0000 % 0x100 && b[3] == n / 0x100_0000
  {
  }

  /** Digest `i` of a list is that of block `i`, the last one cut short. */
  lemma {:induction false} DigestInNumbers(hash: Hash, s: seq<u8>, block: nat, i: nat)
    requires block > 0 && i * block < |s|
    ensures var digests, end := AllDigests(hash, s, block), if (i + 1) * block < |s| then (i + 1) * block else |s|;
      0x20 * i + 0x20 <= |digests| && i * block <= end && digests[0x20 * i..0x20 * i + 0x20] == hash(s[i * block..end])
  {
    var n := BlockCount(|s|, block);
    BlockCountCovers(|s|, block);
    if i >= n {
      TimesMonotone(n, i, block);
    }
    assert (i + 1) * block == i * block + block;
    DigestAt(hash, s, block, n, i);
  }
}
