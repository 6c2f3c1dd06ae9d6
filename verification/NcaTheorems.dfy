/** What a built archive promises: its sections tile the file, read back, and never share a counter. */
module NcaTheorems {
  import opened Bytes
  import opened Packing
  import opened HashBlocks
  import opened NcaFormat
  import opened NcaBuild
  import Read = NcaRead
  import Ivfc
  import Partition

  // ---- Tiling ----

  /** The media units an entry records, in bytes. */
  ghost predicate EntryCovers(e: SectionEntry, start: nat, end: nat) {
    e.mediaStart * MEDIA_UNIT == start && e.mediaEnd * MEDIA_UNIT == end
  }

  lemma {:induction false} SectionNotEmpty(hash: Hash, s: Section)
    requires SectionFits(hash, s)
    ensures |SectionBytes(hash, s)| > 0
  {
    hide Partition.DataOf, Ivfc.TreeOf, Ivfc.Levels, Concat, Ivfc.Level;
    match s.data
    case RomFsImage(image) =>
      var levels := Ivfc.Levels(hash, image);
      Ivfc.DerivedLevelsAreWhole(hash, image, 0);
      PartInConcat(levels, 0);
      assert levels[0] == Ivfc.Level(hash, image, 0);
      assert StartOf(levels, 1) > 0;
      assert Ivfc.IsTreeOf(Ivfc.TreeOf(hash, image), hash, image);
    case PartitionArchive(archive, blockSize) =>
  }

  /** A builder's identity and sections make one archive. */
  lemma {:induction false} ArchiveIsUnique(builder: NcaBuilder, a: PlainNca, b: PlainNca, hash: Hash, sections: seq<Option<Section>>)
    requires IsArchiveOf(a, hash, sections) && IsArchiveOf(b, hash, sections)
    requires SameIdentity(a.header, builder) && SameIdentity(b.header, builder)
    ensures a == b
  {
    hide AllFit, Body, FirstTooFar, SectionBytes, FsHeaderOf, FsHeaderBytes, StartAt, EntryOf, SplitKeyGeneration;
    forall i | 0 <= i < SECTIONS
      ensures a.header.entries[i] == b.header.entries[i] && a.header.sectionHashes[i] == b.header.sectionHashes[i]
      ensures a.header.fsHeaders[i] == b.header.fsHeaders[i]
    {
      assert SlotDescribed(hash, sections, i, a.header) && SlotDescribed(hash, sections, i, b.header);
    }
    assert a.header.entries == b.header.entries && a.header.sectionHashes == b.header.sectionHashes;
    assert a.header.fsHeaders == b.header.fsHeaders;
  }

  /**
   * The slots tile the file from the end of the header to its recorded size: each starts on a media
   * unit where the one before it ends, an occupied slot is not empty and its entry says where it is,
   * and an unoccupied slot takes no room.
   */
  lemma {:induction false} SectionsTile(nca: PlainNca, hash: Hash, sections: seq<Option<Section>>, i: nat)
    requires IsArchiveOf(nca, hash, sections) && i < SECTIONS
    ensures StartAt(hash, sections, 0) == HEADER_SIZE && StartAt(hash, sections, SECTIONS) == nca.header.ncaSize
    ensures StartAt(hash, sections, SECTIONS) == HEADER_SIZE + |nca.body|
    ensures StartAt(hash, sections, i) % MEDIA_UNIT == 0 && StartAt(hash, sections, i + 1) % MEDIA_UNIT == 0
    ensures if sections[i].None? then StartAt(hash, sections, i + 1) == StartAt(hash, sections, i) && nca.header.entries[i] == EMPTY_ENTRY
            else StartAt(hash, sections, i) < StartAt(hash, sections, i + 1) &&
                 EntryCovers(nca.header.entries[i], StartAt(hash, sections, i), StartAt(hash, sections, i + 1))
  {
    hide SectionBytes, SectionFits, FsHeaderOf, FsHeaderBytes, FirstTooFar;
    assert SlotDescribed(hash, sections, i, nca.header);
    OnMediaUnit(hash, sections, i);
    OnMediaUnit(hash, sections, i + 1);
    if sections[i].Some? {
      SectionNotEmpty(hash, sections[i].value);
    }
  }

  lemma {:induction false} OnMediaUnit(hash: Hash, sections: seq<Option<Section>>, i: nat)
    requires i <= |sections| && AllFit(hash, sections)
    ensures StartAt(hash, sections, i) % MEDIA_UNIT == 0
  {
    hide Body;
  }

  /** Two occupied slots never overlap. */
  lemma {:induction false} SectionsDisjoint(nca: PlainNca, hash: Hash, sections: seq<Option<Section>>, i: nat, j: nat)
    requires IsArchiveOf(nca, hash, sections) && i < j < SECTIONS && sections[i].Some? && sections[j].Some?
    ensures nca.header.entries[i].mediaEnd <= nca.header.entries[j].mediaStart
  {
    hide IsArchiveOf, Body;
    SectionsTile(nca, hash, sections, i);
    SectionsTile(nca, hash, sections, j);
    ArchiveFits(nca, hash, sections);
    BodyGrows(hash, sections, i + 1, j);
  }

  lemma {:induction false} ArchiveFits(nca: PlainNca, hash: Hash, sections: seq<Option<Section>>)
    requires IsArchiveOf(nca, hash, sections)
    ensures |sections| == SECTIONS && AllFit(hash, sections) && FourSlots(nca.header)
    ensures nca.body == Body(hash, sections, SECTIONS) && nca.header.magic == NCA3_MAGIC && nca.header.contentType <= LAST_CONTENT_TYPE
    ensures forall i :: 0 <= i < SECTIONS ==> SlotDescribed(hash, sections, i, nca.header)
  {
  }

  // ---- Reading back ----

  /** A section's bytes lie at its start, ahead of the padding. */
  lemma {:induction false} SectionInBody(hash: Hash, sections: seq<Option<Section>>, i: nat)
    requires i < |sections| && AllFit(hash, sections) && sections[i].Some?
    ensures var b, s, at := Body(hash, sections, |sections|), SectionBytes(hash, sections[i].value), |Body(hash, sections, i)|;
      at + |s| <= |Body(hash, sections, i + 1)| <= |b| && b[at..at + |s|] == s
  {
    hide SectionBytes, SectionFits;
    var b, s, before := Body(hash, sections, |sections|), SectionBytes(hash, sections[i].value), Body(hash, sections, i);
    var after := Body(hash, sections, i + 1);
    BodyGrows(hash, sections, i + 1, |sections|);
    assert after == PadToMediaUnit(before + s);
    FoundInPadded(before, s);
    FoundInLonger(b, after, |before|, |before| + |s|);
  }

  lemma {:induction false} FoundInPadded(before: seq<u8>, s: seq<u8>)
    ensures |before| + |s| <= |PadToMediaUnit(before + s)|
    ensures PadToMediaUnit(before + s)[|before|..|before| + |s|] == s
  {
    var r := PadToMediaUnit(before + s);
    assert r[..|before + s|] == before + s;
    assert r[|before|..|before| + |s|] == r[..|before + s|][|before|..];
  }

  lemma {:induction false} FoundInLonger(b: seq<u8>, after: seq<u8>, lo: nat, hi: nat)
    requires lo <= hi <= |after| <= |b| && b[..|after|] == after
    ensures b[lo..hi] == after[lo..hi]
  {
    SliceOfSlice(b, 0, |after|, lo, hi);
    assert b[0..|after|] == b[..|after|];
  }

  /** The extent a section's superblock names holds exactly what was stored. */
  lemma {:induction false} ExtentHoldsStored(hash: Hash, s: Section, index: nat)
    requires SectionFits(hash, s)
    ensures var extent, b := Read.DataExtent(index, FsHeaderOf(hash, s)), SectionBytes(hash, s);
      extent.Ok? && extent.value.0 + extent.value.1 <= |b| && extent.value.1 == |Stored(s)| &&
      b[extent.value.0..extent.value.0 + extent.value.1] == Stored(s)
    ensures Read.KnownHash(FsHeaderOf(hash, s).hashType) && Read.KnownCrypt(FsHeaderOf(hash, s).cryptType)
  {
    hide PfsSuperblockBytes, RomFsSuperblockBytes, Partition.DataOf, Partition.SuperblockOf, Ivfc.TreeOf, Ivfc.Levels, Concat;
    match s.data
    case RomFsImage(image) =>
      var tree, levels := Ivfc.TreeOf(hash, image), Ivfc.Levels(hash, image);
      assert Ivfc.IsTreeOf(tree, hash, image);
      RomFsSuperblockReads(tree.levelHeaders, tree.masterHash, 5);
      assert Ivfc.HeaderIs(tree.levelHeaders[5], levels, 5);
      PartInConcat(levels, 5);
    case PartitionArchive(archive, blockSize) =>
      PfsSuperblockReads(Partition.SuperblockOf(hash, archive, blockSize));
      Partition.ArchiveAtOffset(hash, archive, blockSize);
      PartitionFields(hash, archive, blockSize);
  }

  lemma {:induction false} PartitionFields(hash: Hash, archive: seq<u8>, blockSize: u32)
    requires Partition.Fits(hash, archive, blockSize)
    ensures Partition.SuperblockOf(hash, archive, blockSize).pfs0Size == |archive|
  {
  }

  lemma {:induction false} SectionSize(hash: Hash, s: Section)
    requires SectionFits(hash, s)
    ensures |SectionBytes(hash, s)| <= USIZE_MAX
  {
    hide Ivfc.Levels, Partition.DataOf, Concat;
  }

  /** The reader finds nothing wrong with any slot. */
  lemma {:induction false} NoFault(nca: PlainNca, hash: Hash, sections: seq<Option<Section>>, i: nat)
    requires IsArchiveOf(nca, hash, sections) && i < SECTIONS
    ensures FourSlots(nca.header) && |sections| == SECTIONS
    ensures Read.SectionFault(i, nca.header.entries[i], nca.header.fsHeaders[i], HEADER_SIZE + |nca.body|).None?
  {
    hide IsArchiveOf, Body, SectionBytes, FsHeaderOf, FsHeaderBytes, FirstTooFar, Read.DataExtent, SectionFits, Read.KnownHash,
         Read.KnownCrypt;
    ArchiveFits(nca, hash, sections);
    SectionsTile(nca, hash, sections, i);
    assert SlotDescribed(hash, sections, i, nca.header);
    BodyGrows(hash, sections, i + 1, SECTIONS);
    if sections[i].Some? {
      ExtentHoldsStored(hash, sections[i].value, i);
      SectionInBody(hash, sections, i);
      SectionSize(hash, sections[i].value);
    }
  }

  /** The archive as the reader sees it. */
  function ViewOf(nca: PlainNca): Read.Nca {
    Read.Nca(ToBytes(nca), nca.header)
  }

  /** A built archive is accepted, header and all. */
  lemma {:induction false} BuiltIsAccepted(nca: PlainNca, hash: Hash, sections: seq<Option<Section>>)
    requires IsArchiveOf(nca, hash, sections)
    ensures |ToBytes(nca)| == HEADER_SIZE + |nca.body| && Read.TryFromBytes(ToBytes(nca)) == Ok(ViewOf(nca))
  {
    hide IsArchiveOf, HeaderBytes, HeaderAt, Read.SectionFault, SlotDescribed, Body;
    ArchiveFits(nca, hash, sections);
    HeaderLength(nca.header);
    HeaderReadsBack(ToBytes(nca), nca.header);
    forall i | 0 <= i < SECTIONS
      ensures Read.SectionFault(i, nca.header.entries[i], nca.header.fsHeaders[i], |ToBytes(nca)|).None?
    {
      NoFault(nca, hash, sections, i);
    }
  }

  lemma {:induction false} SectionIs(view: Read.Nca, i: nat, start: nat, end: nat, offset: nat, size: nat)
    requires Read.Accepted(view) && i < SECTIONS && EntryCovers(view.header.entries[i], start, end) && end > 0
    requires var extent := Read.DataExtent(i, view.header.fsHeaders[i]); extent.Ok? && extent.value.0 == offset && extent.value.1 == size
    ensures HEADER_SIZE <= start <= end <= |view.bytes| && offset + size <= end - start
    ensures Read.Section(view, i) == Some(Read.SectionView(i, Read.Range(start, end), view.header.fsHeaders[i], view.bytes[start..end],
                                                           view.bytes[start..end][offset..offset + size]))
  {
    hide Read.DataExtent;
    assert Read.SectionFault(i, view.header.entries[i], view.header.fsHeaders[i], |view.bytes|).None?;
  }

  lemma {:induction false} StoredFound(header: seq<u8>, body: seq<u8>, at: nat, n: nat, section: seq<u8>, lo: nat, hi: nat)
    requires at + |section| <= n <= |body| && body[at..at + |section|] == section && lo <= hi <= |section|
    ensures (header + body)[|header| + at..|header| + n][lo..hi] == section[lo..hi]
  {
    assert (header + body)[|header| + at..|header| + n] == body[at..n];
    SliceOfSlice(body, at, n, lo, hi);
    SliceOfSlice(body, at, at + |section|, lo, hi);
  }

  lemma {:induction false} SlotFsHeader(nca: PlainNca, hash: Hash, sections: seq<Option<Section>>, i: nat)
    requires IsArchiveOf(nca, hash, sections) && i < SECTIONS && sections[i].Some?
    ensures nca.header.fsHeaders[i] == FsHeaderOf(hash, sections[i].value)
  {
    hide Body, SectionBytes, FsHeaderOf, FsHeaderBytes, FirstTooFar, SectionFits;
    assert SlotDescribed(hash, sections, i, nca.header);
  }

  /** The round trip: every occupied slot gives back what was placed there, every other slot is absent. */
  lemma {:induction false} SectionsReadBack(nca: PlainNca, hash: Hash, sections: seq<Option<Section>>, i: nat)
    requires IsArchiveOf(nca, hash, sections) && Read.Accepted(ViewOf(nca)) && i < SECTIONS
    ensures |sections| == SECTIONS && AllFit(hash, sections)
    ensures var r := Read.Section(ViewOf(nca), i);
      if sections[i].None? then r == None
      else r.Some? && r.value.data == Stored(sections[i].value) && r.value.fsHeader == FsHeaderOf(hash, sections[i].value) &&
           r.value.range == Read.Range(StartAt(hash, sections, i), StartAt(hash, sections, i + 1))
  {
    hide IsArchiveOf, SlotDescribed, Body, SectionBytes, FsHeaderOf, FsHeaderBytes, FirstTooFar, Read.DataExtent, SectionFits,
         Read.Section, Read.Accepted, HeaderBytes, AllFit;
    ArchiveFits(nca, hash, sections);
    SectionsTile(nca, hash, sections, i);
    if sections[i].Some? {
      SlotFsHeader(nca, hash, sections, i);
      SectionInBody(hash, sections, i);
      OccupiedReadsBack(nca, hash, sections[i].value, i, |Body(hash, sections, i)|, |Body(hash, sections, i + 1)|);
    }
  }

  lemma {:induction false} OccupiedReadsBack(nca: PlainNca, hash: Hash, s: Section, i: nat, at: nat, n: nat)
    requires Read.Accepted(ViewOf(nca)) && i < SECTIONS && SectionFits(hash, s) && nca.header.fsHeaders[i] == FsHeaderOf(hash, s)
    requires EntryCovers(nca.header.entries[i], HEADER_SIZE + at, HEADER_SIZE + n)
    requires at + |SectionBytes(hash, s)| <= n <= |nca.body| && nca.body[at..at + |SectionBytes(hash, s)|] == SectionBytes(hash, s)
    ensures var r := Read.Section(ViewOf(nca), i);
      r.Some? && r.value.data == Stored(s) && r.value.fsHeader == FsHeaderOf(hash, s) &&
      r.value.range == Read.Range(HEADER_SIZE + at, HEADER_SIZE + n)
  {
    hide SectionBytes, FsHeaderOf, Read.DataExtent, SectionFits, Read.Section, HeaderBytes, Read.SectionFault, Stored;
    ExtentHoldsStored(hash, s, i);
    HeaderLength(nca.header);
    var (offset, size) := Read.DataExtent(i, FsHeaderOf(hash, s)).value;
    SectionIs(ViewOf(nca), i, HEADER_SIZE + at, HEADER_SIZE + n, offset, size);
    StoredFound(HeaderBytes(nca.header), nca.body, at, n, SectionBytes(hash, s), offset, offset + size);
  }

  // ---- Counters ----

  /** The sections a built archive has encrypted are the ones asked for, and all lie past the header. */
  lemma {:induction false} CtrSlots(nca: PlainNca, hash: Hash, sections: seq<Option<Section>>)
    requires IsArchiveOf(nca, hash, sections)
    ensures |sections| == SECTIONS && CtrPastHeader(nca.header)
    ensures forall i :: 0 <= i < SECTIONS ==>
      (nca.header.fsHeaders[i].cryptType == CRYPT_CTR <==> sections[i].Some? && sections[i].value.encryption == Ctr)
  {
    hide IsArchiveOf, Body, SectionBytes, FsHeaderBytes, FirstTooFar, SectionFits, PfsSuperblockBytes, RomFsSuperblockBytes, StartAt;
    ArchiveFits(nca, hash, sections);
    forall i | 0 <= i < SECTIONS
      ensures nca.header.fsHeaders[i].cryptType == CRYPT_CTR <==> sections[i].Some? && sections[i].value.encryption == Ctr
      ensures nca.header.fsHeaders[i].cryptType == CRYPT_CTR ==>
        HEADER_SIZE <= nca.header.entries[i].mediaStart * MEDIA_UNIT <= nca.header.entries[i].mediaEnd * MEDIA_UNIT
    {
      assert SlotDescribed(hash, sections, i, nca.header);
      SectionsTile(nca, hash, sections, i);
      StartPastHeader(hash, sections, i);
    }
  }

  lemma {:induction false} StartPastHeader(hash: Hash, sections: seq<Option<Section>>, i: nat)
    requires i <= |sections| && AllFit(hash, sections)
    ensures StartAt(hash, sections, i) >= HEADER_SIZE
  {
  }

  lemma {:induction false} NoSectionCounter(hash: Hash, s: Section)
    requires SectionFits(hash, s)
    ensures FsHeaderOf(hash, s).sectionCtr == Zeros(0x8)
  {
    hide PfsSuperblockBytes, RomFsSuperblockBytes, Ivfc.TreeOf, Partition.SuperblockOf;
  }

  /**
   * No counter value is used twice under the archive's one section key, as section 6.5 of
   * NIST SP 800-38A requires: block `x` of one CTR section and block `y` of another are counted apart.
   */
  lemma {:induction false} CountersNeverRepeat(nca: PlainNca, hash: Hash, sections: seq<Option<Section>>, i: nat, j: nat, x: nat, y: nat)
    requires IsArchiveOf(nca, hash, sections) && CtrPastHeader(nca.header) && i < j < SECTIONS
    requires nca.header.fsHeaders[i].cryptType == CRYPT_CTR && nca.header.fsHeaders[j].cryptType == CRYPT_CTR
    requires var s := CtrSectionOf(nca.header, i); 0x10 * x < s.end - s.start
    requires var t := CtrSectionOf(nca.header, j); 0x10 * y < t.end - t.start
    ensures CounterValue(CtrSectionOf(nca.header, i).counter) + x < CounterValue(CtrSectionOf(nca.header, j).counter) + y
  {
    hide IsArchiveOf, Body, SectionBytes, FsHeaderOf, FsHeaderBytes, FirstTooFar, SectionFits, CounterOf, CounterValue, FromLe64;
    ArchiveFits(nca, hash, sections);
    CtrSlots(nca, hash, sections);
    assert SlotDescribed(hash, sections, i, nca.header) && SlotDescribed(hash, sections, j, nca.header);
    NoSectionCounter(hash, sections[i].value);
    NoSectionCounter(hash, sections[j].value);
    SectionsDisjoint(nca, hash, sections, i, j);
    var a, b := nca.header.entries[i], nca.header.entries[j];
    CounterCounts(Zeros(0x8), a.mediaStart * MEDIA_UNIT);
    CounterCounts(Zeros(0x8), b.mediaStart * MEDIA_UNIT);
    MediaInBlocks(a.mediaStart);
    MediaInBlocks(b.mediaStart);
  }

  lemma {:induction false} MediaInBlocks(units: nat)
    ensures units * MEDIA_UNIT / 0x10 == units * 0x20
  {
  }

  /** And the reader derives the very same counter. */
  lemma {:induction false} CounterAgrees(nca: PlainNca, hash: Hash, sections: seq<Option<Section>>, i: nat)
    requires IsArchiveOf(nca, hash, sections) && Read.Accepted(ViewOf(nca)) && CtrPastHeader(nca.header) && i < SECTIONS
    requires nca.header.fsHeaders[i].cryptType == CRYPT_CTR
    ensures var r := Read.Section(ViewOf(nca), i);
      r.Some? && r.value.range.start <= USIZE_MAX && r.value.fsHeader.cryptType == CRYPT_CTR &&
      CtrSectionOf(nca.header, i).counter == CounterOf(r.value.fsHeader.sectionCtr, r.value.range.start) &&
      r.value.range == Read.Range(HEADER_SIZE + CtrSectionOf(nca.header, i).start, HEADER_SIZE + CtrSectionOf(nca.header, i).end)
  {
    hide IsArchiveOf, Body, SectionBytes, FsHeaderOf, FsHeaderBytes, FirstTooFar, SectionFits, CounterOf, Read.Section, ToBytes;
    ArchiveFits(nca, hash, sections);
    CtrSlots(nca, hash, sections);
    SectionsReadBack(nca, hash, sections, i);
    SectionsTile(nca, hash, sections, i);
    assert SlotDescribed(hash, sections, i, nca.header);
  }

  // ---- Binding ----

  /** Sections described by one FS header store the same bytes, or a collision can be shown. */
  lemma {:induction false} FsHeaderBinds(hash: Hash, s: Section, t: Section) returns (x: seq<u8>, y: seq<u8>)
    requires SectionFits(hash, s) && SectionFits(hash, t) && FsHeaderOf(hash, s) == FsHeaderOf(hash, t)
    ensures Stored(s) == Stored(t) || Collides(hash, x, y)
  {
    hide PfsSuperblockBytes, RomFsSuperblockBytes, Ivfc.TreeOf, Ivfc.Levels, Partition.DataOf;
    match (s.data, t.data)
    case (RomFsImage(a), RomFsImage(b)) =>
      var ta, tb := Ivfc.TreeOf(hash, a), Ivfc.TreeOf(hash, b);
      forall k | 0 <= k < Ivfc.LEVELS
        ensures ta.levelHeaders[k].hashDataSize == tb.levelHeaders[k].hashDataSize && ta.masterHash == tb.masterHash
      {
        RomFsSuperblockReads(ta.levelHeaders, ta.masterHash, k);
        RomFsSuperblockReads(tb.levelHeaders, tb.masterHash, k);
      }
      assert ta.masterHash == tb.masterHash by {
        RomFsSuperblockReads(ta.levelHeaders, ta.masterHash, 0);
        RomFsSuperblockReads(tb.levelHeaders, tb.masterHash, 0);
      }
      x, y := Ivfc.RootBindsImage(hash, a, b, ta, tb);
    case (PartitionArchive(a, blockA), PartitionArchive(b, blockB)) =>
      PfsSuperblockReads(Partition.SuperblockOf(hash, a, blockA));
      PfsSuperblockReads(Partition.SuperblockOf(hash, b, blockB));
      x, y := Partition.SuperblockBindsArchive(hash, a, b, blockA, blockB);
    case _ =>
      x, y := [], [];
  }

  /** So do sections with one section hash, the hash the header keeps of each FS header. */
  lemma {:induction false} SectionHashBinds(hash: Hash, s: Section, t: Section) returns (x: seq<u8>, y: seq<u8>)
    requires SectionFits(hash, s) && SectionFits(hash, t)
    requires hash(FsHeaderBytes(FsHeaderOf(hash, s))) == hash(FsHeaderBytes(FsHeaderOf(hash, t)))
    ensures Stored(s) == Stored(t) || Collides(hash, x, y)
  {
    hide FsHeaderBytes, FsHeaderOf, Stored, SectionFits;
    var f, g := FsHeaderOf(hash, s), FsHeaderOf(hash, t);
    x, y := FsHeaderBytes(f), FsHeaderBytes(g);
    if x == y {
      assert Holds(x, 0, FsHeaderBytes(f)) && Holds(x, 0, FsHeaderBytes(g));
      FsHeaderReads(x, 0, f);
      FsHeaderReads(x, 0, g);
      x, y := FsHeaderBinds(hash, s, t);
    }
  }
}
