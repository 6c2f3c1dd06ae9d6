/** The NCA builder: sections placed in four slots, laid out in media units, described by the header. */
module NcaBuild {
  import opened Bytes
  import opened HashBlocks
  import opened NcaFormat
  import Ivfc
  import Partition

  datatype Encryption = Plain | Ctr

  datatype SectionData = RomFsImage(image: seq<u8>) | PartitionArchive(archive: seq<u8>, hashBlockSize: u32)

  datatype Section = Section(data: SectionData, encryption: Encryption)

  datatype AddSectionError = IndexOutOfRange(index: nat) | IndexOccupied(index: nat)

  datatype BuildError = TooLarge(size: nat)

  datatype PlainNca = PlainNca(header: Header, body: seq<u8>)

  /** The RomFS image or the archive a section was made from. */
  function Stored(s: Section): seq<u8> {
    match s.data
    case RomFsImage(image) => image
    case PartitionArchive(archive, _) => archive
  }

  // ---- One section ----

  /** Hash blocks are not empty, and the section can be held in memory. */
  ghost predicate SectionFits(hash: Hash, s: Section) {
    match s.data
    case RomFsImage(image) => Ivfc.Fits(hash, image)
    case PartitionArchive(archive, blockSize) => Partition.Fits(hash, archive, blockSize)
  }

  ghost function SectionBytes(hash: Hash, s: Section): seq<u8>
    requires SectionFits(hash, s)
  {
    match s.data
    case RomFsImage(image) => Ivfc.TreeOf(hash, image).data
    case PartitionArchive(archive, blockSize) => Partition.DataOf(hash, archive, blockSize)
  }

  function CryptByte(e: Encryption): u8 {
    if e == Ctr then CRYPT_CTR else CRYPT_NONE
  }

  ghost function FsHeaderOf(hash: Hash, s: Section): FsHeader
    requires SectionFits(hash, s)
  {
    match s.data
    case RomFsImage(image) =>
      var tree := Ivfc.TreeOf(hash, image);
      FsHeader(2, FS_ROMFS, HASH_ROMFS, CryptByte(s.encryption), RomFsSuperblockBytes(tree.levelHeaders, tree.masterHash), Zeros(0x8))
    case PartitionArchive(archive, blockSize) =>
      FsHeader(2, FS_PFS0, HASH_PFS0, CryptByte(s.encryption),
               PfsSuperblockBytes(Partition.SuperblockOf(hash, archive, blockSize)), Zeros(0x8))
  }

  method LayOutSection(hash: Hash, s: Section) returns (data: seq<u8>, fsHeader: FsHeader)
    requires SectionFits(hash, s)
    ensures data == SectionBytes(hash, s) && fsHeader == FsHeaderOf(hash, s)
  {
    hide PfsSuperblockBytes, RomFsSuperblockBytes, Ivfc.TreeOf, Partition.SuperblockOf, Partition.DataOf;
    fsHeader := EMPTY_FS_HEADER.(version := 2, cryptType := CryptByte(s.encryption));
    match s.data
    case RomFsImage(image) =>
      var tree := Ivfc.Build(hash, image);
      fsHeader := fsHeader.(fsType := FS_ROMFS, hashType := HASH_ROMFS,
                            superblock := RomFsSuperblockBytes(tree.levelHeaders, tree.masterHash));
      data := tree.data;
    case PartitionArchive(archive, blockSize) =>
      var built := Partition.Build(hash, archive, blockSize);
      fsHeader := fsHeader.(fsType := FS_PFS0, hashType := HASH_PFS0, superblock := PfsSuperblockBytes(built.superblock));
      data := built.data;
  }

  // ---- The body ----

  function PadToMediaUnit(body: seq<u8>): (r: seq<u8>)
    ensures |body| <= |r| < |body| + MEDIA_UNIT && |r| % MEDIA_UNIT == 0 && r[..|body|] == body
  {
    var remainder := |body| % MEDIA_UNIT;
    if remainder != 0 then body + Zeros(MEDIA_UNIT - remainder) else body
  }

  ghost predicate AllFit(hash: Hash, sections: seq<Option<Section>>) {
    forall i :: 0 <= i < |sections| ==> sections[i].Some? ==> SectionFits(hash, sections[i].value)
  }

  /** The body once the first `i` slots are laid out. */
  ghost function Body(hash: Hash, sections: seq<Option<Section>>, i: nat): (b: seq<u8>)
    requires i <= |sections| && AllFit(hash, sections)
    ensures |b| % MEDIA_UNIT == 0
  {
    if i == 0 then []
    else if sections[i - 1].None? then Body(hash, sections, i - 1)
    else PadToMediaUnit(Body(hash, sections, i - 1) + SectionBytes(hash, sections[i - 1].value))
  }

  /** Where slot `i` starts in the file. */
  ghost function StartAt(hash: Hash, sections: seq<Option<Section>>, i: nat): nat
    requires i <= |sections| && AllFit(hash, sections)
  {
    HEADER_SIZE + |Body(hash, sections, i)|
  }

  /** A byte offset in the media units a section entry records. */
  function MediaOffset(offset: nat): (r: Result<u32, BuildError>)
    ensures r.Ok? <==> offset < 0x1_0000_0000 * MEDIA_UNIT
    ensures r.Ok? ==> r.value == offset / MEDIA_UNIT
    ensures r.Err? ==> r.error == TooLarge(offset)
  {
    var units := offset / MEDIA_UNIT;
    if units < 0x1_0000_0000 then Ok(units) else Err(TooLarge(offset))
  }

  /** The end of the first section past what media offsets can address. */
  ghost function FirstTooFar(hash: Hash, sections: seq<Option<Section>>, i: nat): (r: Option<nat>)
    requires i <= |sections| && AllFit(hash, sections)
  {
    if i == 0 then None
    else
      var earlier := FirstTooFar(hash, sections, i - 1);
      if earlier.Some? then earlier
      else if sections[i - 1].Some? && MediaOffset(StartAt(hash, sections, i)).Err? then Some(StartAt(hash, sections, i))
      else None
  }

  /** Building succeeds exactly when every section ends where a media offset can say. */
  lemma {:induction false} InReachIff(hash: Hash, sections: seq<Option<Section>>, i: nat)
    requires i <= |sections| && AllFit(hash, sections)
    ensures FirstTooFar(hash, sections, i).None? <==>
            forall k :: 0 <= k < i && sections[k].Some? ==> StartAt(hash, sections, k + 1) < 0x1_0000_0000 * MEDIA_UNIT
  {
    hide Body, AllFit;
    if i > 0 {
      InReachIff(hash, sections, i - 1);
      var end := StartAt(hash, sections, i);
      assert MediaOffset(end).Ok? <==> end < 0x1_0000_0000 * MEDIA_UNIT;
    }
  }

  ghost function EntryOf(hash: Hash, sections: seq<Option<Section>>, i: nat): SectionEntry
    requires i < |sections| && AllFit(hash, sections) && FirstTooFar(hash, sections, i + 1).None?
  {
    if sections[i].None? then EMPTY_ENTRY
    else
      StartsInReach(hash, sections, i);
      SectionEntry(StartAt(hash, sections, i) / MEDIA_UNIT, StartAt(hash, sections, i + 1) / MEDIA_UNIT, [1, 0, 0, 0, 0, 0, 0, 0])
  }

  /** What the header records for slot `i`. */
  ghost predicate SlotDescribed(hash: Hash, sections: seq<Option<Section>>, i: nat, h: Header)
    requires i < |sections| && AllFit(hash, sections) && FourSlots(h) && i < SECTIONS
  {
    FirstTooFar(hash, sections, i + 1).None? &&
    h.entries[i] == EntryOf(hash, sections, i) &&
    h.fsHeaders[i] == (if sections[i].Some? then FsHeaderOf(hash, sections[i].value) else EMPTY_FS_HEADER) &&
    h.sectionHashes[i] == (if sections[i].Some? then hash(FsHeaderBytes(FsHeaderOf(hash, sections[i].value))) else Zeros(HASH_SIZE))
  }

  ghost predicate SlotEmpty(i: nat, h: Header)
    requires FourSlots(h) && i < SECTIONS
  {
    h.entries[i] == EMPTY_ENTRY && h.fsHeaders[i] == EMPTY_FS_HEADER && h.sectionHashes[i] == Zeros(HASH_SIZE)
  }

  lemma {:induction false} BodyGrows(hash: Hash, sections: seq<Option<Section>>, i: nat, j: nat)
    requires i <= j <= |sections| && AllFit(hash, sections)
    ensures |Body(hash, sections, i)| <= |Body(hash, sections, j)|
    ensures Body(hash, sections, j)[..|Body(hash, sections, i)|] == Body(hash, sections, i)
    decreases j
  {
    hide SectionBytes;
    if i < j {
      BodyGrows(hash, sections, i, j - 1);
      var before := Body(hash, sections, j - 1);
      if sections[j - 1].Some? {
        var more := before + SectionBytes(hash, sections[j - 1].value);
        var n := |Body(hash, sections, i)|;
        TakeOfAppend(before, SectionBytes(hash, sections[j - 1].value), n);
        TakeOfTake(PadToMediaUnit(more), |more|, n);
      }
    }
  }

  lemma {:induction false} StartsInReach(hash: Hash, sections: seq<Option<Section>>, i: nat)
    requires i < |sections| && AllFit(hash, sections) && FirstTooFar(hash, sections, i + 1).None? && sections[i].Some?
    ensures StartAt(hash, sections, i) / MEDIA_UNIT <= StartAt(hash, sections, i + 1) / MEDIA_UNIT < 0x1_0000_0000
  {
    hide Body;
    BodyGrows(hash, sections, i, i + 1);
    assert MediaOffset(StartAt(hash, sections, i + 1)).Ok?;
  }

  // ---- The builder ----

  /** The two header fields a key generation is split across. */
  function SplitKeyGeneration(generation: u8): (u8, u8) {
    if generation == 1 then (0, 0) else if generation == 2 then (2, 0) else (2, generation)
  }

  const MAX_KEY_GENERATION: u8 := 32

  class NcaBuilder {
    const contentType: u8
    const titleId: u64
    var sdkVersion: u32
    var keyGeneration: u8
    var keyArea: seq<Bytes16>
    var sections: seq<Option<Section>>

    ghost predicate Valid()
      reads this
    {
      |keyArea| == |sections| == SECTIONS && 1 <= keyGeneration <= MAX_KEY_GENERATION && contentType <= LAST_CONTENT_TYPE
    }

    constructor (contentType: u8, titleId: u64)
      requires contentType <= LAST_CONTENT_TYPE
      ensures Valid() && this.contentType == contentType && this.titleId == titleId && sdkVersion == 0 && keyGeneration == 1
      ensures sections == [None, None, None, None] && forall i :: 0 <= i < SECTIONS ==> keyArea[i] == Zeros(0x10)
    {
      this.contentType := contentType;
      this.titleId := titleId;
      sdkVersion := 0;
      keyGeneration := 1;
      keyArea := [Zeros(0x10), Zeros(0x10), Zeros(0x10), Zeros(0x10)];
      sections := [None, None, None, None];
    }

    method KeyAreaKey(index: nat, key: Bytes16) returns (r: Result<(), AddSectionError>)
      requires Valid()
      modifies this`keyArea
      ensures Valid()
      ensures if index < SECTIONS then r == Ok(()) && keyArea == old(keyArea)[index := key]
              else r == Err(IndexOutOfRange(index)) && keyArea == old(keyArea)
    {
      if index >= |keyArea| {
        return Err(IndexOutOfRange(index));
      }
      keyArea := keyArea[index := key];
      r := Ok(());
    }

    /** Place a section; a slot is filled once. */
    method Place(index: nat, section: Section) returns (r: Result<(), AddSectionError>)
      requires Valid()
      modifies this`sections
      ensures Valid()
      ensures if index >= SECTIONS then r == Err(IndexOutOfRange(index)) && sections == old(sections)
              else if old(sections)[index].Some? then r == Err(IndexOccupied(index)) && sections == old(sections)
              else r == Ok(()) && sections == old(sections)[index := Some(section)]
    {
      if index >= |sections| {
        return Err(IndexOutOfRange(index));
      }
      if sections[index].Some? {
        return Err(IndexOccupied(index));
      }
      sections := sections[index := Some(section)];
      r := Ok(());
    }

    /** The header before any section is described. */
    method BlankHeader() returns (h: Header)
      requires Valid()
      ensures h == Header(NCA3_MAGIC, 0, contentType, SplitKeyGeneration(keyGeneration).0, 0, 0, titleId, sdkVersion,
                          SplitKeyGeneration(keyGeneration).1, Zeros(0x10),
                          [EMPTY_ENTRY, EMPTY_ENTRY, EMPTY_ENTRY, EMPTY_ENTRY],
                          [Zeros(HASH_SIZE), Zeros(HASH_SIZE), Zeros(HASH_SIZE), Zeros(HASH_SIZE)], keyArea,
                          [EMPTY_FS_HEADER, EMPTY_FS_HEADER, EMPTY_FS_HEADER, EMPTY_FS_HEADER])
    {
      var split := SplitKeyGeneration(keyGeneration);
      h := Header(NCA3_MAGIC, 0, contentType, split.0, 0, 0, titleId, sdkVersion, split.1, Zeros(0x10),
                  [EMPTY_ENTRY, EMPTY_ENTRY, EMPTY_ENTRY, EMPTY_ENTRY],
                  [Zeros(HASH_SIZE), Zeros(HASH_SIZE), Zeros(HASH_SIZE), Zeros(HASH_SIZE)], keyArea,
                  [EMPTY_FS_HEADER, EMPTY_FS_HEADER, EMPTY_FS_HEADER, EMPTY_FS_HEADER]);
    }

    /** Lay the sections out and describe them, or say which size cannot be recorded. */
    method Build(hash: Hash) returns (r: Result<PlainNca, BuildError>)
      requires Valid() && AllFit(hash, sections) && StartAt(hash, sections, SECTIONS) <= USIZE_MAX
      ensures var tooFar := FirstTooFar(hash, sections, SECTIONS);
        if tooFar.Some? then r == Err(TooLarge(tooFar.value))
        else r.Ok? && IsArchiveOf(r.value, hash, sections) && SameIdentity(r.value.header, this)
    {
      hide AllFit, Body, AllDescribed, SlotDescribed, FirstTooFar, SectionBytes, FsHeaderOf, FsHeaderBytes, PadToMediaUnit;
      var header := BlankHeader();
      BlankSlots(hash, sections, header);
      var body: seq<u8> := [];
      NothingLaidOut(hash, sections);
      for index := 0 to SECTIONS
        invariant body == Body(hash, sections, index) && FourSlots(header) && FirstTooFar(hash, sections, index).None?
        invariant AllDescribed(hash, sections, index, header)
        invariant SameIdentity(header, this)
      {
        OneMoreSlot(hash, sections, index);
        BodyGrows(hash, sections, index, SECTIONS);
        BodyGrows(hash, sections, index + 1, SECTIONS);
        if sections[index].Some? {
          var section := sections[index].value;
          var mediaStart := MediaOffset(HEADER_SIZE + |body|);
          if mediaStart.Err? {
            // A section starts where an earlier one was already found to end in reach.
            StartReachable(hash, sections, index);
            assert false;
          }
          var data, fsHeader := LayOutSection(hash, section);
          body := PadToMediaUnit(body + data);
          var mediaEnd := MediaOffset(HEADER_SIZE + |body|);
          if mediaEnd.Err? {
            StillTooFar(hash, sections, index + 1, SECTIONS);
            return Err(mediaEnd.error);
          }
          var entry := SectionEntry(mediaStart.value, mediaEnd.value, [1, 0, 0, 0, 0, 0, 0, 0]);
          var digest := hash(FsHeaderBytes(fsHeader));
          SlotFilled(hash, sections, index, header, entry, digest);
          header := header.(entries := header.entries[index := entry],
                            sectionHashes := header.sectionHashes[index := digest],
                            fsHeaders := header.fsHeaders[index := fsHeader]);
        } else {
          SlotLeftEmpty(hash, sections, index, header);
        }
      }
      SizeAside(hash, sections, header, HEADER_SIZE + |body|);
      header := header.(ncaSize := HEADER_SIZE + |body|);
      r := Ok(PlainNca(header, body));
    }
  }

  /** The fields that describe the archive rather than its sections. */
  ghost predicate SameIdentity(h: Header, b: NcaBuilder)
    reads b
  {
    h.magic == NCA3_MAGIC && h.distribution == 0 && h.contentType == b.contentType && h.kaekIndex == 0 && h.titleId == b.titleId &&
    h.sdkVersion == b.sdkVersion && (h.cryptoType, h.cryptoType2) == SplitKeyGeneration(b.keyGeneration) &&
    h.rightsId == Zeros(0x10) && h.keys == b.keyArea
  }

  /** The first `n` slots described, the others untouched. */
  ghost predicate AllDescribed(hash: Hash, sections: seq<Option<Section>>, n: nat, h: Header)
    requires n <= SECTIONS == |sections| && AllFit(hash, sections) && FourSlots(h)
  {
    (forall i :: 0 <= i < n ==> SlotDescribed(hash, sections, i, h)) &&
    forall i :: n <= i < SECTIONS ==> SlotEmpty(i, h)
  }

  /** The archive these sections make. */
  ghost predicate IsArchiveOf(nca: PlainNca, hash: Hash, sections: seq<Option<Section>>) {
    |sections| == SECTIONS && AllFit(hash, sections) && FirstTooFar(hash, sections, SECTIONS).None? &&
    FourSlots(nca.header) && nca.header.magic == NCA3_MAGIC && nca.header.contentType <= LAST_CONTENT_TYPE &&
    nca.body == Body(hash, sections, SECTIONS) && AllDescribed(hash, sections, SECTIONS, nca.header) &&
    nca.header.ncaSize == StartAt(hash, sections, SECTIONS)
  }

  /** The whole archive, header first. */
  function ToBytes(nca: PlainNca): seq<u8> {
    HeaderBytes(nca.header) + nca.body
  }

  // ---- Counters ----

  /** A section still to be encrypted: where it sits in the body, and the counter for its first byte. */
  datatype CtrSection = CtrSection(start: nat, end: nat, counter: Bytes16)

  method SectionCounter(sectionCtr: Bytes8, offset: u64) returns (counter: Bytes16)
    ensures counter == CounterOf(sectionCtr, offset)
  {
    var bytes := new u8[0x10](_ => 0);
    for index := 0 to 8
      invariant forall k :: 0 <= k < index ==> bytes[k] == sectionCtr[7 - k]
    {
      bytes[index] := sectionCtr[7 - index];
    }
    var low := Be64(offset / 0x10);
    for index := 0 to 8
      invariant forall k :: 0 <= k < 8 ==> bytes[k] == sectionCtr[7 - k]
      invariant forall k :: 0 <= k < index ==> bytes[8 + k] == low[k]
    {
      bytes[8 + index] := low[index];
    }
    counter := bytes[..];
  }

  /** Sections wanting encryption lie past the header. */
  predicate CtrPastHeader(h: Header) {
    |h.entries| == |h.fsHeaders| &&
    forall i :: 0 <= i < |h.entries| && h.fsHeaders[i].cryptType == CRYPT_CTR ==>
      HEADER_SIZE <= h.entries[i].mediaStart * MEDIA_UNIT <= h.entries[i].mediaEnd * MEDIA_UNIT
  }

  /** What slot `i` asks of a cipher. */
  function CtrSectionOf(h: Header, i: nat): CtrSection
    requires CtrPastHeader(h) && i < |h.entries| && h.fsHeaders[i].cryptType == CRYPT_CTR
  {
    var start, end := h.entries[i].mediaStart * MEDIA_UNIT, h.entries[i].mediaEnd * MEDIA_UNIT;
    CtrSection(start - HEADER_SIZE, end - HEADER_SIZE, CounterOf(h.fsHeaders[i].sectionCtr, start))
  }

  function CtrList(h: Header, n: nat): seq<CtrSection>
    requires CtrPastHeader(h) && n <= |h.entries|
  {
    if n == 0 then []
    else CtrList(h, n - 1) + (if h.fsHeaders[n - 1].cryptType == CRYPT_CTR then [CtrSectionOf(h, n - 1)] else [])
  }

  method CtrSections(nca: PlainNca) returns (sections: seq<CtrSection>)
    requires CtrPastHeader(nca.header)
    ensures sections == CtrList(nca.header, |nca.header.entries|)
  {
    sections := [];
    for i := 0 to |nca.header.entries|
      invariant sections == CtrList(nca.header, i)
    {
      var entry, fsHeader := nca.header.entries[i], nca.header.fsHeaders[i];
      if fsHeader.cryptType == CRYPT_CTR {
        var start, end := entry.mediaStart * MEDIA_UNIT, entry.mediaEnd * MEDIA_UNIT;
        var counter := SectionCounter(fsHeader.sectionCtr, start);
        sections := sections + [CtrSection(start - HEADER_SIZE, end - HEADER_SIZE, counter)];
      }
    }
  }

  // ---- Steps of the layout ----

  lemma {:induction false} BlankSlots(hash: Hash, sections: seq<Option<Section>>, h: Header)
    requires |sections| == SECTIONS && AllFit(hash, sections) && FourSlots(h)
    requires forall i :: 0 <= i < SECTIONS ==> SlotEmpty(i, h)
    ensures AllDescribed(hash, sections, 0, h)
  {
  }

  lemma {:induction false} NothingLaidOut(hash: Hash, sections: seq<Option<Section>>)
    requires AllFit(hash, sections)
    ensures Body(hash, sections, 0) == [] && FirstTooFar(hash, sections, 0).None?
  {
  }

  lemma {:induction false} OneMoreSlot(hash: Hash, sections: seq<Option<Section>>, i: nat)
    requires i < |sections| && AllFit(hash, sections) && FirstTooFar(hash, sections, i).None?
    ensures sections[i].Some? ==> SectionFits(hash, sections[i].value)
    ensures sections[i].None? ==> Body(hash, sections, i + 1) == Body(hash, sections, i)
    ensures sections[i].Some? ==>
      Body(hash, sections, i + 1) == PadToMediaUnit(Body(hash, sections, i) + SectionBytes(hash, sections[i].value))
    ensures FirstTooFar(hash, sections, i + 1) ==
            if sections[i].Some? && MediaOffset(StartAt(hash, sections, i + 1)).Err? then Some(StartAt(hash, sections, i + 1)) else None
  {
    hide SectionBytes, SectionFits, PadToMediaUnit;
  }

  lemma {:induction false} StartReachable(hash: Hash, sections: seq<Option<Section>>, i: nat)
    requires i <= |sections| && AllFit(hash, sections) && FirstTooFar(hash, sections, i).None?
    ensures MediaOffset(StartAt(hash, sections, i)).Ok?
  {
    hide SectionBytes, SectionFits, PadToMediaUnit;
    if i > 0 {
      StartReachable(hash, sections, i - 1);
    }
  }

  lemma {:induction false} StillTooFar(hash: Hash, sections: seq<Option<Section>>, i: nat, j: nat)
    requires i <= j <= |sections| && AllFit(hash, sections) && FirstTooFar(hash, sections, i).Some?
    ensures FirstTooFar(hash, sections, j) == FirstTooFar(hash, sections, i)
    decreases j
  {
    hide Body, MediaOffset;
    if i < j {
      StillTooFar(hash, sections, i, j - 1);
    }
  }

  lemma {:induction false} SlotFilled(hash: Hash, sections: seq<Option<Section>>, i: nat, h: Header, entry: SectionEntry, digest: Digest)
    requires i < SECTIONS == |sections| && AllFit(hash, sections) && FourSlots(h)
    requires FirstTooFar(hash, sections, i).None? && FirstTooFar(hash, sections, i + 1).None?
    requires AllDescribed(hash, sections, i, h) && sections[i].Some? && SectionFits(hash, sections[i].value)
    requires entry == EntryOf(hash, sections, i) && digest == hash(FsHeaderBytes(FsHeaderOf(hash, sections[i].value)))
    ensures AllDescribed(hash, sections, i + 1,
              h.(entries := h.entries[i := entry], sectionHashes := h.sectionHashes[i := digest],
                 fsHeaders := h.fsHeaders[i := FsHeaderOf(hash, sections[i].value)]))
  {
    hide AllFit, FirstTooFar, EntryOf, FsHeaderOf, FsHeaderBytes, Body, SectionFits;
    var next := h.(entries := h.entries[i := entry], sectionHashes := h.sectionHashes[i := digest],
                   fsHeaders := h.fsHeaders[i := FsHeaderOf(hash, sections[i].value)]);
    forall k | 0 <= k < i + 1
      ensures SlotDescribed(hash, sections, k, next)
    {
      assert k < i ==> SlotDescribed(hash, sections, k, h);
    }
    forall k | i + 1 <= k < SECTIONS
      ensures SlotEmpty(k, next)
    {
      assert SlotEmpty(k, h);
    }
  }

  lemma {:induction false} SlotLeftEmpty(hash: Hash, sections: seq<Option<Section>>, i: nat, h: Header)
    requires i < SECTIONS == |sections| && AllFit(hash, sections) && FourSlots(h)
    requires FirstTooFar(hash, sections, i).None? && FirstTooFar(hash, sections, i + 1).None?
    requires AllDescribed(hash, sections, i, h) && sections[i].None?
    ensures AllDescribed(hash, sections, i + 1, h)
  {
    hide AllFit, FirstTooFar, FsHeaderOf, FsHeaderBytes, Body, SectionFits;
    assert SlotEmpty(i, h);
    forall k | 0 <= k < i + 1
      ensures SlotDescribed(hash, sections, k, h)
    {
      assert k < i ==> SlotDescribed(hash, sections, k, h);
    }
  }

  lemma {:induction false} SizeAside(hash: Hash, sections: seq<Option<Section>>, h: Header, size: u64)
    requires |sections| == SECTIONS && AllFit(hash, sections) && FirstTooFar(hash, sections, SECTIONS).None? && FourSlots(h)
    requires AllDescribed(hash, sections, SECTIONS, h)
    ensures FourSlots(h.(ncaSize := size)) && AllDescribed(hash, sections, SECTIONS, h.(ncaSize := size))
  {
    hide AllFit, FirstTooFar, EntryOf, FsHeaderOf, FsHeaderBytes, Body, SectionFits;
    forall k | 0 <= k < SECTIONS
      ensures SlotDescribed(hash, sections, k, h.(ncaSize := size))
    {
      assert SlotDescribed(hash, sections, k, h);
    }
  }
}
