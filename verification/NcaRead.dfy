/** The NCA reader: everything a section points at is checked once, when the archive is opened. */
module NcaRead {
  import opened Bytes
  import opened Packing
  import opened NcaFormat
  import Ivfc

  datatype FromBytesError =
    | BufferTooSmall(required: nat, available: nat)
    | InvalidMagic(found: nat)
    | UnknownContentType(found: nat)
    | SectionBoundsInvalid(index: nat, start: nat, end: nat)
    | SectionOutOfBounds(index: nat, start: nat, end: nat, available: nat)
    | UnknownHashType(index: nat, found: nat)
    | UnknownCryptType(index: nat, found: nat)
    | IvfcLevelCountInvalid(index: nat, levelCount: u32)
    | DataRegionOutOfBounds(index: nat, offset: nat, size: nat, available: nat)

  datatype Range = Range(start: nat, end: nat)

  datatype Nca = Nca(bytes: seq<u8>, header: Header)

  datatype SectionView = SectionView(index: nat, range: Range, fsHeader: FsHeader, bytes: seq<u8>, data: seq<u8>)

  // ---- One section's checks ----

  /** Where a section lies, or nothing for an entry that ends at media unit zero. */
  function SectionRange(index: nat, e: SectionEntry, available: nat): (r: Result<Option<Range>, FromBytesError>)
    ensures r.Ok? && r.value.Some? ==>
      HEADER_SIZE <= r.value.value.start <= r.value.value.end <= available && r.value.value.start % 0x10 == 0
    ensures r.Ok? && r.value.None? <==> e.mediaEnd == 0
  {
    var start, end := e.mediaStart * MEDIA_UNIT, e.mediaEnd * MEDIA_UNIT;
    if end == 0 then Ok(None)
    else if end < start || start < HEADER_SIZE then Err(SectionBoundsInvalid(index, start, end))
    else if end > available then Err(SectionOutOfBounds(index, start, end, available))
    else Ok(Some(Range(start, end)))
  }

  /** The extent the superblock names, before it is checked against the section. */
  function DataExtent(index: nat, f: FsHeader): Result<(u64, u64), FromBytesError> {
    if f.hashType == HASH_PFS0 then Ok((U64At(f.superblock, 0x38), U64At(f.superblock, 0x40)))
    else
      // The level count includes the root hash, so the image itself is two below it.
      var levelCount := U32At(f.superblock, 0xC);
      if levelCount < 2 || levelCount - 2 >= Ivfc.LEVELS then Err(IvfcLevelCountInvalid(index, levelCount))
      else Ok((U64At(f.superblock, 0x10 + 0x18 * (levelCount - 2)), U64At(f.superblock, 0x18 + 0x18 * (levelCount - 2))))
  }

  function ExtentEnd(index: nat, f: FsHeader): nat
    requires DataExtent(index, f).Ok?
  {
    DataExtent(index, f).value.0 + DataExtent(index, f).value.1
  }

  /** Where the image or archive lies within a section. */
  function DataRange(index: nat, f: FsHeader, sectionSize: nat): (r: Result<Range, FromBytesError>)
    ensures r.Ok? <==> DataExtent(index, f).Ok? && ExtentEnd(index, f) <= USIZE_MAX && ExtentEnd(index, f) <= sectionSize
    ensures r.Ok? ==> r.value.start <= r.value.end <= sectionSize && DataExtent(index, f) == Ok((r.value.start, r.value.end - r.value.start))
  {
    var extent := DataExtent(index, f);
    if extent.Err? then Err(extent.error)
    else
      var (offset, size) := extent.value;
      if offset + size > USIZE_MAX || offset + size > sectionSize then Err(DataRegionOutOfBounds(index, offset, size, sectionSize))
      else Ok(Range(offset, offset + size))
  }

  predicate KnownCrypt(value: u8) {
    value == CRYPT_NONE || value == CRYPT_XTS || value == CRYPT_CTR || value == CRYPT_BKTR
  }

  predicate KnownHash(value: u8) {
    value == HASH_PFS0 || value == HASH_ROMFS
  }

  /** The first thing wrong with one slot. */
  function SectionFault(index: nat, e: SectionEntry, f: FsHeader, available: nat): Option<FromBytesError> {
    var range := SectionRange(index, e, available);
    if range.Err? then Some(range.error)
    else if range.value.None? then None
    else if !KnownCrypt(f.cryptType) then Some(UnknownCryptType(index, f.cryptType))
    else if !KnownHash(f.hashType) then Some(UnknownHashType(index, f.hashType))
    else
      var data := DataRange(index, f, range.value.value.end - range.value.value.start);
      if data.Err? then Some(data.error) else None
  }

  /** Slot `i` is the first from `index` on with anything wrong, and `e` says what. */
  predicate IsFirstFault(h: Header, index: nat, i: nat, available: nat, e: FromBytesError)
    requires FourSlots(h) && index <= i < SECTIONS
  {
    SectionFault(i, h.entries[i], h.fsHeaders[i], available) == Some(e) &&
    forall k :: index <= k < i ==> SectionFault(k, h.entries[k], h.fsHeaders[k], available).None?
  }

  /** The first fault of the slots from `index` on. */
  function FirstFault(h: Header, index: nat, available: nat): (r: Option<FromBytesError>)
    requires FourSlots(h) && index <= SECTIONS
    ensures r.None? <==> forall i :: index <= i < SECTIONS ==> SectionFault(i, h.entries[i], h.fsHeaders[i], available).None?
    decreases SECTIONS - index
  {
    if index == SECTIONS then None
    else
      var fault := SectionFault(index, h.entries[index], h.fsHeaders[index], available);
      if fault.Some? then fault else FirstFault(h, index + 1, available)
  }

  /** What each error says of the buffer: what is wrong, and that nothing checked before it is. */
  predicate Reports(e: FromBytesError, bytes: seq<u8>) {
    if e.BufferTooSmall? then e.required == HEADER_SIZE > e.available == |bytes|
    else
      |bytes| >= HEADER_SIZE &&
      var h := HeaderAt(bytes);
      if e.InvalidMagic? then e.found == h.magic != NCA3_MAGIC
      else
        h.magic == NCA3_MAGIC &&
        if e.UnknownContentType? then e.found == h.contentType > LAST_CONTENT_TYPE
        else
          h.contentType <= LAST_CONTENT_TYPE && exists i :: 0 <= i < SECTIONS && IsFirstFault(h, 0, i, |bytes|, e)
  }

  function TryFromBytes(bytes: seq<u8>): (r: Result<Nca, FromBytesError>)
    ensures r.Ok? <==>
            |bytes| >= HEADER_SIZE && HeaderAt(bytes).magic == NCA3_MAGIC && HeaderAt(bytes).contentType <= LAST_CONTENT_TYPE &&
            Accepted(Nca(bytes, HeaderAt(bytes)))
    ensures r.Ok? ==> r.value == Nca(bytes, HeaderAt(bytes))
  {
    if |bytes| < HEADER_SIZE then Err(BufferTooSmall(HEADER_SIZE, |bytes|))
    else
      var h := HeaderAt(bytes);
      if h.magic != NCA3_MAGIC then Err(InvalidMagic(h.magic))
      else if h.contentType > LAST_CONTENT_TYPE then Err(UnknownContentType(h.contentType))
      else
        var fault := FirstFault(h, 0, |bytes|);
        if fault.Some? then Err(fault.value) else Ok(Nca(bytes, h))
  }

  lemma {:induction false} FirstFaultIsFirst(h: Header, index: nat, available: nat) returns (i: nat)
    requires FourSlots(h) && index <= SECTIONS && FirstFault(h, index, available).Some?
    ensures index <= i < SECTIONS && IsFirstFault(h, index, i, available, FirstFault(h, index, available).value)
    decreases SECTIONS - index
  {
    hide SectionFault;
    i := index;
    if SectionFault(index, h.entries[index], h.fsHeaders[index], available).None? {
      i := FirstFaultIsFirst(h, index + 1, available);
    }
  }

  /** A refusal says what is wrong, and that nothing checked before it is. */
  lemma {:induction false} RefusalReports(bytes: seq<u8>)
    ensures TryFromBytes(bytes).Err? ==> Reports(TryFromBytes(bytes).error, bytes)
  {
    hide FirstFault, SectionFault, IsFirstFault, U32At, U64At;
    if |bytes| >= HEADER_SIZE && HeaderAt(bytes).magic == NCA3_MAGIC && HeaderAt(bytes).contentType <= LAST_CONTENT_TYPE {
      var h := HeaderAt(bytes);
      if FirstFault(h, 0, |bytes|).Some? {
        var i := FirstFaultIsFirst(h, 0, |bytes|);
        FaultIsOfSection(h, i, |bytes|);
      }
    }
  }

  lemma {:induction false} FaultIsOfSection(h: Header, i: nat, available: nat)
    requires FourSlots(h) && i < SECTIONS && FirstFault(h, 0, available).Some?
    requires IsFirstFault(h, 0, i, available, FirstFault(h, 0, available).value)
    ensures var e := FirstFault(h, 0, available).value; !e.BufferTooSmall? && !e.InvalidMagic? && !e.UnknownContentType?
  {
    hide FirstFault;
  }

  // ---- Accessors ----

  /** An archive every section of which was found inside the buffer. */
  predicate Accepted(nca: Nca) {
    FourSlots(nca.header) &&
    forall i :: 0 <= i < SECTIONS ==> SectionFault(i, nca.header.entries[i], nca.header.fsHeaders[i], |nca.bytes|).None?
  }

  /** The section in a slot; absent exactly when its entry is empty. No slice needs checking again. */
  function Section(nca: Nca, index: nat): (r: Option<SectionView>)
    requires Accepted(nca) && index < SECTIONS
    ensures r.None? <==> nca.header.entries[index].mediaEnd == 0
    ensures r.Some? ==> HEADER_SIZE <= r.value.range.start <= r.value.range.end <= |nca.bytes|
    ensures r.Some? ==> r.value.index == index && r.value.fsHeader == nca.header.fsHeaders[index]
    ensures r.Some? ==> r.value.range.start == MEDIA_UNIT * nca.header.entries[index].mediaStart
    ensures r.Some? ==> r.value.range.end == MEDIA_UNIT * nca.header.entries[index].mediaEnd
    ensures r.Some? ==> r.value.bytes == nca.bytes[r.value.range.start..r.value.range.end]
    ensures r.Some? ==>
      var extent := DataExtent(index, nca.header.fsHeaders[index]);
      extent.Ok? && |r.value.data| == extent.value.1 && Holds(r.value.bytes, extent.value.0, r.value.data)
  {
    var e, f := nca.header.entries[index], nca.header.fsHeaders[index];
    assert SectionFault(index, e, f, |nca.bytes|).None?;
    var range := SectionRange(index, e, |nca.bytes|).value;
    if range.None? then None
    else
      var bytes := nca.bytes[range.value.start..range.value.end];
      var data := DataRange(index, f, |bytes|).value;
      Some(SectionView(index, range.value, f, bytes, bytes[data.start..data.end]))
  }

  /** The counter for a section's first byte, when it is CTR-encrypted. */
  method Counter(s: SectionView) returns (r: Option<Bytes16>)
    requires s.range.start <= USIZE_MAX
    ensures r == if s.fsHeader.cryptType == CRYPT_CTR then Some(CounterOf(s.fsHeader.sectionCtr, s.range.start)) else None
  {
    if s.fsHeader.cryptType != CRYPT_CTR {
      return None;
    }
    var ctr, low := s.fsHeader.sectionCtr, Be64(s.range.start / 0x10);
    var counter := new u8[0x10](_ => 0);
    for index := 0 to 8
      invariant forall k :: 0 <= k < index ==> counter[k] == ctr[7 - k]
    {
      counter[index] := ctr[7 - index];
    }
    for index := 0 to 8
      invariant forall k :: 0 <= k < 8 ==> counter[k] == ctr[7 - k]
      invariant forall k :: 0 <= k < index ==> counter[8 + k] == low[k]
    {
      counter[8 + index] := low[index];
    }
    assert counter[..] == CounterOf(ctr, s.range.start);
    r := Some(counter[..]);
  }
}
