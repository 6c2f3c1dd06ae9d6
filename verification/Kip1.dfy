/** The KIP1 image: a header, three compressed segments, and a reader that expands them again. */
module Kip1 {
  import opened Bytes
  import opened Packing
  import opened BlzFormat
  import opened BlzParse
  import opened BlzDecode
  import opened Names
  import BlzCompress

  const KIP1_MAGIC: u32 := 0x3150_494B
  const HEADER_SIZE := 0x100
  const NAME_SIZE := 12
  const CAPABILITIES_SIZE := 0x80
  const MAX_CAPABILITIES := 0x20
  const SEGMENTS := 6
  /** Segments a KIP1 loads: text, rodata, data and bss. */
  const LOADED := 4
  const BSS := 3
  const DEFAULT_FLAGS: u8 := 0x3F
  /** The longest segment whose compressed length always fits its 32-bit field. */
  const MAX_SEGMENT := 0xFFFF_FFF8
  /** The compressor panics on segments of this length or more. */
  const TOO_LONG := 0xFFFF_FFFF

  datatype SegmentHeader = SegmentHeader(address: u32, decompSize: u32, compSize: u32, attributes: u32)

  type NameBytes = b: seq<u8> | |b| == NAME_SIZE witness Zeros(NAME_SIZE)
  type CapabilityBytes = b: seq<u8> | |b| == CAPABILITIES_SIZE witness Zeros(CAPABILITIES_SIZE)

  datatype Header = Header(
    magic: u32, name: NameBytes, titleId: u64, processCategory: u32, mainThreadPriority: u8, defaultCpuId: u8, flags: u8,
    segments: seq<SegmentHeader>, capabilities: CapabilityBytes)

  // ---- Header bytes ----

  function SegmentBytes(s: SegmentHeader): (b: seq<u8>)
    ensures |b| == 0x10
  {
    Words([s.address, s.decompSize, s.compSize, s.attributes])
  }

  function SegmentParts(ss: seq<SegmentHeader>): (ps: seq<seq<u8>>)
    ensures |ps| == |ss| && forall i :: 0 <= i < |ss| ==> ps[i] == SegmentBytes(ss[i]) && |ps[i]| == 0x10
  {
    seq(|ss|, i requires 0 <= i < |ss| => SegmentBytes(ss[i]))
  }

  function HeaderBytes(h: Header): seq<u8> {
    Le32(h.magic) + h.name + Le64(h.titleId) + Le32(h.processCategory) +
    [h.mainThreadPriority, h.defaultCpuId, 0, h.flags] + Concat(SegmentParts(h.segments)) + h.capabilities
  }

  function SegmentAt(b: seq<u8>, at: nat): SegmentHeader
    requires at + 0x10 <= |b|
  {
    SegmentHeader(U32At(b, at), U32At(b, at + 4), U32At(b, at + 8), U32At(b, at + 12))
  }

  function HeaderAt(b: seq<u8>): (h: Header)
    requires |b| >= HEADER_SIZE
    ensures |h.segments| == SEGMENTS
  {
    Header(U32At(b, 0), b[4..16], U64At(b, 16), U32At(b, 24), b[28], b[29], b[31],
           seq(SEGMENTS, i requires 0 <= i < SEGMENTS => SegmentAt(b, 0x20 + 0x10 * i)), b[0x80..0x100])
  }

  lemma {:induction false} SegmentReads(b: seq<u8>, at: nat, s: SegmentHeader)
    requires Holds(b, at, SegmentBytes(s))
    ensures SegmentAt(b, at) == s
  {
    hide Words, FromLe32;
    var ws := [s.address, s.decompSize, s.compSize, s.attributes];
    WordReads(b, at, ws, 0);
    WordReads(b, at, ws, 1);
    WordReads(b, at, ws, 2);
    WordReads(b, at, ws, 3);
  }

  lemma {:induction false} SegmentsLength(h: Header)
    requires |h.segments| == SEGMENTS
    ensures |Concat(SegmentParts(h.segments))| == 0x60 && |HeaderBytes(h)| == HEADER_SIZE
  {
    hide Concat, SegmentParts;
    EqualPartAt(SegmentParts(h.segments), 0x10, 0);
  }

  lemma {:induction false} HeaderReadsBack(b: seq<u8>, h: Header)
    requires |h.segments| == SEGMENTS && Holds(b, 0, HeaderBytes(h))
    ensures |b| >= HEADER_SIZE && HeaderAt(b) == h
  {
    hide Concat, SegmentParts, SegmentBytes, SegmentAt, Le32, Le64, FromLe32, FromLe64;
    SegmentsLength(h);
    var m, title, cat := Le32(h.magic), Le64(h.titleId), Le32(h.processCategory);
    var four, segs := [h.mainThreadPriority, h.defaultCpuId, 0, h.flags], Concat(SegmentParts(h.segments));
    HoldsMiddle(b, 0, m + h.name + title + cat + four, segs, h.capabilities);
    HoldsMiddle(b, 0, m + h.name + title, cat, four);
    HoldsMiddle(b, 0, m, h.name, title);
    Le32RoundTrip(h.magic);
    Le32RoundTrip(h.processCategory);
    Le64RoundTrip(h.titleId);
    var s := b[28..32];
    assert s == four && s[0] == b[28] && s[1] == b[29] && s[3] == b[31];
    var back := HeaderAt(b);
    forall i | 0 <= i < SEGMENTS
      ensures back.segments[i] == h.segments[i]
    {
      PartsRead(b, 0x20, SegmentParts(h.segments), 0x10, i);
      SegmentReads(b, 0x20 + 0x10 * i, h.segments[i]);
    }
  }

  // ---- Building ----

  datatype BuildError =
    | MissingName | MissingText | MissingRodata | MissingData
    | IncompleteBss(hasVaddr: bool, hasSize: bool)
    | TooManyKernelCapabilities(count: nat)

  /** The name as the header stores it: cut to eleven bytes, so the twelfth always terminates it. */
  function NameField(name: seq<u8>): (b: NameBytes) {
    NulTerminated(name, NAME_SIZE)
  }

  function CapabilityField(capabilities: seq<u32>): (b: CapabilityBytes)
    requires |capabilities| <= MAX_CAPABILITIES
  {
    Words(capabilities) + Fill(0xFF, CAPABILITIES_SIZE - 4 * |capabilities|)
  }

  method EncodeCapabilities(capabilities: seq<u32>) returns (bytes: CapabilityBytes)
    requires |capabilities| <= MAX_CAPABILITIES
    ensures bytes == CapabilityField(capabilities)
  {
    var field := Fill(0xFF, CAPABILITIES_SIZE);
    for i := 0 to |capabilities|
      invariant field == Words(capabilities[..i]) + Fill(0xFF, CAPABILITIES_SIZE - 4 * i)
    {
      TakeOneMore(capabilities, i);
      WordsSnoc(capabilities[..i], capabilities[i]);
      var rest := Fill(0xFF, CAPABILITIES_SIZE - 4 * i);
      assert field[..4 * i] == Words(capabilities[..i]) && field[4 * i + 4..] == Fill(0xFF, CAPABILITIES_SIZE - 4 * i - 4);
      field := field[..4 * i] + Le32(capabilities[i]) + field[4 * i + 4..];
    }
    assert capabilities[..|capabilities|] == capabilities;
    bytes := field;
  }

  /** The image: the header, then the three segments compressed, each length recorded as far as 32 bits go. */
  ghost predicate IsImageOf(image: seq<u8>, h: Header, text: seq<u8>, rodata: seq<u8>, data: seq<u8>,
                            t: seq<u8>, r: seq<u8>, d: seq<u8>)
  {
    h.magic == KIP1_MAGIC && |h.segments| == SEGMENTS && image == HeaderBytes(h) + t + r + d &&
    SegmentIs(h.segments[0], text, t) && SegmentIs(h.segments[1], rodata, r) && SegmentIs(h.segments[2], data, d) &&
    h.segments[3].compSize == 0
  }

  ghost predicate SegmentIs(s: SegmentHeader, original: seq<u8>, stored: seq<u8>) {
    |original| < TOO_LONG && s.decompSize == |original| && s.compSize == |stored| % 0x1_0000_0000 && IsCompressed(original, stored)
  }

  class Kip1Builder {
    var name: Option<seq<u8>>
    var titleId: u64
    var processCategory: u32
    var mainThreadPriority: u8
    var defaultCpuId: u8
    var flags: Option<u8>
    var text: Option<seq<u8>>
    var textVaddr: u32
    var rodata: Option<seq<u8>>
    var rodataVaddr: u32
    var rodataAttributes: u32
    var data: Option<seq<u8>>
    var dataVaddr: u32
    var bssVaddr: Option<u32>
    var bssSize: Option<u32>
    var kernelCapabilities: seq<u32>

    constructor ()
      ensures Refusal() == Some(MissingName)
      ensures titleId == 0 && processCategory == 0 && mainThreadPriority == 0 && defaultCpuId == 0 && flags == None
      ensures text == None && rodata == None && data == None && bssVaddr == None && bssSize == None && kernelCapabilities == []
    {
      name, titleId, processCategory, mainThreadPriority, defaultCpuId, flags := None, 0, 0, 0, 0, None;
      text, textVaddr, rodata, rodataVaddr, rodataAttributes := None, 0, None, 0, 0;
      data, dataVaddr, bssVaddr, bssSize, kernelCapabilities := None, 0, None, None, [];
    }

    /** Why the builder cannot produce an image yet, first reason first. */
    function Refusal(): Option<BuildError>
      reads this
    {
      if name.None? then Some(MissingName)
      else if text.None? then Some(MissingText)
      else if rodata.None? then Some(MissingRodata)
      else if data.None? then Some(MissingData)
      else if bssVaddr.Some? != bssSize.Some? then Some(IncompleteBss(bssVaddr.Some?, bssSize.Some?))
      else if |kernelCapabilities| > MAX_CAPABILITIES then Some(TooManyKernelCapabilities(|kernelCapabilities|))
      else None
    }

    /** Every supplied segment has at most `most` bytes. */
    ghost predicate SegmentsWithin(most: nat)
      reads this
    {
      (text.Some? ==> |text.value| <= most) && (rodata.Some? ==> |rodata.value| <= most) && (data.Some? ==> |data.value| <= most)
    }

    /** The header fields that do not come from compression. */
    ghost predicate Describes(h: Header)
      requires Refusal().None?
      reads this
    {
      h.name == NameField(name.value) && h.titleId == titleId && h.processCategory == processCategory &&
      h.mainThreadPriority == mainThreadPriority && h.defaultCpuId == defaultCpuId &&
      h.flags == (if flags.Some? then flags.value else DEFAULT_FLAGS) && |h.segments| == SEGMENTS &&
      h.segments[0].address == textVaddr && h.segments[0].attributes == 0 &&
      h.segments[1].address == rodataVaddr && h.segments[1].attributes == rodataAttributes &&
      h.segments[2].address == dataVaddr && h.segments[2].attributes == 0 &&
      h.segments[3] == (if bssVaddr.Some? then SegmentHeader(bssVaddr.value, bssSize.value, 0, 0) else SegmentHeader(0, 0, 0, 0)) &&
      h.segments[4] == h.segments[5] == SegmentHeader(0, 0, 0, 0) && h.capabilities == CapabilityField(kernelCapabilities)
    }

    /** An image of what the builder holds. */
    ghost predicate Makes(image: seq<u8>)
      requires Refusal().None?
      reads this
    {
      exists h, t, r, d :: Describes(h) && IsImageOf(image, h, text.value, rodata.value, data.value, t, r, d)
    }

    method Build() returns (result: Result<seq<u8>, BuildError>)
      requires SegmentsWithin(TOO_LONG - 1)
      ensures if Refusal().Some? then result == Err(Refusal().value) else result.Ok? && Makes(result.value)
    {
      hide IsCompressed, CapabilityField, NameField, HeaderBytes;
      if name.None? {
        return Err(MissingName);
      }
      if text.None? {
        return Err(MissingText);
      }
      if rodata.None? {
        return Err(MissingRodata);
      }
      if data.None? {
        return Err(MissingData);
      }
      if bssVaddr.Some? != bssSize.Some? {
        return Err(IncompleteBss(bssVaddr.Some?, bssSize.Some?));
      }
      if |kernelCapabilities| > MAX_CAPABILITIES {
        return Err(TooManyKernelCapabilities(|kernelCapabilities|));
      }
      var textHeader, textStored := PackSegment(text.value, textVaddr, 0);
      var rodataHeader, rodataStored := PackSegment(rodata.value, rodataVaddr, rodataAttributes);
      var dataHeader, dataStored := PackSegment(data.value, dataVaddr, 0);
      var bssHeader := if bssVaddr.Some? then SegmentHeader(bssVaddr.value, bssSize.value, 0, 0) else SegmentHeader(0, 0, 0, 0);
      var capabilities := EncodeCapabilities(kernelCapabilities);
      var header := Header(
        KIP1_MAGIC, NameField(name.value), titleId, processCategory, mainThreadPriority, defaultCpuId,
        if flags.Some? then flags.value else DEFAULT_FLAGS,
        [textHeader, rodataHeader, dataHeader, bssHeader, SegmentHeader(0, 0, 0, 0), SegmentHeader(0, 0, 0, 0)],
        capabilities);
      var output := HeaderBytes(header);
      output := output + textStored;
      output := output + rodataStored;
      output := output + dataStored;
      assert IsImageOf(output, header, text.value, rodata.value, data.value, textStored, rodataStored, dataStored);
      result := Ok(output);
    }
  }

  method PackSegment(original: seq<u8>, address: u32, attributes: u32) returns (s: SegmentHeader, stored: seq<u8>)
    requires |original| < TOO_LONG
    ensures SegmentIs(s, original, stored) && s.address == address && s.attributes == attributes
  {
    hide IsCompressed;
    stored := BlzCompress.Compress(original);
    s := SegmentHeader(address, |original|, |stored| % 0x1_0000_0000, attributes);
  }

  // ---- Reading ----

  datatype FromBytesError =
    | BufferTooSmall(required: nat, available: nat)
    | InvalidMagic(found: u32)
    | SegmentBoundsOverflow(index: nat, offset: nat, size: nat)
    | SegmentOutOfBounds(index: nat, offset: nat, size: nat, available: nat)

  datatype Image = Image(header: Header, bytes: seq<u8>)

  datatype Segment = Segment(index: nat, descriptor: SegmentHeader, compressed: bool, stored: seq<u8>)

  datatype SegmentError = SegmentError(index: nat, source: DecompressError)

  /** Bytes a segment occupies in the file; bss occupies none. */
  function StoredSize(h: Header, index: nat): nat
    requires |h.segments| == SEGMENTS && index < LOADED
  {
    if index == BSS then 0 else h.segments[index].compSize
  }

  /** Whether the flags mark a segment packed; bit 3 is not a compression bit. */
  predicate MarkedPacked(flags: u8, index: nat) {
    if index == 0 then flags % 2 == 1 else if index == 1 then flags / 2 % 2 == 1 else index == 2 && flags / 4 % 2 == 1
  }

  function StartOfSegment(h: Header, index: nat): nat
    requires |h.segments| == SEGMENTS && index <= LOADED
  {
    if index == 0 then HEADER_SIZE else StartOfSegment(h, index - 1) + StoredSize(h, index - 1)
  }

  /** The first segment of the first `n` that does not lie inside the buffer. */
  function FirstFault(h: Header, n: nat, available: nat): Option<FromBytesError>
    requires |h.segments| == SEGMENTS && n <= LOADED
  {
    if n == 0 then None
    else
      var earlier := FirstFault(h, n - 1, available);
      var offset, size := StartOfSegment(h, n - 1), StoredSize(h, n - 1);
      if earlier.Some? then earlier
      else if offset + size > USIZE_MAX then Some(SegmentBoundsOverflow(n - 1, offset, size))
      else if offset + size > available then Some(SegmentOutOfBounds(n - 1, offset, size, available))
      else None
  }

  function Parsed(bytes: seq<u8>): Result<Image, FromBytesError> {
    if |bytes| < HEADER_SIZE then Err(FromBytesError.BufferTooSmall(HEADER_SIZE, |bytes|))
    else
      var h := HeaderAt(bytes);
      if h.magic != KIP1_MAGIC then Err(InvalidMagic(h.magic))
      else
        var fault := FirstFault(h, LOADED, |bytes|);
        if fault.Some? then Err(fault.value) else Ok(Image(h, bytes))
  }

  lemma {:induction false} FaultStays(h: Header, n: nat, available: nat)
    requires |h.segments| == SEGMENTS && n <= LOADED && FirstFault(h, n, available).Some?
    ensures FirstFault(h, LOADED, available) == FirstFault(h, n, available)
    decreases LOADED - n
  {
    if n < LOADED {
      FaultStays(h, n + 1, available);
    }
  }

  method TryFromBytes(bytes: seq<u8>) returns (r: Result<Image, FromBytesError>)
    ensures r == Parsed(bytes)
  {
    hide HeaderAt, StoredSize;
    if |bytes| < HEADER_SIZE {
      return Err(FromBytesError.BufferTooSmall(HEADER_SIZE, |bytes|));
    }
    var header := HeaderAt(bytes);
    if header.magic != KIP1_MAGIC {
      return Err(InvalidMagic(header.magic));
    }
    var offset := HEADER_SIZE;
    for index := 0 to LOADED
      invariant offset == StartOfSegment(header, index) && FirstFault(header, index, |bytes|).None?
    {
      var stored := StoredSize(header, index);
      var end := offset + stored;
      if end > USIZE_MAX {
        FaultStays(header, index + 1, |bytes|);
        return Err(SegmentBoundsOverflow(index, offset, stored));
      }
      if end > |bytes| {
        FaultStays(header, index + 1, |bytes|);
        return Err(SegmentOutOfBounds(index, offset, stored, |bytes|));
      }
      offset := end;
    }
    r := Ok(Image(header, bytes));
  }

  /** The process name, its padding trimmed. */
  function ProcessName(k: Image): seq<u8> {
    UpToNul(k.header.name)
  }

  predicate Accepted(k: Image) {
    |k.header.segments| == SEGMENTS && FirstFault(k.header, LOADED, |k.bytes|).None?
  }

  /** In an accepted image every segment lies inside the buffer. */
  lemma {:induction false} SegmentInside(k: Image, index: nat, n: nat)
    requires |k.header.segments| == SEGMENTS && index < n <= LOADED && FirstFault(k.header, n, |k.bytes|).None?
    ensures StartOfSegment(k.header, index) + StoredSize(k.header, index) <= |k.bytes|
  {
    hide StoredSize;
    if index < n - 1 {
      SegmentInside(k, index, n - 1);
    }
  }

  /** Segment `index` as stored; the two unused descriptors have none. */
  function SegmentOf(k: Image, index: nat): (r: Option<Segment>)
    requires Accepted(k)
    ensures r.None? <==> index >= LOADED
  {
    if index >= LOADED then None
    else
      SegmentInside(k, index, LOADED);
      var start := StartOfSegment(k.header, index);
      Some(Segment(index, k.header.segments[index], MarkedPacked(k.header.flags, index),
                   k.bytes[start..start + StoredSize(k.header, index)]))
  }

  method GetSegment(k: Image, index: nat) returns (r: Option<Segment>)
    requires Accepted(k)
    ensures r == SegmentOf(k, index)
  {
    hide FirstFault, StoredSize;
    if index >= LOADED {
      return None;
    }
    var offset := HEADER_SIZE;
    for before := 0 to index
      invariant offset == StartOfSegment(k.header, before)
    {
      offset := offset + StoredSize(k.header, before);
    }
    SegmentInside(k, index, LOADED);
    var stored := StoredSize(k.header, index);
    r := Some(Segment(index, k.header.segments[index], MarkedPacked(k.header.flags, index), k.bytes[offset..offset + stored]));
  }

  /** The segment's bytes, expanded if it is marked packed. */
  function Expanded(s: Segment): Result<seq<u8>, SegmentError> {
    if !s.compressed then Ok(s.stored)
    else
      match Decompressed(s.stored, s.descriptor.decompSize)
      case Ok(bytes) => Ok(bytes)
      case Err(e) => Err(SegmentError(s.index, e))
  }

  method Expand(s: Segment) returns (r: Result<seq<u8>, SegmentError>)
    ensures r == Expanded(s)
  {
    hide Decompressed;
    if !s.compressed {
      return Ok(s.stored);
    }
    var bytes := Decompress(s.stored, s.descriptor.decompSize);
    match bytes
    case Ok(value) => r := Ok(value);
    case Err(e) => r := Err(SegmentError(s.index, e));
  }
}
