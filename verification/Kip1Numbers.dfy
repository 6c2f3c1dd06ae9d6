/** The KIP1 image in plain numbers: which byte holds what, and which flag bit says what of which segment. */
module Kip1Numbers {
  import opened Bytes
  import opened Packing
  import opened BlzParse
  import opened BlzDecode
  import opened Kip1
  import opened Kip1Theorems

  // ---- The compression bits ----

  lemma {:induction false} BitsInNumbers(flags: u8)
    ensures MarkedPacked(flags, 0) <==> flags % 2 == 1
    ensures MarkedPacked(flags, 1) <==> flags / 2 % 2 == 1
    ensures MarkedPacked(flags, 2) <==> flags / 4 % 2 == 1
    ensures !MarkedPacked(flags, 3)
  {
  }

  /** Segment `i` of an image, expanded. */
  function ExpandedAt(k: Image, i: nat): Result<seq<u8>, SegmentError>
    requires Accepted(k) && i < 4
  {
    Expanded(SegmentOf(k, i).value)
  }

  /**
   * Text expands to the original exactly when bit 0 of byte 0x1F is set, rodata when bit 1 is, data
   * when bit 2 is, and bss always to nothing.
   */
  lemma {:induction false} ExpandsByBit(image: seq<u8>, h: Header, text: seq<u8>, rodata: seq<u8>, data: seq<u8>,
                                        t: seq<u8>, r: seq<u8>, d: seq<u8>)
    requires IsImageOf(image, h, text, rodata, data, t, r, d) && LengthKept(t) && LengthKept(r) && LengthKept(d)
    ensures |image| >= 0x100 && Parsed(image).Ok? && Accepted(Parsed(image).value)
    ensures var k, flags := Parsed(image).value, image[0x1F];
      (ExpandedAt(k, 0) == Ok(text) <==> flags % 2 == 1) && (ExpandedAt(k, 1) == Ok(rodata) <==> flags / 2 % 2 == 1) &&
      (ExpandedAt(k, 2) == Ok(data) <==> flags / 4 % 2 == 1) && ExpandedAt(k, 3) == Ok([])
  {
    hide IsImageOf, Accepted, SegmentOf, Expanded, MarkedPacked, HeaderAt, FirstFault, LengthKept;
    BuiltIsAccepted(image, h, text, rodata, data, t, r, d);
    FlagsAt(image);
    BitsInNumbers(image[0x1F]);
    SegmentsReadBack(image, h, text, rodata, data, t, r, d, 0);
    SegmentsReadBack(image, h, text, rodata, data, t, r, d, 1);
    SegmentsReadBack(image, h, text, rodata, data, t, r, d, 2);
    SegmentsReadBack(image, h, text, rodata, data, t, r, d, 3);
  }

  lemma {:induction false} FlagsAt(image: seq<u8>)
    requires |image| >= HEADER_SIZE
    ensures HeaderAt(image).flags == image[0x1F]
  {
  }

  /** Decompressing never gives back what it was given. */
  lemma {:induction false} NeverUnchanged(data: seq<u8>, size: nat)
    ensures Decompressed(data, size) != Ok(data)
  {
    hide Run, FromLe32;
  }

  /** A segment of any accepted image is returned as stored exactly when its bit is clear. */
  lemma {:induction false} StoredWhenBitClear(k: Image, i: nat)
    requires Accepted(k) && i < 3
    ensures var s := SegmentOf(k, i).value;
      Expanded(s) == Ok(s.stored) <==> (if i == 0 then k.header.flags % 2 else if i == 1 then k.header.flags / 2 % 2 else k.header.flags / 4 % 2) == 0
  {
    hide Decompressed, StartOfSegment, StoredSize, FirstFault;
    BitsInNumbers(k.header.flags);
    var s := SegmentOf(k, i).value;
    NeverUnchanged(s.stored, s.descriptor.decompSize);
  }

  // ---- The bytes ----

  /** The header's fields at their places. */
  ghost predicate HeaderBytesAre(b: seq<u8>, name: seq<u8>, titleId: u64, category: u32, priority: u8, cpu: u8, flags: u8) {
    |b| >= 0x100 && b[..4] == [0x4B, 0x49, 0x50, 0x31] &&
    (forall k :: 0 <= k < 12 ==> b[4 + k] == if k < 11 && k < |name| then name[k] else 0) &&
    U64At(b, 16) == titleId && U32At(b, 24) == category && b[28] == priority && b[29] == cpu && b[30] == 0 && b[31] == flags
  }

  lemma {:induction false} FieldBytes(name: seq<u8>)
    ensures forall k :: 0 <= k < 12 ==> NameField(name)[k] == if k < 11 && k < |name| then name[k] else 0
  {
  }

  lemma {:induction false} MagicBytes(b: seq<u8>)
    requires |b| >= 4 && U32At(b, 0) == KIP1_MAGIC
    ensures b[..4] == [0x4B, 0x49, 0x50, 0x31]
  {
    assert b[0..4] == b[..4];
    var b0: int, b1: int, b2: int, b3: int := b[0], b[1], b[2], b[3];
    assert b0 + 0x100 * (b1 + 0x100 * (b2 + 0x100 * b3)) == 0x3150_494B;
  }

  lemma {:induction false} ReservedByte(h: Header, b: seq<u8>)
    requires |h.segments| == SEGMENTS && Holds(b, 0, HeaderBytes(h))
    ensures |b| >= 31 && b[30] == 0
  {
    hide Concat, SegmentParts, Le32, Le64;
    var m, title, cat := Le32(h.magic), Le64(h.titleId), Le32(h.processCategory);
    var four, segs := [h.mainThreadPriority, h.defaultCpuId, 0, h.flags], Concat(SegmentParts(h.segments));
    HoldsMiddle(b, 0, m + h.name + title + cat + four, segs, h.capabilities);
    HoldsMiddle(b, 0, m + h.name + title, cat, four);
    var s := b[28..32];
    assert s == four && s[2] == b[30];
  }

  lemma {:induction false} HeaderBytesHeld(b: seq<u8>, h: Header, name: seq<u8>)
    requires |h.segments| == SEGMENTS && Holds(b, 0, HeaderBytes(h)) && h.magic == KIP1_MAGIC && h.name == NameField(name)
    ensures HeaderBytesAre(b, name, h.titleId, h.processCategory, h.mainThreadPriority, h.defaultCpuId, h.flags)
  {
    hide NameField, HeaderBytes, FromLe32, FromLe64;
    HeaderReadsBack(b, h);
    FixedAt(b);
    MagicBytes(b);
    FieldBytes(name);
    ReservedByte(h, b);
    var field := b[4..16];
    forall k | 0 <= k < 12
      ensures b[4 + k] == field[k]
    {
    }
  }

  lemma {:induction false} FixedAt(b: seq<u8>)
    requires |b| >= 0x100
    ensures var h := HeaderAt(b);
      h.magic == U32At(b, 0) && h.name == b[4..16] && h.titleId == U64At(b, 16) && h.processCategory == U32At(b, 24) &&
      h.mainThreadPriority == b[28] && h.defaultCpuId == b[29] && h.flags == b[31]
  {
    hide FromLe32, FromLe64;
  }

  /** What a builder holds, byte by byte; the flags byte is 0x3F unless another was given. */
  lemma {:induction false} BuiltHeaderBytes(builder: Kip1Builder, image: seq<u8>)
    requires builder.Refusal().None? && builder.Makes(image)
    ensures HeaderBytesAre(image, builder.name.value, builder.titleId, builder.processCategory, builder.mainThreadPriority,
                           builder.defaultCpuId, if builder.flags.Some? then builder.flags.value else 0x3F)
  {
    hide SegmentIs, NameField, CapabilityField, HeaderBytes, HeaderBytesAre;
    var text, rodata, data := builder.text.value, builder.rodata.value, builder.data.value;
    var h, t, r, d :| builder.Describes(h) && IsImageOf(image, h, text, rodata, data, t, r, d);
    HeaderInFront(image, h, t, r, d);
    HeaderBytesHeld(image, h, builder.name.value);
  }

  lemma {:induction false} HeaderInFront(image: seq<u8>, h: Header, t: seq<u8>, r: seq<u8>, d: seq<u8>)
    requires image == HeaderBytes(h) + t + r + d
    ensures Holds(image, 0, HeaderBytes(h))
  {
    hide HeaderBytes;
    assert image[0..|HeaderBytes(h)|] == HeaderBytes(h);
  }

  /** Six descriptors of sixteen bytes from 0x20 on: address, both lengths, attributes. */
  ghost predicate DescriptorsAre(b: seq<u8>, ds: seq<SegmentHeader>) {
    |b| >= 0x80 && |ds| == 6 && forall i :: 0 <= i < 6 ==> DescriptorIs(b, 0x20 + 0x10 * i, ds[i])
  }

  ghost predicate DescriptorIs(b: seq<u8>, at: nat, d: SegmentHeader) {
    at + 16 <= |b| && U32At(b, at) == d.address && U32At(b, at + 4) == d.decompSize && U32At(b, at + 8) == d.compSize &&
    U32At(b, at + 12) == d.attributes
  }

  ghost predicate CompressesTo(original: seq<u8>, stored: seq<u8>) {
    |original| < 0xFFFF_FFFF && IsCompressed(original, stored)
  }

  /** A length as its 32-bit field keeps it. */
  function Kept32(stored: seq<u8>): u32 {
    |stored| % 0x1_0000_0000
  }

  lemma {:induction false} DescriptorsRead(b: seq<u8>, h: Header)
    requires |b| >= 0x100 && HeaderAt(b) == h
    ensures DescriptorsAre(b, h.segments)
  {
    hide FromLe32, FromLe64;
    forall i | 0 <= i < 6
      ensures DescriptorIs(b, 0x20 + 0x10 * i, h.segments[i])
    {
      assert h.segments[i] == SegmentAt(b, 0x20 + 0x10 * i);
    }
  }

  /** Then six descriptors - bss where one was given, the last two empty - and from 0x100 on the compressed segments. */
  lemma {:induction false} BuiltBodyBytes(builder: Kip1Builder, image: seq<u8>) returns (t: seq<u8>, r: seq<u8>, d: seq<u8>)
    requires builder.Refusal().None? && builder.Makes(image)
    ensures CompressesTo(builder.text.value, t) && CompressesTo(builder.rodata.value, r) && CompressesTo(builder.data.value, d)
    ensures |image| >= 0x100 && image[0x100..] == t + r + d
    ensures var bss := if builder.bssVaddr.Some? then (builder.bssVaddr.value, builder.bssSize.value) else (0, 0);
      DescriptorsAre(image, [
        SegmentHeader(builder.textVaddr, |builder.text.value|, Kept32(t), 0),
        SegmentHeader(builder.rodataVaddr, |builder.rodata.value|, Kept32(r), builder.rodataAttributes),
        SegmentHeader(builder.dataVaddr, |builder.data.value|, Kept32(d), 0),
        SegmentHeader(bss.0, bss.1, 0, 0), SegmentHeader(0, 0, 0, 0), SegmentHeader(0, 0, 0, 0)])
  {
    hide IsCompressed, NameField, HeaderBytes, CapabilityField, HeaderAt, DescriptorsAre;
    var text, rodata, data := builder.text.value, builder.rodata.value, builder.data.value;
    var h, a, b, c :| builder.Describes(h) && IsImageOf(image, h, text, rodata, data, a, b, c);
    t, r, d := a, b, c;
    HeaderInFront(image, h, t, r, d);
    SegmentsLength(h);
    HeaderReadsBack(image, h);
    assert image == HeaderBytes(h) + (t + r + d);
    DescriptorsRead(image, h);
    assert h.segments == [h.segments[0], h.segments[1], h.segments[2], h.segments[3], h.segments[4], h.segments[5]];
  }

  /** Capability words from 0x80 on, and 0xFF up to 0x100. */
  lemma {:induction false} BuiltCapabilityBytes(builder: Kip1Builder, image: seq<u8>)
    requires builder.Refusal().None? && builder.Makes(image)
    ensures var caps := builder.kernelCapabilities;
      |image| >= 0x100 && |caps| <= 32 && (forall k :: 0 <= k < |caps| ==> U32At(image, 0x80 + 4 * k) == caps[k]) &&
      forall k :: 0x80 + 4 * |caps| <= k < 0x100 ==> image[k] == 0xFF
  {
    hide SegmentIs, NameField, HeaderBytes, FromLe32, CapabilityField;
    var text, rodata, data := builder.text.value, builder.rodata.value, builder.data.value;
    var h, t, r, d :| builder.Describes(h) && IsImageOf(image, h, text, rodata, data, t, r, d);
    HeaderInFront(image, h, t, r, d);
    HeaderReadsBack(image, h);
    CapabilitiesAt(image, builder.kernelCapabilities);
  }

  lemma {:induction false} CapabilitiesAt(b: seq<u8>, caps: seq<u32>)
    requires |b| >= 0x100 && |caps| <= MAX_CAPABILITIES && b[0x80..0x100] == CapabilityField(caps)
    ensures forall k :: 0 <= k < |caps| ==> U32At(b, 0x80 + 4 * k) == caps[k]
    ensures forall k :: 0x80 + 4 * |caps| <= k < 0x100 ==> b[k] == 0xFF
  {
    hide Words, FromLe32;
    var field := b[0x80..0x100];
    var n := 4 * |caps|;
    SliceOfSlice(b, 0x80, 0x100, 0, n);
    assert field[0..n] == Words(caps);
    forall k | 0 <= k < |caps|
      ensures U32At(b, 0x80 + 4 * k) == caps[k]
    {
      WordReads(b, 0x80, caps, k);
    }
    forall k | 0x80 + n <= k < 0x100
      ensures b[k] == 0xFF
    {
      assert b[k] == field[k - 0x80];
    }
  }

  /** Which buffers parse: 0x100 bytes of header, the magic, and the three stored segments inside the buffer. */
  lemma {:induction false} ParsedInNumbers(b: seq<u8>)
    requires |b| <= USIZE_MAX
    ensures Parsed(b).Ok? <==>
      |b| >= 0x100 && b[..4] == [0x4B, 0x49, 0x50, 0x31] && 0x100 + U32At(b, 0x28) + U32At(b, 0x38) + U32At(b, 0x48) <= |b|
  {
    hide HeaderAt, FromLe32;
    if |b| >= 0x100 {
      SizesAt(b);
      MagicIff(b);
      FaultInNumbers(HeaderAt(b), |b|);
    }
  }

  lemma {:induction false} SizesAt(b: seq<u8>)
    requires |b| >= 0x100
    ensures var h := HeaderAt(b);
      |h.segments| == 6 && h.magic == U32At(b, 0) && h.segments[0].compSize == U32At(b, 0x28) && h.segments[1].compSize == U32At(b, 0x38) &&
      h.segments[2].compSize == U32At(b, 0x48)
  {
    hide FromLe32, FromLe64;
  }

  lemma {:induction false} MagicIff(b: seq<u8>)
    requires |b| >= 4
    ensures U32At(b, 0) == KIP1_MAGIC <==> b[..4] == [0x4B, 0x49, 0x50, 0x31]
  {
    if U32At(b, 0) == KIP1_MAGIC {
      MagicBytes(b);
    }
    assert b[0..4] == b[..4];
  }

  lemma {:induction false} FaultInNumbers(h: Header, available: nat)
    requires |h.segments| == 6 && available <= USIZE_MAX
    ensures FirstFault(h, 4, available).None? <==>
      0x100 + h.segments[0].compSize + h.segments[1].compSize + h.segments[2].compSize <= available
  {
    assert StartOfSegment(h, 1) == 0x100 + h.segments[0].compSize by { assert StartOfSegment(h, 0) == 0x100; }
    assert StartOfSegment(h, 2) == StartOfSegment(h, 1) + h.segments[1].compSize;
    assert StartOfSegment(h, 3) == StartOfSegment(h, 2) + h.segments[2].compSize;
    assert FirstFault(h, 0, available).None?;
    assert FirstFault(h, 1, available).None? <==> StartOfSegment(h, 1) <= available;
    assert FirstFault(h, 2, available).None? <==> StartOfSegment(h, 2) <= available;
    assert FirstFault(h, 3, available).None? <==> StartOfSegment(h, 3) <= available;
  }

  /** Why a buffer does not parse: too short, another magic, or the first segment that ends past the buffer. */
  lemma {:induction false} RefusalInNumbers(b: seq<u8>)
    requires |b| <= 0xFFFF_FFFF_0000_0000 && Parsed(b).Err?
    ensures var e := Parsed(b).error;
      if |b| < 0x100 then e == FromBytesError.BufferTooSmall(0x100, |b|)
      else if b[..4] != [0x4B, 0x49, 0x50, 0x31] then e == InvalidMagic(U32At(b, 0))
      else
        var n0: int, n1: int, n2: int := U32At(b, 0x28), U32At(b, 0x38), U32At(b, 0x48);
        if 0x100 + n0 > |b| then n0 >= 0 && e == SegmentOutOfBounds(0, 0x100, n0, |b|)
        else if 0x100 + n0 + n1 > |b| then n1 >= 0 && n0 >= 0 && e == SegmentOutOfBounds(1, 0x100 + n0, n1, |b|)
        else n2 >= 0 && n0 + n1 >= 0 && e == SegmentOutOfBounds(2, 0x100 + n0 + n1, n2, |b|)
  {
    hide HeaderAt, FromLe32;
    if |b| >= 0x100 {
      SizesAt(b);
      MagicIff(b);
      FirstFaultInNumbers(HeaderAt(b), |b|);
    }
  }

  lemma {:induction false} FirstFaultInNumbers(h: Header, available: nat)
    requires |h.segments| == 6 && available <= 0xFFFF_FFFF_0000_0000
    ensures var n0: int, n1: int, n2: int := h.segments[0].compSize, h.segments[1].compSize, h.segments[2].compSize;
      FirstFault(h, 4, available) ==
      if 0x100 + n0 > available then Some(SegmentOutOfBounds(0, 0x100, n0, available))
      else if 0x100 + n0 + n1 > available then Some(SegmentOutOfBounds(1, 0x100 + n0, n1, available))
      else if 0x100 + n0 + n1 + n2 > available then Some(SegmentOutOfBounds(2, 0x100 + n0 + n1, n2, available))
      else None
  {
    FaultInNumbers(h, available);
    assert StartOfSegment(h, 1) == 0x100 + h.segments[0].compSize by { assert StartOfSegment(h, 0) == 0x100; }
    assert StartOfSegment(h, 2) == StartOfSegment(h, 1) + h.segments[1].compSize;
    assert FirstFault(h, 0, available).None?;
    if FirstFault(h, 1, available).Some? {
      FaultStays(h, 1, available);
    } else if FirstFault(h, 2, available).Some? {
      FaultStays(h, 2, available);
    } else if FirstFault(h, 3, available).Some? {
      FaultStays(h, 3, available);
    }
  }

  /** What keeps a builder from producing an image, each reason exactly when nothing before it does. */
  lemma {:induction false} BuilderRefusals(builder: Kip1Builder)
    ensures var r, half := builder.Refusal(), builder.bssVaddr.Some? != builder.bssSize.Some?;
      (r == Some(MissingName) <==> builder.name.None?) &&
      (r == Some(MissingText) <==> builder.name.Some? && builder.text.None?) &&
      (r == Some(MissingRodata) <==> builder.name.Some? && builder.text.Some? && builder.rodata.None?) &&
      (r == Some(MissingData) <==> builder.name.Some? && builder.text.Some? && builder.rodata.Some? && builder.data.None?) &&
      (r.None? <==> builder.name.Some? && builder.text.Some? && builder.rodata.Some? && builder.data.Some? && !half && |builder.kernelCapabilities| <= 0x20) &&
      (r.Some? && r.value.TooManyKernelCapabilities? ==> r.value.count == |builder.kernelCapabilities| && !half) &&
      (r.Some? && r.value.IncompleteBss? ==> half && r.value.hasVaddr == builder.bssVaddr.Some? && r.value.hasSize == builder.bssSize.Some?)
  {
  }
}
