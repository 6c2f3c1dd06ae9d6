/** What a built KIP1 promises its readers. */
module Kip1Theorems {
  import opened Bytes
  import opened BlzParse
  import opened BlzDecode
  import opened Kip1
  import opened Names
  import BlzTheorems

  /** A compressed form never has the length of what it stands for. */
  lemma {:induction false} CompressionChangesLength(data: seq<u8>, out: seq<u8>)
    requires |data| < 0xFFFF_FFFF && IsCompressed(data, out)
    ensures |out| != |data|
  {
    hide TrailerFits, IsCompressed;
    CompressedLength(data, out);
  }

  lemma {:induction false} StoredInImage(front: seq<u8>, t: seq<u8>, r: seq<u8>, d: seq<u8>)
    ensures var image := front + t + r + d; var n := |front| + |t|; var m := n + |r|;
      image[..|front|] == front && image[|front|..n] == t && image[n..m] == r && image[m..m + |d|] == d
  {
  }

  lemma {:induction false} SegmentIsUnique(a: SegmentHeader, b: SegmentHeader, original: seq<u8>, s: seq<u8>, t: seq<u8>)
    requires SegmentIs(a, original, s) && SegmentIs(b, original, t) && a.address == b.address && a.attributes == b.attributes
    ensures a == b && s == t
  {
    hide IsCompressed;
    BlzTheorems.CompressedFormIsUnique(original, s, t);
  }

  lemma {:induction false} HeaderIsUnique(g: Header, h: Header)
    requires g.magic == h.magic && g.name == h.name && g.titleId == h.titleId && g.processCategory == h.processCategory
    requires g.mainThreadPriority == h.mainThreadPriority && g.defaultCpuId == h.defaultCpuId && g.flags == h.flags
    requires |g.segments| == |h.segments| == SEGMENTS && g.capabilities == h.capabilities
    requires g.segments[0] == h.segments[0] && g.segments[1] == h.segments[1] && g.segments[2] == h.segments[2]
    requires g.segments[3] == h.segments[3] && g.segments[4] == h.segments[4] && g.segments[5] == h.segments[5]
    ensures g == h
  {
    assert g.segments == h.segments;
  }

  /** What a builder holds has one image. */
  lemma {:induction false} ImageIsUnique(builder: Kip1Builder, a: seq<u8>, b: seq<u8>)
    requires builder.Refusal().None? && builder.Makes(a) && builder.Makes(b)
    ensures a == b
  {
    hide HeaderBytes, SegmentIs, NameField, CapabilityField;
    var text, rodata, data := builder.text.value, builder.rodata.value, builder.data.value;
    var g, t, r, d :| builder.Describes(g) && IsImageOf(a, g, text, rodata, data, t, r, d);
    var h, u, s, e :| builder.Describes(h) && IsImageOf(b, h, text, rodata, data, u, s, e);
    SegmentIsUnique(g.segments[0], h.segments[0], text, t, u);
    SegmentIsUnique(g.segments[1], h.segments[1], rodata, r, s);
    SegmentIsUnique(g.segments[2], h.segments[2], data, d, e);
    HeaderIsUnique(g, h);
  }

  /** Where the four loaded segments start. */
  lemma {:induction false} SegmentStarts(h: Header)
    requires |h.segments| == SEGMENTS && h.segments[3].compSize == 0
    ensures var s0, s1, s2 := h.segments[0].compSize, h.segments[1].compSize, h.segments[2].compSize;
      StartOfSegment(h, 0) == HEADER_SIZE && StartOfSegment(h, 1) == HEADER_SIZE + s0 &&
      StartOfSegment(h, 2) == HEADER_SIZE + s0 + s1 && StartOfSegment(h, 3) == HEADER_SIZE + s0 + s1 + s2
  {
    assert StartOfSegment(h, 1) == StartOfSegment(h, 0) + StoredSize(h, 0);
    assert StartOfSegment(h, 2) == StartOfSegment(h, 1) + StoredSize(h, 1);
    assert StartOfSegment(h, 3) == StartOfSegment(h, 2) + StoredSize(h, 2);
  }

  lemma {:induction false} NothingOutside(h: Header, available: nat, n: nat)
    requires |h.segments| == SEGMENTS && h.segments[3].compSize == 0 && n <= LOADED
    requires HEADER_SIZE + h.segments[0].compSize + h.segments[1].compSize + h.segments[2].compSize <= available
    ensures FirstFault(h, n, available).None?
  {
    SegmentStarts(h);
    if n > 0 {
      NothingOutside(h, available, n - 1);
    }
  }

  /** A built image parses, header and all. */
  lemma {:induction false} BuiltIsAccepted(image: seq<u8>, h: Header, text: seq<u8>, rodata: seq<u8>, data: seq<u8>,
                                           t: seq<u8>, r: seq<u8>, d: seq<u8>)
    requires IsImageOf(image, h, text, rodata, data, t, r, d)
    ensures Parsed(image) == Ok(Image(h, image)) && Accepted(Image(h, image))
  {
    hide HeaderBytes, HeaderAt, IsCompressed, FirstFault;
    SegmentsLength(h);
    StoredInImage(HeaderBytes(h), t, r, d);
    assert image[0..|HeaderBytes(h)|] == image[..|HeaderBytes(h)|];
    HeaderReadsBack(image, h);
    NothingOutside(h, |image|, LOADED);
  }

  /**
   * The name read from a built image is the given one up to its first NUL, cut to eleven bytes. It is
   * the name itself exactly when that has at most eleven bytes and no NUL, and the name cut to the
   * documented twelve exactly when the twelfth byte is missing or a NUL comes no later.
   */
  lemma {:induction false} NameReadsBack(image: seq<u8>, h: Header, text: seq<u8>, rodata: seq<u8>, data: seq<u8>,
                                         t: seq<u8>, r: seq<u8>, d: seq<u8>, name: seq<u8>)
    requires IsImageOf(image, h, text, rodata, data, t, r, d) && h.name == NameField(name)
    ensures Parsed(image).Ok?
    ensures var read := ProcessName(Parsed(image).value);
      read == UpToNul(CutTo(name, 11)) && (read == name <==> |name| <= 11 && 0 !in name) &&
      (read == UpToNul(CutTo(name, 12)) <==> |name| <= 11 || 0 in name[..12])
  {
    hide IsImageOf, Accepted, CutTo;
    BuiltIsAccepted(image, h, text, rodata, data, t, r, d);
    FieldReadsBack(name, NAME_SIZE);
    CutShows(name, 11);
  }

  /** A twelve-byte name loses its last byte. */
  lemma {:induction false} TwelveBytesAreCut(b: u8)
    requires b != 0
    ensures var name := Fill(b, 12); UpToNul(NameField(name)) == Fill(b, 11) != UpToNul(name)
  {
    var name := Fill(b, 12);
    FieldReadsBack(name, NAME_SIZE);
    assert CutTo(name, 11) == Fill(b, 11);
    WholeIffNoNul(Fill(b, 11));
    WholeIffNoNul(name);
  }

  /** A compressed form's length survives the 32-bit field it is recorded in. */
  predicate LengthKept(stored: seq<u8>) {
    |stored| < 0x1_0000_0000
  }

  /** Only segments within a few bytes of 4 GiB, stored as they are, have a form too long for the field. */
  lemma {:induction false} LengthKeptWhenShort(original: seq<u8>, stored: seq<u8>)
    requires |original| < TOO_LONG && IsCompressed(original, stored)
    ensures |stored| <= 0x1_0000_0004 && (|original| <= MAX_SEGMENT ==> LengthKept(stored))
  {
    hide TrailerFits, IsCompressed;
    CompressedLength(original, stored);
  }

  /** A segment expands to the original exactly when it is marked packed and its length was kept. */
  lemma {:induction false} ExpandsIffMarked(s: Segment, original: seq<u8>, stored: seq<u8>)
    requires SegmentIs(s.descriptor, original, stored) && s.stored == stored[..s.descriptor.compSize]
    ensures Expanded(s) == Ok(original) <==> s.compressed && LengthKept(stored)
  {
    hide Decompressed, IsCompressed;
    LengthKeptWhenShort(original, stored);
    if !LengthKept(stored) {
      assert |s.stored| <= 4 && |original| > MAX_SEGMENT;
      NothingExpands(s.stored, s.descriptor.decompSize);
    } else {
      assert s.stored == stored;
      BlzTheorems.RoundTrip(original, stored);
      CompressionChangesLength(original, stored);
    }
  }

  lemma {:induction false} NothingExpands(b: seq<u8>, size: nat)
    requires |b| <= 4 && size > 0
    ensures Decompressed(b, size).Err?
  {
  }

  /** Which bytes segment `i` was made from. */
  function Original(i: nat, text: seq<u8>, rodata: seq<u8>, data: seq<u8>): seq<u8> {
    if i == 0 then text else if i == 1 then rodata else if i == 2 then data else []
  }

  /** Segment `i` is found, and expands to `original` exactly when it is bss or marked packed. */
  ghost predicate ReadsAs(k: Image, i: nat, original: seq<u8>) {
    Accepted(k) && i < LOADED && SegmentOf(k, i).Some? &&
    var s := SegmentOf(k, i).value;
    s.index == i && s.descriptor == k.header.segments[i] && (Expanded(s) == Ok(original) <==> i == BSS || MarkedPacked(k.header.flags, i))
  }

  /**
   * End to end: every segment of a built image is found, text, rodata and data expand to the original
   * bytes exactly when the flags mark them packed, and bss stores nothing - as long as no compressed
   * length was too long for its field.
   */
  lemma {:induction false} SegmentsReadBack(image: seq<u8>, h: Header, text: seq<u8>, rodata: seq<u8>, data: seq<u8>,
                                            t: seq<u8>, r: seq<u8>, d: seq<u8>, i: nat)
    requires IsImageOf(image, h, text, rodata, data, t, r, d) && i < LOADED
    requires LengthKept(t) && LengthKept(r) && LengthKept(d)
    ensures ReadsAs(Image(h, image), i, Original(i, text, rodata, data))
  {
    hide IsImageOf, FirstFault, StartOfSegment, StoredSize, ReadsAs, SegmentIs, LengthKept;
    BuiltIsAccepted(image, h, text, rodata, data, t, r, d);
    var k, original, stored := Image(h, image), Original(i, text, rodata, data), Original(i, t, r, d);
    SegmentLies(image, h, text, rodata, data, t, r, d, i);
    if i == BSS {
      BssReads(k, StartOfSegment(h, i));
    } else {
      PackedReads(k, i, StartOfSegment(h, i), original, stored);
    }
  }

  /** A segment's stored bytes lie where the lengths before it add up to. */
  lemma {:induction false} SegmentLies(image: seq<u8>, h: Header, text: seq<u8>, rodata: seq<u8>, data: seq<u8>,
                                       t: seq<u8>, r: seq<u8>, d: seq<u8>, i: nat)
    requires IsImageOf(image, h, text, rodata, data, t, r, d) && i < LOADED
    requires LengthKept(t) && LengthKept(r) && LengthKept(d)
    ensures var at, stored := StartOfSegment(h, i), Original(i, t, r, d);
      at + |stored| <= |image| && image[at..at + |stored|] == stored
    ensures i < BSS ==> SegmentIs(h.segments[i], Original(i, text, rodata, data), Original(i, t, r, d))
  {
    hide HeaderBytes, StartOfSegment, SegmentIs;
    SegmentsLength(h);
    SegmentStarts(h);
    StoredInImage(HeaderBytes(h), t, r, d);
    StoredLength(h.segments[0], text, t);
    StoredLength(h.segments[1], rodata, r);
    StoredLength(h.segments[2], data, d);
  }

  lemma {:induction false} StoredLength(s: SegmentHeader, original: seq<u8>, stored: seq<u8>)
    requires SegmentIs(s, original, stored) && LengthKept(stored)
    ensures s.compSize == |stored|
  {
    hide IsCompressed;
  }

  lemma {:induction false} PackedReads(k: Image, i: nat, start: nat, original: seq<u8>, stored: seq<u8>)
    requires Accepted(k) && i < BSS && start == StartOfSegment(k.header, i) && SegmentIs(k.header.segments[i], original, stored)
    requires start + |stored| <= |k.bytes| && k.bytes[start..start + |stored|] == stored && LengthKept(stored)
    ensures ReadsAs(k, i, original)
  {
    hide FirstFault, Expanded, IsCompressed, SegmentOf, MarkedPacked, StartOfSegment;
    StoredLength(k.header.segments[i], original, stored);
    StoredIs(k, i, start, stored);
    assert stored[..|stored|] == stored;
    ExpandsIffMarked(SegmentOf(k, i).value, original, stored);
  }

  lemma {:induction false} BssReads(k: Image, start: nat)
    requires Accepted(k) && start == StartOfSegment(k.header, BSS) && start <= |k.bytes|
    ensures ReadsAs(k, BSS, [])
  {
    hide Accepted, Expanded, SegmentOf, MarkedPacked, StartOfSegment;
    StoredIs(k, BSS, start, []);
    BssNotPacked(k.header.flags);
    NotPacked(SegmentOf(k, BSS).value);
  }

  lemma {:induction false} StoredIs(k: Image, i: nat, start: nat, stored: seq<u8>)
    requires Accepted(k) && i < LOADED && start == StartOfSegment(k.header, i) && |stored| == StoredSize(k.header, i)
    requires start + |stored| <= |k.bytes| && k.bytes[start..start + |stored|] == stored
    ensures SegmentOf(k, i) == Some(Segment(i, k.header.segments[i], MarkedPacked(k.header.flags, i), stored))
  {
    hide FirstFault, StartOfSegment;
  }

  lemma {:induction false} BssNotPacked(flags: u8)
    ensures !MarkedPacked(flags, BSS)
  {
  }

  lemma {:induction false} NotPacked(s: Segment)
    requires !s.compressed
    ensures Expanded(s) == Ok(s.stored)
  {
  }

  /** Left to itself the builder marks all three segments packed. */
  lemma {:induction false} DefaultFlagsMarkAll()
    ensures MarkedPacked(DEFAULT_FLAGS, 0) && MarkedPacked(DEFAULT_FLAGS, 1) && MarkedPacked(DEFAULT_FLAGS, 2)
  {
  }

  lemma {:induction false} LengthsKept(h: Header, text: seq<u8>, rodata: seq<u8>, data: seq<u8>, t: seq<u8>, r: seq<u8>, d: seq<u8>)
    requires |h.segments| == SEGMENTS && |text| <= MAX_SEGMENT && |rodata| <= MAX_SEGMENT && |data| <= MAX_SEGMENT
    requires SegmentIs(h.segments[0], text, t) && SegmentIs(h.segments[1], rodata, r) && SegmentIs(h.segments[2], data, d)
    ensures LengthKept(t) && LengthKept(r) && LengthKept(d)
  {
    hide IsCompressed;
    LengthKeptWhenShort(text, t);
    LengthKeptWhenShort(rodata, r);
    LengthKeptWhenShort(data, d);
  }

  /** Build an image, parse it, and expand one of its segments. */
  method BuildThenExpand(builder: Kip1Builder, i: nat) returns (r: Result<seq<u8>, SegmentError>)
    requires builder.SegmentsWithin(MAX_SEGMENT) && builder.Refusal().None? && i < LOADED
    ensures i == BSS || MarkedPacked(if builder.flags.Some? then builder.flags.value else DEFAULT_FLAGS, i) ==>
      r == Ok(Original(i, builder.text.value, builder.rodata.value, builder.data.value))
  {
    hide Expanded, HeaderBytes, SegmentIs, MarkedPacked, Parsed, Accepted, SegmentOf;
    var result := builder.Build();
    var image := result.value;
    ghost var text, rodata, data := builder.text.value, builder.rodata.value, builder.data.value;
    ghost var h, t, ro, d :| builder.Describes(h) && IsImageOf(image, h, text, rodata, data, t, ro, d);
    BuiltIsAccepted(image, h, text, rodata, data, t, ro, d);
    LengthsKept(h, text, rodata, data, t, ro, d);
    SegmentsReadBack(image, h, text, rodata, data, t, ro, d, i);
    var parsed := TryFromBytes(image);
    var segment := GetSegment(parsed.value, i);
    r := Expand(segment.value);
  }
}
