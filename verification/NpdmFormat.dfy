/** The three NPDM headers, and the image they head. */
module NpdmFormat {
  import opened Bytes
  import opened Packing

  const META_MAGIC: u32 := 0x4154_454D
  const ACID_MAGIC: u32 := 0x4449_4341
  const ACI0_MAGIC: u32 := 0x3049_4341
  const META_SIZE := 0x80
  const ACID_SIZE := 0x240
  const ACI0_SIZE := 0x40
  const SIGNATURE_SIZE := 0x100
  const ALIGN := 0x10
  const NAME_SIZE := 0x10

  type NameBytes = b: seq<u8> | |b| == NAME_SIZE witness Zeros(NAME_SIZE)

  datatype MetaHeader = MetaHeader(
    flags: u8, mainThreadPriority: u8, mainThreadCore: u8, version: u32, stackSize: u32, name: NameBytes,
    aciOffset: u32, aciSize: u32, acidOffset: u32, acidSize: u32)

  /** Where a section's three blocks lie, from the section's own start. */
  datatype Extents = Extents(facOffset: u32, facSize: u32, sacOffset: u32, sacSize: u32, kcOffset: u32, kcSize: u32)

  datatype AcidHeader = AcidHeader(size: u32, flags: u32, programIdMin: u64, programIdMax: u64, extents: Extents)

  datatype Aci0Header = Aci0Header(programId: u64, extents: Extents)

  // ---- Headers to bytes ----

  function MetaBytes(h: MetaHeader): (b: seq<u8>)
    ensures |b| == META_SIZE
  {
    Words([META_MAGIC, 0, 0]) + [h.flags, 0, h.mainThreadPriority, h.mainThreadCore] + Words([0, 0, h.version, h.stackSize]) +
    h.name + Zeros(0x40) + Words([h.aciOffset, h.aciSize, h.acidOffset, h.acidSize])
  }

  function ExtentWords(e: Extents): (ws: seq<u32>)
    ensures |ws| == 6
  {
    [e.facOffset, e.facSize, e.sacOffset, e.sacSize, e.kcOffset, e.kcSize]
  }

  /** Signature and public key are zero: signing is not this builder's business. */
  function AcidBytes(h: AcidHeader): (b: seq<u8>)
    ensures |b| == ACID_SIZE
  {
    Zeros(0x200) + Words([ACID_MAGIC, h.size, 0, h.flags]) + Longs([h.programIdMin, h.programIdMax]) +
    Words(ExtentWords(h.extents)) + Zeros(8)
  }

  function Aci0Bytes(h: Aci0Header): (b: seq<u8>)
    ensures |b| == ACI0_SIZE
  {
    Words([ACI0_MAGIC, 0, 0, 0]) + Longs([h.programId, 0]) + Words(ExtentWords(h.extents)) + Zeros(8)
  }

  // ---- Bytes to headers ----

  function MetaAt(b: seq<u8>): MetaHeader
    requires |b| >= META_SIZE
  {
    MetaHeader(b[12], b[14], b[15], U32At(b, 0x18), U32At(b, 0x1C), b[0x20..0x30],
               U32At(b, 0x70), U32At(b, 0x74), U32At(b, 0x78), U32At(b, 0x7C))
  }

  function ExtentsAt(b: seq<u8>, at: nat): Extents
    requires at + 24 <= |b|
  {
    Extents(U32At(b, at), U32At(b, at + 4), U32At(b, at + 8), U32At(b, at + 12), U32At(b, at + 16), U32At(b, at + 20))
  }

  function AcidAt(b: seq<u8>, at: nat): AcidHeader
    requires at + ACID_SIZE <= |b|
  {
    AcidHeader(U32At(b, at + 0x204), U32At(b, at + 0x20C), U64At(b, at + 0x210), U64At(b, at + 0x218), ExtentsAt(b, at + 0x220))
  }

  function Aci0At(b: seq<u8>, at: nat): Aci0Header
    requires at + ACI0_SIZE <= |b|
  {
    Aci0Header(U64At(b, at + 0x10), ExtentsAt(b, at + 0x20))
  }

  // ---- Reading back ----

  lemma {:induction false} MetaReads(b: seq<u8>, h: MetaHeader)
    requires Holds(b, 0, MetaBytes(h))
    ensures |b| >= META_SIZE && U32At(b, 0) == META_MAGIC && MetaAt(b) == h
  {
    hide Words, FromLe32;
    var first, four, mid := [META_MAGIC, 0, 0], [h.flags, 0, h.mainThreadPriority, h.mainThreadCore], [0, 0, h.version, h.stackSize];
    var last := [h.aciOffset, h.aciSize, h.acidOffset, h.acidSize];
    HoldsMiddle(b, 0, Words(first) + four + Words(mid) + h.name, Zeros(0x40), Words(last));
    HoldsMiddle(b, 0, Words(first) + four, Words(mid), h.name);
    HoldsMiddle(b, 0, Words(first), four, []) by { assert Words(first) + four + [] == Words(first) + four; }
    WordReads(b, 0, first, 0);
    WordReads(b, 0x10, mid, 2);
    WordReads(b, 0x10, mid, 3);
    WordReads(b, 0x70, last, 0);
    WordReads(b, 0x70, last, 1);
    WordReads(b, 0x70, last, 2);
    WordReads(b, 0x70, last, 3);
    var s := b[12..16];
    assert s == four && s[0] == b[12] && s[2] == b[14] && s[3] == b[15];
  }

  lemma {:induction false} ExtentsRead(b: seq<u8>, at: nat, e: Extents)
    requires Holds(b, at, Words(ExtentWords(e)))
    ensures ExtentsAt(b, at) == e
  {
    hide Words, FromLe32;
    var ws := ExtentWords(e);
    WordReads(b, at, ws, 0);
    WordReads(b, at, ws, 1);
    WordReads(b, at, ws, 2);
    WordReads(b, at, ws, 3);
    WordReads(b, at, ws, 4);
    WordReads(b, at, ws, 5);
  }

  lemma {:induction false} AcidReads(b: seq<u8>, at: nat, h: AcidHeader)
    requires Holds(b, at, AcidBytes(h))
    ensures at + ACID_SIZE <= |b| && U32At(b, at + 0x200) == ACID_MAGIC && AcidAt(b, at) == h
  {
    hide Words, Longs, FromLe32, FromLe64, ExtentsAt, ExtentWords;
    var ws, xs := [ACID_MAGIC, h.size, 0, h.flags], [h.programIdMin, h.programIdMax];
    HoldsMiddle(b, at, Zeros(0x200) + Words(ws) + Longs(xs), Words(ExtentWords(h.extents)), Zeros(8));
    HoldsMiddle(b, at, Zeros(0x200), Words(ws), Longs(xs));
    WordReads(b, at + 0x200, ws, 0);
    WordReads(b, at + 0x200, ws, 1);
    WordReads(b, at + 0x200, ws, 3);
    LongReads(b, at + 0x210, xs, 0);
    LongReads(b, at + 0x210, xs, 1);
    ExtentsRead(b, at + 0x220, h.extents);
  }

  lemma {:induction false} Aci0Reads(b: seq<u8>, at: nat, h: Aci0Header)
    requires Holds(b, at, Aci0Bytes(h))
    ensures at + ACI0_SIZE <= |b| && U32At(b, at) == ACI0_MAGIC && Aci0At(b, at) == h
  {
    hide Words, Longs, FromLe32, FromLe64, ExtentsAt, ExtentWords;
    var ws, xs := [ACI0_MAGIC, 0, 0, 0], [h.programId, 0];
    HoldsMiddle(b, at, Words(ws) + Longs(xs), Words(ExtentWords(h.extents)), Zeros(8));
    HoldsMiddle(b, at, Words(ws), Longs(xs), []) by { assert Words(ws) + Longs(xs) + [] == Words(ws) + Longs(xs); }
    WordReads(b, at, ws, 0);
    LongReads(b, at + 0x10, xs, 0);
    ExtentsRead(b, at + 0x20, h.extents);
  }

  // ---- Sections ----

  datatype Blocks = Blocks(fac: seq<u8>, sac: seq<u8>, kc: seq<u8>)

  function SacOffset(headerSize: nat, b: Blocks): nat {
    AlignUp(headerSize + |b.fac|, ALIGN)
  }

  function KcOffset(headerSize: nat, b: Blocks): nat {
    AlignUp(SacOffset(headerSize, b) + |b.sac|, ALIGN)
  }

  function SectionSize(headerSize: nat, b: Blocks): nat {
    KcOffset(headerSize, b) + |b.kc|
  }

  /** A header and its blocks, each block but the first on a 16-byte boundary. */
  function SectionBytes(header: seq<u8>, b: Blocks): (s: seq<u8>)
    ensures |s| == SectionSize(|header|, b)
  {
    PadTo(PadTo(header + b.fac, ALIGN) + b.sac, ALIGN) + b.kc
  }

  function ExtentsOf(headerSize: nat, b: Blocks): Extents
    requires SectionSize(headerSize, b) < 0x1_0000_0000
  {
    Extents(headerSize, |b.fac|, SacOffset(headerSize, b), |b.sac|, KcOffset(headerSize, b), |b.kc|)
  }

  /** Each block lies where the extents say. */
  lemma {:induction false} BlocksInSection(header: seq<u8>, b: Blocks)
    ensures var s := SectionBytes(header, b);
      Holds(s, 0, header) && Holds(s, |header|, b.fac) && Holds(s, SacOffset(|header|, b), b.sac) && Holds(s, KcOffset(|header|, b), b.kc)
  {
    hide AlignUp, PadTo, Holds;
    var first := header + b.fac;
    var second := PadTo(first, ALIGN) + b.sac;
    var s := SectionBytes(header, b);
    AppendHolds(PadTo(second, ALIGN), b.kc);
    PadHolds(s, second);
    HoldsMiddle(s, 0, PadTo(first, ALIGN), b.sac, []) by { assert PadTo(first, ALIGN) + b.sac + [] == second; }
    PadHolds(s, first);
    HoldsMiddle(s, 0, header, b.fac, []) by { assert header + b.fac + [] == first; }
  }

  lemma {:induction false} AppendHolds(a: seq<u8>, b: seq<u8>)
    ensures Holds(a + b, 0, a) && Holds(a + b, |a|, b)
  {
  }

  lemma {:induction false} PadHolds(s: seq<u8>, part: seq<u8>)
    requires Holds(s, 0, PadTo(part, ALIGN))
    ensures Holds(s, 0, part)
  {
    hide AlignUp;
    var padded := PadTo(part, ALIGN);
    assert padded[0..|part|] == padded[..|part|] == part;
    HoldsPart(s, 0, padded, 0, part);
  }

  /** Where ACI0 starts: after ACID, on a 16-byte boundary. */
  function Aci0Offset(acid: Blocks): nat {
    AlignUp(META_SIZE + SectionSize(ACID_SIZE, acid), ALIGN)
  }

  /** Every offset and size fits its 32-bit field. */
  predicate Fits(acid: Blocks, aci: Blocks) {
    Aci0Offset(acid) + SectionSize(ACI0_SIZE, aci) < 0x1_0000_0000
  }

  /** META, ACID and ACI0 in order, ACI0 on a 16-byte boundary. */
  function Image(meta: MetaHeader, acidHeader: AcidHeader, acid: Blocks, aciHeader: Aci0Header, aci: Blocks): (image: seq<u8>)
    ensures |image| == Aci0Offset(acid) + SectionSize(ACI0_SIZE, aci)
  {
    PadTo(MetaBytes(meta) + SectionBytes(AcidBytes(acidHeader), acid), ALIGN) + SectionBytes(Aci0Bytes(aciHeader), aci)
  }
}
