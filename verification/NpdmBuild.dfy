/** The NPDM builder: every offset computed first, then the image written into a zeroed buffer. */
module NpdmBuild {
  import opened Bytes
  import opened Packing
  import opened Buffers
  import opened NpdmCapability
  import opened NpdmBlocks
  import opened NpdmFormat
  import opened Names

  datatype Metadata = Metadata(
    name: seq<u8>, titleId: u64, version: u32, mainThreadPriority: u8, defaultCpuId: u8, stackSize: u32, flags: u8)

  datatype AciData = AciData(programId: u64, filesystem: FilesystemAccess, services: seq<Service>, capabilities: seq<Capability>)

  datatype AcidData = AcidData(
    programIdMin: u64, programIdMax: u64, filesystem: FilesystemAccess, services: seq<Service>, capabilities: seq<Capability>, flags: u32)

  const ALL_ONES: u64 := 0xFFFF_FFFF_FFFF_FFFF
  const DEFAULT_ACCESS := FilesystemAccess(ALL_ONES, [], [], 0, ALL_ONES, 0, ALL_ONES)

  /** The name field: cut to fifteen bytes, so the sixteenth always terminates it. */
  function NameField(name: seq<u8>): (b: NameBytes) {
    NulTerminated(name, NAME_SIZE)
  }

  // ---- What is built ----

  ghost predicate AreAciBlocks(b: Blocks, aci: AciData) {
    ListsFit(aci.filesystem) && b.fac == FahBytes(aci.filesystem) && b.sac == ServicesBytes(aci.services) && IsKcOf(b.kc, aci.capabilities)
  }

  ghost predicate AreAcidBlocks(b: Blocks, acid: AcidData) {
    b.fac == FacBytes(acid.filesystem) && b.sac == ServicesBytes(acid.services) && IsKcOf(b.kc, acid.capabilities)
  }

  function MetaOf(m: Metadata, acid: Blocks, aci: Blocks): MetaHeader
    requires Fits(acid, aci)
  {
    MetaHeader(m.flags, m.mainThreadPriority, m.defaultCpuId, m.version, m.stackSize, NameField(m.name),
               Aci0Offset(acid), SectionSize(ACI0_SIZE, aci), META_SIZE, SectionSize(ACID_SIZE, acid))
  }

  function AcidOf(a: AcidData, acid: Blocks): AcidHeader
    requires SectionSize(ACID_SIZE, acid) < 0x1_0000_0000
  {
    AcidHeader(SectionSize(ACID_SIZE, acid) - SIGNATURE_SIZE, a.flags, a.programIdMin, a.programIdMax, ExtentsOf(ACID_SIZE, acid))
  }

  function Aci0Of(a: AciData, aci: Blocks): Aci0Header
    requires SectionSize(ACI0_SIZE, aci) < 0x1_0000_0000
  {
    Aci0Header(a.programId, ExtentsOf(ACI0_SIZE, aci))
  }

  function ImageOf(m: Metadata, aci: AciData, acid: AcidData, aciBlocks: Blocks, acidBlocks: Blocks): seq<u8>
    requires Fits(acidBlocks, aciBlocks)
  {
    Image(MetaOf(m, acidBlocks, aciBlocks), AcidOf(acid, acidBlocks), acidBlocks, Aci0Of(aci, aciBlocks), aciBlocks)
  }

  /** An image of these descriptors: blocks encoding them, laid out and described. */
  ghost predicate IsNpdmOf(image: seq<u8>, m: Metadata, aci: AciData, acid: AcidData) {
    exists b, c ::
      AreAciBlocks(b, aci) && AreAcidBlocks(c, acid) && Fits(c, b) && image == ImageOf(m, aci, acid, b, c)
  }

  /** However the blocks come out, everything stays within 32-bit offsets. */
  ghost predicate AccessFits(aci: AciData, acid: AcidData) {
    ListsFit(aci.filesystem) &&
    forall b, c {:trigger AreAciBlocks(b, aci), AreAcidBlocks(c, acid)} :: AreAciBlocks(b, aci) && AreAcidBlocks(c, acid) ==> Fits(c, b)
  }

  // ---- The builder ----

  class NpdmBuilder {
    const metadata: Metadata
    var aci: Option<AciData>
    var acid: Option<AcidData>

    constructor (metadata: Metadata)
      ensures this.metadata == metadata && aci == None && acid == None
    {
      this.metadata := metadata;
      aci, acid := None, None;
    }

    /** The access info written: as given, or everything the title's own id allows. */
    function EffectiveAci(): AciData
      reads this
    {
      if aci.Some? then aci.value else AciData(metadata.titleId, DEFAULT_ACCESS, [], [])
    }

    function EffectiveAcid(): AcidData
      reads this
    {
      if acid.Some? then acid.value else AcidData(0, ALL_ONES, DEFAULT_ACCESS, [], [], 0)
    }

    method Build() returns (image: seq<u8>)
      requires AccessFits(EffectiveAci(), EffectiveAcid())
      ensures IsNpdmOf(image, metadata, EffectiveAci(), EffectiveAcid())
    {
      hide AreAciBlocks, AreAcidBlocks, Fits, ImageOf;
      var aciData, acidData := EffectiveAci(), EffectiveAcid();
      var aciBlocks := BuildAciBlocks(aciData);
      var acidBlocks := BuildAcidBlocks(acidData);
      image := Assemble(metadata, aciData, acidData, aciBlocks, acidBlocks);
    }
  }

  method BuildAciBlocks(aci: AciData) returns (b: Blocks)
    requires ListsFit(aci.filesystem)
    ensures AreAciBlocks(b, aci)
  {
    hide IsKcOf, FahBytes, ListsFit;
    var fac := BuildFah(aci.filesystem);
    var sac := BuildServices(aci.services);
    var kc := BuildCapabilities(aci.capabilities);
    b := Blocks(fac, sac, kc);
  }

  method BuildAcidBlocks(acid: AcidData) returns (b: Blocks)
    ensures AreAcidBlocks(b, acid)
  {
    hide IsKcOf;
    var fac := FacBytes(acid.filesystem);
    var sac := BuildServices(acid.services);
    var kc := BuildCapabilities(acid.capabilities);
    b := Blocks(fac, sac, kc);
  }

  // ---- Writing ----

  /** A section written over the zeros that follow what is done. */
  method PlaceSection(buf: array<u8>, ghost done: seq<u8>, start: nat, header: seq<u8>, b: Blocks, sacOffset: nat, kcOffset: nat)
    requires |done| <= start && start + SectionSize(|header|, b) <= buf.Length
    requires buf[..] == OverZeros(done, buf.Length)
    requires sacOffset == SacOffset(|header|, b) && kcOffset == KcOffset(|header|, b)
    modifies buf
    ensures buf[..] == OverZeros(done + Zeros(start - |done|) + SectionBytes(header, b), buf.Length)
  {
    hide AlignUp, Spliced, OverZeros, PadTo;
    ghost var n := buf.Length;
    ghost var base := done + Zeros(start - |done|);
    ghost var first := header + b.fac;
    ghost var second := PadTo(first, ALIGN) + b.sac;
    WriteFurther(done, n, start, header);
    CopyInto(buf, start, header);
    WriteFurther(base + header, n, start + |header|, b.fac);
    NoGap(base, header, b.fac);
    CopyInto(buf, start + |header|, b.fac);
    WriteFurther(base + first, n, start + sacOffset, b.sac);
    PaddedOnto(base, first, b.sac);
    CopyInto(buf, start + sacOffset, b.sac);
    WriteFurther(base + second, n, start + kcOffset, b.kc);
    PaddedOnto(base, second, b.kc);
    CopyInto(buf, start + kcOffset, b.kc);
  }

  lemma {:induction false} GapOfNone(done: seq<u8>, next: seq<u8>)
    ensures done + Zeros(0) + next == done + next
  {
    assert done + Zeros(0) == done;
  }

  lemma {:induction false} NoGap(base: seq<u8>, part: seq<u8>, next: seq<u8>)
    ensures base + part + Zeros(0) + next == base + (part + next)
  {
    assert base + part + Zeros(0) == base + part;
    AppendIsAssociative(base, part, next);
  }

  lemma {:induction false} PaddedOnto(base: seq<u8>, part: seq<u8>, next: seq<u8>)
    ensures base + part + Zeros(AlignUp(|part|, ALIGN) - |part|) + next == base + (PadTo(part, ALIGN) + next)
  {
    hide AlignUp;
    var pad := Zeros(AlignUp(|part|, ALIGN) - |part|);
    AppendIsAssociative(base, part, pad);
    AppendIsAssociative(base, part + pad, next);
  }

  method Assemble(m: Metadata, aci: AciData, acid: AcidData, aciBlocks: Blocks, acidBlocks: Blocks) returns (image: seq<u8>)
    requires Fits(acidBlocks, aciBlocks)
    ensures image == ImageOf(m, aci, acid, aciBlocks, acidBlocks)
  {
    hide AlignUp, MetaBytes, AcidBytes, Aci0Bytes, SectionBytes, PadTo, NameField, Spliced, OverZeros, Image;
    // ACI0 section layout
    var aciSac := AlignUp(ACI0_SIZE + |aciBlocks.fac|, ALIGN);
    var aciKc := AlignUp(aciSac + |aciBlocks.sac|, ALIGN);
    var aciSize := aciKc + |aciBlocks.kc|;
    // ACID section layout
    var acidSac := AlignUp(ACID_SIZE + |acidBlocks.fac|, ALIGN);
    var acidKc := AlignUp(acidSac + |acidBlocks.sac|, ALIGN);
    var acidSize := acidKc + |acidBlocks.kc|;
    var aciOffset := AlignUp(META_SIZE + acidSize, ALIGN);
    var meta := MetaHeader(m.flags, m.mainThreadPriority, m.defaultCpuId, m.version, m.stackSize, NameField(m.name),
                           aciOffset, aciSize, META_SIZE, acidSize);
    var acidHeader := AcidHeader(acidSize - SIGNATURE_SIZE, acid.flags, acid.programIdMin, acid.programIdMax,
                                 Extents(ACID_SIZE, |acidBlocks.fac|, acidSac, |acidBlocks.sac|, acidKc, |acidBlocks.kc|));
    var aciHeader := Aci0Header(aci.programId,
                                Extents(ACI0_SIZE, |aciBlocks.fac|, aciSac, |aciBlocks.sac|, aciKc, |aciBlocks.kc|));
    HeadersAre(m, aci, acid, aciBlocks, acidBlocks, meta, acidHeader, aciHeader);
    var npdm := new u8[aciOffset + aciSize](_ => 0);
    ghost var acidSection, aciSection := SectionBytes(AcidBytes(acidHeader), acidBlocks), SectionBytes(Aci0Bytes(aciHeader), aciBlocks);
    NothingDone(npdm[..]);
    WriteFurther([], npdm.Length, 0, MetaBytes(meta));
    GapOfNone([], MetaBytes(meta));
    assert [] + MetaBytes(meta) == MetaBytes(meta);
    CopyInto(npdm, 0, MetaBytes(meta));
    PlaceSection(npdm, MetaBytes(meta), META_SIZE, AcidBytes(acidHeader), acidBlocks, acidSac, acidKc);
    GapOfNone(MetaBytes(meta), acidSection);
    PlaceSection(npdm, MetaBytes(meta) + acidSection, aciOffset, Aci0Bytes(aciHeader), aciBlocks, aciSac, aciKc);
    image := npdm[..];
    AssembledIs(image, meta, acidHeader, acidBlocks, aciHeader, aciBlocks);
  }

  lemma {:induction false} NothingDone(zeroed: seq<u8>)
    requires forall k :: 0 <= k < |zeroed| ==> zeroed[k] == 0
    ensures zeroed == OverZeros([], |zeroed|)
  {
  }

  lemma {:induction false} HeadersAre(m: Metadata, aci: AciData, acid: AcidData, aciBlocks: Blocks, acidBlocks: Blocks,
                                      meta: MetaHeader, acidHeader: AcidHeader, aciHeader: Aci0Header)
    requires Fits(acidBlocks, aciBlocks)
    requires meta == MetaHeader(m.flags, m.mainThreadPriority, m.defaultCpuId, m.version, m.stackSize, NameField(m.name),
                                Aci0Offset(acidBlocks), SectionSize(ACI0_SIZE, aciBlocks), META_SIZE, SectionSize(ACID_SIZE, acidBlocks))
    requires acidHeader == AcidHeader(SectionSize(ACID_SIZE, acidBlocks) - SIGNATURE_SIZE, acid.flags, acid.programIdMin,
                                      acid.programIdMax, ExtentsOf(ACID_SIZE, acidBlocks))
    requires aciHeader == Aci0Header(aci.programId, ExtentsOf(ACI0_SIZE, aciBlocks))
    ensures meta == MetaOf(m, acidBlocks, aciBlocks) && acidHeader == AcidOf(acid, acidBlocks) && aciHeader == Aci0Of(aci, aciBlocks)
  {
  }

  lemma {:induction false} AssembledIs(image: seq<u8>, meta: MetaHeader, acidHeader: AcidHeader, acid: Blocks, aciHeader: Aci0Header,
                                       aci: Blocks)
    requires var done := MetaBytes(meta) + SectionBytes(AcidBytes(acidHeader), acid);
      image == OverZeros(done + Zeros(Aci0Offset(acid) - |done|) + SectionBytes(Aci0Bytes(aciHeader), aci),
                         Aci0Offset(acid) + SectionSize(ACI0_SIZE, aci))
    ensures image == Image(meta, acidHeader, acid, aciHeader, aci)
  {
    hide AlignUp, MetaBytes, AcidBytes, Aci0Bytes, SectionBytes;
    var done := MetaBytes(meta) + SectionBytes(AcidBytes(acidHeader), acid);
    PaddedOnto([], done, SectionBytes(Aci0Bytes(aciHeader), aci));
    var all := done + Zeros(Aci0Offset(acid) - |done|) + SectionBytes(Aci0Bytes(aciHeader), aci);
    assert all + Zeros(0) == all;
  }
}
