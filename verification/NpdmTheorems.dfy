/** What a built NPDM promises its readers. */
module NpdmTheorems {
  import opened Bytes
  import opened Packing
  import opened NpdmCapability
  import opened NpdmBlocks
  import opened NpdmFormat
  import opened NpdmBuild
  import opened Names
  import opened NpdmGrants
  import Read = NpdmRead

  /** One set of descriptors has one image. */
  lemma {:induction false} NpdmIsUnique(x: seq<u8>, y: seq<u8>, m: Metadata, aci: AciData, acid: AcidData)
    requires IsNpdmOf(x, m, aci, acid) && IsNpdmOf(y, m, aci, acid)
    ensures x == y
  {
    hide Fits, ImageOf, IsKcOf, FahBytes, FacBytes, ListsFit;
    var b, c :| AreAciBlocks(b, aci) && AreAcidBlocks(c, acid) && Fits(c, b) && x == ImageOf(m, aci, acid, b, c);
    var d, e :| AreAciBlocks(d, aci) && AreAcidBlocks(e, acid) && Fits(e, d) && y == ImageOf(m, aci, acid, d, e);
    BlockIsUnique(b.kc, d.kc, aci.capabilities);
    BlockIsUnique(c.kc, e.kc, acid.capabilities);
  }

  /** Where the two sections lie in an image. */
  lemma {:induction false} SectionsInImage(meta: MetaHeader, acidHeader: AcidHeader, acid: Blocks, aciHeader: Aci0Header, aci: Blocks)
    ensures var image := Image(meta, acidHeader, acid, aciHeader, aci);
      Holds(image, 0, MetaBytes(meta)) && Holds(image, META_SIZE, SectionBytes(AcidBytes(acidHeader), acid)) &&
      Holds(image, Aci0Offset(acid), SectionBytes(Aci0Bytes(aciHeader), aci))
  {
    hide AlignUp, MetaBytes, AcidBytes, Aci0Bytes, SectionBytes, SectionSize;
    var image := Image(meta, acidHeader, acid, aciHeader, aci);
    var front := MetaBytes(meta) + SectionBytes(AcidBytes(acidHeader), acid);
    assert Holds(image, 0, PadTo(front, ALIGN)) && Holds(image, Aci0Offset(acid), SectionBytes(Aci0Bytes(aciHeader), aci));
    PadHolds(image, front);
    HoldsMiddle(image, 0, MetaBytes(meta), SectionBytes(AcidBytes(acidHeader), acid), []) by {
      assert MetaBytes(meta) + SectionBytes(AcidBytes(acidHeader), acid) + [] == front;
    }
  }

  lemma {:induction false} HoldsWithin(b: seq<u8>, at: nat, whole: seq<u8>, off: nat, part: seq<u8>)
    requires Holds(b, at, whole) && Holds(whole, off, part)
    ensures Holds(b, at + off, part)
  {
    HoldsPart(b, at, whole, off, part);
  }

  /** Everything the reader checks or slices is where it should be. */
  lemma {:induction false} PartsInImage(m: Metadata, aci: AciData, acid: AcidData, b: Blocks, c: Blocks)
    requires Fits(c, b)
    ensures var image := ImageOf(m, aci, acid, b, c);
      Holds(image, 0, MetaBytes(MetaOf(m, c, b))) && Holds(image, META_SIZE, AcidBytes(AcidOf(acid, c))) &&
      Holds(image, Aci0Offset(c), Aci0Bytes(Aci0Of(aci, b))) && Holds(image, Aci0Offset(c) + ACI0_SIZE, b.fac) &&
      Holds(image, Aci0Offset(c) + SacOffset(ACI0_SIZE, b), b.sac) && Holds(image, Aci0Offset(c) + KcOffset(ACI0_SIZE, b), b.kc)
  {
    hide AlignUp, MetaBytes, AcidBytes, Aci0Bytes, SectionBytes, MetaOf, AcidOf, Aci0Of, Holds, Aci0Offset;
    var image := ImageOf(m, aci, acid, b, c);
    var acidHeader, aciHeader := AcidBytes(AcidOf(acid, c)), Aci0Bytes(Aci0Of(aci, b));
    SectionsInImage(MetaOf(m, c, b), AcidOf(acid, c), c, Aci0Of(aci, b), b);
    BlocksInSection(acidHeader, c);
    BlocksInSection(aciHeader, b);
    HoldsWithin(image, META_SIZE, SectionBytes(acidHeader, c), 0, acidHeader);
    HoldsWithin(image, Aci0Offset(c), SectionBytes(aciHeader, b), 0, aciHeader);
    HoldsWithin(image, Aci0Offset(c), SectionBytes(aciHeader, b), ACI0_SIZE, b.fac);
    HoldsWithin(image, Aci0Offset(c), SectionBytes(aciHeader, b), SacOffset(ACI0_SIZE, b), b.sac);
    HoldsWithin(image, Aci0Offset(c), SectionBytes(aciHeader, b), KcOffset(ACI0_SIZE, b), b.kc);
  }

  /** The reader's view of a built image. */
  ghost predicate IsViewOf(n: Read.Npdm, m: Metadata, aci: AciData, acid: AcidData, b: Blocks, c: Blocks)
    requires Fits(c, b)
  {
    n == Read.Npdm(ImageOf(m, aci, acid, b, c), MetaOf(m, c, b), AcidOf(acid, c), Aci0Of(aci, b))
  }

  /** A built image is accepted, all three headers read back as written. */
  lemma {:induction false} BuiltIsAccepted(m: Metadata, aci: AciData, acid: AcidData, b: Blocks, c: Blocks) returns (n: Read.Npdm)
    requires Fits(c, b)
    ensures Read.TryFromBytes(ImageOf(m, aci, acid, b, c)) == Ok(n) && IsViewOf(n, m, aci, acid, b, c)
  {
    hide AlignUp, MetaBytes, AcidBytes, Aci0Bytes, MetaAt, AcidAt, Aci0At, ExtentsOf, NameField, ImageOf, Holds;
    var image := ImageOf(m, aci, acid, b, c);
    PartsInImage(m, aci, acid, b, c);
    MetaReads(image, MetaOf(m, c, b));
    AcidReads(image, META_SIZE, AcidOf(acid, c));
    Aci0Reads(image, Aci0Offset(c), Aci0Of(aci, b));
    SizesInside(m, aci, acid, b, c);
    n := Read.Npdm(image, MetaOf(m, c, b), AcidOf(acid, c), Aci0Of(aci, b));
  }

  lemma {:induction false} SizesInside(m: Metadata, aci: AciData, acid: AcidData, b: Blocks, c: Blocks)
    requires Fits(c, b)
    ensures META_SIZE + SectionSize(ACID_SIZE, c) <= |ImageOf(m, aci, acid, b, c)|
    ensures Aci0Offset(c) + SectionSize(ACI0_SIZE, b) == |ImageOf(m, aci, acid, b, c)|
    ensures SectionSize(ACID_SIZE, c) >= ACID_SIZE && SectionSize(ACI0_SIZE, b) >= ACI0_SIZE
  {
    hide MetaOf, AcidOf, Aci0Of;
  }

  /** The reader's three slices are exactly the three blocks written. */
  lemma {:induction false} BlocksReadBack(n: Read.Npdm, m: Metadata, aci: AciData, acid: AcidData, b: Blocks, c: Blocks)
    requires Fits(c, b) && IsViewOf(n, m, aci, acid, b, c)
    ensures Read.FacData(n) == Ok(b.fac) && Read.SacData(n) == Ok(b.sac) && Read.KcData(n) == Ok(b.kc)
  {
    hide AlignUp, ImageOf, AcidOf, NameField;
    PartsInImage(m, aci, acid, b, c);
  }

  /** End to end: the access a program was given is what its NPDM is read as giving it. */
  lemma {:induction false} AccessReadsBack(image: seq<u8>, m: Metadata, aci: AciData, acid: AcidData) returns (n: Read.Npdm)
    requires IsNpdmOf(image, m, aci, acid)
    ensures Read.TryFromBytes(image) == Ok(n) && n.aci0.programId == aci.programId
    ensures n.acid.programIdMin == acid.programIdMin && n.acid.programIdMax == acid.programIdMax && n.acid.flags == acid.flags
    ensures n.meta.version == m.version && n.meta.stackSize == m.stackSize
    ensures Read.ProgramName(n) == UpToNul(CutTo(m.name, NAME_SIZE - 1))
    ensures ListsFit(aci.filesystem) && Read.FacData(n) == Ok(FahBytes(aci.filesystem))
    ensures Read.SacData(n).Ok? && ParseServices(Read.SacData(n).value) == Some(Surviving(aci.services))
    ensures Read.KcData(n).Ok? && ParseGrants(Read.KcData(n).value) == Some(Granted(aci.capabilities))
  {
    hide Fits, ImageOf, IsKcOf, ParseGrants, Granted, Read.TryFromBytes, Read.FacData, Read.SacData, Read.KcData, FahBytes, AreAcidBlocks, NameField, ListsFit;
    var b, c :| AreAciBlocks(b, aci) && AreAcidBlocks(c, acid) && Fits(c, b) && image == ImageOf(m, aci, acid, b, c);
    n := BuiltIsAccepted(m, aci, acid, b, c);
    BlocksReadBack(n, m, aci, acid, b, c);
    NameReadsBack(n, m, aci, acid, b, c);
    ServicesParse(aci.services);
    GrantsReadBack(b.kc, aci.capabilities);
  }

  /**
   * The name read from a built image is the given one up to its first NUL, cut to fifteen bytes: the
   * name itself exactly when it is short enough and holds no NUL.
   */
  lemma {:induction false} NameReadsBack(n: Read.Npdm, m: Metadata, aci: AciData, acid: AcidData, b: Blocks, c: Blocks)
    requires Fits(c, b) && IsViewOf(n, m, aci, acid, b, c)
    ensures Read.ProgramName(n) == UpToNul(CutTo(m.name, NAME_SIZE - 1))
    ensures Read.ProgramName(n) == m.name <==> |m.name| < NAME_SIZE && 0 !in m.name
  {
    hide Fits, ImageOf, AcidOf, Aci0Of, AlignUp, NulTerminated;
    FieldReadsBack(m.name, NAME_SIZE);
  }

  // ---- Which access fits ----

  lemma {:induction false} ServicesAtMost(services: seq<Service>)
    ensures |ServicesBytes(services)| <= (MAX_NAME + 1) * |services|
  {
    if services != [] {
      ServicesAtMost(services[1..]);
    }
  }

  /** Bytes a section's services and capabilities can take. */
  function AccessBytes(services: seq<Service>, capabilities: seq<Capability>): nat {
    (MAX_NAME + 1) * |services| + 32 * |capabilities|
  }

  /** Counting the longest encodings, everything stays a kibibyte and a half short of 4 GiB. */
  predicate AccessWithin(aci: AciData, acid: AcidData) {
    FAH_SIZE + ContentSize(aci.filesystem) + SaveSize(aci.filesystem) +
    AccessBytes(aci.services, aci.capabilities) + AccessBytes(acid.services, acid.capabilities) < 0xFFFF_FA00
  }

  /** Access within that bound fits, which can be checked before building. */
  lemma {:induction false} BoundedAccessFits(aci: AciData, acid: AcidData)
    requires AccessWithin(aci, acid)
    ensures AccessFits(aci, acid)
  {
    hide Fits, IsKcOf, FahBytes, FacBytes, ServicesBytes, ContentSize, SaveSize;
    forall b, c {:trigger AreAciBlocks(b, aci), AreAcidBlocks(c, acid)} | AreAciBlocks(b, aci) && AreAcidBlocks(c, acid)
      ensures Fits(c, b)
    {
      ListsReadBack(aci.filesystem, 0);
      BlockAtMost(b.kc, aci.capabilities);
      BlockAtMost(c.kc, acid.capabilities);
      ServicesAtMost(aci.services);
      ServicesAtMost(acid.services);
      BoundedBlocksFit(b, c);
    }
  }

  lemma {:induction false} BoundedBlocksFit(b: Blocks, c: Blocks)
    requires |b.fac| + |b.sac| + |b.kc| + |c.fac| + |c.sac| + |c.kc| < 0xFFFF_FA00 + 0x2C
    ensures Fits(c, b)
  {
  }
}
