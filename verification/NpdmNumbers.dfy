/** The NPDM in plain numbers: where each field of an image lies, and what some capabilities encode to. */
module NpdmNumbers {
  import opened Bytes
  import opened Packing
  import opened NpdmCapability
  import opened NpdmSyscalls
  import opened NpdmBlocks
  import opened NpdmGrants
  import opened NpdmFormat
  import opened NpdmBuild
  import opened NpdmTheorems
  import Read = NpdmRead

  // ---- Capabilities ----

  /** One of each kind of descriptor, its fields in their places. */
  lemma {:induction false} KnownDescriptors()
    ensures Descriptors(KernelFlags(59, 28, 3, 0)) == [0x300_EDC7]
    ensures Descriptors(Map(0x712_3456, 0x8_9ABC, true, false)) == [0x891A_2B3F, 0xBC4D_5E3F]
    ensures Descriptors(Map(0x712_3456, 0x8_9ABC, false, true)) == [0x91A_2B3F, 0x3C4D_5E3F]
    ensures Descriptors(MapPage(0x12_3456)) == [0x1234_567F]
    ensures Descriptors(IrqPair(0x123, 0x3AB)) == [0xEAD2_37FF]
    ensures Descriptors(ApplicationType(1)) == [0x5FFF] && Descriptors(MinKernelVersion(0x30)) == [0x18_3FFF]
    ensures Descriptors(HandleTableSize(0x200)) == [0x200_7FFF]
    ensures Descriptors(DebugFlags(true, false, false)) == [0x2_FFFF] && Descriptors(DebugFlags(false, true, false)) == [0x4_FFFF]
    ensures Descriptors(DebugFlags(false, false, true)) == [0x8_FFFF]
  {
  }

  lemma {:induction false} KnownRegions()
    ensures Descriptors(MapRegion([Region(2, false), Region(3, true), Region(4, false)])) == [0x90C_13FF]
  {
  }

  /** A mask word with exactly the given bits of the 24 set. */
  lemma {:induction false} WordIs(words: seq<bv32>, ids: seq<u64>, v: bv32, w: bv32)
    requires Expresses(words, ids, 0) && v in words && IndexOf(v) == IndexOf(w) && LowBits(w) == 0xF
    requires forall o {:trigger Slot(o)} :: 0 <= o < 24 ==> (Has(w, Slot(o)) <==> 24 * IndexOf(w) + o in ids)
    ensures v == w
  {
    hide TrailingOnes, Has, Slot, IndexOf, TopBits, LowBits;
    MarkerBits(v);
    SameTop(v, w);
    forall bit: bv5 {:trigger Has(v, bit)} {:trigger Has(w, bit)} | bit >= 5 && bit < 29
      ensures Has(v, bit) == Has(w, bit)
    {
      var o := SlotOf(bit);
      BitIsRequest(words, ids, v, o);
    }
    WordFromBits(v, w);
  }

  lemma {:induction false} OneBit(w: bv32, o: nat, index: bv3)
    requires o < 24 && w == 0xF | ((index as bv32) << 29) | (1 << Slot(o))
    ensures IndexOf(w) == index as nat && LowBits(w) == 0xF
    ensures forall p {:trigger Slot(p)} :: 0 <= p < 24 ==> (Has(w, Slot(p)) <==> p == o)
  {
    hide Has, Slot;
    SlotReads(o);
    BitsOfMask(w, Slot(o), index);
    forall p {:trigger Slot(p)} | 0 <= p < 24
      ensures Has(w, Slot(p)) <==> p == o
    {
      SlotReads(p);
      SlotsDiffer(p, o);
      BitOfMask(w, Slot(o), index, Slot(p));
    }
  }

  lemma {:induction false} BitsOfMask(w: bv32, b: bv5, index: bv3)
    requires b >= 5 && b < 29 && w == 0xF | ((index as bv32) << 29) | (1 << b)
    ensures TopBits(w) == index && LowBits(w) == 0xF && IndexOf(w) == index as nat
  {
  }

  lemma {:induction false} BitOfMask(w: bv32, b: bv5, index: bv3, c: bv5)
    requires b >= 5 && b < 29 && c >= 5 && c < 29 && w == 0xF | ((index as bv32) << 29) | (1 << b)
    ensures Has(w, c) <==> b == c
  {
  }

  lemma {:induction false} IdInMask(i: nat, p: nat, id: nat)
    requires p < 24
    ensures 24 * i + p == id <==> id / 24 == i && id % 24 == p
  {
  }

  /** Syscall `id` alone is one word: index `id / 24` in the top three bits, bit `id % 24 + 5`, and the marker. */
  lemma {:induction false} OneSyscall(words: seq<bv32>, id: u64, index: bv3, w: bv32)
    requires Expresses(words, [id], 0) && id < 192 && index as nat == id / 24
    requires w == 0xF | ((index as bv32) << 29) | (1 << Slot(id % 24))
    ensures words == [w]
  {
    hide TrailingOnes, Has, Slot, IndexOf, LowBits;
    OneBit(w, id % 24, index);
    forall p {:trigger Slot(p)} | 0 <= p < 24
      ensures Has(w, Slot(p)) <==> 24 * IndexOf(w) + p in [id]
    {
      IdInMask(IndexOf(w), p, id);
    }
    assert id in [id];
    var v :| v in words && IndexOf(v) == id / 24 && Has(v, Slot(id % 24));
    WordIs(words, [id], v, w);
    OnlyWord(words, id, w);
  }

  lemma {:induction false} OnlyWord(words: seq<bv32>, id: u64, w: bv32)
    requires Expresses(words, [id], 0) && w in words && IndexOf(w) == id / 24
    ensures words == [w]
  {
    hide TrailingOnes, Has, Slot, IndexOf;
    forall v | v in words
      ensures v == w
    {
      var o :| 0 <= o < PER_MASK && Has(v, Slot(o));
      BitIsRequest(words, [id], v, o);
      IdInMask(IndexOf(v), o, id);
      OneWordPerIndex(words, v, w);
    }
    assert w in [w];
    RisingUnique(words, [w]);
  }

  /** Syscalls 1 and 191. */
  lemma {:induction false} KnownSyscalls(one: seq<bv32>, last: seq<bv32>)
    requires IsEncoding(one, Syscalls([1])) && IsEncoding(last, Syscalls([191]))
    ensures one == [0x4F] && last == [0xF000_000F]
  {
    hide Expresses;
    OneSyscall(one, 1, 0, 0x4F);
    OneSyscall(last, 191, 7, 0xF000_000F);
  }

  // ---- Services ----

  /** One byte - length less one, 0x80 more for a host - and at most eight bytes of name. */
  lemma {:induction false} ServiceInNumbers(s: Service)
    ensures s.name == [] ==> ServiceBytes(s) == []
    ensures 1 <= |s.name| <= 8 ==> ServiceBytes(s) == [|s.name| - 1 + (if s.isHost then 0x80 else 0)] + s.name
    ensures |s.name| > 8 ==> ServiceBytes(s) == [if s.isHost then 0x87 else 0x07] + s.name[..8]
  {
  }

  // ---- Filesystem access ----

  /** The access header: version 1, permissions, then offset and size of the content owner list and of the save data owner list. */
  lemma {:induction false} FahInNumbers(fs: FilesystemAccess, k: nat)
    requires ListsFit(fs)
    ensures var b, n, m := FahBytes(fs), |fs.contentIds|, |fs.saveOwners|;
      |b| >= 0x1C && b[..4] == [1, 0, 0, 0] && U64At(b, 4) == fs.permissions && U32At(b, 12) == 0x1C &&
      U32At(b, 16) == (if n == 0 then 0 else 4 + 8 * n) && U32At(b, 20) == 0x1C + U32At(b, 16) &&
      U32At(b, 24) == (if m == 0 then 0 else 4 + (m + 3) / 4 * 4 + 8 * m) && |b| == U32At(b, 20) + U32At(b, 24)
    ensures k < |fs.contentIds| ==>
      var b := FahBytes(fs);
      0x20 + 8 * k + 8 <= |b| && U32At(b, 0x1C) == |fs.contentIds| && U64At(b, 0x20 + 8 * k) == fs.contentIds[k]
    ensures k < |fs.saveOwners| ==>
      var b, m := FahBytes(fs), |fs.saveOwners|;
      var at: nat := U32At(b, 20);
      var ids := at + 4 + (m + 3) / 4 * 4;
      ids + 8 * k + 8 <= |b| && U32At(b, at) == m && b[at + 4 + k] == fs.saveOwners[k].accessibility &&
      U64At(b, ids + 8 * k) == fs.saveOwners[k].id
  {
    hide FromLe32, FromLe64, FahFront, ContentBytes, SaveBytes, AlignUp, FahBytes;
    ListsReadBack(fs, k);
    FahFrontHeld(fs);
    FrontReads(FahBytes(fs), fs);
    FirstFields(FahBytes(fs), fs);
    OwnersAligned(|fs.saveOwners|);
  }

  lemma {:induction false} OwnersAligned(m: nat)
    ensures AlignUp(m, 4) == (m + 3) / 4 * 4
  {
  }

  lemma {:induction false} FahFrontHeld(fs: FilesystemAccess)
    requires ListsFit(fs)
    ensures Holds(FahBytes(fs), 0, FahFront(fs))
  {
    hide FahFront, ContentBytes, SaveBytes;
    var b := FahBytes(fs);
    assert b[0..|FahFront(fs)|] == FahFront(fs);
  }

  lemma {:induction false} FirstFields(b: seq<u8>, fs: FilesystemAccess)
    requires ListsFit(fs) && Holds(b, 0, FahFront(fs))
    ensures b[..4] == [1, 0, 0, 0] && U64At(b, 4) == fs.permissions
  {
    hide Le64, Le32, FromLe64, ContentSize, SaveSize;
    var ws := [FAH_SIZE, ContentSize(fs), FAH_SIZE + ContentSize(fs), SaveSize(fs)];
    HoldsMiddle(b, 0, Words([1]), Le64(fs.permissions), Words(ws));
    Le64RoundTrip(fs.permissions);
    WordOne();
    assert b[0..4] == b[..4];
  }

  lemma {:induction false} WordOne()
    ensures Words([1]) == [1, 0, 0, 0]
  {
    assert [1][..0] == [] && Words([1]) == [] + Le32(1);
  }

  /** The descriptor's access control: version 1, permissions, and two ranges of ids. */
  lemma {:induction false} FacInNumbers(fs: FilesystemAccess)
    ensures var b := FacBytes(fs);
      |b| == 0x2C && b[..4] == [1, 0, 0, 0] && U64At(b, 4) == fs.permissions && U64At(b, 12) == fs.contentIdMin &&
      U64At(b, 20) == fs.contentIdMax && U64At(b, 28) == fs.saveIdMin && U64At(b, 36) == fs.saveIdMax
  {
    hide Longs, FromLe64;
    var b, xs := FacBytes(fs), [fs.permissions, fs.contentIdMin, fs.contentIdMax, fs.saveIdMin, fs.saveIdMax];
    assert b[4..4 + 8 * |xs|] == Longs(xs);
    LongReads(b, 4, xs, 0);
    LongReads(b, 4, xs, 1);
    LongReads(b, 4, xs, 2);
    LongReads(b, 4, xs, 3);
    LongReads(b, 4, xs, 4);
  }

  // ---- The image ----

  function Aligned(x: nat): nat {
    (x + 15) / 16 * 16
  }

  lemma {:induction false} AlignedIs(x: nat)
    ensures AlignUp(x, ALIGN) == Aligned(x)
  {
  }

  /** Bytes a section takes: its header and three blocks, the second and third on 16-byte boundaries. */
  function SectionLength(header: nat, b: Blocks): nat {
    Aligned(Aligned(header + |b.fac|) + |b.sac|) + |b.kc|
  }

  lemma {:induction false} LengthsInNumbers(header: nat, b: Blocks)
    ensures SacOffset(header, b) == Aligned(header + |b.fac|) && KcOffset(header, b) == Aligned(Aligned(header + |b.fac|) + |b.sac|)
    ensures SectionSize(header, b) == SectionLength(header, b)
  {
    hide AlignUp, Aligned;
    AlignedIs(header + |b.fac|);
    AlignedIs(Aligned(header + |b.fac|) + |b.sac|);
  }

  /** Three offset and size pairs from `at` on, relative to the section. */
  ghost predicate ExtentsInNumbers(image: seq<u8>, at: nat, header: nat, b: Blocks) {
    at + 24 <= |image| && U32At(image, at) == header && U32At(image, at + 4) == |b.fac| &&
    U32At(image, at + 8) == Aligned(header + |b.fac|) && U32At(image, at + 12) == |b.sac| &&
    U32At(image, at + 16) == Aligned(Aligned(header + |b.fac|) + |b.sac|) && U32At(image, at + 20) == |b.kc|
  }

  /** META: the program's own fields, its name, and where ACI0 and ACID lie. */
  lemma {:induction false} MetaInNumbers(m: Metadata, aci: AciData, acid: AcidData, b: Blocks, c: Blocks)
    requires Fits(c, b)
    ensures var image := ImageOf(m, aci, acid, b, c);
      |image| >= 0x80 && image[..4] == [0x4D, 0x45, 0x54, 0x41] && image[12] == m.flags && image[14] == m.mainThreadPriority &&
      image[15] == m.defaultCpuId && U32At(image, 0x18) == m.version && U32At(image, 0x1C) == m.stackSize &&
      (forall k :: 0 <= k < 16 ==> image[0x20 + k] == if k < 15 && k < |m.name| then m.name[k] else 0)
    ensures var image := ImageOf(m, aci, acid, b, c);
      U32At(image, 0x78) == 0x80 && U32At(image, 0x7C) == SectionLength(0x240, c) &&
      U32At(image, 0x70) == Aligned(0x80 + SectionLength(0x240, c)) && U32At(image, 0x74) == SectionLength(0x40, b)
  {
    hide MetaBytes, AcidBytes, Aci0Bytes, AcidOf, Aci0Of, ImageOf, NameField, AlignUp, Aligned, Holds, FromLe32, SectionLength;
    var image := ImageOf(m, aci, acid, b, c);
    PartsInImage(m, aci, acid, b, c);
    MetaReads(image, MetaOf(m, c, b));
    LengthsInNumbers(0x240, c);
    LengthsInNumbers(0x40, b);
    AlignedIs(0x80 + SectionLength(0x240, c));
    MagicOf(image, 0, [0x4D, 0x45, 0x54, 0x41]) by { AcidMagic(); }
    NameBytesAre(m.name);
    assert image[0x20..0x30] == NameField(m.name);
  }

  lemma {:induction false} NameBytesAre(name: seq<u8>)
    ensures forall k :: 0 <= k < 16 ==> NameField(name)[k] == if k < 15 && k < |name| then name[k] else 0
  {
  }

  /** Four bytes from the word they make. */
  lemma {:induction false} MagicOf(b: seq<u8>, at: nat, magic: seq<u8>)
    requires at + 4 <= |b| && |magic| == 4 && U32At(b, at) == FromLe32(magic)
    ensures b[at..at + 4] == magic && (at == 0 ==> b[..4] == magic)
  {
    SameWord(b[at..at + 4], magic);
    assert at == 0 ==> b[at..at + 4] == b[..4];
  }

  lemma {:induction false} SameWord(x: seq<u8>, y: seq<u8>)
    requires |x| == |y| == 4 && FromLe32(x) == FromLe32(y)
    ensures x == y
  {
    hide FromLe32;
    assert x == [x[0], x[1], x[2], x[3]] && y == [y[0], y[1], y[2], y[3]];
    BytesOfWord(x[0], x[1], x[2], x[3]);
    BytesOfWord(y[0], y[1], y[2], y[3]);
  }

  /** ACID at 0x80: two zeroed signature blocks, `ACID`, the signed length, flags, the program id range, and its blocks. */
  lemma {:induction false} AcidInNumbers(m: Metadata, aci: AciData, acid: AcidData, b: Blocks, c: Blocks)
    requires Fits(c, b)
    ensures var image := ImageOf(m, aci, acid, b, c);
      |image| >= 0x80 + 0x240 && image[0x280..0x284] == [0x41, 0x43, 0x49, 0x44] &&
      U32At(image, 0x284) == SectionLength(0x240, c) - 0x100 && U32At(image, 0x28C) == acid.flags &&
      U64At(image, 0x290) == acid.programIdMin && U64At(image, 0x298) == acid.programIdMax && ExtentsInNumbers(image, 0x2A0, 0x240, c)
  {
    hide MetaBytes, AcidBytes, Aci0Bytes, MetaOf, Aci0Of, ImageOf, AlignUp, Aligned, Holds, FromLe32, FromLe64, SectionLength;
    var image := ImageOf(m, aci, acid, b, c);
    PartsInImage(m, aci, acid, b, c);
    AcidReads(image, META_SIZE, AcidOf(acid, c));
    LengthsInNumbers(0x240, c);
    MagicOf(image, 0x280, [0x41, 0x43, 0x49, 0x44]) by { AcidMagic(); }
  }

  lemma {:induction false} AcidMagic()
    ensures FromLe32([0x41, 0x43, 0x49, 0x44]) == ACID_MAGIC && FromLe32([0x41, 0x43, 0x49, 0x30]) == ACI0_MAGIC
    ensures FromLe32([0x4D, 0x45, 0x54, 0x41]) == META_MAGIC
  {
  }

  /** ACI0 where META says: `ACI0`, the program id, and its blocks, each found where the section says. */
  lemma {:induction false} Aci0InNumbers(m: Metadata, aci: AciData, acid: AcidData, b: Blocks, c: Blocks)
    requires Fits(c, b)
    ensures var image, at := ImageOf(m, aci, acid, b, c), Aligned(0x80 + SectionLength(0x240, c));
      |image| == at + SectionLength(0x40, b) && at + 0x40 <= |image| && image[at..at + 4] == [0x41, 0x43, 0x49, 0x30] &&
      U64At(image, at + 0x10) == aci.programId && ExtentsInNumbers(image, at + 0x20, 0x40, b) &&
      Holds(image, at + 0x40, b.fac) && Holds(image, at + Aligned(0x40 + |b.fac|), b.sac) &&
      Holds(image, at + Aligned(Aligned(0x40 + |b.fac|) + |b.sac|), b.kc)
  {
    hide MetaBytes, AcidBytes, Aci0Bytes, MetaOf, AcidOf, ImageOf, AlignUp, Aligned, Holds, FromLe32, FromLe64, SectionLength;
    var image := ImageOf(m, aci, acid, b, c);
    PartsInImage(m, aci, acid, b, c);
    Aci0Reads(image, Aci0Offset(c), Aci0Of(aci, b));
    SizesInside(m, aci, acid, b, c);
    LengthsInNumbers(0x240, c);
    LengthsInNumbers(0x40, b);
    AlignedIs(0x80 + SectionLength(0x240, c));
    MagicOf(image, Aci0Offset(c), [0x41, 0x43, 0x49, 0x30]) by { AcidMagic(); }
  }

  /** What stands in for access that was not given: the title's own id, every permission, every id, and nothing listed. */
  lemma {:induction false} DefaultsInNumbers(builder: NpdmBuilder)
    requires builder.aci.None? && builder.acid.None?
    ensures var all: u64 := 0xFFFF_FFFF_FFFF_FFFF; var access := FilesystemAccess(all, [], [], 0, all, 0, all);
      builder.EffectiveAci() == AciData(builder.metadata.titleId, access, [], []) &&
      builder.EffectiveAcid() == AcidData(0, all, access, [], [], 0)
  {
  }

  /** Which buffers the reader accepts: both sections inside, no smaller than 0x240 and 0x40 bytes, all three magics in place. */
  lemma {:induction false} AcceptedInNumbers(b: seq<u8>)
    ensures Read.TryFromBytes(b).Ok? <==>
      |b| >= 0x80 && b[..4] == [0x4D, 0x45, 0x54, 0x41] &&
      var acid: nat, acidSize: nat, aci: nat, aciSize: nat := U32At(b, 0x78), U32At(b, 0x7C), U32At(b, 0x70), U32At(b, 0x74);
      acid + acidSize <= |b| && 0x240 <= acidSize && b[acid + 0x200..acid + 0x204] == [0x41, 0x43, 0x49, 0x44] &&
      aci + aciSize <= |b| && 0x40 <= aciSize && b[aci..aci + 4] == [0x41, 0x43, 0x49, 0x30]
  {
    hide FromLe32, U32At, Read.TryFromBytes;
    if |b| >= 0x80 {
      AcidMagic();
      MagicIs(b, 0, [0x4D, 0x45, 0x54, 0x41]);
      assert b[0..4] == b[..4];
      var acid: nat, acidSize: nat, aci: nat, aciSize: nat := U32At(b, 0x78), U32At(b, 0x7C), U32At(b, 0x70), U32At(b, 0x74);
      if acid + acidSize <= |b| && 0x240 <= acidSize {
        MagicIs(b, acid + 0x200, [0x41, 0x43, 0x49, 0x44]);
      }
      if aci + aciSize <= |b| && 0x40 <= aciSize {
        MagicIs(b, aci, [0x41, 0x43, 0x49, 0x30]);
      }
    }
  }

  lemma {:induction false} MagicIs(b: seq<u8>, at: nat, magic: seq<u8>)
    requires at + 4 <= |b| && |magic| == 4
    ensures U32At(b, at) == FromLe32(magic) <==> b[at..at + 4] == magic
  {
    if U32At(b, at) == FromLe32(magic) {
      SameWord(b[at..at + 4], magic);
    }
  }

  /** A nested block is the bytes at its offset from ACI0, or refused with where it would end. */
  lemma {:induction false} BlockInNumbers(n: Read.Npdm, kind: Read.BlockKind, offset: u32, size: u32)
    ensures var start: int, r := n.meta.aciOffset + offset, Read.Block(n, kind, offset, size);
      if start + size <= |n.bytes| then r == Ok(n.bytes[start..start + size])
      else r == Err(Read.Aci0InnerSectionOutOfBounds(kind, offset, size, start + size, |n.bytes|))
  {
  }
}
