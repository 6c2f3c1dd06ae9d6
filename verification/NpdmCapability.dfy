/** Kernel capabilities: their 32-bit descriptors, and what a descriptor still says about its capability. */
module NpdmCapability {
  import opened Bytes

  datatype Region = Region(regionType: bv8, isRo: bool)

  datatype Capability =
    | KernelFlags(highestPriority: bv8, lowestPriority: bv8, highestCpu: bv8, lowestCpu: bv8)
    | Syscalls(ids: seq<u64>)
    | Map(address: bv64, size: bv64, isRo: bool, isIo: bool)
    | MapPage(page: bv64)
    | MapRegion(regions: seq<Region>)
    | IrqPair(irq0: bv16, irq1: bv16)
    | ApplicationType(appType: bv16)
    | MinKernelVersion(version: bv64)
    | HandleTableSize(tableSize: bv16)
    | DebugFlags(allowDebug: bool, forceDebugProd: bool, forceDebug: bool)

  // ---- Trailing ones ----

  /** How many low bits are set below the first clear one, counted as far as any kind needs. */
  function TrailingOnes(v: bv32): nat {
    if v & 0x1 == 0 then 0 else if v & 0x2 == 0 then 1 else if v & 0x4 == 0 then 2 else if v & 0x8 == 0 then 3
    else if v & 0x10 == 0 then 4 else if v & 0x20 == 0 then 5 else if v & 0x40 == 0 then 6 else if v & 0x80 == 0 then 7
    else if v & 0x100 == 0 then 8 else if v & 0x200 == 0 then 9 else if v & 0x400 == 0 then 10 else if v & 0x800 == 0 then 11
    else if v & 0x1000 == 0 then 12 else if v & 0x2000 == 0 then 13 else if v & 0x4000 == 0 then 14
    else if v & 0x8000 == 0 then 15 else if v & 0x1_0000 == 0 then 16 else 17
  }

  /** The trailing ones that mark each kind of descriptor. */
  function Marker(c: Capability): nat {
    match c
    case KernelFlags(_, _, _, _) => 3
    case Syscalls(_) => 4
    case Map(_, _, _, _) => 6
    case MapPage(_) => 7
    case MapRegion(_) => 10
    case IrqPair(_, _) => 11
    case ApplicationType(_) => 13
    case MinKernelVersion(_) => 14
    case HandleTableSize(_) => 15
    case DebugFlags(_, _, _) => 16
  }

  // ---- Encoding all but syscalls ----

  function RegionBits(r: Region): bv32 {
    ((r.regionType as bv32) & 0x3F) | (if r.isRo then 0x40 else 0)
  }

  function RegionAt(regions: seq<Region>, i: nat): bv32 {
    if i < |regions| then RegionBits(regions[i]) else 0
  }

  function JoinRegions(a: bv32, b: bv32, c: bv32): bv32 {
    0x3FF | (a << 11) | (b << 18) | (c << 25)
  }

  function Low32(x: bv64): bv32 {
    (x & 0xFFFF_FFFF) as bv32
  }

  /** The low size bits, and the address bits above the first 24. */
  function SizeBits(size: bv64, address: bv64): bv32 {
    (Low32(size) & 0xF_FFFF) | ((Low32(address >> 24) & 0xF) << 20)
  }

  /** A `Map` descriptor: 24 bits and a flag, above the marker. */
  function MapWord(bits: bv32, flag: bool): bv32 {
    ((if flag then bits | 0x100_0000 else bits) << 7) | 0x3F
  }

  /** The descriptors of a capability other than a syscall list. */
  function Descriptors(c: Capability): (ws: seq<bv32>)
    requires !c.Syscalls?
  {
    match c
    case KernelFlags(hp, lp, hc, lc) =>
      [0x7 | (((lp as bv32) & 0x3F) << 4) | (((hp as bv32) & 0x3F) << 10) | (((lc as bv32) & 0xFF) << 16) | (((hc as bv32) & 0xFF) << 24)]
    case Map(address, size, isRo, isIo) =>
      [MapWord(Low32(address) & 0xFF_FFFF, isRo), MapWord(SizeBits(size, address), !isIo)]
    case MapPage(page) => [0x7F | ((Low32(page) & 0xFF_FFFF) << 8)]
    case MapRegion(regions) =>
      [JoinRegions(RegionAt(regions, 0), RegionAt(regions, 1), RegionAt(regions, 2))]
    case IrqPair(a, b) => [0x7FF | (((a as bv32) & 0x3FF) << 12) | (((b as bv32) & 0x3FF) << 22)]
    case ApplicationType(t) => [0x1FFF | (((t as bv32) & 0x7) << 14)]
    case MinKernelVersion(v) => [0x3FFF | ((Low32(v) & 0x1_FFFF) << 15)]
    case HandleTableSize(n) => [0x7FFF | (((n as bv32) & 0x3FF) << 16)]
    case DebugFlags(a, p, f) =>
      [0xFFFF | (if a then 0x2_0000 else 0) | (if p then 0x4_0000 else 0) | (if f then 0x8_0000 else 0)]
  }

  /** Every descriptor carries its kind's marker, and no other kind's. */
  lemma {:induction false} DescriptorsAreMarked(c: Capability, i: nat)
    requires !c.Syscalls? && i < |Descriptors(c)|
    ensures TrailingOnes(Descriptors(c)[i]) == Marker(c)
  {
    match c
    case KernelFlags(hp, lp, hc, lc) =>
    case Map(address, size, isRo, isIo) =>
    case MapPage(page) =>
    case MapRegion(regions) =>
    case IrqPair(a, b) =>
    case ApplicationType(t) =>
    case MinKernelVersion(v) =>
    case HandleTableSize(n) =>
    case DebugFlags(a, p, f) =>
  }

  /** Two kinds never share a marker. */
  lemma {:induction false} MarkersIdentifyKinds(c: Capability, d: Capability)
    requires Marker(c) == Marker(d)
    ensures c.KernelFlags? == d.KernelFlags? && c.Syscalls? == d.Syscalls? && c.Map? == d.Map? && c.MapPage? == d.MapPage?
    ensures c.MapRegion? == d.MapRegion? && c.IrqPair? == d.IrqPair? && c.ApplicationType? == d.ApplicationType?
    ensures c.MinKernelVersion? == d.MinKernelVersion? && c.HandleTableSize? == d.HandleTableSize? && c.DebugFlags? == d.DebugFlags?
  {
  }

  // ---- Decoding all but syscalls ----

  function RegionFrom(bits: bv32): Region {
    Region((bits & 0x3F) as bv8, bits & 0x40 != 0)
  }

  function FlagsFrom(v: bv32): Capability {
    KernelFlags(((v >> 10) & 0x3F) as bv8, ((v >> 4) & 0x3F) as bv8, (v >> 24) as bv8, ((v >> 16) & 0xFF) as bv8)
  }

  function MapFrom(v: bv32, w: bv32): Capability {
    Map((((v >> 7) & 0xFF_FFFF) as bv64) | ((((w >> 27) & 0xF) as bv64) << 24), ((w >> 7) & 0xF_FFFF) as bv64,
        v & 0x8000_0000 != 0, w & 0x8000_0000 == 0)
  }

  function RegionsFrom(v: bv32): Capability {
    MapRegion([RegionFrom(v >> 11), RegionFrom(v >> 18), RegionFrom(v >> 25)])
  }

  function DebugFrom(v: bv32): Capability {
    DebugFlags(v & 0x2_0000 != 0, v & 0x4_0000 != 0, v & 0x8_0000 != 0)
  }

  /** What the descriptors say, told from the marker alone which kind they are. */
  function Decode(ws: seq<bv32>): Option<Capability> {
    if ws == [] then None
    else
      var v, n := ws[0], TrailingOnes(ws[0]);
      if n == 3 then Some(FlagsFrom(v))
      else if n == 6 then if |ws| < 2 then None else Some(MapFrom(v, ws[1]))
      else if n == 7 then Some(MapPage((v >> 8) as bv64))
      else if n == 10 then Some(RegionsFrom(v))
      else if n == 11 then Some(IrqPair(((v >> 12) & 0x3FF) as bv16, (v >> 22) as bv16))
      else if n == 13 then Some(ApplicationType(((v >> 14) & 0x7) as bv16))
      else if n == 14 then Some(MinKernelVersion((v >> 15) as bv64))
      else if n == 15 then Some(HandleTableSize(((v >> 16) & 0x3FF) as bv16))
      else if n == 16 then Some(DebugFrom(v))
      else None
  }

  /** Every field fits the bits its descriptor keeps of it. */
  predicate InRange(c: Capability) {
    match c
    case KernelFlags(hp, lp, _, _) => hp < 0x40 && lp < 0x40
    case Map(address, size, _, _) => address < 0x1000_0000 && size < 0x10_0000
    case MapPage(page) => page < 0x100_0000
    case MapRegion(regions) => |regions| == 3 && forall i :: 0 <= i < 3 ==> regions[i].regionType < 0x40
    case IrqPair(a, b) => a < 0x400 && b < 0x400
    case ApplicationType(t) => t < 8
    case MinKernelVersion(v) => v < 0x2_0000
    case HandleTableSize(n) => n < 0x400
    case _ => true
  }

  function MaskedRegion(regions: seq<Region>, i: nat): Region {
    if i < |regions| then Region(regions[i].regionType & 0x3F, regions[i].isRo) else Region(0, false)
  }

  /** What a descriptor keeps of a capability. */
  function Masked(c: Capability): Capability {
    match c
    case KernelFlags(hp, lp, hc, lc) => KernelFlags(hp & 0x3F, lp & 0x3F, hc, lc)
    case Map(address, size, isRo, isIo) => Map(address & 0xFFF_FFFF, size & 0xF_FFFF, isRo, isIo)
    case MapPage(page) => MapPage(page & 0xFF_FFFF)
    case MapRegion(regions) => MapRegion([MaskedRegion(regions, 0), MaskedRegion(regions, 1), MaskedRegion(regions, 2)])
    case IrqPair(a, b) => IrqPair(a & 0x3FF, b & 0x3FF)
    case ApplicationType(t) => ApplicationType(t & 7)
    case MinKernelVersion(v) => MinKernelVersion(v & 0x1_FFFF)
    case HandleTableSize(n) => HandleTableSize(n & 0x3FF)
    case _ => c
  }

  lemma {:induction false} RegionsDecode(a: bv32, b: bv32, c: bv32)
    requires a < 0x80 && b < 0x80 && c < 0x80
    ensures var v := JoinRegions(a, b, c);
      TrailingOnes(v) == 10 && RegionFrom(v >> 11) == RegionFrom(a) && RegionFrom(v >> 18) == RegionFrom(b) &&
      RegionFrom(v >> 25) == RegionFrom(c)
  {
  }

  lemma {:induction false} RegionAtDecodes(regions: seq<Region>, i: nat)
    ensures RegionAt(regions, i) < 0x80 && RegionFrom(RegionAt(regions, i)) == MaskedRegion(regions, i)
  {
  }

  lemma {:induction false} RegionWord(v: bv32)
    requires TrailingOnes(v) == 10
    ensures Decode([v]) == Some(RegionsFrom(v))
  {
    hide TrailingOnes, RegionsFrom, FlagsFrom, MapFrom, DebugFrom;
  }

  lemma {:induction false} JoinedRegions(a: bv32, b: bv32, c: bv32)
    requires a < 0x80 && b < 0x80 && c < 0x80
    ensures Decode([JoinRegions(a, b, c)]) == Some(MapRegion([RegionFrom(a), RegionFrom(b), RegionFrom(c)]))
  {
    hide Decode, TrailingOnes, RegionFrom;
    RegionsDecode(a, b, c);
    RegionWord(JoinRegions(a, b, c));
  }

  lemma {:induction false} MapRegionDecodes(regions: seq<Region>)
    ensures Decode(Descriptors(MapRegion(regions))) == Some(Masked(MapRegion(regions)))
  {
    hide TrailingOnes, RegionFrom, RegionAt, MaskedRegion, Decode, JoinRegions;
    RegionAtDecodes(regions, 0);
    RegionAtDecodes(regions, 1);
    RegionAtDecodes(regions, 2);
    JoinedRegions(RegionAt(regions, 0), RegionAt(regions, 1), RegionAt(regions, 2));
  }

  lemma {:induction false} KernelFlagsDecode(hp: bv8, lp: bv8, hc: bv8, lc: bv8)
    ensures Decode(Descriptors(KernelFlags(hp, lp, hc, lc))) == Some(KernelFlags(hp & 0x3F, lp & 0x3F, hc, lc))
  {
  }

  lemma {:induction false} MapDecodes(address: bv64, size: bv64, isRo: bool, isIo: bool)
    ensures Decode(Descriptors(Map(address, size, isRo, isIo))) == Some(Map(address & 0xFFF_FFFF, size & 0xF_FFFF, isRo, isIo))
  {
  }

  lemma {:induction false} IrqPairDecodes(a: bv16, b: bv16)
    ensures Decode(Descriptors(IrqPair(a, b))) == Some(IrqPair(a & 0x3FF, b & 0x3FF))
  {
  }

  lemma {:induction false} SmallKindsDecode(t: bv16, v: bv64, n: bv16, page: bv64)
    ensures Decode(Descriptors(MapPage(page))) == Some(MapPage(page & 0xFF_FFFF))
    ensures Decode(Descriptors(ApplicationType(t))) == Some(ApplicationType(t & 7))
    ensures Decode(Descriptors(MinKernelVersion(v))) == Some(MinKernelVersion(v & 0x1_FFFF))
    ensures Decode(Descriptors(HandleTableSize(n))) == Some(HandleTableSize(n & 0x3FF))
  {
  }

  lemma {:induction false} DebugFlagsDecode(a: bool, p: bool, f: bool)
    ensures Decode(Descriptors(DebugFlags(a, p, f))) == Some(DebugFlags(a, p, f))
  {
  }

  /** Decoding the descriptors gives what they keep. */
  lemma {:induction false} DecodesToMasked(c: Capability)
    requires !c.Syscalls?
    ensures Decode(Descriptors(c)) == Some(Masked(c))
  {
    hide Decode, Descriptors;
    match c
    case KernelFlags(hp, lp, hc, lc) => KernelFlagsDecode(hp, lp, hc, lc);
    case Map(address, size, isRo, isIo) => MapDecodes(address, size, isRo, isIo);
    case MapPage(page) => SmallKindsDecode(0, 0, 0, page);
    case MapRegion(regions) => MapRegionDecodes(regions);
    case IrqPair(a, b) => IrqPairDecodes(a, b);
    case ApplicationType(t) => SmallKindsDecode(t, 0, 0, 0);
    case MinKernelVersion(v) => SmallKindsDecode(0, v, 0, 0);
    case HandleTableSize(n) => SmallKindsDecode(0, 0, n, 0);
    case DebugFlags(a, p, f) => DebugFlagsDecode(a, p, f);
  }

  lemma {:induction false} RegionsKept(regions: seq<Region>)
    ensures Masked(MapRegion(regions)) == MapRegion(regions) <==> InRange(MapRegion(regions))
  {
    if |regions| == 3 {
      assert regions == [regions[0], regions[1], regions[2]];
    }
  }

  lemma {:induction false} WideFieldsKept(c: Capability)
    requires c.Map? || c.MapPage? || c.MinKernelVersion?
    ensures Masked(c) == c <==> InRange(c)
  {
    hide MaskedRegion;
  }

  lemma {:induction false} NothingLostInRange(c: Capability)
    ensures Masked(c) == c <==> InRange(c)
  {
    if c.Map? || c.MapPage? || c.MinKernelVersion? {
      WideFieldsKept(c);
    } else if c.MapRegion? {
      RegionsKept(c.regions);
    }
  }

  /** A capability is decoded as itself exactly when its fields are in range; out of range, bits are lost. */
  lemma {:induction false} DecodesIffInRange(c: Capability)
    requires !c.Syscalls?
    ensures Decode(Descriptors(c)) == Some(c) <==> InRange(c)
  {
    hide Decode, Descriptors, Masked, InRange;
    DecodesToMasked(c);
    NothingLostInRange(c);
  }
}
