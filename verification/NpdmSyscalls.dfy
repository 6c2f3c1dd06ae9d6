/** The syscall capability: eight 24-bit masks, the empty ones dropped. */
module NpdmSyscalls {
  import opened Bytes
  import opened NpdmCapability

  const MASKS := 8
  const PER_MASK := 24
  /** One past the highest syscall the masks can express. */
  const LIMIT := 192

  // ---- Bits ----

  predicate Has(v: bv32, b: bv5) {
    (v >> b) & 1 == 1
  }

  function SetBit(v: bv32, b: bv5): bv32 {
    v | (1 << b)
  }

  function LowBits(v: bv32): bv32 {
    v & 0x1F
  }

  /** Where syscall `o` of a mask is kept: above the marker and its clear bit. */
  function Slot(o: nat): bv5
    requires o < PER_MASK
  {
    (o + 5) as bv5
  }

  lemma {:induction false} SlotReads(o: nat)
    requires o < PER_MASK
    ensures Slot(o) as nat == o + 5 && Slot(o) >= 5 && Slot(o) < 29
  {
  }

  lemma {:induction false} SlotsDiffer(a: nat, b: nat)
    requires a < PER_MASK && b < PER_MASK
    ensures Slot(a) == Slot(b) <==> a == b
  {
    SlotReads(a);
    SlotReads(b);
  }

  function IndexBits(i: nat): bv3
    requires i < MASKS
  {
    i as bv3
  }

  /** A mask before any syscall is set: the marker, and the index in the top bits. */
  function Blank(i: nat): bv32
    requires i < MASKS
  {
    0xF | ((IndexBits(i) as bv32) << 29)
  }

  function TopBits(v: bv32): bv3 {
    (v >> 29) as bv3
  }

  /** The index a mask word carries. */
  function IndexOf(v: bv32): nat {
    TopBits(v) as nat
  }

  lemma {:induction false} BlankBits(i: bv3, b: bv5)
    requires b >= 5 && b < 29
    ensures var v := 0xF | ((i as bv32) << 29); TopBits(v) == i && LowBits(v) == 0xF && !Has(v, b)
  {
  }

  lemma {:induction false} SetHas(v: bv32, b: bv5, c: bv5)
    ensures Has(SetBit(v, b), c) <==> b == c || Has(v, c)
  {
  }

  lemma {:induction false} SetKeepsTop(v: bv32, b: bv5)
    requires b < 29
    ensures TopBits(SetBit(v, b)) == TopBits(v)
  {
  }

  lemma {:induction false} SetKeepsLow(v: bv32, b: bv5)
    requires b >= 5
    ensures LowBits(SetBit(v, b)) == LowBits(v)
  {
  }

  lemma {:induction false} MarkerOfMask(v: bv32)
    requires LowBits(v) == 0xF
    ensures TrailingOnes(v) == 4
  {
  }

  // ---- Masks ----

  /** A mask word holds exactly the requested syscalls of its index. */
  ghost predicate MaskHolds(v: bv32, i: nat, ids: seq<u64>)
    requires i < MASKS
  {
    TopBits(v) == IndexBits(i) && LowBits(v) == 0xF &&
    forall o {:trigger Slot(o)} :: 0 <= o < PER_MASK ==> (Has(v, Slot(o)) <==> PER_MASK * i + o in ids)
  }

  ghost predicate Used(i: nat, ids: seq<u64>) {
    exists id :: id in ids && id / PER_MASK == i
  }

  ghost predicate MasksHold(masks: seq<bv32>, used: seq<bool>, ids: seq<u64>) {
    |masks| == |used| == MASKS &&
    forall i {:trigger masks[i]} {:trigger used[i]} :: 0 <= i < MASKS ==> MaskHolds(masks[i], i, ids) && (used[i] <==> Used(i, ids))
  }

  lemma {:induction false} BlankHolds(i: nat)
    requires i < MASKS
    ensures MaskHolds(Blank(i), i, []) && !Used(i, [])
  {
    hide Has, TopBits, LowBits, IndexBits;
    BlankBits(IndexBits(i), 5);
    forall o {:trigger Slot(o)} | 0 <= o < PER_MASK
      ensures !Has(Blank(i), Slot(o))
    {
      SlotReads(o);
      BlankBits(IndexBits(i), Slot(o));
    }
  }

  /** Setting one more syscall. */
  lemma {:induction false} SetHolds(v: bv32, i: nat, ids: seq<u64>, id: u64)
    requires i < MASKS && MaskHolds(v, i, ids) && id / PER_MASK == i
    ensures MaskHolds(SetBit(v, Slot(id % PER_MASK)), i, ids + [id])
  {
    hide Has, TopBits, Slot, SetBit, LowBits, IndexBits;
    var k := id % PER_MASK;
    SlotReads(k);
    SetOne(v, Slot(k));
    forall o {:trigger Slot(o)} | 0 <= o < PER_MASK
      ensures Has(SetBit(v, Slot(k)), Slot(o)) <==> PER_MASK * i + o in ids + [id]
    {
      SetHas(v, Slot(k), Slot(o));
      SlotsDiffer(k, o);
      SameId(id, i, o);
    }
  }

  lemma {:induction false} SetOne(v: bv32, b: bv5)
    requires b >= 5 && b < 29
    ensures TopBits(SetBit(v, b)) == TopBits(v) && LowBits(SetBit(v, b)) == LowBits(v)
  {
    SetKeepsTop(v, b);
    SetKeepsLow(v, b);
  }

  lemma {:induction false} SameId(id: nat, i: nat, o: nat)
    requires o < PER_MASK && id / PER_MASK == i
    ensures PER_MASK * i + o == id <==> id % PER_MASK == o
  {
  }

  lemma {:induction false} OtherHolds(v: bv32, i: nat, ids: seq<u64>, id: u64)
    requires i < MASKS && MaskHolds(v, i, ids) && id / PER_MASK != i
    ensures MaskHolds(v, i, ids + [id]) && (Used(i, ids + [id]) <==> Used(i, ids))
  {
    hide Has, TopBits, Slot;
    forall o {:trigger Slot(o)} | 0 <= o < PER_MASK
      ensures PER_MASK * i + o in ids + [id] <==> PER_MASK * i + o in ids
    {
      assert (PER_MASK * i + o) / PER_MASK == i;
    }
    if Used(i, ids) {
      var x :| x in ids && x / PER_MASK == i;
      assert x in ids + [id];
    }
  }

  lemma {:induction false} NextHolds(masks: seq<bv32>, used: seq<bool>, ids: seq<u64>, id: u64)
    requires MasksHold(masks, used, ids)
    ensures var i := id / PER_MASK;
      if i < MASKS then MasksHold(masks[i := SetBit(masks[i], Slot(id % PER_MASK))], used[i := true], ids + [id])
      else MasksHold(masks, used, ids + [id])
  {
    hide MaskHolds, Used, Slot;
    var i := id / PER_MASK;
    forall k | 0 <= k < MASKS && k != i
      ensures MaskHolds(masks[k], k, ids + [id]) && (Used(k, ids + [id]) <==> Used(k, ids))
    {
      OtherHolds(masks[k], k, ids, id);
    }
    if i < MASKS {
      SetHolds(masks[i], i, ids, id);
      NowUsed(i, ids, id);
    }
  }

  lemma {:induction false} NowUsed(i: nat, ids: seq<u64>, id: u64)
    requires id / PER_MASK == i
    ensures Used(i, ids + [id])
  {
    assert id in ids + [id];
  }

  // ---- What is kept ----

  /** The used masks from index `i` on. */
  function KeptFrom(masks: seq<bv32>, used: seq<bool>, i: nat): seq<bv32>
    requires |masks| == |used| == MASKS && i <= MASKS
    decreases MASKS - i
  {
    if i == MASKS then []
    else if used[i] then [masks[i]] + KeptFrom(masks, used, i + 1)
    else KeptFrom(masks, used, i + 1)
  }

  /** Descriptors that stand for exactly the requested syscalls the masks can express. */
  ghost predicate Expresses(words: seq<bv32>, ids: seq<u64>, from: nat) {
    (forall w :: w in words ==> TrailingOnes(w) == 4 && from <= IndexOf(w) && exists o {:trigger Slot(o)} :: 0 <= o < PER_MASK && Has(w, Slot(o))) &&
    (forall j, k :: 0 <= j < k < |words| ==> IndexOf(words[j]) < IndexOf(words[k])) &&
    forall id :: PER_MASK * from <= id < LIMIT ==>
      (id in ids <==> exists w :: w in words && IndexOf(w) == id / PER_MASK && Has(w, Slot(id % PER_MASK)))
  }

  lemma {:induction false} IndexReads(v: bv32, i: nat)
    requires i < MASKS && TopBits(v) == IndexBits(i)
    ensures IndexOf(v) == i
  {
  }

  /** A requested syscall, and the mask word it shows up in. */
  lemma {:induction false} FoundInMask(v: bv32, i: nat, ids: seq<u64>, id: u64)
    requires i < MASKS && MaskHolds(v, i, ids) && id / PER_MASK == i
    ensures id in ids <==> Has(v, Slot(id % PER_MASK))
    ensures id in ids ==> Used(i, ids)
  {
    hide Has, TopBits, Slot;
    assert id == PER_MASK * i + id % PER_MASK;
  }

  lemma {:induction false} UsedMaskIsNotEmpty(v: bv32, i: nat, ids: seq<u64>)
    requires i < MASKS && MaskHolds(v, i, ids) && Used(i, ids)
    ensures exists o {:trigger Slot(o)} :: 0 <= o < PER_MASK && Has(v, Slot(o))
  {
    hide Has, TopBits, Slot;
    var id :| id in ids && id / PER_MASK == i;
    FoundInMask(v, i, ids, id);
    var o := id % PER_MASK;
    assert Has(v, Slot(o));
  }

  lemma {:induction false} KeptExpresses(masks: seq<bv32>, used: seq<bool>, ids: seq<u64>, i: nat)
    requires MasksHold(masks, used, ids) && i <= MASKS
    ensures Expresses(KeptFrom(masks, used, i), ids, i)
    decreases MASKS - i
  {
    hide Has, TopBits, Slot, TrailingOnes, IndexOf, MaskHolds, Used;
    if i < MASKS {
      KeptExpresses(masks, used, ids, i + 1);
      var rest, v := KeptFrom(masks, used, i + 1), masks[i];
      assert used[i] <==> Used(i, ids);
      MaskWord(v, i, ids);
      var words := KeptFrom(masks, used, i);
      if used[i] {
        UsedMaskIsNotEmpty(v, i, ids);
      }
      forall id | PER_MASK * i <= id < LIMIT
        ensures id in ids <==> exists w :: w in words && IndexOf(w) == id / PER_MASK && Has(w, Slot(id % PER_MASK))
      {
        if id / PER_MASK == i {
          FoundInMask(v, i, ids, id);
        } else {
          assert id >= PER_MASK * (i + 1);
        }
      }
    }
  }

  lemma {:induction false} MaskWord(v: bv32, i: nat, ids: seq<u64>)
    requires i < MASKS && MaskHolds(v, i, ids)
    ensures TrailingOnes(v) == 4 && IndexOf(v) == i
  {
    MarkerOfMask(v);
    IndexReads(v, i);
  }

  // ---- Encoding ----

  /** The masks of a syscall list: set a bit for each id below the limit, then drop the unused masks. */
  method EncodeSyscalls(ids: seq<u64>) returns (words: seq<bv32>)
    ensures Expresses(words, ids, 0)
  {
    hide MasksHold, Expresses, Blank, Slot, SetBit;
    var masks := BlankMasks();
    var used := seq(MASKS, _ => false);
    AllBlank(masks, used);
    for n := 0 to |ids|
      invariant |masks| == |used| == MASKS && MasksHold(masks, used, ids[..n])
    {
      var index, offset := ids[n] / PER_MASK, ids[n] % PER_MASK;
      NextHolds(masks, used, ids[..n], ids[n]);
      TakeOneMore(ids, n);
      if index < MASKS {
        masks := masks[index := SetBit(masks[index], Slot(offset))];
        used := used[index := true];
      }
    }
    assert ids[..|ids|] == ids;
    KeptExpresses(masks, used, ids, 0);
    words := DropUnused(masks, used);
  }

  method BlankMasks() returns (masks: seq<bv32>)
    ensures |masks| == MASKS && forall i :: 0 <= i < MASKS ==> masks[i] == Blank(i)
  {
    hide Blank;
    masks := [];
    for i := 0 to MASKS
      invariant |masks| == i && forall k :: 0 <= k < i ==> masks[k] == Blank(k)
    {
      masks := masks + [Blank(i)];
    }
  }

  /** Remove the unused masks from the high indices down. */
  method DropUnused(masks: seq<bv32>, used: seq<bool>) returns (words: seq<bv32>)
    requires |masks| == |used| == MASKS
    ensures words == KeptFrom(masks, used, 0)
  {
    words := masks;
    for i := MASKS downto 0
      invariant |words| >= i && words[..i] == masks[..i] && words[i..] == KeptFrom(masks, used, i)
    {
      assert words[i] == masks[..i + 1][i] && words[..i] == words[..i + 1][..i] == masks[..i];
      assert words[i..] == [words[i]] + words[i + 1..];
      if !used[i] {
        words := words[..i] + words[i + 1..];
      }
    }
  }

  lemma {:induction false} AllBlank(masks: seq<bv32>, used: seq<bool>)
    requires |masks| == |used| == MASKS && forall i :: 0 <= i < MASKS ==> masks[i] == Blank(i) && !used[i]
    ensures MasksHold(masks, used, [])
  {
    hide MaskHolds, Blank, Used;
    forall i | 0 <= i < MASKS
      ensures MaskHolds(masks[i], i, []) && !Used(i, [])
    {
      BlankHolds(i);
    }
  }

  // ---- Any capability ----

  /** The word with the first `n` regions in. */
  function FirstRegions(regions: seq<Region>, n: nat): bv32 {
    JoinRegions(if n > 0 then RegionAt(regions, 0) else 0, if n > 1 then RegionAt(regions, 1) else 0,
                if n > 2 then RegionAt(regions, 2) else 0)
  }

  lemma {:induction false} FirstRegion(a: bv32)
    ensures JoinRegions(0, 0, 0) == 0x3FF && JoinRegions(a, 0, 0) == 0x3FF | (a << 11)
  {
  }

  lemma {:induction false} SecondRegion(a: bv32, b: bv32)
    ensures JoinRegions(a, b, 0) == JoinRegions(a, 0, 0) | (b << 18)
  {
  }

  lemma {:induction false} ThirdRegion(a: bv32, b: bv32, c: bv32)
    ensures JoinRegions(a, b, c) == JoinRegions(a, b, 0) | (c << 25)
  {
  }

  method EncodeRegions(regions: seq<Region>) returns (v: bv32)
    ensures [v] == Descriptors(MapRegion(regions))
  {
    hide RegionBits, JoinRegions;
    FirstRegion(RegionAt(regions, 0));
    SecondRegion(RegionAt(regions, 0), RegionAt(regions, 1));
    ThirdRegion(RegionAt(regions, 0), RegionAt(regions, 1), RegionAt(regions, 2));
    v := 0x3FF;
    var count := if |regions| < 3 then |regions| else 3;
    for i := 0 to count
      invariant v == FirstRegions(regions, i)
    {
      // Region `i` goes in at bit 11 + 7 * i.
      var shift: bv5 := if i == 0 then 11 else if i == 1 then 18 else 25;
      v := v | (RegionBits(regions[i]) << shift);
    }
  }

  /** What encoding a capability comes to. */
  ghost predicate IsEncoding(words: seq<bv32>, c: Capability) {
    if c.Syscalls? then Expresses(words, c.ids, 0) else words == Descriptors(c)
  }

  method Encode(c: Capability) returns (words: seq<bv32>)
    ensures IsEncoding(words, c)
  {
    hide Expresses;
    match c
    case KernelFlags(highestPriority, lowestPriority, highestCpu, lowestCpu) =>
      var v: bv32 := 0x7;
      v := v | (((lowestPriority as bv32) & 0x3F) << 4);
      v := v | (((highestPriority as bv32) & 0x3F) << 10);
      v := v | (((lowestCpu as bv32) & 0xFF) << 16);
      v := v | (((highestCpu as bv32) & 0xFF) << 24);
      words := [v];
    case Syscalls(ids) =>
      words := EncodeSyscalls(ids);
    case MapRegion(regions) =>
      var v := EncodeRegions(regions);
      words := [v];
    case DebugFlags(allowDebug, forceDebugProd, forceDebug) =>
      var v: bv32 := 0xFFFF;
      if allowDebug {
        v := v | 0x2_0000;
      }
      if forceDebugProd {
        v := v | 0x4_0000;
      }
      if forceDebug {
        v := v | 0x8_0000;
      }
      words := [v];
    case Map(address, size, isRo, isIo) =>
      words := EncodeMap(address, size, isRo, isIo);
    case MapPage(page) =>
      var v: bv32 := 0x7F;
      v := v | ((Low32(page) & 0xFF_FFFF) << 8);
      words := [v];
    case IrqPair(irq0, irq1) =>
      var v: bv32 := 0x7FF;
      v := v | (((irq0 as bv32) & 0x3FF) << 12);
      v := v | (((irq1 as bv32) & 0x3FF) << 22);
      words := [v];
    case ApplicationType(appType) =>
      var v: bv32 := 0x1FFF;
      v := v | (((appType as bv32) & 0x7) << 14);
      words := [v];
    case MinKernelVersion(version) =>
      var v: bv32 := 0x3FFF;
      v := v | ((Low32(version) & 0x1_FFFF) << 15);
      words := [v];
    case HandleTableSize(tableSize) =>
      var v: bv32 := 0x7FFF;
      v := v | (((tableSize as bv32) & 0x3FF) << 16);
      words := [v];
  }

  /** Two descriptors: low address bits and the read-only bit, then size, high address bits and the inverted i/o bit. */
  method EncodeMap(address: bv64, size: bv64, isRo: bool, isIo: bool) returns (words: seq<bv32>)
    ensures words == Descriptors(Map(address, size, isRo, isIo))
  {
    hide Low32, MapWord, SizeBits;
    var val1 := EncodeMapWord(Low32(address) & 0xFF_FFFF, isRo);
    var desc2 := EncodeSizeBits(size, address);
    var val2 := EncodeMapWord(desc2, !isIo);
    words := [val1, val2];
  }

  method EncodeSizeBits(size: bv64, address: bv64) returns (desc: bv32)
    ensures desc == SizeBits(size, address)
  {
    hide Low32;
    desc := Low32(size) & 0xF_FFFF;
    desc := desc | ((Low32(address >> 24) & 0xF) << 20);
  }

  method EncodeMapWord(bits: bv32, flag: bool) returns (val: bv32)
    ensures val == MapWord(bits, flag)
  {
    var desc := bits;
    if flag {
      desc := desc | 0x100_0000;
    }
    val := (desc << 7) | 0x3F;
  }

  /** Whatever the capability, every descriptor it is encoded as carries its marker. */
  lemma {:induction false} EncodingIsMarked(words: seq<bv32>, c: Capability, i: nat)
    requires IsEncoding(words, c) && i < |words|
    ensures TrailingOnes(words[i]) == Marker(c)
  {
    hide TrailingOnes, Descriptors;
    if c.Syscalls? {
      assert words[i] in words;
    } else {
      DescriptorsAreMarked(c, i);
    }
  }
}
