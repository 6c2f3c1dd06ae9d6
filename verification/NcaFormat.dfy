/** The NCA header: its records, their bytes, and the records read back out of the bytes. */
module NcaFormat {
  import opened Bytes
  import opened Packing
  import opened HashBlocks
  import Ivfc
  import Partition

  const NCA3_MAGIC: u32 := 0x3341_434E
  const IVFC_MAGIC: u32 := 0x4346_5649
  const IVFC_VERSION: u32 := 0x20000
  const MEDIA_UNIT := 0x200
  const HEADER_SIZE := 0xC00
  const SECTIONS := 4
  const SUPERBLOCK_SIZE := 0x138
  const FS_HEADER_SIZE := 0x200

  const LAST_CONTENT_TYPE: u8 := 5
  const FS_ROMFS: u8 := 0
  const FS_PFS0: u8 := 1
  const HASH_PFS0: u8 := 2
  const HASH_ROMFS: u8 := 3
  const CRYPT_NONE: u8 := 1
  const CRYPT_XTS: u8 := 2
  const CRYPT_CTR: u8 := 3
  const CRYPT_BKTR: u8 := 4

  type u16 = x: int | 0 <= x < 0x1_0000
  type Bytes8 = b: seq<u8> | |b| == 0x8 witness Zeros(0x8)
  type Bytes16 = b: seq<u8> | |b| == 0x10 witness Zeros(0x10)
  type SuperblockBytes = b: seq<u8> | |b| == SUPERBLOCK_SIZE witness Zeros(SUPERBLOCK_SIZE)

  datatype SectionEntry = SectionEntry(mediaStart: u32, mediaEnd: u32, reserved: Bytes8)

  datatype FsHeader = FsHeader(version: u16, fsType: u8, hashType: u8, cryptType: u8,
                               superblock: SuperblockBytes, sectionCtr: Bytes8)

  /** The plaintext header; both signatures are zero until the archive is signed. */
  datatype Header = Header(
    magic: u32, distribution: u8, contentType: u8, cryptoType: u8, kaekIndex: u8,
    ncaSize: u64, titleId: u64, sdkVersion: u32, cryptoType2: u8, rightsId: Bytes16,
    entries: seq<SectionEntry>, sectionHashes: seq<Digest>, keys: seq<Bytes16>, fsHeaders: seq<FsHeader>)

  const EMPTY_ENTRY := SectionEntry(0, 0, Zeros(0x8))
  const EMPTY_FS_HEADER := FsHeader(0, 0, 0, 0, Zeros(SUPERBLOCK_SIZE), Zeros(0x8))

  predicate FourSlots(h: Header) {
    |h.entries| == |h.sectionHashes| == |h.keys| == |h.fsHeaders| == SECTIONS
  }

  // ---- Counters ----

  function Be64(x: u64): (b: seq<u8>)
    ensures |b| == 8
  {
    Reversed(Le64(x))
  }

  /** The AES-CTR counter of a file offset: the FS header's counter reversed, then the offset in AES blocks. */
  function CounterOf(sectionCtr: Bytes8, offset: u64): Bytes16 {
    Reversed(sectionCtr) + Be64(offset / 0x10)
  }

  /** A counter as the 128-bit big-endian number AES-CTR increments. */
  function CounterValue(counter: Bytes16): nat {
    var high: nat, low: nat := FromLe64(Reversed(counter[..8])), FromLe64(Reversed(counter[8..]));
    high * 0x1_0000_0000_0000_0000 + low
  }

  lemma {:induction false} CounterCounts(sectionCtr: Bytes8, offset: u64)
    ensures CounterValue(CounterOf(sectionCtr, offset)) == FromLe64(sectionCtr) * 0x1_0000_0000_0000_0000 + offset / 0x10
  {
    var counter := CounterOf(sectionCtr, offset);
    ReversedTwice(sectionCtr);
    ReversedTwice(Le64(offset / 0x10));
    assert counter[..8] == Reversed(sectionCtr) && counter[8..] == Be64(offset / 0x10);
    Le64RoundTrip(offset / 0x10);
  }

  // ---- Records to bytes ----

  function EntryBytes(e: SectionEntry): (b: seq<u8>)
    ensures |b| == 0x10
  {
    Words([e.mediaStart, e.mediaEnd]) + e.reserved
  }

  function FsHeaderFront(f: FsHeader): (b: seq<u8>)
    ensures |b| == 8
  {
    [f.version % 0x100, f.version / 0x100, f.fsType, f.hashType, f.cryptType, 0, 0, 0]
  }

  function FsHeaderBytes(f: FsHeader): (b: seq<u8>)
    ensures |b| == FS_HEADER_SIZE
  {
    FsHeaderFront(f) + f.superblock + f.sectionCtr + Zeros(0xB8)
  }

  function FixedBytes(h: Header): (b: seq<u8>)
    ensures |b| == 0x40
  {
    Le32(h.magic) + [h.distribution, h.contentType, h.cryptoType, h.kaekIndex] + Le64(h.ncaSize) + Le64(h.titleId) +
    Zeros(0x4) + Le32(h.sdkVersion) + ([h.cryptoType2] + Zeros(0xF)) + h.rightsId
  }

  function EntryParts(es: seq<SectionEntry>): (ps: seq<seq<u8>>)
    ensures |ps| == |es| && forall i :: 0 <= i < |es| ==> ps[i] == EntryBytes(es[i]) && |ps[i]| == 0x10
  {
    seq(|es|, i requires 0 <= i < |es| => EntryBytes(es[i]))
  }

  function HashParts(ds: seq<Digest>): (ps: seq<seq<u8>>)
    ensures |ps| == |ds| && forall i :: 0 <= i < |ds| ==> ps[i] == ds[i] && |ps[i]| == 0x20
  {
    seq(|ds|, i requires 0 <= i < |ds| => ds[i])
  }

  function KeyParts(ks: seq<Bytes16>): (ps: seq<seq<u8>>)
    ensures |ps| == |ks| && forall i :: 0 <= i < |ks| ==> ps[i] == ks[i] && |ps[i]| == 0x10
  {
    seq(|ks|, i requires 0 <= i < |ks| => ks[i])
  }

  function FsParts(fs: seq<FsHeader>): (ps: seq<seq<u8>>)
    ensures |ps| == |fs| && forall i :: 0 <= i < |fs| ==> ps[i] == FsHeaderBytes(fs[i]) && |ps[i]| == FS_HEADER_SIZE
  {
    seq(|fs|, i requires 0 <= i < |fs| => FsHeaderBytes(fs[i]))
  }

  /** The header's fields in the order they are stored. */
  function HeaderBytes(h: Header): seq<u8> {
    Zeros(0x200) + FixedBytes(h) + Concat(EntryParts(h.entries)) + Concat(HashParts(h.sectionHashes)) +
    Concat(KeyParts(h.keys)) + Zeros(0xC0) + Concat(FsParts(h.fsHeaders))
  }

  // ---- Bytes to records ----

  function EntryAt(b: seq<u8>, at: nat): SectionEntry
    requires at + 0x10 <= |b|
  {
    SectionEntry(U32At(b, at), U32At(b, at + 4), b[at + 8..at + 16])
  }

  function FsHeaderAt(b: seq<u8>, at: nat): FsHeader
    requires at + FS_HEADER_SIZE <= |b|
  {
    var low: int, high: int := b[at], b[at + 1];
    FsHeader(low + 0x100 * high, b[at + 2], b[at + 3], b[at + 4], b[at + 8..at + 0x140], b[at + 0x140..at + 0x148])
  }

  function HeaderAt(b: seq<u8>): Header
    requires |b| >= HEADER_SIZE
  {
    Header(U32At(b, 0x200), b[0x204], b[0x205], b[0x206], b[0x207], U64At(b, 0x208), U64At(b, 0x210), U32At(b, 0x21C),
           b[0x220], b[0x230..0x240],
           seq(SECTIONS, i requires 0 <= i < SECTIONS => EntryAt(b, 0x240 + 0x10 * i)),
           seq(SECTIONS, i requires 0 <= i < SECTIONS => b[0x280 + 0x20 * i..0x2A0 + 0x20 * i]),
           seq(SECTIONS, i requires 0 <= i < SECTIONS => b[0x300 + 0x10 * i..0x310 + 0x10 * i]),
           seq(SECTIONS, i requires 0 <= i < SECTIONS => FsHeaderAt(b, 0x400 + FS_HEADER_SIZE * i)))
  }

  // ---- Reading back ----

  lemma {:induction false} EntryReads(b: seq<u8>, at: nat, e: SectionEntry)
    requires Holds(b, at, EntryBytes(e))
    ensures EntryAt(b, at) == e
  {
    hide Words, FromLe32;
    var ws := [e.mediaStart, e.mediaEnd];
    HoldsMiddle(b, at, Words(ws), e.reserved, []);
    assert Words(ws) + e.reserved + [] == EntryBytes(e);
    WordReads(b, at, ws, 0);
    WordReads(b, at, ws, 1);
  }

  lemma {:induction false} FsHeaderReads(b: seq<u8>, at: nat, f: FsHeader)
    requires Holds(b, at, FsHeaderBytes(f))
    ensures FsHeaderAt(b, at) == f
  {
    hide FsHeaderFront;
    var front := FsHeaderFront(f);
    HoldsMiddle(b, at, front + f.superblock, f.sectionCtr, Zeros(0xB8));
    assert front + f.superblock + [] == front + f.superblock;
    HoldsMiddle(b, at, front, f.superblock, []);
    FrontReads(b, at, f);
  }

  lemma {:induction false} FrontReads(b: seq<u8>, at: nat, f: FsHeader)
    requires Holds(b, at, FsHeaderFront(f))
    ensures b[at] == f.version % 0x100 && b[at + 1] == f.version / 0x100
    ensures b[at + 2] == f.fsType && b[at + 3] == f.hashType && b[at + 4] == f.cryptType
  {
    var s := b[at..at + 8];
    assert s[0] == b[at] && s[1] == b[at + 1] && s[2] == b[at + 2] && s[3] == b[at + 3] && s[4] == b[at + 4];
  }

  lemma {:induction false} FixedReads(b: seq<u8>, h: Header)
    requires |b| >= HEADER_SIZE && Holds(b, 0x200, FixedBytes(h))
    ensures U32At(b, 0x200) == h.magic && b[0x204] == h.distribution && b[0x205] == h.contentType && b[0x206] == h.cryptoType
    ensures b[0x207] == h.kaekIndex && U64At(b, 0x208) == h.ncaSize && U64At(b, 0x210) == h.titleId
    ensures U32At(b, 0x21C) == h.sdkVersion && b[0x220] == h.cryptoType2 && b[0x230..0x240] == h.rightsId
  {
    hide Le32, Le64, FromLe32, FromLe64;
    var m, four, size, title := Le32(h.magic), [h.distribution, h.contentType, h.cryptoType, h.kaekIndex], Le64(h.ncaSize), Le64(h.titleId);
    var gap, sdk, second := Zeros(0x4), Le32(h.sdkVersion), [h.cryptoType2] + Zeros(0xF);
    HoldsMiddle(b, 0x200, m + four + size + title + gap + sdk, second, h.rightsId);
    HoldsMiddle(b, 0x200, m + four + size + title, gap, sdk);
    HoldsMiddle(b, 0x200, m + four, size, title);
    HoldsMiddle(b, 0x200, m, four, []) by { assert m + four + [] == m + four; }
    Le32RoundTrip(h.magic);
    Le32RoundTrip(h.sdkVersion);
    Le64RoundTrip(h.ncaSize);
    Le64RoundTrip(h.titleId);
    var s, t := b[0x204..0x208], b[0x220..0x230];
    assert s[0] == b[0x204] && s[1] == b[0x205] && s[2] == b[0x206] && s[3] == b[0x207] && t[0] == b[0x220];
  }

  lemma {:induction false} HeaderLength(h: Header)
    requires FourSlots(h)
    ensures |HeaderBytes(h)| == HEADER_SIZE
    ensures |Concat(EntryParts(h.entries))| == 0x40 && |Concat(HashParts(h.sectionHashes))| == 0x80
    ensures |Concat(KeyParts(h.keys))| == 0x40 && |Concat(FsParts(h.fsHeaders))| == 0x800
  {
    hide Concat, FixedBytes, EntryParts, HashParts, KeyParts, FsParts;
    EqualPartAt(EntryParts(h.entries), 0x10, 0);
    EqualPartAt(HashParts(h.sectionHashes), 0x20, 0);
    EqualPartAt(KeyParts(h.keys), 0x10, 0);
    EqualPartAt(FsParts(h.fsHeaders), FS_HEADER_SIZE, 0);
  }

  /** Where each run of fields lies. */
  lemma {:induction false} HeaderRegions(b: seq<u8>, h: Header)
    requires FourSlots(h) && Holds(b, 0, HeaderBytes(h))
    ensures |b| >= HEADER_SIZE && Holds(b, 0x200, FixedBytes(h)) && Holds(b, 0x240, Concat(EntryParts(h.entries)))
    ensures Holds(b, 0x280, Concat(HashParts(h.sectionHashes))) && Holds(b, 0x300, Concat(KeyParts(h.keys)))
    ensures Holds(b, 0x400, Concat(FsParts(h.fsHeaders)))
  {
    hide Concat, FixedBytes, EntryParts, HashParts, KeyParts, FsParts, Holds;
    HeaderLength(h);
    var z, f, e, d := Zeros(0x200), FixedBytes(h), Concat(EntryParts(h.entries)), Concat(HashParts(h.sectionHashes));
    var k, gap, fs := Concat(KeyParts(h.keys)), Zeros(0xC0), Concat(FsParts(h.fsHeaders));
    HoldsMiddle(b, 0, z + f + e + d + k, gap, fs);
    HoldsMiddle(b, 0, z + f + e, d, k);
    HoldsMiddle(b, 0, z, f, e);
    HoldsLength(b, 0x400, fs);
  }

  /** The header reads back as itself. */
  lemma {:induction false} HeaderReadsBack(b: seq<u8>, h: Header)
    requires FourSlots(h) && Holds(b, 0, HeaderBytes(h))
    ensures |b| >= HEADER_SIZE && HeaderAt(b) == h
  {
    hide Concat, FixedBytes, EntryParts, HashParts, KeyParts, FsParts, HeaderBytes, EntryBytes, FsHeaderBytes, EntryAt, FsHeaderAt;
    HeaderRegions(b, h);
    FixedReads(b, h);
    var back := HeaderAt(b);
    forall i | 0 <= i < SECTIONS
      ensures back.entries[i] == h.entries[i] && back.sectionHashes[i] == h.sectionHashes[i]
      ensures back.keys[i] == h.keys[i] && back.fsHeaders[i] == h.fsHeaders[i]
    {
      PartsRead(b, 0x240, EntryParts(h.entries), 0x10, i);
      EntryReads(b, 0x240 + 0x10 * i, h.entries[i]);
      PartsRead(b, 0x280, HashParts(h.sectionHashes), 0x20, i);
      PartsRead(b, 0x300, KeyParts(h.keys), 0x10, i);
      PartsRead(b, 0x400, FsParts(h.fsHeaders), FS_HEADER_SIZE, i);
      FsHeaderReads(b, 0x400 + FS_HEADER_SIZE * i, h.fsHeaders[i]);
    }
  }

  // ---- Superblocks ----

  function PfsSuperblockBytes(s: Partition.Superblock): (b: SuperblockBytes) {
    s.masterHash + Words([s.blockSize, s.layerCount]) +
    Longs([s.hashTableOffset, s.hashTableSize, s.pfs0Offset, s.pfs0Size]) + Zeros(0xF0)
  }

  function LevelBytes(l: Ivfc.LevelHeader): (b: seq<u8>)
    ensures |b| == 0x18
  {
    Longs([l.logicalOffset, l.hashDataSize]) + Words([l.blockSize, 0])
  }

  function LevelParts(ls: seq<Ivfc.LevelHeader>): (ps: seq<seq<u8>>)
    ensures |ps| == |ls| && forall i :: 0 <= i < |ls| ==> ps[i] == LevelBytes(ls[i]) && |ps[i]| == 0x18
  {
    seq(|ls|, i requires 0 <= i < |ls| => LevelBytes(ls[i]))
  }

  lemma {:induction false} LevelsLength(ls: seq<Ivfc.LevelHeader>)
    requires |ls| == Ivfc.LEVELS
    ensures |Concat(LevelParts(ls))| == 0x90
  {
    EqualPartAt(LevelParts(ls), 0x18, 0);
  }

  function IvfcFront(): (b: seq<u8>)
    ensures |b| == 0x10
  {
    Words([IVFC_MAGIC, IVFC_VERSION, 0x20, Ivfc.LEVELS + 1])
  }

  function RomFsSuperblockBytes(levels: seq<Ivfc.LevelHeader>, masterHash: Digest): (b: SuperblockBytes)
    requires |levels| == Ivfc.LEVELS
  {
    LevelsLength(levels);
    IvfcFront() + Concat(LevelParts(levels)) + Zeros(0x20) + masterHash + Zeros(0x58)
  }

  lemma {:induction false} PfsSuperblockReads(s: Partition.Superblock)
    ensures var b := PfsSuperblockBytes(s);
      b[..0x20] == s.masterHash && U32At(b, 0x20) == s.blockSize && U64At(b, 0x38) == s.pfs0Offset && U64At(b, 0x40) == s.pfs0Size
  {
    hide Words, Longs, FromLe64, FromLe32;
    var b, xs := PfsSuperblockBytes(s), [s.hashTableOffset, s.hashTableSize, s.pfs0Offset, s.pfs0Size];
    var front := s.masterHash + Words([s.blockSize, s.layerCount]);
    assert Holds(b, 0, front + Longs(xs) + Zeros(0xF0));
    HoldsMiddle(b, 0, front, Longs(xs), Zeros(0xF0));
    LongReads(b, 0x28, xs, 2);
    LongReads(b, 0x28, xs, 3);
    var ws := [s.blockSize, s.layerCount];
    HoldsMiddle(b, 0, s.masterHash, Words(ws), []) by { assert s.masterHash + Words(ws) + [] == front; }
    WordReads(b, 0x20, ws, 0);
  }

  lemma {:induction false} RomFsSuperblockReads(levels: seq<Ivfc.LevelHeader>, masterHash: Digest, k: nat)
    requires |levels| == Ivfc.LEVELS && k < Ivfc.LEVELS
    ensures var b := RomFsSuperblockBytes(levels, masterHash);
      U32At(b, 0xC) == Ivfc.LEVELS + 1 && b[0xC0..0xE0] == masterHash &&
      U64At(b, 0x10 + 0x18 * k) == levels[k].logicalOffset && U64At(b, 0x18 + 0x18 * k) == levels[k].hashDataSize
  {
    hide Words, Longs, FromLe64, FromLe32, Concat, LevelParts;
    LevelsLength(levels);
    var b, front, parts := RomFsSuperblockBytes(levels, masterHash), IvfcFront(), LevelParts(levels);
    var tail := Zeros(0x20) + masterHash + Zeros(0x58);
    assert b == front + Concat(parts) + tail;
    assert Holds(b, 0, front + Concat(parts) + tail);
    HoldsMiddle(b, 0, front, Concat(parts), tail);
    HoldsMiddle(b, 0xA0, Zeros(0x20), masterHash, Zeros(0x58));
    WordReads(b, 0, [IVFC_MAGIC, IVFC_VERSION, 0x20, Ivfc.LEVELS + 1], 3);
    PartsRead(b, 0x10, parts, 0x18, k);
    var xs := [levels[k].logicalOffset, levels[k].hashDataSize];
    HoldsMiddle(b, 0x10 + 0x18 * k, Longs(xs), Words([levels[k].blockSize, 0]), []) by {
      assert Longs(xs) + Words([levels[k].blockSize, 0]) + [] == LevelBytes(levels[k]);
    }
    LongReads(b, 0x10 + 0x18 * k, xs, 0);
    LongReads(b, 0x10 + 0x18 * k, xs, 1);
  }
}
