/** The one-level hash table over a PFS0 archive, and the section it leads. */
module Partition {
  import opened Bytes
  import opened HashBlocks

  const MEDIA_UNIT := 0x200
  const LAYER_COUNT: u32 := 2

  datatype Superblock = Superblock(
    masterHash: Digest, blockSize: u32, layerCount: u32,
    hashTableOffset: u64, hashTableSize: u64, pfs0Offset: u64, pfs0Size: u64)

  datatype PartitionSection = PartitionSection(data: seq<u8>, superblock: Superblock)

  /** The padded hash table ahead of the archive. */
  ghost function Table(hash: Hash, archive: seq<u8>, blockSize: u32): seq<u8>
    requires blockSize > 0
  {
    PadAlways(AllDigests(hash, archive, blockSize), MEDIA_UNIT)
  }

  ghost function DataOf(hash: Hash, archive: seq<u8>, blockSize: u32): (data: seq<u8>)
    requires blockSize > 0
    ensures |data| > 0
  {
    Table(hash, archive, blockSize) + archive
  }

  ghost predicate Fits(hash: Hash, archive: seq<u8>, blockSize: u32) {
    blockSize > 0 && |DataOf(hash, archive, blockSize)| <= USIZE_MAX
  }

  ghost function SuperblockOf(hash: Hash, archive: seq<u8>, blockSize: u32): Superblock
    requires Fits(hash, archive, blockSize)
  {
    var digests := AllDigests(hash, archive, blockSize);
    Superblock(hash(digests), blockSize, LAYER_COUNT, 0, |digests|, |Table(hash, archive, blockSize)|, |archive|)
  }

  method Build(hash: Hash, archive: seq<u8>, blockSize: u32) returns (section: PartitionSection)
    requires Fits(hash, archive, blockSize)
    ensures section == PartitionSection(DataOf(hash, archive, blockSize), SuperblockOf(hash, archive, blockSize))
  {
    var hashTable := HashAll(hash, archive, blockSize);
    var hashTableSize := |hashTable|;
    var masterHash := hash(hashTable);
    var padding := MEDIA_UNIT - |hashTable| % MEDIA_UNIT;
    hashTable := hashTable + Zeros(padding);
    var archiveOffset := |hashTable|;
    var superblock := Superblock(masterHash, blockSize, LAYER_COUNT, 0, hashTableSize, archiveOffset, |archive|);
    section := PartitionSection(hashTable + archive, superblock);
  }

  /** The recorded offset locates the archive, on a media boundary past the hashes. */
  lemma {:induction false} ArchiveAtOffset(hash: Hash, archive: seq<u8>, blockSize: u32)
    requires Fits(hash, archive, blockSize)
    ensures var s, data := SuperblockOf(hash, archive, blockSize), DataOf(hash, archive, blockSize);
      s.pfs0Offset + s.pfs0Size == |data| && data[s.pfs0Offset..] == archive &&
      s.pfs0Offset % MEDIA_UNIT == 0 && s.hashTableSize < s.pfs0Offset
  {
    hide AllDigests;
    PaddedWhole(AllDigests(hash, archive, blockSize), MEDIA_UNIT);
  }

  /** Archives of one size, hash block and root hash are one archive, or a collision can be shown. */
  lemma {:induction false} SuperblockBindsArchive(hash: Hash, a: seq<u8>, b: seq<u8>, blockA: u32, blockB: u32)
    returns (x: seq<u8>, y: seq<u8>)
    requires Fits(hash, a, blockA) && Fits(hash, b, blockB)
    requires blockA == blockB && |a| == |b| && SuperblockOf(hash, a, blockA).masterHash == SuperblockOf(hash, b, blockB).masterHash
    ensures a == b || Collides(hash, x, y)
  {
    hide AllDigests, Table, DataOf;
    x, y := AllDigests(hash, a, blockA), AllDigests(hash, b, blockB);
    if x == y {
      x, y := DigestsBind(hash, a, b, blockA);
    }
  }
}
