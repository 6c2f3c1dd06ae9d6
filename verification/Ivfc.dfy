/** The IVFC hash tree over a RomFS image: six levels, each hashing the next in blocks. */
module Ivfc {
  import opened Bytes
  import opened Packing
  import opened HashBlocks

  const BLOCK := 0x4000
  const BLOCK_LOG2: u32 := 14
  const LEVELS := 6

  datatype LevelHeader = LevelHeader(logicalOffset: u64, hashDataSize: u64, blockSize: u32)

  datatype Tree = Tree(data: seq<u8>, levelHeaders: seq<LevelHeader>, masterHash: Digest)

  // ---- What the tree is ----

  ghost function HashLevel(hash: Hash, level: seq<u8>): seq<u8> {
    PadAlways(AllDigests(hash, level, BLOCK), BLOCK)
  }

  /** Level 5 is the image; each level below holds the digests of the one above it. */
  ghost function Level(hash: Hash, romfs: seq<u8>, k: nat): seq<u8>
    requires k < LEVELS
    decreases LEVELS - k
  {
    if k == LEVELS - 1 then romfs else HashLevel(hash, Level(hash, romfs, k + 1))
  }

  ghost function Levels(hash: Hash, romfs: seq<u8>): (levels: seq<seq<u8>>)
    ensures |levels| == LEVELS && forall k :: 0 <= k < LEVELS ==> levels[k] == Level(hash, romfs, k)
  {
    seq(LEVELS, k requires 0 <= k < LEVELS => Level(hash, romfs, k))
  }

  /** The whole section is addressable. */
  ghost predicate Fits(hash: Hash, romfs: seq<u8>) {
    |Concat(Levels(hash, romfs))| <= USIZE_MAX
  }

  /** Levels back to back, each header saying where its level starts, the root hash covering level 0. */
  ghost predicate IsTreeOf(tree: Tree, hash: Hash, romfs: seq<u8>) {
    var levels := Levels(hash, romfs);
    tree.data == Concat(levels) && tree.masterHash == hash(levels[0]) && |tree.levelHeaders| == LEVELS &&
    forall k :: 0 <= k < LEVELS ==> HeaderIs(tree.levelHeaders[k], levels, k)
  }

  ghost predicate HeaderIs(h: LevelHeader, levels: seq<seq<u8>>, k: nat)
    requires k < |levels|
  {
    h.logicalOffset == StartOf(levels, k) && h.hashDataSize == |levels[k]| && h.blockSize == BLOCK_LOG2
  }

  ghost function TreeOf(hash: Hash, romfs: seq<u8>): (tree: Tree)
    requires Fits(hash, romfs)
    ensures IsTreeOf(tree, hash, romfs)
  {
    var levels := Levels(hash, romfs);
    Tree(Concat(levels),
         seq(LEVELS, k requires 0 <= k < LEVELS =>
               PartInConcat(levels, k); LevelHeader(StartOf(levels, k), |levels[k]|, BLOCK_LOG2)),
         hash(levels[0]))
  }

  lemma {:induction false} TreeIsUnique(tree: Tree, hash: Hash, romfs: seq<u8>)
    requires Fits(hash, romfs) && IsTreeOf(tree, hash, romfs)
    ensures tree == TreeOf(hash, romfs)
  {
    hide Levels, Concat;
    var other, levels := TreeOf(hash, romfs), Levels(hash, romfs);
    forall k | 0 <= k < LEVELS
      ensures tree.levelHeaders[k] == other.levelHeaders[k]
    {
      assert HeaderIs(tree.levelHeaders[k], levels, k) && HeaderIs(other.levelHeaders[k], levels, k);
    }
  }

  // ---- Building it ----

  method ComputeHashLevel(hash: Hash, level: seq<u8>) returns (hashes: seq<u8>)
    ensures hashes == HashLevel(hash, level)
  {
    hashes := HashAll(hash, level, BLOCK);
    var padding := BLOCK - |hashes| % BLOCK;
    hashes := hashes + Zeros(padding);
  }

  method Build(hash: Hash, romfs: seq<u8>) returns (tree: Tree)
    requires Fits(hash, romfs)
    ensures tree == TreeOf(hash, romfs)
  {
    hide Concat, TreeOf, Level;
    var levels := DeriveLevels(hash, romfs);
    levels := Reversed(levels);
    assert levels == Levels(hash, romfs);
    var headers := DescribeLevels(levels);
    var data := Join(levels);
    tree := Tree(data, headers, hash(levels[0]));
    TreeIsUnique(tree, hash, romfs);
  }

  /** The image, then each level derived from the one before it: the tree from the top down. */
  method DeriveLevels(hash: Hash, romfs: seq<u8>) returns (levels: seq<seq<u8>>)
    ensures |levels| == LEVELS && forall m :: 0 <= m < LEVELS ==> levels[m] == Level(hash, romfs, LEVELS - 1 - m)
  {
    hide HashLevel;
    levels := [];
    var levelAbove := romfs;
    while |levels| < LEVELS - 1
      invariant |levels| <= LEVELS - 1 && levelAbove == Level(hash, romfs, LEVELS - 1 - |levels|)
      invariant forall m :: 0 <= m < |levels| ==> levels[m] == Level(hash, romfs, LEVELS - 1 - m)
    {
      var levelBelow := ComputeHashLevel(hash, levelAbove);
      levels := levels + [levelAbove];
      levelAbove := levelBelow;
    }
    levels := levels + [levelAbove];
  }

  method DescribeLevels(levels: seq<seq<u8>>) returns (headers: seq<LevelHeader>)
    requires |Concat(levels)| <= USIZE_MAX
    ensures |headers| == |levels| && forall k :: 0 <= k < |levels| ==> HeaderIs(headers[k], levels, k)
  {
    headers := [];
    var logicalOffset := 0;
    for k := 0 to |levels|
      invariant |headers| == k && logicalOffset == StartOf(levels, k)
      invariant forall m :: 0 <= m < k ==> HeaderIs(headers[m], levels, m)
    {
      PartInConcat(levels, k);
      headers := headers + [LevelHeader(logicalOffset, |levels[k]|, BLOCK_LOG2)];
      logicalOffset := logicalOffset + |levels[k]|;
    }
  }

  method Join(levels: seq<seq<u8>>) returns (data: seq<u8>)
    ensures data == Concat(levels)
  {
    data := [];
    for k := 0 to |levels|
      invariant data == Concat(levels[..k])
    {
      TakeOneMore(levels, k);
      ConcatSnoc(levels[..k], levels[k]);
      data := data + levels[k];
    }
    assert levels[..|levels|] == levels;
  }

  // ---- What the root hash says ----

  lemma {:induction false} HashLevelBinds(hash: Hash, a: seq<u8>, b: seq<u8>) returns (x: seq<u8>, y: seq<u8>)
    requires |a| == |b| && HashLevel(hash, a) == HashLevel(hash, b)
    ensures a == b || Collides(hash, x, y)
  {
    hide AllDigests;
    var da, db := AllDigests(hash, a, BLOCK), AllDigests(hash, b, BLOCK);
    assert da == HashLevel(hash, a)[..|da|] && db == HashLevel(hash, b)[..|db|];
    x, y := DigestsBind(hash, a, b, BLOCK);
  }

  lemma {:induction false} LevelsBind(hash: Hash, a: seq<u8>, b: seq<u8>, k: nat) returns (x: seq<u8>, y: seq<u8>)
    requires k < LEVELS && forall m :: 0 <= m < LEVELS ==> |Level(hash, a, m)| == |Level(hash, b, m)|
    requires Level(hash, a, k) == Level(hash, b, k)
    ensures a == b || Collides(hash, x, y)
    decreases LEVELS - k
  {
    hide HashLevel;
    x, y := a, b;
    if k < LEVELS - 1 {
      var p, q := Level(hash, a, k + 1), Level(hash, b, k + 1);
      assert |p| == |q|;
      x, y := HashLevelBinds(hash, p, q);
      if p == q {
        x, y := LevelsBind(hash, a, b, k + 1);
      }
    }
  }

  /** Images with one root hash and one set of level headers are one image, or a collision can be shown. */
  lemma {:induction false} RootBindsImage(hash: Hash, a: seq<u8>, b: seq<u8>, ta: Tree, tb: Tree) returns (x: seq<u8>, y: seq<u8>)
    requires IsTreeOf(ta, hash, a) && IsTreeOf(tb, hash, b)
    requires ta.masterHash == tb.masterHash
    requires forall k :: 0 <= k < LEVELS ==> ta.levelHeaders[k].hashDataSize == tb.levelHeaders[k].hashDataSize
    ensures a == b || Collides(hash, x, y)
  {
    hide Level;
    forall m | 0 <= m < LEVELS
      ensures |Level(hash, a, m)| == |Level(hash, b, m)|
    {
      assert HeaderIs(ta.levelHeaders[m], Levels(hash, a), m) && HeaderIs(tb.levelHeaders[m], Levels(hash, b), m);
    }
    x, y := Level(hash, a, 0), Level(hash, b, 0);
    if x == y {
      x, y := LevelsBind(hash, a, b, 0);
    }
  }

  /**
   * The digest of any block sits whole inside one block of the level that covers it, so checking a
   * block takes one block per level.
   */
  lemma {:induction false} DigestInOneBlock(hash: Hash, level: seq<u8>, i: nat)
    requires i < BlockCount(|level|, BLOCK)
    ensures i * BLOCK <= |level|
    ensures var cover, j, off := HashLevel(hash, level), HASH_SIZE * i / BLOCK, HASH_SIZE * i % BLOCK;
      j < BlockCount(|cover|, BLOCK) && j * BLOCK <= |cover| && off + HASH_SIZE <= |Block(cover, BLOCK, j)| &&
      Block(cover, BLOCK, j)[off..off + HASH_SIZE] == hash(Block(level, BLOCK, i))
  {
    hide BlockCount, AllDigests, Block, Digests;
    var n := BlockCount(|level|, BLOCK);
    var digests, at := AllDigests(hash, level, BLOCK), HASH_SIZE * i;
    assert digests == Digests(hash, level, BLOCK, n) by { AllDigestsIs(hash, level); }
    DigestAt(hash, level, BLOCK, n, i);
    SliceOfAppend(digests, Zeros(BLOCK - |digests| % BLOCK), at, at + HASH_SIZE);
    DigestsDivideBlocks(i);
    StretchInBlock(HashLevel(hash, level), BLOCK, at / BLOCK, at % BLOCK, HASH_SIZE);
  }

  lemma {:induction false} DigestsDivideBlocks(i: nat)
    ensures HASH_SIZE * i % BLOCK + HASH_SIZE <= BLOCK
    ensures (HASH_SIZE * i / BLOCK) * BLOCK + HASH_SIZE * i % BLOCK == HASH_SIZE * i
  {
  }

  lemma {:induction false} AllDigestsIs(hash: Hash, level: seq<u8>)
    ensures AllDigests(hash, level, BLOCK) == Digests(hash, level, BLOCK, BlockCount(|level|, BLOCK))
  {
  }

  /** Every derived level is a whole number of blocks, so its last block is hashed in full. */
  lemma {:induction false} DerivedLevelsAreWhole(hash: Hash, romfs: seq<u8>, k: nat)
    requires k < LEVELS - 1
    ensures |Level(hash, romfs, k)| % BLOCK == 0 && |Level(hash, romfs, k)| > 0
  {
    PaddedWhole(AllDigests(hash, Level(hash, romfs, k + 1), BLOCK), BLOCK);
  }
}
