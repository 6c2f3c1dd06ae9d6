/** Hashing data block by block, with the hash left abstract: what a list of digests says about the data. */
module HashBlocks {
  import opened Bytes
  import opened Packing

  const HASH_SIZE := 0x20

  /** A digest as SHA-256 (FIPS 180-4) produces it; nothing else about the hash is assumed. */
  type Digest = d: seq<u8> | |d| == HASH_SIZE witness Zeros(HASH_SIZE)

  type Hash = seq<u8> -> Digest

  /** Two different inputs with one digest. */
  ghost predicate Collides(hash: Hash, x: seq<u8>, y: seq<u8>) {
    x != y && hash(x) == hash(y)
  }

  // ---- Blocks ----

  function BlockCount(size: nat, block: nat): nat
    requires block > 0
  {
    if size == 0 then 0 else if size <= block then 1 else 1 + BlockCount(size - block, block)
  }

  function Min(a: nat, b: nat): nat {
    if a < b then a else b
  }

  /** Block `i`; the last one may be short. */
  function Block(s: seq<u8>, block: nat, i: nat): seq<u8>
    requires block > 0 && i * block <= |s|
  {
    s[i * block..Min((i + 1) * block, |s|)]
  }

  /** There are as many blocks as it takes to reach the end. */
  lemma {:induction false} BlockCountCovers(size: nat, block: nat)
    requires block > 0
    ensures size <= BlockCount(size, block) * block
    ensures forall i :: 0 <= i < BlockCount(size, block) ==> i * block < size
  {
    if size > block {
      BlockCountCovers(size - block, block);
      var n := BlockCount(size - block, block);
      assert (1 + n) * block == block + n * block;
      forall i | 0 <= i < 1 + n
        ensures i * block < size
      {
        if i > 0 {
          assert (i - 1) * block < size - block;
          assert i * block == (i - 1) * block + block;
        }
      }
    }
  }

  lemma {:induction false} BlockInside(s: seq<u8>, block: nat, i: nat)
    requires block > 0 && i < BlockCount(|s|, block)
    ensures i * block <= |s|
  {
    BlockCountCovers(|s|, block);
  }

  /** The digests of the first `n` blocks, end to end. */
  ghost function Digests(hash: Hash, s: seq<u8>, block: nat, n: nat): (d: seq<u8>)
    requires block > 0 && n <= BlockCount(|s|, block)
    ensures |d| == HASH_SIZE * n
  {
    if n == 0 then []
    else
      BlockInside(s, block, n - 1);
      Digests(hash, s, block, n - 1) + hash(Block(s, block, n - 1))
  }

  ghost function AllDigests(hash: Hash, s: seq<u8>, block: nat): (d: seq<u8>)
    requires block > 0
    ensures |d| == HASH_SIZE * BlockCount(|s|, block)
  {
    Digests(hash, s, block, BlockCount(|s|, block))
  }

  method HashAll(hash: Hash, s: seq<u8>, block: nat) returns (hashes: seq<u8>)
    requires block > 0
    ensures hashes == AllDigests(hash, s, block)
  {
    hashes := [];
    var at: nat := 0;
    ghost var i: nat := 0;
    BlockCountCovers(|s|, block);
    while at < |s|
      invariant i <= BlockCount(|s|, block) && at == Min(i * block, |s|)
      invariant hashes == Digests(hash, s, block, i)
    {
      NextBlock(|s|, block, i);
      var end := Min(at + block, |s|);
      assert s[at..end] == Block(s, block, i);
      var digest := hash(s[at..end]);
      hashes := hashes + digest;
      at := end;
      i := i + 1;
    }
    LastBlock(|s|, block, i);
  }

  lemma {:induction false} NextBlock(size: nat, block: nat, i: nat)
    requires block > 0 && i <= BlockCount(size, block) && Min(i * block, size) < size
    ensures i < BlockCount(size, block) && i * block < size && (i + 1) * block == i * block + block
  {
    BlockCountCovers(size, block);
  }

  lemma {:induction false} LastBlock(size: nat, block: nat, i: nat)
    requires block > 0 && i <= BlockCount(size, block) && size <= i * block
    ensures i == BlockCount(size, block)
  {
    BlockCountCovers(size, block);
  }

  /** Digest `i` of the list is that of block `i`. */
  lemma {:induction false} DigestAt(hash: Hash, s: seq<u8>, block: nat, n: nat, i: nat)
    requires block > 0 && i < n <= BlockCount(|s|, block)
    ensures i * block <= |s|
    ensures Digests(hash, s, block, n)[HASH_SIZE * i..HASH_SIZE * i + HASH_SIZE] == hash(Block(s, block, i))
  {
    BlockInside(s, block, i);
    if i < n - 1 {
      DigestAt(hash, s, block, n - 1, i);
      BlockInside(s, block, n - 1);
      SliceOfAppend(Digests(hash, s, block, n - 1), hash(Block(s, block, n - 1)), HASH_SIZE * i, HASH_SIZE * i + HASH_SIZE);
    }
  }

  // ---- Binding ----

  ghost predicate SameBlock(a: seq<u8>, b: seq<u8>, block: nat, i: nat)
    requires block > 0 && i * block <= |a| == |b|
  {
    Block(a, block, i) == Block(b, block, i)
  }

  ghost predicate SameBlocks(a: seq<u8>, b: seq<u8>, block: nat)
    requires block > 0
  {
    |a| == |b| &&
    forall i {:trigger SameBlock(a, b, block, i)} ::
      0 <= i < BlockCount(|a|, block) ==> i * block <= |a| && SameBlock(a, b, block, i)
  }

  lemma {:induction false} ByteInBlock(s: seq<u8>, block: nat, k: nat, i: nat, at: nat)
    requires block > 0 && i * block == at <= k < |s| && k < (i + 1) * block
    ensures k - at < |Block(s, block, i)| && s[k] == Block(s, block, i)[k - at]
  {
  }

  /** Data cut into equal blocks is equal. */
  lemma {:induction false} BlocksDetermine(a: seq<u8>, b: seq<u8>, block: nat)
    requires block > 0 && SameBlocks(a, b, block)
    ensures a == b
  {
    hide SameBlocks;
    assert |a| == |b| by { SameLength(a, b, block); }
    forall k | 0 <= k < |a|
      ensures a[k] == b[k]
    {
      SameByte(a, b, block, k, k / block);
    }
  }

  lemma {:induction false} SameLength(a: seq<u8>, b: seq<u8>, block: nat)
    requires block > 0 && SameBlocks(a, b, block)
    ensures |a| == |b|
  {
  }

  lemma {:induction false} SameByte(a: seq<u8>, b: seq<u8>, block: nat, k: nat, i: nat)
    requires block > 0 && SameBlocks(a, b, block) && k < |a| && i == k / block
    ensures |a| == |b| && a[k] == b[k]
  {
    hide Block, BlockCount;
    WithinBlock(k, block, |a|);
    assert SameBlock(a, b, block, i);
    ByteInBlock(a, block, k, i, i * block);
    ByteInBlock(b, block, k, i, i * block);
  }

  lemma {:induction false} WithinBlock(k: nat, block: nat, size: nat)
    requires block > 0 && k < size
    ensures var i := k / block; i * block <= k < (i + 1) * block && i < BlockCount(size, block)
  {
    var i := k / block;
    assert k == block * i + k % block;
    assert (i + 1) * block == i * block + block;
    BlockCountCovers(size, block);
    if i >= BlockCount(size, block) {
      MulMonotone(BlockCount(size, block), i, block);
    }
  }

  lemma {:induction false} MulMonotone(a: nat, b: nat, c: nat)
    requires a <= b
    ensures a * c <= b * c
  {
    assert b * c == a * c + (b - a) * c;
  }

  /** Data of one size with one list of digests is one and the same, or a collision can be shown. */
  lemma {:induction false} DigestsBind(hash: Hash, a: seq<u8>, b: seq<u8>, block: nat) returns (x: seq<u8>, y: seq<u8>)
    requires block > 0 && |a| == |b| && AllDigests(hash, a, block) == AllDigests(hash, b, block)
    ensures a == b || Collides(hash, x, y)
  {
    var n := BlockCount(|a|, block);
    x, y := a, b;
    forall i | 0 <= i < n
      ensures i * block <= |a| && hash(Block(a, block, i)) == hash(Block(b, block, i))
    {
      DigestAt(hash, a, block, n, i);
      DigestAt(hash, b, block, n, i);
    }
    if i :| 0 <= i < n && !SameBlock(a, b, block, i) {
      x, y := Block(a, block, i), Block(b, block, i);
    } else {
      BlocksDetermine(a, b, block);
    }
  }

  /** A short stretch that does not cross a block boundary is found inside one block. */
  lemma {:induction false} StretchInBlock(s: seq<u8>, block: nat, j: nat, off: nat, n: nat)
    requires n > 0 && off + n <= block && j * block + off + n <= |s|
    ensures j < BlockCount(|s|, block) && j * block <= |s| && off + n <= |Block(s, block, j)|
    ensures Block(s, block, j)[off..off + n] == s[j * block + off..j * block + off + n]
  {
    hide BlockCount;
    assert (j + 1) * block == j * block + block;
    BlockCountCovers(|s|, block);
    if j >= BlockCount(|s|, block) {
      MulMonotone(BlockCount(|s|, block), j, block);
    }
    SliceOfSlice(s, j * block, Min((j + 1) * block, |s|), off, off + n);
  }

  // ---- Padding ----

  /** Padded up to the next whole unit, and by a further whole unit when already on one. */
  function PadAlways(s: seq<u8>, unit: nat): (r: seq<u8>)
    requires unit > 0
    ensures |s| < |r| <= |s| + unit && r[..|s|] == s
  {
    s + Zeros(unit - |s| % unit)
  }

  lemma {:induction false} PaddedWhole(s: seq<u8>, unit: nat)
    requires unit > 0
    ensures |PadAlways(s, unit)| % unit == 0
  {
    var n, r := |s|, |s| % unit;
    assert n == unit * (n / unit) + r;
    assert |PadAlways(s, unit)| == unit * (n / unit) + unit == unit * (n / unit + 1);
    MultipleOf(n / unit + 1, unit);
  }

  lemma {:induction false} MultipleOf(q: nat, unit: nat)
    requires unit > 0
    ensures (unit * q) % unit == 0
  {
    var m := unit * q;
    assert m == unit * (m / unit) + m % unit;
    SmallMultipleIsZero(q - m / unit, unit);
  }
}
