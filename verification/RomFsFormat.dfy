/** RomFS constants, the name hash, and the number of hash buckets. */
module RomFsFormat {
  import opened Bytes
  import opened Order

  /** The offset standing for "nothing here". */
  const NO_ENTRY: u32 := 0xFFFF_FFFF
  const HEADER_SIZE := 0x50
  const DIR_ENTRY_SIZE := 0x18
  const FILE_ENTRY_SIZE := 0x20
  /** Where the file contents start. */
  const FILE_PARTITION := 0x200
  const HASH_SEED: u32 := 123_456_789

  // ---- Hashing a name under a parent ----

  function XorByte(a: u8, b: u8): u8 {
    ((a as bv8) ^ (b as bv8)) as u8
  }

  /** Exclusive or of two words, byte by byte. */
  function Xor(a: u32, b: u32): u32 {
    FromLe32([XorByte(a % 0x100, b % 0x100), XorByte(a / 0x100 % 0x100, b / 0x100 % 0x100),
              XorByte(a / 0x1_0000 % 0x100, b / 0x1_0000 % 0x100), XorByte(a / 0x100_0000, b / 0x100_0000)])
  }

  /** A word rotated right by five bits. */
  function RotateRight5(h: u32): u32 {
    var low: int := h % 32;
    h / 32 + low * 0x800_0000
  }

  function FoldName(hash: u32, name: Str): u32
    decreases |name|
  {
    if name == [] then hash else FoldName(Xor(RotateRight5(hash), name[0]), name[1..])
  }

  function PathHash(parentOffset: u32, name: Str): u32 {
    FoldName(Xor(parentOffset, HASH_SEED), name)
  }

  method ComputePathHash(parentOffset: u32, name: Str) returns (r: u32)
    ensures r == PathHash(parentOffset, name)
  {
    hide Xor, RotateRight5;
    var hash := Xor(parentOffset, HASH_SEED);
    for i := 0 to |name|
      invariant FoldName(hash, name[i..]) == FoldName(Xor(parentOffset, HASH_SEED), name)
    {
      assert name[i..][1..] == name[i + 1..];
      hash := Xor(RotateRight5(hash), name[i]);
    }
    r := hash;
  }

  // ---- Number of buckets ----

  predicate HasSmallFactor(n: nat) {
    n % 2 == 0 || n % 3 == 0 || n % 5 == 0 || n % 7 == 0 || n % 11 == 0 || n % 13 == 0 || n % 17 == 0
  }

  /** 2 * 3 * 5 * 7 * 11 * 13 * 17: one past any multiple of it has none of those factors. */
  const PRIMORIAL := 510_510

  /** Steps left, at most, before a number free of small factors. */
  function StepsLeft(n: nat): nat {
    (PRIMORIAL + 1 - n % PRIMORIAL) % PRIMORIAL
  }

  lemma {:induction false} StepsLeftFalls(n: nat)
    requires HasSmallFactor(n)
    ensures StepsLeft(n + 1) < StepsLeft(n)
  {
    var q, r := n / PRIMORIAL, n % PRIMORIAL;
    assert n == PRIMORIAL * q + r;
    if r == 1 {
      OneMoreThanMultiple(q);
    }
  }

  lemma {:induction false} OneMoreThanMultiple(q: nat)
    ensures !HasSmallFactor(PRIMORIAL * q + 1)
  {
    var n := PRIMORIAL * q + 1;
    assert n == 2 * (255_255 * q) + 1;
    assert n == 3 * (170_170 * q) + 1;
    assert n == 5 * (102_102 * q) + 1;
    assert n == 7 * (72_930 * q) + 1;
    assert n == 11 * (46_410 * q) + 1;
    assert n == 13 * (39_270 * q) + 1;
    assert n == 17 * (30_030 * q) + 1;
  }

  function NextFree(n: nat): (m: nat)
    ensures n <= m && !HasSmallFactor(m)
    ensures forall k :: n <= k < m ==> HasSmallFactor(k)
    decreases StepsLeft(n)
  {
    if HasSmallFactor(n) then
      StepsLeftFalls(n);
      NextFree(n + 1)
    else n
  }

  /** Buckets for a table of `entries`: at least as many, and past 18 free of every prime up to 17. */
  function HashCount(entries: nat): (count: nat)
    ensures count > 0 && entries <= count
    ensures entries >= 19 ==> !HasSmallFactor(count) && forall k :: entries <= k < count ==> HasSmallFactor(k)
  {
    if entries < 3 then 3
    else if entries < 19 then if entries % 2 == 0 then entries + 1 else entries
    else NextFree(entries)
  }

  predicate Divides(d: nat, n: nat) {
    d > 0 && n % d == 0
  }

  ghost predicate DividedUpTo17(n: nat) {
    exists d :: 2 <= d <= 17 && Divides(d, n)
  }

  /** Some number from 2 to 17 divides it, which a prime up to 17 then does. */
  lemma {:induction false} SmallFactorInNumbers(n: nat)
    ensures HasSmallFactor(n) <==> DividedUpTo17(n)
  {
    assert n % 2 == 0 ==> Divides(2, n);
    assert n % 3 == 0 ==> Divides(3, n);
    assert n % 5 == 0 ==> Divides(5, n);
    assert n % 7 == 0 ==> Divides(7, n);
    assert n % 11 == 0 ==> Divides(11, n);
    assert n % 13 == 0 ==> Divides(13, n);
    assert n % 17 == 0 ==> Divides(17, n);
    forall d | 2 <= d <= 17 && Divides(d, n)
      ensures HasSmallFactor(n)
    {
      PrimeWithin(d, n);
    }
  }

  lemma {:induction false} PrimeWithin(d: nat, n: nat)
    requires 2 <= d <= 17 && n % d == 0
    ensures HasSmallFactor(n)
  {
    var q := n / d;
    assert n == d * q;
    if d % 2 == 0 {
      Factor(n, 2, d / 2 * q) by { assert n == 2 * (d / 2 * q); }
    } else if d % 3 == 0 {
      Factor(n, 3, d / 3 * q) by { assert n == 3 * (d / 3 * q); }
    }
  }

  lemma {:induction false} Factor(n: nat, d: nat, m: nat)
    requires d > 0 && n == d * m
    ensures n % d == 0
  {
    var r := n % d;
    assert d * (m - n / d) == r;
    SmallMultipleIsZero(m - n / d, d);
  }

  /**
   * Which number that is: three at least, the next odd one below 19, and then the next that no number from
   * 2 to 17 divides.
   */
  lemma {:induction false} HashCountIs(entries: nat)
    ensures entries < 3 ==> HashCount(entries) == 3
    ensures 3 <= entries < 19 ==> HashCount(entries) % 2 == 1 && entries <= HashCount(entries) <= entries + 1
    ensures entries >= 19 ==> entries <= HashCount(entries) && !DividedUpTo17(HashCount(entries))
    ensures entries >= 19 ==> forall k :: entries <= k < HashCount(entries) ==> DividedUpTo17(k)
  {
    hide HasSmallFactor, DividedUpTo17;
    SmallFactorInNumbers(HashCount(entries));
    forall k | entries >= 19 && entries <= k < HashCount(entries)
      ensures DividedUpTo17(k)
    {
      SmallFactorInNumbers(k);
    }
  }

  method ComputeHashCount(entries: nat) returns (n: nat)
    ensures n == HashCount(entries)
  {
    if entries < 3 {
      return 3;
    }
    if entries < 19 {
      return if entries % 2 == 0 then entries + 1 else entries;
    }
    n := entries;
    while n % 2 == 0 || n % 3 == 0 || n % 5 == 0 || n % 7 == 0 || n % 11 == 0 || n % 13 == 0 || n % 17 == 0
      invariant NextFree(n) == NextFree(entries)
      decreases StepsLeft(n)
    {
      StepsLeftFalls(n);
      n := n + 1;
    }
  }
}
