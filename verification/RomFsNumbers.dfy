/** RomFS in plain numbers and machine words: the name hash, and where each field of an image lies. */
module RomFsNumbers {
  import opened Bytes
  import opened Order
  import opened RomFsFormat

  // ---- The name hash on numbers ----

  lemma {:induction false} FoldOneMore(hash: u32, name: Str, b: u8)
    ensures FoldName(hash, name + [b]) == Xor(RotateRight5(FoldName(hash, name)), b)
    decreases |name|
  {
    hide Xor, RotateRight5;
    var all := name + [b];
    if name == [] {
      assert all[1..] == [];
    } else {
      assert all[0] == name[0] && all[1..] == name[1..] + [b];
      FoldOneMore(Xor(RotateRight5(hash), name[0]), name[1..], b);
    }
  }

  lemma {:induction false} XorZero(a: u8)
    ensures XorByte(a, 0) == a
  {
  }

  lemma {:induction false} XorLowByte(a: u32, b: u8)
    ensures Xor(a, b) / 0x100 == a / 0x100 && Xor(a, b) % 0x100 == XorByte(a % 0x100, b)
  {
    hide XorByte;
    XorZero(a / 0x100 % 0x100);
    XorZero(a / 0x1_0000 % 0x100);
    XorZero(a / 0x100_0000);
    XorZero(0);
    Le32RoundTrip(a);
  }

  /** With no name the hash is the parent's offset with 123456789 xored in, bytes 15 CD 5B 07. */
  lemma {:induction false} EmptyNameInNumbers(p: u32)
    ensures var h := PathHash(p, []);
      h % 0x100 == XorByte(p % 0x100, 0x15) && h / 0x100 % 0x100 == XorByte(p / 0x100 % 0x100, 0xCD) &&
      h / 0x1_0000 % 0x100 == XorByte(p / 0x1_0000 % 0x100, 0x5B) && h / 0x100_0000 == XorByte(p / 0x100_0000, 0x07)
  {
    hide XorByte, FromLe32;
    BytesOfWord(XorByte(p % 0x100, 0x15), XorByte(p / 0x100 % 0x100, 0xCD), XorByte(p / 0x1_0000 % 0x100, 0x5B),
                XorByte(p / 0x100_0000, 0x07));
  }

  /** One more byte turns the hash right by five bits and xors the byte in at the bottom. */
  lemma {:induction false} NextByteInNumbers(p: u32, name: Str, b: u8)
    ensures var h: int, r := PathHash(p, name), PathHash(p, name + [b]);
      var q := h / 32 + (h % 32) * 0x800_0000;
      r / 0x100 == q / 0x100 && r % 0x100 == ((((q % 0x100) as bv8) ^ (b as bv8)) as int)
  {
    hide Xor, FoldName;
    FoldOneMore(Xor(p, HASH_SEED), name, b);
    XorLowByte(RotateRight5(PathHash(p, name)), b);
  }

  lemma {:induction false} ByteBack(x: bv8)
    ensures (x as u8) as bv8 == x
  {
  }

  lemma {:induction false} XorBits(x: bv8, y: bv8)
    ensures XorByte(x as u8, y as u8) == (x ^ y) as u8
  {
    hide XorByte;
    ByteBack(x);
    ByteBack(y);
    XorOf(x as u8, y as u8, x, y);
  }

  lemma {:induction false} XorOf(a: u8, b: u8, x: bv8, y: bv8)
    requires a as bv8 == x && b as bv8 == y
    ensures XorByte(a, b) == (x ^ y) as u8
  {
  }

  /** One step from a known hash to the next; `x` is the turned hash's lowest byte. */
  lemma {:induction false} NextHash(p: u32, name: Str, h: int, x: bv8, y: bv8, r: u32)
    requires PathHash(p, name) == h
    requires var q := h / 32 + (h % 32) * 0x800_0000; q % 0x100 == x as int && r / 0x100 == q / 0x100 && r % 0x100 == (x ^ y) as int
    ensures PathHash(p, name + [y as u8]) == r
  {
    hide PathHash, XorByte, Xor;
    FoldOneMore(Xor(p, HASH_SEED), name, y as u8);
    assert PathHash(p, name + [y as u8]) == Xor(RotateRight5(h), y as u8) by { Unfolded(p, name); Unfolded(p, name + [y as u8]); }
    XorLowByte(RotateRight5(h), y as u8);
    XorBits(x, y);
  }

  lemma {:induction false} Unfolded(p: u32, name: Str)
    ensures PathHash(p, name) == FoldName(Xor(p, HASH_SEED), name)
  {
    hide FoldName, Xor;
  }

  /** `a`, and a name of four three-byte characters, under the root. */
  lemma {:induction false} KnownHashes()
    ensures PathHash(0, []) == 123_456_789 && PathHash(0, [0x61]) == 0xA83A_DE09
    ensures PathHash(0, [0xE3, 0x83, 0x95, 0xE3, 0x82, 0xA1, 0xE3, 0x82, 0xA4, 0xE3, 0x83, 0xAB]) == 0xF3B5_84EB
  {
    hide PathHash;
    EmptyNameIs();
    assert [] + [0x61] == [0x61];
    NextHash(0, [], 0x075B_CD15, 0x68, 0x61, 0xA83A_DE09);
    SecondHalf();
  }

  lemma {:induction false} EmptyNameIs()
    ensures PathHash(0, []) == 123_456_789
  {
    hide PathHash, XorByte;
    EmptyNameInNumbers(0);
    XorBits(0, 0x15);
    XorBits(0, 0xCD);
    XorBits(0, 0x5B);
    XorBits(0, 0x07);
    var h := PathHash(0, []);
    assert h == h % 0x100 + 0x100 * (h / 0x100 % 0x100) + 0x1_0000 * (h / 0x1_0000 % 0x100) + 0x100_0000 * (h / 0x100_0000);
  }

  lemma {:induction false} FirstHalf()
    ensures PathHash(0, [0xE3, 0x83, 0x95, 0xE3, 0x82, 0xA1]) == 0x348D_7571
  {
    hide PathHash;
    EmptyNameIs();
    assert [0xE3] == [] + [0xE3];
    NextHash(0, [], 0x075B_CD15, 0x68, 0xE3, 0xA83A_DE8B);
    assert [0xE3, 0x83] == [0xE3] + [0x83];
    NextHash(0, [0xE3], 0xA83A_DE8B, 0xF4, 0x83, 0x5D41_D677);
    assert [0xE3, 0x83, 0x95] == [0xE3, 0x83] + [0x95];
    NextHash(0, [0xE3, 0x83], 0x5D41_D677, 0xB3, 0x95, 0xBAEA_0E26);
    assert [0xE3, 0x83, 0x95, 0xE3] == [0xE3, 0x83, 0x95] + [0xE3];
    NextHash(0, [0xE3, 0x83, 0x95], 0xBAEA_0E26, 0x71, 0xE3, 0x35D7_5092);
    assert [0xE3, 0x83, 0x95, 0xE3, 0x82] == [0xE3, 0x83, 0x95, 0xE3] + [0x82];
    NextHash(0, [0xE3, 0x83, 0x95, 0xE3], 0x35D7_5092, 0x84, 0x82, 0x91AE_BA06);
    assert [0xE3, 0x83, 0x95, 0xE3, 0x82, 0xA1] == [0xE3, 0x83, 0x95, 0xE3, 0x82] + [0xA1];
    NextHash(0, [0xE3, 0x83, 0x95, 0xE3, 0x82], 0x91AE_BA06, 0xD0, 0xA1, 0x348D_7571);
  }

  lemma {:induction false} SecondHalf()
    ensures PathHash(0, [0xE3, 0x83, 0x95, 0xE3, 0x82, 0xA1, 0xE3, 0x82, 0xA4, 0xE3, 0x83, 0xAB]) == 0xF3B5_84EB
  {
    hide PathHash;
    FirstHalf();
    assert [0xE3, 0x83, 0x95, 0xE3, 0x82, 0xA1, 0xE3] == [0xE3, 0x83, 0x95, 0xE3, 0x82, 0xA1] + [0xE3];
    NextHash(0, [0xE3, 0x83, 0x95, 0xE3, 0x82, 0xA1], 0x348D_7571, 0xAB, 0xE3, 0x89A4_6B48);
    assert [0xE3, 0x83, 0x95, 0xE3, 0x82, 0xA1, 0xE3, 0x82] == [0xE3, 0x83, 0x95, 0xE3, 0x82, 0xA1, 0xE3] + [0x82];
    NextHash(0, [0xE3, 0x83, 0x95, 0xE3, 0x82, 0xA1, 0xE3], 0x89A4_6B48, 0x5A, 0x82, 0x444D_23D8);
    assert [0xE3, 0x83, 0x95, 0xE3, 0x82, 0xA1, 0xE3, 0x82, 0xA4] == [0xE3, 0x83, 0x95, 0xE3, 0x82, 0xA1, 0xE3, 0x82] + [0xA4];
    NextHash(0, [0xE3, 0x83, 0x95, 0xE3, 0x82, 0xA1, 0xE3, 0x82], 0x444D_23D8, 0x1E, 0xA4, 0xC222_69BA);
    assert [0xE3, 0x83, 0x95, 0xE3, 0x82, 0xA1, 0xE3, 0x82, 0xA4, 0xE3] == [0xE3, 0x83, 0x95, 0xE3, 0x82, 0xA1, 0xE3, 0x82, 0xA4] + [0xE3];
    NextHash(0, [0xE3, 0x83, 0x95, 0xE3, 0x82, 0xA1, 0xE3, 0x82, 0xA4], 0xC222_69BA, 0x4D, 0xE3, 0xD611_13AE);
    assert [0xE3, 0x83, 0x95, 0xE3, 0x82, 0xA1, 0xE3, 0x82, 0xA4, 0xE3, 0x83] == [0xE3, 0x83, 0x95, 0xE3, 0x82, 0xA1, 0xE3, 0x82, 0xA4, 0xE3] + [0x83];
    NextHash(0, [0xE3, 0x83, 0x95, 0xE3, 0x82, 0xA1, 0xE3, 0x82, 0xA4, 0xE3], 0xD611_13AE, 0x9D, 0x83, 0x76B0_881E);
    assert [0xE3, 0x83, 0x95, 0xE3, 0x82, 0xA1, 0xE3, 0x82, 0xA4, 0xE3, 0x83, 0xAB] == [0xE3, 0x83, 0x95, 0xE3, 0x82, 0xA1, 0xE3, 0x82, 0xA4, 0xE3, 0x83] + [0xAB];
    NextHash(0, [0xE3, 0x83, 0x95, 0xE3, 0x82, 0xA1, 0xE3, 0x82, 0xA4, 0xE3, 0x83], 0x76B0_881E, 0x40, 0xAB, 0xF3B5_84EB);
  }

  // ---- The name hash on machine words ----

  function MachineRound(hash: bv32, byte: bv8): bv32 {
    hash.RotateRight(5) ^ (byte as bv32)
  }

  function MachineHash(hash: bv32, name: seq<bv8>): bv32
    decreases |name|
  {
    if name == [] then hash else MachineHash(MachineRound(hash, name[0]), name[1..])
  }

  function Byte0(v: bv32): bv8 {
    (v & 0xFF) as bv8
  }

  function Byte1(v: bv32): bv8 {
    ((v >> 8) & 0xFF) as bv8
  }

  function Byte2(v: bv32): bv8 {
    ((v >> 16) & 0xFF) as bv8
  }

  function Byte3(v: bv32): bv8 {
    (v >> 24) as bv8
  }

  /** The number a machine word stands for, byte by byte. */
  function Value(v: bv32): u32 {
    FromLe32([Byte0(v) as u8, Byte1(v) as u8, Byte2(v) as u8, Byte3(v) as u8])
  }

  lemma {:induction false} ValueBytes(v: bv32)
    ensures var x := Value(v);
      x % 0x100 == Byte0(v) as u8 && x / 0x100 % 0x100 == Byte1(v) as u8 && x / 0x1_0000 % 0x100 == Byte2(v) as u8 &&
      x / 0x100_0000 == Byte3(v) as u8
  {
    hide Byte0, Byte1, Byte2, Byte3, FromLe32;
    BytesOfWord(Byte0(v) as u8, Byte1(v) as u8, Byte2(v) as u8, Byte3(v) as u8);
  }

  lemma {:induction false} BytesOfXor(v: bv32, w: bv32)
    ensures Byte0(v ^ w) == Byte0(v) ^ Byte0(w) && Byte1(v ^ w) == Byte1(v) ^ Byte1(w)
    ensures Byte2(v ^ w) == Byte2(v) ^ Byte2(w) && Byte3(v ^ w) == Byte3(v) ^ Byte3(w)
  {
  }

  lemma {:induction false} XorOfWords(v: bv32, w: bv32)
    ensures Value(v ^ w) == Xor(Value(v), Value(w))
  {
    hide Byte0, Byte1, Byte2, Byte3, FromLe32, XorByte;
    ValueBytes(v);
    ValueBytes(w);
    BytesOfXor(v, w);
    XorBits(Byte0(v), Byte0(w));
    XorBits(Byte1(v), Byte1(w));
    XorBits(Byte2(v), Byte2(w));
    XorBits(Byte3(v), Byte3(w));
  }

  /** The byte that straddles a boundary after turning. */
  function Straddle(x: bv8, y: bv8): bv8 {
    (x >> 5) | (y << 3)
  }

  lemma {:induction false} BytesOfTurned(v: bv32)
    ensures var t := v.RotateRight(5);
      Byte0(t) == Straddle(Byte0(v), Byte1(v)) && Byte1(t) == Straddle(Byte1(v), Byte2(v)) &&
      Byte2(t) == Straddle(Byte2(v), Byte3(v)) && Byte3(t) == Straddle(Byte3(v), Byte0(v))
  {
  }

  lemma {:induction false} TopBits(x: bv8)
    ensures (x >> 5) as u8 == (x as u8) / 32
  {
  }

  lemma {:induction false} LowBits(y: bv8)
    ensures var n: int := y as int; (y << 3) as int == n % 32 * 8
  {
  }

  lemma {:induction false} JoinBits(a: bv8, b: bv8)
    requires a < 8 && b & 7 == 0
    ensures (a | b) as int == (a as int) + (b as int)
  {
  }

  lemma {:induction false} StraddleInNumbers(x: bv8, y: bv8)
    ensures var m: int, n: int := x as int, y as int; Straddle(x, y) as int == m / 32 + n % 32 * 8
  {
    TopBits(x);
    LowBits(y);
    JoinBits(x >> 5, y << 3);
  }

  lemma {:induction false} TurnedBytes(b0: u8, b1: u8, b2: u8, b3: u8, c0: u8, c1: u8, c2: u8, c3: u8)
    requires var a0: int, a1: int, a2: int, a3: int := b0, b1, b2, b3;
      c0 == a0 / 32 + a1 % 32 * 8 && c1 == a1 / 32 + a2 % 32 * 8 && c2 == a2 / 32 + a3 % 32 * 8 && c3 == a3 / 32 + a0 % 32 * 8
    ensures FromLe32([c0, c1, c2, c3]) == RotateRight5(FromLe32([b0, b1, b2, b3]))
  {
    var a0: int, a1: int, a2: int, a3: int := b0, b1, b2, b3;
    var h: int := FromLe32([b0, b1, b2, b3]);
    var q0, q1, q2, q3 := a0 / 32, a1 / 32, a2 / 32, a3 / 32;
    assert h == 32 * (q0 + 8 * (a1 + 0x100 * (a2 + 0x100 * a3))) + a0 % 32;
    assert h / 32 == q0 + 8 * (a1 + 0x100 * (a2 + 0x100 * a3)) && h % 32 == a0 % 32;
  }

  lemma {:induction false} TurnedWord(v: bv32)
    ensures Value(v.RotateRight(5)) == RotateRight5(Value(v))
  {
    hide Byte0, Byte1, Byte2, Byte3, FromLe32, RotateRight5, Straddle;
    BytesOfTurned(v);
    StraddleInNumbers(Byte0(v), Byte1(v));
    StraddleInNumbers(Byte1(v), Byte2(v));
    StraddleInNumbers(Byte2(v), Byte3(v));
    StraddleInNumbers(Byte3(v), Byte0(v));
    var t := v.RotateRight(5);
    TurnedBytes(Byte0(v) as u8, Byte1(v) as u8, Byte2(v) as u8, Byte3(v) as u8,
                Byte0(t) as u8, Byte1(t) as u8, Byte2(t) as u8, Byte3(t) as u8);
  }

  lemma {:induction false} ByteInWord(b: bv8)
    ensures Value(b as bv32) == b as u8
  {
    var v := b as bv32;
    assert Byte0(v) == b && Byte1(v) == 0 && Byte2(v) == 0 && Byte3(v) == 0;
  }

  lemma {:induction false} SeedWord()
    ensures Value(123_456_789) == HASH_SEED
  {
  }

  lemma {:induction false} MachineRoundIs(hash: bv32, b: bv8)
    ensures Value(MachineRound(hash, b)) == Xor(RotateRight5(Value(hash)), b as u8)
  {
    hide Value, Xor, RotateRight5;
    TurnedWord(hash);
    ByteInWord(b);
    XorOfWords(hash.RotateRight(5), b as bv32);
  }

  function Bytes8(name: seq<bv8>): (s: Str)
    ensures |s| == |name| && forall k :: 0 <= k < |s| ==> s[k] == name[k] as u8
  {
    seq(|name|, k requires 0 <= k < |name| => name[k] as u8)
  }

  lemma {:induction false} MachineFolds(hash: bv32, name: seq<bv8>)
    ensures Value(MachineHash(hash, name)) == FoldName(Value(hash), Bytes8(name))
    decreases |name|
  {
    hide Value, Xor, RotateRight5, MachineRound;
    if name != [] {
      MachineRoundIs(hash, name[0]);
      assert Bytes8(name)[1..] == Bytes8(name[1..]);
      MachineFolds(MachineRound(hash, name[0]), name[1..]);
    }
  }

  /** The hash is that of 32-bit machine words: seed, then turn right by five and xor each byte in. */
  lemma {:induction false} HashOnMachineWords(parentOffset: bv32, name: seq<bv8>)
    ensures Value(MachineHash(parentOffset ^ 123_456_789, name)) == PathHash(Value(parentOffset), Bytes8(name))
  {
    hide Value, Xor, FoldName, MachineHash;
    XorOfWords(parentOffset, 123_456_789);
    SeedWord();
    MachineFolds(parentOffset ^ 123_456_789, name);
  }
}
