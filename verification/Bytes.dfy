/** Bytes, fixed-width words and their little-endian form, and alignment. */
module Bytes {

  type u8 = x: int | 0 <= x < 0x100
  type u32 = x: int | 0 <= x < 0x1_0000_0000
  type u64 = x: int | 0 <= x < 0x1_0000_0000_0000_0000

  /** Largest value of a 64-bit `usize`. */
  const USIZE_MAX := 0xFFFF_FFFF_FFFF_FFFF

  datatype Option<+T> = None | Some(value: T)

  datatype Result<+T, +E> = Ok(value: T) | Err(error: E)

  // ---- Little-endian words ----

  function Le32(x: u32): (b: seq<u8>)
    ensures |b| == 4
  {
    [x % 0x100, x / 0x100 % 0x100, x / 0x1_0000 % 0x100, x / 0x100_0000]
  }

  function FromLe32(b: seq<u8>): u32
    requires |b| == 4
  {
    var b0: int, b1: int, b2: int, b3: int := b[0], b[1], b[2], b[3];
    b0 + 0x100 * b1 + 0x1_0000 * b2 + 0x100_0000 * b3
  }

  function Le64(x: u64): (b: seq<u8>)
    ensures |b| == 8
  {
    Le32(x % 0x1_0000_0000) + Le32(x / 0x1_0000_0000)
  }

  function FromLe64(b: seq<u8>): u64
    requires |b| == 8
  {
    var low: int, high: int := FromLe32(b[..4]), FromLe32(b[4..]);
    low + 0x1_0000_0000 * high
  }

  lemma Le32RoundTrip(x: u32)
    ensures FromLe32(Le32(x)) == x
  {
    var a := x / 0x100;
    var b := a / 0x100;
    assert x / 0x1_0000 == b && x / 0x100_0000 == b / 0x100;
    assert x == x % 0x100 + 0x100 * a && a == a % 0x100 + 0x100 * b && b == b % 0x100 + 0x100 * (b / 0x100);
  }

  lemma Le64RoundTrip(x: u64)
    ensures FromLe64(Le64(x)) == x
  {
    Le32RoundTrip(x % 0x1_0000_0000);
    Le32RoundTrip(x / 0x1_0000_0000);
    assert Le64(x)[..4] == Le32(x % 0x1_0000_0000);
    assert Le64(x)[4..] == Le32(x / 0x1_0000_0000);
  }

  lemma {:induction false} BytesOfWord(b0: u8, b1: u8, b2: u8, b3: u8)
    ensures var x := FromLe32([b0, b1, b2, b3]);
      x % 0x100 == b0 && x / 0x100 % 0x100 == b1 && x / 0x1_0000 % 0x100 == b2 && x / 0x100_0000 == b3
  {
    var c0: int, c1: int, c2: int, c3: int := b0, b1, b2, b3;
    var x := FromLe32([b0, b1, b2, b3]);
    assert x == c0 + 0x100 * (c1 + 0x100 * (c2 + 0x100 * c3));
    assert x / 0x100 == c1 + 0x100 * (c2 + 0x100 * c3) && x / 0x1_0000 == c2 + 0x100 * c3;
  }

  // ---- Alignment ----

  /** The smallest multiple of `unit` that is at least `x`: add `unit - 1`, then drop the remainder. */
  function AlignUp(x: nat, unit: nat): (r: nat)
    requires unit > 0
    ensures x <= r < x + unit && r % unit == 0
  {
    var v := x + (unit - 1);
    ClearedIsMultiple(v, unit);
    v - v % unit
  }

  lemma ClearedIsMultiple(v: nat, unit: nat)
    requires unit > 0
    ensures v % unit <= v && (v - v % unit) % unit == 0
  {
    var r := unit * (v / unit);
    assert v - v % unit == r;
    assert r == unit * (r / unit) + r % unit;
    SmallMultipleIsZero(v / unit - r / unit, unit);
  }

  lemma SmallMultipleIsZero(d: int, unit: nat)
    ensures 0 <= unit * d < unit ==> d == 0
  {
    if d >= 1 {
      assert unit * d >= unit;
    } else if d <= -1 {
      assert unit * d <= unit * -1;
    }
  }

  lemma {:induction false} TimesMonotone(a: nat, b: nat, x: nat)
    requires a <= b
    ensures a * x <= b * x
  {
  }

  // ---- Sequences of bytes ----

  function Fill(value: u8, n: nat): (s: seq<u8>)
    ensures |s| == n
    ensures forall i :: 0 <= i < n ==> s[i] == value
  {
    seq(n, _ => value)
  }

  function Zeros(n: nat): (z: seq<u8>)
    ensures |z| == n
    ensures forall i :: 0 <= i < n ==> z[i] == 0
  {
    Fill(0, n)
  }

  function Reversed<T>(s: seq<T>): (r: seq<T>)
    ensures |r| == |s|
    ensures forall i :: 0 <= i < |s| ==> r[i] == s[|s| - 1 - i]
  {
    seq(|s|, i requires 0 <= i < |s| => s[|s| - 1 - i])
  }

  lemma ReversedTwice<T>(s: seq<T>)
    ensures Reversed(Reversed(s)) == s
  {
  }

  lemma TakeOfAppend<T>(s: seq<T>, t: seq<T>, k: nat)
    requires k <= |s|
    ensures (s + t)[..k] == s[..k]
  {
  }

  lemma TakeOneMore<T>(s: seq<T>, k: nat)
    requires k < |s|
    ensures s[..k + 1] == s[..k] + [s[k]]
  {
  }

  lemma AppendIsAssociative<T>(s: seq<T>, t: seq<T>, u: seq<T>)
    ensures s + (t + u) == s + t + u
  {
  }

  lemma TakeOfTake<T>(s: seq<T>, n: nat, k: nat)
    requires k <= n <= |s|
    ensures s[..n][..k] == s[..k]
  {
  }
}
