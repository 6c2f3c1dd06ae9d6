/** Byte strings laid end to end, and little-endian words read back out of them. */
module Packing {
  import opened Bytes

  // ---- Parts laid end to end ----

  function Concat(parts: seq<seq<u8>>): seq<u8> {
    if parts == [] then [] else Concat(parts[..|parts| - 1]) + parts[|parts| - 1]
  }

  /** Where part `i` starts. */
  function StartOf(parts: seq<seq<u8>>, i: nat): nat
    requires i <= |parts|
  {
    |Concat(parts[..i])|
  }

  lemma {:induction false} ConcatSnoc(parts: seq<seq<u8>>, p: seq<u8>)
    ensures Concat(parts + [p]) == Concat(parts) + p
  {
    TakeOfAppend(parts, [p], |parts|);
    assert parts[..|parts|] == parts;
  }

  /** Each part is found whole at its start. */
  lemma {:induction false} PartInConcat(parts: seq<seq<u8>>, i: nat)
    requires i < |parts|
    ensures StartOf(parts, i) + |parts[i]| == StartOf(parts, i + 1) <= |Concat(parts)|
    ensures Concat(parts)[StartOf(parts, i)..StartOf(parts, i + 1)] == parts[i]
    decreases |parts|
  {
    var n := |parts| - 1;
    TakeOneMore(parts, i);
    ConcatSnoc(parts[..i], parts[i]);
    if i < n {
      PartInConcat(parts[..n], i);
      TakeOfTake(parts, n, i);
      TakeOfTake(parts, n, i + 1);
      SliceOfAppend(Concat(parts[..n]), parts[n], StartOf(parts, i), StartOf(parts, i + 1));
    } else {
      assert parts[..i + 1] == parts;
    }
  }

  /** Parts of one size start at its multiples. */
  lemma {:induction false} EqualPartsStart(parts: seq<seq<u8>>, size: nat, i: nat)
    requires i <= |parts| && forall k :: 0 <= k < |parts| ==> |parts[k]| == size
    ensures StartOf(parts, i) == size * i
  {
    if i > 0 {
      EqualPartsStart(parts, size, i - 1);
      PartInConcat(parts, i - 1);
      assert size * i == size * (i - 1) + size;
    }
  }

  lemma {:induction false} ConcatAtMost(parts: seq<seq<u8>>, most: nat)
    requires forall k :: 0 <= k < |parts| ==> |parts[k]| <= most
    ensures |Concat(parts)| <= |parts| * most
  {
    if parts != [] {
      var n := |parts| - 1;
      ConcatAtMost(parts[..n], most);
      assert (n + 1) * most == n * most + most;
    }
  }

  lemma {:induction false} EqualPartAt(parts: seq<seq<u8>>, size: nat, i: nat)
    requires i < |parts| && forall k :: 0 <= k < |parts| ==> |parts[k]| == size
    ensures size * i + size <= |Concat(parts)| == size * |parts|
    ensures Concat(parts)[size * i..size * i + size] == parts[i]
  {
    hide Concat;
    EqualPartsStart(parts, size, i);
    EqualPartsStart(parts, size, |parts|);
    PartInConcat(parts, i);
    assert parts[..|parts|] == parts;
  }

  lemma {:induction false} SliceOfAppend(a: seq<u8>, b: seq<u8>, lo: nat, hi: nat)
    requires lo <= hi <= |a|
    ensures (a + b)[lo..hi] == a[lo..hi]
  {
  }

  /** Zeros up to the next multiple of `unit`. */
  function PadTo(b: seq<u8>, unit: nat): (r: seq<u8>)
    requires unit > 0
    ensures |r| == AlignUp(|b|, unit) && r[..|b|] == b
  {
    b + Zeros(AlignUp(|b|, unit) - |b|)
  }

  /** Padding is zeros, and none is added to a whole number of units. */
  lemma {:induction false} PaddingInNumbers(b: seq<u8>, unit: nat)
    requires unit > 0
    ensures var r := PadTo(b, unit); (forall k :: |b| <= k < |r| ==> r[k] == 0) && |r| < |b| + unit && |r| % unit == 0
    ensures |b| % unit == 0 ==> PadTo(b, unit) == b
  {
    if |b| % unit == 0 {
      var r := PadTo(b, unit);
      var q, p := |b| / unit, |r| / unit;
      assert |b| == unit * q && |r| == unit * p;
      assert unit * (p - q) == |r| - |b|;
      SmallMultipleIsZero(p - q, unit);
    }
  }

  // ---- Words ----

  function Words(ws: seq<u32>): (b: seq<u8>)
    ensures |b| == 4 * |ws|
  {
    if ws == [] then [] else Words(ws[..|ws| - 1]) + Le32(ws[|ws| - 1])
  }

  function U32At(b: seq<u8>, at: nat): u32
    requires at + 4 <= |b|
  {
    FromLe32(b[at..at + 4])
  }

  function U64At(b: seq<u8>, at: nat): u64
    requires at + 8 <= |b|
  {
    FromLe64(b[at..at + 8])
  }

  /** The least significant byte comes first, and the less significant word. */
  lemma {:induction false} LeastFirst(b: seq<u8>, at: nat)
    requires at + 8 <= |b|
    ensures var b0: int, b1: int, b2: int, b3: int := b[at], b[at + 1], b[at + 2], b[at + 3];
      U32At(b, at) == b0 + 0x100 * b1 + 0x1_0000 * b2 + 0x100_0000 * b3
    ensures var low: int, high: int := U32At(b, at), U32At(b, at + 4); U64At(b, at) == low + 0x1_0000_0000 * high
  {
    assert b[at..at + 8][..4] == b[at..at + 4] && b[at..at + 8][4..] == b[at + 4..at + 8];
  }

  /** A 64-bit value as its two words, low first. */
  function Halves(x: u64): (ws: seq<u32>)
    ensures |ws| == 2
  {
    [x % 0x1_0000_0000, x / 0x1_0000_0000]
  }

  lemma {:induction false} WordsSnoc(ws: seq<u32>, w: u32)
    ensures Words(ws + [w]) == Words(ws) + Le32(w)
  {
    TakeOfAppend(ws, [w], |ws|);
    assert ws[..|ws|] == ws;
  }

  lemma {:induction false} WordInWords(ws: seq<u32>, k: nat)
    requires k < |ws|
    ensures Words(ws)[4 * k..4 * k + 4] == Le32(ws[k])
  {
    var n := |ws| - 1;
    if k < n {
      WordInWords(ws[..n], k);
      SliceOfAppend(Words(ws[..n]), Le32(ws[n]), 4 * k, 4 * k + 4);
    }
  }

  /** Words written at `at` read back as themselves. */
  lemma {:induction false} WordReads(b: seq<u8>, at: nat, ws: seq<u32>, k: nat)
    requires at + 4 * |ws| <= |b| && b[at..at + 4 * |ws|] == Words(ws) && k < |ws|
    ensures U32At(b, at + 4 * k) == ws[k]
  {
    WordInWords(ws, k);
    SliceOfSlice(b, at, at + 4 * |ws|, 4 * k, 4 * k + 4);
    Le32RoundTrip(ws[k]);
  }

  /** And two consecutive words as the 64-bit value they halve. */
  lemma {:induction false} DoubleWordReads(b: seq<u8>, at: nat, ws: seq<u32>, k: nat, x: u64)
    requires at + 4 * |ws| <= |b| && b[at..at + 4 * |ws|] == Words(ws) && k + 1 < |ws|
    requires ws[k] == Halves(x)[0] && ws[k + 1] == Halves(x)[1]
    ensures U64At(b, at + 4 * k) == x
  {
    WordInWords(ws, k);
    WordInWords(ws, k + 1);
    SliceOfSlice(b, at, at + 4 * |ws|, 4 * k, 4 * k + 4);
    SliceOfSlice(b, at, at + 4 * |ws|, 4 * k + 4, 4 * k + 8);
    var s := b[at + 4 * k..at + 4 * k + 8];
    SliceOfSlice(b, at + 4 * k, at + 4 * k + 8, 0, 4);
    SliceOfSlice(b, at + 4 * k, at + 4 * k + 8, 4, 8);
    assert s[..4] == s[0..4] && s[4..] == s[4..8];
    Le64Halves(s, x);
  }

  // ---- 64-bit values in a row ----

  function Longs(xs: seq<u64>): (b: seq<u8>)
    ensures |b| == 8 * |xs|
  {
    if xs == [] then [] else Longs(xs[..|xs| - 1]) + Le64(xs[|xs| - 1])
  }

  lemma {:induction false} LongInLongs(xs: seq<u64>, k: nat)
    requires k < |xs|
    ensures Longs(xs)[8 * k..8 * k + 8] == Le64(xs[k])
  {
    hide Le64;
    var n := |xs| - 1;
    if k < n {
      LongInLongs(xs[..n], k);
      SliceOfAppend(Longs(xs[..n]), Le64(xs[n]), 8 * k, 8 * k + 8);
    }
  }

  lemma {:induction false} LongReads(b: seq<u8>, at: nat, xs: seq<u64>, k: nat)
    requires at + 8 * |xs| <= |b| && b[at..at + 8 * |xs|] == Longs(xs) && k < |xs|
    ensures U64At(b, at + 8 * k) == xs[k]
  {
    hide Le64, FromLe64;
    LongInLongs(xs, k);
    SliceOfSlice(b, at, at + 8 * |xs|, 8 * k, 8 * k + 8);
    Le64RoundTrip(xs[k]);
  }

  lemma {:induction false} SliceOfSlice(b: seq<u8>, lo: nat, hi: nat, x: nat, y: nat)
    requires lo <= hi <= |b| && x <= y <= hi - lo
    ensures b[lo..hi][x..y] == b[lo + x..lo + y]
  {
    var s, t := b[lo..hi][x..y], b[lo + x..lo + y];
    forall k | 0 <= k < y - x
      ensures s[k] == t[k]
    {
      assert s[k] == b[lo..hi][x + k];
    }
  }

  lemma {:induction false} Le64Halves(b: seq<u8>, x: u64)
    requires |b| == 8 && b[..4] == Le32(Halves(x)[0]) && b[4..] == Le32(Halves(x)[1])
    ensures FromLe64(b) == x
  {
    Le32RoundTrip(Halves(x)[0]);
    Le32RoundTrip(Halves(x)[1]);
  }

  // ---- Finding parts in a whole ----

  /** `part` lies at `at`. */
  ghost predicate Holds(b: seq<u8>, at: nat, part: seq<u8>) {
    at + |part| <= |b| && b[at..at + |part|] == part
  }

  lemma {:induction false} HoldsPart(b: seq<u8>, at: nat, whole: seq<u8>, off: nat, part: seq<u8>)
    requires Holds(b, at, whole) && off + |part| <= |whole| && whole[off..off + |part|] == part
    ensures Holds(b, at + off, part)
  {
    SliceOfSlice(b, at, at + |whole|, off, off + |part|);
  }

  /** A part found anywhere in a run of parts. */
  lemma {:induction false} HoldsMiddle(b: seq<u8>, at: nat, front: seq<u8>, part: seq<u8>, back: seq<u8>)
    requires Holds(b, at, front + part + back)
    ensures Holds(b, at, front + part) && Holds(b, at, front) && Holds(b, at + |front|, part) && Holds(b, at + |front| + |part|, back)
  {
    var whole := front + part + back;
    assert whole[0..|front + part|] == front + part && whole[0..|front|] == front;
    assert whole[|front|..|front| + |part|] == part && whole[|front + part|..|whole|] == back;
    HoldsPart(b, at, whole, 0, front + part);
    HoldsPart(b, at, whole, 0, front);
    HoldsPart(b, at, whole, |front|, part);
    HoldsPart(b, at, whole, |front| + |part|, back);
  }

  lemma {:induction false} PartsRead(b: seq<u8>, at: nat, parts: seq<seq<u8>>, size: nat, i: nat)
    requires Holds(b, at, Concat(parts)) && i < |parts| && forall k :: 0 <= k < |parts| ==> |parts[k]| == size
    ensures Holds(b, at + size * i, parts[i])
  {
    hide Concat;
    EqualPartAt(parts, size, i);
    HoldsPart(b, at, Concat(parts), size * i, parts[i]);
  }

  lemma {:induction false} HoldsLength(b: seq<u8>, at: nat, part: seq<u8>)
    requires Holds(b, at, part)
    ensures at + |part| <= |b|
  {
  }
}
