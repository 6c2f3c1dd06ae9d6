/**
 * The BLZ stream format: what a list of codes stands for, how many bytes it packs into, and which
 * bytes carry it.
 *
 * Everything here is written in decode order, the order in which both halves of the codec work:
 * the input reversed, and the packed region read from its last byte to its first.
 */
module BlzFormat {
  import opened Bytes

  /** A match of this length or less is not worth a back-reference. */
  const MATCH_THRESHOLD := 2
  const MIN_MATCH := MATCH_THRESHOLD + 1
  const MAX_MATCH := 16 + MATCH_THRESHOLD
  const MAX_OFFSET := 0x1002
  const FOOTER_SIZE := 12

  /** A literal byte, or `len` bytes repeated from `dist` bytes back. */
  datatype Code = Lit(b: u8) | Ref(len: nat, dist: nat)

  /** The bounds a two-byte back-reference can express. */
  predicate Encodable(c: Code) {
    c.Ref? ==> MIN_MATCH <= c.len <= MAX_MATCH && MIN_MATCH <= c.dist <= MAX_OFFSET
  }

  /** Bytes of payload a code takes in the stream. */
  function Width(c: Code): nat {
    if c.Lit? then 1 else 2
  }

  /** Bytes of data a code stands for. */
  function Span(c: Code): nat {
    if c.Lit? then 1 else c.len
  }

  // ---- Lists of codes, grown at the end as both halves of the codec grow them ----

  /** Packed size: the payloads, and one flag byte ahead of every eighth code. */
  function Size(codes: seq<Code>): nat {
    if codes == [] then 0
    else
      var n := |codes| - 1;
      Size(codes[..n]) + FlagWidth(n) + Width(codes[n])
  }

  /** First slot of the group of eight that slot `n` belongs to. */
  function Group(n: nat): (g: nat)
    ensures g <= n < g + 8
  {
    n / 8 * 8
  }

  function FlagWidth(n: nat): nat {
    if n == Group(n) then 1 else 0
  }

  /** Number of bytes the codes stand for. */
  function Total(codes: seq<Code>): nat {
    if codes == [] then 0
    else Total(codes[..|codes| - 1]) + Span(codes[|codes| - 1])
  }

  /** Every code is encodable and reaches back no further than what precedes it. */
  predicate WellFormed(codes: seq<Code>) {
    codes == [] ||
    var n := |codes| - 1;
    WellFormed(codes[..n]) && Encodable(codes[n]) && (codes[n].Ref? ==> codes[n].dist <= Total(codes[..n]))
  }

  /** Append `len` bytes to `s`, each the byte `dist` back from where it lands. */
  function Repeat(s: seq<u8>, len: nat, dist: nat): (r: seq<u8>)
    requires 1 <= dist <= |s|
    ensures |r| == |s| + len && r[..|s|] == s
    decreases len
  {
    if len == 0 then s else Repeat(s + [s[|s| - dist]], len - 1, dist)
  }

  function Append(s: seq<u8>, c: Code): (r: seq<u8>)
    requires Encodable(c) && (c.Ref? ==> c.dist <= |s|)
    ensures |r| == |s| + Span(c) && r[..|s|] == s
  {
    match c
    case Lit(b) => s + [b]
    case Ref(len, dist) => Repeat(s, len, dist)
  }

  /** The data a list of codes stands for: the out-of-place decoder. */
  function Expand(codes: seq<Code>): (r: seq<u8>)
    requires WellFormed(codes)
    ensures |r| == Total(codes)
  {
    if codes == [] then []
    else Append(Expand(codes[..|codes| - 1]), codes[|codes| - 1])
  }

  // ---- Bytes that carry a list of codes ----

  /** Bit `k` of a flag byte, counting from the least significant. */
  predicate TestBit(flags: nat, k: nat)
    decreases k
  {
    if k == 0 then flags % 2 == 1 else TestBit(flags / 2, k - 1)
  }

  function FlagIndex(codes: seq<Code>, i: nat): nat
    requires i < |codes|
  {
    Size(codes[..Group(i)])
  }

  function PayloadIndex(codes: seq<Code>, i: nat): nat
    requires i < |codes|
  {
    Size(codes[..i]) + FlagWidth(i)
  }

  /**
   * Which bit of its flag byte holds code `i`'s flag once flags up to slot `top` have been shifted
   * in. In a finished group the flags run from the most significant bit down.
   */
  function BitIndex(i: nat, top: nat): nat
    requires i <= top
  {
    if Group(i) + 7 <= top then Group(i) + 7 - i else top - i
  }

  predicate CarriesPayload(stream: seq<u8>, at: nat, c: Code) {
    Encodable(c) && at + Width(c) <= |stream| &&
    match c
    case Lit(b) => stream[at] == b
    case Ref(len, dist) =>
      stream[at] == (len - MIN_MATCH) * 16 + (dist - MIN_MATCH) / 0x100 &&
      stream[at + 1] == (dist - MIN_MATCH) % 0x100
  }

  /** Code `c` has its flag in bit `bit` of the byte at `flag` and its payload at `at`. */
  predicate CarriesAt(stream: seq<u8>, flag: nat, bit: nat, at: nat, c: Code) {
    flag < |stream| && TestBit(stream[flag], bit) == c.Ref? && CarriesPayload(stream, at, c)
  }

  predicate CarriesCode(stream: seq<u8>, codes: seq<Code>, i: nat, top: nat)
    requires i < |codes| && i <= top
  {
    CarriesAt(stream, FlagIndex(codes, i), BitIndex(i, top), PayloadIndex(codes, i), codes[i])
  }

  /** `stream` carries `codes`, with flags shifted in up to slot `top`. */
  predicate CarriesUpTo(stream: seq<u8>, codes: seq<Code>, top: int) {
    |stream| == Size(codes) && |codes| <= top + 1 &&
    (forall i {:trigger CarriesCode(stream, codes, i, top)} ::
       0 <= i < |codes| ==> CarriesCode(stream, codes, i, top))
  }

  /** `stream` carries `codes`, every flag byte shifted home. */
  predicate Carries(stream: seq<u8>, codes: seq<Code>) {
    CarriesUpTo(stream, codes, |codes| + 7)
  }

  /** The lowest `n` bits are clear. */
  predicate LowClear(flags: nat, n: nat) {
    forall k :: 0 <= k < n ==> !TestBit(flags, k)
  }

  /** `stream` carries `codes`, and the flags past the last code's are clear. */
  ghost predicate CarriesOnly(stream: seq<u8>, codes: seq<Code>) {
    Carries(stream, codes) &&
    (codes != [] ==>
       var n := |codes| - 1;
       FlagIndex(codes, n) < |stream| && LowClear(stream[FlagIndex(codes, n)], Group(n) + 7 - n))
  }

  // ---- Lemmas ----

  lemma {:induction false} WellFormedPrefix(codes: seq<Code>, n: nat)
    requires WellFormed(codes) && n <= |codes|
    ensures WellFormed(codes[..n])
    decreases |codes|
  {
    if n < |codes| {
      WellFormedPrefix(codes[..|codes| - 1], n);
      assert codes[..|codes| - 1][..n] == codes[..n];
    } else {
      assert codes[..n] == codes;
    }
  }

  lemma {:induction false} WellFormedAt(codes: seq<Code>, n: nat)
    requires WellFormed(codes) && n < |codes|
    ensures WellFormed(codes[..n]) && WellFormed(codes[..n + 1]) && Encodable(codes[n])
    ensures codes[n].Ref? ==> codes[n].dist <= Total(codes[..n])
    ensures Total(codes[..n + 1]) == Total(codes[..n]) + Span(codes[n])
    ensures Expand(codes[..n + 1]) == Append(Expand(codes[..n]), codes[n])
  {
    WellFormedPrefix(codes, n + 1);
    assert codes[..n + 1][..n] == codes[..n];
  }

  lemma {:induction false} SizeAt(codes: seq<Code>, n: nat)
    requires n < |codes|
    ensures Size(codes[..n + 1]) == Size(codes[..n]) + FlagWidth(n) + Width(codes[n])
    ensures PayloadIndex(codes, n) + Width(codes[n]) == Size(codes[..n + 1])
  {
    assert codes[..n + 1][..n] == codes[..n];
  }

  lemma {:induction false} SizeMonotone(codes: seq<Code>, m: nat, n: nat)
    requires m <= n <= |codes|
    ensures Size(codes[..m]) <= Size(codes[..n])
    ensures m < n ==> Size(codes[..m]) + FlagWidth(m) + Width(codes[m]) <= Size(codes[..n])
    ensures Total(codes[..m]) <= Total(codes[..n])
    decreases n
  {
    if m < n {
      SizeMonotone(codes, m, n - 1);
      assert codes[..n][..n - 1] == codes[..n - 1];
    }
  }

  /**
   * Cutting a stream at a code boundary leaves a stream of the codes before the cut, even when the
   * cut falls inside a flag group whose byte already holds the flags of codes beyond it.
   */
  lemma {:induction false} CutAtBoundary(stream: seq<u8>, codes: seq<Code>, n: nat)
    requires Carries(stream, codes) && n <= |codes|
    ensures Size(codes[..n]) <= |stream|
    ensures Carries(stream[..Size(codes[..n])], codes[..n])
  {
    SizeMonotone(codes, n, |codes|);
    assert codes[..|codes|] == codes;
    var cut, kept := stream[..Size(codes[..n])], codes[..n];
    forall i {:trigger CarriesCode(cut, kept, i, n + 7)} | 0 <= i < n
      ensures CarriesCode(cut, kept, i, n + 7)
    {
      CutKeepsCode(stream, codes, n, i);
    }
  }

  lemma {:induction false} CutKeepsCode(stream: seq<u8>, codes: seq<Code>, n: nat, i: nat)
    requires i < n <= |codes| && Size(codes[..n]) <= |stream|
    requires CarriesCode(stream, codes, i, |codes| + 7)
    ensures CarriesCode(stream[..Size(codes[..n])], codes[..n], i, n + 7)
  {
    var g := Group(i);
    TakeOfTake(codes, n, g);
    TakeOfTake(codes, n, i);
    SizeMonotone(codes, g, i);
    SizeMonotone(codes, i, n);
    assert BitIndex(i, |codes| + 7) == BitIndex(i, n + 7);
  }

  /** A stream carries at most one list of codes, so decoding it is a function. */
  lemma {:induction false} CarriesIsFunctional(stream: seq<u8>, a: seq<Code>, b: seq<Code>, n: nat)
    requires Carries(stream, a) && Carries(stream, b)
    requires n <= |a| && n <= |b|
    ensures a[..n] == b[..n]
  {
    if n > 0 {
      CarriesIsFunctional(stream, a, b, n - 1);
      SamePrefixSameCode(stream, a, b, n - 1);
      assert a[..n] == a[..n - 1] + [a[n - 1]] && b[..n] == b[..n - 1] + [b[n - 1]];
    }
  }

  lemma {:induction false} SamePrefixSameCode(stream: seq<u8>, a: seq<Code>, b: seq<Code>, i: nat)
    requires Carries(stream, a) && Carries(stream, b)
    requires i < |a| && i < |b| && a[..i] == b[..i]
    ensures a[i] == b[i]
  {
    assert CarriesCode(stream, a, i, |a| + 7) && CarriesCode(stream, b, i, |b| + 7);
    var g := Group(i);
    assert a[..g] == a[..i][..g] && b[..g] == b[..i][..g];
    assert BitIndex(i, |a| + 7) == BitIndex(i, |b| + 7);
  }

  lemma {:induction false} CarriesOneList(stream: seq<u8>, a: seq<Code>, b: seq<Code>)
    requires Carries(stream, a) && Carries(stream, b)
    ensures a == b
  {
    if |a| <= |b| {
      ShorterIsWhole(stream, a, b);
    } else {
      ShorterIsWhole(stream, b, a);
    }
  }

  lemma {:induction false} ShorterIsWhole(stream: seq<u8>, a: seq<Code>, b: seq<Code>)
    requires Carries(stream, a) && Carries(stream, b) && |a| <= |b|
    ensures a == b
  {
    CarriesIsFunctional(stream, a, b, |a|);
    assert a[..|a|] == a && b[..|b|] == b;
    SizeMonotone(b, |a|, |b|);
  }

  // ---- One stream for one list ----

  lemma {:induction false} BitsDetermine(a: nat, b: nat, n: nat)
    requires forall k :: 0 <= k < n ==> TestBit(a, k) == TestBit(b, k)
    ensures n >= 1 ==> a % 2 == b % 2
    ensures n >= 1 ==> forall k :: 0 <= k < n - 1 ==> TestBit(a / 2, k) == TestBit(b / 2, k)
  {
    if n >= 1 {
      assert TestBit(a, 0) == TestBit(b, 0);
      forall k | 0 <= k < n - 1
        ensures TestBit(a / 2, k) == TestBit(b / 2, k)
      {
        assert TestBit(a, k + 1) == TestBit(b, k + 1);
      }
    }
  }

  /** Eight bits make a byte. */
  lemma {:induction false} SameByte(a: nat, b: nat, n: nat)
    requires forall k :: 0 <= k < n ==> TestBit(a, k) == TestBit(b, k)
    requires Bounded(a, n) && Bounded(b, n)
    ensures a == b
    decreases n
  {
    if n > 0 {
      BitsDetermine(a, b, n);
      SameByte(a / 2, b / 2, n - 1);
    }
  }

  /** `a` has at most `n` bits. */
  predicate Bounded(a: nat, n: nat)
    decreases n
  {
    if n == 0 then a == 0 else Bounded(a / 2, n - 1)
  }

  lemma {:induction false} ByteIsBounded(a: u8)
    ensures Bounded(a, 8)
  {
    assert Bounded(a / 128, 1);
    assert a / 2 / 2 / 2 / 2 / 2 / 2 / 2 == a / 128;
    assert Bounded(a / 2 / 2 / 2 / 2 / 2 / 2 / 2, 1);
    assert Bounded(a / 2 / 2 / 2 / 2, 4);
  }

  /** In a finished stream each flag byte is fixed by its group's codes. */
  lemma {:induction false} SameFlagByte(a: seq<u8>, b: seq<u8>, codes: seq<Code>, g: nat)
    requires CarriesOnly(a, codes) && CarriesOnly(b, codes) && g == Group(g) < |codes|
    ensures FlagIndex(codes, g) < |a| && FlagIndex(codes, g) < |b| && a[FlagIndex(codes, g)] == b[FlagIndex(codes, g)]
  {
    var x := FlagIndex(codes, g);
    assert CarriesCode(a, codes, g, |codes| + 7) && CarriesCode(b, codes, g, |codes| + 7);
    forall k | 0 <= k < 8
      ensures TestBit(a[x], k) == TestBit(b[x], k)
    {
      var i := g + 7 - k;
      SlotOfGroup(g, i);
      if i < |codes| {
        assert CarriesCode(a, codes, i, |codes| + 7) && CarriesCode(b, codes, i, |codes| + 7);
      } else {
        SlotOfGroup(g, |codes| - 1);
      }
    }
    ByteIsBounded(a[x]);
    ByteIsBounded(b[x]);
    SameByte(a[x], b[x], 8);
  }

  lemma {:induction false} SlotOfGroup(g: nat, i: nat)
    requires g == Group(g) && g <= i <= g + 7
    ensures Group(i) == g
  {
  }

  lemma {:induction false} SamePayload(a: seq<u8>, b: seq<u8>, at: nat, c: Code)
    requires CarriesPayload(a, at, c) && CarriesPayload(b, at, c)
    ensures a[at..at + Width(c)] == b[at..at + Width(c)]
  {
  }

  lemma {:induction false} SameStreamUpTo(a: seq<u8>, b: seq<u8>, codes: seq<Code>, n: nat)
    requires CarriesOnly(a, codes) && CarriesOnly(b, codes) && n <= |codes|
    ensures Size(codes[..n]) <= |a| && Size(codes[..n]) <= |b| && a[..Size(codes[..n])] == b[..Size(codes[..n])]
  {
    hide CarriesOnly, CarriesPayload, TestBit;
    if n > 0 {
      var m := n - 1;
      SameStreamUpTo(a, b, codes, m);
      SizeAt(codes, m);
      OneMoreCode(a, b, codes, m);
      var lo, at, hi := Size(codes[..m]), PayloadIndex(codes, m), Size(codes[..n]);
      assert a[..hi] == a[..lo] + a[lo..at] + a[at..hi];
      assert b[..hi] == b[..lo] + b[lo..at] + b[at..hi];
    }
  }

  lemma {:induction false} OneMoreCode(a: seq<u8>, b: seq<u8>, codes: seq<Code>, m: nat)
    requires CarriesOnly(a, codes) && CarriesOnly(b, codes) && m < |codes|
    ensures var lo, at, hi := Size(codes[..m]), PayloadIndex(codes, m), PayloadIndex(codes, m) + Width(codes[m]);
      hi <= |a| && hi <= |b| && a[lo..at] == b[lo..at] && a[at..hi] == b[at..hi]
  {
    assert CarriesCode(a, codes, m, |codes| + 7) && CarriesCode(b, codes, m, |codes| + 7);
    SamePayload(a, b, PayloadIndex(codes, m), codes[m]);
    if m == Group(m) {
      SameFlagByte(a, b, codes, m);
    }
  }

  /** A list of codes has one stream that carries it and nothing else. */
  lemma {:induction false} OneStream(a: seq<u8>, b: seq<u8>, codes: seq<Code>)
    requires CarriesOnly(a, codes) && CarriesOnly(b, codes)
    ensures a == b
  {
    SameStreamUpTo(a, b, codes, |codes|);
    assert codes[..|codes|] == codes && a[..|a|] == a && b[..|b|] == b;
  }
}
