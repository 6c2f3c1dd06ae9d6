/** Which codes the encoder chooses, where it splits them, and which of the two layouts it writes. */
module BlzParse {
  import opened Bytes
  import opened BlzFormat
  import opened BlzMatch

  // ---- Choosing codes: lazy matching with one byte of look-ahead ----

  function Worth(len: nat): nat {
    if len <= MATCH_THRESHOLD then 1 else len
  }

  /** Deferring the match at `pos` by one byte covers at least as much as taking it. */
  predicate Defers(data: seq<u8>, pos: nat, len: nat)
    requires pos + len < |data|
  {
    len + Worth(Longest(data, pos + len).0) <= 1 + Worth(Longest(data, pos + 1).0)
  }

  /** Match length emitted at `pos`; anything of `MATCH_THRESHOLD` or less means a literal. */
  function LazyLen(data: seq<u8>, pos: nat, len: nat): nat
    requires pos < |data|
  {
    if len > MATCH_THRESHOLD && pos + len < |data| && Defers(data, pos, len) then 1 else len
  }

  /** The code emitted at `pos`. */
  function Choose(data: seq<u8>, pos: nat): (c: Code)
    requires pos < |data|
    ensures SoundAt(c, data, pos)
  {
    LongestIsBest(data, pos);
    var best := Longest(data, pos);
    var len := LazyLen(data, pos, best.0);
    if len > MATCH_THRESHOLD then Ref(len, best.1) else Lit(data[pos])
  }

  /** The choice at every position; a parse visits some of them. */
  function Choices(data: seq<u8>): (choices: seq<Code>)
    ensures Sound(choices, data)
    ensures forall i :: 0 <= i < |data| ==> choices[i] == Choose(data, i)
  {
    seq(|data|, i requires 0 <= i < |data| => Choose(data, i))
  }

  /** Every choice stands for data it can reproduce from what precedes it. */
  predicate Sound(choices: seq<Code>, data: seq<u8>) {
    |choices| == |data| && forall i :: 0 <= i < |choices| ==> SoundAt(choices[i], data, i)
  }

  predicate SoundAt(c: Code, data: seq<u8>, pos: nat) {
    Encodable(c) && 0 < Span(c) && pos + Span(c) <= |data| &&
    if c.Lit? then c.b == data[pos] else IsMatch(data, pos, c.len, c.dist)
  }

  /** The codes met from `pos` to the end, each choice skipping over the data it stands for. */
  function ParseFrom(choices: seq<Code>, pos: nat): (codes: seq<Code>)
    requires pos <= |choices|
    requires forall i :: 0 <= i < |choices| ==> 0 < Span(choices[i]) <= |choices| - i
    decreases |choices| - pos
  {
    if pos == |choices| then []
    else [choices[pos]] + ParseFrom(choices, pos + Span(choices[pos]))
  }

  /** Every code the encoder emits for `data`. */
  function Parse(data: seq<u8>): seq<Code> {
    var choices := Choices(data);
    assert forall i :: 0 <= i < |choices| ==> SoundAt(choices[i], data, i);
    ParseFrom(choices, 0)
  }

  lemma {:induction false} RepeatCopies(data: seq<u8>, pos: nat, len: nat, dist: nat)
    requires 1 <= dist <= pos && pos + len <= |data|
    requires forall k :: pos <= k < pos + len ==> data[k] == data[k - dist]
    ensures Repeat(data[..pos], len, dist) == data[..pos + len]
    decreases len
  {
    if len > 0 {
      assert data[..pos + 1] == data[..pos] + [data[..pos][pos - dist]];
      RepeatCopies(data, pos + 1, len - 1, dist);
    }
  }

  /** The codes stand for exactly the first `pos` bytes of the data. */
  ghost predicate Decodes(codes: seq<Code>, data: seq<u8>, pos: nat) {
    pos <= |data| && WellFormed(codes) && Expand(codes) == data[..pos]
  }

  lemma {:induction false} SoundDecodes(codes: seq<Code>, c: Code, data: seq<u8>, pos: nat)
    requires Decodes(codes, data, pos) && SoundAt(c, data, pos)
    ensures Decodes(codes + [c], data, pos + Span(c))
  {
    TakeOfAppend(codes, [c], |codes|);
    assert codes[..|codes|] == codes;
    match c
    case Lit(b) => assert data[..pos + 1] == data[..pos] + [b];
    case Ref(len, dist) => RepeatCopies(data, pos, len, dist);
  }

  /** `all[..n]` has been emitted for the data before `pos`, and `all[n..]` is still to come. */
  ghost predicate Emitted(all: seq<Code>, n: nat, choices: seq<Code>, data: seq<u8>, pos: nat)
    requires Sound(choices, data)
  {
    n <= |all| && pos <= |data| && all[n..] == ParseFrom(choices, pos) && Decodes(all[..n], data, pos)
  }

  lemma {:induction false} EmittedStep(all: seq<Code>, n: nat, choices: seq<Code>, data: seq<u8>, pos: nat)
    requires Sound(choices, data) && Emitted(all, n, choices, data, pos) && pos < |data|
    ensures n < |all| && all[n] == choices[pos] && all[..n + 1] == all[..n] + [choices[pos]]
    ensures Emitted(all, n + 1, choices, data, pos + Span(choices[pos]))
  {
    var c := choices[pos];
    assert all[n] == all[n..][0] == c;
    assert all[..n + 1] == all[..n] + [c];
    assert all[n + 1..] == all[n..][1..] == ParseFrom(choices, pos + Span(c));
    SoundDecodes(all[..n], c, data, pos);
  }

  lemma {:induction false} EmittedToEnd(all: seq<Code>, n: nat, choices: seq<Code>, data: seq<u8>, pos: nat)
    requires Sound(choices, data) && Emitted(all, n, choices, data, pos)
    ensures Decodes(all, data, |data|)
    decreases |data| - pos
  {
    if pos < |data| {
      EmittedStep(all, n, choices, data, pos);
      EmittedToEnd(all, n + 1, choices, data, pos + Span(choices[pos]));
    } else {
      assert |all[n..]| == 0;
      assert all[..n] == all;
    }
  }

  lemma {:induction false} NothingEmitted(data: seq<u8>)
    ensures Emitted(Parse(data), 0, Choices(data), data, 0)
  {
    var all := Parse(data);
    assert all[0..] == all && all[..0] == [] && data[..0] == [];
  }

  /** Every boundary of the parse is reached with exactly the data before it emitted. */
  lemma {:induction false} EmittedReaches(all: seq<Code>, n: nat, choices: seq<Code>, data: seq<u8>)
    requires Sound(choices, data) && Emitted(all, 0, choices, data, 0) && n <= |all|
    ensures Emitted(all, n, choices, data, Total(all[..n]))
  {
    if n > 0 {
      EmittedReaches(all, n - 1, choices, data);
      assert all[n - 1..][0] == all[n - 1];
      EmittedStep(all, n - 1, choices, data, Total(all[..n - 1]));
      TakeOfTake(all, n, n - 1);
    }
  }

  /** What the parse is, boundary by boundary: it stops at the end, and each code is the choice there. */
  lemma {:induction false} ParseAt(data: seq<u8>, n: nat)
    requires n <= |Parse(data)|
    ensures var codes := Parse(data);
      var pos := Total(codes[..n]);
      pos <= |data| && (n == |codes| <==> pos == |data|) &&
      (n < |codes| ==> codes[n] == Choose(data, pos) && Total(codes[..n + 1]) == pos + Span(codes[n]))
    ensures WellFormed(Parse(data)[..n])
  {
    var codes, choices := Parse(data), Choices(data);
    NothingEmitted(data);
    EmittedReaches(codes, n, choices, data);
    var pos := Total(codes[..n]);
    assert |codes[n..]| == |codes| - n;
    if pos < |data| {
      EmittedStep(codes, n, choices, data, pos);
      TakeOfTake(codes, n + 1, n);
    }
  }

  /**
   * Whatever the lazy matcher decides, the codes before any boundary decode to exactly the prefix
   * of the data they were emitted for.
   */
  lemma {:induction false} AnyPrefixDecodes(data: seq<u8>, n: nat)
    requires n <= |Parse(data)|
    ensures Total(Parse(data)[..n]) <= |data| == Total(Parse(data))
    ensures Decodes(Parse(data)[..n], data, Total(Parse(data)[..n]))
  {
    NothingEmitted(data);
    EmittedToEnd(Parse(data), 0, Choices(data), data, 0);
    PrefixOfDecoded(Parse(data), data, n);
  }

  lemma {:induction false} PrefixOfDecoded(codes: seq<Code>, data: seq<u8>, n: nat)
    requires Decodes(codes, data, |data|) && n <= |codes|
    ensures Total(codes) == |data|
    ensures Decodes(codes[..n], data, Total(codes[..n]))
  {
    WellFormedPrefix(codes, n);
    PrefixExpands(codes, n);
    assert data[..|data|] == data;
  }

  lemma {:induction false} PrefixExpands(codes: seq<Code>, n: nat)
    requires WellFormed(codes) && n <= |codes|
    ensures WellFormed(codes[..n]) && Total(codes[..n]) <= Total(codes)
    ensures Expand(codes[..n]) == Expand(codes)[..Total(codes[..n])]
    decreases |codes|
  {
    WellFormedPrefix(codes, n);
    if n < |codes| {
      var init := codes[..|codes| - 1];
      PrefixExpands(init, n);
      TakeOfTake(codes, |codes| - 1, n);
      TakeOfTake(Expand(codes), Total(init), Total(codes[..n]));
    } else {
      assert codes[..n] == codes;
    }
  }

  // ---- Splitting: where packed bytes plus still-raw bytes is smallest ----

  /** Bytes stored when the first `n` codes are packed and the rest of `len` bytes stay raw. */
  function Cost(codes: seq<Code>, len: nat, n: nat): int
    requires n <= |codes|
  {
    Size(codes[..n]) + len - Total(codes[..n])
  }

  /** The first split among `0..=n` of least cost. */
  function Split(codes: seq<Code>, len: nat, n: nat): (best: nat)
    requires n <= |codes|
    ensures best <= n
    decreases n
  {
    if n == 0 then 0
    else
      var best := Split(codes, len, n - 1);
      if Cost(codes, len, n) < Cost(codes, len, best) then n else best
  }

  lemma {:induction false} SplitIsLeast(codes: seq<Code>, len: nat, n: nat, m: nat)
    requires m <= n <= |codes|
    ensures Cost(codes, len, Split(codes, len, n)) <= Cost(codes, len, m)
    ensures m < Split(codes, len, n) ==> Cost(codes, len, Split(codes, len, n)) < Cost(codes, len, m)
    decreases n
  {
    if m < n {
      SplitIsLeast(codes, len, n - 1, m);
    } else if n > 0 {
      SplitIsLeast(codes, len, n - 1, n - 1);
    }
  }

  // ---- Layouts ----

  /** Bytes of `0xFF` that bring `end` to a 4-byte boundary. */
  function Padding(end: nat): (p: nat)
    ensures p < 4 && (end + p) % 4 == 0
  {
    (4 - end % 4) % 4
  }

  /** Size of the trailer, alignment padding included. */
  function HeaderSize(end: nat): nat {
    FOOTER_SIZE + Padding(end)
  }

  /** The saving exceeds the padded trailer, so `extra_len` can be recorded and is not zero. */
  predicate TrailerFits(len: nat, packed: nat, remaining: nat) {
    len - packed - remaining > HeaderSize(remaining + packed)
  }

  function StoredForm(data: seq<u8>): seq<u8> {
    data + Zeros(Padding(|data|)) + Le32(0)
  }

  function Footer(len: nat, packed: nat, remaining: nat): (f: seq<u8>)
    requires len < 0xFFFF_FFFF && TrailerFits(len, packed, remaining)
    ensures |f| == FOOTER_SIZE
  {
    var header := HeaderSize(remaining + packed);
    Le32(packed + header) + Le32(header) + Le32(len - packed - remaining - header)
  }

  function PackedForm(data: seq<u8>, region: seq<u8>, remaining: nat): seq<u8>
    requires |data| < 0xFFFF_FFFF && remaining <= |data| && TrailerFits(|data|, |region|, remaining)
  {
    data[..remaining] + region + Fill(0xFF, Padding(remaining + |region|)) + Footer(|data|, |region|, remaining)
  }

  /** The split `compress` settles on, in decode order. */
  function BestSplit(data: seq<u8>): (n: nat)
    ensures n <= |Parse(Reversed(data))|
  {
    var codes := Parse(Reversed(data));
    Split(codes, |data|, |codes|)
  }

  /** Bytes of packed region kept. */
  function PackedLen(data: seq<u8>): nat {
    Size(Parse(Reversed(data))[..BestSplit(data)])
  }

  /** Bytes of raw prefix kept. */
  function RemainingLen(data: seq<u8>): (r: nat)
    ensures r <= |data|
  {
    AnyPrefixDecodes(Reversed(data), BestSplit(data));
    |data| - Total(Parse(Reversed(data))[..BestSplit(data)])
  }

  /** `out` is what `compress` produces for `data`. */
  ghost predicate IsCompressed(data: seq<u8>, out: seq<u8>)
    requires |data| < 0xFFFF_FFFF
  {
    if TrailerFits(|data|, PackedLen(data), RemainingLen(data)) then
      exists stream: seq<u8> ::
        IsPacked(data, stream, out)
    else
      out == StoredForm(data)
  }

  ghost predicate IsPacked(data: seq<u8>, stream: seq<u8>, out: seq<u8>)
    requires |data| < 0xFFFF_FFFF && TrailerFits(|data|, PackedLen(data), RemainingLen(data))
  {
    CarriesOnly(stream, Parse(Reversed(data))) && PackedLen(data) <= |stream| &&
    out == PackedForm(data, Reversed(stream[..PackedLen(data)]), RemainingLen(data))
  }

  // ---- Facts about the choice of layout ----

  /** The split never does worse than packing nothing or packing everything. */
  lemma {:induction false} SplitBounds(data: seq<u8>)
    ensures var codes := Parse(Reversed(data));
      PackedLen(data) + RemainingLen(data) <= |data| && PackedLen(data) + RemainingLen(data) <= Size(codes)
  {
    var codes := Parse(Reversed(data));
    AnyPrefixDecodes(Reversed(data), |codes|);
    assert codes[..|codes|] == codes && codes[..0] == [];
    SplitIsLeast(codes, |data|, |codes|, 0);
    SplitIsLeast(codes, |data|, |codes|, |codes|);
  }

  /**
   * The three-way test the encoder makes is the trailer test alone: an empty packed region never
   * fits a trailer, and a layout that fits one is never larger than storing. The mask is a 32-bit
   * constant, so it also clears bits above the 32nd; the test comes out the same.
   */
  lemma {:induction false} PackedExactlyWhenTrailerFits(data: seq<u8>)
    requires |data| < 0xFFFF_FFFF
    ensures var packed, remaining := PackedLen(data), RemainingLen(data);
      (packed == 0 || !TrailerFits(|data|, packed, remaining) ||
       |data| + 4 < (packed + remaining + 3) / 4 * 4 % 0x1_0000_0000 + 8)
      <==> !TrailerFits(|data|, packed, remaining)
  {
    SplitBounds(data);
    if PackedLen(data) == 0 {
      NothingPacked(data);
    }
  }

  lemma {:induction false} NothingPacked(data: seq<u8>)
    requires PackedLen(data) == 0
    ensures RemainingLen(data) == |data|
  {
    var codes, n := Parse(Reversed(data)), BestSplit(data);
    if n > 0 {
      SizeMonotone(codes, 0, n);
    }
    assert codes[..0] == [];
  }

  lemma {:induction false} PaddingAligns(end: nat)
    ensures end + Padding(end) == AlignUp(end, 4)
    ensures (end + Padding(end) + 4) % 4 == 0 && (end + Padding(end) + FOOTER_SIZE) % 4 == 0
  {
    assert (end + 3) % 4 == if end % 4 == 0 then 3 else end % 4 - 1;
  }

  /** Length of either form: a multiple of four, and at most the stored form's. */
  lemma {:induction false} CompressedLength(data: seq<u8>, out: seq<u8>)
    requires |data| < 0xFFFF_FFFF && IsCompressed(data, out)
    ensures |out| % 4 == 0 && |out| <= AlignUp(|data|, 4) + 4
    ensures if TrailerFits(|data|, PackedLen(data), RemainingLen(data)) then |out| < |data|
            else |out| == AlignUp(|data|, 4) + 4
  {
    if TrailerFits(|data|, PackedLen(data), RemainingLen(data)) {
      var stream :| IsPacked(data, stream, out);
      PackedFormLength(data, Reversed(stream[..PackedLen(data)]), RemainingLen(data));
    } else {
      StoredFormLength(data);
    }
  }

  lemma {:induction false} StoredFormLength(data: seq<u8>)
    ensures |StoredForm(data)| == AlignUp(|data|, 4) + 4 && |StoredForm(data)| % 4 == 0
  {
    PaddingAligns(|data|);
  }

  lemma {:induction false} PackedFormLength(data: seq<u8>, region: seq<u8>, remaining: nat)
    requires |data| < 0xFFFF_FFFF && remaining <= |data| && TrailerFits(|data|, |region|, remaining)
    ensures |PackedForm(data, region, remaining)| == AlignUp(remaining + |region|, 4) + FOOTER_SIZE < |data|
    ensures |PackedForm(data, region, remaining)| % 4 == 0
  {
    var end := remaining + |region|;
    PaddingAligns(end);
    assert |PackedForm(data, region, remaining)| == end + Padding(end) + FOOTER_SIZE;
  }
}
