/**
 * The two halves together: decoding in place, over the very buffer the packed bytes sit in, gives
 * what decoding out of place would, whenever the output cursor stays ahead of the input cursor -
 * and the encoder's choice of split is exactly what keeps it ahead.
 */
module BlzRoundTrip {
  import opened Bytes
  import opened BlzFormat
  import opened BlzStream
  import opened BlzDecode

  // ---- Flag bits ----

  lemma {:induction false} HighBit(flags: nat, h: nat)
    requires flags < Pow2(h + 1)
    ensures TestBit(flags, h) <==> flags >= Pow2(h)
  {
    if h > 0 {
      HighBit(flags / 2, h - 1);
    }
  }

  lemma {:induction false} DropHighBit(flags: nat, h: nat, k: nat)
    requires k < h && flags >= Pow2(h)
    ensures TestBit(flags - Pow2(h), k) == TestBit(flags, k)
  {
    assert Pow2(h) == 2 * Pow2(h - 1);
    if k > 0 {
      assert (flags - Pow2(h)) / 2 == flags / 2 - Pow2(h - 1);
      DropHighBit(flags / 2, h - 1, k - 1);
    }
  }

  lemma {:induction false} Pow2Is128()
    ensures Pow2(7) == 0x80 && Pow2(8) == 0x100
  {
    assert Pow2(4) == 0x10;
    assert Pow2(7) == 8 * Pow2(4);
  }

  lemma {:induction false} ShiftedBit(flags: u8, k: nat)
    requires k < 7
    ensures TestBit(ShiftLeft(flags), k + 1) == TestBit(flags, k)
  {
    Pow2Is128();
    var low := if flags >= 0x80 then flags - 0x80 else flags;
    if flags >= 0x80 {
      DropHighBit(flags, 7, k);
    }
    ShiftDropsHigh(flags);
    assert TestBit(2 * low, k + 1) == TestBit(2 * low / 2, k);
  }

  lemma {:induction false} ShiftDropsHigh(flags: u8)
    ensures ShiftLeft(flags) == 2 * if flags >= 0x80 then flags - 0x80 else flags
  {
  }

  /** `flags` is `full` after `used` shifts. */
  ghost predicate FlagsLeft(flags: u8, full: u8, used: nat) {
    forall k :: used <= k < 8 ==> TestBit(flags, k) == TestBit(full, k - used)
  }

  lemma {:induction false} FlagsLeftStep(flags: u8, full: u8, used: nat)
    requires FlagsLeft(flags, full, used) && used < 8
    ensures (flags >= 0x80) == TestBit(full, 7 - used)
    ensures FlagsLeft(ShiftLeft(flags), full, used + 1)
  {
    Pow2Is128();
    HighBit(flags, 7);
    forall k | used + 1 <= k < 8
      ensures TestBit(ShiftLeft(flags), k) == TestBit(full, k - (used + 1))
    {
      ShiftedBit(flags, k - 1);
    }
  }

  // ---- Matches ----

  /** Copying a match backwards in the buffer is repeating it forwards in the decoded data. */
  lemma {:induction false} CopyMatchRepeats(out: seq<u8>, dst: nat, s: seq<u8>, length: nat, dist: nat)
    requires length <= dst <= |out| && out[dst..] == Reversed(s) && 1 <= dist <= |s|
    ensures CopyMatch(out, dst, length, dist) ==
      Ok((out[..dst - length] + Reversed(Repeat(s, length, dist)), dst - length))
    decreases length
  {
    if length == 0 {
      assert out == out[..dst] + out[dst..];
    } else {
      var b := out[dst - 1 + dist];
      assert b == out[dst..][dist - 1] == s[|s| - dist];
      var next := out[dst - 1 := b];
      assert next[dst - 1..] == [b] + out[dst..] == Reversed(s + [b]);
      CopyMatchRepeats(next, dst - 1, s + [b], length - 1, dist);
      assert next[..dst - length] == out[..dst - length];
    }
  }

  lemma {:induction false} MatchFields(len: nat, dist: nat)
    requires Encodable(Ref(len, dist))
    ensures var first, second := (len - MIN_MATCH) * 16 + (dist - MIN_MATCH) / 0x100, (dist - MIN_MATCH) % 0x100;
      first < 0x100 && MatchLength(first) == len && MatchDistance(first, second) == dist
  {
    var d := dist - MIN_MATCH;
    assert d / 0x100 < 16 && d == d / 0x100 * 0x100 + d % 0x100;
  }

  // ---- The decoder's state at a code boundary ----

  /** Stream bytes from `from` on still sit, reversed, above `start`. */
  ghost predicate Unread(out: seq<u8>, start: nat, stream: seq<u8>, from: nat) {
    start + |stream| <= |out| &&
    forall i :: from <= i < |stream| ==> out[start + |stream| - 1 - i] == stream[i]
  }

  /** The output cursor never falls below the input cursor at a code boundary. */
  ghost predicate NeverCrosses(codes: seq<Code>, start: nat, len: nat) {
    forall m {:trigger Total(codes[..m])} :: 0 <= m <= |codes| ==>
      Total(codes[..m]) + start + Size(codes) <= len + Size(codes[..m])
  }

  /** `s` has been decoded into the top of the buffer; the stream from `from` on is intact. */
  ghost predicate Decoded(out: seq<u8>, s: seq<u8>, stream: seq<u8>, start: nat, from: nat) {
    |s| <= |out| && out[|out| - |s|..] == Reversed(s) && Unread(out, start, stream, from)
  }

  lemma {:induction false} StillUnread(out: seq<u8>, next: seq<u8>, start: nat, stream: seq<u8>, from: nat, to: nat, dst: nat)
    requires Unread(out, start, stream, from) && from <= to
    requires |next| == |out| && dst <= |out| && next[..dst] == out[..dst] && start + |stream| <= dst + to
    ensures Unread(next, start, stream, to)
  {
    forall i | to <= i < |stream|
      ensures next[start + |stream| - 1 - i] == stream[i]
    {
      assert next[..dst][start + |stream| - 1 - i] == out[..dst][start + |stream| - 1 - i];
    }
  }

  /** The buffer after one more code. */
  function Landed(out: seq<u8>, s: seq<u8>, c: Code): (next: seq<u8>)
    requires Encodable(c) && (c.Ref? ==> c.dist <= |s|) && |s| + Span(c) <= |out|
    ensures |next| == |out|
  {
    out[..|out| - |s| - Span(c)] + Reversed(Append(s, c))
  }

  /** The decoder's state after code `c` has landed. */
  function After(d: Decoder, s: seq<u8>, c: Code): (next: Decoder)
    requires InBounds(d) && Encodable(c) && (c.Ref? ==> c.dist <= |s|) && |s| + Span(c) <= |d.out|
    requires Width(c) <= d.cmp && Span(c) <= d.dst && d.bits > 0
  {
    Decoder(Landed(d.out, s, c), d.cmp - Width(c), d.dst - Span(c), ShiftLeft(d.flags), d.bits - 1)
  }

  lemma {:induction false} StepLiteral(d: Decoder, s: seq<u8>, start: nat, b: u8)
    requires InBounds(d) && start < d.cmp && d.bits > 0 && d.flags < 0x80 && d.out[d.cmp - 1] == b
    requires |s| < |d.out| && d.dst == |d.out| - |s| && d.out[d.dst..] == Reversed(s)
    ensures Step(d, start) == Ok(After(d, s, Lit(b)))
  {
    assert d.out[d.dst - 1 := b] == d.out[..d.dst - 1] + ([b] + d.out[d.dst..]);
    assert [b] + Reversed(s) == Reversed(s + [b]);
  }

  lemma {:induction false} StepMatch(d: Decoder, s: seq<u8>, start: nat, len: nat, dist: nat)
    requires InBounds(d) && start + 2 <= d.cmp && d.bits > 0 && d.flags >= 0x80 && Encodable(Ref(len, dist))
    requires MatchLength(d.out[d.cmp - 1]) == len && MatchDistance(d.out[d.cmp - 1], d.out[d.cmp - 2]) == dist
    requires |s| + len <= |d.out| && dist <= |s| && d.dst == |d.out| - |s| && d.out[d.dst..] == Reversed(s)
    ensures Step(d, start) == Ok(After(d, s, Ref(len, dist)))
  {
    CopyMatchRepeats(d.out, d.dst, s, len, dist);
  }

  /** One code with its flag loaded. */
  lemma {:induction false} StepCode(d: Decoder, s: seq<u8>, stream: seq<u8>, start: nat, p: nat, c: Code)
    requires InBounds(d) && Decoded(d.out, s, stream, start, p)
    requires CarriesPayload(stream, p, c) && (c.Ref? ==> c.dist <= |s|) && |s| + Span(c) <= |d.out|
    requires d.cmp == start + |stream| - p && d.dst == |d.out| - |s|
    requires d.bits > 0 && (d.flags >= 0x80) == c.Ref?
    ensures Step(d, start) == Ok(After(d, s, c))
  {
    assert d.out[start + |stream| - 1 - p] == stream[p];
    if c.Lit? {
      StepLiteral(d, s, start, c.b);
    } else {
      assert d.out[start + |stream| - 1 - (p + 1)] == stream[p + 1];
      MatchFields(c.len, c.dist);
      StepMatch(d, s, start, c.len, c.dist);
    }
  }

  /** What lands is above everything unread. */
  lemma {:induction false} LandsClear(out: seq<u8>, s: seq<u8>, stream: seq<u8>, start: nat, p: nat, c: Code)
    requires Decoded(out, s, stream, start, p) && CarriesPayload(stream, p, c) && (c.Ref? ==> c.dist <= |s|)
    requires |s| + Span(c) + start + |stream| <= |out| + p + Width(c)
    ensures |s| + Span(c) <= |out|
    ensures Decoded(Landed(out, s, c), Append(s, c), stream, start, p + Width(c))
    ensures forall k :: 0 <= k <= |out| - |s| - Span(c) ==> Landed(out, s, c)[..k] == out[..k]
  {
    var next, dst := Landed(out, s, c), |out| - |s| - Span(c);
    assert next[..dst] == out[..dst] && next[dst..] == Reversed(Append(s, c));
    StillUnread(out, next, start, stream, p, p + Width(c), dst);
    forall k | 0 <= k <= dst
      ensures next[..k] == out[..k]
    {
      TakeOfTake(next, dst, k);
      TakeOfTake(out, dst, k);
    }
  }

  /** Flags and bit count as they are at boundary `n`: nothing loaded at the start of a group. */
  ghost predicate FlagsAt(n: nat, codes: seq<Code>, stream: seq<u8>, flags: u8, bits: nat) {
    n < |codes| ==>
      if n == Group(n) then bits == 0
      else FlagsLoaded(n, codes, stream, flags, bits)
  }

  /** The flag of code `n` is at the top of `flags`. */
  ghost predicate FlagsLoaded(n: nat, codes: seq<Code>, stream: seq<u8>, flags: u8, bits: nat)
    requires n < |codes|
  {
    bits == Group(n) + 8 - n && FlagIndex(codes, n) < |stream| &&
    FlagsLeft(flags, stream[FlagIndex(codes, n)], n - Group(n))
  }

  lemma {:induction false} FlagForCode(n: nat, codes: seq<Code>, stream: seq<u8>, flags: u8, bits: nat)
    requires n < |codes| && Carries(stream, codes) && FlagsLoaded(n, codes, stream, flags, bits)
    ensures bits > 0 && (flags >= 0x80) == codes[n].Ref?
    ensures FlagsAt(n + 1, codes, stream, ShiftLeft(flags), bits - 1)
  {
    assert CarriesCode(stream, codes, n, |codes| + 7);
    FlagsLeftStep(flags, stream[FlagIndex(codes, n)], n - Group(n));
    NextSlot(n);
  }

  lemma {:induction false} NextSlot(n: nat)
    ensures if n == Group(n) + 7 then n + 1 == Group(n + 1) else n + 1 != Group(n + 1) && Group(n + 1) == Group(n)
  {
  }

  /** A carried list of codes, placed in a buffer where its cursors never cross. */
  ghost predicate Placed(codes: seq<Code>, stream: seq<u8>, start: nat, len: nat) {
    WellFormed(codes) && Carries(stream, codes) && NeverCrosses(codes, start, len) && Total(codes) <= len
  }

  /** What is known of code `n` of a placed list. */
  lemma {:induction false} CodeFacts(n: nat, codes: seq<Code>, stream: seq<u8>, start: nat, len: nat)
    requires Placed(codes, stream, start, len) && n < |codes|
    ensures CarriesPayload(stream, PayloadIndex(codes, n), codes[n])
    ensures PayloadIndex(codes, n) + Width(codes[n]) == Size(codes[..n + 1]) <= |stream|
    ensures WellFormed(codes[..n]) && WellFormed(codes[..n + 1])
    ensures codes[n].Ref? ==> codes[n].dist <= Total(codes[..n])
    ensures Expand(codes[..n + 1]) == Append(Expand(codes[..n]), codes[n])
    ensures Total(codes[..n]) + Span(codes[n]) + start + |stream| <= len + Size(codes[..n + 1])
    ensures Total(codes[..n]) + Span(codes[n]) <= Total(codes)
  {
    WellFormedAt(codes, n);
    SizeAt(codes, n);
    SizeMonotone(codes, n + 1, |codes|);
    assert codes[..|codes|] == codes;
    assert CarriesCode(stream, codes, n, |codes| + 7);
    assert Total(codes[..n + 1]) + start + Size(codes) <= len + Size(codes[..n + 1]);
  }

  /** The decoder has consumed exactly `n` codes. */
  ghost predicate AtBoundary(d: Decoder, n: nat, codes: seq<Code>, stream: seq<u8>, start: nat) {
    n <= |codes| && WellFormed(codes[..n]) && FlagsAt(n, codes, stream, d.flags, d.bits) && InBounds(d) &&
    Decoded(d.out, Expand(codes[..n]), stream, start, Size(codes[..n])) &&
    d.cmp == start + |stream| - Size(codes[..n]) && d.dst == |d.out| - Total(codes[..n])
  }

  /** As `AtBoundary`, with the flag of the next code loaded. */
  ghost predicate AtCode(d: Decoder, n: nat, codes: seq<Code>, stream: seq<u8>, start: nat) {
    n < |codes| && WellFormed(codes[..n]) && FlagsLoaded(n, codes, stream, d.flags, d.bits) && InBounds(d) &&
    Decoded(d.out, Expand(codes[..n]), stream, start, PayloadIndex(codes, n)) &&
    d.cmp == start + |stream| - PayloadIndex(codes, n) && d.dst == |d.out| - Total(codes[..n])
  }

  /** At the start of a group the decoder first takes the flag byte; elsewhere it has it already. */
  lemma {:induction false} LoadFlags(d: Decoder, n: nat, codes: seq<Code>, stream: seq<u8>, start: nat)
    returns (loaded: Decoder)
    requires Placed(codes, stream, start, |d.out|) && n < |codes| && AtBoundary(d, n, codes, stream, start)
    ensures loaded.out == d.out && AtCode(loaded, n, codes, stream, start)
    ensures Run(d, start) == Run(loaded, start)
  {
    hide Placed, Expand, Total, WellFormed;
    CodeFacts(n, codes, stream, start, |d.out|);
    if n == Group(n) {
      var f := Size(codes[..n]);
      assert d.out[start + |stream| - 1 - f] == stream[f];
      loaded := d.(cmp := d.cmp - 1, flags := stream[f], bits := 8);
    } else {
      loaded := d;
    }
  }

  /** One code further. */
  lemma {:induction false} DecodeStep(d: Decoder, n: nat, codes: seq<Code>, stream: seq<u8>, start: nat)
    returns (next: Decoder)
    requires Placed(codes, stream, start, |d.out|) && AtCode(d, n, codes, stream, start)
    ensures |next.out| == |d.out| && AtBoundary(next, n + 1, codes, stream, start)
    ensures next.out[..|d.out| - Total(codes)] == d.out[..|d.out| - Total(codes)]
    ensures d.cmp > start && Step(d, start) == Ok(next)
  {
    CodeFacts(n, codes, stream, start, |d.out|);
    var s, p, c := Expand(codes[..n]), PayloadIndex(codes, n), codes[n];
    FlagForCode(n, codes, stream, d.flags, d.bits);
    StepCode(d, s, stream, start, p, c);
    LandsClear(d.out, s, stream, start, p, c);
    next := After(d, s, c);
  }

  /** Decoding ended with the expansion of `codes` above the untouched bottom of the buffer, the cursor between them. */
  ghost predicate EndsWith(r: Result<Decoder, DecompressError>, buffer: seq<u8>, codes: seq<Code>) {
    r.Ok? && WellFormed(codes) && Total(codes) <= |buffer| && r.value.dst == |buffer| - Total(codes) &&
    r.value.out == buffer[..r.value.dst] + Reversed(Expand(codes))
  }

  /** From one boundary to the next. */
  lemma {:induction false} NextBoundary(d: Decoder, n: nat, codes: seq<Code>, stream: seq<u8>, start: nat) returns (next: Decoder)
    requires Placed(codes, stream, start, |d.out|) && n < |codes| && AtBoundary(d, n, codes, stream, start)
    ensures |next.out| == |d.out| && AtBoundary(next, n + 1, codes, stream, start)
    ensures InBounds(d) && InBounds(next) && Run(d, start) == Run(next, start)
    ensures Total(codes) <= |d.out| && next.out[..|d.out| - Total(codes)] == d.out[..|d.out| - Total(codes)]
  {
    hide WellFormed, Carries, NeverCrosses, Total, Step, Decoded, FlagsAt, FlagsLoaded, Expand;
    var loaded := LoadFlags(d, n, codes, stream, start);
    next := DecodeStep(loaded, n, codes, stream, start);
    assert Run(loaded, start) == Run(next, start);
  }

  /**
   * In place equals out of place: from any boundary, the decoder succeeds and leaves the whole
   * expansion above the untouched bottom of the buffer.
   */
  lemma {:induction false} DecodesFrom(d: Decoder, n: nat, codes: seq<Code>, stream: seq<u8>, start: nat)
    requires Placed(codes, stream, start, |d.out|) && n <= |codes| && AtBoundary(d, n, codes, stream, start)
    ensures EndsWith(Run(d, start), d.out, codes)
    decreases |codes| - n
  {
    hide Placed, AtBoundary, EndsWith, Run, Total;
    if n == |codes| {
      AllDecoded(d, codes, stream, start);
    } else {
      var next := NextBoundary(d, n, codes, stream, start);
      DecodesFrom(next, n + 1, codes, stream, start);
      EndsAlike(Run(d, start), next.out, d.out, codes);
    }
  }

  /** Only the bottom of the buffer matters to how decoding ends. */
  lemma {:induction false} EndsAlike(r: Result<Decoder, DecompressError>, a: seq<u8>, b: seq<u8>, codes: seq<Code>)
    requires EndsWith(r, a, codes) && |a| == |b| && a[..|a| - Total(codes)] == b[..|b| - Total(codes)]
    ensures EndsWith(r, b, codes)
  {
  }

  lemma {:induction false} AllDecoded(d: Decoder, codes: seq<Code>, stream: seq<u8>, start: nat)
    requires Placed(codes, stream, start, |d.out|) && AtBoundary(d, |codes|, codes, stream, start)
    ensures EndsWith(Run(d, start), d.out, codes)
  {
    assert codes[..|codes|] == codes;
    WholeBuffer(d.out, Expand(codes));
  }

  lemma {:induction false} WholeBuffer(out: seq<u8>, s: seq<u8>)
    requires |s| <= |out| && out[|out| - |s|..] == Reversed(s)
    ensures out == out[..|out| - |s|] + Reversed(s)
  {
  }

  /** From the start: a buffer holding a placed stream decodes, in place, to its expansion. */
  lemma {:induction false} InPlaceIsOutOfPlace(buffer: seq<u8>, codes: seq<Code>, stream: seq<u8>, start: nat)
    requires Placed(codes, stream, start, |buffer|) && Unread(buffer, start, stream, 0)
    ensures EndsWith(Run(Decoder(buffer, start + |stream|, |buffer|, 0, 0), start), buffer, codes)
  {
    var d := Decoder(buffer, start + |stream|, |buffer|, 0, 0);
    assert codes[..0] == [];
    assert buffer[|buffer|..] == [] == Reversed(Expand([]));
    DecodesFrom(d, 0, codes, stream, start);
  }
}
