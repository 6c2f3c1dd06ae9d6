/** The codec's main results. */
module BlzTheorems {
  import opened Bytes
  import opened BlzFormat
  import opened BlzParse
  import opened BlzDecode
  import opened BlzRoundTrip
  import opened BlzCompress

  // ---- The split keeps the cursors apart ----

  /** The codes kept after the split. */
  function Kept(data: seq<u8>): seq<Code> {
    Parse(Reversed(data))[..BestSplit(data)]
  }

  /**
   * Because no earlier boundary is cheaper than the split, a decoder working over the finished
   * layout never writes at or below a packed byte it has still to read.
   */
  lemma {:induction false} SplitNeverCrosses(data: seq<u8>)
    ensures NeverCrosses(Kept(data), RemainingLen(data), |data|)
  {
    var codes, n, kept := Parse(Reversed(data)), BestSplit(data), Kept(data);
    AnyPrefixDecodes(Reversed(data), n);
    forall m {:trigger Total(kept[..m])} | 0 <= m <= |kept|
      ensures Total(kept[..m]) + RemainingLen(data) + Size(kept) <= |data| + Size(kept[..m])
    {
      TakeOfTake(codes, n, m);
      SplitIsLeast(codes, |data|, |codes|, m);
    }
  }

  /** The kept codes stand for exactly the data past the raw prefix, and the kept stream carries them. */
  lemma {:induction false} KeptIsPlaced(data: seq<u8>, stream: seq<u8>)
    requires Carries(stream, Parse(Reversed(data)))
    ensures PackedLen(data) <= |stream|
    ensures Placed(Kept(data), stream[..PackedLen(data)], RemainingLen(data), |data|)
    ensures Total(Kept(data)) == |data| - RemainingLen(data)
    ensures Expand(Kept(data)) == Reversed(data)[..|data| - RemainingLen(data)]
  {
    CutAtBoundary(stream, Parse(Reversed(data)), BestSplit(data));
    AnyPrefixDecodes(Reversed(data), BestSplit(data));
    SplitNeverCrosses(data);
  }

  // ---- Reading the trailer back ----

  lemma {:induction false} TrailerReads(front: seq<u8>, a: u32, b: u32, c: u32)
    ensures var out := front + (Le32(a) + Le32(b) + Le32(c));
      TrailingU32(out, 4) == Some(c) && TrailingU32(out, 8) == Some(b) && TrailingU32(out, 12) == Some(a)
  {
    var out := front + (Le32(a) + Le32(b) + Le32(c));
    assert out[|out| - 4..|out|] == Le32(c);
    assert out[|out| - 8..|out| - 4] == Le32(b);
    assert out[|out| - 12..|out| - 8] == Le32(a);
    Le32RoundTrip(a);
    Le32RoundTrip(b);
    Le32RoundTrip(c);
  }

  lemma {:induction false} StoredRoundTrip(data: seq<u8>)
    ensures Decompressed(StoredForm(data), |data|) == Ok(data)
  {
    var front := data + Zeros(Padding(|data|));
    var out := StoredForm(data);
    assert out[|out| - 4..|out|] == Le32(0);
    Le32RoundTrip(0);
    assert out[..|out| - 4] == front && front[..|data|] == data;
  }

  lemma {:induction false} PrefixAndReversedTail(data: seq<u8>, n: nat)
    requires n <= |data|
    ensures data[..n] + Reversed(Reversed(data)[..|data| - n]) == data
  {
  }

  /** The buffer decoding leaves. */
  function BufferOf(r: Result<Decoder, DecompressError>): Result<seq<u8>, DecompressError> {
    match r
    case Ok(end) => Ok(end.out)
    case Err(e) => Err(e)
  }

  /** The buffer the decoder starts from on a packed layout: the layout, then room for what it expands to. */
  lemma {:induction false} StartingBuffer(data: seq<u8>, region: seq<u8>, remaining: nat) returns (buffer: seq<u8>)
    requires |data| < 0xFFFF_FFFF && remaining <= |data| && TrailerFits(|data|, |region|, remaining)
    ensures |buffer| == |data| && remaining + |region| <= |buffer|
    ensures buffer[..remaining + |region|] == data[..remaining] + region
    ensures Decompressed(PackedForm(data, region, remaining), |data|)
         == BufferOf(Run(Decoder(buffer, remaining + |region|, |data|, 0, 0), remaining))
  {
    hide Run, Decompressed, TrailingU32, Le32, FromLe32;
    var end, header := remaining + |region|, HeaderSize(remaining + |region|);
    var front := data[..remaining] + region;
    var out := PackedForm(data, region, remaining);
    var extra := |data| - end - header;
    TrailerReads(front + Fill(0xFF, Padding(end)), |region| + header, header, extra);
    WellFormedTrailerRuns(out, |region| + header, header, extra);
    buffer := out + Zeros(extra);
    TakeOfAppend(out, Zeros(extra), end);
    TakeOfAppend(front + Fill(0xFF, Padding(end)), Footer(|data|, |region|, remaining), end);
    TakeOfAppend(front, Fill(0xFF, Padding(end)), end);
    assert front[..end] == front;
  }

  /** The packed region sits in it reversed, above the raw prefix. */
  lemma {:induction false} BufferHoldsRegion(buffer: seq<u8>, data: seq<u8>, kept: seq<u8>, remaining: nat)
    requires remaining <= |data| && remaining + |kept| <= |buffer|
    requires buffer[..remaining + |kept|] == data[..remaining] + Reversed(kept)
    ensures Unread(buffer, remaining, kept, 0) && buffer[..remaining] == data[..remaining]
  {
    var front := data[..remaining] + Reversed(kept);
    forall i | 0 <= i < |kept|
      ensures buffer[remaining + |kept| - 1 - i] == kept[i]
    {
      assert buffer[remaining + |kept| - 1 - i] == front[remaining + |kept| - 1 - i] == Reversed(kept)[|kept| - 1 - i];
    }
    TakeOfTake(buffer, remaining + |kept|, remaining);
    TakeOfAppend(data[..remaining], Reversed(kept), remaining);
  }

  lemma {:induction false} WellFormedTrailerRuns(out: seq<u8>, encLen: u32, headerSize: u32, extraLen: u32)
    requires |out| >= FOOTER_SIZE && extraLen > 0
    requires TrailingU32(out, 4) == Some(extraLen)
    requires TrailingU32(out, 8) == Some(headerSize) && TrailingU32(out, FOOTER_SIZE) == Some(encLen)
    requires !MalformedLayout(encLen, headerSize, |out|, extraLen)
    ensures Decompressed(out, |out| + extraLen)
         == BufferOf(Run(Decoder(out + Zeros(extraLen), |out| - headerSize, |out| + extraLen, 0, 0), |out| - encLen))
  {
  }

  /** Codes placed behind a raw prefix, standing for the rest of the data: the layout decodes to the data. */
  lemma {:induction false} PackedFormDecodes(data: seq<u8>, codes: seq<Code>, kept: seq<u8>, remaining: nat)
    requires |data| < 0xFFFF_FFFF && remaining <= |data| && TrailerFits(|data|, |kept|, remaining)
    requires Placed(codes, kept, remaining, |data|) && Total(codes) == |data| - remaining
    requires Expand(codes) == Reversed(data)[..|data| - remaining]
    ensures Decompressed(PackedForm(data, Reversed(kept), remaining), |data|) == Ok(data)
  {
    hide Placed, Run, Decompressed, PackedForm, Expand, Unread;
    var buffer := StartingBuffer(data, Reversed(kept), remaining);
    BufferHoldsRegion(buffer, data, kept, remaining);
    InPlaceIsOutOfPlace(buffer, codes, kept, remaining);
    PrefixAndReversedTail(data, remaining);
  }

  lemma {:induction false} PackedRoundTrip(data: seq<u8>, stream: seq<u8>, out: seq<u8>)
    requires |data| < 0xFFFF_FFFF && TrailerFits(|data|, PackedLen(data), RemainingLen(data))
    requires IsPacked(data, stream, out)
    ensures Decompressed(out, |data|) == Ok(data)
  {
    KeptIsPlaced(data, stream);
    PackedFormDecodes(data, Kept(data), stream[..PackedLen(data)], RemainingLen(data));
  }

  /**
   * Round trip: whatever `compress` produces, in either form and at every alignment, decompresses
   * to the data it was given.
   */
  lemma {:induction false} RoundTrip(data: seq<u8>, out: seq<u8>)
    requires |data| < 0xFFFF_FFFF && IsCompressed(data, out)
    ensures Decompressed(out, |data|) == Ok(data)
  {
    if TrailerFits(|data|, PackedLen(data), RemainingLen(data)) {
      var stream :| IsPacked(data, stream, out);
      PackedRoundTrip(data, stream, out);
    } else {
      StoredRoundTrip(data);
    }
  }

  /** The same, by the two methods. */
  method CompressThenDecompress(data: seq<u8>) returns (r: Result<seq<u8>, DecompressError>)
    requires |data| < 0xFFFF_FFFF
    ensures r == Ok(data)
  {
    var stream := Compress(data);
    RoundTrip(data, stream);
    r := Decompress(stream, |data|);
  }

  /** No two inputs of one length share a compressed form. */
  lemma {:induction false} CompressionIsInjective(a: seq<u8>, b: seq<u8>, out: seq<u8>)
    requires |a| == |b| < 0xFFFF_FFFF && IsCompressed(a, out) && IsCompressed(b, out)
    ensures a == b
  {
    RoundTrip(a, out);
    RoundTrip(b, out);
  }

  /** The compressed form is a function of the data. */
  lemma {:induction false} CompressedFormIsUnique(data: seq<u8>, a: seq<u8>, b: seq<u8>)
    requires |data| < 0xFFFF_FFFF && IsCompressed(data, a) && IsCompressed(data, b)
    ensures a == b
  {
    hide CarriesOnly, PackedForm, PackedLen, RemainingLen, TrailerFits, Parse, StoredForm;
    if TrailerFits(|data|, PackedLen(data), RemainingLen(data)) {
      var s :| IsPacked(data, s, a);
      var t :| IsPacked(data, t, b);
      OneStream(s, t, Parse(Reversed(data)));
    }
  }

  // ---- What success does not promise on arbitrary input ----

  lemma {:induction false} CopyMatchKeepsBelow(out: seq<u8>, dst: nat, length: nat, distance: nat)
    requires dst <= |out| && CopyMatch(out, dst, length, distance).Ok?
    ensures var (copied, moved) := CopyMatch(out, dst, length, distance).value; moved <= dst && copied[..moved] == out[..moved]
    decreases length
  {
    if length > 0 {
      var next := out[dst - 1 := out[dst - 1 + distance]];
      CopyMatchKeepsBelow(next, dst - 1, length - 1, distance);
      var moved := CopyMatch(next, dst - 1, length - 1, distance).value.1;
      assert next[..moved] == out[..moved];
    }
  }

  /** Below the final output cursor the buffer is as it was: no code produced those bytes. */
  lemma {:induction false} RunKeepsBelow(d: Decoder, start: nat)
    requires InBounds(d) && Run(d, start).Ok?
    ensures var end := Run(d, start).value; end.dst <= d.dst && end.out[..end.dst] == d.out[..end.dst]
    decreases d.cmp
  {
    hide CopyMatch;
    if d.cmp > start {
      var next := Step(d, start).value;
      StepKeepsBelow(d, start);
      RunKeepsBelow(next, start);
      var end := Run(next, start).value;
      TakeOfTake(next.out, next.dst, end.dst);
      TakeOfTake(d.out, next.dst, end.dst);
    }
  }

  lemma {:induction false} StepKeepsBelow(d: Decoder, start: nat)
    requires InBounds(d) && start < d.cmp && Step(d, start).Ok?
    ensures var next := Step(d, start).value; next.dst <= d.dst && next.out[..next.dst] == d.out[..next.dst]
  {
    hide CopyMatch;
    if d.bits > 0 && d.flags >= 0x80 {
      var first, second := d.out[d.cmp - 1], d.out[d.cmp - 2];
      CopyMatchKeepsBelow(d.out, d.dst, MatchLength(first), MatchDistance(first, second));
    }
  }

  // ---- When the documented error is given ----

  /** The lengths a packed stream's trailer records. */
  datatype Trailer = Trailer(encLen: u32, headerSize: u32, extraLen: u32)

  /** The trailer of a packed stream, if the stream has one and its lengths fit. */
  function TrailerOf(data: seq<u8>): (t: Option<Trailer>)
    ensures t.Some? ==> t.value.headerSize <= t.value.encLen <= |data|
  {
    if |data| < FOOTER_SIZE then None
    else
      var t := Trailer(TrailingU32(data, FOOTER_SIZE).value, TrailingU32(data, 8).value, TrailingU32(data, 4).value);
      if t.extraLen == 0 || MalformedLayout(t.encLen, t.headerSize, |data|, t.extraLen) then None else Some(t)
  }

  /** Where decoding a packed stream ends: the buffer and the output cursor in it. */
  function Ending(data: seq<u8>, t: Trailer): (r: Result<Decoder, DecompressError>)
    requires TrailerOf(data) == Some(t)
    ensures r.Ok? ==> InBounds(r.value) && |r.value.out| == |data| + t.extraLen
  {
    Run(Decoder(data + Zeros(t.extraLen), |data| - t.headerSize, |data| + t.extraLen, 0, 0), |data| - t.encLen)
  }

  /** Bytes of output a packed stream holds: its raw prefix, and what its codes produced. */
  function Held(data: seq<u8>, t: Trailer): nat
    requires TrailerOf(data) == Some(t) && Ending(data, t).Ok?
  {
    |data| - t.encLen + (|data| + t.extraLen - Ending(data, t).value.dst)
  }

  /** The answer is the documented one: an error whenever the stream does not hold `size` bytes. */
  predicate AnswersAsDocumented(data: seq<u8>, size: nat) {
    Decompressed(data, size).Ok? ==>
      match TrailerOf(data)
      case None => size + 4 <= |data|
      case Some(t) => Ending(data, t).Ok? && Held(data, t) == size
  }

  /**
   * A packed stream with a well-formed trailer is accepted exactly when every code decodes and the
   * lengths add up; where the output cursor ends plays no part.
   */
  lemma {:induction false} AcceptedWhereverCursorEnds(data: seq<u8>, size: nat, t: Trailer)
    requires TrailerOf(data) == Some(t)
    ensures Decompressed(data, size).Ok? <==> Ending(data, t).Ok? && size == |data| + t.extraLen
    ensures Decompressed(data, size).Ok? ==>
      var end, buffer := Ending(data, t).value, data + Zeros(t.extraLen);
      Decompressed(data, size).value[..end.dst] == buffer[..end.dst]
  {
    hide Run;
    if Ending(data, t).Ok? {
      RunKeepsBelow(Decoder(data + Zeros(t.extraLen), |data| - t.headerSize, |data| + t.extraLen, 0, 0), |data| - t.encLen);
    }
  }

  /**
   * The answer is the documented one exactly when the output cursor of a stream otherwise accepted
   * ends at the raw prefix: the guard the code does not have. Stored streams need no guard.
   */
  lemma {:induction false} DocumentedWhenCursorMeetsPrefix(data: seq<u8>, size: nat)
    ensures AnswersAsDocumented(data, size) <==>
      match TrailerOf(data)
      case None => true
      case Some(t) =>
        Ending(data, t).Ok? && size == |data| + t.extraLen ==> Ending(data, t).value.dst == |data| - t.encLen
  {
    hide Ending;
    match TrailerOf(data)
    case None => NothingButStored(data, size);
    case Some(t) => AcceptedWhereverCursorEnds(data, size, t);
  }

  lemma {:induction false} NothingButStored(data: seq<u8>, size: nat)
    requires TrailerOf(data).None?
    ensures Decompressed(data, size).Ok? ==> size + 4 <= |data|
  {
  }

  /** `codes` are what the packed region of the stream carries, and their cursors never cross. */
  ghost predicate HoldsCodes(data: seq<u8>, t: Trailer, codes: seq<Code>)
    requires TrailerOf(data) == Some(t)
  {
    Placed(codes, Reversed(data[|data| - t.encLen..|data| - t.headerSize]), |data| - t.encLen, |data| + t.extraLen)
  }

  /** Decoding placed codes ends as far below the top of the buffer as they stand for bytes. */
  lemma {:induction false} PlacedEnding(data: seq<u8>, t: Trailer, codes: seq<Code>)
    requires TrailerOf(data) == Some(t) && HoldsCodes(data, t, codes)
    ensures EndsWith(Ending(data, t), data + Zeros(t.extraLen), codes)
  {
    hide Run, Placed, EndsWith;
    var buffer, start := data + Zeros(t.extraLen), |data| - t.encLen;
    var region := data[start..|data| - t.headerSize];
    var stream := Reversed(region);
    forall i | 0 <= i < |stream|
      ensures buffer[start + |stream| - 1 - i] == stream[i]
    {
      assert stream[i] == region[|stream| - 1 - i];
    }
    InPlaceIsOutOfPlace(buffer, codes, stream, start);
  }

  /**
   * Told from the codes alone: a packed stream asked for the length its trailer adds up to gets the
   * documented answer exactly when its codes stand for the bytes past the raw prefix, no more and no less.
   */
  lemma {:induction false} DocumentedIffCodesFill(data: seq<u8>, size: nat, t: Trailer, codes: seq<Code>)
    requires TrailerOf(data) == Some(t) && HoldsCodes(data, t, codes)
    ensures Ending(data, t).Ok? && Held(data, t) == |data| - t.encLen + Total(codes)
    ensures AnswersAsDocumented(data, size) <==> size != |data| + t.extraLen || Total(codes) == t.encLen + t.extraLen
  {
    hide Decompressed, HoldsCodes, Ending;
    PlacedEnding(data, t, codes);
    DocumentedWhenCursorMeetsPrefix(data, size);
  }

  lemma {:induction false} PackedFormTrailer(data: seq<u8>, region: seq<u8>, remaining: nat) returns (t: Trailer)
    requires |data| < 0xFFFF_FFFF && remaining <= |data| && TrailerFits(|data|, |region|, remaining)
    ensures var out := PackedForm(data, region, remaining);
      TrailerOf(out) == Some(t) && |out| + t.extraLen == |data| && |out| - t.encLen == remaining &&
      out[remaining..|out| - t.headerSize] == region
  {
    hide TrailingU32, Le32, FromLe32;
    var end, header := remaining + |region|, HeaderSize(remaining + |region|);
    var front := data[..remaining] + region;
    var out := PackedForm(data, region, remaining);
    t := Trailer(|region| + header, header, |data| - end - header);
    TrailerReads(front + Fill(0xFF, Padding(end)), t.encLen, t.headerSize, t.extraLen);
    assert out[remaining..end] == region;
  }

  /** What the encoder produces is always answered as documented. */
  lemma {:induction false} CompressedAnswersAsDocumented(data: seq<u8>, out: seq<u8>, size: nat)
    requires |data| < 0xFFFF_FFFF && IsCompressed(data, out)
    ensures AnswersAsDocumented(out, size)
  {
    hide AnswersAsDocumented, TrailerOf, PackedForm, Placed, Held, CarriesOnly;
    if TrailerFits(|data|, PackedLen(data), RemainingLen(data)) {
      var stream :| IsPacked(data, stream, out);
      var kept, remaining := stream[..PackedLen(data)], RemainingLen(data);
      assert Carries(stream, Parse(Reversed(data))) by { StreamCarries(data, stream, out); }
      KeptIsPlaced(data, stream);
      var t := PackedFormTrailer(data, Reversed(kept), remaining);
      ReversedTwice(kept);
      DocumentedIffCodesFill(out, size, t, Kept(data));
    } else {
      StoredAnswersAsDocumented(data, size);
    }
  }

  lemma {:induction false} StreamCarries(data: seq<u8>, stream: seq<u8>, out: seq<u8>)
    requires |data| < 0xFFFF_FFFF && TrailerFits(|data|, PackedLen(data), RemainingLen(data)) && IsPacked(data, stream, out)
    ensures Carries(stream, Parse(Reversed(data)))
  {
    hide Carries, PackedForm;
  }

  lemma {:induction false} StoredAnswersAsDocumented(data: seq<u8>, size: nat)
    ensures AnswersAsDocumented(StoredForm(data), size)
  {
    hide Decompressed;
    var front, out := data + Zeros(Padding(|data|)), StoredForm(data);
    assert out[|out| - 4..|out|] == Le32(0);
    Le32RoundTrip(0);
    DocumentedWhenCursorMeetsPrefix(out, size);
  }

  /** So a stream of nothing but its trailer is accepted, and gives itself back with zeros behind it. */
  lemma {:induction false} AcceptsStreamHoldingNothing(data: seq<u8>, extraLen: u32, encLen: u32)
    requires |data| >= FOOTER_SIZE && extraLen > 0 && !MalformedLayout(encLen, encLen, |data|, extraLen)
    requires TrailingU32(data, 4) == Some(extraLen)
    requires TrailingU32(data, 8) == Some(encLen) && TrailingU32(data, FOOTER_SIZE) == Some(encLen)
    ensures Decompressed(data, |data| + extraLen) == Ok(data + Zeros(extraLen))
    ensures !AnswersAsDocumented(data, |data| + extraLen)
  {
    WellFormedTrailerRuns(data, encLen, encLen, extraLen);
    assert TrailerOf(data) == Some(Trailer(encLen, encLen, extraLen));
  }

  /** Such a stream: twelve bytes of trailer claiming five more. */
  lemma {:induction false} SuchAStream()
    ensures var trailer := Le32(12) + Le32(12) + Le32(5);
      Decompressed(trailer, 17) == Ok(trailer + Zeros(5)) && !AnswersAsDocumented(trailer, 17)
  {
    var trailer := Le32(12) + Le32(12) + Le32(5);
    TrailerReads([], 12, 12, 5);
    assert [] + trailer == trailer;
    AcceptsStreamHoldingNothing(trailer, 5, 12);
  }
}
