/** The codec in plain numbers: what the encoder picks and writes, and what the decoder does with each code. */
module BlzNumbers {
  import opened Bytes
  import opened BlzFormat
  import opened BlzMatch
  import opened BlzParse
  import opened BlzDecode
  import opened BlzTheorems

  // ---- What the encoder picks ----

  /** `len` bytes at `pos` are the bytes `offset` back, and none of them is itself being copied. */
  ghost predicate Repeats(data: seq<u8>, pos: nat, len: nat, offset: nat) {
    len <= offset <= pos && pos + len <= |data| && data[pos..pos + len] == data[pos - offset..pos - offset + len]
  }

  lemma {:induction false} RepeatsIsMatch(data: seq<u8>, pos: nat, len: nat, offset: nat)
    ensures Repeats(data, pos, len, offset) <==> IsMatch(data, pos, len, offset)
  {
    if len <= offset <= pos && pos + len <= |data| {
      var s, t := data[pos..pos + len], data[pos - offset..pos - offset + len];
      if s == t {
        forall k | pos <= k < pos + len
          ensures data[k] == data[k - offset]
        {
          assert s[k - pos] == t[k - pos];
        }
      }
    }
  }

  /**
   * The search finds three to eighteen bytes, 3 to 0x1002 back, that nothing longer or as long and
   * nearer beats, or says (2, 0) when no three bytes repeat that near.
   */
  lemma {:induction false} SearchInNumbers(data: seq<u8>, pos: nat, l: nat, o: nat)
    requires pos <= |data| && Longest(data, pos) == (l, o)
    ensures l <= 2 ==> (l, o) == (2, 0) && forall offset :: 3 <= offset <= 0x1002 ==> !Repeats(data, pos, 3, offset)
    ensures l > 2 ==> 3 <= l <= 18 && 3 <= o <= 0x1002 && Repeats(data, pos, l, o)
    ensures forall offset, len :: 3 <= offset <= 0x1002 && 3 <= len <= 18 && Repeats(data, pos, len, offset) ==>
      len <= l && (offset < o ==> len < l)
  {
    LongestIsBest(data, pos);
    RepeatsIsMatch(data, pos, l, o);
    forall offset, len | 3 <= offset <= 0x1002 && 3 <= len <= 18 && Repeats(data, pos, len, offset)
      ensures l > 2 && len <= l && (offset < o ==> len < l)
    {
      RepeatsIsMatch(data, pos, len, offset);
    }
  }

  /**
   * Code `n` of the parse is a literal when no match was found, or when the match and what follows it
   * cover no more than one byte and the match after that; otherwise it is the match.
   */
  lemma {:induction false} LazyRule(data: seq<u8>, n: nat, l: nat, o: nat, next: nat, nextOffset: nat, post: nat, postOffset: nat)
    requires n < |Parse(data)| && Total(Parse(data)[..n]) < |data|
    requires IsBest(data, Total(Parse(data)[..n]), Min(Total(Parse(data)[..n]), 0x1002), (l, o))
    requires var pos := Total(Parse(data)[..n]);
      pos + l <= |data| ==>
        IsBest(data, pos + l, Min(pos + l, 0x1002), (next, nextOffset)) && IsBest(data, pos + 1, Min(pos + 1, 0x1002), (post, postOffset))
    ensures var pos := Total(Parse(data)[..n]);
      Parse(data)[n] ==
      if l <= 2 || (pos + l < |data| && l + (if next <= 2 then 1 else next) <= 1 + (if post <= 2 then 1 else post))
      then Lit(data[pos]) else Ref(l, o)
  {
    hide IsBest, Longest, Parse;
    ParseAt(data, n);
    var pos := Total(Parse(data)[..n]);
    SearchIs(data, pos, (l, o));
    if l > 2 && pos + l < |data| {
      SearchIs(data, pos + l, (next, nextOffset));
      SearchIs(data, pos + 1, (post, postOffset));
    }
  }

  lemma {:induction false} SearchIs(data: seq<u8>, pos: nat, best: (nat, nat))
    requires pos <= |data| && IsBest(data, pos, Min(pos, 0x1002), best)
    ensures Longest(data, pos) == best
  {
    LongestIsBest(data, pos);
    BestIsUnique(data, pos, Min(pos, 0x1002), Longest(data, pos), best);
  }

  /** The split costs no more than any other, and less than any earlier one. */
  lemma {:induction false} SplitInNumbers(data: seq<u8>, m: nat)
    requires m <= |Parse(Reversed(data))|
    ensures var codes := Parse(Reversed(data));
      var cost := Size(codes[..m]) + |data| - Total(codes[..m]);
      PackedLen(data) + RemainingLen(data) <= cost && (m < BestSplit(data) ==> PackedLen(data) + RemainingLen(data) < cost) &&
      PackedLen(data) == Size(codes[..BestSplit(data)]) && RemainingLen(data) == |data| - Total(codes[..BestSplit(data)])
  {
    hide Parse;
    SplitIsLeast(Parse(Reversed(data)), |data|, |Parse(Reversed(data))|, m);
  }

  /** Packing is chosen exactly when it saves more than twelve bytes and the padding to a multiple of four. */
  lemma {:induction false} ChoiceInNumbers(data: seq<u8>, out: seq<u8>)
    requires |data| < 0xFFFF_FFFF && IsCompressed(data, out)
    ensures var end := PackedLen(data) + RemainingLen(data);
      |out| < |data| <==> |data| - end > 12 + (4 - end % 4) % 4
  {
    hide PackedLen, RemainingLen, IsCompressed;
    CompressedLength(data, out);
  }

  // ---- What the encoder writes ----

  /** Two bytes, the first the more significant. */
  function Pair(first: int, second: int): int {
    first * 0x100 + second
  }

  /** Four bytes, the first the least significant. */
  function Word(b0: int, b1: int, b2: int, b3: int): int {
    b0 + 0x100 * b1 + 0x1_0000 * b2 + 0x100_0000 * b3
  }

  /** A literal is its byte; a match is four bits of length less 3 over twelve bits of offset less 3. */
  lemma {:induction false} PayloadInNumbers(stream: seq<u8>, codes: seq<Code>, i: nat)
    requires Carries(stream, codes) && i < |codes|
    ensures PayloadIndex(codes, i) < |stream|
    ensures codes[i].Lit? ==> stream[PayloadIndex(codes, i)] == codes[i].b
    ensures codes[i].Ref? ==>
      var at := PayloadIndex(codes, i);
      at + 1 < |stream| && Pair(stream[at], stream[at + 1]) == (codes[i].len - 3) * 0x1000 + (codes[i].dist - 3) < 0x1_0000
  {
    assert CarriesCode(stream, codes, i, |codes| + 7);
  }

  /** The flag of the `i`-th code of a group is bit `7 - i` of the group's flag byte, set for a match. */
  lemma {:induction false} FlagInNumbers(stream: seq<u8>, codes: seq<Code>, g: nat, i: nat)
    requires Carries(stream, codes) && g % 8 == 0 && i < 8 && g + i < |codes|
    ensures var at := Size(codes[..g]);
      at < |stream| && (stream[at] / [0x80, 0x40, 0x20, 0x10, 8, 4, 2, 1][i] % 2 == 1 <==> codes[g + i].Ref?)
  {
    hide TestBit;
    assert CarriesCode(stream, codes, g + i, |codes| + 7);
    PlaceInGroup(g, i, |codes| + 7);
    BitInNumbers(stream[Size(codes[..g])], 7 - i);
    Powers(i);
  }

  lemma {:induction false} PlaceInGroup(g: nat, i: nat, top: nat)
    requires g % 8 == 0 && i < 8 && g + 7 <= top
    ensures Group(g + i) == g && BitIndex(g + i, top) == 7 - i
  {
  }

  lemma {:induction false} Powers(i: nat)
    requires i < 8
    ensures [1, 2, 4, 8, 0x10, 0x20, 0x40, 0x80][7 - i] == [0x80, 0x40, 0x20, 0x10, 8, 4, 2, 1][i]
  {
  }

  lemma {:induction false} BitInNumbers(flags: u8, k: nat)
    requires k < 8
    ensures TestBit(flags, k) <==> flags / [1, 2, 4, 8, 0x10, 0x20, 0x40, 0x80][k] % 2 == 1
  {
    hide TestBit;
    var high: nat := flags / 8;
    LowBits(flags, k);
    if k >= 3 {
      LowBits(high, k - 3);
      Quotients(flags);
      if k >= 6 {
        LowBits(high / 8, k - 6);
      }
    }
  }

  /** The first three bits, and where the rest are. */
  lemma {:induction false} LowBits(n: nat, k: nat)
    ensures k < 3 ==> (TestBit(n, k) <==> n / [1, 2, 4][k] % 2 == 1)
    ensures k >= 3 ==> TestBit(n, k) == TestBit(n / 8, k - 3)
  {
    assert k > 0 ==> TestBit(n, k) == TestBit(n / 2, k - 1);
    assert k > 1 ==> TestBit(n / 2, k - 1) == TestBit(n / 2 / 2, k - 2);
    assert k > 2 ==> TestBit(n / 2 / 2, k - 2) == TestBit(n / 2 / 2 / 2, k - 3);
    assert n / 2 / 2 == n / 4 && n / 2 / 2 / 2 == n / 8;
  }

  lemma {:induction false} Quotients(n: nat)
    ensures n / 8 / 2 == n / 0x10 && n / 8 / 4 == n / 0x20 && n / 8 / 8 == n / 0x40 && n / 8 / 8 / 2 == n / 0x80
  {
  }

  /** Each byte a group's codes take: one flag byte ahead of every eight codes, then the payloads. */
  lemma {:induction false} PlacesInNumbers(codes: seq<Code>, i: nat)
    requires i < |codes|
    ensures Size(codes[..0]) == 0
    ensures PayloadIndex(codes, i) == Size(codes[..i]) + if i % 8 == 0 then 1 else 0
    ensures Size(codes[..i + 1]) == PayloadIndex(codes, i) + if codes[i].Lit? then 1 else 2
  {
    SizeAt(codes, i);
    assert codes[..0] == [];
  }

  /** A stored stream: the data, zeros to a multiple of four, and a zero word. */
  lemma {:induction false} StoredInNumbers(data: seq<u8>, out: seq<u8>)
    requires |data| < 0xFFFF_FFFF && IsCompressed(data, out) && |out| >= |data|
    ensures |out| % 4 == 0 && |data| + 4 <= |out| < |data| + 8 && out[..|data|] == data
    ensures forall k :: |data| <= k < |out| ==> out[k] == 0
  {
    CompressedLength(data, out);
    var padding, zero := Zeros(Padding(|data|)), Le32(0);
    assert out == data + padding + zero;
    forall k | |data| <= k < |out|
      ensures out[k] == 0
    {
    }
  }

  /** Three words at the end of a packed stream, least significant byte first. */
  predicate EndsInWords(out: seq<u8>, encLen: nat, headerSize: nat, extraLen: nat) {
    |out| >= 12 &&
    var f := |out| - 12;
    Word(out[f], out[f + 1], out[f + 2], out[f + 3]) == encLen &&
    Word(out[f + 4], out[f + 5], out[f + 6], out[f + 7]) == headerSize &&
    Word(out[f + 8], out[f + 9], out[f + 10], out[f + 11]) == extraLen
  }

  /**
   * A packed stream: the raw prefix, the packed region, 0xFF to a multiple of four, and three words -
   * packed and trailing bytes together, trailing bytes, and how much longer the data is.
   */
  lemma {:induction false} PackedInNumbers(data: seq<u8>, out: seq<u8>)
    requires |data| < 0xFFFF_FFFF && IsCompressed(data, out) && |out| < |data|
    ensures var raw, end := RemainingLen(data), RemainingLen(data) + PackedLen(data);
      raw <= end <= |out| - 12 < end + 4 && |out| % 4 == 0 && out[..raw] == data[..raw] &&
      (forall k :: end <= k < |out| - 12 ==> out[k] == 0xFF) &&
      EndsInWords(out, |out| - raw, |out| - end, |data| - |out|)
  {
    hide PackedLen, RemainingLen, CarriesOnly, Parse, TrailerFits, PackedForm;
    CompressedLength(data, out);
    var stream :| IsPacked(data, stream, out);
    LayoutInNumbers(data, Reversed(stream[..PackedLen(data)]), RemainingLen(data));
  }

  lemma {:induction false} LayoutInNumbers(data: seq<u8>, region: seq<u8>, raw: nat)
    requires |data| < 0xFFFF_FFFF && raw <= |data| && TrailerFits(|data|, |region|, raw)
    ensures var out, end := PackedForm(data, region, raw), raw + |region|;
      end <= |out| - 12 < end + 4 && |out| % 4 == 0 && out[..raw] == data[..raw] &&
      (forall k :: end <= k < |out| - 12 ==> out[k] == 0xFF) &&
      EndsInWords(out, |out| - raw, |out| - end, |data| - |out|)
  {
    hide Le32, Word, EndsInWords;
    var out, end, header := PackedForm(data, region, raw), raw + |region|, HeaderSize(raw + |region|);
    var padding := Fill(0xFF, Padding(end));
    FooterInNumbers(data[..raw] + region + padding, |region| + header, header, |data| - end - header);
    FrontInNumbers(data[..raw], region, padding, Footer(|data|, |region|, raw));
    assert |out| == end + Padding(end) + 12;
  }

  lemma {:induction false} FrontInNumbers(a: seq<u8>, b: seq<u8>, c: seq<u8>, d: seq<u8>)
    ensures var s, n := a + b + c + d, |a| + |b|;
      s[..|a|] == a && forall k {:trigger s[k]} :: n <= k < n + |c| ==> s[k] == c[k - n]
  {
  }

  lemma {:induction false} FooterInNumbers(front: seq<u8>, a: u32, b: u32, c: u32)
    ensures EndsInWords(front + (Le32(a) + Le32(b) + Le32(c)), a, b, c)
  {
    var f, out := |front|, front + (Le32(a) + Le32(b) + Le32(c));
    forall k | 0 <= k < 4
      ensures out[f + k] == Le32(a)[k] && out[f + 4 + k] == Le32(b)[k] && out[f + 8 + k] == Le32(c)[k]
    {
    }
    LeastFirst(a);
    LeastFirst(b);
    LeastFirst(c);
  }

  lemma {:induction false} LeastFirst(x: u32)
    ensures var b := Le32(x); Word(b[0], b[1], b[2], b[3]) == x
  {
    Le32RoundTrip(x);
  }

  // ---- What the decoder does ----

  function Doubled(flags: int): int {
    2 * flags
  }

  /** A flag byte holds eight flags, taken from the top down. */
  lemma {:induction false} RunTakesFlags(d: Decoder, start: nat)
    requires InBounds(d) && start < d.cmp && d.bits == 0
    ensures Run(d, start) == Run(Decoder(d.out, d.cmp - 1, d.dst, d.out[d.cmp - 1], 8), start)
  {
  }

  /** A clear flag copies one byte from below the input cursor to below the output cursor. */
  lemma {:induction false} RunCopiesLiteral(d: Decoder, start: nat)
    requires InBounds(d) && start < d.cmp && d.bits > 0 && d.flags < 0x80
    ensures Run(d, start) ==
      if d.dst == 0 then Err(OutputUnderflow)
      else Run(Decoder(d.out[d.dst - 1 := d.out[d.cmp - 1]], d.cmp - 1, d.dst - 1, Doubled(d.flags), d.bits - 1), start)
  {
  }

  /** A back-reference with fewer than two packed bytes left above the raw prefix is refused as truncated. */
  lemma {:induction false} RunRefusesTruncated(d: Decoder, start: nat)
    requires InBounds(d) && d.bits > 0 && d.flags >= 0x80 && d.cmp == start + 1
    ensures Run(d, start) == Err(TruncatedCode(start + 1))
  {
  }

  /** `length` bytes below the output cursor are the bytes `distance` ahead of them, one copied after another. */
  ghost predicate Copied(before: seq<u8>, after: seq<u8>, dst: nat, length: nat, distance: nat) {
    |before| == |after| && length <= dst <= |after| && dst + distance <= |after| &&
    (forall k :: dst - length <= k < dst ==> after[k] == after[k + distance]) &&
    (forall k :: 0 <= k < dst - length || dst <= k < |after| ==> after[k] == before[k])
  }

  lemma {:induction false} CopyInNumbers(out: seq<u8>, dst: nat, length: nat, distance: nat)
    requires dst <= |out| && length > 0 && distance > 0
    ensures var r := CopyMatch(out, dst, length, distance);
      if dst == 0 then r == Err(OutputUnderflow)
      else if dst + distance > |out| then r == Err(MatchOutOfBounds(dst - 1, distance))
      else if dst < length then r == Err(OutputUnderflow)
      else r.Ok? && r.value.1 == dst - length && Copied(out, r.value.0, dst, length, distance)
    decreases length
  {
    if dst > 0 && dst + distance <= |out| {
      var next := out[dst - 1 := out[dst - 1 + distance]];
      if length > 1 {
        CopyInNumbers(next, dst - 1, length - 1, distance);
      }
    }
  }

  /** Decoding goes on two bytes down, `length` bytes further written, with the flag shifted out. */
  ghost predicate GoesOnWith(d: Decoder, start: nat, out: seq<u8>, length: nat)
    requires InBounds(d) && d.cmp >= 2 && d.bits > 0 && 0x80 <= d.flags
  {
    |out| == |d.out| && length <= d.dst &&
    Run(d, start) == Run(Decoder(out, d.cmp - 2, d.dst - length, Doubled(d.flags) - 0x100, d.bits - 1), start)
  }

  /** A set flag copies (high nibble + 3) bytes from (the other twelve bits + 3) ahead of the output cursor. */
  lemma {:induction false} RunCopiesMatch(d: Decoder, start: nat)
    requires InBounds(d) && start + 2 <= d.cmp && d.bits > 0 && d.flags >= 0x80
    ensures var pair := Pair(d.out[d.cmp - 1], d.out[d.cmp - 2]);
      var length, distance := pair / 0x1000 + 3, pair % 0x1000 + 3;
      if d.dst == 0 then Run(d, start) == Err(OutputUnderflow)
      else if d.dst + distance > |d.out| then Run(d, start) == Err(MatchOutOfBounds(d.dst - 1, distance))
      else if d.dst < length then Run(d, start) == Err(OutputUnderflow)
      else
        exists out :: Copied(d.out, out, d.dst, length, distance) && GoesOnWith(d, start, out, length)
  {
    hide CopyMatch, Copied, Run, ShiftLeft;
    var first, second := d.out[d.cmp - 1], d.out[d.cmp - 2];
    var pair := Pair(first, second);
    SplitPair(first, second);
    var length, distance := pair / 0x1000 + 3, pair % 0x1000 + 3;
    assert length == MatchLength(first) && distance == MatchDistance(first, second);
    CopyInNumbers(d.out, d.dst, length, distance);
    ShiftDrops(d.flags);
    var r := CopyMatch(d.out, d.dst, length, distance);
    StepCopies(d, start, length, distance);
    if r.Ok? {
      var out := r.value.0;
      assert Copied(d.out, out, d.dst, length, distance);
      assert Run(d, start) == Run(Decoder(out, d.cmp - 2, d.dst - length, Doubled(d.flags) - 0x100, d.bits - 1), start);
      assert GoesOnWith(d, start, out, length);
    } else {
      assert Run(d, start) == Err(r.error);
      assert d.dst == 0 ==> r.error == OutputUnderflow;
      assert d.dst > 0 && d.dst + distance > |d.out| ==> r.error == MatchOutOfBounds(d.dst - 1, distance);
      assert d.dst > 0 && d.dst + distance <= |d.out| ==> d.dst < length && r.error == OutputUnderflow;
    }
  }

  lemma {:induction false} StepCopies(d: Decoder, start: nat, length: nat, distance: nat)
    requires InBounds(d) && start + 2 <= d.cmp && d.bits > 0 && d.flags >= 0x80
    requires length == MatchLength(d.out[d.cmp - 1]) && distance == MatchDistance(d.out[d.cmp - 1], d.out[d.cmp - 2])
    ensures match CopyMatch(d.out, d.dst, length, distance)
      case Ok((copied, moved)) => Run(d, start) == Run(Decoder(copied, d.cmp - 2, moved, ShiftLeft(d.flags), d.bits - 1), start)
      case Err(e) => Run(d, start) == Err(e)
  {
    hide CopyMatch, ShiftLeft, MatchLength, MatchDistance, Step;
    StepOfMatch(d, start);
    RunSteps(d, start);
  }

  lemma {:induction false} StepOfMatch(d: Decoder, start: nat)
    requires InBounds(d) && start + 2 <= d.cmp && d.bits > 0 && d.flags >= 0x80
    ensures var first, second := d.out[d.cmp - 1], d.out[d.cmp - 2];
      match CopyMatch(d.out, d.dst, MatchLength(first), MatchDistance(first, second))
      case Ok((copied, moved)) => Step(d, start) == Ok(Decoder(copied, d.cmp - 2, moved, ShiftLeft(d.flags), d.bits - 1))
      case Err(e) => Step(d, start) == Err(e)
  {
    hide CopyMatch, ShiftLeft, MatchLength, MatchDistance;
  }

  lemma {:induction false} RunSteps(d: Decoder, start: nat)
    requires InBounds(d) && start < d.cmp
    ensures match Step(d, start)
      case Ok(next) => Run(d, start) == Run(next, start)
      case Err(e) => Run(d, start) == Err(e)
  {
    hide Step;
  }

  lemma {:induction false} SplitPair(first: u8, second: u8)
    ensures var pair, low: int := Pair(first, second), first % 16;
      pair / 0x1000 == first / 16 && pair % 0x1000 == low * 0x100 + second
  {
    var high: int, low: int := first / 16, first % 16;
    assert Pair(first, second) == 0x1000 * high + (low * 0x100 + second);
  }

  lemma {:induction false} ShiftDrops(flags: u8)
    requires flags >= 0x80
    ensures ShiftLeft(flags) == Doubled(flags) - 0x100
  {
  }

  /** A packed region of one flag byte with its top bit set and one byte more is refused, whatever length is asked for. */
  lemma {:induction false} TruncatedStreamIsRefused(data: seq<u8>, size: nat, t: Trailer)
    requires TrailerOf(data) == Some(t) && t.encLen - t.headerSize == 2 && data[|data| - t.headerSize - 1] >= 0x80
    ensures Decompressed(data, size) == Err(TruncatedCode(|data| - t.encLen + 1))
  {
    hide Run, FromLe32;
    var d := Decoder(data + Zeros(t.extraLen), |data| - t.headerSize, |data| + t.extraLen, 0, 0);
    RunTakesFlags(d, |data| - t.encLen);
    RunRefusesTruncated(Decoder(d.out, d.cmp - 1, d.dst, d.out[d.cmp - 1], 8), |data| - t.encLen);
  }

  /** The word of four bytes that starts `back` bytes from the end. */
  function EndWord(data: seq<u8>, back: nat): int
    requires 4 <= back <= |data|
  {
    var at := |data| - back;
    Word(data[at], data[at + 1], data[at + 2], data[at + 3])
  }

  lemma {:induction false} EndWordReads(data: seq<u8>, back: nat)
    requires 4 <= back <= |data|
    ensures TrailingU32(data, back).Some? && TrailingU32(data, back).value == EndWord(data, back)
  {
  }

  lemma {:induction false} NoWord(data: seq<u8>)
    requires |data| < 4
    ensures TrailingU32(data, 4).None?
  {
  }

  /** What the trailer decides before any code is read: too short, stored, malformed, or packed. */
  lemma {:induction false} TrailerInNumbers(data: seq<u8>, size: nat)
    requires |data| <= 0xFFFF_FFFF_0000_0000
    ensures var r := Decompressed(data, size);
      if |data| < 4 then r == Err(BufferTooSmall(4, |data|))
      else if EndWord(data, 4) == 0 then
        r == if size <= |data| - 4 then Ok(data[..size]) else Err(UnexpectedLength(size, |data| - 4))
      else if |data| < 12 then r == Err(BufferTooSmall(12, |data|))
      else
        var encLen, headerSize := EndWord(data, 12), EndWord(data, 8);
        if headerSize < 12 || headerSize > encLen || encLen > |data| then
          0 <= encLen && 0 <= headerSize && r == Err(MalformedTrailer(encLen, headerSize, |data|))
        else TrailerOf(data) == Some(Trailer(encLen, headerSize, EndWord(data, 4)))
  {
    hide Run, FromLe32, EndWord, TrailingU32;
    if |data| < 4 {
      assert TrailingU32(data, 4).None? by { NoWord(data); }
    } else {
      EndWordReads(data, 4);
      assert size <= |data| - 4 ==> data[..|data| - 4][..size] == data[..size];
    }
    if |data| >= 12 {
      EndWordReads(data, 8);
      EndWordReads(data, 12);
      assert !MalformedLayout(EndWord(data, 12), EndWord(data, 8), |data|, EndWord(data, 4)) <==>
        12 <= EndWord(data, 8) <= EndWord(data, 12) <= |data|;
    }
  }
}
