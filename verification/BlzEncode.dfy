/** The encoder, over the buffers it works in place on. */
module BlzEncode {
  import opened Bytes
  import opened BlzFormat
  import opened BlzMatch
  import opened BlzParse
  import opened BlzStream

  /** Upper bound on the compressed size: one flag bit per code, the trailer, and padding. */
  function WorstCaseLen(rawLen: nat): nat {
    rawLen + (rawLen + 7) / 8 + 15
  }

  /** Reverse the first `n` elements in place. */
  method ReverseInPlace(a: array<u8>, n: nat)
    requires n <= a.Length
    modifies a
    ensures a[..n] == Reversed(old(a[..n])) && a[n..] == old(a[n..])
  {
    var i := 0;
    while i < n / 2
      invariant i <= n / 2
      invariant forall k :: 0 <= k < i ==> a[k] == old(a[n - 1 - k]) && a[n - 1 - k] == old(a[k])
      invariant forall k :: i <= k < n - i ==> a[k] == old(a[k])
      invariant forall k :: n <= k < a.Length ==> a[k] == old(a[k])
    {
      a[i], a[n - 1 - i] := a[n - 1 - i], a[i];
      i := i + 1;
    }
    ghost var was := old(a[..n]);
    forall k | 0 <= k < n
      ensures a[..n][k] == Reversed(was)[k]
    {
    }
  }

  // ---- The encoding loop ----

  /** The stream written so far, with its last flag byte still being shifted in. */
  ghost predicate Writing(stream: seq<u8>, codes: seq<Code>, mask: nat, flagPos: nat) {
    CarriesUpTo(stream, codes, |codes| - 1) &&
    if codes == [] then mask == 0
    else flagPos == OpenFlag(codes) < |stream| && Shifted(stream[flagPos], mask, |codes| - 1)
  }

  /** A flag byte holding the flags of slots `Group(top)..=top`, and the mask that goes with it. */
  predicate Shifted(flags: nat, mask: nat, top: nat) {
    mask == Pow2(Group(top) + 7 - top) && flags < Pow2(top - Group(top) + 1)
  }

  lemma {:induction false} Pow2Values(k: nat)
    requires k <= 8
    ensures Pow2(k) == [1, 2, 4, 8, 0x10, 0x20, 0x40, 0x80, 0x100][k]
  {
    if k > 0 {
      Pow2Values(k - 1);
    }
  }

  /** With room left in the group, shifting the byte loses nothing and halves the mask. */
  lemma {:induction false} ShiftedStep(flags: nat, mask: nat, top: nat, bit: nat)
    requires Shifted(flags, mask, top) && top != Group(top) + 7 && bit <= 1
    ensures flags < 0x80 && Shifted(2 * flags + bit, mask / 2, top + 1) && mask / 2 > 0 && mask > 1
    ensures Group(top + 1) == Group(top)
  {
    SameGroup(top + 1, Group(top) + 7);
    Pow2Values(top - Group(top) + 1);
    Pow2Values(7 - (top - Group(top)));
    Pow2Values(7 - (top - Group(top)) - 1);
  }

  lemma {:induction false} MaskAtEnd(mask: nat, flags: nat, top: nat)
    requires Shifted(flags, mask, top)
    ensures mask > 0 && (mask == 1 <==> top == Group(top) + 7)
  {
    Pow2Values(7 - (top - Group(top)));
  }

  lemma {:induction false} FreshFlag(c: Code, n: nat)
    requires n == Group(n)
    ensures Shifted(FlagBit(c), 0x80, n)
  {
    Pow2Values(7);
    Pow2Values(1);
  }

  /** Write one code, opening a flag byte when the mask has run out. */
  method EmitCode(output: array<u8>, c: Code, mask: nat, flagPos: nat, writePos: nat, ghost codes: seq<Code>)
    returns (newMask: nat, newFlagPos: nat, newWritePos: nat)
    requires writePos + 3 <= output.Length && Encodable(c)
    requires Writing(output[..writePos], codes, mask, flagPos)
    modifies output
    ensures newWritePos == writePos + FlagWidth(|codes|) + Width(c) == Size(codes + [c])
    ensures Writing(output[..newWritePos], codes + [c], newMask, newFlagPos)
  {
    ghost var stream := output[..writePos];
    EmitReady(stream, codes, c, mask, flagPos);
    newMask, newFlagPos, newWritePos := ShiftInFlag(output, c.Ref?, mask, flagPos, writePos);
    newWritePos := WritePayload(output, newWritePos, c);
  }

  /** Advance the mask, open a flag byte if it ran out, and shift this code's flag in. */
  method ShiftInFlag(output: array<u8>, flag: bool, mask: nat, flagPos: nat, writePos: nat)
    returns (newMask: nat, newFlagPos: nat, newWritePos: nat)
    requires writePos < output.Length
    requires mask / 2 != 0 ==> flagPos < writePos && output[flagPos] < 0x80
    modifies output
    ensures newMask == if mask / 2 == 0 then 0x80 else mask / 2
    ensures newFlagPos == if mask / 2 == 0 then writePos else flagPos
    ensures newWritePos == if mask / 2 == 0 then writePos + 1 else writePos
    ensures var stream, bit := old(output[..writePos]), if flag then 1 else 0;
      output[..newWritePos] ==
      if mask / 2 == 0 then stream + [bit] else stream[flagPos := 2 * stream[flagPos] + bit]
  {
    newMask, newFlagPos, newWritePos := mask / 2, flagPos, writePos;
    if newMask == 0 {
      newFlagPos := newWritePos;
      output[newFlagPos] := 0;
      newWritePos := newWritePos + 1;
      newMask := 0x80;
    }
    output[newFlagPos] := 2 * output[newFlagPos] % 0x100;
    if flag {
      output[newFlagPos] := output[newFlagPos] + 1;
    }
  }

  method WritePayload(output: array<u8>, at: nat, c: Code) returns (end: nat)
    requires at + 2 <= output.Length && Encodable(c)
    modifies output
    ensures end == at + Width(c) && output[..end] == old(output[..at]) + Payload(c)
  {
    match c {
      case Ref(len, dist) =>
        output[at] := (len - MIN_MATCH) * 16 + (dist - MIN_MATCH) / 0x100;
        output[at + 1] := (dist - MIN_MATCH) % 0x100;
        end := at + 2;
      case Lit(b) =>
        output[at] := b;
        end := at + 1;
    }
  }

  /** What emitting `c` does to the stream, the mask and the flag byte. */
  lemma {:induction false} EmitReady(stream: seq<u8>, codes: seq<Code>, c: Code, mask: nat, flagPos: nat)
    requires Writing(stream, codes, mask, flagPos) && Encodable(c)
    ensures |stream| == Size(codes) && (mask / 2 == 0 <==> |codes| == Group(|codes|))
    ensures |codes| != Group(|codes|) ==> flagPos == OpenFlag(codes) < |stream| && stream[flagPos] < 0x80
    ensures Size(codes + [c]) == Size(codes) + FlagWidth(|codes|) + Width(c)
    ensures Writing(Emit(stream, codes, c), codes + [c],
                    if |codes| == Group(|codes|) then 0x80 else mask / 2,
                    if |codes| == Group(|codes|) then |stream| else flagPos)
  {
    hide CarriesUpTo, Shifted, Payload, Size;
    var n := |codes|;
    EmitSize(codes, c);
    if n != Group(n) {
      SlotsInGroup(n);
      ShiftedStep(stream[flagPos], mask, n - 1, FlagBit(c));
      OpenFlagStays(codes, c);
    } else {
      FreshFlag(c, n);
      NewFlagIndex(codes, c);
      if n > 0 {
        FullGroupBefore(n);
        MaskAtEnd(mask, stream[flagPos], n - 1);
      }
    }
    EmitCarries(stream, codes, c);
  }

  lemma {:induction false} FullGroupBefore(n: nat)
    requires 0 < n == Group(n)
    ensures n - 1 == Group(n - 1) + 7
  {
    GroupBefore(n - 1, n);
  }

  lemma {:induction false} FlushStep(stream: seq<u8>, codes: seq<Code>, top: nat, mask: nat, flagPos: nat)
    requires codes != [] && CarriesUpTo(stream, codes, top) && Group(top) == Group(|codes| - 1)
    requires flagPos == OpenFlag(codes) < |stream| && Shifted(stream[flagPos], mask, top) && mask != 1
    ensures stream[flagPos] < 0x80 && Group(top + 1) == Group(top) && 0 < mask / 2
    ensures Shifted(2 * stream[flagPos], mask / 2, top + 1)
    ensures CarriesUpTo(stream[flagPos := 2 * stream[flagPos]], codes, top + 1)
  {
    MaskAtEnd(mask, stream[flagPos], top);
    ShiftedStep(stream[flagPos], mask, top, 0);
    FlushCarries(stream, codes, top);
  }

  /** Shift the last flag byte home past its unused bits. */
  method FlushFlags(output: array<u8>, mask: nat, flagPos: nat, writePos: nat, ghost codes: seq<Code>)
    requires writePos <= output.Length && Writing(output[..writePos], codes, mask, flagPos)
    modifies output
    ensures CarriesOnly(output[..writePos], codes)
  {
    var m := mask;
    ghost var top := |codes| - 1;
    while m != 0 && m != 1
      invariant CarriesUpTo(output[..writePos], codes, top) && (codes == [] ==> m == 0)
      invariant codes != [] ==> top >= |codes| - 1 && Group(top) == Group(|codes| - 1)
      invariant codes != [] ==> flagPos == OpenFlag(codes) < writePos && Shifted(output[flagPos], m, top)
      invariant codes != [] ==> LowClear(output[flagPos], top + 1 - |codes|)
      decreases m
    {
      ghost var stream := output[..writePos];
      FlushStep(stream, codes, top, m, flagPos);
      ShiftClears(stream[flagPos], top + 1 - |codes|);
      m := m / 2;
      output[flagPos] := 2 * output[flagPos] % 0x100;
      assert output[..writePos] == stream[flagPos := 2 * stream[flagPos]];
      top := top + 1;
    }
    if codes != [] {
      MaskAtEnd(m, output[flagPos], top);
    }
    FlushedCarries(output[..writePos], codes, top);
  }

  /** The lazy decision at `pos`, by three searches. */
  method ChooseCode(finder: MatchFinder, pos: nat) returns (c: Code)
    requires finder.Valid() && pos < |finder.data|
    ensures c == Choose(finder.data, pos)
  {
    LongestIsBest(finder.data, pos);
    var matchLen, matchOffset := finder.LongestMatch(pos);
    if matchLen > MATCH_THRESHOLD && pos + matchLen < |finder.data| {
      var defers := LookAhead(finder, pos, matchLen);
      if defers {
        matchLen := 1;
      }
    }
    if matchLen > MATCH_THRESHOLD {
      c := Ref(matchLen, matchOffset);
    } else {
      c := Lit(finder.data[pos]);
    }
  }

  method LookAhead(finder: MatchFinder, pos: nat, matchLen: nat) returns (defers: bool)
    requires finder.Valid() && pos + matchLen < |finder.data|
    ensures defers == Defers(finder.data, pos, matchLen)
  {
    var nextLen, _ := finder.LongestMatch(pos + matchLen);
    var postLen, _ := finder.LongestMatch(pos + 1);
    if nextLen <= MATCH_THRESHOLD {
      nextLen := 1;
    }
    if postLen <= MATCH_THRESHOLD {
      postLen := 1;
    }
    defers := matchLen + nextLen <= 1 + postLen;
  }

  /** Choose and write code `n` of the parse. */
  method EncodeOne(finder: MatchFinder, output: array<u8>, mask: nat, flagPos: nat, readPos: nat, writePos: nat,
                   ghost codes: seq<Code>, ghost n: nat)
    returns (newMask: nat, newFlagPos: nat, newReadPos: nat, newWritePos: nat)
    requires finder.Valid() && output.Length >= WorstCaseLen(|finder.data|) && output as object != finder.prev
    requires codes == Parse(finder.data) && n <= |codes| && readPos == Total(codes[..n]) < |finder.data|
    requires writePos == Size(codes[..n]) <= output.Length && Writing(output[..writePos], codes[..n], mask, flagPos)
    modifies output
    ensures n < |codes| && newReadPos == Total(codes[..n + 1]) <= |finder.data|
    ensures newWritePos == Size(codes[..n + 1]) <= output.Length
    ensures Writing(output[..newWritePos], codes[..n + 1], newMask, newFlagPos)
  {
    var c := ChooseCode(finder, readPos);
    ParseAt(finder.data, n);
    ParseAt(finder.data, n + 1);
    RoomForCode(codes, n, |finder.data|);
    TakeOneMore(codes, n);
    newMask, newFlagPos, newWritePos := EmitCode(output, c, mask, flagPos, writePos, codes[..n]);
    newReadPos := readPos + Span(c);
  }

  /** Encode the whole reversed input, tracking the split where the output is smallest. */
  method EncodeAll(finder: MatchFinder, output: array<u8>) returns (packedLen: nat, bestPacked: nat, bestRemaining: nat)
    requires finder.Valid() && output.Length >= WorstCaseLen(|finder.data|)
    requires output as object != finder.prev
    modifies output
    ensures packedLen <= output.Length && CarriesOnly(output[..packedLen], Parse(finder.data))
    ensures var codes := Parse(finder.data);
      var n := Split(codes, |finder.data|, |codes|);
      bestPacked == Size(codes[..n]) && bestRemaining == |finder.data| - Total(codes[..n])
  {
    var len := |finder.data|;
    var mask, readPos, writePos, flagPos := 0, 0, 0, 0;
    bestPacked, bestRemaining := 0, len;

    ghost var codes := Parse(finder.data);
    ghost var n, best := 0, 0;
    assert codes[..0] == [] && output[..0] == [];
    while readPos < len
      invariant finder.Valid() && n <= |codes| && readPos == Total(codes[..n]) <= len
      invariant writePos == Size(codes[..n]) <= output.Length
      invariant Writing(output[..writePos], codes[..n], mask, flagPos)
      invariant best == Split(codes, len, n)
      invariant bestPacked == Size(codes[..best]) && bestRemaining == len - Total(codes[..best])
      decreases |codes| - n
    {
      mask, flagPos, readPos, writePos := EncodeOne(finder, output, mask, flagPos, readPos, writePos, codes, n);
      n := n + 1;
      if writePos + len - readPos < bestPacked + bestRemaining {
        bestPacked, bestRemaining := writePos, len - readPos;
        best := n;
      }
    }
    ParseAt(finder.data, n);
    assert codes[..n] == codes;
    FlushFlags(output, mask, flagPos, writePos, codes);
    packedLen := writePos;
  }

  /** Before each code there is room in a worst-case buffer for a flag byte and two bytes of payload. */
  lemma {:induction false} RoomForCode(codes: seq<Code>, n: nat, len: nat)
    requires n < |codes| && WellFormed(codes[..n]) && Total(codes[..n]) < len
    ensures Size(codes[..n]) + 3 <= WorstCaseLen(len)
  {
    SizeBound(codes[..n]);
  }
}
