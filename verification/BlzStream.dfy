/** How the encoder's writes build up a stream, one code at a time and one flag shift at a time. */
module BlzStream {
  import opened Bytes
  import opened BlzFormat

  /** The payload bytes of a code; the match's two fields are disjoint bit ranges, so `|` is `+`. */
  function Payload(c: Code): (p: seq<u8>)
    requires Encodable(c)
    ensures |p| == Width(c) && CarriesPayload(p, 0, c)
  {
    match c
    case Lit(b) => [b]
    case Ref(len, dist) =>
      [(len - MIN_MATCH) * 16 + (dist - MIN_MATCH) / 0x100, (dist - MIN_MATCH) % 0x100]
  }

  function FlagBit(c: Code): nat {
    if c.Ref? then 1 else 0
  }

  /** The stream after one more code: a fresh flag byte, or the open one shifted left. */
  function Emit(stream: seq<u8>, codes: seq<Code>, c: Code): (r: seq<u8>)
    requires |stream| == Size(codes) && Encodable(c)
    requires |codes| != Group(|codes|) ==> OpenFlag(codes) < |stream| && stream[OpenFlag(codes)] < 0x80
  {
    if |codes| == Group(|codes|) then stream + [FlagBit(c)] + Payload(c)
    else stream[OpenFlag(codes) := 2 * stream[OpenFlag(codes)] + FlagBit(c)] + Payload(c)
  }

  /** Position of the flag byte of the last code's group. */
  function OpenFlag(codes: seq<Code>): nat
    requires codes != []
  {
    FlagIndex(codes, |codes| - 1)
  }

  function Pow2(k: nat): nat {
    if k == 0 then 1 else 2 * Pow2(k - 1)
  }

  /** Within a group the open flag byte stays put. */
  lemma {:induction false} OpenFlagStays(codes: seq<Code>, c: Code)
    requires |codes| != Group(|codes|)
    ensures OpenFlag(codes + [c]) == OpenFlag(codes)
  {
    SlotsInGroup(|codes|);
    TakeOfAppend(codes, [c], Group(|codes|));
  }

  lemma {:induction false} EmitSize(codes: seq<Code>, c: Code)
    ensures Size(codes + [c]) == Size(codes) + FlagWidth(|codes|) + Width(c)
    ensures Total(codes + [c]) == Total(codes) + Span(c)
  {
    TakeOfAppend(codes, [c], |codes|);
    assert codes[..|codes|] == codes;
  }

  /** Emitting a code leaves a stream that carries it and everything before it. */
  lemma {:induction false} EmitCarries(stream: seq<u8>, codes: seq<Code>, c: Code)
    requires CarriesUpTo(stream, codes, |codes| - 1) && Encodable(c)
    requires |codes| != Group(|codes|) ==> OpenFlag(codes) < |stream| && stream[OpenFlag(codes)] < 0x80
    ensures CarriesUpTo(Emit(stream, codes, c), codes + [c], |codes|)
  {
    var next, all := Emit(stream, codes, c), codes + [c];
    EmitSize(codes, c);
    forall i {:trigger CarriesCode(next, all, i, |codes|)} | 0 <= i <= |codes|
      ensures CarriesCode(next, all, i, |codes|)
    {
      if i == |codes| {
        EmitCarriesNew(stream, codes, c);
      } else {
        assert CarriesCode(stream, codes, i, |codes| - 1);
        if |codes| == Group(|codes|) {
          EmitKeepsClosed(stream, codes, c, i);
        } else {
          EmitKeepsOpen(stream, codes, c, i);
        }
      }
    }
  }

  lemma {:induction false} EmitCarriesNew(stream: seq<u8>, codes: seq<Code>, c: Code)
    requires |stream| == Size(codes) && Encodable(c)
    requires |codes| != Group(|codes|) ==> OpenFlag(codes) < |stream| && stream[OpenFlag(codes)] < 0x80
    ensures CarriesCode(Emit(stream, codes, c), codes + [c], |codes|, |codes|)
  {
    NewPayloadIndex(codes, c);
    NewFlagIndex(codes, c);
    NewCodeAt(stream, codes, c);
  }

  lemma {:induction false} NewCodeAt(stream: seq<u8>, codes: seq<Code>, c: Code)
    requires |stream| == Size(codes) && Encodable(c)
    requires |codes| != Group(|codes|) ==> OpenFlag(codes) < |stream| && stream[OpenFlag(codes)] < 0x80
    ensures CarriesAt(Emit(stream, codes, c), if |codes| == Group(|codes|) then Size(codes) else OpenFlag(codes), 0,
                      Size(codes) + FlagWidth(|codes|), c)
  {
    if |codes| == Group(|codes|) {
      CarriesAtEnd(stream + [FlagBit(c)], |stream|, c);
    } else {
      NewCodeInOpenGroup(stream, codes, c);
    }
  }

  lemma {:induction false} NewCodeInOpenGroup(stream: seq<u8>, codes: seq<Code>, c: Code)
    requires |stream| == Size(codes) && Encodable(c) && |codes| != Group(|codes|)
    requires OpenFlag(codes) < |stream| && stream[OpenFlag(codes)] < 0x80
    ensures CarriesAt(Emit(stream, codes, c), OpenFlag(codes), 0, Size(codes), c)
  {
    var f := OpenFlag(codes);
    CarriesAtEnd(stream[f := 2 * stream[f] + FlagBit(c)], f, c);
  }

  lemma {:induction false} NewPayloadIndex(codes: seq<Code>, c: Code)
    ensures PayloadIndex(codes + [c], |codes|) == Size(codes) + FlagWidth(|codes|)
  {
    TakeOfAppend(codes, [c], |codes|);
    assert codes[..|codes|] == codes;
  }

  lemma {:induction false} NewFlagIndex(codes: seq<Code>, c: Code)
    ensures FlagIndex(codes + [c], |codes|) == if |codes| == Group(|codes|) then Size(codes) else OpenFlag(codes)
  {
    var g := Group(|codes|);
    TakeOfAppend(codes, [c], g);
    if |codes| == Group(|codes|) {
      assert g == |codes|;
      assert codes[..|codes|] == codes;
    } else {
      SlotsInGroup(|codes|);
    }
  }

  lemma {:induction false} SlotsInGroup(n: nat)
    requires n != Group(n)
    ensures Group(n - 1) == Group(n)
  {
  }

  lemma {:induction false} CarriesAtEnd(stream: seq<u8>, flag: nat, c: Code)
    requires Encodable(c) && flag < |stream| && stream[flag] % 2 == FlagBit(c)
    ensures CarriesAt(stream + Payload(c), flag, 0, |stream|, c)
  {
  }

  lemma {:induction false} CarriesAtExtends(stream: seq<u8>, tail: seq<u8>, flag: nat, bit: nat, at: nat, c: Code)
    requires CarriesAt(stream, flag, bit, at, c)
    ensures CarriesAt(stream + tail, flag, bit, at, c)
  {
  }

  lemma {:induction false} CarriesAtShifts(stream: seq<u8>, f: nat, b: nat, flag: nat, bit: nat, at: nat, c: Code)
    requires f < |stream| && stream[f] < 0x80 && b <= 1
    requires CarriesAt(stream, flag, bit, at, c) && (at + Width(c) <= f || f < at)
    ensures CarriesAt(stream[f := 2 * stream[f] + b], flag, if flag == f then bit + 1 else bit, at, c)
  {
    assert (2 * stream[f] + b) / 2 == stream[f];
  }

  lemma {:induction false} EmitKeepsClosed(stream: seq<u8>, codes: seq<Code>, c: Code, i: nat)
    requires |stream| == Size(codes) && Encodable(c) && |codes| == Group(|codes|) && i < |codes|
    requires CarriesCode(stream, codes, i, |codes| - 1)
    ensures CarriesCode(Emit(stream, codes, c), codes + [c], i, |codes|)
  {
    SameIndices(codes, c, i);
    ClosedGroupBit(i, |codes|);
    CarriesAtExtends(stream, [FlagBit(c)] + Payload(c),
      FlagIndex(codes, i), BitIndex(i, |codes|), PayloadIndex(codes, i), codes[i]);
    assert stream + [FlagBit(c)] + Payload(c) == stream + ([FlagBit(c)] + Payload(c));
  }

  lemma {:induction false} SameIndices(codes: seq<Code>, c: Code, i: nat)
    requires i < |codes|
    ensures FlagIndex(codes + [c], i) == FlagIndex(codes, i)
    ensures PayloadIndex(codes + [c], i) == PayloadIndex(codes, i)
  {
    TakeOfAppend(codes, [c], Group(i));
    TakeOfAppend(codes, [c], i);
  }

  lemma {:induction false} EmitKeepsOpen(stream: seq<u8>, codes: seq<Code>, c: Code, i: nat)
    requires |stream| == Size(codes) && Encodable(c) && |codes| != Group(|codes|) && i < |codes|
    requires OpenFlag(codes) < |stream| && stream[OpenFlag(codes)] < 0x80
    requires CarriesCode(stream, codes, i, |codes| - 1)
    ensures CarriesCode(Emit(stream, codes, c), codes + [c], i, |codes|)
  {
    SameIndices(codes, c, i);
    SlotsInGroup(|codes|);
    var f := OpenFlag(codes);
    ShiftKeepsCode(stream, codes, i, |codes| - 1, FlagBit(c));
    CarriesAtExtends(stream[f := 2 * stream[f] + FlagBit(c)], Payload(c),
      FlagIndex(codes, i), BitIndex(i, |codes|), PayloadIndex(codes, i), codes[i]);
  }

  /** Shifting the last group's flag byte moves every flag in it up by one and touches nothing else. */
  lemma {:induction false} ShiftKeepsCode(stream: seq<u8>, codes: seq<Code>, i: nat, top: nat, bit: nat)
    requires i < |codes| <= top + 1 && top != Group(top) + 7 && bit <= 1
    requires Group(top) <= |codes| - 1
    requires |stream| == Size(codes) && OpenFlag(codes) < |stream| && stream[OpenFlag(codes)] < 0x80
    requires CarriesCode(stream, codes, i, top)
    ensures CarriesCode(stream[OpenFlag(codes) := 2 * stream[OpenFlag(codes)] + bit], codes, i, top + 1)
  {
    ShiftPositions(codes, i, top);
    CarriesAtShifts(stream, OpenFlag(codes), bit,
      FlagIndex(codes, i), BitIndex(i, top), PayloadIndex(codes, i), codes[i]);
  }

  lemma {:induction false} ShiftPositions(codes: seq<Code>, i: nat, top: nat)
    requires i < |codes| <= top + 1 && top != Group(top) + 7 && Group(top) <= |codes| - 1
    ensures PayloadIndex(codes, i) + Width(codes[i]) <= OpenFlag(codes) || OpenFlag(codes) < PayloadIndex(codes, i)
    ensures FlagIndex(codes, i) == OpenFlag(codes) <==> Group(i) == Group(top)
    ensures BitIndex(i, top + 1) == BitIndex(i, top) + if Group(i) == Group(top) then 1 else 0
  {
    var g := Group(top);
    SameGroup(|codes| - 1, top);
    if i < g {
      GroupBefore(i, g);
      EarlierGroup(codes, i, g);
    } else {
      SameGroup(i, top);
      SizeMonotone(codes, g, i);
    }
  }

  /** A code in an earlier group has its flag and its payload ahead of the next group's flag byte. */
  lemma {:induction false} EarlierGroup(codes: seq<Code>, i: nat, g: nat)
    requires i < g <= |codes| && Group(i) + 7 < g
    ensures PayloadIndex(codes, i) + Width(codes[i]) <= Size(codes[..g]) && FlagIndex(codes, i) < Size(codes[..g])
  {
    SizeMonotone(codes, Group(i), g);
    SizeMonotone(codes, i, g);
  }

  lemma {:induction false} SameGroup(i: nat, top: nat)
    requires Group(top) <= i <= top
    ensures Group(i) == Group(top)
  {
  }

  lemma {:induction false} ClosedGroupBit(i: nat, n: nat)
    requires i < n == Group(n)
    ensures BitIndex(i, n) == BitIndex(i, n - 1)
  {
    GroupBefore(i, n);
  }

  lemma {:induction false} GroupBefore(i: nat, g: nat)
    requires i < g && g == Group(g)
    ensures Group(i) + 7 < g
  {
  }

  /** Shifting an unfinished flag byte home one place. */
  lemma {:induction false} FlushCarries(stream: seq<u8>, codes: seq<Code>, top: nat)
    requires codes != [] && CarriesUpTo(stream, codes, top) && top != Group(top) + 7 && Group(top) <= |codes| - 1
    requires OpenFlag(codes) < |stream| && stream[OpenFlag(codes)] < 0x80
    ensures CarriesUpTo(stream[OpenFlag(codes) := 2 * stream[OpenFlag(codes)]], codes, top + 1)
  {
    var next := stream[OpenFlag(codes) := 2 * stream[OpenFlag(codes)]];
    forall i {:trigger CarriesCode(next, codes, i, top + 1)} | 0 <= i < |codes|
      ensures CarriesCode(next, codes, i, top + 1)
    {
      assert CarriesCode(stream, codes, i, top);
      ShiftKeepsCode(stream, codes, i, top, 0);
    }
  }

  /** Once the last group is full the stream is complete. */
  lemma {:induction false} FlushedCarries(stream: seq<u8>, codes: seq<Code>, top: int)
    requires CarriesUpTo(stream, codes, top) && (codes != [] ==> top >= 0 && top == Group(top) + 7)
    ensures Carries(stream, codes)
  {
    forall i {:trigger CarriesCode(stream, codes, i, |codes| + 7)} | 0 <= i < |codes|
      ensures CarriesCode(stream, codes, i, |codes| + 7)
    {
      assert CarriesCode(stream, codes, i, top);
      assert BitIndex(i, top) == BitIndex(i, |codes| + 7);
    }
  }

  /** A shift brings in one more clear bit. */
  lemma {:induction false} ShiftClears(flags: nat, n: nat)
    requires LowClear(flags, n)
    ensures LowClear(2 * flags, n + 1)
  {
    forall k | 0 <= k < n + 1
      ensures !TestBit(2 * flags, k)
    {
      assert k > 0 ==> 2 * flags / 2 == flags && !TestBit(flags, k - 1);
    }
  }

  /** Packed codes never take more than one byte per byte of data, plus the flag bytes. */
  lemma {:induction false} SizeBound(codes: seq<Code>)
    requires WellFormed(codes)
    ensures |codes| <= Total(codes) && Size(codes) <= Total(codes) + (|codes| + 7) / 8
  {
    if codes != [] {
      SizeBound(codes[..|codes| - 1]);
    }
  }
}
