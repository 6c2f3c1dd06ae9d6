/**
 * Back-reference search. `Longest` is the exhaustive ascending scan over every encodable distance;
 * `MatchFinder` is the hash-chain index that visits only same-bucket positions and must agree with it.
 */
module BlzMatch {
  import opened Bytes
  import opened BlzFormat

  const HASH_SIZE := 0x1_0000
  const HASH_MULTIPLIER := 0x9E37_79B1
  /** Empty-bucket and end-of-chain marker. */
  const NONE: u32 := 0xFFFF_FFFF

  // ---- Exhaustive search ----

  function Min(a: int, b: int): int {
    if a <= b then a else b
  }

  /** Longest match at `pos` against the data `offset` back, starting the comparison `from` bytes in. */
  function MatchLen(data: seq<u8>, pos: nat, offset: nat, from: nat): (len: nat)
    requires offset <= pos <= |data|
    decreases |data| - from
  {
    if from < MAX_MATCH && from < |data| - pos && from < offset && data[pos + from] == data[pos + from - offset]
    then MatchLen(data, pos, offset, from + 1)
    else from
  }

  /** Best (length, offset) among offsets `MIN_MATCH..=limit`, scanning upwards, strict improvements only. */
  function Scan(data: seq<u8>, pos: nat, limit: nat): (best: (nat, nat))
    requires limit <= pos <= |data|
    decreases limit
  {
    if limit < MIN_MATCH then (MATCH_THRESHOLD, 0)
    else
      var best := Scan(data, pos, limit - 1);
      var len := MatchLen(data, pos, limit, 0);
      if len > best.0 then (len, limit) else best
  }

  function Longest(data: seq<u8>, pos: nat): (best: (nat, nat))
    requires pos <= |data|
  {
    Scan(data, pos, Min(pos, MAX_OFFSET))
  }

  /** `len` bytes at `pos` repeat the bytes `offset` back, without overlapping them. */
  predicate IsMatch(data: seq<u8>, pos: nat, len: nat, offset: nat) {
    len <= offset <= pos && pos + len <= |data| &&
    forall k :: pos <= k < pos + len ==> data[k] == data[k - offset]
  }

  lemma {:induction false} MatchLenIsMaximal(data: seq<u8>, pos: nat, offset: nat, from: nat)
    requires from <= MAX_MATCH && offset <= pos && IsMatch(data, pos, from, offset)
    ensures var len := MatchLen(data, pos, offset, from);
      from <= len <= MAX_MATCH && IsMatch(data, pos, len, offset) &&
      (forall longer :: len < longer <= MAX_MATCH ==> !IsMatch(data, pos, longer, offset))
    decreases MAX_MATCH - from
  {
    if from < MAX_MATCH && from < |data| - pos && from < offset {
      if data[pos + from] == data[pos + from - offset] {
        MatchLenIsMaximal(data, pos, offset, from + 1);
      } else {
        assert data[pos + from] != data[pos + from - offset];
      }
    }
  }

  /**
   * What the search promises: nothing of three bytes or more exists and `(2, 0)` says so, or the
   * result is a match, none is longer, and none as long is nearer.
   */
  predicate IsBest(data: seq<u8>, pos: nat, limit: nat, best: (nat, nat))
    requires limit <= pos <= |data|
  {
    if best == (MATCH_THRESHOLD, 0) then
      forall offset, len :: MIN_MATCH <= offset <= limit && MIN_MATCH <= len <= MAX_MATCH ==> !IsMatch(data, pos, len, offset)
    else
      MIN_MATCH <= best.0 <= MAX_MATCH && MIN_MATCH <= best.1 <= limit && IsMatch(data, pos, best.0, best.1) &&
      forall offset, len :: MIN_MATCH <= offset <= limit && MIN_MATCH <= len <= MAX_MATCH && IsMatch(data, pos, len, offset) ==>
        len <= best.0 && (offset < best.1 ==> len < best.0)
  }

  lemma {:induction false} ScanIsBest(data: seq<u8>, pos: nat, limit: nat)
    requires limit <= pos <= |data|
    ensures IsBest(data, pos, limit, Scan(data, pos, limit))
    ensures MATCH_THRESHOLD <= Scan(data, pos, limit).0
    decreases limit
  {
    if limit >= MIN_MATCH {
      ScanIsBest(data, pos, limit - 1);
      MatchLenIsMaximal(data, pos, limit, 0);
      var best, found := Scan(data, pos, limit - 1), MatchLen(data, pos, limit, 0);
      forall offset, len | MIN_MATCH <= offset <= limit && MIN_MATCH <= len <= MAX_MATCH && IsMatch(data, pos, len, offset)
        ensures len <= Scan(data, pos, limit).0 && (offset < Scan(data, pos, limit).1 ==> len < Scan(data, pos, limit).0)
      {
        if offset == limit {
          assert len <= found;
        }
      }
    }
  }

  /** The result of the exhaustive search, stated without reference to how it scans. */
  lemma {:induction false} LongestIsBest(data: seq<u8>, pos: nat)
    requires pos <= |data|
    ensures IsBest(data, pos, Min(pos, MAX_OFFSET), Longest(data, pos))
    ensures MATCH_THRESHOLD <= Longest(data, pos).0
  {
    ScanIsBest(data, pos, Min(pos, MAX_OFFSET));
  }

  /** And that statement has only one answer. */
  lemma {:induction false} BestIsUnique(data: seq<u8>, pos: nat, limit: nat, a: (nat, nat), b: (nat, nat))
    requires limit <= pos <= |data| && IsBest(data, pos, limit, a) && IsBest(data, pos, limit, b)
    ensures a == b
  {
  }

  // ---- Hash chains ----

  /** Bucket of the three-byte prefix at `pos`: a wrapping 32-bit multiply, keeping the top 16 bits. */
  function Bucket(data: seq<u8>, pos: nat): (bucket: nat)
    requires pos + MIN_MATCH <= |data|
    ensures bucket < HASH_SIZE
  {
    var b0: int, b1: int, b2: int := data[pos], data[pos + 1], data[pos + 2];
    var key := b0 + b1 * 0x100 + b2 * 0x1_0000;
    key * HASH_MULTIPLIER % 0x1_0000_0000 / 0x1_0000
  }

  /** Number of positions with a whole three-byte prefix. */
  function Hashable(data: seq<u8>): nat {
    if |data| < MIN_MATCH - 1 then 0 else |data| - (MIN_MATCH - 1)
  }

  ghost function Buckets(data: seq<u8>): (buckets: seq<nat>)
    ensures |buckets| == Hashable(data)
    ensures forall q :: 0 <= q < |buckets| ==> buckets[q] == Bucket(data, q) < HASH_SIZE
  {
    seq(Hashable(data), q requires 0 <= q < Hashable(data) => Bucket(data, q))
  }

  /** `link` is the latest position before `pos` that falls in `bucket`, or `NONE`. */
  ghost predicate IsLatest(buckets: seq<nat>, pos: nat, bucket: nat, link: u32)
    requires pos <= |buckets|
  {
    if link == NONE then
      forall q :: 0 <= q < pos ==> buckets[q] != bucket
    else
      link < pos && buckets[link] == bucket &&
      forall q :: link < q < pos ==> buckets[q] != bucket
  }

  /** `head` maps every bucket to its latest position before `pos`. */
  ghost predicate HeadsLatest(buckets: seq<nat>, pos: nat, head: seq<u32>)
    requires pos <= |buckets|
  {
    |head| == HASH_SIZE && forall b :: 0 <= b < HASH_SIZE ==> IsLatest(buckets, pos, b, head[b])
  }

  /** Each of the first `pos` positions is linked to the previous one in its bucket. */
  ghost predicate Linked(buckets: seq<nat>, pos: nat, prev: seq<u32>)
    requires pos <= |buckets|
  {
    pos <= |prev| && forall p :: 0 <= p < pos ==> IsLatest(buckets, p, buckets[p], prev[p])
  }

  lemma {:induction false} HeadsStep(buckets: seq<nat>, pos: nat, head: seq<u32>)
    requires pos < |buckets| < NONE && buckets[pos] < HASH_SIZE && HeadsLatest(buckets, pos, head)
    ensures HeadsLatest(buckets, pos + 1, head[buckets[pos] := pos])
  {
    var next := head[buckets[pos] := pos];
    forall b | 0 <= b < HASH_SIZE
      ensures IsLatest(buckets, pos + 1, b, next[b])
    {
      assert IsLatest(buckets, pos, b, head[b]);
    }
  }

  lemma {:induction false} LinkedStep(buckets: seq<nat>, pos: nat, head: seq<u32>, prev: seq<u32>)
    requires pos < |buckets| && buckets[pos] < HASH_SIZE && pos < |prev|
    requires HeadsLatest(buckets, pos, head) && Linked(buckets, pos, prev)
    ensures Linked(buckets, pos + 1, prev[pos := head[buckets[pos]]])
  {
    assert IsLatest(buckets, pos, buckets[pos], head[buckets[pos]]);
  }

  /** Positions in different buckets share no three-byte match, so the scan over them changes nothing. */
  lemma {:induction false} ScanSkips(data: seq<u8>, pos: nat, low: nat, high: nat)
    requires low <= high <= pos && pos < Hashable(data)
    requires forall q :: pos - high <= q < pos - low ==> Bucket(data, q) != Bucket(data, pos)
    ensures Scan(data, pos, high) == Scan(data, pos, low)
    decreases high
  {
    if low < high {
      ScanSkips(data, pos, low, high - 1);
      if high >= MIN_MATCH {
        OtherBucketNoMatch(data, pos, high);
        ScanIsBest(data, pos, high - 1);
      }
    }
  }

  lemma {:induction false} OtherBucketNoMatch(data: seq<u8>, pos: nat, offset: nat)
    requires MIN_MATCH <= offset <= pos < Hashable(data)
    requires Bucket(data, pos - offset) != Bucket(data, pos)
    ensures MatchLen(data, pos, offset, 0) <= MATCH_THRESHOLD
  {
    MatchLenIsMaximal(data, pos, offset, 0);
    if MatchLen(data, pos, offset, 0) >= MIN_MATCH {
      MatchSharesBucket(data, pos, MatchLen(data, pos, offset, 0), offset);
    }
  }

  lemma {:induction false} MatchSharesBucket(data: seq<u8>, pos: nat, len: nat, offset: nat)
    requires IsMatch(data, pos, len, offset) && len >= MIN_MATCH
    ensures Bucket(data, pos - offset) == Bucket(data, pos)
  {
    assert data[pos] == data[pos - offset];
    assert data[pos + 1] == data[pos + 1 - offset];
    assert data[pos + 2] == data[pos + 2 - offset];
  }

  lemma {:induction false} ScanNearEnd(data: seq<u8>, pos: nat, limit: nat)
    requires limit <= pos <= |data| < pos + MIN_MATCH
    ensures Scan(data, pos, limit) == (MATCH_THRESHOLD, 0)
    decreases limit
  {
    if limit >= MIN_MATCH {
      ScanNearEnd(data, pos, limit - 1);
      MatchLenIsMaximal(data, pos, limit, 0);
    }
  }

  lemma {:induction false} ScanKeepsMaximum(data: seq<u8>, pos: nat, low: nat, high: nat)
    requires low <= high <= pos <= |data| && Scan(data, pos, low).0 == MAX_MATCH
    ensures Scan(data, pos, high) == Scan(data, pos, low)
    decreases high
  {
    if low < high {
      ScanKeepsMaximum(data, pos, low, high - 1);
      if high >= MIN_MATCH {
        MatchLenIsMaximal(data, pos, high, 0);
      }
    }
  }

  /** Index over the reversed input: for each position, the previous one in its bucket. */
  class MatchFinder {
    const data: seq<u8>
    const prev: array<u32>

    ghost predicate Valid()
      reads this, prev
    {
      prev.Length == |data| < NONE &&
      Linked(Buckets(data), Hashable(data), prev[..])
    }

    constructor (data: seq<u8>)
      requires |data| < NONE
      ensures Valid() && this.data == data && fresh(prev)
    {
      this.data := data;
      this.prev := new u32[|data|](_ => NONE);
      new;
      var head := new u32[HASH_SIZE](_ => NONE);
      LinkChains(data, head, prev);
    }

    /** Link each hashable position to the previous occupant of its bucket, in one forward pass. */
    static method LinkChains(data: seq<u8>, head: array<u32>, prev: array<u32>)
      requires head != prev && head.Length == HASH_SIZE && prev.Length == |data| < NONE
      requires forall b :: 0 <= b < HASH_SIZE ==> head[b] == NONE
      modifies head, prev
      ensures Linked(Buckets(data), Hashable(data), prev[..])
    {
      ghost var buckets := Buckets(data);
      for pos := 0 to Hashable(data)
        invariant HeadsLatest(buckets, pos, head[..]) && Linked(buckets, pos, prev[..])
      {
        var bucket := Bucket(data, pos);
        assert buckets[pos] == bucket;
        HeadsStep(buckets, pos, head[..]);
        LinkedStep(buckets, pos, head[..], prev[..]);
        ghost var heads, links := head[..], prev[..];
        prev[pos] := head[bucket];
        head[bucket] := pos;
        assert head[..] == heads[bucket := pos] && prev[..] == links[pos := heads[bucket]];
      }
    }

    /** The nearest-first walk of one chain finds exactly what the exhaustive scan finds. */
    method LongestMatch(pos: nat) returns (bestLen: nat, bestOffset: nat)
      requires Valid() && pos <= |data|
      ensures (bestLen, bestOffset) == Longest(data, pos)
    {
      bestLen, bestOffset := MATCH_THRESHOLD, 0;
      var limit := Min(pos, MAX_OFFSET);
      if |data| < pos + MIN_MATCH {
        ScanNearEnd(data, pos, limit);
        return;
      }

      var candidate: u32 := prev[pos];
      ghost var seen: nat := 0;  // every offset up to `seen` has been accounted for
      assert IsLatest(Buckets(data), pos, Bucket(data, pos), candidate);
      while candidate != NONE
        invariant seen <= limit && (bestLen, bestOffset) == Scan(data, pos, seen)
        invariant candidate != NONE ==> candidate < pos && seen < pos - candidate && Bucket(data, candidate) == Bucket(data, pos)
        invariant forall q ::
          (if candidate == NONE then 0 else candidate + 1) <= q < pos - seen ==> Bucket(data, q) != Bucket(data, pos)
        decreases if candidate == NONE then 0 else candidate + 1
      {
        var offset := pos - candidate;
        if offset > MAX_OFFSET {
          break;
        }
        ScanSkips(data, pos, seen, offset - 1);
        bestLen, bestOffset := TryOffset(pos, offset, bestLen, bestOffset);
        if bestLen == MAX_MATCH {
          ScanKeepsMaximum(data, pos, offset, limit);
          return;
        }
        seen := offset;
        assert IsLatest(Buckets(data), candidate, Bucket(data, candidate), prev[candidate]);
        candidate := prev[candidate];
      }
      ScanSkips(data, pos, seen, limit);
    }

    /** Compare at one offset, keeping only a strictly longer match; offsets below three are skipped. */
    method TryOffset(pos: nat, offset: nat, bestLen: nat, bestOffset: nat) returns (newLen: nat, newOffset: nat)
      requires Valid() && 0 < offset <= pos <= |data| && (bestLen, bestOffset) == Scan(data, pos, offset - 1)
      ensures (newLen, newOffset) == Scan(data, pos, offset)
    {
      newLen, newOffset := bestLen, bestOffset;
      if offset >= MIN_MATCH {
        var len := CommonLength(pos, offset);
        if len > bestLen {
          newLen, newOffset := len, offset;
        }
      }
    }

    method CommonLength(pos: nat, offset: nat) returns (len: nat)
      requires Valid() && offset <= pos <= |data|
      ensures len == MatchLen(data, pos, offset, 0)
    {
      len := 0;
      while len < MAX_MATCH && len != |data| - pos && len < offset && data[pos + len] == data[pos + len - offset]
        invariant len <= |data| - pos && MatchLen(data, pos, offset, 0) == MatchLen(data, pos, offset, len)
        decreases MAX_MATCH - len
      {
        len := len + 1;
      }
    }
  }
}
