/** Reading a kernel capability block back: what it grants, and why there is one block for it. */
module NpdmGrants {
  import opened Bytes
  import opened Packing
  import opened Order
  import opened NpdmCapability
  import opened NpdmSyscalls
  import opened NpdmBlocks

  /** The capabilities of a block other than syscalls, in order, and every syscall it allows. */
  datatype Grants = Grants(capabilities: seq<Capability>, syscalls: set<nat>)

  // ---- Reading words ----

  /** The syscalls a mask word allows. */
  function MaskIds(v: bv32): set<nat> {
    set o: nat {:trigger Slot(o)} | o < PER_MASK && Has(v, Slot(o)) :: PER_MASK * IndexOf(v) + o
  }

  lemma {:induction false} InMaskIds(v: bv32, id: nat)
    ensures id in MaskIds(v) <==> id / PER_MASK == IndexOf(v) && Has(v, Slot(id % PER_MASK))
  {
    hide Slot, Has, IndexOf;
    var o := id % PER_MASK;
    assert id == PER_MASK * (id / PER_MASK) + o;
    if id in MaskIds(v) {
      var p: nat :| p < PER_MASK && Has(v, Slot(p)) && id == PER_MASK * IndexOf(v) + p;
      assert p == o;
    } else if id / PER_MASK == IndexOf(v) {
      assert !Has(v, Slot(o));
    }
  }

  /** One descriptor at a time; only `Map` takes two words. */
  function ReadGrants(ws: seq<bv32>): Option<Grants>
    decreases |ws|
  {
    if ws == [] then Some(Grants([], {}))
    else if TrailingOnes(ws[0]) == 4 then
      var rest := ReadGrants(ws[1..]);
      if rest.None? then None else Some(rest.value.(syscalls := MaskIds(ws[0]) + rest.value.syscalls))
    else
      var width := if TrailingOnes(ws[0]) == 6 then 2 else 1;
      if |ws| < width || Decode(ws[..width]).None? then None
      else
        var rest := ReadGrants(ws[width..]);
        if rest.None? then None
        else Some(rest.value.(capabilities := [Decode(ws[..width]).value] + rest.value.capabilities))
  }

  /** A block's words, little-endian. */
  function WordsOf(b: seq<u8>): (ws: seq<bv32>)
    requires |b| % 4 == 0
    ensures |ws| == |b| / 4
  {
    seq(|b| / 4, k requires 0 <= k < |b| / 4 => U32At(b, 4 * k) as bv32)
  }

  function ParseGrants(b: seq<u8>): Option<Grants> {
    if |b| % 4 != 0 then None else ReadGrants(WordsOf(b))
  }

  // ---- What capabilities grant ----

  function BelowLimit(ids: seq<u64>): (r: set<nat>)
    ensures forall id :: id in r <==> id in ids && id < LIMIT
  {
    set id: nat | id < LIMIT && id in ids
  }

  /** Every capability cut to the bits its descriptor keeps, and every requested syscall a mask can express. */
  function Granted(caps: seq<Capability>): Grants {
    if caps == [] then Grants([], {})
    else
      var rest := Granted(caps[1..]);
      if caps[0].Syscalls? then rest.(syscalls := BelowLimit(caps[0].ids) + rest.syscalls)
      else rest.(capabilities := [Masked(caps[0])] + rest.capabilities)
  }

  // ---- Reading an encoding back ----

  /** The syscalls of several mask words. */
  function AllIds(ws: seq<bv32>): (ids: set<nat>)
    ensures forall id :: id in ids <==> exists w :: w in ws && id in MaskIds(w)
  {
    if ws == [] then {}
    else
      assert ws == [ws[0]] + ws[1..];
      MaskIds(ws[0]) + AllIds(ws[1..])
  }

  lemma {:induction false} MasksRead(words: seq<bv32>, rest: seq<bv32>)
    requires (forall w :: w in words ==> TrailingOnes(w) == 4) && ReadGrants(rest).Some?
    ensures ReadGrants(words + rest) == Some(ReadGrants(rest).value.(syscalls := AllIds(words) + ReadGrants(rest).value.syscalls))
  {
    hide TrailingOnes, MaskIds, Decode;
    var r := ReadGrants(rest).value;
    if words == [] {
      assert words + rest == rest;
      assert AllIds(words) + r.syscalls == r.syscalls;
    } else {
      assert words[0] in words && (words + rest)[1..] == words[1..] + rest;
      MasksRead(words[1..], rest);
      assert MaskIds(words[0]) + (AllIds(words[1..]) + r.syscalls) == AllIds(words) + r.syscalls;
    }
  }

  /** The mask words of a syscall list allow exactly the ids below the limit. */
  lemma {:induction false} ExpressedIds(words: seq<bv32>, ids: seq<u64>)
    requires Expresses(words, ids, 0)
    ensures AllIds(words) == BelowLimit(ids)
  {
    hide TrailingOnes, Has, Slot, IndexOf, MaskIds;
    forall id: nat
      ensures id in AllIds(words) <==> id in BelowLimit(ids)
    {
      if id in AllIds(words) {
        var w :| w in words && id in MaskIds(w);
        InMaskIds(w, id);
        IndexBelow(w);
        BitIsRequest(words, ids, w, id % PER_MASK);
        assert id == PER_MASK * (id / PER_MASK) + id % PER_MASK;
      }
      if id in BelowLimit(ids) {
        var w :| w in words && IndexOf(w) == id / PER_MASK && Has(w, Slot(id % PER_MASK));
        InMaskIds(w, id);
      }
    }
  }

  lemma {:induction false} IndexBelow(w: bv32)
    ensures IndexOf(w) < MASKS
  {
  }

  lemma {:induction false} EncodingRead(words: seq<bv32>, c: Capability, rest: seq<bv32>)
    requires IsEncoding(words, c) && !c.Syscalls? && ReadGrants(rest).Some?
    ensures ReadGrants(words + rest) ==
            Some(ReadGrants(rest).value.(capabilities := [Masked(c)] + ReadGrants(rest).value.capabilities))
  {
    hide TrailingOnes, Decode, Descriptors, Masked;
    DescriptorCount(c);
    DescriptorsAreMarked(c, 0);
    DecodesToMasked(c);
    var all := words + rest;
    assert all[0] == words[0] && all[..|words|] == words && all[|words|..] == rest;
  }

  lemma {:induction false} DescriptorCount(c: Capability)
    requires !c.Syscalls?
    ensures |Descriptors(c)| == if c.Map? then 2 else 1
  {
    hide MapWord, SizeBits, JoinRegions, RegionAt, Low32;
  }

  lemma {:induction false} FlatFromFront(wss: seq<seq<bv32>>)
    requires wss != []
    ensures Flat(wss) == wss[0] + Flat(wss[1..])
  {
    var n := |wss| - 1;
    if n == 0 {
      assert wss[..0] == [] && wss[1..] == [] && [] + wss[0] == wss[0] == wss[0] + [];
    } else {
      FlatFromFront(wss[..n]);
      assert wss[..n][1..] == wss[1..][..n - 1] && wss[1..][n - 1] == wss[n];
    }
  }

  lemma {:induction false} EncodingsRead(wss: seq<seq<bv32>>, caps: seq<Capability>)
    requires AreEncodings(wss, caps)
    ensures ReadGrants(Flat(wss)) == Some(Granted(caps))
  {
    hide TrailingOnes, Decode, Descriptors, Masked, AllIds, MaskIds;
    if caps != [] {
      FlatFromFront(wss);
      EncodingsRead(wss[1..], caps[1..]);
      if caps[0].Syscalls? {
        MasksRead(wss[0], Flat(wss[1..]));
        ExpressedIds(wss[0], caps[0].ids);
      } else {
        EncodingRead(wss[0], caps[0], Flat(wss[1..]));
      }
    }
  }

  lemma {:induction false} WordThroughInt(v: bv32)
    ensures (v as u32) as bv32 == v
  {
  }

  lemma {:induction false} WordsReadBack(ws: seq<bv32>)
    ensures |Words(AsWords(ws))| % 4 == 0 && WordsOf(Words(AsWords(ws))) == ws
  {
    hide Words, FromLe32;
    var b := Words(AsWords(ws));
    assert b[0..0 + 4 * |ws|] == b;
    forall k | 0 <= k < |ws|
      ensures WordsOf(b)[k] == ws[k]
    {
      WordReads(b, 0, AsWords(ws), k);
      WordThroughInt(ws[k]);
    }
  }

  /** A block parses back to exactly what its capabilities grant. */
  lemma {:induction false} GrantsReadBack(data: seq<u8>, caps: seq<Capability>)
    requires IsKcOf(data, caps)
    ensures ParseGrants(data) == Some(Granted(caps))
  {
    hide AreEncodings, Words, WordsOf, AsWords, ReadGrants, Granted, Flat;
    var wss :| AreEncodings(wss, caps) && data == Words(AsWords(Flat(wss)));
    WordsReadBack(Flat(wss));
    EncodingsRead(wss, caps);
  }

  // ---- One block for one list of capabilities ----

  function Nibble(v: bv32, b: bv5): bv32 {
    (v >> b) & 0xF
  }

  lemma {:induction false} NibbleFromBits(v: bv32, w: bv32, b: bv5)
    requires b < 28 && Has(v, b) == Has(w, b) && Has(v, b + 1) == Has(w, b + 1) && Has(v, b + 2) == Has(w, b + 2) && Has(v, b + 3) == Has(w, b + 3)
    ensures Nibble(v, b) == Nibble(w, b)
  {
  }

  lemma {:induction false} WordFromNibbles(v: bv32, w: bv32)
    requires LowBits(v) == LowBits(w) && TopBits(v) == TopBits(w)
    requires Nibble(v, 5) == Nibble(w, 5) && Nibble(v, 9) == Nibble(w, 9) && Nibble(v, 13) == Nibble(w, 13)
    requires Nibble(v, 17) == Nibble(w, 17) && Nibble(v, 21) == Nibble(w, 21) && Nibble(v, 25) == Nibble(w, 25)
    ensures v == w
  {
  }

  lemma {:induction false} WordFromBits(v: bv32, w: bv32)
    requires LowBits(v) == LowBits(w) && TopBits(v) == TopBits(w)
    requires forall b: bv5 {:trigger Has(v, b)} {:trigger Has(w, b)} :: b >= 5 && b < 29 ==> Has(v, b) == Has(w, b)
    ensures v == w
  {
    hide Has, Nibble, LowBits, TopBits;
    NibbleFromBits(v, w, 5);
    NibbleFromBits(v, w, 9);
    NibbleFromBits(v, w, 13);
    NibbleFromBits(v, w, 17);
    NibbleFromBits(v, w, 21);
    NibbleFromBits(v, w, 25);
    WordFromNibbles(v, w);
  }

  lemma {:induction false} MarkerBits(v: bv32)
    requires TrailingOnes(v) == 4
    ensures LowBits(v) == 0xF
  {
  }

  lemma {:induction false} SameTop(v: bv32, w: bv32)
    requires IndexOf(v) == IndexOf(w)
    ensures TopBits(v) == TopBits(w)
  {
  }

  lemma {:induction false} SlotOf(b: bv5) returns (o: nat)
    requires b >= 5 && b < 29
    ensures o < PER_MASK && Slot(o) == b
  {
    o := b as nat - 5;
  }

  /** Rising indices tell the words of an encoding apart. */
  lemma {:induction false} OneWordPerIndex(words: seq<bv32>, v: bv32, w: bv32)
    requires forall j, k :: 0 <= j < k < |words| ==> IndexOf(words[j]) < IndexOf(words[k])
    requires v in words && w in words && IndexOf(v) == IndexOf(w)
    ensures v == w
  {
    hide IndexOf;
    var j :| 0 <= j < |words| && words[j] == v;
    var k :| 0 <= k < |words| && words[k] == w;
    assert j < k || j == k || k < j;
  }

  /** Each bit of a mask word says whether its syscall was requested. */
  lemma {:induction false} BitIsRequest(words: seq<bv32>, ids: seq<u64>, v: bv32, o: nat)
    requires Expresses(words, ids, 0) && v in words && o < PER_MASK
    ensures Has(v, Slot(o)) <==> PER_MASK * IndexOf(v) + o in ids
  {
    hide TrailingOnes, Has, Slot, IndexOf;
    IndexBelow(v);
    var id: nat := PER_MASK * IndexOf(v) + o;
    assert id / PER_MASK == IndexOf(v) && id % PER_MASK == o && id < LIMIT;
    if id in ids {
      var w :| w in words && IndexOf(w) == id / PER_MASK && Has(w, Slot(id % PER_MASK));
      OneWordPerIndex(words, v, w);
    }
  }

  /** Two encodings of one list hold the same word for an index, if each holds one at all. */
  lemma {:induction false} SameWord(a: seq<bv32>, b: seq<bv32>, ids: seq<u64>, v: bv32, w: bv32)
    requires Expresses(a, ids, 0) && Expresses(b, ids, 0) && v in a && w in b && IndexOf(v) == IndexOf(w)
    ensures v == w
  {
    hide TrailingOnes, Has, Slot, IndexOf, TopBits, LowBits;
    MarkerBits(v);
    MarkerBits(w);
    SameTop(v, w);
    forall bit: bv5 {:trigger Has(v, bit)} {:trigger Has(w, bit)} | bit >= 5 && bit < 29
      ensures Has(v, bit) == Has(w, bit)
    {
      var o := SlotOf(bit);
      BitIsRequest(a, ids, v, o);
      BitIsRequest(b, ids, w, o);
    }
    WordFromBits(v, w);
  }

  lemma {:induction false} AlsoIn(a: seq<bv32>, b: seq<bv32>, ids: seq<u64>, v: bv32)
    requires Expresses(a, ids, 0) && Expresses(b, ids, 0) && v in a
    ensures v in b
  {
    hide TrailingOnes, Has, Slot, IndexOf;
    var o :| 0 <= o < PER_MASK && Has(v, Slot(o));
    BitIsRequest(a, ids, v, o);
    IndexBelow(v);
    var id: nat := PER_MASK * IndexOf(v) + o;
    assert id / PER_MASK == IndexOf(v) && id % PER_MASK == o && id < LIMIT;
    var w :| w in b && IndexOf(w) == id / PER_MASK && Has(w, Slot(id % PER_MASK));
    SameWord(a, b, ids, v, w);
  }

  ghost predicate Rising(ws: seq<bv32>) {
    forall j, k :: 0 <= j < k < |ws| ==> IndexOf(ws[j]) < IndexOf(ws[k])
  }

  lemma {:induction false} RisingUnique(a: seq<bv32>, b: seq<bv32>)
    requires Rising(a) && Rising(b) && forall w :: w in a <==> w in b
    ensures a == b
  {
    hide IndexOf;
    SameEmptiness(a, b);
    if a != [] {
      assert a[0] in a && b[0] in b;
      FirstIsLeast(a, b);
      RestOfRising(a);
      RestOfRising(b);
      assert a[0] == b[0];
      RisingUnique(a[1..], b[1..]);
      assert a == [a[0]] + a[1..] && b == [b[0]] + b[1..];
    }
  }

  lemma {:induction false} SameEmptiness(a: seq<bv32>, b: seq<bv32>)
    requires forall w :: w in a <==> w in b
    ensures a == [] <==> b == []
  {
    if a != [] {
      var w := a[0];
      assert w in a && w in b;
    }
    if b != [] {
      var w := b[0];
      assert w in b && w in a;
    }
  }

  lemma {:induction false} FirstIsLeast(a: seq<bv32>, b: seq<bv32>)
    requires Rising(a) && Rising(b) && a != [] && b != [] && b[0] in a && a[0] in b
    ensures a[0] == b[0]
  {
    hide IndexOf;
    var j :| 0 <= j < |a| && a[j] == b[0];
    var k :| 0 <= k < |b| && b[k] == a[0];
  }

  lemma {:induction false} RestOfRising(a: seq<bv32>)
    requires Rising(a) && a != []
    ensures Rising(a[1..]) && forall w :: w in a[1..] <==> w in a && w != a[0]
  {
    hide IndexOf;
    forall w | w in a && w != a[0]
      ensures w in a[1..]
    {
      var k :| 0 <= k < |a| && a[k] == w;
      assert a[1..][k - 1] == w;
    }
  }

  /** Any capability has one encoding. */
  lemma {:induction false} EncodingIsUnique(a: seq<bv32>, b: seq<bv32>, c: Capability)
    requires IsEncoding(a, c) && IsEncoding(b, c)
    ensures a == b
  {
    hide TrailingOnes, Has, Slot, IndexOf, Descriptors;
    if c.Syscalls? {
      forall w
        ensures w in a <==> w in b
      {
        if w in a {
          AlsoIn(a, b, c.ids, w);
        } else if w in b {
          AlsoIn(b, a, c.ids, w);
        }
      }
      RisingUnique(a, b);
    }
  }

  /** A list of capabilities has one block. */
  lemma {:induction false} BlockIsUnique(a: seq<u8>, b: seq<u8>, caps: seq<Capability>)
    requires IsKcOf(a, caps) && IsKcOf(b, caps)
    ensures a == b
  {
    hide IsEncoding, Words, AsWords, Flat;
    var v :| AreEncodings(v, caps) && a == Words(AsWords(Flat(v)));
    var w :| AreEncodings(w, caps) && b == Words(AsWords(Flat(w)));
    forall i | 0 <= i < |caps|
      ensures v[i] == w[i]
    {
      EncodingIsUnique(v[i], w[i], caps[i]);
    }
    assert v == w;
  }

  // ---- How long a block can get ----

  lemma {:induction false} EncodingAtMost(words: seq<bv32>, c: Capability)
    requires IsEncoding(words, c)
    ensures |words| <= MASKS
  {
    hide TrailingOnes, Has, Slot, IndexOf, Descriptors;
    if c.Syscalls? {
      var indices := seq(|words|, k requires 0 <= k < |words| => IndexOf(words[k]));
      forall k | 0 <= k < |words|
        ensures indices[k] < MASKS
      {
        IndexBelow(words[k]);
      }
      DistinctBelow(indices, MASKS);
    } else {
      DescriptorCount(c);
    }
  }

  lemma {:induction false} FlatAtMost(wss: seq<seq<bv32>>, caps: seq<Capability>)
    requires AreEncodings(wss, caps)
    ensures |Flat(wss)| <= MASKS * |caps|
  {
    hide IsEncoding;
    if wss != [] {
      var n := |wss| - 1;
      FlatAtMost(wss[..n], caps[..n]);
      EncodingAtMost(wss[n], caps[n]);
    }
  }

  lemma {:induction false} BlockAtMost(data: seq<u8>, caps: seq<Capability>)
    requires IsKcOf(data, caps)
    ensures |data| <= 4 * MASKS * |caps|
  {
    hide AreEncodings, Flat;
    var wss :| AreEncodings(wss, caps) && data == Words(AsWords(Flat(wss)));
    FlatAtMost(wss, caps);
  }
}
