/** Byte-wise string order, and the stable sort the builders order their entries with. */
module Order {
  import opened Bytes

  type Str = seq<u8>

  /** Byte-wise lexicographic order. */
  predicate Less(a: Str, b: Str) {
    b != [] && (a == [] || a[0] < b[0] || (a[0] == b[0] && Less(a[1..], b[1..])))
  }

  /** The first difference decides: `a` ends there and `b` does not, or `a` has the smaller byte. */
  ghost predicate Precedes(a: Str, b: Str) {
    exists k {:trigger a[..k]} :: 0 <= k <= |a| && k <= |b| && a[..k] == b[..k] &&
      ((k == |a| && k < |b|) || (k < |a| && k < |b| && a[k] < b[k]))
  }

  lemma {:induction false} LessIsPrecedes(a: Str, b: Str)
    ensures Less(a, b) <==> Precedes(a, b)
  {
    if a == [] {
      assert b != [] ==> a[..0] == b[..0];
    } else if b != [] && a[0] == b[0] {
      LessIsPrecedes(a[1..], b[1..]);
      if Precedes(a[1..], b[1..]) {
        var k :| 0 <= k < |a| && k < |b| && a[1..][..k] == b[1..][..k] &&
          ((k == |a| - 1 && k < |b| - 1) || (k < |a| - 1 && k < |b| - 1 && a[1..][k] < b[1..][k]));
        assert a[..k + 1] == [a[0]] + a[1..][..k] && b[..k + 1] == [b[0]] + b[1..][..k];
      }
      if Precedes(a, b) {
        var k :| 0 <= k <= |a| && k <= |b| && a[..k] == b[..k] &&
          ((k == |a| && k < |b|) || (k < |a| && k < |b| && a[k] < b[k]));
        assert k > 0;
        assert a[1..][..k - 1] == a[..k][1..] && b[1..][..k - 1] == b[..k][1..];
      }
    } else if b != [] {
      FirstBytesDiffer(a, b);
    }
  }

  lemma {:induction false} FirstBytesDiffer(a: Str, b: Str)
    requires a != [] && b != [] && a[0] != b[0]
    ensures Precedes(a, b) <==> a[0] < b[0]
  {
    assert a[..0] == b[..0];
    forall k | 0 < k <= |a| && k <= |b|
      ensures a[..k] != b[..k]
    {
      assert a[..k][0] != b[..k][0];
    }
  }

  lemma {:induction false} LessIrreflexive(a: Str)
    ensures !Less(a, a)
  {
    if a != [] {
      LessIrreflexive(a[1..]);
    }
  }

  lemma {:induction false} LessTransitive(a: Str, b: Str, c: Str)
    requires Less(a, b) && Less(b, c)
    ensures Less(a, c)
  {
    if a != [] && b != [] && c != [] && a[0] == b[0] == c[0] {
      LessTransitive(a[1..], b[1..], c[1..]);
    }
  }

  lemma {:induction false} LessTotal(a: Str, b: Str)
    ensures Less(a, b) || a == b || Less(b, a)
  {
    if a != [] && b != [] && a[0] == b[0] {
      LessTotal(a[1..], b[1..]);
      assert a == [a[0]] + a[1..] && b == [b[0]] + b[1..];
    }
  }

  /** A common prefix does not affect the order. */
  lemma {:induction false} LessPastPrefix(p: Str, a: Str, b: Str)
    ensures Less(p + a, p + b) == Less(a, b)
  {
    if p == [] {
      assert p + a == a && p + b == b;
    } else {
      LessPastPrefix(p[1..], a, b);
      assert (p + a)[1..] == p[1..] + a && (p + b)[1..] == p[1..] + b;
    }
  }

  lemma {:induction false} PrefixIsLess(p: Str, tail: Str)
    requires tail != []
    ensures Less(p, p + tail)
  {
    LessPastPrefix(p, [], tail);
    assert p + [] == p;
  }

  // ---- Sorting ----

  ghost predicate Distinct<T>(xs: seq<T>) {
    forall i, j :: 0 <= i < j < |xs| ==> xs[i] != xs[j]
  }

  /** Strictly ascending by key. */
  ghost predicate Ascending(keys: seq<Str>) {
    forall i, j :: 0 <= i < j < |keys| ==> Less(keys[i], keys[j])
  }

  /** Strictly ascending by first difference. */
  ghost predicate InByteOrder(keys: seq<Str>) {
    forall i, j :: 0 <= i < j < |keys| ==> Precedes(keys[i], keys[j])
  }

  lemma {:induction false} AscendingIsByteOrder(keys: seq<Str>)
    ensures Ascending(keys) <==> InByteOrder(keys)
  {
    hide Less, Precedes;
    forall i, j | 0 <= i < j < |keys|
      ensures Less(keys[i], keys[j]) <==> Precedes(keys[i], keys[j])
    {
      LessIsPrecedes(keys[i], keys[j]);
    }
  }

  predicate InRange(xs: seq<nat>, n: nat) {
    forall i :: 0 <= i < |xs| ==> xs[i] < n
  }

  /** The keys of the listed indices. */
  function KeysOf(xs: seq<nat>, keys: seq<Str>): (ks: seq<Str>)
    requires InRange(xs, |keys|)
    ensures |ks| == |xs| && forall i :: 0 <= i < |xs| ==> ks[i] == keys[xs[i]]
  {
    seq(|xs|, i requires 0 <= i < |xs| => keys[xs[i]])
  }

  function Insert(x: nat, xs: seq<nat>, keys: seq<Str>): (r: seq<nat>)
    requires x < |keys| && InRange(xs, |keys|)
    ensures |r| == |xs| + 1 && InRange(r, |keys|)
    ensures forall y :: y in r <==> y == x || y in xs
  {
    if xs == [] || !Less(keys[xs[0]], keys[x]) then [x] + xs
    else
      assert xs == [xs[0]] + xs[1..];
      [xs[0]] + Insert(x, xs[1..], keys)
  }

  /** Indices ordered by key, equal keys in their original order. */
  function Sort(xs: seq<nat>, keys: seq<Str>): (r: seq<nat>)
    requires InRange(xs, |keys|)
    ensures |r| == |xs| && InRange(r, |keys|)
    ensures forall y :: y in r <==> y in xs
  {
    if xs == [] then []
    else
      assert xs == [xs[0]] + xs[1..];
      Insert(xs[0], Sort(xs[1..], keys), keys)
  }

  /** `0..n`. */
  function Indices(n: nat): (xs: seq<nat>)
    ensures |xs| == n && InRange(xs, n) && forall i :: 0 <= i < n ==> xs[i] == i
  {
    seq(n, i requires 0 <= i < n => i)
  }

  /** `xs` rearranged into `order`. */
  function Arranged<T>(xs: seq<T>, order: seq<nat>): (r: seq<T>)
    requires InRange(order, |xs|)
    ensures |r| == |order| && forall k {:trigger r[k]} :: 0 <= k < |order| ==> r[k] == xs[order[k]]
  {
    seq(|order|, k requires 0 <= k < |order| => xs[order[k]])
  }

  ghost predicate KeysDistinct(xs: seq<nat>, keys: seq<Str>)
    requires InRange(xs, |keys|)
  {
    Distinct(KeysOf(xs, keys))
  }

  lemma {:induction false} InsertAscends(x: nat, xs: seq<nat>, keys: seq<Str>)
    requires x < |keys| && InRange(xs, |keys|) && Ascending(KeysOf(xs, keys))
    requires forall i :: 0 <= i < |xs| ==> keys[xs[i]] != keys[x]
    ensures Ascending(KeysOf(Insert(x, xs, keys), keys))
  {
    if xs == [] {
    } else if !Less(keys[xs[0]], keys[x]) {
      LessTotal(keys[x], keys[xs[0]]);
      forall j | 0 <= j < |xs|
        ensures Less(keys[x], keys[xs[j]])
      {
        if j > 0 {
          assert Less(KeysOf(xs, keys)[0], KeysOf(xs, keys)[j]);
          LessTransitive(keys[x], keys[xs[0]], keys[xs[j]]);
        }
      }
      ConsAscends(x, xs, keys);
    } else {
      assert KeysOf(xs[1..], keys) == KeysOf(xs, keys)[1..];
      InsertAscends(x, xs[1..], keys);
      var rest := Insert(x, xs[1..], keys);
      forall y | y in rest
        ensures Less(keys[xs[0]], keys[y])
      {
        if y != x {
          var k :| 0 <= k < |xs[1..]| && xs[1..][k] == y;
          assert Less(KeysOf(xs, keys)[0], KeysOf(xs, keys)[k + 1]);
        }
      }
      ConsAscends(xs[0], rest, keys);
    }
  }

  lemma {:induction false} ConsAscends(x: nat, xs: seq<nat>, keys: seq<Str>)
    requires x < |keys| && InRange(xs, |keys|) && Ascending(KeysOf(xs, keys))
    requires forall j :: 0 <= j < |xs| ==> Less(keys[x], keys[xs[j]])
    ensures Ascending(KeysOf([x] + xs, keys))
  {
    var ks := KeysOf([x] + xs, keys);
    assert ks == [keys[x]] + KeysOf(xs, keys);
  }

  /** With distinct keys the result ascends strictly. */
  lemma {:induction false} SortAscends(xs: seq<nat>, keys: seq<Str>)
    requires InRange(xs, |keys|) && KeysDistinct(xs, keys)
    ensures Ascending(KeysOf(Sort(xs, keys), keys)) && Distinct(Sort(xs, keys))
    ensures InByteOrder(KeysOf(Sort(xs, keys), keys))
  {
    hide InByteOrder;
    if xs != [] {
      assert KeysOf(xs[1..], keys) == KeysOf(xs, keys)[1..];
      SortAscends(xs[1..], keys);
      var rest := Sort(xs[1..], keys);
      forall i | 0 <= i < |rest|
        ensures keys[rest[i]] != keys[xs[0]]
      {
        assert rest[i] in xs[1..];
        var k :| 0 <= k < |xs[1..]| && xs[1..][k] == rest[i];
        assert KeysOf(xs, keys)[0] != KeysOf(xs, keys)[k + 1];
      }
      InsertAscends(xs[0], rest, keys);
      AscendingDistinct(Sort(xs, keys), keys);
    }
    AscendingIsByteOrder(KeysOf(Sort(xs, keys), keys));
  }

  lemma {:induction false} SortedOrder(keys: seq<Str>, order: seq<nat>)
    requires Distinct(keys) && order == Sort(Indices(|keys|), keys)
    ensures |order| == |keys| && InRange(order, |keys|) && Distinct(order)
    ensures Ascending(KeysOf(order, keys))
    ensures forall i :: 0 <= i < |keys| ==> i in order
  {
    var xs := Indices(|keys|);
    assert KeysOf(xs, keys) == keys;
    SortAscends(xs, keys);
    forall i | 0 <= i < |keys|
      ensures i in order
    {
      assert xs[i] in xs;
    }
  }

  lemma {:induction false} AscendingDistinct(xs: seq<nat>, keys: seq<Str>)
    requires InRange(xs, |keys|) && Ascending(KeysOf(xs, keys))
    ensures Distinct(xs)
  {
    forall i, j | 0 <= i < j < |xs|
      ensures xs[i] != xs[j]
    {
      assert Less(KeysOf(xs, keys)[i], KeysOf(xs, keys)[j]);
      LessIrreflexive(keys[xs[i]]);
    }
  }

  lemma {:induction false} AscendingKeysDistinct(keys: seq<Str>)
    requires Ascending(keys)
    ensures Distinct(keys)
  {
    forall i, j | 0 <= i < j < |keys|
      ensures keys[i] != keys[j]
    {
      LessIrreflexive(keys[i]);
    }
  }

  /** A strictly ascending list is determined by its elements. */
  lemma {:induction false} AscendingUnique(a: seq<Str>, b: seq<Str>)
    requires Ascending(a) && Ascending(b) && forall x :: x in a <==> x in b
    ensures a == b
  {
    if a != [] {
      assert a[0] in b;
    }
    if b != [] {
      assert b[0] in a;
      HeadIsLeast(a, b);
      HeadIsLeast(b, a);
      LessAsymmetric(a[0], b[0]);
      forall x
        ensures x in a[1..] <==> x in b[1..]
      {
        TailElements(a, x);
        TailElements(b, x);
      }
      AscendingUnique(a[1..], b[1..]);
      assert a == [a[0]] + a[1..] && b == [b[0]] + b[1..];
    }
  }

  lemma {:induction false} LessAsymmetric(a: Str, b: Str)
    ensures !(Less(a, b) && Less(b, a))
  {
    if Less(a, b) && Less(b, a) {
      LessTransitive(a, b, a);
      LessIrreflexive(a);
    }
  }

  lemma {:induction false} HeadIsLeast(a: seq<Str>, b: seq<Str>)
    requires a != [] && b != [] && Ascending(a) && b[0] in a
    ensures a[0] == b[0] || Less(a[0], b[0])
  {
  }

  lemma {:induction false} TailElements(a: seq<Str>, x: Str)
    requires a != [] && Ascending(a)
    ensures x in a[1..] <==> x in a && x != a[0]
  {
    if x in a[1..] {
      var k :| 0 <= k < |a[1..]| && a[1..][k] == x;
      assert Less(a[0], a[k + 1]);
      LessIrreflexive(x);
    }
  }

  // ---- Counting ----

  lemma {:induction false} DistinctWithin<T>(xs: seq<T>, s: set<T>)
    requires Distinct(xs) && forall i :: 0 <= i < |xs| ==> xs[i] in s
    ensures |xs| <= |s|
  {
    if xs != [] {
      var n := |xs| - 1;
      DistinctWithin(xs[..n], s - {xs[n]});
    }
  }

  lemma {:induction false} CountBelow(n: nat) returns (s: set<nat>)
    ensures |s| == n && forall x: nat :: x in s <==> x < n
  {
    s := {};
    if n > 0 {
      var r := CountBelow(n - 1);
      assert r * {n - 1} == {};
      s := r + {n - 1};
    }
  }

  /** Distinct numbers below `n` are no more than `n`. */
  lemma {:induction false} DistinctBelow(xs: seq<nat>, n: nat)
    requires Distinct(xs) && InRange(xs, n)
    ensures |xs| <= n
  {
    var s := CountBelow(n);
    DistinctWithin(xs, s);
  }
}
