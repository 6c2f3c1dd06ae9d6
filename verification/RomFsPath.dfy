/** Slash-separated paths: how the builder and the reader take them apart. */
module RomFsPath {
  import opened Bytes
  import opened Order

  const SLASH: u8 := 0x2F

  predicate SlashFree(s: Str) {
    forall i :: 0 <= i < |s| ==> s[i] != SLASH
  }

  /** One path component: not empty, and free of separators. */
  predicate IsName(s: Str) {
    s != [] && SlashFree(s)
  }

  predicate AreNames(comps: seq<Str>) {
    forall i :: 0 <= i < |comps| ==> IsName(comps[i])
  }

  /** Pieces between separators, empty ones included: always at least one. */
  function Split(s: Str): (pieces: seq<Str>)
    ensures |pieces| > 0
    ensures forall i :: 0 <= i < |pieces| ==> SlashFree(pieces[i])
  {
    if s == [] then [[]]
    else
      var rest := Split(s[1..]);
      if s[0] == SLASH then [[]] + rest else [[s[0]] + rest[0]] + rest[1..]
  }

  /** The builder drops empty pieces. */
  function NonEmpty(pieces: seq<Str>): (r: seq<Str>)
    requires forall i :: 0 <= i < |pieces| ==> SlashFree(pieces[i])
    ensures AreNames(r)
  {
    if pieces == [] then []
    else if pieces[0] == [] then NonEmpty(pieces[1..])
    else [pieces[0]] + NonEmpty(pieces[1..])
  }

  function Components(path: Str): (comps: seq<Str>)
    ensures AreNames(comps)
  {
    NonEmpty(Split(path))
  }

  /** The reader drops leading separators only. */
  function TrimSlashes(path: Str): Str {
    if path != [] && path[0] == SLASH then TrimSlashes(path[1..]) else path
  }

  /** The absolute path of a list of components: a separator ahead of each. */
  function Join(comps: seq<Str>): Str {
    if comps == [] then []
    else Join(comps[..|comps| - 1]) + [SLASH] + comps[|comps| - 1]
  }

  /** The last separator of a path tells the parent from the name. */
  lemma {:induction false} ParentAndNameUnique(p: Str, n: Str, q: Str, m: Str)
    requires SlashFree(n) && SlashFree(m) && p + [SLASH] + n == q + [SLASH] + m
    ensures p == q && n == m
  {
    var s := p + [SLASH] + n;
    LastSlash(p, n, |q|);
    LastSlash(q, m, |p|);
    assert s[..|p|] == p && s[..|q|] == q;
    assert s[|p| + 1..] == n && s[|q| + 1..] == m;
  }

  lemma {:induction false} LastSlash(p: Str, n: Str, k: nat)
    requires SlashFree(n)
    ensures (p + [SLASH] + n)[|p|] == SLASH
    ensures k <= |p| + |n| && (p + [SLASH] + n)[k] == SLASH ==> k <= |p|
  {
    if |p| < k <= |p| + |n| {
      assert (p + [SLASH] + n)[k] == n[k - |p| - 1];
    }
  }

  lemma {:induction false} JoinSnoc(comps: seq<Str>, c: Str)
    ensures Join(comps + [c]) == Join(comps) + [SLASH] + c
  {
    TakeOfAppend(comps, [c], |comps|);
    assert comps[..|comps|] == comps;
  }

  lemma {:induction false} JoinInjective(a: seq<Str>, b: seq<Str>)
    requires AreNames(a) && AreNames(b) && Join(a) == Join(b)
    ensures a == b
  {
    if a != [] && b != [] {
      var n, m := |a| - 1, |b| - 1;
      ParentAndNameUnique(Join(a[..n]), a[n], Join(b[..m]), b[m]);
      JoinInjective(a[..n], b[..m]);
      assert a == a[..n] + [a[n]] && b == b[..m] + [b[m]];
    }
  }

  /** Components separated by single slashes. */
  function Slashed(comps: seq<Str>): Str
    requires comps != []
  {
    if |comps| == 1 then comps[0] else comps[0] + [SLASH] + Slashed(comps[1..])
  }

  lemma {:induction false} JoinIsSlashed(comps: seq<Str>)
    requires comps != []
    ensures Join(comps) == [SLASH] + Slashed(comps)
  {
    var n := |comps| - 1;
    if n == 0 {
      assert comps[..0] == [];
    } else {
      JoinIsSlashed(comps[..n]);
      SlashedSnoc(comps[..n], comps[n]);
      assert comps == comps[..n] + [comps[n]];
    }
  }

  lemma {:induction false} SlashedSnoc(comps: seq<Str>, c: Str)
    requires comps != []
    ensures Slashed(comps + [c]) == Slashed(comps) + [SLASH] + c
  {
    var all := comps + [c];
    assert all[1..] == comps[1..] + [c];
    if |comps| == 1 {
      assert all[1..] == [c];
    } else {
      SlashedSnoc(comps[1..], c);
      var h := comps[0] + [SLASH];
      assert h + (Slashed(comps[1..]) + [SLASH] + c) == h + Slashed(comps[1..]) + [SLASH] + c;
    }
  }

  lemma {:induction false} SplitSlashFree(s: Str)
    requires SlashFree(s)
    ensures Split(s) == [s]
  {
    if s != [] {
      SplitSlashFree(s[1..]);
      assert [s[0]] + s[1..] == s;
    }
  }

  lemma {:induction false} SplitPastName(n: Str, rest: Str)
    requires SlashFree(n)
    ensures Split(n + [SLASH] + rest) == [n] + Split(rest)
  {
    var s := n + [SLASH] + rest;
    if n == [] {
      assert s[1..] == rest;
    } else {
      SplitPastName(n[1..], rest);
      assert s[1..] == n[1..] + [SLASH] + rest;
      assert [n[0]] + n[1..] == n;
    }
  }

  lemma {:induction false} SplitSlashed(comps: seq<Str>)
    requires comps != [] && AreNames(comps)
    ensures Split(Slashed(comps)) == comps
  {
    if |comps| == 1 {
      SplitSlashFree(comps[0]);
    } else {
      SplitSlashed(comps[1..]);
      SplitPastName(comps[0], Slashed(comps[1..]));
    }
  }

  lemma {:induction false} NonEmptyNames(comps: seq<Str>)
    requires AreNames(comps)
    ensures NonEmpty(comps) == comps
  {
    if comps != [] {
      NonEmptyNames(comps[1..]);
    }
  }

  /** On a normalised path both sides see the same components. */
  lemma {:induction false} NormalisedPath(comps: seq<Str>)
    requires comps != [] && AreNames(comps)
    ensures var path := Join(comps);
      path[0] == SLASH && TrimSlashes(path) == path[1..] && path[1..] != [] &&
      Split(path[1..]) == comps && Components(path[1..]) == comps
  {
    JoinIsSlashed(comps);
    assert Join(comps)[1..] == Slashed(comps);
    assert Slashed(comps)[0] == comps[0][0];
    SplitSlashed(comps);
    NonEmptyNames(comps);
  }

  // ---- Any path at all ----

  predicate AllSlashFree(pieces: seq<Str>) {
    forall i :: 0 <= i < |pieces| ==> SlashFree(pieces[i])
  }

  lemma {:induction false} SlashedSplit(s: Str)
    ensures Slashed(Split(s)) == s
  {
    if s != [] {
      SlashedSplit(s[1..]);
      var rest := Split(s[1..]);
      if s[0] == SLASH {
        assert ([[]] + rest)[1..] == rest;
        assert [SLASH] + s[1..] == s;
      } else {
        var pieces := [[s[0]] + rest[0]] + rest[1..];
        assert pieces[1..] == rest[1..];
        assert [s[0]] + s[1..] == s;
        if |rest| > 1 {
          assert [s[0]] + (rest[0] + [SLASH] + Slashed(rest[1..])) == [s[0]] + rest[0] + [SLASH] + Slashed(rest[1..]);
        }
      }
    }
  }

  /** Splitting loses nothing. */
  lemma {:induction false} JoinSplit(s: Str)
    ensures Join(Split(s)) == [SLASH] + s
  {
    JoinIsSlashed(Split(s));
    SlashedSplit(s);
  }

  lemma {:induction false} JoinCons(comps: seq<Str>)
    requires comps != []
    ensures Join(comps) == [SLASH] + comps[0] + Join(comps[1..])
  {
    JoinIsSlashed(comps);
    if |comps| > 1 {
      JoinIsSlashed(comps[1..]);
      assert [SLASH] + (comps[0] + [SLASH] + Slashed(comps[1..])) == [SLASH] + comps[0] + ([SLASH] + Slashed(comps[1..]));
    }
  }

  lemma {:induction false} AppendJoin(p: Str, comps: seq<Str>)
    requires comps != []
    ensures p + Join(comps) == (p + [SLASH] + comps[0]) + Join(comps[1..])
    ensures p + Join(comps) == (p + Join(comps[..|comps| - 1])) + [SLASH] + comps[|comps| - 1]
  {
    JoinCons(comps);
    AppendIsAssociative(p, [SLASH] + comps[0], Join(comps[1..]));
    AppendIsAssociative(p, [SLASH], comps[0]);
    var n := |comps| - 1;
    AppendIsAssociative(p, Join(comps[..n]) + [SLASH], comps[n]);
    AppendIsAssociative(p, Join(comps[..n]), [SLASH]);
  }
}
