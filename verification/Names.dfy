/** Names kept in fixed-size fields: cut so that a NUL always ends them, and read up to the first NUL. */
module Names {
  import opened Bytes

  function CutTo(name: seq<u8>, most: nat): (r: seq<u8>)
    ensures |r| <= most && |r| <= |name| && r == name[..|r|] && (|r| < most ==> r == name)
  {
    if |name| > most then name[..most] else name
  }

  /** A field of `size` bytes: as much of the name as leaves room for a NUL, and NULs behind it. */
  function NulTerminated(name: seq<u8>, size: nat): (field: seq<u8>)
    requires size > 0
    ensures |field| == size
  {
    var kept := CutTo(name, size - 1);
    kept + Zeros(size - |kept|)
  }

  function UpToNul(s: seq<u8>): (r: seq<u8>)
    ensures |r| <= |s| && r == s[..|r|] && 0 !in r && (|r| < |s| ==> s[|r|] == 0)
  {
    if s == [] || s[0] == 0 then [] else [s[0]] + UpToNul(s[1..])
  }

  lemma {:induction false} StopsAtNul(s: seq<u8>, n: nat)
    requires n > 0
    ensures UpToNul(s + Zeros(n)) == UpToNul(s)
  {
    var t := s + Zeros(n);
    if s == [] {
      assert t[0] == 0;
    } else {
      assert t[1..] == s[1..] + Zeros(n) && t[0] == s[0];
      StopsAtNul(s[1..], n);
    }
  }

  lemma {:induction false} WholeIffNoNul(s: seq<u8>)
    ensures UpToNul(s) == s <==> 0 !in s
  {
    var r := UpToNul(s);
    if |r| < |s| {
      assert s[|r|] in s;
    }
  }

  /** A field reads back as the name up to its first NUL or the cut, and as the name exactly when neither comes. */
  lemma {:induction false} FieldReadsBack(name: seq<u8>, size: nat)
    requires size > 0
    ensures UpToNul(NulTerminated(name, size)) == UpToNul(CutTo(name, size - 1))
    ensures UpToNul(NulTerminated(name, size)) == name <==> |name| < size && 0 !in name
  {
    var kept := CutTo(name, size - 1);
    StopsAtNul(kept, size - |kept|);
    WholeIffNoNul(kept);
  }

  /** Cutting a name one byte further on shows exactly when that byte is there and no NUL comes before or at it. */
  lemma {:induction false} CutShows(name: seq<u8>, most: nat)
    ensures UpToNul(CutTo(name, most)) == UpToNul(CutTo(name, most + 1)) <==> |name| <= most || 0 in name[..most + 1]
  {
    var shorter, longer := CutTo(name, most), CutTo(name, most + 1);
    if |name| > most {
      assert longer == shorter + [name[most]];
      UpToNulOfSnoc(shorter, name[most]);
      WholeIffNoNul(longer);
    }
  }

  lemma {:induction false} UpToNulOfSnoc(s: seq<u8>, b: u8)
    ensures UpToNul(s + [b]) == if 0 in s || b == 0 then UpToNul(s) else s + [b]
  {
    var t := s + [b];
    if s == [] {
      assert t[1..] == [];
    } else {
      assert t[1..] == s[1..] + [b] && t[0] == s[0];
      UpToNulOfSnoc(s[1..], b);
    }
  }
}
