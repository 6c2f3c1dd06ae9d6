/** Which contents a RomFS image can hold, told from their number, their longest path and their largest file. */
module RomFsBounds {
  import opened Bytes
  import opened Order
  import opened RomFsFormat
  import opened RomFsTree
  import opened RomFsSort
  import opened RomFsLayout
  import opened RomFsImage
  import opened RomFsTheorems

  // ---- How many directories there can be ----

  /** A number for directory `i`: some file beneath it, and how much of that file's path it is. */
  ghost function CodeOf(dirs: seq<DirEntry>, files: seq<FileEntry>, longest: nat, i: nat): (code: nat)
    requires IsSorted(dirs, files) && 0 < i < |dirs| && forall j :: 0 <= j < |files| ==> |files[j].path| <= longest
    ensures code < |files| * longest && code / longest < |files|
    ensures Under(files[code / longest].path, dirs[i].path) && code % longest == |dirs[i].path|
  {
    var j := FileBeneath(dirs, files, i);
    assert Under(files[j].path, dirs[i].path);
    PairCode(j, |files|, longest, |dirs[i].path|);
    j * longest + |dirs[i].path|
  }

  ghost function FileBeneath(dirs: seq<DirEntry>, files: seq<FileEntry>, i: nat): (j: nat)
    requires IsSorted(dirs, files) && 0 < i < |dirs|
    ensures j < |files| && Under(files[j].path, dirs[i].path)
  {
    SomeFileBeneath(dirs, files, i);
    var j: nat :| j < |files| && Under(files[j].path, dirs[i].path);
    j
  }

  lemma {:induction false} SomeFileBeneath(dirs: seq<DirEntry>, files: seq<FileEntry>, i: nat)
    requires IsSorted(dirs, files) && 0 < i < |dirs|
    ensures exists j: nat :: j < |files| && Under(files[j].path, dirs[i].path)
  {
    hide IsSorted;
    var j := DirHasFile(dirs, files, i);
  }

  lemma {:induction false} PairCode(j: nat, n: nat, m: nat, k: nat)
    requires j < n && k < m
    ensures j * m + k < n * m && (j * m + k) / m == j && (j * m + k) % m == k
  {
    assert (j + 1) * m <= n * m;
    assert (j + 1) * m == j * m + m;
    QuotientIs(j * m + k, m, j, k);
  }

  lemma {:induction false} QuotientIs(x: nat, m: nat, q: nat, r: nat)
    requires x == q * m + r && r < m
    ensures x / m == q && x % m == r
  {
    assert x == m * (x / m) + x % m;
    var d := x / m - q;
    assert m * d == m * (x / m) - m * q == r - x % m;
    SmallMultipleIsZero(d, m);
    SmallMultipleIsZero(-d, m);
  }

  lemma {:induction false} CodesDiffer(dirs: seq<DirEntry>, files: seq<FileEntry>, longest: nat, a: nat, b: nat)
    requires IsSorted(dirs, files) && 0 < a < b < |dirs| && forall j :: 0 <= j < |files| ==> |files[j].path| <= longest
    ensures CodeOf(dirs, files, longest, a) != CodeOf(dirs, files, longest, b)
  {
    SortedPathsDistinct(dirs, files);
    assert dirs[a].path != dirs[b].path;
  }

  /** Every directory but the root is a different stretch of some stored path. */
  lemma {:induction false} DirsAtMost(dirs: seq<DirEntry>, files: seq<FileEntry>, longest: nat)
    requires IsSorted(dirs, files) && forall j :: 0 <= j < |files| ==> |files[j].path| <= longest
    ensures |dirs| <= 1 + |files| * longest
  {
    hide IsSorted, CodeOf;
    if |dirs| > 1 {
      var codes := seq(|dirs| - 1, k requires 0 <= k < |dirs| - 1 => CodeOf(dirs, files, longest, k + 1));
      forall a, b | 0 <= a < b < |codes|
        ensures codes[a] != codes[b]
      {
        CodesDiffer(dirs, files, longest, a + 1, b + 1);
      }
      DistinctBelow(codes, |files| * longest);
    }
  }

  lemma {:induction false} NamesAtMost(dirs: seq<DirEntry>, files: seq<FileEntry>, longest: nat, i: nat)
    requires IsSorted(dirs, files) && i < |dirs| && forall j :: 0 <= j < |files| ==> |files[j].path| <= longest
    ensures |dirs[i].name| <= longest
  {
    hide Ascending, Increasing;
    if i > 0 {
      assert DirLinked(dirs, i);
      var j := DirHasFile(dirs, files, i);
    }
  }

  lemma {:induction false} FileNamesAtMost(dirs: seq<DirEntry>, files: seq<FileEntry>, j: nat)
    requires FilesLinked(dirs, files) && j < |files|
    ensures |files[j].name| <= |files[j].path|
  {
    assert FileLinked(dirs, files[j]);
  }

  // ---- Sizes ----

  lemma {:induction false} DirTableAtMost(dirs: seq<DirEntry>, longest: nat, i: nat)
    requires i <= |dirs| && forall k :: 0 <= k < |dirs| ==> |dirs[k].name| <= longest
    ensures DirOffset(dirs, i) <= i * (longest + 0x1B)
  {
    if i > 0 {
      DirTableAtMost(dirs, longest, i - 1);
      assert i * (longest + 0x1B) == (i - 1) * (longest + 0x1B) + (longest + 0x1B);
    }
  }

  lemma {:induction false} FileTableAtMost(files: seq<FileEntry>, longest: nat, j: nat)
    requires j <= |files| && forall k :: 0 <= k < |files| ==> |files[k].name| <= longest
    ensures FileOffset(files, j) <= j * (longest + 0x23)
  {
    if j > 0 {
      FileTableAtMost(files, longest, j - 1);
      assert j * (longest + 0x23) == (j - 1) * (longest + 0x23) + (longest + 0x23);
    }
  }

  lemma {:induction false} DataAtMost(files: seq<FileEntry>, largest: nat, j: nat)
    requires j <= |files| && forall k :: 0 <= k < |files| ==> |files[k].data| <= largest
    ensures DataEnd(files, j) <= j * (largest + 0xF)
  {
    if j > 0 {
      DataAtMost(files, largest, j - 1);
      assert j * (largest + 0xF) == (j - 1) * (largest + 0xF) + (largest + 0xF);
    }
  }

  /** A number free of small factors is never far away. */
  lemma {:induction false} HashCountAtMost(entries: nat)
    ensures HashCount(entries) <= entries + PRIMORIAL + 1
  {
    hide HasSmallFactor;
    if entries >= 19 {
      var q := entries / PRIMORIAL + 1;
      OneMoreThanMultiple(q);
      assert entries <= PRIMORIAL * q + 1 <= entries + PRIMORIAL + 1;
    }
  }

  // ---- Which contents fit ----

  /** Every path has at most `longest` bytes, every file at most `largest`, and there are not too many. */
  predicate WithinBounds(contents: map<Str, seq<u8>>, longest: nat, largest: nat) {
    (forall p :: p in contents ==> |p| <= longest && |contents[p]| <= largest) &&
    (1 + |contents| * longest) * (longest + 0x1B) < 0x1_0000_0000 && |contents| * (longest + 0x23) < 0x1_0000_0000 &&
    |contents| * (largest + 0xF) <= 0x7FFF_FFFF_FFFF_FFFF
  }

  lemma {:induction false} NoMoreFiles(files: seq<FileEntry>, contents: map<Str, seq<u8>>)
    requires FilePathsDistinct(files) && Contents(files) == contents
    ensures |files| <= |contents|
  {
    var paths := FilePaths(files);
    forall j | 0 <= j < |paths|
      ensures paths[j] in contents.Keys
    {
      assert files[j].path in contents;
    }
    DistinctWithin(paths, contents.Keys);
  }

  lemma {:induction false} Grow(a: nat, b: nat, x: nat)
    requires a <= b && x > 0
    ensures a <= b * x && a * x <= b * x
  {
    TimesMonotone(a, b, x);
    TimesMonotone(1, x, b);
  }

  lemma {:induction false} TablesAtMost(dirs: seq<DirEntry>, files: seq<FileEntry>, count: nat, longest: nat, largest: nat)
    requires IsSorted(dirs, files) && |files| <= count
    requires forall j :: 0 <= j < |files| ==> |files[j].path| <= longest && |files[j].data| <= largest
    ensures |dirs| <= (1 + count * longest) * (longest + 0x1B) && |files| <= count * (longest + 0x23)
    ensures DirOffset(dirs, |dirs|) <= (1 + count * longest) * (longest + 0x1B)
    ensures FileOffset(files, |files|) <= count * (longest + 0x23) && DataEnd(files, |files|) <= count * (largest + 0xF)
  {
    hide DirOffset, FileOffset, DataEnd, Ascending, Increasing;
    DirsAtMost(dirs, files, longest);
    TimesMonotone(|files|, count, longest);
    forall i | 0 <= i < |dirs|
      ensures |dirs[i].name| <= longest
    {
      NamesAtMost(dirs, files, longest, i);
    }
    forall j | 0 <= j < |files|
      ensures |files[j].name| <= longest
    {
      FileNamesAtMost(dirs, files, j);
    }
    DirTableAtMost(dirs, longest, |dirs|);
    Grow(|dirs|, 1 + count * longest, longest + 0x1B);
    FileTableAtMost(files, longest, |files|);
    Grow(|files|, count, longest + 0x23);
    DataAtMost(files, largest, |files|);
    TimesMonotone(|files|, count, largest + 0xF);
  }

  lemma {:induction false} SizesFit(dirs: seq<DirEntry>, files: seq<FileEntry>, dirTable: nat, fileTable: nat, data: nat)
    requires DirOffset(dirs, |dirs|) <= dirTable < 0x1_0000_0000 && FileOffset(files, |files|) <= fileTable < 0x1_0000_0000
    requires DataEnd(files, |files|) <= data <= 0x7FFF_FFFF_FFFF_FFFF && |dirs| <= dirTable && |files| <= fileTable
    ensures Fits(dirs, files)
  {
    hide DirOffset, FileOffset, DataEnd, HashCount;
    HashCountAtMost(|dirs|);
    HashCountAtMost(|files|);
  }

  lemma {:induction false} BoundedTablesFit(dirs: seq<DirEntry>, files: seq<FileEntry>, contents: map<Str, seq<u8>>,
                                            longest: nat, largest: nat)
    requires IsSorted(dirs, files) && FilePathsDistinct(files) && Contents(files) == contents
    requires WithinBounds(contents, longest, largest)
    ensures Fits(dirs, files)
  {
    hide IsSorted, Fits, DirOffset, FileOffset, DataEnd, Contents;
    NoMoreFiles(files, contents);
    forall j | 0 <= j < |files|
      ensures |files[j].path| <= longest && |files[j].data| <= largest
    {
      assert files[j].path in contents && contents[files[j].path] == files[j].data;
    }
    var count := |contents|;
    TablesAtMost(dirs, files, count, longest, largest);
    SizesFit(dirs, files, (1 + count * longest) * (longest + 0x1B), count * (longest + 0x23), count * (largest + 0xF));
  }

  /** Contents within such bounds fit, which can be checked before building. */
  lemma {:induction false} BoundedContentsFit(contents: map<Str, seq<u8>>, longest: nat, largest: nat)
    requires WithinBounds(contents, longest, largest)
    ensures ContentsFit(contents)
  {
    hide IsSorted, Fits, Contents, WithinBounds;
    forall dirs, files {:trigger IsSorted(dirs, files)} |
      IsSorted(dirs, files) && FilePathsDistinct(files) && Contents(files) == contents
      ensures Fits(dirs, files)
    {
      BoundedTablesFit(dirs, files, contents, longest, largest);
    }
  }
}
