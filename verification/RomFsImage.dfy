/** The image a set of files stands for: which bytes, and why only those. */
module RomFsImage {
  import opened Bytes
  import opened Order
  import opened RomFsTree
  import opened RomFsSort
  import opened RomFsLayout

  /** The tables an image of `contents` is written from. */
  ghost predicate Stored(dirs: seq<DirEntry>, files: seq<FileEntry>, contents: map<Str, seq<u8>>) {
    IsSorted(dirs, files) && LaidOut(dirs, files) && FilePathsDistinct(files) && Contents(files) == contents
  }

  /** Laid out, these contents stay within the format's 32-bit entry offsets. */
  ghost predicate ContentsFit(contents: map<Str, seq<u8>>) {
    forall dirs, files {:trigger IsSorted(dirs, files)} ::
      IsSorted(dirs, files) && FilePathsDistinct(files) && Contents(files) == contents ==> Fits(dirs, files)
  }

  ghost predicate IsImageOf(image: seq<u8>, contents: map<Str, seq<u8>>) {
    exists dirs, files {:trigger Stored(dirs, files, contents)} ::
      Stored(dirs, files, contents) && Fits(dirs, files) && Expressible(dirs, files) && image == Image(dirs, files)
  }

  lemma {:induction false} SortedIndicesFit(dirs: seq<DirEntry>, files: seq<FileEntry>)
    requires IsSorted(dirs, files)
    ensures IndicesFit(dirs, files)
  {
    hide Ascending;
    forall i {:trigger DirFits(dirs[i], |dirs|, |files|)} | 0 <= i < |dirs|
      ensures DirFits(dirs[i], |dirs|, |files|)
    {
      assert ListsAt(dirs, files, i);
      ListedInRange(dirs[i].children, |dirs|);
      ListedInRange(dirs[i].files, |files|);
      assert i > 0 ==> DirLinked(dirs, i);
    }
    forall j | 0 <= j < |files|
      ensures files[j].parent < |dirs|
    {
      assert FileLinked(dirs, files[j]);
    }
  }

  /** Tables that fit can be written: every length fits its field. */
  lemma {:induction false} FitsExpressible(dirs: seq<DirEntry>, files: seq<FileEntry>)
    requires IsSorted(dirs, files) && Fits(dirs, files)
    ensures Expressible(dirs, files)
  {
    hide IsSorted, IndicesFit;
    SortedIndicesFit(dirs, files);
    forall i | 0 <= i < |dirs|
      ensures |dirs[i].name| < 0x1_0000_0000
    {
      DirOffsetsRise(dirs, i, |dirs|);
    }
    forall j | 0 <= j < |files|
      ensures |files[j].name| < 0x1_0000_0000 && |files[j].data| <= USIZE_MAX
    {
      FileOffsetsRise(files, j, |files|);
      DataEndsRise(files, j, |files|);
    }
  }

  lemma {:induction false} SameDirOffsets(d1: seq<DirEntry>, d2: seq<DirEntry>, i: nat)
    requires |d1| == |d2| && i <= |d1| && forall k :: 0 <= k < |d1| ==> SameDir(d1[k], d2[k])
    ensures DirOffset(d1, i) == DirOffset(d2, i)
  {
    if i > 0 {
      SameDirOffsets(d1, d2, i - 1);
      assert SameDir(d1[i - 1], d2[i - 1]);
    }
  }

  lemma {:induction false} SameFileOffsets(f1: seq<FileEntry>, f2: seq<FileEntry>, j: nat)
    requires |f1| == |f2| && j <= |f1| && forall k :: 0 <= k < |f1| ==> SameFile(f1[k], f2[k])
    ensures FileOffset(f1, j) == FileOffset(f2, j) && DataEnd(f1, j) == DataEnd(f2, j)
  {
    if j > 0 {
      SameFileOffsets(f1, f2, j - 1);
      assert SameFile(f1[j - 1], f2[j - 1]);
    }
  }

  lemma {:induction false} LaidOutUnique(d1: seq<DirEntry>, f1: seq<FileEntry>, d2: seq<DirEntry>, f2: seq<FileEntry>)
    requires SameTables(d1, f1, d2, f2) && LaidOut(d1, f1) && LaidOut(d2, f2)
    ensures d1 == d2 && f1 == f2
  {
    forall i | 0 <= i < |d1|
      ensures d1[i] == d2[i]
    {
      SameDirOffsets(d1, d2, i);
      assert SameDir(d1[i], d2[i]);
    }
    forall j | 0 <= j < |f1|
      ensures f1[j] == f2[j]
    {
      SameFileOffsets(f1, f2, j);
      assert SameFile(f1[j], f2[j]);
    }
  }

  /** The tables are a function of the contents. */
  lemma {:induction false} StoredIsCanonical(d1: seq<DirEntry>, f1: seq<FileEntry>, d2: seq<DirEntry>, f2: seq<FileEntry>,
                                             contents: map<Str, seq<u8>>)
    requires Stored(d1, f1, contents) && Stored(d2, f2, contents)
    ensures d1 == d2 && f1 == f2
  {
    hide IsSorted, LaidOut, SameTables;
    SortedIsCanonical(d1, f1, d2, f2);
    LaidOutUnique(d1, f1, d2, f2);
  }

  /** Canonicity: one set of files has one image, whatever order the files arrived in. */
  lemma {:induction false} ImageIsCanonical(a: seq<u8>, b: seq<u8>, contents: map<Str, seq<u8>>)
    requires IsImageOf(a, contents) && IsImageOf(b, contents)
    ensures a == b
  {
    hide Stored, Image, Fits, Expressible;
    var d1, f1 :| Stored(d1, f1, contents) && Fits(d1, f1) && Expressible(d1, f1) && a == Image(d1, f1);
    var d2, f2 :| Stored(d2, f2, contents) && Fits(d2, f2) && Expressible(d2, f2) && b == Image(d2, f2);
    StoredIsCanonical(d1, f1, d2, f2, contents);
  }
}
