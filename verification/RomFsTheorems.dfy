/** What a built image promises its readers, stated on the stored files alone. */
module RomFsTheorems {
  import opened Bytes
  import opened Packing
  import opened Order
  import opened RomFsPath
  import opened RomFsFormat
  import opened RomFsTree
  import opened RomFsSort
  import opened RomFsLayout
  import opened RomFsImage
  import opened RomFsReadBack
  import opened RomFsLookup
  import opened RomFsBuild
  import Read = RomFsRead

  // ---- Which directories there are ----

  /** `q` lies somewhere under directory `p`. */
  predicate Under(q: Str, p: Str) {
    |p| < |q| && q[..|p|] == p && q[|p|] == SLASH
  }

  /** A directory is the root, or leads to some stored file. */
  ghost predicate IsDirOf(contents: map<Str, seq<u8>>, p: Str) {
    p == [] || exists q :: q in contents && Under(q, p)
  }

  lemma {:induction false} ChildIsUnder(p: Str, name: Str)
    ensures Under(ChildPath(p, name), p)
  {
  }

  lemma {:induction false} UnderTransitive(a: Str, b: Str, c: Str)
    requires Under(c, b) && Under(b, a)
    ensures Under(c, a)
  {
    TakeOfTake(c, |b|, |a|);
  }

  lemma {:induction false} UnderChild(p: Str, name: Str, q: Str)
    requires Under(ChildPath(p, name), q) && SlashFree(name)
    ensures p == q || Under(p, q)
  {
    var c := ChildPath(p, name);
    LastSlash(p, name, |q|);
    assert c[..|p|] == p;
    TakeOfTake(c, |p|, |q|);
  }

  /** Every directory of the table has a file beneath it. */
  lemma {:induction false} DirHasFile(dirs: seq<DirEntry>, files: seq<FileEntry>, i: nat) returns (j: nat)
    requires IsSorted(dirs, files) && 0 < i < |dirs|
    ensures j < |files| && Under(files[j].path, dirs[i].path)
    decreases |dirs| - i
  {
    hide Ascending, Increasing, Under;
    var d := dirs[i];
    assert ListsAt(dirs, files, i);
    if d.children != [] {
      var c := d.children[0];
      assert c in d.children && DirLinked(dirs, c);
      j := DirHasFile(dirs, files, c);
      ChildIsUnder(d.path, dirs[c].name);
      UnderTransitive(d.path, dirs[c].path, files[j].path);
    } else {
      j := d.files[0];
      assert j in d.files && FileLinked(dirs, files[j]);
      ChildIsUnder(d.path, files[j].name);
    }
  }

  /** And everything above a directory is a directory. */
  lemma {:induction false} AboveIsDir(dirs: seq<DirEntry>, i: nat, p: Str) returns (k: nat)
    requires DirsLinked(dirs) && i < |dirs| && (dirs[i].path == p || Under(dirs[i].path, p))
    ensures k < |dirs| && dirs[k].path == p
    decreases i
  {
    if dirs[i].path == p {
      k := i;
    } else {
      assert i > 0;
      assert DirLinked(dirs, i);
      UnderChild(dirs[dirs[i].parent].path, dirs[i].name, p);
      k := AboveIsDir(dirs, dirs[i].parent, p);
    }
  }

  /** The directory table holds exactly the directories the stored paths imply. */
  lemma {:induction false} DirsAreImplied(dirs: seq<DirEntry>, files: seq<FileEntry>, contents: map<Str, seq<u8>>, p: Str)
    requires Stored(dirs, files, contents)
    ensures HasDirAt(dirs, p) <==> IsDirOf(contents, p)
  {
    hide Ascending, Increasing, Under, LaidOut, Contents;
    if i :| 0 <= i < |dirs| && dirs[i].path == p {
      if i > 0 {
        var j := DirHasFile(dirs, files, i);
        assert files[j].path in contents;
      }
    }
    if p == [] {
      assert dirs[0].path == p;
    } else if q :| q in contents && Under(q, p) {
      var j :| 0 <= j < |files| && files[j].path == q;
      assert FileLinked(dirs, files[j]);
      UnderChild(dirs[files[j].parent].path, files[j].name, p);
      var k := AboveIsDir(dirs, files[j].parent, p);
    }
  }

  // ---- Opening any path ----

  /** The path the reader looks up: leading separators count once, everything else as given. */
  function LookedUp(path: Str): Str {
    [SLASH] + TrimSlashes(path)
  }

  /** Everything before the last separator of the path looked up. */
  function ParentOf(path: Str): Str {
    var pieces := Split(TrimSlashes(path));
    Join(pieces[..|pieces| - 1])
  }

  /** What opening a path and reading the file comes to. */
  ghost function Answer(contents: map<Str, seq<u8>>, path: Str): Result<seq<u8>, Read.OpenError> {
    if TrimSlashes(path) == [] then Err(Read.PathNotFound)
    else if LookedUp(path) in contents then Ok(contents[LookedUp(path)])
    else if IsDirOf(contents, ParentOf(path)) then Err(Read.FileNotFound)
    else Err(Read.DirNotFound)
  }

  /** The reader's answer: the walk ends, and in the stored bytes or in the right error. */
  ghost predicate Answers(fs: Read.RomFs, path: Str, r: Result<Read.FileView, Read.OpenError>, answer: Result<seq<u8>, Read.OpenError>)
    requires Read.Opened(fs)
  {
    Read.PathOpensTo(fs, path, r) &&
    match r
    case Ok(file) => answer.Ok? && Read.Data(fs, file) == Ok(answer.value)
    case Err(e) => answer == Err(e)
  }

  lemma {:induction false} RootIsFirst(fs: Read.RomFs, dirs: seq<DirEntry>, files: seq<FileEntry>)
    requires IsViewOf(fs, dirs, files) && Read.Opened(fs)
    ensures Expressible(dirs, files) && |dirs| > 0 && dirs[0].path == [] && Read.RootDir(fs) == Ok(DirViewOf(dirs, files, 0))
    ensures forall k :: 0 <= k < |dirs| ==> DirFits(dirs[k], |dirs|, |files|)
  {
    hide Fits, Ascending, Image, HeaderOf, Read.DirFromOffset, Read.Opened, DirViewOf;
    DirReadsBack(fs, dirs, files, 0);
    assert DirOffset(dirs, 0) == 0;
  }

  /** Whatever the path, the reader finds exactly what is stored there, or says what is missing. */
  lemma {:induction false} ViewAnswers(fs: Read.RomFs, dirs: seq<DirEntry>, files: seq<FileEntry>,
                                       contents: map<Str, seq<u8>>, path: Str) returns (r: Result<Read.FileView, Read.OpenError>)
    requires IsViewOf(fs, dirs, files) && Read.Opened(fs) && Stored(dirs, files, contents)
    ensures Answers(fs, path, r, Answer(contents, path))
  {
    hide IsViewOf, Read.Opened, IsSorted, LaidOut, Contents, Expressible, DirViewOf, FileViewOf, IsDirOf, Resolve, HasDirAt,
         Read.OpensTo, Read.RootDir, Read.Data;
    var trimmed := TrimSlashes(path);
    if trimmed == [] {
      r := Err(Read.PathNotFound);
    } else {
      RootIsFirst(fs, dirs, files);
      var pieces := Split(trimmed);
      JoinSplit(trimmed);
      DescentAgrees(fs, dirs, files, 0, pieces);
      ResolveByPath(dirs, files, 0, pieces);
      assert [] + Join(pieces) == LookedUp(path) && [] + ParentOf(path) == ParentOf(path);
      var found := Resolve(dirs, files, 0, pieces);
      if found.Ok? {
        DataReadsBack(fs, dirs, files, found.value);
        r := Ok(FileViewOf(dirs, files, found.value));
      } else {
        DirsAreImplied(dirs, files, contents, ParentOf(path));
        r := Err(found.error);
      }
    }
  }

  /** The round trip, for every path: an image of `contents` is accepted and answers with `contents`. */
  lemma {:induction false} OpenFindsWhatIsStored(image: seq<u8>, contents: map<Str, seq<u8>>, path: Str)
    returns (r: Result<Read.FileView, Read.OpenError>)
    requires IsImageOf(image, contents)
    ensures |image| <= USIZE_MAX && Read.TryFromBytes(image).Ok?
    ensures Answers(Read.TryFromBytes(image).value, path, r, Answer(contents, path))
  {
    hide Image, Fits, Expressible, Read.TryFromBytes, Answers, Answer, IsSorted, LaidOut, HeaderOf;
    var dirs, files :| Stored(dirs, files, contents) && Fits(dirs, files) && Expressible(dirs, files) && image == Image(dirs, files);
    BuiltIsAccepted(dirs, files);
    var fs := Read.RomFs(image, HeaderOf(dirs, files));
    assert Read.TryFromBytes(image) == Ok(fs);
    r := ViewAnswers(fs, dirs, files, contents, path);
  }

  /** Parse an image, open a path and read the file. */
  method ReadFile(image: seq<u8>, path: Str, ghost contents: map<Str, seq<u8>>) returns (r: Result<seq<u8>, Read.OpenError>)
    requires IsImageOf(image, contents)
    ensures r == Answer(contents, path)
  {
    hide IsImageOf, Read.TryFromBytes, Answer, Read.PathOpensTo, Read.Data;
    ghost var expected := OpenFindsWhatIsStored(image, contents, path);
    var fs := Read.TryFromBytes(image);
    var file := Read.Open(fs.value, path, expected);
    if file.Err? {
      return Err(file.error);
    }
    var data := Read.Data(fs.value, file.value);
    r := Ok(data.value);
  }

  // ---- A path given to the builder and the same path given to the reader ----

  /** The path looked up is the path stored exactly when no piece past the leading separators is empty. */
  lemma {:induction false} LookedUpWhereStored(path: Str)
    requires path != [] && path[0] == SLASH && Components(path[1..]) != []
    ensures LookedUp(path) == Join(Components(path[1..])) <==> AreNames(Split(TrimSlashes(path)))
  {
    var pieces := Split(TrimSlashes(path));
    JoinSplit(TrimSlashes(path));
    ComponentsTrimmed(path[1..]);
    if AreNames(pieces) {
      NonEmptyNames(pieces);
    } else if Join(pieces) == Join(Components(path[1..])) {
      JoinInjectiveSlashFree(pieces, Components(path[1..]));
    }
  }

  lemma {:induction false} DirPathIsJoined(dirs: seq<DirEntry>, i: nat) returns (comps: seq<Str>)
    requires DirsLinked(dirs) && i < |dirs|
    ensures AreNames(comps) && dirs[i].path == Join(comps)
  {
    comps := [];
    if i > 0 {
      assert DirLinked(dirs, i);
      var above := DirPathIsJoined(dirs, dirs[i].parent);
      comps := above + [dirs[i].name];
      JoinSnoc(above, dirs[i].name);
    }
  }

  /** Every stored path is some names, joined. */
  lemma {:induction false} StoredPathIsJoined(dirs: seq<DirEntry>, files: seq<FileEntry>, contents: map<Str, seq<u8>>, p: Str)
    returns (comps: seq<Str>)
    requires Stored(dirs, files, contents) && p in contents
    ensures comps != [] && AreNames(comps) && p == Join(comps)
  {
    hide Contents, Ascending, Increasing, LaidOut;
    var j :| 0 <= j < |files| && files[j].path == p;
    assert FileLinked(dirs, files[j]);
    var above := DirPathIsJoined(dirs, files[j].parent);
    comps := above + [files[j].name];
    JoinSnoc(above, files[j].name);
  }

  /**
   * A path the builder stored something under opens to exactly those bytes when no piece past the
   * leading separators is empty, and is not found at all otherwise.
   */
  lemma {:induction false} SamePathBothWays(dirs: seq<DirEntry>, files: seq<FileEntry>, contents: map<Str, seq<u8>>, path: Str)
    requires Stored(dirs, files, contents) && path != [] && path[0] == SLASH
    requires Join(Components(path[1..])) in contents
    ensures Answer(contents, path) == Ok(contents[Join(Components(path[1..]))]) <==> AreNames(Split(TrimSlashes(path)))
    ensures Answer(contents, path).Err? <==> !AreNames(Split(TrimSlashes(path)))
  {
    hide Stored, Components, Split, Join, IsDirOf;
    var stored, pieces := Components(path[1..]), Split(TrimSlashes(path));
    var names := StoredPathIsJoined(dirs, files, contents, Join(stored));
    JoinInjective(stored, names);
    LookedUpWhereStored(path);
    JoinSplit(TrimSlashes(path));
    if LookedUp(path) in contents {
      var found := StoredPathIsJoined(dirs, files, contents, LookedUp(path));
      JoinInjectiveSlashFree(found, pieces);
    }
    if TrimSlashes(path) == [] {
      NothingUnderSlashes(path);
    }
  }

  lemma {:induction false} NothingUnderSlashes(path: Str)
    requires path != [] && path[0] == SLASH && TrimSlashes(path) == []
    ensures Components(path[1..]) == []
  {
    ComponentsTrimmed(path[1..]);
    assert Split([])[1..] == [];
  }

  lemma {:induction false} ComponentsTrimmed(s: Str)
    ensures Components(s) == Components(TrimSlashes(s))
  {
    if s != [] && s[0] == SLASH {
      ComponentsTrimmed(s[1..]);
      assert Split(s)[1..] == Split(s[1..]);
    }
  }

  lemma {:induction false} JoinInjectiveSlashFree(a: seq<Str>, b: seq<Str>)
    requires a != [] && b != [] && AllSlashFree(a) && AllSlashFree(b) && Join(a) == Join(b)
    ensures a == b
  {
    var n, m := |a| - 1, |b| - 1;
    ParentAndNameUnique(Join(a[..n]), a[n], Join(b[..m]), b[m]);
    if n > 0 && m > 0 {
      JoinInjectiveSlashFree(a[..n], b[..m]);
    }
    assert a == a[..n] + [a[n]] && b == b[..m] + [b[m]];
  }

  /** `/a//b` is stored as `/a/b`, where the reader does not look for it. */
  lemma {:induction false} DoubledSeparatorIsNotFound(a: Str, b: Str, data: seq<u8>)
    requires IsName(a) && IsName(b)
    ensures var path, stored := [SLASH] + (a + [SLASH] + ([SLASH] + b)), Join([a, b]);
      AddResult(path, map[]) == Ok(stored) && Answer(map[stored := data], path) == Err(Read.DirNotFound)
  {
    hide Split, Join, NonEmpty, IsDirOf;
    var rest := a + [SLASH] + ([SLASH] + b);
    var path, stored := [SLASH] + rest, Join([a, b]);
    assert path[1..] == rest && rest[0] == a[0];
    assert TrimSlashes(path) == rest;
    SplitDoubled(a, b);
    NonEmptyOfThree(a, b);
    LookedUpWhereStored(path);
    assert LookedUp(path) != stored by { assert !IsName([a, [], b][1]); }
    assert [a, [], b][..2] == [a, []];
    NotADirectory(a, b, data);
  }

  lemma {:induction false} SplitDoubled(a: Str, b: Str)
    requires IsName(a) && IsName(b)
    ensures Split(a + [SLASH] + ([SLASH] + b)) == [a, [], b]
  {
    SplitPastName(a, [SLASH] + b);
    SplitPastName([], b);
    SplitSlashFree(b);
    assert [SLASH] + b == [] + [SLASH] + b;
    assert [a] + ([[]] + [b]) == [a, [], b];
  }

  lemma {:induction false} NotADirectory(a: Str, b: Str, data: seq<u8>)
    requires IsName(a) && IsName(b)
    ensures !IsDirOf(map[Join([a, b]) := data], Join([a, []]))
  {
    JoinOfTwo(a, b);
    JoinOfTwo(a, []);
    var stored, p := Join([a, b]), Join([a, []]);
    assert stored == p + b && stored[|p|] == b[0];
    assert !Under(stored, p);
  }

  lemma {:induction false} NonEmptyOfThree(a: Str, b: Str)
    requires IsName(a) && IsName(b)
    ensures NonEmpty([a, [], b]) == [a, b]
  {
    assert [a, [], b][1..] == [[], b] && [[], b][1..] == [b] && [b][1..] == [];
    assert NonEmpty([b]) == [b] + NonEmpty([]);
    assert NonEmpty([[], b]) == [b];
  }

  lemma {:induction false} JoinOfTwo(a: Str, b: Str)
    ensures Join([a, b]) == [SLASH] + a + [SLASH] + b
  {
    assert [a, b][..1] == [a] && [a][..0] == [];
    assert Join([a]) == [] + [SLASH] + a;
  }

  // ---- Listing a directory ----

  ghost function DirEntries(dirs: seq<DirEntry>, files: seq<FileEntry>, xs: seq<nat>): (es: seq<Read.Entry>)
    requires Expressible(dirs, files) && InRange(xs, |dirs|)
    ensures |es| == |xs| && forall k :: 0 <= k < |xs| ==> es[k] == Read.Dir(DirViewOf(dirs, files, xs[k]))
  {
    seq(|xs|, k requires 0 <= k < |xs| => Read.Dir(DirViewOf(dirs, files, xs[k])))
  }

  ghost function FileEntries(dirs: seq<DirEntry>, files: seq<FileEntry>, xs: seq<nat>): (es: seq<Read.Entry>)
    requires Expressible(dirs, files) && InRange(xs, |files|)
    ensures |es| == |xs| && forall k :: 0 <= k < |xs| ==> es[k] == Read.File(FileViewOf(dirs, files, xs[k]))
  {
    seq(|xs|, k requires 0 <= k < |xs| => Read.File(FileViewOf(dirs, files, xs[k])))
  }

  lemma {:induction false} DirsListed(fs: Read.RomFs, dirs: seq<DirEntry>, files: seq<FileEntry>, xs: seq<nat>)
    requires IsViewOf(fs, dirs, files) && Read.Opened(fs) && Expressible(dirs, files) && InRange(xs, |dirs|)
    ensures Read.Dirs(fs, DirChainOf(dirs, xs)) == DirEntries(dirs, files, xs)
  {
    hide IsViewOf, Read.Opened, Expressible, Read.DirFromOffset, DirViewOf;
    if xs != [] {
      DirReadsBack(fs, dirs, files, xs[0]);
      assert DirChainOf(dirs, xs)[1..] == DirChainOf(dirs, xs[1..]);
      DirsListed(fs, dirs, files, xs[1..]);
    }
  }

  lemma {:induction false} FilesListed(fs: Read.RomFs, dirs: seq<DirEntry>, files: seq<FileEntry>, xs: seq<nat>)
    requires IsViewOf(fs, dirs, files) && Read.Opened(fs) && Expressible(dirs, files) && InRange(xs, |files|)
    ensures Read.Files(fs, FileChainOf(files, xs)) == FileEntries(dirs, files, xs)
  {
    hide IsViewOf, Read.Opened, Expressible, Read.FileFromOffset, FileViewOf;
    if xs != [] {
      FileReadsBack(fs, dirs, files, xs[0]);
      assert FileChainOf(files, xs)[1..] == FileChainOf(files, xs[1..]);
      FilesListed(fs, dirs, files, xs[1..]);
    }
  }

  /** Siblings by table order are siblings by name. */
  lemma {:induction false} ChildNamesAscend(dirs: seq<DirEntry>, files: seq<FileEntry>, p: nat)
    requires IsSorted(dirs, files) && p < |dirs| && InRange(dirs[p].children, |dirs|) && InRange(dirs[p].files, |files|)
    ensures Ascending(KeysOf(dirs[p].children, DirNames(dirs))) && Ascending(KeysOf(dirs[p].files, FileNames(files)))
  {
    var d := dirs[p];
    assert ListsAt(dirs, files, p);
    var ps, qs := DirPaths(dirs), FilePaths(files);
    var ns, ms := KeysOf(d.children, DirNames(dirs)), KeysOf(d.files, FileNames(files));
    forall i, j | 0 <= i < j < |ns|
      ensures Less(ns[i], ns[j])
    {
      var a, b := d.children[i], d.children[j];
      assert a in d.children && b in d.children && DirLinked(dirs, a) && DirLinked(dirs, b);
      assert Less(ps[a], ps[b]);
      LessPastPrefix(d.path + [SLASH], ns[i], ns[j]);
    }
    forall i, j | 0 <= i < j < |ms|
      ensures Less(ms[i], ms[j])
    {
      var a, b := d.files[i], d.files[j];
      assert a in d.files && b in d.files && FileLinked(dirs, files[a]) && FileLinked(dirs, files[b]);
      assert Less(qs[a], qs[b]);
      LessPastPrefix(d.path + [SLASH], ms[i], ms[j]);
    }
  }

  /** The walk of a directory ends, and yields each subdirectory and then each file once, in name order. */
  lemma {:induction false} ListingIsComplete(fs: Read.RomFs, dirs: seq<DirEntry>, files: seq<FileEntry>, p: nat)
    returns (dirChain: seq<u32>, fileChain: seq<u32>)
    requires IsViewOf(fs, dirs, files) && Read.Opened(fs) && p < |dirs|
    ensures Expressible(dirs, files) && DirFits(dirs[p], |dirs|, |files|)
    ensures Read.DirChain(fs, DirViewOf(dirs, files, p).entry.child, dirChain)
    ensures Read.FileChain(fs, DirViewOf(dirs, files, p).entry.file, fileChain)
    ensures Read.Dirs(fs, dirChain) == DirEntries(dirs, files, dirs[p].children)
    ensures Read.Files(fs, fileChain) == FileEntries(dirs, files, dirs[p].files)
    ensures ListsChildren(dirs[p].children, dirs, p) && ListsFiles(dirs[p].files, files, p)
    ensures InByteOrder(KeysOf(dirs[p].children, DirNames(dirs))) && InByteOrder(KeysOf(dirs[p].files, FileNames(files)))
    ensures Increasing(dirs[p].children) && Increasing(dirs[p].files)
  {
    hide IsViewOf, Read.Opened, Expressible, DirViewOf, FileViewOf, Ascending, InByteOrder, Read.DirChain, Read.FileChain, Read.Dirs, Read.Files;
    ChainsAreLists(fs, dirs, files, p);
    ViewParts(fs, dirs, files);
    var d := dirs[p];
    dirChain, fileChain := DirChainOf(dirs, d.children), FileChainOf(files, d.files);
    DirsListed(fs, dirs, files, d.children);
    FilesListed(fs, dirs, files, d.files);
    ChildNamesAscend(dirs, files, p);
    AscendingIsByteOrder(KeysOf(d.children, DirNames(dirs)));
    AscendingIsByteOrder(KeysOf(d.files, FileNames(files)));
    assert ListsAt(dirs, files, p);
  }

  /** Sibling offsets rise strictly along each chain, which is what ends the walk. */
  lemma {:induction false} SiblingOffsetsRise(dirs: seq<DirEntry>, files: seq<FileEntry>, p: nat)
    requires IsSorted(dirs, files) && LaidOut(dirs, files) && p < |dirs|
    requires InRange(dirs[p].children, |dirs|) && InRange(dirs[p].files, |files|)
    ensures Increasing(DirChainOf(dirs, dirs[p].children)) && Increasing(FileChainOf(files, dirs[p].files))
  {
    hide Ascending;
    var d := dirs[p];
    assert ListsAt(dirs, files, p);
    forall i, j | 0 <= i < j < |d.children|
      ensures DirChainOf(dirs, d.children)[i] < DirChainOf(dirs, d.children)[j]
    {
      DirOffsetsRise(dirs, d.children[i], d.children[j]);
    }
    forall i, j | 0 <= i < j < |d.files|
      ensures FileChainOf(files, d.files)[i] < FileChainOf(files, d.files)[j]
    {
      FileOffsetsRise(files, d.files[i], d.files[j]);
    }
  }

  // ---- A malformed directory does not end a walk ----

  /** Every directory of the chain can be read. */
  ghost predicate DirsReadable(fs: Read.RomFs, chain: seq<u32>)
    requires Read.Opened(fs)
  {
    forall k :: 0 <= k < |chain| ==> Read.DirFromOffset(fs, chain[k]).Ok?
  }

  /** What a walk is documented to yield: it ends at the first malformed entry, directory or file. */
  ghost function DocumentedWalk(fs: Read.RomFs, dirChain: seq<u32>, fileChain: seq<u32>): seq<Read.Entry>
    requires Read.Opened(fs)
  {
    Read.Dirs(fs, dirChain) + if DirsReadable(fs, dirChain) then Read.Files(fs, fileChain) else []
  }

  /**
   * The walk ends where it is documented to exactly when every directory of the chain can be read, or
   * there is no file that could come after the malformed one.
   */
  lemma {:induction false} WalkEndsAsDocumented(fs: Read.RomFs, dirChain: seq<u32>, fileChain: seq<u32>)
    requires Read.Opened(fs)
    ensures Read.Dirs(fs, dirChain) + Read.Files(fs, fileChain) == DocumentedWalk(fs, dirChain, fileChain)
            <==> DirsReadable(fs, dirChain) || fileChain == [] || Read.FileFromOffset(fs, fileChain[0]).Err?
  {
    hide Read.Opened, Read.DirFromOffset, Read.FileFromOffset;
    var dirs, files := Read.Dirs(fs, dirChain), Read.Files(fs, fileChain);
    assert files == [] <==> fileChain == [] || Read.FileFromOffset(fs, fileChain[0]).Err?;
    assert |dirs + files| == |dirs| + |files| && (files == [] ==> dirs + files == dirs + []);
  }

  /** A root directory whose only child is out of range, and one file. */
  function BrokenDirs(): seq<u8> {
    Words(DirWords(DirFields(0, NO_ENTRY, 0x1000, 0, NO_ENTRY, 0)))
  }

  function OneFile(): seq<u8> {
    Words(FileWords(FileFields(0, NO_ENTRY, 0, 0, NO_ENTRY, 0)))
  }

  function BrokenHeader(): Header {
    Header(HEADER_SIZE, 0, 0, 0x50, 0x18, 0, 0, 0x68, 0x20, 0)
  }

  /** The walk goes on to the files, where the documentation has it stop at the first malformed entry. */
  lemma {:induction false} MalformedDirIsPassedOver() returns (fs: Read.RomFs, root: Read.DirView)
    ensures Read.TryFromBytes(Longs(HeaderFields(BrokenHeader())) + BrokenDirs() + OneFile()) == Ok(fs)
    ensures Read.Opened(fs) && Read.RootDir(fs) == Ok(root) && root.entry.child != NO_ENTRY
    ensures Read.DirFromOffset(fs, root.entry.child).Err?
    ensures Read.DirChain(fs, root.entry.child, [root.entry.child]) && Read.FileChain(fs, root.entry.file, [0])
    ensures |Read.Dirs(fs, [root.entry.child]) + Read.Files(fs, [0])| == 1
    ensures DocumentedWalk(fs, [root.entry.child], [0]) == []
  {
    hide Longs, Words, Read.HeaderAt, Read.DirFieldsAt, Read.FileFieldsAt, Halves, AlignUp;
    var front, dirTable, fileTable := Longs(HeaderFields(BrokenHeader())), BrokenDirs(), OneFile();
    var bytes := front + dirTable + fileTable;
    SliceOfAppend(front + dirTable, fileTable, 0x50, 0x68);
    assert bytes[0x50..0x68] == dirTable && bytes[0x68..0x88] == fileTable && bytes[..0x50] == front;
    HeaderReadsBack(bytes, BrokenHeader());
    fs := Read.RomFs(bytes, BrokenHeader());
    var entry := DirFields(0, NO_ENTRY, 0x1000, 0, NO_ENTRY, 0);
    root := Read.DirView(entry, []);
    NamelessDir(entry);
    DirBytesRead(dirTable, 0, entry, []);
    var file := FileFields(0, NO_ENTRY, 0, 0, NO_ENTRY, 0);
    NamelessFile(file);
    FileBytesRead(fileTable, 0, file, []);
    assert !DirsReadable(fs, [root.entry.child]) by { assert [root.entry.child][0] == root.entry.child; }
  }

  lemma {:induction false} NamelessDir(entry: DirFields)
    ensures DirBytes(entry, []) == Words(DirWords(entry))
  {
    hide Words;
    assert PaddedName([]) == [];
  }

  lemma {:induction false} NamelessFile(entry: FileFields)
    ensures FileBytes(entry, []) == Words(FileWords(entry))
  {
    hide Words, Halves;
    assert PaddedName([]) == [];
  }

  // ---- From adding to reading ----

  /** Build a builder's image and read one path back out of it. */
  method BuildThenRead(builder: RomFsBuilder, path: Str) returns (r: Result<seq<u8>, Read.OpenError>)
    requires builder.Valid() && ContentsFit(Contents(builder.files)) && builder.files != []
    modifies builder
    ensures r == Answer(old(Contents(builder.files)), path)
  {
    hide IsTree, IsImageOf, Answer, Stored, Image, Fits, Expressible;
    TreePathsDistinct(builder.dirs, builder.files);
    ghost var contents := Contents(builder.files);
    var image := builder.Build();
    r := ReadFile(image.value, path, contents);
  }
}
