/** The three access blocks of an NPDM section: filesystem, services, kernel capabilities. */
module NpdmBlocks {
  import opened Bytes
  import opened Packing
  import opened NpdmCapability
  import opened NpdmSyscalls
  import opened Names

  // ---- Services ----

  datatype Service = Service(name: seq<u8>, isHost: bool)

  const MAX_NAME := 8

  function Cut(name: seq<u8>): (r: seq<u8>)
    ensures |r| <= MAX_NAME
  {
    CutTo(name, MAX_NAME)
  }

  /** A control byte, length less one with the host bit on top, and the name; nothing for an empty name. */
  function ServiceBytes(s: Service): seq<u8> {
    if s.name == [] then [] else [|Cut(s.name)| - 1 + (if s.isHost then 0x80 else 0)] + Cut(s.name)
  }

  function ServicesBytes(services: seq<Service>): seq<u8> {
    if services == [] then [] else ServiceBytes(services[0]) + ServicesBytes(services[1..])
  }

  method BuildService(s: Service) returns (entry: seq<u8>)
    ensures entry == ServiceBytes(s)
  {
    var length := if |s.name| < MAX_NAME then |s.name| else MAX_NAME;
    if length == 0 {
      return [];
    }
    var control: u8 := length - 1;
    if s.isHost {
      control := control + 0x80;
    }
    entry := [control] + s.name[..length];
  }

  method BuildServices(services: seq<Service>) returns (data: seq<u8>)
    ensures data == ServicesBytes(services)
  {
    data := [];
    assert services[0..] == services;
    for i := 0 to |services|
      invariant data + ServicesBytes(services[i..]) == ServicesBytes(services)
    {
      var rest := services[i..];
      assert rest[1..] == services[i + 1..];
      var entry := BuildService(services[i]);
      AppendIsAssociative(data, entry, ServicesBytes(services[i + 1..]));
      data := data + entry;
    }
    assert services[|services|..] == [] && data + [] == data;
  }

  /** Reading the list back: each control byte says how long the name after it is, and who hosts it. */
  function ParseServices(b: seq<u8>): Option<seq<Service>>
    decreases |b|
  {
    if b == [] then Some([])
    else
      var n := b[0] % 0x80 + 1;
      if 1 + n > |b| then None
      else
        var rest := ParseServices(b[1 + n..]);
        if rest.None? then None else Some([Service(b[1..1 + n], b[0] >= 0x80)] + rest.value)
  }

  /** What survives: the non-empty names, cut to eight bytes, with their host bits, in order. */
  function Surviving(services: seq<Service>): seq<Service> {
    if services == [] then []
    else (if services[0].name == [] then [] else [services[0].(name := Cut(services[0].name))]) + Surviving(services[1..])
  }

  lemma {:induction false} ParseOne(s: Service, rest: seq<u8>)
    requires s.name != [] && ParseServices(rest).Some?
    ensures ParseServices(ServiceBytes(s) + rest) == Some([s.(name := Cut(s.name))] + ParseServices(rest).value)
  {
    var name := Cut(s.name);
    var b := ServiceBytes(s) + rest;
    assert b[0] % 0x80 + 1 == |name| && b[1..1 + |name|] == name && b[1 + |name|..] == rest;
  }

  /** The service list parses back to what survives. */
  lemma {:induction false} ServicesParse(services: seq<Service>)
    ensures ParseServices(ServicesBytes(services)) == Some(Surviving(services))
  {
    if services != [] {
      ServicesParse(services[1..]);
      var rest := ServicesBytes(services[1..]);
      if services[0].name == [] {
        assert [] + rest == rest && [] + Surviving(services[1..]) == Surviving(services[1..]);
      } else {
        ParseOne(services[0], rest);
      }
    }
  }

  predicate NamesFit(services: seq<Service>) {
    forall i :: 0 <= i < |services| ==> 0 < |services[i].name| <= MAX_NAME
  }

  lemma {:induction false} NeverLonger(services: seq<Service>)
    ensures |Surviving(services)| <= |services|
  {
    if services != [] {
      NeverLonger(services[1..]);
    }
  }

  /** Nothing is lost exactly when every name has one to eight bytes. */
  lemma {:induction false} AllSurviveIff(services: seq<Service>)
    ensures Surviving(services) == services <==> NamesFit(services)
  {
    if services != [] {
      AllSurviveIff(services[1..]);
      NeverLonger(services[1..]);
      assert services == [services[0]] + services[1..];
      if services[0].name != [] {
        var cut := services[0].(name := Cut(services[0].name));
        assert Surviving(services) == [cut] + Surviving(services[1..]);
        assert Surviving(services)[0] == cut && Surviving(services)[1..] == Surviving(services[1..]);
      }
    }
  }

  // ---- Filesystem access ----

  datatype SaveOwner = SaveOwner(accessibility: u8, id: u64)

  datatype FilesystemAccess = FilesystemAccess(
    permissions: u64, contentIds: seq<u64>, saveOwners: seq<SaveOwner>,
    contentIdMin: u64, contentIdMax: u64, saveIdMin: u64, saveIdMax: u64)

  const FAH_SIZE := 0x1C

  function ContentSize(fs: FilesystemAccess): nat {
    if fs.contentIds == [] then 0 else 4 + 8 * |fs.contentIds|
  }

  function SaveSize(fs: FilesystemAccess): nat {
    if fs.saveOwners == [] then 0 else 4 + AlignUp(|fs.saveOwners|, 4) + 8 * |fs.saveOwners|
  }

  /** Both lists can be addressed by the header's 32-bit fields. */
  predicate ListsFit(fs: FilesystemAccess) {
    FAH_SIZE + ContentSize(fs) + SaveSize(fs) < 0x1_0000_0000
  }

  function Accessibilities(owners: seq<SaveOwner>): (r: seq<u8>)
    ensures |r| == |owners| && forall i :: 0 <= i < |owners| ==> r[i] == owners[i].accessibility
  {
    seq(|owners|, i requires 0 <= i < |owners| => owners[i].accessibility)
  }

  function OwnerIds(owners: seq<SaveOwner>): (r: seq<u64>)
    ensures |r| == |owners| && forall i :: 0 <= i < |owners| ==> r[i] == owners[i].id
  {
    seq(|owners|, i requires 0 <= i < |owners| => owners[i].id)
  }

  function FahFront(fs: FilesystemAccess): (b: seq<u8>)
    requires ListsFit(fs)
    ensures |b| == FAH_SIZE
  {
    Words([1]) + Le64(fs.permissions) + Words([FAH_SIZE, ContentSize(fs), FAH_SIZE + ContentSize(fs), SaveSize(fs)])
  }

  function ContentBytes(fs: FilesystemAccess): (b: seq<u8>)
    requires ListsFit(fs)
    ensures |b| == ContentSize(fs)
  {
    if fs.contentIds == [] then [] else Words([|fs.contentIds|]) + Longs(fs.contentIds)
  }

  function SaveBytes(fs: FilesystemAccess): (b: seq<u8>)
    requires ListsFit(fs)
    ensures |b| == SaveSize(fs)
  {
    if fs.saveOwners == [] then []
    else Words([|fs.saveOwners|]) + PadTo(Accessibilities(fs.saveOwners), 4) + Longs(OwnerIds(fs.saveOwners))
  }

  /** The filesystem access header of ACI0, its two lists behind it. */
  function FahBytes(fs: FilesystemAccess): seq<u8>
    requires ListsFit(fs)
  {
    FahFront(fs) + ContentBytes(fs) + SaveBytes(fs)
  }

  method BuildFah(fs: FilesystemAccess) returns (data: seq<u8>)
    requires ListsFit(fs)
    ensures data == FahBytes(fs)
  {
    hide Le64, Words, AlignUp, ContentBytes, SaveBytes;
    data := Words([1]);
    data := data + Le64(fs.permissions);
    var contentSize := if fs.contentIds == [] then 0 else 4 + |fs.contentIds| * 8;
    var saveSize := if fs.saveOwners == [] then 0 else 4 + AlignUp(|fs.saveOwners|, 4) + |fs.saveOwners| * 8;
    data := data + Words([FAH_SIZE, contentSize, FAH_SIZE + contentSize, saveSize]);
    assert data == FahFront(fs);
    var contents := BuildContentList(fs);
    data := data + contents;
    var saves := BuildSaveList(fs);
    data := data + saves;
  }

  method BuildContentList(fs: FilesystemAccess) returns (data: seq<u8>)
    requires ListsFit(fs)
    ensures data == ContentBytes(fs)
  {
    hide Words, Longs;
    if fs.contentIds == [] {
      return [];
    }
    var ids := AppendIds(fs.contentIds);
    data := Words([|fs.contentIds|]) + ids;
  }

  method BuildSaveList(fs: FilesystemAccess) returns (data: seq<u8>)
    requires ListsFit(fs)
    ensures data == SaveBytes(fs)
  {
    hide Words, Longs, AlignUp, PadTo;
    if fs.saveOwners == [] {
      return [];
    }
    var accessibilities := [];
    for i := 0 to |fs.saveOwners|
      invariant accessibilities == Accessibilities(fs.saveOwners)[..i]
    {
      accessibilities := accessibilities + [fs.saveOwners[i].accessibility];
    }
    assert Accessibilities(fs.saveOwners)[..|fs.saveOwners|] == Accessibilities(fs.saveOwners);
    accessibilities := PadTo(accessibilities, 4);
    var ids := AppendIds(OwnerIds(fs.saveOwners));
    data := Words([|fs.saveOwners|]) + accessibilities + ids;
  }

  method AppendIds(ids: seq<u64>) returns (b: seq<u8>)
    ensures b == Longs(ids)
  {
    hide Le64;
    b := [];
    for i := 0 to |ids|
      invariant b == Longs(ids[..i])
    {
      TakeOneMore(ids, i);
      assert (ids[..i] + [ids[i]])[..i] == ids[..i];
      b := b + Le64(ids[i]);
    }
    assert ids[..|ids|] == ids;
  }

  /** Content id `k` lies where the header says the list is. */
  predicate ContentFound(b: seq<u8>, fs: FilesystemAccess, k: nat)
    requires k < |fs.contentIds| && |b| >= FAH_SIZE
  {
    var at: nat := U32At(b, 12);
    at + 12 + 8 * k <= |b| && U32At(b, at) == |fs.contentIds| && U64At(b, at + 4 + 8 * k) == fs.contentIds[k]
  }

  /** And so does save data owner `k`, its accessibility in one array and its id in the next. */
  predicate SaveFound(b: seq<u8>, fs: FilesystemAccess, k: nat)
    requires k < |fs.saveOwners| && |b| >= FAH_SIZE
  {
    var at: nat := U32At(b, 20);
    var ids := at + 4 + AlignUp(|fs.saveOwners|, 4);
    ids + 8 * k + 8 <= |b| && U32At(b, at) == |fs.saveOwners| && b[at + 4 + k] == fs.saveOwners[k].accessibility &&
    U64At(b, ids + 8 * k) == fs.saveOwners[k].id
  }

  /** Every id and every accessibility is found at the offset the header records. */
  lemma {:induction false} ListsReadBack(fs: FilesystemAccess, k: nat)
    requires ListsFit(fs)
    ensures |FahBytes(fs)| == FAH_SIZE + ContentSize(fs) + SaveSize(fs)
    ensures k < |fs.contentIds| ==> ContentFound(FahBytes(fs), fs, k)
    ensures k < |fs.saveOwners| ==> SaveFound(FahBytes(fs), fs, k)
  {
    hide Le64, Words, Longs, AlignUp, FromLe32, FromLe64, FahFront, ContentBytes, SaveBytes, ContentFound, SaveFound;
    var b := FahBytes(fs);
    assert Holds(b, 0, FahFront(fs) + ContentBytes(fs) + SaveBytes(fs));
    HoldsMiddle(b, 0, FahFront(fs), ContentBytes(fs), SaveBytes(fs));
    FrontReads(b, fs);
    if k < |fs.contentIds| {
      ContentReads(b, FAH_SIZE, fs, k);
    }
    if k < |fs.saveOwners| {
      SaveReads(b, FAH_SIZE + ContentSize(fs), fs, k);
    }
  }

  lemma {:induction false} FrontReads(b: seq<u8>, fs: FilesystemAccess)
    requires ListsFit(fs) && Holds(b, 0, FahFront(fs))
    ensures U32At(b, 12) == FAH_SIZE && U32At(b, 16) == ContentSize(fs)
    ensures U32At(b, 20) == FAH_SIZE + ContentSize(fs) && U32At(b, 24) == SaveSize(fs)
  {
    hide Le64, Words, AlignUp, FromLe32, ContentSize, SaveSize;
    var ws := [FAH_SIZE, ContentSize(fs), FAH_SIZE + ContentSize(fs), SaveSize(fs)];
    var front := Words([1]) + Le64(fs.permissions);
    assert front + Words(ws) + [] == FahFront(fs);
    HoldsMiddle(b, 0, front, Words(ws), []);
    WordReads(b, 12, ws, 0);
    WordReads(b, 12, ws, 1);
    WordReads(b, 12, ws, 2);
    WordReads(b, 12, ws, 3);
  }

  lemma {:induction false} ContentReads(b: seq<u8>, at: nat, fs: FilesystemAccess, k: nat)
    requires ListsFit(fs) && Holds(b, at, ContentBytes(fs)) && k < |fs.contentIds| && |b| >= FAH_SIZE && U32At(b, 12) == at
    ensures ContentFound(b, fs, k)
  {
    hide Words, Longs, FromLe32, FromLe64;
    var ws, xs := [|fs.contentIds|], fs.contentIds;
    HoldsMiddle(b, at, Words(ws), Longs(xs), []) by { assert Words(ws) + Longs(xs) + [] == ContentBytes(fs); }
    WordReads(b, at, ws, 0);
    LongReads(b, at + 4, xs, k);
  }

  lemma {:induction false} SaveReads(b: seq<u8>, at: nat, fs: FilesystemAccess, k: nat)
    requires ListsFit(fs) && Holds(b, at, SaveBytes(fs)) && k < |fs.saveOwners| && |b| >= FAH_SIZE && U32At(b, 20) == at
    ensures SaveFound(b, fs, k)
  {
    hide Words, Longs, FromLe32, FromLe64, AlignUp, PadTo;
    var ws, access, xs := [|fs.saveOwners|], PadTo(Accessibilities(fs.saveOwners), 4), OwnerIds(fs.saveOwners);
    HoldsMiddle(b, at, Words(ws), access, Longs(xs));
    WordReads(b, at, ws, 0);
    LongReads(b, at + 4 + |access|, xs, k);
    assert b[at + 4..at + 4 + |access|][k] == access[k] == access[..|fs.saveOwners|][k];
  }

  /** The filesystem access control of ACID: ranges instead of lists. */
  function FacBytes(fs: FilesystemAccess): (b: seq<u8>)
    ensures |b| == 0x2C
  {
    [1, 0, 0, 0] + Longs([fs.permissions, fs.contentIdMin, fs.contentIdMax, fs.saveIdMin, fs.saveIdMax])
  }

  // ---- Kernel capabilities ----

  function AsWords(ws: seq<bv32>): (r: seq<u32>)
    ensures |r| == |ws| && forall i :: 0 <= i < |ws| ==> r[i] == ws[i] as u32
  {
    seq(|ws|, i requires 0 <= i < |ws| => ws[i] as u32)
  }

  /** The descriptors of the first capabilities, one list each, end to end. */
  function Flat(wss: seq<seq<bv32>>): seq<bv32> {
    if wss == [] then [] else Flat(wss[..|wss| - 1]) + wss[|wss| - 1]
  }

  ghost predicate AreEncodings(wss: seq<seq<bv32>>, caps: seq<Capability>) {
    |wss| == |caps| && forall i :: 0 <= i < |caps| ==> IsEncoding(wss[i], caps[i])
  }

  ghost predicate IsKcOf(data: seq<u8>, caps: seq<Capability>) {
    exists wss :: AreEncodings(wss, caps) && data == Words(AsWords(Flat(wss)))
  }

  method BuildCapabilities(caps: seq<Capability>) returns (data: seq<u8>)
    ensures IsKcOf(data, caps)
  {
    hide IsEncoding, Le32;
    data := [];
    ghost var wss: seq<seq<bv32>> := [];
    for i := 0 to |caps|
      invariant AreEncodings(wss, caps[..i]) && data == Words(AsWords(Flat(wss)))
    {
      var descriptors := NpdmSyscalls.Encode(caps[i]);
      var more := AppendDescriptors(data, descriptors, Flat(wss));
      data := more;
      assert (wss + [descriptors])[..|wss|] == wss;
      wss := wss + [descriptors];
      TakeOneMore(caps, i);
    }
    assert caps[..|caps|] == caps;
  }

  method AppendDescriptors(data: seq<u8>, descriptors: seq<bv32>, ghost before: seq<bv32>) returns (more: seq<u8>)
    requires data == Words(AsWords(before))
    ensures more == Words(AsWords(before + descriptors))
  {
    hide Le32;
    more := data;
    assert before + descriptors[..0] == before;
    for i := 0 to |descriptors|
      invariant more == Words(AsWords(before + descriptors[..i]))
    {
      TakeOneMore(descriptors, i);
      assert before + descriptors[..i + 1] == before + descriptors[..i] + [descriptors[i]];
      assert AsWords(before + descriptors[..i + 1]) == AsWords(before + descriptors[..i]) + [descriptors[i] as u32];
      WordsSnoc(AsWords(before + descriptors[..i]), descriptors[i] as u32);
      more := more + Le32(descriptors[i] as u32);
    }
    assert descriptors[..|descriptors|] == descriptors;
  }
}
