/** The PFS0 reader: every entry checked on opening, so resolving one needs no further check. */
module Pfs0Read {
  import opened Bytes
  import opened Packing
  import opened Order
  import opened Pfs0Format

  datatype Entry = Entry(offset: u64, size: u64, nameOffset: u32)

  datatype Pfs0 = Pfs0(entries: seq<Entry>, stringTable: seq<u8>, data: seq<u8>)

  datatype File = File(name: Str, data: seq<u8>)

  datatype FromBytesError =
    | BufferTooSmall(required: nat, available: nat)
    | InvalidMagic(found: u32)
    | EntryTableOutOfBounds(fileCount: nat, available: nat)
    | StringTableOutOfBounds(stringTableSize: nat, available: nat)
    | FileBoundsOverflow(index: nat, offset: nat, size: nat)
    | FileOutOfBounds(index: nat, offset: nat, size: nat, available: nat)
    | NameOutOfBounds(index: nat, offset: nat, stringTableSize: nat)
    | NameUnterminated(index: nat, offset: nat)

  // ---- Checks ----

  function FileFault(index: nat, e: Entry, available: nat): (r: Option<FromBytesError>)
    ensures r.None? <==> e.offset + e.size <= USIZE_MAX && e.offset + e.size <= available
  {
    if e.offset + e.size > USIZE_MAX then Some(FileBoundsOverflow(index, e.offset, e.size))
    else if e.offset + e.size > available then Some(FileOutOfBounds(index, e.offset, e.size, available))
    else None
  }

  /** A name starts inside the string table and ends inside it. */
  function NameFault(index: nat, e: Entry, stringTable: seq<u8>): (r: Option<FromBytesError>)
    ensures r.None? <==> e.nameOffset <= |stringTable| && NUL in stringTable[e.nameOffset..]
  {
    if e.nameOffset > |stringTable| then Some(NameOutOfBounds(index, e.nameOffset, |stringTable|))
    else if NUL !in stringTable[e.nameOffset..] then Some(NameUnterminated(index, e.nameOffset))
    else None
  }

  function EntryFault(index: nat, e: Entry, stringTable: seq<u8>, available: nat): Option<FromBytesError> {
    var file := FileFault(index, e, available);
    if file.Some? then file else NameFault(index, e, stringTable)
  }

  /** Entry `i` is the first from `index` on with anything wrong, and `e` says what. */
  predicate IsFirstFault(entries: seq<Entry>, index: nat, i: nat, stringTable: seq<u8>, available: nat, e: FromBytesError)
    requires index <= i < |entries|
  {
    EntryFault(i, entries[i], stringTable, available) == Some(e) &&
    forall k :: index <= k < i ==> EntryFault(k, entries[k], stringTable, available).None?
  }

  /** The first fault of the entries from `index` on. */
  function FirstFault(entries: seq<Entry>, index: nat, stringTable: seq<u8>, available: nat): (r: Option<FromBytesError>)
    requires index <= |entries|
    ensures r.None? <==> forall i :: index <= i < |entries| ==> EntryFault(i, entries[i], stringTable, available).None?
    decreases |entries| - index
  {
    if index == |entries| then None
    else
      var fault := EntryFault(index, entries[index], stringTable, available);
      if fault.Some? then fault else FirstFault(entries, index + 1, stringTable, available)
  }

  function EntryAt(bytes: seq<u8>, at: nat): Entry
    requires at + ENTRY_SIZE <= |bytes|
  {
    Entry(U64At(bytes, at), U64At(bytes, at + 8), U32At(bytes, at + 16))
  }

  function EntriesAt(bytes: seq<u8>, at: nat, count: nat): (es: seq<Entry>)
    requires at + ENTRY_SIZE * count <= |bytes|
    ensures |es| == count && forall i :: 0 <= i < count ==> es[i] == EntryAt(bytes, at + ENTRY_SIZE * i)
  {
    seq(count, i requires 0 <= i < count => EntryAt(bytes, at + ENTRY_SIZE * i))
  }

  /** A view every entry of which was found in bounds. */
  predicate Accepted(p: Pfs0) {
    forall i :: 0 <= i < |p.entries| ==> EntryFault(i, p.entries[i], p.stringTable, |p.data|).None?
  }

  /** The entry table and the string table, sized as the header says, lie inside the buffer. */
  predicate HasTables(bytes: seq<u8>) {
    |bytes| >= HEADER_SIZE && U32At(bytes, 0) == PFS0_MAGIC &&
    HEADER_SIZE + ENTRY_SIZE * U32At(bytes, 4) + U32At(bytes, 8) <= |bytes|
  }

  /** The view the header describes. */
  function View(bytes: seq<u8>): (p: Pfs0)
    requires HasTables(bytes)
    ensures |p.entries| == U32At(bytes, 4) && |p.stringTable| == U32At(bytes, 8)
  {
    var tableEnd := HEADER_SIZE + ENTRY_SIZE * U32At(bytes, 4);
    var dataStart := tableEnd + U32At(bytes, 8);
    Pfs0(EntriesAt(bytes, HEADER_SIZE, U32At(bytes, 4)), bytes[tableEnd..dataStart], bytes[dataStart..])
  }

  /** What each error says of the buffer: what is wrong, and that nothing checked before it is. */
  predicate Reports(e: FromBytesError, bytes: seq<u8>) {
    if e.BufferTooSmall? then e.required == HEADER_SIZE > e.available == |bytes|
    else
      |bytes| >= HEADER_SIZE &&
      if e.InvalidMagic? then e.found == U32At(bytes, 0) != PFS0_MAGIC
      else
        U32At(bytes, 0) == PFS0_MAGIC &&
        var tableEnd := HEADER_SIZE + ENTRY_SIZE * U32At(bytes, 4);
        if e.EntryTableOutOfBounds? then e.fileCount == U32At(bytes, 4) && tableEnd > |bytes| == e.available
        else if e.StringTableOutOfBounds? then
          e.stringTableSize == U32At(bytes, 8) && tableEnd <= |bytes| && e.available == |bytes| - tableEnd < e.stringTableSize
        else
          HasTables(bytes) &&
          var p := View(bytes);
          exists i :: 0 <= i < |p.entries| && IsFirstFault(p.entries, 0, i, p.stringTable, |p.data|, e)
  }

  function TryFromBytes(bytes: seq<u8>): (r: Result<Pfs0, FromBytesError>)
    ensures r.Ok? <==> HasTables(bytes) && Accepted(View(bytes))
    ensures r.Ok? ==> r.value == View(bytes)
  {
    hide FromLe32, EntryFault, EntryAt;
    if |bytes| < HEADER_SIZE then Err(BufferTooSmall(HEADER_SIZE, |bytes|))
    else if U32At(bytes, 0) != PFS0_MAGIC then Err(InvalidMagic(U32At(bytes, 0)))
    else
      var count: nat, size: nat := U32At(bytes, 4), U32At(bytes, 8);
      var tableEnd := HEADER_SIZE + ENTRY_SIZE * count;
      if tableEnd > |bytes| then Err(EntryTableOutOfBounds(count, |bytes|))
      else if tableEnd + size > |bytes| then Err(StringTableOutOfBounds(size, |bytes| - tableEnd))
      else
        var p := View(bytes);
        var fault := FirstFault(p.entries, 0, p.stringTable, |p.data|);
        if fault.Some? then Err(fault.value) else Ok(p)
  }

  lemma {:induction false} FirstFaultIsFirst(entries: seq<Entry>, index: nat, stringTable: seq<u8>, available: nat) returns (i: nat)
    requires index <= |entries| && FirstFault(entries, index, stringTable, available).Some?
    ensures index <= i < |entries|
    ensures IsFirstFault(entries, index, i, stringTable, available, FirstFault(entries, index, stringTable, available).value)
    decreases |entries| - index
  {
    hide EntryFault;
    i := index;
    if EntryFault(index, entries[index], stringTable, available).None? {
      i := FirstFaultIsFirst(entries, index + 1, stringTable, available);
    }
  }

  /** A refusal says what is wrong, and that nothing checked before it is. */
  lemma {:induction false} RefusalReports(bytes: seq<u8>)
    ensures TryFromBytes(bytes).Err? ==> Reports(TryFromBytes(bytes).error, bytes)
  {
    hide FromLe32, FirstFault, EntryFault, EntryAt;
    if HasTables(bytes) && TryFromBytes(bytes).Err? {
      var p := View(bytes);
      var i := FirstFaultIsFirst(p.entries, 0, p.stringTable, |p.data|);
      FaultIsOfEntry(p.entries[i], i, p.stringTable, |p.data|);
    }
  }

  lemma {:induction false} FaultIsOfEntry(e: Entry, i: nat, stringTable: seq<u8>, available: nat)
    requires EntryFault(i, e, stringTable, available).Some?
    ensures var f := EntryFault(i, e, stringTable, available).value;
      !f.BufferTooSmall? && !f.InvalidMagic? && !f.EntryTableOutOfBounds? && !f.StringTableOutOfBounds?
  {
  }

  // ---- Accessors ----

  /** Where the first terminator is. */
  function NulAt(s: seq<u8>): (n: nat)
    ensures n <= |s| && NUL !in s[..n]
    ensures NUL in s ==> n < |s| && s[n] == NUL
  {
    if s == [] || s[0] == NUL then 0
    else
      var n := 1 + NulAt(s[1..]);
      assert s[..n] == [s[0]] + s[1..][..n - 1];
      n
  }

  /** A file in place: no bound needs checking in an accepted archive, and its name ends at a terminator. */
  function Resolve(p: Pfs0, index: nat): (f: File)
    requires Accepted(p) && index < |p.entries|
    ensures |f.data| == p.entries[index].size && Holds(p.data, p.entries[index].offset, f.data)
    ensures NUL !in f.name && Holds(p.stringTable, p.entries[index].nameOffset, f.name)
    ensures p.entries[index].nameOffset + |f.name| < |p.stringTable| && p.stringTable[p.entries[index].nameOffset + |f.name|] == NUL
  {
    var e := p.entries[index];
    assert EntryFault(index, e, p.stringTable, |p.data|).None?;
    var name := p.stringTable[e.nameOffset..];
    File(name[..NulAt(name)], p.data[e.offset..e.offset + e.size])
  }

  /** The first file of that name from `index` on. */
  function FindFrom(p: Pfs0, index: nat, name: Str): Option<File>
    requires Accepted(p) && index <= |p.entries|
    decreases |p.entries| - index
  {
    if index == |p.entries| then None
    else if Resolve(p, index).name == name then Some(Resolve(p, index))
    else FindFrom(p, index + 1, name)
  }

  function FileByName(p: Pfs0, name: Str): Option<File>
    requires Accepted(p)
  {
    FindFrom(p, 0, name)
  }
}
