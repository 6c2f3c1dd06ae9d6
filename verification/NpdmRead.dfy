/** The NPDM reader: magics and section bounds checked on opening, nested blocks when asked for. */
module NpdmRead {
  import opened Bytes
  import opened Packing
  import opened NpdmFormat
  import opened Names

  datatype Npdm = Npdm(bytes: seq<u8>, meta: MetaHeader, acid: AcidHeader, aci0: Aci0Header)

  datatype BlockKind = FAC | SAC | KC

  datatype FromBytesError =
    | BufferTooSmall(required: nat, available: nat)
    | InvalidMetaMagic(found: nat)
    | InvalidAcidMagic(found: nat)
    | InvalidAci0Magic(found: nat)
    | InvalidAcidSize(found: nat)
    | InvalidAci0Size(found: nat)
    | Aci0InnerSectionOutOfBounds(section: BlockKind, offset: nat, size: nat, end: nat, bufferSize: nat)

  /** What is wrong with the ACID section, if anything. */
  function AcidFault(bytes: seq<u8>, offset: nat, size: nat): (r: Option<FromBytesError>)
    ensures r.None? <==> SectionSound(bytes, offset, size, ACID_SIZE, 0x200, ACID_MAGIC)
  {
    if offset + size > |bytes| then Some(BufferTooSmall(offset + size, |bytes|))
    else if size < ACID_SIZE then Some(InvalidAcidSize(size))
    else if U32At(bytes, offset + 0x200) != ACID_MAGIC then Some(InvalidAcidMagic(U32At(bytes, offset + 0x200)))
    else None
  }

  function Aci0Fault(bytes: seq<u8>, offset: nat, size: nat): (r: Option<FromBytesError>)
    ensures r.None? <==> SectionSound(bytes, offset, size, ACI0_SIZE, 0, ACI0_MAGIC)
  {
    if offset + size > |bytes| then Some(BufferTooSmall(offset + size, |bytes|))
    else if size < ACI0_SIZE then Some(InvalidAci0Size(size))
    else if U32At(bytes, offset) != ACI0_MAGIC then Some(InvalidAci0Magic(U32At(bytes, offset)))
    else None
  }

  predicate HasMeta(bytes: seq<u8>) {
    |bytes| >= META_SIZE && U32At(bytes, 0) == META_MAGIC
  }

  /** A section lies inside the buffer, is no smaller than its header, and has its magic `at` bytes in. */
  predicate SectionSound(bytes: seq<u8>, offset: nat, size: nat, headerSize: nat, at: nat, magic: u32)
    requires at + 4 <= headerSize
  {
    offset + size <= |bytes| && headerSize <= size && U32At(bytes, offset + at) == magic
  }

  /** What each error says of the buffer: what is wrong, and that nothing checked before it is. */
  predicate Reports(e: FromBytesError, bytes: seq<u8>) {
    if |bytes| < META_SIZE then e == BufferTooSmall(META_SIZE, |bytes|)
    else if U32At(bytes, 0) != META_MAGIC then e == InvalidMetaMagic(U32At(bytes, 0))
    else
      var meta := MetaAt(bytes);
      var acid := AcidFault(bytes, meta.acidOffset, meta.acidSize);
      acid == Some(e) || (acid.None? && Aci0Fault(bytes, meta.aciOffset, meta.aciSize) == Some(e))
  }

  function TryFromBytes(bytes: seq<u8>): (r: Result<Npdm, FromBytesError>)
    ensures r.Ok? <==>
            HasMeta(bytes) &&
            var meta := MetaAt(bytes);
            SectionSound(bytes, meta.acidOffset, meta.acidSize, ACID_SIZE, 0x200, ACID_MAGIC) &&
            SectionSound(bytes, meta.aciOffset, meta.aciSize, ACI0_SIZE, 0, ACI0_MAGIC)
    ensures r.Ok? ==> r.value.bytes == bytes && r.value.meta == MetaAt(bytes) &&
                      r.value.acid == AcidAt(bytes, r.value.meta.acidOffset) && r.value.aci0 == Aci0At(bytes, r.value.meta.aciOffset)
    ensures r.Err? ==> Reports(r.error, bytes)
  {
    if |bytes| < META_SIZE then Err(BufferTooSmall(META_SIZE, |bytes|))
    else if U32At(bytes, 0) != META_MAGIC then Err(InvalidMetaMagic(U32At(bytes, 0)))
    else
      var meta := MetaAt(bytes);
      var acidFault := AcidFault(bytes, meta.acidOffset, meta.acidSize);
      if acidFault.Some? then Err(acidFault.value)
      else
        var aciFault := Aci0Fault(bytes, meta.aciOffset, meta.aciSize);
        if aciFault.Some? then Err(aciFault.value)
        else Ok(Npdm(bytes, meta, AcidAt(bytes, meta.acidOffset), Aci0At(bytes, meta.aciOffset)))
  }

  /** A block nested in ACI0, bounds-checked against the buffer; three 32-bit values cannot overflow a 64-bit sum. */
  function Block(n: Npdm, kind: BlockKind, offset: u32, size: u32): (r: Result<seq<u8>, FromBytesError>)
    ensures r.Ok? <==> n.meta.aciOffset + offset + size <= |n.bytes|
    ensures r.Ok? ==> |r.value| == size
  {
    var start := n.meta.aciOffset + offset;
    var end := start + size;
    if end > |n.bytes| then Err(Aci0InnerSectionOutOfBounds(kind, offset, size, end, |n.bytes|))
    else Ok(n.bytes[start..end])
  }

  function FacData(n: Npdm): Result<seq<u8>, FromBytesError> {
    Block(n, FAC, n.aci0.extents.facOffset, n.aci0.extents.facSize)
  }

  function SacData(n: Npdm): Result<seq<u8>, FromBytesError> {
    Block(n, SAC, n.aci0.extents.sacOffset, n.aci0.extents.sacSize)
  }

  function KcData(n: Npdm): Result<seq<u8>, FromBytesError> {
    Block(n, KC, n.aci0.extents.kcOffset, n.aci0.extents.kcSize)
  }

  /** The program name, up to the first NUL. */
  function ProgramName(n: Npdm): seq<u8> {
    UpToNul(n.meta.name)
  }
}
