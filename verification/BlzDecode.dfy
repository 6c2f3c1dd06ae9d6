/**
 * The in-place decoder. Its functions say what it does on any bytes at all, one step at a time over
 * one buffer; its methods do the same over an array.
 */
module BlzDecode {
  import opened Bytes
  import opened BlzFormat

  datatype DecompressError =
    | BufferTooSmall(required: nat, available: nat)
    | MalformedTrailer(encLen: nat, headerSize: nat, available: nat)
    | TruncatedCode(at: nat)
    | OutputUnderflow
    | UnexpectedLength(expected: nat, produced: nat)
    | MatchOutOfBounds(dst: nat, distance: nat)

  // ---- One step at a time ----

  /** Copy `length` bytes from `distance` ahead of the output cursor, one byte at a time. */
  function CopyMatch(out: seq<u8>, dst: nat, length: nat, distance: nat): (r: Result<(seq<u8>, nat), DecompressError>)
    requires dst <= |out|
    ensures r.Ok? ==> |r.value.0| == |out| && r.value.1 == dst - length
    decreases length
  {
    if length == 0 then Ok((out, dst))
    else if dst == 0 then Err(OutputUnderflow)
    else if dst - 1 + distance >= |out| then Err(MatchOutOfBounds(dst - 1, distance))
    else CopyMatch(out[dst - 1 := out[dst - 1 + distance]], dst - 1, length - 1, distance)
  }

  /** `<<= 1` on a byte: the top bit is lost. */
  function ShiftLeft(flags: u8): u8 {
    var doubled: int := 2 * flags;
    doubled % 0x100
  }

  function MatchLength(first: u8): nat {
    first / 16 + MIN_MATCH
  }

  function MatchDistance(first: u8, second: u8): nat {
    first % 16 * 0x100 + second + MIN_MATCH
  }

  /**
   * The decoder's whole state: the one buffer, the input cursor reading down, the output cursor
   * writing down, and the current flag byte with the number of flags left in it.
   */
  datatype Decoder = Decoder(out: seq<u8>, cmp: nat, dst: nat, flags: u8, bits: nat)

  predicate InBounds(d: Decoder) {
    d.cmp <= |d.out| && d.dst <= |d.out|
  }

  /** Take a flag byte, or decode one code. */
  function Step(d: Decoder, start: nat): (r: Result<Decoder, DecompressError>)
    requires InBounds(d) && start < d.cmp
    ensures r.Ok? ==> InBounds(r.value) && r.value.cmp < d.cmp && |r.value.out| == |d.out|
  {
    if d.bits == 0 then
      Ok(d.(cmp := d.cmp - 1, flags := d.out[d.cmp - 1], bits := 8))
    else if d.flags < 0x80 then
      if d.dst == 0 then Err(OutputUnderflow)
      else
        Ok(Decoder(d.out[d.dst - 1 := d.out[d.cmp - 1]], d.cmp - 1, d.dst - 1, ShiftLeft(d.flags), d.bits - 1))
    else if d.cmp - start < 2 then Err(TruncatedCode(d.cmp))
    else
      var first, second := d.out[d.cmp - 1], d.out[d.cmp - 2];
      match CopyMatch(d.out, d.dst, MatchLength(first), MatchDistance(first, second))
      case Ok((copied, moved)) => Ok(Decoder(copied, d.cmp - 2, moved, ShiftLeft(d.flags), d.bits - 1))
      case Err(e) => Err(e)
  }

  /** The decoder once stepping has brought the input cursor to `start`. */
  function Run(d: Decoder, start: nat): (r: Result<Decoder, DecompressError>)
    requires InBounds(d)
    ensures r.Ok? ==> InBounds(r.value) && |r.value.out| == |d.out|
    decreases d.cmp
  {
    if d.cmp <= start then Ok(d)
    else
      match Step(d, start)
      case Ok(next) => Run(next, start)
      case Err(e) => Err(e)
  }

  /** The little-endian `u32` sitting `back` bytes from the end. */
  function TrailingU32(data: seq<u8>, back: nat): Option<u32>
    requires back >= 4
  {
    if |data| < back then None else Some(FromLe32(data[|data| - back..|data| - back + 4]))
  }

  function MalformedLayout(encLen: nat, headerSize: nat, total: nat, extraLen: nat): bool {
    headerSize < FOOTER_SIZE || headerSize > encLen || encLen > total || total + extraLen > USIZE_MAX
  }

  function DecompressPacked(data: seq<u8>, extraLen: nat, size: nat): (r: Result<seq<u8>, DecompressError>)
    ensures r.Ok? ==> |r.value| == size
  {
    if |data| < FOOTER_SIZE then Err(BufferTooSmall(FOOTER_SIZE, |data|))
    else
      var headerSize, encLen := TrailingU32(data, 8).value, TrailingU32(data, FOOTER_SIZE).value;
      if MalformedLayout(encLen, headerSize, |data|, extraLen) then
        Err(MalformedTrailer(encLen, headerSize, |data|))
      else
        var finalLen := |data| + extraLen;
        match Run(Decoder(data + Zeros(extraLen), |data| - headerSize, finalLen, 0, 0), |data| - encLen)
        case Ok(end) => if |end.out| == size then Ok(end.out) else Err(UnexpectedLength(size, |end.out|))
        case Err(e) => Err(e)
  }

  /** Decompress any bytes at all. Success promises `size` bytes, and on arbitrary input no more. */
  function Decompressed(data: seq<u8>, size: nat): (r: Result<seq<u8>, DecompressError>)
    ensures r.Ok? ==> |r.value| == size
  {
    match TrailingU32(data, 4)
    case None => Err(BufferTooSmall(4, |data|))
    case Some(extraLen) =>
      if extraLen == 0 then
        var stored := data[..|data| - 4];
        if size <= |stored| then Ok(stored[..size]) else Err(UnexpectedLength(size, |stored|))
      else DecompressPacked(data, extraLen, size)
  }

  // ---- Over an array ----

  method CopyMatchInPlace(out: array<u8>, dst: nat, length: nat, distance: nat) returns (r: Result<nat, DecompressError>)
    requires dst <= out.Length
    modifies out
    ensures match CopyMatch(old(out[..]), dst, length, distance)
      case Ok((copied, moved)) => r == Ok(moved) && out[..] == copied
      case Err(e) => r == Err(e)
  {
    var d: nat := dst;
    var left: nat := length;
    while left > 0
      invariant d <= out.Length
      invariant CopyMatch(out[..], d, left, distance) == CopyMatch(old(out[..]), dst, length, distance)
    {
      if d == 0 {
        return Err(OutputUnderflow);
      }
      var from := d - 1 + distance;
      if from >= out.Length {
        return Err(MatchOutOfBounds(d - 1, distance));
      }
      ghost var was := out[..];
      out[d - 1] := out[from];
      assert out[..] == was[d - 1 := was[from]];
      d, left := d - 1, left - 1;
    }
    return Ok(d);
  }

  /** One code: a literal byte or a match, at the output cursor. */
  method DecodeCode(out: array<u8>, cmp: nat, dst: nat, start: nat, flags: u8, ghost bits: nat)
    returns (r: Result<(nat, nat), DecompressError>)
    requires start < cmp <= out.Length && dst <= out.Length && bits > 0
    modifies out
    ensures match Step(Decoder(old(out[..]), cmp, dst, flags, bits), start)
      case Ok(next) => r == Ok((next.cmp, next.dst)) && next == Decoder(out[..], next.cmp, next.dst, ShiftLeft(flags), bits - 1)
      case Err(e) => r == Err(e)
  {
    ghost var was := out[..];
    if flags < 0x80 {
      if dst == 0 {
        return Err(OutputUnderflow);
      }
      out[dst - 1] := out[cmp - 1];
      assert out[..] == was[dst - 1 := was[cmp - 1]];
      return Ok((cmp - 1, dst - 1));
    }
    if cmp - start < 2 {
      return Err(TruncatedCode(cmp));
    }
    var first, second := out[cmp - 1], out[cmp - 2];
    var copied := CopyMatchInPlace(out, dst, MatchLength(first), MatchDistance(first, second));
    match copied {
      case Ok(moved) => return Ok((cmp - 2, moved));
      case Err(e) => return Err(e);
    }
  }

  method DecodeInPlace(out: array<u8>, from: nat, start: nat) returns (r: Option<DecompressError>)
    requires from <= out.Length
    modifies out
    ensures match Run(Decoder(old(out[..]), from, out.Length, 0, 0), start)
      case Ok(end) => r == None && out[..] == end.out
      case Err(e) => r == Some(e)
  {
    hide CopyMatch, ShiftLeft, MatchLength, MatchDistance;
    var cmp: nat, dst: nat := from, out.Length;
    ghost var expected := Run(Decoder(out[..], cmp, dst, 0, 0), start);
    ghost var spent: u8, bits: nat := 0, 0;  // what is left of the last flag byte
    while cmp > start
      invariant cmp <= out.Length && dst <= out.Length && (cmp > start ==> bits == 0)
      invariant Run(Decoder(out[..], cmp, dst, spent, bits), start) == expected
      decreases cmp
    {
      cmp := cmp - 1;
      var flags: u8 := out[cmp];
      var k: nat := 0;
      ghost var entered: nat := cmp;
      while k < 8 && cmp > start
        invariant k <= 8 && cmp <= entered && cmp <= out.Length && dst <= out.Length
        invariant Run(Decoder(out[..], cmp, dst, flags, 8 - k), start) == expected
      {
        var step := DecodeCode(out, cmp, dst, start, flags, 8 - k);
        match step {
          case Err(e) => return Some(e);
          case Ok((c, d)) => cmp, dst := c, d;
        }
        flags := ShiftLeft(flags);
        k := k + 1;
      }
      spent, bits := flags, 8 - k;
    }
    return None;
  }

  method Decompress(data: seq<u8>, size: nat) returns (r: Result<seq<u8>, DecompressError>)
    ensures r == Decompressed(data, size)
  {
    hide Run, FromLe32;
    var extra := TrailingU32(data, 4);
    if extra == None {
      return Err(BufferTooSmall(4, |data|));
    }
    var extraLen := extra.value;
    if extraLen == 0 {
      var stored := data[..|data| - 4];
      return if size <= |stored| then Ok(stored[..size]) else Err(UnexpectedLength(size, |stored|));
    }
    var header, enc := TrailingU32(data, 8), TrailingU32(data, FOOTER_SIZE);
    if header == None || enc == None {
      return Err(BufferTooSmall(FOOTER_SIZE, |data|));
    }
    var headerSize, encLen, total := header.value, enc.value, |data|;
    if headerSize < FOOTER_SIZE || headerSize > encLen || encLen > total || total + extraLen > USIZE_MAX {
      return Err(MalformedTrailer(encLen, headerSize, total));
    }
    var finalLen := total + extraLen;
    var out := new u8[finalLen](i => if 0 <= i < |data| then data[i] else 0);
    assert out[..] == data + Zeros(extraLen);
    var failed := DecodeInPlace(out, total - headerSize, total - encLen);
    match failed {
      case Some(e) => return Err(e);
      case None =>
    }
    if out.Length != size {
      return Err(UnexpectedLength(size, out.Length));
    }
    return Ok(out[..]);
  }
}
