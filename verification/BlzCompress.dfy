/** Compression end to end: encode, pick a layout, and write it over the encoder's own buffer. */
module BlzCompress {
  import opened Bytes
  import opened BlzFormat
  import opened BlzMatch
  import opened BlzParse
  import opened BlzEncode

  /** Copy `src` to the front of `dst`. */
  method CopyPrefix(dst: array<u8>, src: array<u8>, n: nat)
    requires dst != src && n <= src.Length && n <= dst.Length
    modifies dst
    ensures dst[..n] == src[..n] && dst[n..] == old(dst[n..])
  {
    forall i | 0 <= i < n {
      dst[i] := src[i];
    }
  }

  /** Fill with `value` from `pos` up to the next 4-byte boundary. */
  method PadTo4(output: array<u8>, pos: nat, value: u8) returns (end: nat)
    requires pos + 3 <= output.Length
    modifies output
    ensures end == pos + Padding(pos)
    ensures output[..end] == old(output[..pos]) + Fill(value, Padding(pos))
  {
    end := pos;
    while end % 4 != 0
      invariant pos <= end <= pos + Padding(pos)
      invariant output[..end] == old(output[..pos]) + Fill(value, end - pos)
      decreases pos + Padding(pos) - end
    {
      output[end] := value;
      end := end + 1;
    }
  }

  method WriteBytes(output: array<u8>, pos: nat, bytes: seq<u8>) returns (end: nat)
    requires pos + |bytes| <= output.Length
    modifies output
    ensures end == pos + |bytes| && output[..end] == old(output[..pos]) + bytes
  {
    forall i | 0 <= i < |bytes| {
      output[pos + i] := bytes[i];
    }
    end := pos + |bytes|;
  }

  /** The input verbatim, zero-padded, under a zero trailer. */
  method StoreUncompressed(input: array<u8>, output: array<u8>) returns (written: nat)
    requires input != output && output.Length >= WorstCaseLen(input.Length)
    modifies output
    ensures written <= output.Length && output[..written] == StoredForm(input[..])
  {
    CopyPrefix(output, input, input.Length);
    assert output[..input.Length] == input[..];
    var pos := PadTo4(output, input.Length, 0);
    assert output[..pos] == input[..] + Zeros(Padding(input.Length));
    written := WriteBytes(output, pos, Le32(0));
  }

  /**
   * Move the kept end of the packed region down behind the raw prefix, copying forwards one byte at
   * a time. Because the split is no worse than packing everything, the destination starts no later
   * than the source, so no byte is overwritten before it has been copied.
   */
  method Relocate(output: array<u8>, packedLen: nat, bestPacked: nat, remaining: nat)
    requires bestPacked <= packedLen <= output.Length && remaining <= packedLen - bestPacked
    modifies output
    ensures output[remaining..remaining + bestPacked] == old(output[packedLen - bestPacked..packedLen])
  {
    var packedStart := packedLen - bestPacked;
    ghost var region := output[packedStart..packedLen];
    for i := 0 to bestPacked
      invariant forall j :: remaining <= j < remaining + i ==> output[j] == region[j - remaining]
      invariant forall j :: packedStart + i <= j < packedLen ==> output[j] == region[j - packedStart]
    {
      output[remaining + i] := output[packedStart + i];
    }
  }

  /** A raw prefix, the kept packed region, and the trailer describing both. */
  method StorePacked(input: array<u8>, output: array<u8>, packedLen: nat, bestPacked: nat, remaining: nat)
    returns (written: nat)
    requires input != output && input.Length < 0xFFFF_FFFF && output.Length >= WorstCaseLen(input.Length)
    requires bestPacked <= packedLen <= output.Length && remaining <= packedLen - bestPacked && remaining <= input.Length
    requires TrailerFits(input.Length, bestPacked, remaining)
    modifies output
    ensures written <= output.Length
    ensures output[..written] == PackedForm(input[..], old(output[packedLen - bestPacked..packedLen]), remaining)
  {
    ghost var region := output[packedLen - bestPacked..packedLen];
    PlaceRegion(input, output, packedLen, bestPacked, remaining);
    written := WriteTrailer(output, input.Length, bestPacked, remaining);
    assert output[..written] == PackedForm(input[..], region, remaining);
  }

  method PlaceRegion(input: array<u8>, output: array<u8>, packedLen: nat, bestPacked: nat, remaining: nat)
    requires input != output && bestPacked <= packedLen <= output.Length
    requires remaining <= packedLen - bestPacked && remaining <= input.Length
    modifies output
    ensures output[..remaining + bestPacked] == input[..remaining] + old(output[packedLen - bestPacked..packedLen])
  {
    Relocate(output, packedLen, bestPacked, remaining);
    CopyPrefix(output, input, remaining);
    assert output[..remaining + bestPacked] == output[..remaining] + output[remaining..][..bestPacked];
  }

  /** Pad with `0xFF` to a 4-byte boundary and write the three trailer fields. */
  method WriteTrailer(output: array<u8>, inputLen: nat, bestPacked: nat, remaining: nat) returns (written: nat)
    requires inputLen < 0xFFFF_FFFF && TrailerFits(inputLen, bestPacked, remaining)
    requires remaining + bestPacked + FOOTER_SIZE + 3 <= output.Length
    modifies output
    ensures written <= output.Length
    ensures output[..written] == old(output[..remaining + bestPacked]) +
        Fill(0xFF, Padding(remaining + bestPacked)) + Footer(inputLen, bestPacked, remaining)
  {
    var pos := remaining + bestPacked;
    var headerSize := HeaderSize(pos);
    var incLen := inputLen - bestPacked - remaining;
    pos := PadTo4(output, pos, 0xFF);
    var footer := Le32(bestPacked + headerSize) + Le32(headerSize) + Le32(incLen - headerSize);
    written := WriteBytes(output, pos, footer);
  }

  /** Encode the input back to front; both buffers end up the right way round again. */
  method EncodeBackwards(input: array<u8>, output: array<u8>)
    returns (packedLen: nat, bestPacked: nat, bestRemaining: nat, ghost stream: seq<u8>)
    requires input != output && input.Length < 0xFFFF_FFFF && output.Length >= WorstCaseLen(input.Length)
    modifies input, output
    ensures input[..] == old(input[..])
    ensures packedLen == |stream| <= output.Length && output[..packedLen] == Reversed(stream)
    ensures CarriesOnly(stream, Parse(Reversed(input[..])))
    ensures bestPacked == PackedLen(input[..]) && bestRemaining == RemainingLen(input[..])
  {
    ghost var data := input[..];
    ReverseInPlace(input, input.Length);
    assert input[..] == Reversed(data) by {
      assert data == old(input[..input.Length]);
      assert input[..] == input[..input.Length];
    }
    var finder := new MatchFinder(input[..]);
    packedLen, bestPacked, bestRemaining := EncodeAll(finder, output);
    stream := output[..packedLen];
    ReverseInPlace(input, input.Length);
    RestoredInput(input, data);
    ReverseInPlace(output, packedLen);
  }

  lemma {:induction false} RestoredInput(input: array<u8>, data: seq<u8>)
    requires input[..input.Length] == Reversed(Reversed(data))
    ensures input[..] == data
  {
    ReversedTwice(data);
  }

  /** Encode `input` into `output`, leaving `input` as it was found. */
  method CompressInto(input: array<u8>, output: array<u8>) returns (written: nat)
    requires input != output && input.Length < 0xFFFF_FFFF && output.Length >= WorstCaseLen(input.Length)
    modifies input, output
    ensures input[..] == old(input[..])
    ensures written <= output.Length && IsCompressed(input[..], output[..written])
  {
    var packedLen, bestPacked, bestRemaining, stream := EncodeBackwards(input, output);
    written := WriteLayout(input, output, packedLen, bestPacked, bestRemaining, stream);
  }

  /** Compare the packed layout against storing the raw bytes, and write the one chosen. */
  method WriteLayout(input: array<u8>, output: array<u8>, packedLen: nat, bestPacked: nat, bestRemaining: nat,
                     ghost stream: seq<u8>)
    returns (written: nat)
    requires input != output && input.Length < 0xFFFF_FFFF && output.Length >= WorstCaseLen(input.Length)
    requires packedLen == |stream| <= output.Length && output[..packedLen] == Reversed(stream)
    requires CarriesOnly(stream, Parse(Reversed(input[..])))
    requires bestPacked == PackedLen(input[..]) && bestRemaining == RemainingLen(input[..])
    modifies output
    ensures written <= output.Length && IsCompressed(input[..], output[..written])
  {
    hide CarriesOnly, Parse, PackedLen, RemainingLen, TrailerFits, StoredForm, PackedForm, IsPacked;
    ghost var data := input[..];
    PackedExactlyWhenTrailerFits(data);
    if bestPacked == 0 || !TrailerFits(input.Length, bestPacked, bestRemaining) ||
       input.Length + 4 < (bestPacked + bestRemaining + 3) / 4 * 4 % 0x1_0000_0000 + 8 {
      written := StoreUncompressed(input, output);
    } else {
      SplitLeavesRoom(data, stream);
      written := StorePacked(input, output, packedLen, bestPacked, bestRemaining);
      PackedIsCompressed(data, stream, output[..written]);
    }
  }

  lemma {:induction false} PackedIsCompressed(data: seq<u8>, stream: seq<u8>, out: seq<u8>)
    requires |data| < 0xFFFF_FFFF && TrailerFits(|data|, PackedLen(data), RemainingLen(data))
    requires CarriesOnly(stream, Parse(Reversed(data))) && PackedLen(data) <= |stream|
    requires out == PackedForm(data, Reversed(stream[..PackedLen(data)]), RemainingLen(data))
    ensures IsCompressed(data, out)
  {
    assert IsPacked(data, stream, out);
  }

  /** The kept region starts no earlier in the full stream than it has to end up. */
  lemma {:induction false} SplitLeavesRoom(data: seq<u8>, stream: seq<u8>)
    requires CarriesOnly(stream, Parse(Reversed(data)))
    ensures PackedLen(data) <= |stream| && RemainingLen(data) <= |stream| - PackedLen(data)
    ensures Reversed(stream)[|stream| - PackedLen(data)..] == Reversed(stream[..PackedLen(data)])
  {
    SplitBounds(data);
    RelocatedRegion(stream, PackedLen(data));
  }

  /** The last bytes of the reversed stream are the reverse of its first ones. */
  lemma {:induction false} RelocatedRegion(stream: seq<u8>, n: nat)
    requires n <= |stream|
    ensures Reversed(stream)[|stream| - n..] == Reversed(stream[..n])
  {
  }

  /** Compress `data`; the source panics on inputs of `u32::MAX` bytes or more. */
  method Compress(data: seq<u8>) returns (stream: seq<u8>)
    requires |data| < 0xFFFF_FFFF
    ensures IsCompressed(data, stream)
  {
    var output := new u8[WorstCaseLen(|data|)](_ => 0);
    var input := new u8[|data|](i requires 0 <= i < |data| => data[i]);
    assert input[..] == data;
    var len := CompressInto(input, output);
    stream := output[..len];
  }
}
