# A Dafny model of nx-object's writers and readers

nx-object builds and parses the containers a Nintendo Switch title is made of. This project models the parts of it with
real algorithms or cross-component layout, in the form the source has them - arrays reversed and overwritten in place,
builders whose fields are mutated, readers that only check and slice - and proves what each pair of writer and reader
promises together.

| area | files | main results |
|---|---|---|
| BLZ codec | `BlzFormat` `BlzMatch` `BlzStream` `BlzParse` `BlzEncode` `BlzCompress` `BlzDecode` `BlzRoundTrip` `BlzTheorems` `BlzNumbers` | round trip for every input; the hash-chain finder is exhaustive search; the split makes the in-place moves safe |
| RomFS | `RomFsPath` `RomFsTree` `RomFsSort` `RomFsFormat` `RomFsLayout` `RomFsImage` `RomFsBuild` `RomFsRead` `RomFsReadBack` `RomFsLookup` `RomFsHash` `RomFsTheorems` `RomFsBounds` `RomFsNumbers` `RomFsPlaces` | opening any path answers with what is stored; images are canonical; hash index agrees with sibling walk |
| NCA | `HashBlocks` `Ivfc` `Partition` `NcaFormat` `NcaBuild` `NcaRead` `NcaTheorems` `NcaNumbers` | sections tile the file and read back; hashes bind contents; counters never repeat |
| PFS0 | `Pfs0Format` `Pfs0Build` `Pfs0Read` `Pfs0Theorems` `Pfs0Numbers` | names find exactly what is stored; archives are canonical |
| KIP1 | `Kip1` `Kip1Theorems` `Kip1Numbers` | segments expand to the original exactly when the flags mark them packed |
| NPDM | `NpdmCapability` `NpdmSyscalls` `NpdmBlocks` `NpdmGrants` `NpdmFormat` `NpdmBuild` `NpdmRead` `NpdmTheorems` `NpdmNumbers` | services and kernel capabilities parse back to what was granted; exactly which capabilities survive encoding |
| nesting | `TitleTheorems` | a file read through NCA and RomFS, or NCA and PFS0, is the file stored |
| shared | `Bytes` `Packing` `Buffers` `Order` `Names` | little-endian words, parts laid end to end, byte-wise order and the stable sort, NUL-terminated fields |

Check everything with `dafny verify dfyconfig.toml`.

Writers and readers share their definitions of a format, so each area ends in a module of plain numbers: which byte of a built
file holds what, what a reader makes of a byte, and which number decides what, each stated without those definitions.

Bytes are integers below 256 (`u8`), words below 2^32 and 2^64 (`u32`, `u64`); `usize` is 64 bits wide. Bit operations are
bit-vector operations in the capability descriptors and in the exclusive or of bytes, and arithmetic elsewhere; `RomFsNumbers`
proves the arithmetic of `path_hash` to be that of 32-bit machine words. Names are byte strings.
SHA-256 is a parameter of type `seq<u8> -> Digest`: nothing is assumed of it, and binding results say "equal, or here are
two inputs with one digest". Errors are `Result` values with the source's payloads. A container is *of* some contents when
some sorted, laid-out tables of those contents give its bytes; each such relation - the BLZ form, the RomFS and KIP1 images, the
NCA and PFS0 archives, the NPDM - is proved to hold of one byte string only.

## Where the code and its documentation part ways

- `decompress` documents an error when "the stream does not hold `decompressed_size` bytes" (src/blz.rs:450-455). The code
  checks the buffer's length only. `BlzTheorems.DocumentedWhenCursorMeetsPrefix` says for every input when the answer is the
  documented one: the missing guard is that the output cursor ends at the raw prefix. `DocumentedIffCodesFill` says the same of
  the codes alone: they stand for `enc_len + extra_len` bytes. What the encoder produces always does
  (`CompressedAnswersAsDocumented`); `AcceptsStreamHoldingNothing` is a family of streams that never does.
- `add_file` drops empty path components and `open` keeps them (src/write/romfs.rs:95, src/read/romfs.rs:175-187), so `/a//b`
  is stored as `/a/b` and not found as `/a//b`. `RomFsTheorems.SamePathBothWays` says for every stored set and every accepted
  path when opening that path gives the bytes stored for it, and that it is not found otherwise.
- `DirIterator` is documented to end at the first malformed entry (src/read/romfs.rs:499-501). A malformed directory ends the
  directories only. `RomFsTheorems.WalkEndsAsDocumented` says for any two chains when the walk still ends where it is documented
  to: when every directory can be read, or no readable file would follow.
- `Kip1Builder` documents that each compression bit matches what was compressed (src/write/kip.rs:22-23). With explicit flags it
  need not: `Kip1Theorems.SegmentsReadBack` is an equivalence on the bit.
- The KIP1 name is documented as cut to 12 bytes (src/write/kip.rs:66) and is cut to 11: `Kip1Theorems.NameReadsBack` says when
  a name survives and when the twelfth byte is missed.
- The layout comment on `Map` promises 21 size bits and address bits 39 to 36 (src/write/npdm.rs:197-209). The code keeps 20
  size bits and the low 28 address bits; `NpdmCapability.DecodesIffInRange` states the ranges that survive.
- An empty name in a directory hash probe finds the root under itself, which no sibling walk does; `RomFsHash.DirIndexAgrees`
  states that single exception.

## Model

| member | source | states |
|---|---|---|
| BlzMatch.LongestIsBest | src/blz.rs:380-387 | exhaustive search over offsets 3..=0x1002 returns a match no other beats: longest, then nearest, or (2, 0) when none reaches 3 |
| BlzMatch.BestIsUnique | src/blz.rs:380-387 | that description leaves one answer only |
| BlzMatch.MatchLenIsMaximal | src/blz.rs:411-418 | a common length is the greatest under the 18-byte, end-of-data and offset caps |
| BlzMatch.HeadsStep | src/blz.rs:366-375 | linking one more position keeps every bucket head the nearest earlier position of its bucket |
| BlzMatch.LinkedStep | src/blz.rs:366-375 | and keeps every link the nearest earlier same-bucket position |
| BlzMatch.ScanSkips | src/blz.rs:400-430 | offsets the chain passes over cannot change the search result, because equal prefixes share a bucket |
| BlzMatch.MatchFinder.constructor | src/blz.rs:355-378 | after the forward pass `prev` links exactly the earlier same-bucket positions, nearest first |
| BlzMatch.MatchFinder.LongestMatch | src/blz.rs:388-433 | walking the chain returns what exhaustive search returns, for every buffer and position |
| BlzStream.EmitCarries | src/blz.rs:180-227 | writing codes one by one keeps the stream carrying exactly those codes, open flag byte included |
| BlzStream.FlushCarries | src/blz.rs:235-239 | shifting out the unused flag bits completes the last group |
| BlzStream.SizeBound | src/blz.rs:152-158 | n codes standing for k bytes take at most k + ceil(k / 8) bytes |
| BlzFormat.CutAtBoundary | src/blz.rs:170-173 | a carried stream cut at any code boundary, inside a flag group or not, carries the codes before the cut |
| BlzFormat.CarriesOneList | src/blz.rs:67-79 | a stream carries one list of codes of a given length, so decoding is a function |
| BlzFormat.OneStream | src/blz.rs:180-244 | and a list of codes has one finished stream: the flags past the last code are clear |
| BlzParse.ParseAt | src/blz.rs:180-227 | position by position, the lazy matcher takes the code the specification chooses |
| BlzNumbers.SearchInNumbers | src/blz.rs:380-387 | in literal bytes: three to eighteen repeated bytes, 3 to 0x1002 back, that nothing longer or as long and nearer beats, or (2, 0) |
| BlzNumbers.LazyRule | src/blz.rs:189-209 | a code is a literal exactly when no match was found or the match and what follows cover no more than one byte and the next match; otherwise it is the best match |
| BlzParse.AnyPrefixDecodes | src/blz.rs:180-244 | whatever the lazy matcher decides, any prefix of its codes expands to exactly the input consumed so far |
| BlzParse.SplitIsLeast | src/blz.rs:229-232 | the remembered split minimises packed plus raw bytes over every boundary |
| BlzParse.SplitBounds | src/blz.rs:170-173 | the split lies inside the stream and inside the data, and costs no more than storing |
| BlzNumbers.SplitInNumbers | src/blz.rs:229-232 | packed plus raw bytes at the split are no more than at any boundary, and fewer than at any earlier one |
| BlzParse.PackedExactlyWhenTrailerFits | src/blz.rs:246-262 | of the three conditions for storing, the trailer one decides alone: the other two add nothing |
| BlzNumbers.ChoiceInNumbers | src/blz.rs:246-262 | a stream is packed exactly when that saves more than twelve bytes and the padding to a multiple of four |
| BlzParse.CompressedLength | src/blz.rs:273-328 | output is a multiple of 4, strictly shorter than the input when packed, align4(n) + 4 when stored |
| BlzEncode.ReverseInPlace | src/blz.rs:166 | the buffer is reversed in place |
| BlzEncode.EncodeAll | src/blz.rs:180-244 | the loop writes, within bounds, the one finished stream carrying the parse, and finds the least split |
| BlzEncode.FlushFlags | src/blz.rs:235-239 | the trailing flag byte ends with its codes' bits on top and zeros below |
| BlzEncode.ChooseCode | src/blz.rs:189-209 | the code the lazy rule chooses, reads past the end excluded |
| BlzNumbers.PayloadInNumbers | src/blz.rs:213-226 | a literal is its byte; a match is four bits of length less 3 over twelve bits of offset less 3 |
| BlzNumbers.FlagInNumbers | src/blz.rs:181-212 | the flag of a group's i-th code is bit 7 - i of its flag byte, set for a match |
| BlzNumbers.PlacesInNumbers | src/blz.rs:181-226 | one flag byte ahead of every eighth code, then one byte a literal and two a match |
| BlzNumbers.StoredInNumbers | src/blz.rs:274-286 | a stored stream is the data, zeros to a multiple of four, and four zeros |
| BlzNumbers.PackedInNumbers | src/blz.rs:294-328 | a packed stream is raw prefix, region, 0xFF to a multiple of four, and three little-endian words of the stated lengths |
| BlzCompress.StoreUncompressed | src/blz.rs:274-286 | data, zero padding to a word, and a zero word, nothing past the buffer |
| BlzCompress.Relocate | src/blz.rs:301-306 | the forward copy inside one buffer moves the region as it was, because the target starts no later than the source |
| BlzCompress.StorePacked | src/blz.rs:294-328 | raw prefix, relocated region, 0xFF padding and the three trailer words |
| BlzCompress.CompressInto | src/blz.rs:165-263 | input restored, output within worst_case_len, stored or packed form as the trailer decides |
| BlzCompress.Compress | src/blz.rs:142-150 | the result is the compressed form of the data |
| BlzDecode.Decompress | src/blz.rs:456-548 | total on any bytes: every index in range, both loops end, and the result is that of the step function; success gives the length asked for |
| BlzDecode.DecodeInPlace | src/blz.rs:503-541 | decoding over the array is running the step function |
| BlzDecode.CopyMatchInPlace | src/blz.rs:561-578 | byte-by-byte copy, with the overlap semantics, or the same error |
| BlzNumbers.TrailerInNumbers | src/blz.rs:457-491 | for every input: what its last twelve bytes decide, error by error, before any code is read |
| BlzNumbers.RunTakesFlags | src/blz.rs:513-516 | each flag byte holds eight flags, taken from the top down |
| BlzNumbers.RunCopiesLiteral | src/blz.rs:523-525 | a clear flag moves one byte to the output cursor, or underflows |
| BlzNumbers.RunCopiesMatch | src/blz.rs:530-536 | a set flag copies high nibble + 3 bytes from the other twelve bits + 3 ahead, byte after byte, or the error that stops it |
| BlzNumbers.RunRefusesTruncated | src/blz.rs:527-529 | a back-reference with fewer than two packed bytes left is refused as truncated |
| BlzNumbers.TruncatedStreamIsRefused | src/blz.rs:527-529 | a stream whose region is one set flag and one byte is refused so, whatever length is asked for |
| BlzRoundTrip.CopyMatchRepeats | src/blz.rs:557-578 | copying a match backwards in the buffer is repeating forwards in the decoded data |
| BlzRoundTrip.DecodeStep | src/blz.rs:513-540 | one in-place step from a code boundary reaches the next boundary with one more code decoded |
| BlzRoundTrip.InPlaceIsOutOfPlace | src/blz.rs:493-541 | as long as the cursors never cross, decoding in place equals decoding out of place and ends at the raw prefix |
| BlzTheorems.SplitNeverCrosses | src/blz.rs:229-232 | the minimal split keeps the output cursor ahead of every packed byte still to be read |
| BlzTheorems.KeptIsPlaced | src/blz.rs:229-232 | the codes kept after the split stand for exactly the data past the raw prefix |
| BlzTheorems.StoredRoundTrip | src/blz.rs:274-286 | a stored form decompresses to its data |
| BlzTheorems.PackedFormDecodes | src/blz.rs:456-548 | raw prefix plus placed codes decompress to the data, at every trailer alignment |
| BlzTheorems.RoundTrip | src/blz.rs:142-548 | decompress(compress(d), len d) is d for every d shorter than 2^32 - 1 |
| BlzTheorems.CompressThenDecompress | src/blz.rs:142-548 | the same by the two methods |
| BlzTheorems.CompressionIsInjective | src/blz.rs:137-141 | no two inputs of one length share a compressed form |
| BlzTheorems.CompressedFormIsUnique | src/blz.rs:142-150 | the compressed form is a function of the data, to the last flag bit |
| BlzTheorems.RunKeepsBelow | src/blz.rs:503-541 | on any stream, bytes below the final output cursor are bytes no code produced |
| BlzTheorems.AcceptedWhereverCursorEnds | src/blz.rs:457-548 | exactly when a packed stream is accepted; the final cursor plays no part, and nothing below it was decoded |
| BlzTheorems.DocumentedWhenCursorMeetsPrefix | src/blz.rs:450-455 | for every input: an error is given whenever the stream does not hold the bytes asked for exactly when the cursor of an otherwise accepted stream ends at the raw prefix |
| BlzTheorems.PlacedEnding | src/blz.rs:503-541 | decoding placed codes ends exactly as many bytes below the top as the codes stand for, with their expansion there |
| BlzTheorems.DocumentedIffCodesFill | src/blz.rs:450-455 | told from the codes: the documented answer exactly when they stand for enc_len + extra_len bytes |
| BlzTheorems.CompressedAnswersAsDocumented | src/blz.rs:450-455 | every stream the encoder produces is answered as documented, whatever length is asked for |
| BlzTheorems.AcceptsStreamHoldingNothing | src/blz.rs:450-455 | every stream that is all trailer is accepted, yields itself and zeros, and is not answered as documented |
| BlzTheorems.SuchAStream | src/blz.rs:450-455 | a twelve-byte example |
| RomFsPath.NormalisedPath | src/write/romfs.rs:95 | on a normalised path builder and reader see the same components |
| RomFsPath.JoinInjective | src/write/romfs.rs:119 | a full path determines its components |
| RomFsTree.WithDirKeepsTree | src/write/romfs.rs:117-130 | creating a directory keeps the two index-linked tables a tree |
| RomFsTree.WithFileKeepsTree | src/write/romfs.rs:144-154 | storing a file keeps the tree and leaves no directory empty |
| RomFsBuild.RomFsBuilder.constructor | src/write/romfs.rs:55-70 | an image holding nothing but its root |
| RomFsBuild.RomFsBuilder.Enter | src/write/romfs.rs:105-132 | steps into the named child, creating it only if missing |
| RomFsBuild.RomFsBuilder.AddFile | src/write/romfs.rs:81-157 | stores the data at the joined path, or refuses for the stated reason and registers nothing at all |
| RomFsBuild.StoredUnder | src/write/romfs.rs:137-142 | the per-directory duplicate check decides whether the full path is taken |
| RomFsBuild.InverseOf | src/write/romfs.rs:354-364 | the index tables are the inverse of the sorted order |
| RomFsBuild.RomFsBuilder.SortEntriesByPath | src/write/romfs.rs:349-383 | both tables moved into path order with every index rewritten; contents unchanged |
| RomFsSort.MovedTree | src/write/romfs.rs:349-383 | that move is an isomorphism of the tree: root at 0, parents before children, lists holding exactly the moved children |
| RomFsSort.RootStaysFirst | src/write/romfs.rs:366-368 | the root's empty path sorts first |
| RomFsBuild.RomFsBuilder.SortChildren | src/write/romfs.rs:256-274 | name order within a directory is table order, which completes the sorted tree |
| RomFsSort.SiblingsByName | src/write/romfs.rs:256-274 | sorting siblings by name sorts their indices |
| RomFsBuild.RomFsBuilder.CalculateOffsets | src/write/romfs.rs:385-409 | every entry records where it will be written, nothing else changes |
| RomFsBuild.RomFsBuilder.CalculateFilePartitionSize | src/write/romfs.rs:411-418 | the size the placed contents add up to |
| RomFsFormat.ComputePathHash | src/raw/romfs.rs:142-148 | the loop computes the hash of the whole name under the seeded parent offset |
| RomFsNumbers.EmptyNameInNumbers | src/raw/romfs.rs:143 | with no name the hash is the parent offset with 123456789 xored in, byte by byte |
| RomFsNumbers.NextByteInNumbers | src/raw/romfs.rs:145 | one more byte turns the hash right by five bits and xors the byte into the lowest eight |
| RomFsNumbers.KnownHashes | src/raw/romfs.rs:194-210 | the hashes of the empty name, of `a` and of a twelve-byte name, as numbers |
| RomFsNumbers.HashOnMachineWords | src/raw/romfs.rs:142-148 | the hash of every name is that of 32-bit words rotated right by five and xored |
| RomFsFormat.HashCountIs | src/write/romfs.rs:653-672 | 3 below three entries, the next odd number below 19, and from 19 on the least number at or above that no number from 2 to 17 divides |
| RomFsFormat.ComputeHashCount | src/write/romfs.rs:653-672 | the search loop ends for every count, with that number |
| RomFsFormat.StepsLeftFalls | src/write/romfs.rs:660-670 | each rejected candidate brings the next number free of those factors nearer |
| RomFsBuild.RomFsBuilder.GenerateDirHashTable | src/write/romfs.rs:420-436 | each bucket heads its latest entry, each entry links the previous one of its bucket |
| RomFsBuild.RomFsBuilder.GenerateFileHashTable | src/write/romfs.rs:438-454 | the same for files |
| RomFsBuild.RomFsBuilder.FindSiblingDir | src/write/romfs.rs:522-530 | the offset of the next directory in the parent's list: offsets tell entries apart |
| RomFsBuild.RomFsBuilder.FindSiblingFile | src/write/romfs.rs:532-540 | the same for files |
| RomFsBuild.RomFsBuilder.BuildDirTable | src/write/romfs.rs:456-492 | the entries' fields and padded names end to end |
| RomFsBuild.RomFsBuilder.BuildFileTable | src/write/romfs.rs:494-520 | the same for files |
| RomFsBuild.RomFsBuilder.WriteHeader | src/write/romfs.rs:542-577 | the ten header fields as the layout gives them |
| RomFsBuild.RomFsBuilder.WriteContents | src/write/romfs.rs:315-322 | contents behind the header, each on a 16-byte boundary |
| RomFsBuild.RomFsBuilder.Build | src/write/romfs.rs:248-340 | refuses an empty builder, otherwise returns the image of the contents |
| RomFsSort.SortedIsCanonical | src/write/romfs.rs:342-348 | sorted tables storing the same files are the same tables, offsets aside |
| RomFsImage.StoredIsCanonical | src/write/romfs.rs:44-45 | laid-out tables are a function of the contents |
| RomFsImage.ImageIsCanonical | src/write/romfs.rs:44-45 | one set of files has one image, whatever order the files arrived in |
| RomFsLayout.DataInRegion | src/write/romfs.rs:315-322 | the contents of each file lie at its recorded offset |
| RomFsRead.TryFromBytes | src/read/romfs.rs:38-142 | accepts exactly the buffers with a header of the right size and all four tables and the data start inside; an error says what is wrong and that nothing checked earlier is |
| RomFsRead.TableFault | src/read/romfs.rs:60-76 | a table is faulted exactly when its extent overflows or leaves the buffer |
| RomFsRead.DirReadAt | src/read/romfs.rs:277-319 | read exactly when fields and then name lie inside the table, and then as the fields and the name lying there |
| RomFsRead.FileReadAt | src/read/romfs.rs:387-429 | the same for files |
| RomFsRead.Data | src/read/romfs.rs:451-483 | given exactly when the extent lies inside the buffer |
| RomFsRead.DataIsExtent | src/read/romfs.rs:451-483 | and then the bytes of that extent; otherwise the error says which bound it breaks |
| RomFsRead.FindDir | src/read/romfs.rs:330-343 | the first child of that name along a finite sibling chain, or the chain's error |
| RomFsRead.FindFile | src/read/romfs.rs:346-359 | the same for files |
| RomFsRead.OpensToUnique | src/read/romfs.rs:174-204 | a walk can end in one way only |
| RomFsRead.Open | src/read/romfs.rs:174-204 | if the walk along the path ends at all, the method returns where it ends |
| RomFsRead.DirIterator.constructor | src/read/romfs.rs:365-373 | everything of the two chains is still to come |
| RomFsRead.DirIterator.Next | src/read/romfs.rs:513-533 | yields the remaining entries one at a time in order, directories then files, on any image with finite chains |
| RomFsReadBack.BuiltIsAccepted | src/read/romfs.rs:38-142 | a built image passes every check, its header as written |
| RomFsReadBack.DirReadsBack | src/read/romfs.rs:277-319 | every directory is read back, fields and name, at its offset |
| RomFsReadBack.FileReadsBack | src/read/romfs.rs:387-429 | every file too |
| RomFsReadBack.DataReadsBack | src/read/romfs.rs:451-483 | and its contents are exactly the bytes stored |
| RomFsLookup.ChainsAreLists | src/write/romfs.rs:456-540 | the sibling chains of a built image are finite: they are the sorted child lists |
| RomFsLookup.DescentAgrees | src/read/romfs.rs:174-204 | the reader's descent through bytes is the descent through the tables |
| RomFsLookup.ResolveByPath | src/read/romfs.rs:162-173 | a descent finds the file at the joined path or tells which part is missing |
| RomFsTheorems.DirsAreImplied | src/write/romfs.rs:40-42 | the image has exactly the directories some stored path implies |
| RomFsTheorems.OpenFindsWhatIsStored | src/read/romfs.rs:162-204 | for every path at all: the stored bytes if stored, else empty path, missing directory or missing file, each exactly when |
| RomFsTheorems.ReadFile | src/read/romfs.rs:38-204 | the same by parse, open and data |
| RomFsTheorems.BuildThenRead | src/write/romfs.rs:81-340 | from builder to opened file |
| RomFsTheorems.SamePathBothWays | src/read/romfs.rs:175-187 | a path something was stored under opens to those bytes exactly when no piece past the leading slashes is empty, and to an error otherwise |
| RomFsTheorems.DoubledSeparatorIsNotFound | src/write/romfs.rs:95 | for all names a and b, `/a//b` is accepted and then not found |
| RomFsTheorems.ListingIsComplete | src/read/romfs.rs:361-373 | a walk ends and yields each subdirectory then each file once, names ascending by first difference |
| RomFsTheorems.SiblingOffsetsRise | src/write/romfs.rs:456-540 | offsets rise strictly along both sibling chains |
| RomFsTheorems.WalkEndsAsDocumented | src/read/romfs.rs:499-501 | for any two chains: the walk ends at the first malformed entry exactly when every directory can be read or no readable file comes first |
| RomFsTheorems.MalformedDirIsPassedOver | src/read/romfs.rs:499-501 | an accepted image whose malformed directory does not end the walk |
| RomFsBounds.DirsAtMost | src/write/romfs.rs:100-132 | every directory but the root is a different stretch of some stored path, which bounds their number |
| RomFsBounds.BoundedContentsFit | src/write/romfs.rs:385-418 | contents within a bound on number, path length and file size keep every offset within its field |
| RomFsHash.DirBucketChain | src/write/romfs.rs:420-436 | each directory bucket heads a finite chain of strictly falling offsets holding exactly the entries that hash to it |
| RomFsHash.FileBucketChain | src/write/romfs.rs:438-454 | the same for files |
| RomFsHash.DirIndexAgrees | src/raw/romfs.rs:127-148 | probing the bucket of (parent, name) agrees with the sibling walk, except for the empty name under the root |
| RomFsHash.FileIndexAgrees | src/raw/romfs.rs:127-148 | the same for files, without exception |
| RomFsPlaces.RootPathInNumbers | src/write/romfs.rs:81-99 | a name without byte 0x2F, put under the root, is stored under 0x2F and the name |
| RomFsPlaces.HeaderInNumbers | src/write/romfs.rs:542-577 | the ten header fields at their bytes: sizes, four tables one after another to the end, 0x200 for the contents |
| RomFsPlaces.OffsetsInNumbers | src/write/romfs.rs:385-409 | each offset from the one before: 0x18 or 0x20 bytes and a name padded to 4, contents on multiples of 16 |
| RomFsPlaces.DirInNumbers | src/raw/romfs.rs:76-97 | a directory's parent, first child, first file, name length and name, at their bytes |
| RomFsPlaces.SiblingsInNumbers | src/write/romfs.rs:456-540 | the next sibling's offset or 0xFFFFFFFF, at its byte |
| RomFsPlaces.FileInNumbers | src/raw/romfs.rs:107-128 | a file's parent, data offset, size, name length, name and contents, at their bytes |
| RomFsPlaces.TablesInByteOrder | src/write/romfs.rs:349-383 | both tables ascend by first difference of full paths |
| RomFsPlaces.BucketsInNumbers | src/write/romfs.rs:420-454 | a bucket's head is the word at the hash modulo the bucket count |
| RomFsPlaces.AcceptedInNumbers | src/read/romfs.rs:38-142 | which buffers are accepted, by the numbers at their first 0x50 bytes |
| RomFsPlaces.DirRefusal | src/read/romfs.rs:277-319 | why a directory cannot be read, with the numbers of the error |
| RomFsPlaces.FileRefusal | src/read/romfs.rs:387-429 | the same for files |
| RomFsPlaces.PathRefusal | src/write/romfs.rs:89-99 | a path is invalid exactly when it does not start with 0x2F or has no other byte |
| HashBlocks.HashAll | src/write/nca/ivfc.rs:84-87 | the digests of all blocks, short last block included |
| HashBlocks.DigestsBind | src/write/nca/ivfc.rs:78-87 | data of one size with one digest list is equal, or a collision is exhibited |
| HashBlocks.PaddedWhole | src/write/nca/ivfc.rs:89-92 | the unconditional padding ends on a whole unit |
| Ivfc.ComputeHashLevel | src/write/nca/ivfc.rs:79-95 | one level derived from the one above |
| Ivfc.Build | src/write/nca/ivfc.rs:40-76 | six levels low to high, logical offsets accumulated, root hash over level 0 |
| Ivfc.TreeIsUnique | src/write/nca/ivfc.rs:29-37 | levels back to back with such headers are one tree only |
| Ivfc.RootBindsImage | src/write/nca/ivfc.rs:3-6 | equal root hash and level sizes mean equal images, or a collision is exhibited |
| Ivfc.DigestInOneBlock | src/write/nca/ivfc.rs:3-6 | each block's digest lies whole inside one block of the covering level |
| Ivfc.DerivedLevelsAreWhole | src/write/nca/ivfc.rs:8-12 | every level but the image is a positive number of whole blocks |
| Partition.Build | src/write/nca/partition.rs:31-64 | padded table ahead of the archive, superblock describing both |
| Partition.ArchiveAtOffset | src/write/nca/partition.rs:38-58 | the recorded offset locates the archive on a media boundary past the hashes |
| Partition.SuperblockBindsArchive | src/write/nca/partition.rs:3-6 | equal size, block size and root hash mean equal archives, or a collision is exhibited |
| NcaFormat.HeaderReadsBack | src/raw/nca.rs:355-398 | every field of the 0xC00-byte header reads back from its place |
| NcaFormat.PfsSuperblockReads | src/raw/nca.rs:199-222 | the partition superblock's fields at their offsets |
| NcaFormat.RomFsSuperblockReads | src/raw/nca.rs:130-178 | level count, level extents and root hash at theirs |
| NcaFormat.CounterCounts | src/write/nca.rs:445-456 | a counter, read as a 128-bit number, is the reversed section counter over the offset in AES blocks |
| NcaBuild.NcaBuilder.constructor | src/write/nca.rs:156-165 | no sections, first key generation, zero key area |
| NcaBuild.NcaBuilder.KeyAreaKey | src/write/nca.rs:187-194 | one of four slots set, or the index refused and nothing changed |
| NcaBuild.NcaBuilder.Place | src/write/nca.rs:206-218 | a slot is filled once; out of range or occupied is refused and nothing changes |
| NcaBuild.LayOutSection | src/write/nca.rs:366-417 | a section's bytes and the FS header describing them |
| NcaNumbers.SlotBytes | src/write/nca.rs:253-275 | a slot's bytes in the file: media units, version 2, kinds 0 and 3 for RomFS or 1 and 2 for a partition, 1 plain or 3 CTR, and the header's digest; zeros if empty |
| NcaNumbers.IdentityBytes | src/raw/nca.rs:355-398 | `NCA3`, content type, split key generation, size, title, SDK version, keys and zeros, at their bytes |
| NcaNumbers.PartitionSuperblock | src/raw/nca.rs:199-222 | a partition superblock's seven fields at their bytes |
| NcaNumbers.PartitionInNumbers | src/write/nca/partition.rs:31-64 | two layers, table first, archive at the next multiple of 0x200 past it |
| NcaNumbers.IvfcSuperblock | src/raw/nca.rs:130-178 | `IVFC`, version 0x20000, seven layers, level extents and block size, root hash, at their bytes |
| NcaNumbers.TreeInNumbers | src/write/nca/ivfc.rs:40-95 | six levels, the image last, blocks of 0x4000 recorded as 14, each level where the one before it ends |
| NcaNumbers.DigestInNumbers | src/write/nca/ivfc.rs:84-87 | digest i is that of block i, the last one cut short |
| NcaNumbers.PaddingInNumbers | src/write/nca.rs:437-443 | zeros to the next multiple of 0x200, none on one |
| NcaNumbers.CounterBytes | src/write/nca.rs:445-456 | a counter's sixteen bytes |
| NcaBuild.InReachIff | src/write/nca.rs:431-435 | building succeeds exactly when every section ends within 2^32 media units |
| NcaBuild.StartReachable | src/write/nca.rs:259 | the start check never fails: an earlier end was already found in reach |
| NcaBuild.NcaBuilder.Build | src/write/nca.rs:226-278 | every slot described by index, sizes recorded, or the first end out of reach returned |
| NcaBuild.SectionCounter | src/write/nca.rs:449-456 | the array loop computes the counter |
| NcaBuild.CtrSections | src/write/nca.rs:300-324 | one range and counter per CTR slot, in slot order |
| NcaRead.SectionRange | src/read/nca.rs:299-330 | absent exactly when the entry ends at zero, otherwise past the header and inside the buffer |
| NcaRead.DataRange | src/read/nca.rs:333-397 | the extent the superblock names, given exactly when it lies inside its section |
| NcaNumbers.ExtentInNumbers | src/read/nca.rs:333-380 | kind 2 takes the fields at 0x38 and 0x40 of the superblock, kind 3 those of the level two below the count at 0xC |
| NcaNumbers.RangeInNumbers | src/read/nca.rs:381-397 | the extent, exactly when it ends inside the section |
| NcaNumbers.SlotInNumbers | src/read/nca.rs:60-72 | a slot's checks in order, any encryption but 1 to 4 and any verification kind but 2 and 3 refused |
| NcaNumbers.AcceptedKinds | src/read/nca.rs:44-79 | an accepted buffer has `NCA3` and known kinds at these bytes |
| NcaRead.FirstFault | src/read/nca.rs:60-72 | no fault exactly when every slot passes |
| NcaRead.TryFromBytes | src/read/nca.rs:44-79 | accepts exactly the buffers with a known header and four sound slots |
| NcaRead.RefusalReports | src/read/nca.rs:44-79 | a refusal says what is wrong, of the first faulty slot if the header is sound |
| NcaRead.Section | src/read/nca.rs:115-139 | absent exactly when the entry is empty, otherwise the bytes its media units cover and, in them, the extent its superblock names |
| NcaRead.Counter | src/read/nca.rs:223-236 | the counter for CTR sections and nothing for others |
| NcaTheorems.SectionsTile | src/write/nca.rs:253-275 | slots tile the file from 0xC00 to nca_size on media units, occupied slots not empty, others taking no room |
| NcaTheorems.SectionsDisjoint | src/write/nca.rs:253-275 | two occupied slots never overlap |
| NcaTheorems.BuiltIsAccepted | src/read/nca.rs:44-79 | the reader accepts every built archive, header and all |
| NcaTheorems.ArchiveIsUnique | src/write/nca.rs:226-278 | a builder's identity and sections make one archive |
| NcaTheorems.SectionsReadBack | src/read/nca.rs:115-139 | each occupied slot gives back the image or archive placed there, every other slot is absent |
| NcaTheorems.CtrSlots | src/write/nca.rs:300-324 | the sections to encrypt are the ones asked for, all past the header |
| NcaTheorems.CountersNeverRepeat | src/write/nca.rs:300-324 | blocks of different CTR sections of one archive are counted apart |
| NcaTheorems.CounterAgrees | src/read/nca.rs:218-236 | the reader derives the very counter and range the writer handed out |
| NcaTheorems.FsHeaderBinds | src/write/nca.rs:366-417 | sections with one FS header store the same bytes, or a collision is exhibited |
| NcaTheorems.SectionHashBinds | src/write/nca.rs:271 | so do sections with one section hash |
| Pfs0Build.AddResult | src/write/pfs0.rs:130-152 | a name is accepted exactly when it can be stored and is not taken |
| Pfs0Build.Pfs0Builder.AddFile | src/write/pfs0.rs:122-157 | stores the data or refuses, first reason first, and changes nothing |
| Pfs0Build.SortedFiles | src/write/pfs0.rs:166-167 | sorting by name keeps what is stored |
| Pfs0Build.Write | src/write/pfs0.rs:169-231 | the three writes per file into the zeroed buffer give header, entries, string table and data |
| Pfs0Build.Pfs0Builder.Build | src/write/pfs0.rs:165-232 | the archive of the contents |
| Pfs0Format.ArchiveIsCanonical | src/write/pfs0.rs:26-28 | one set of files has one archive |
| Pfs0Read.FileFault | src/read/pfs0.rs:132-158 | faulted exactly when the extent overflows or leaves the data region |
| Pfs0Read.NameFault | src/read/pfs0.rs:161-184 | faulted exactly when the name starts outside or never ends inside the table |
| Pfs0Read.TryFromBytes | src/read/pfs0.rs:38-81 | accepts exactly the buffers whose tables lie inside and whose entries are all in bounds |
| Pfs0Read.RefusalReports | src/read/pfs0.rs:38-81 | a refusal says what is wrong, of the first faulty entry if the tables are sound |
| Pfs0Read.Resolve | src/read/pfs0.rs:113-128 | in bounds for every entry of an accepted archive: the bytes of its extent, and the name from its offset to the first terminator |
| Pfs0Theorems.ArchiveReads | src/read/pfs0.rs:38-81 | a built archive is accepted and read as laid out |
| Pfs0Theorems.FileByNameFindsWhatIsStored | src/read/pfs0.rs:107-109 | each name finds exactly its own bytes, any other name nothing |
| Pfs0Theorems.FilesInNameOrder | src/read/pfs0.rs:99-102 | listing gives every file once, names ascending by first difference |
| Pfs0Numbers.NamesInNumbers | src/write/pfs0.rs:130-152 | a name is refused for being empty, for byte 0, for byte 0x2F or 0x5C, or for being taken, in that order |
| Pfs0Numbers.HeaderInNumbers | src/raw/pfs0.rs:32-41 | `PFS0`, file count, string table size rounded up to 0x20, zero |
| Pfs0Numbers.OffsetsInNumbers | src/write/pfs0.rs:196-227 | names follow each other with one zero byte between, contents with none |
| Pfs0Numbers.FileInNumbers | src/write/pfs0.rs:196-227 | each file's entry, terminated name and contents, at their bytes of the archive |
| Pfs0Numbers.TablesInNumbers | src/read/pfs0.rs:38-70 | which buffers have their tables inside, and the entries read from them, at their bytes |
| Pfs0Theorems.BoundedContentsFit | src/write/pfs0.rs:165-190 | contents within a bound on number, name length and file size fit the 32-bit fields |
| Kip1.EncodeCapabilities | src/write/kip.rs:302-311 | the capability words, then 0xFF to the end of the field |
| Kip1.PackSegment | src/write/kip.rs:229-287 | a segment's descriptor records both lengths of its compressed form, cut to 32 bits |
| Kip1.Kip1Builder.Build | src/write/kip.rs:198-327 | refuses for the first missing or inconsistent field, otherwise an image of what the builder holds |
| Kip1.HeaderReadsBack | src/raw/kip.rs:68-100 | every header field reads back |
| Kip1.TryFromBytes | src/read/kip.rs:46-86 | the loop finds the first segment out of bounds, if any |
| Kip1.SegmentInside | src/read/kip.rs:111-130 | every segment of an accepted image lies inside the buffer |
| Kip1.GetSegment | src/read/kip.rs:112-130 | the loop finds where the segment starts; the two unused descriptors give nothing |
| Kip1.Expand | src/read/kip.rs:190-199 | copied or decompressed as marked |
| Kip1Theorems.CompressionChangesLength | src/write/kip.rs:229-235 | a compressed form never has the length of its data |
| Kip1Theorems.LengthKeptWhenShort | src/write/kip.rs:266-287 | the length of a compressed form survives its field for every segment of at most 0xFFFF_FFF8 bytes |
| Kip1Theorems.ExpandsIffMarked | src/read/kip.rs:190-199 | a segment expands to the original exactly when it is marked packed and its length survived |
| Kip1Theorems.ImageIsUnique | src/write/kip.rs:198-327 | what a builder holds has one image |
| Kip1Theorems.NameReadsBack | src/read/kip.rs:90-103 | the name read is the one given up to its first NUL, cut to eleven bytes: itself exactly when at most eleven bytes and no NUL, the documented cut exactly when a NUL or the end comes by the twelfth byte |
| Kip1Theorems.TwelveBytesAreCut | src/write/kip.rs:66 | a twelve-byte name loses its last byte |
| Kip1Theorems.BuiltIsAccepted | src/read/kip.rs:46-86 | every built image parses |
| Kip1Theorems.SegmentsReadBack | src/read/kip.rs:190-238 | each segment expands to the original exactly when it is marked; bss stores nothing |
| Kip1Numbers.ExpandsByBit | src/read/kip.rs:190-238 | text expands to the original exactly when bit 0 of byte 0x1F is set, rodata bit 1, data bit 2; bss always to nothing |
| Kip1Numbers.StoredWhenBitClear | src/read/kip.rs:190-238 | in any accepted image a segment is returned as stored exactly when its bit is clear |
| Kip1Numbers.BuiltHeaderBytes | src/write/kip.rs:238-263 | `KIP1`, name, title, category, priority, core and flags, 0x3F unless given, at their bytes |
| Kip1Numbers.BuiltBodyBytes | src/write/kip.rs:265-327 | six descriptors from 0x20 on and the compressed segments from 0x100 on |
| Kip1Numbers.BuiltCapabilityBytes | src/write/kip.rs:302-311 | capability words from 0x80 on, 0xFF up to 0x100 |
| Kip1Numbers.ParsedInNumbers | src/read/kip.rs:46-86 | which buffers parse, by the numbers in their header |
| Kip1Numbers.RefusalInNumbers | src/read/kip.rs:46-86 | why a buffer does not parse, with the numbers of the error |
| Kip1Numbers.BuilderRefusals | src/write/kip.rs:198-227 | each reason a builder is refused for, exactly when nothing before it is missing |
| Kip1Theorems.DefaultFlagsMarkAll | src/write/kip.rs:238-246 | the default flags mark all three segments |
| Kip1Theorems.BuildThenExpand | src/write/kip.rs:198-327 | from builder to expanded segment |
| NpdmCapability.DescriptorsAreMarked | src/write/npdm.rs:139-292 | every descriptor's trailing-one count is its kind's |
| NpdmCapability.MarkersIdentifyKinds | src/write/npdm.rs:29-35 | no two kinds share a count |
| NpdmCapability.DecodesToMasked | src/write/npdm.rs:139-292 | decoding by the marker alone gives every field cut to its width |
| NpdmCapability.DecodesIffInRange | src/write/npdm.rs:139-292 | a capability survives encoding exactly when its fields are in range |
| NpdmNumbers.KnownDescriptors | src/write/npdm.rs:139-292 | one descriptor of each kind as a number, every flag on its own |
| NpdmNumbers.KnownRegions | src/write/npdm.rs:227-241 | three regions as one word |
| NpdmSyscalls.EncodeSyscalls | src/write/npdm.rs:157-189 | the masks express exactly the requested ids below 192, indices strictly rising, no mask empty |
| NpdmSyscalls.DropUnused | src/write/npdm.rs:181-186 | removing from the high end keeps the used masks in order |
| NpdmSyscalls.NextHolds | src/write/npdm.rs:170-179 | setting one syscall keeps every mask holding exactly its ids |
| NpdmNumbers.OneSyscall | src/write/npdm.rs:157-189 | a syscall below 192 alone is one word: its index above bit 29, its bit from bit 5 on, the marker |
| NpdmNumbers.KnownSyscalls | src/write/npdm.rs:157-189 | syscalls 1 and 191 as words |
| NpdmSyscalls.Encode | src/write/npdm.rs:139-292 | the words of any capability, accumulated bit field by bit field |
| NpdmSyscalls.EncodeMap | src/write/npdm.rs:191-221 | the two descriptors of a mapping, flags set last |
| NpdmSyscalls.EncodingIsMarked | src/write/npdm.rs:139-292 | each carries its marker, syscall masks included |
| NpdmBlocks.BuildServices | src/write/npdm.rs:784-805 | control byte and cut name per non-empty service |
| NpdmBlocks.ServicesParse | src/write/npdm.rs:779-805 | the list parses back to the non-empty names cut to 8 bytes with their host bits |
| NpdmNumbers.ServiceInNumbers | src/write/npdm.rs:779-805 | one byte of length less one, 0x80 more for a host, and at most eight bytes of name |
| NpdmBlocks.AllSurviveIff | src/write/npdm.rs:779-805 | nothing is lost exactly when every name has 1 to 8 bytes |
| NpdmBlocks.BuildFah | src/write/npdm.rs:673-741 | header, content owner list, save data owner list |
| NpdmBlocks.ListsReadBack | src/write/npdm.rs:673-741 | every id and accessibility is found at the offset the header records |
| NpdmNumbers.FahInNumbers | src/write/npdm.rs:673-741 | version, permissions, both lists' offsets, sizes and elements, at their bytes |
| NpdmNumbers.FacInNumbers | src/write/npdm.rs:755-771 | version, permissions and both id ranges, at their bytes |
| NpdmBlocks.BuildCapabilities | src/write/npdm.rs:810-823 | the encodings of all capabilities as little-endian words |
| NpdmGrants.ExpressedIds | src/write/npdm.rs:157-189 | the mask words of a syscall list allow exactly the requested ids below 192 |
| NpdmGrants.GrantsReadBack | src/write/npdm.rs:810-823 | a block parses back to every other capability in order, cut to the bits kept, and to the requested syscalls below 192 |
| NpdmGrants.BlockIsUnique | src/write/npdm.rs:810-823 | a list of capabilities has one block |
| NpdmFormat.MetaReads | src/raw/npdm.rs:34-72 | the META fields read back |
| NpdmFormat.AcidReads | src/raw/npdm.rs:82-118 | the ACID fields read back |
| NpdmFormat.Aci0Reads | src/raw/npdm.rs:128-145 | the ACI0 fields read back |
| NpdmNumbers.MetaInNumbers | src/raw/npdm.rs:34-72 | `META`, the program's fields, its name and the two sections' places, at their bytes |
| NpdmNumbers.AcidInNumbers | src/raw/npdm.rs:82-118 | ACID at 0x80: magic, signed length, flags, id range and extents, at their bytes |
| NpdmNumbers.Aci0InNumbers | src/raw/npdm.rs:128-145 | ACI0 at the next multiple of 16: magic, program id, extents and the three blocks, at their bytes |
| NpdmNumbers.DefaultsInNumbers | src/write/npdm.rs:522-529 | what stands in for access that was not given |
| NpdmNumbers.AcceptedInNumbers | src/read/npdm.rs:38-126 | which buffers are accepted, by the numbers in them |
| NpdmNumbers.BlockInNumbers | src/read/npdm.rs:183-280 | a nested block is the bytes at its offset from ACI0, or refused with where it would end |
| NpdmFormat.BlocksInSection | src/write/npdm.rs:537-547 | each block lies at its aligned offset |
| NpdmBuild.PlaceSection | src/write/npdm.rs:604-621 | four writes into the zeroed buffer give the padded section |
| NpdmBuild.NpdmBuilder.Build | src/write/npdm.rs:516-624 | an image of the effective access data, defaults applied |
| NpdmRead.TryFromBytes | src/read/npdm.rs:38-126 | accepts exactly the buffers with the META magic and two sections inside, large enough and with their magics; an error says what is wrong and that nothing checked earlier is |
| NpdmRead.Block | src/read/npdm.rs:183-280 | a nested block exactly when it lies inside the buffer |
| NpdmTheorems.BuiltIsAccepted | src/read/npdm.rs:38-126 | a built image is accepted, all three headers as written |
| NpdmTheorems.BlocksReadBack | src/read/npdm.rs:183-280 | the FAC, SAC and KC slices are exactly the three blocks written |
| NpdmTheorems.AccessReadsBack | src/write/npdm.rs:516-624 | end to end: filesystem access, services and kernel capabilities parse back to what the program was given |
| NpdmTheorems.NameReadsBack | src/read/npdm.rs:134-142 | the program name read from a built image is the one given up to its first NUL, cut to fifteen bytes: itself exactly when shorter than sixteen and without NUL |
| NpdmTheorems.NpdmIsUnique | src/write/npdm.rs:516-624 | one set of descriptors has one image |
| NpdmTheorems.BoundedAccessFits | src/write/npdm.rs:516-547 | a bound on the numbers of owners, services and capabilities keeps every offset within 32 bits |
| TitleTheorems.ReadRomFsFile | src/read/nca.rs:115-139 | a file opened through an NCA section and its RomFS is the file stored |
| TitleTheorems.ReadPfs0File | src/read/nca.rs:115-139 | the same through a PFS0 section |
| Order.SortAscends | src/write/romfs.rs:353 | the stable sort orders distinct keys strictly, the first differing byte deciding |
| Order.LessIsPrecedes | src/write/pfs0.rs:167 | the order is by first difference: the smaller byte there, or the string that ends there, comes first |
| Order.AscendingUnique | src/write/romfs.rs:342-348 | a strictly ascending list is determined by its elements |
| Packing.LeastFirst | src/blz.rs:583-587 | words read from bytes, least significant first |
| Packing.PaddingInNumbers | src/write/romfs.rs:674-685 | padding is zeros up to the next multiple, none on one |

## Left out

- `from_directory` builders and the `try_from_ptr` readers: filesystem walks and raw pointers.
- NSO, NRO, NACP, MOD0, CNMT: field copies and single-pass checks that would add only easy members.
- UTF-8: names are bytes, so the rule that an invalid name reads as empty is not modelled.
- SHA-256, AES, RSA and key wrapping: the hash is a parameter, the others are not in the crate.
- Setters of the KIP1, NCA and NPDM builders that assign one field: the fields are assigned directly.
- Ownership: the source's builders are consumed, so what `build` leaves behind is stated here but cannot be observed there.
- `usize` narrower than 64 bits: overflow checks that a 64-bit sum of 32-bit values cannot fail are not branches here.
- `SuperblockUnreadable` of the NCA reader: the span has the superblock's size, so the branch cannot be taken.
- BlzDecode.Decompress: success on an arbitrary stream promises a length only, as the code does; see the section above.
- RomFsRead.Open: takes the finite walk as a ghost argument, because on a cyclic chain the source never returns.
- RomFsRead.FindDir: takes the finite sibling chain as a ghost argument, for the same reason.
- RomFsRead.FindFile: the same.
- RomFsRead.DirIterator.constructor: takes both finite chains as ghost arguments; an iterator over a cyclic one never ends.
- RomFsRead.DirIterator.Next: the same.
- RomFsBuild.RomFsBuilder.Build: requires that the sorted tables fit 32-bit entry offsets, past which the source's sums overflow.
- RomFsTheorems.BuildThenRead: the same; `RomFsBounds.BoundedContentsFit` gives a bound that implies it.
- Pfs0Build.Write: requires that the counts fit their 32-bit fields, past which the source's string offsets overflow.
- Pfs0Build.Pfs0Builder.Build: the same; `Pfs0Theorems.BoundedContentsFit` gives a bound that implies it.
- Kip1.PackSegment: requires segments below 0xFFFF_FFFF bytes, as the compressor panics on longer ones.
- Kip1.Kip1Builder.Build: the same.
- Kip1Theorems.BuildThenExpand: requires at most 0xFFFF_FFF8 bytes a segment; up to six bytes more, a length can be truncated.
- Kip1Theorems.SegmentsReadBack: requires every compressed length to survive its field; `ExpandsIffMarked` says what becomes of a
  segment whose length does not.
- NpdmBlocks.BuildFah: requires owner lists within the 32-bit sizes of the header, which the source truncates to.
- NpdmBuild.NpdmBuilder.Build: requires 32-bit offsets to hold the layout (`NpdmTheorems.BoundedAccessFits` gives a bound that
  implies it); syscall names are dropped, as encoding drops them.
- NpdmGrants.GrantsReadBack: syscalls come back as one set, since the masks of adjacent lists cannot be told apart.
- NcaBuild.NcaBuilder.Build: requires positive hash block sizes, without which the source panics, and a body that fits memory.
