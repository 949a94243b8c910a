# Verification of the image decoders and the chunk meshing pipeline

This Dafny project models two parts of the game client and proves what they compute.

1. **The image decoders of `include/stb_image.h`** that load every texture: the DEFLATE/zlib
   decoder, the reconstruction of PNG images from decompressed data, the LZW decoder of GIF, and
   the Huffman tables of JPEG with the one that speeds up coefficients.
2. **The chunk pipeline**: the block world (`src/World.cpp`), meshing (`src/ChunkVertices.cpp`),
   the renderer that invalidates, enqueues, meshes and uploads (`src/Renderer.cpp`), its thread
   pool (`src/Threadpool.hpp`), and the ray that picks a block (`src/GameScene.cpp`).

`dafny verify dfyconfig.toml` checks everything.

## How the model is built

Code that works step by step is imperative Dafny over the same fields, arrays and loops; what it
computes is stated by functions on values, and what is promised is proved about those functions.

**DEFLATE.** `Bits` relates machine words to bit strings; `BitReversal` computes the four
mask-and-shift lines with bitwise operations. `Canonical` defines the codes of section
3.2.2 of RFC 1951 by code lengths; `HuffmanTable` builds the fast and slow tables in place
(`ZHuffman.Build`). `BitReader` is the input half of `stbi__zbuf`, whose reservoir is proved to be
a view of one bit stream (`Source`). `Deflate` is the grammar of RFC 1951, independent of any
decoder: tokens, blocks, the bits that write them, and the LZ77 expansion. It is wider than the RFC
where the decoder is: HLIT may be 287 or 288 (section 3.2.7 stops at 286), length 258 may be symbol
284 with extra value 31 (`LengthUnique`), and codes need not be complete. `InflateBlock`,
`InflateHeader`, `InflateStream` and `Inflate` are the decoder on values, proved sound and complete
for that grammar (`DecodeSound`, `DecodeComplete`) and monotone in the output limit (`DecodeCap`).
`AcceptedExactly` says which inputs give which output; the number of bytes enters it as `Fed`, which
is decided from the sizes of the reads of a stream alone. `ZlibHeader` and `Zlib` are the decoder as
written, with its doubling buffer; every method is proved equal to the decoder on values, and all
loops are proved to end, but for the doubling of a size of 0. `ZlibStream` has the round trip and
streams that are cut off, `ZlibLimits` the examples and the exact number of bytes needed behind a
stream.

**PNG.** `PngFilter` defines filtering and reconstruction (section 9 of the W3C PNG Specification,
Second Edition) and proves them inverse. `PngUnfilter` and `PngRows` are the row loop in place, with
the first-row filters and both pixel layouts; `PngUnpack` unpacks 1-, 2- and 4-bit samples inside
their own row and inserts alpha backwards; `PngImage` puts the passes over the buffer together.
`Adam7`, `PngInterlace` and `PngInterlaced` treat interlaced images of all depths.

**GIF.** `Lzw` is the decoder with explicit strings, the codes an arbitrary encoder may choose, and
the round trip. `GifRaster` says where indices are drawn, and `GifPixels` that they fill the
rectangle, each pixel once. `Gif` is the prefix table, the recursion and the main loop, proved equal
to the decoder with strings; `GifRoundTrip` draws a whole encoded picture.

**JPEG.** `JpegTable` builds the Huffman tables in place; `JpegHuffman` says which tables these are
and which symbols are decoded with them, by the same canonical codes as DEFLATE. `JpegAssertion` says
when the assertion of the decoder holds. `JpegFastAc` compares the combined table with the two steps
it replaces.

**Meshing.** `World` and `ChunkMesh` say which faces of the world can be seen and that the
seven-chunk snapshot is enough; `ChunkVertices` is the triple loop and the packing of vertices.
`MeshPipeline` is the step relation of main thread and workers with any number of workers;
`MeshAgreement` says of all its runs when uploaded meshes agree with the world, and `MeshRace` shows
failures in runs whose main thread keeps the order of the program (`OrderedRun`). `Renderer` has the
calls themselves, and proves that a frame of them is such a run. `ThreadPool` is a step relation of
workers, callers, mutex and condition variable, where notifications are steps of their own and
threads may wake for no reason.

**Picking.** `RayWalk` is the voxel walk over exact reals, with infinity and "not a number" for axes
along which the ray does not move.

**In numbers.** What a method shares with the function that specifies it is also stated apart from
both. `DeflateNumbers`, `PngNumbers`, `GifNumbers` and `JpegNumbers` give the tables, codes, fields
and formulas in the numbers of the standards, over `BitNumbers`; `DeflateExample` and `GifExample` are
one stream each, byte for byte. `MeshGeometry` has blocks, faces, corners, pictures and vertices in
coordinates. `MeshHistory` and `PoolHistory` say what a run of the pipeline and of the thread pool
comes to in terms of its actions alone, without the history that the states carry.

## What the proofs show to be false or dead

- A well-formed DEFLATE stream can be refused when too little follows it: `stbi__zhuffman_decode`
  asks for 16 bits or more input even if its codeword is at hand (`DecodeReads`, for each symbol).
  `DecodeExact` says for a whole stream when that happens. Two more bytes are always enough
  (`DecodeComplete`), as the checksum of a zlib stream supplies; one is not: `TwoBytesNeeded`.
- Truncated input can be accepted, because missing bits are read as zeros: the single byte 0x63,
  which begins the three-byte streams of eight different literals, decodes to the byte 0
  (`TruncatedAccepted`). A stream cut to `n` bytes is still read as itself exactly if the lost bits
  are zero and `n` bytes are enough for its reads (`CutStream`), a single read takes padding exactly
  if it is longer than what is left (`InsideInput`), and `AcceptedExactly` describes all input that
  is accepted.
- With two or more workers, however many, an uploaded mesh can stay out of date after all work is
  done, since the last result published wins (`StaleMesh`). `CurrentExactly` says of every run when
  the mesh is current in the end, `PublishExactly` which single publications do harm; without them
  all meshes are current in the end (`QuiescentAgrees`), in particular with one worker or when no two
  workers are busy with one position (`AgreementWithoutOverlap`). In every run an uploaded mesh is
  that of some single world no older than its enqueueing (`UploadedMeshesAreGenuine`, `UploadedFrom`).
- `clearAllChunks` empties the mesh map but not the chunk map, so a chunk cleared this way never gets
  a mesh again: `EntryExactly` for every run, and `LostEntry` reaches such a state for every chunk.
- The byte 255 in the fast table of JPEG marks codewords that are not accelerated, but it is also the
  number of the last of 256 symbols. `stbi__build_huffman` accepts tables whose last symbol is then
  misread (`MisreadAccepted`, `LastSymbolMisread`); a table is decoded correctly exactly if it has at
  most 255 symbols or its last codeword is longer than nine bits (`TablesDecodeExactly`). The
  assertion in the decoder catches some of these cases and not others (`AssertionExactly`,
  `SilentMisread`).
- `stbi__zexpand` never comes back from an initial size of 0 (`DoublingEnds`, `DecodeMalloc`).
- In a level view `GameScene::dda` computes zero times infinity (`StillAxis`); the cells it visits are
  right nonetheless (`MaskMoves`).
- Dead branches: the overflow branch of `stbi__fill_bits`, the range and size tests of
  `stbi__zhuffman_decode_slowpath`, the final `n != ntot` of `stbi__compute_huffman_codes`, the test
  for a negative bit count in `stbi__parse_uncompressed_block`, and `code == avail` in the suffix of a
  GIF entry (made after `avail` has been increased; `first` of the code is right in both cases).

## Model

| member | source | states |
|---|---|---|
| `BitReversal.BitReverse16Is` | include/stb_image.h:4105-4112 | the four mask-and-shift lines, computed with bitwise and and or, reverse the 16 low bits |
| `BitReversal.BitReverse` | include/stb_image.h:4114-4120 | reversing 16 bits and shifting reverses the low `bits` bits |
| `BitNumbers.ShiftNumbers` | include/stb_image.h:4211-4219 | shifting a word is multiplying and dividing by a power of two, masking is the remainder |
| `BitNumbers.BytePlaces` | include/stb_image.h:4199-4209 | the bits of a byte come from the least significant on |
| `Canonical.EndIsKraftSum` | include/stb_image.h:4136-4147 | the running `code` of the table builder ends at the Kraft sum of the lengths |
| `Canonical.CodesFit` | include/stb_image.h:4141-4145 | under the Kraft inequality the codes of every length fit in that many bits |
| `Canonical.RankSurjective` | include/stb_image.h:4149-4163 | the codes of one length fill an interval without gaps |
| `Canonical.PrefixFree` | include/stb_image.h:4122-4167 | at most one codeword of an accepted table begins a bit string |
| `Canonical.BelowEndMatches` | include/stb_image.h:4221-4238 | leading bits below the end of the codes of a length are led by a codeword of at most that length |
| `Canonical.MatchBoundsEnd` | include/stb_image.h:4221-4238 | a matching codeword keeps the leading bits below the end of every longer length |
| `Canonical.LookupIs` | include/stb_image.h:4240-4257 | the symbol whose codeword begins the stream is unique |
| `DeflateNumbers.CodesInOrder` | include/stb_image.h:4136-4154 | a codeword, as a binary fraction, is the code space of all shorter ones and of the equally long ones of smaller symbols |
| `DeflateNumbers.CodesOfOneLength` | include/stb_image.h:4133-4145 | codewords of one length are accepted exactly if there are no more than fit, also if there are fewer |
| `HuffmanTable.SlotInjective` | include/stb_image.h:4152-4155 | no two used symbols share a place in `size` and `value` |
| `HuffmanTable.FastIndex` | include/stb_image.h:4156-4162 | an index of the fast table carries a codeword exactly when its low bits are the reversed code |
| `HuffmanTable.ZHuffman.CountSizes` | include/stb_image.h:4128-4132 | `sizes[l]` is the number of symbols of length `l` |
| `HuffmanTable.ZHuffman.CheckCounts` | include/stb_image.h:4133-4135 | the first test rejects only lengths that break the Kraft inequality |
| `HuffmanTable.ZHuffman.FillRanges` | include/stb_image.h:4136-4148 | `firstcode`, `maxcode` and `firstsymbol` of every length; fails exactly when the Kraft inequality does |
| `HuffmanTable.ZHuffman.FillFast` | include/stb_image.h:4156-4162 | a symbol is entered at every fast index its codeword leads, and nowhere else |
| `HuffmanTable.ZHuffman.FillSymbols` | include/stb_image.h:4149-4165 | all symbols are entered in the slow and fast tables |
| `HuffmanTable.ZHuffman.Build` | include/stb_image.h:4122-4167 | `stbi__zbuild_huffman` succeeds exactly when the lengths satisfy the Kraft inequality, and then the tables are those of the canonical code |
| `BitReader.Reader.Get8` | include/stb_image.h:4189-4197 | the next byte, or 0 at the end |
| `BitReader.Reader.FillBits` | include/stb_image.h:4199-4209 | the reservoir conserves the stream, zeros past its end; its overflow branch is dead |
| `BitReader.Reader.Receive` | include/stb_image.h:4211-4219 | `n` bits leave the front of the stream as a number |
| `BitReader.Reader.DecodeSlowly` | include/stb_image.h:4221-4238 | the slow path returns the symbol whose codeword comes next; its range and size tests never fire |
| `BitReader.SlowLookup` | include/stb_image.h:4227-4232 | the first length whose end exceeds the leading bits is that of the codeword |
| `BitReader.FastLookup` | include/stb_image.h:4249-4255 | a fast entry answers for the whole buffer, and its absence means no short codeword |
| `BitReader.Reader.Decode` | include/stb_image.h:4240-4257 | -1 exactly when input and reservoir are short or no codeword comes next; else the unique symbol, its codeword consumed |
| `Source.FillConsumes` | include/stb_image.h:4199-4209 | filling changes nothing but zeros appended to the stream |
| `Source.ReceiveConsumes` | include/stb_image.h:4211-4219 | received bits are the first bits of the zero-extended stream |
| `Source.ReceiveReads` | include/stb_image.h:4211-4219 | a number that comes next, possibly in padding zeros, is received |
| `Source.DecodeConsumes` | include/stb_image.h:4240-4257 | a decoded symbol means that its codeword was next |
| `Source.DecodeReads` | include/stb_image.h:4240-4257 | a codeword that comes next is decoded if and only if 16 bits are buffered or input is left |
| `Source.InsideInput` | include/stb_image.h:4199-4257 | a read stays inside the input exactly if its bits, or its codeword, are no longer than what is left; otherwise it takes padding zeros |
| `Deflate.LengthCovered` | include/stb_image.h:4281-4287 | every match length 3..258 has a length symbol and extra bits (section 3.2.5 of RFC 1951) |
| `Deflate.DistCovered` | include/stb_image.h:4289-4293 | every distance 1..32768 has a distance symbol and extra bits |
| `Deflate.LengthTiles` | include/stb_image.h:4281-4287 | the ranges of neighbouring length symbols meet |
| `Deflate.DistTiles` | include/stb_image.h:4289-4293 | the ranges of neighbouring distance symbols meet |
| `Deflate.LengthUnique` | include/stb_image.h:4281-4287 | every match length is written in one way only, except 258, which is symbol 285 or symbol 284 with extra value 31 |
| `Deflate.DistUnique` | include/stb_image.h:4289-4293 | every distance is written in one way only |
| `Deflate.CopyEquation` | include/stb_image.h:4328-4333 | every byte of an overlapping copy is the byte `dist` places before it |
| `Deflate.CopyPeriodic` | include/stb_image.h:4328-4333 | a copy repeats the last `dist` bytes periodically, also when it overlaps itself |
| `Deflate.FixedAreCodes` | include/stb_image.h:4431-4447 | the lengths of fixed blocks are accepted codes |
| `DeflateNumbers.LengthNumbers` | include/stb_image.h:4281-4287 | base and extra bits of every length symbol in closed form: eight symbols without extra bits, four each with 1 to 5, and 258 |
| `DeflateNumbers.DistNumbers` | include/stb_image.h:4289-4293 | base and extra bits of every distance symbol in closed form: four symbols without extra bits, two each with 1 to 13 |
| `DeflateNumbers.FixedLitCode` | include/stb_image.h:4431-4442 | the codewords of the fixed literal/length code, as section 3.2.6 of RFC 1951 lists them |
| `DeflateNumbers.FixedDistCode` | include/stb_image.h:4443-4446 | the fixed distance codewords are the numbers 0 to 31 in five bits |
| `DeflateNumbers.MatchNumbers` | include/stb_image.h:4315-4333 | a match appends as many bytes as base and extra value of its length symbol say, each equal to the byte as far back as those of its distance symbol say; it is refused exactly if that is before the start |
| `DeflateNumbers.LengthSymbols` | include/stb_image.h:4362-4363 | code length symbols 0 to 15 stand for themselves |
| `DeflateNumbers.RepeatNumbers` | include/stb_image.h:4366-4369 | symbol 16 with two more bits repeats the previous length 3 to 6 times |
| `DeflateNumbers.ZeroNumbers` | include/stb_image.h:4370-4373 | symbol 17 with three more bits stands for 3 to 10 zeros, symbol 18 with seven for 11 to 138 |
| `DeflateNumbers.LengthOrder` | include/stb_image.h:4340-4355 | the lengths written are those of 16, 17, 18 and 0, then of 8, 7, 9, 6, 10 and so on outwards, and the missing ones are 0 |
| `DeflateNumbers.PreambleNumbers` | include/stb_image.h:4346-4353 | HLIT, HDIST and HCLEN in 5, 5 and 4 bits and the lengths in 3 bits each |
| `DeflateNumbers.HeaderNumbers` | include/stb_image.h:4383-4384 | of the lengths given, the first HLIT are the literal/length code and the others the distance code |
| `DeflateNumbers.BlockStart` | include/stb_image.h:4467-4477 | a block starts with the bit for the last one and the two bits of its type, the low one first |
| `DeflateNumbers.PadNumbers` | include/stb_image.h:4392-4393 | a stored block skips to the next byte boundary after its header bits |
| `DeflateNumbers.StoredNumbers` | include/stb_image.h:4405-4407 | LEN and NLEN have their low byte first, and the bytes of NLEN are those of LEN taken from 255 |
| `InflateBlock.HuffmanBlockSound` | include/stb_image.h:4295-4336 | what a Huffman block accepts is the encoding of tokens, and its output is their LZ77 expansion |
| `InflateBlock.HuffmanBlockExact` | include/stb_image.h:4295-4336 | encoded tokens and end-of-block that come next decode to their LZ77 expansion if every symbol finds 16 bits or input, and are refused otherwise |
| `InflateBlock.HuffmanBlockComplete` | include/stb_image.h:4295-4336 | encoded tokens and end-of-block with two more bytes decode to their LZ77 expansion |
| `InflateBlock.HuffmanBlockCap` | include/stb_image.h:4302-4306 | the output limit only decides whether a block fits |
| `InflateHeader.ReadLengthsSound` | include/stb_image.h:4358-4381 | accepted code lengths are the expansion of repeat codes 16, 17 and 18 |
| `InflateHeader.ReadLengthsExact` | include/stb_image.h:4358-4381 | well-formed repeat codes expand as section 3.2.7 of RFC 1951 says, also across the two alphabets, exactly if there is input for them |
| `InflateHeader.OrderInverse` | include/stb_image.h:4340-4340 | the two tables for the order of code length codes are inverse, each a permutation (which one: `LengthOrder`) |
| `InflateHeader.DynamicTablesSound` | include/stb_image.h:4338-4386 | an accepted dynamic header is well-formed, and the tables are the codes it describes |
| `InflateHeader.DynamicTablesExact` | include/stb_image.h:4338-4386 | every well-formed dynamic header gives its codes, exactly if there is input for its reads |
| `InflateStream.StoredBlockSound` | include/stb_image.h:4388-4415 | an accepted stored block is LEN, its complement and the bytes copied |
| `InflateStream.StoredBlockExact` | include/stb_image.h:4388-4415 | every well-formed stored block is copied, exactly if none of its bytes is missing; no payload byte stays in the reservoir |
| `InflateStream.HeaderIsComplement` | include/stb_image.h:4405-4407 | the NLEN test: four zero bytes, which is all that zero padding gives, fail it |
| `InflateStream.BlockContentSound` | include/stb_image.h:4466-4484 | soundness of a block of any type |
| `InflateStream.BlockContentExact` | include/stb_image.h:4466-4484 | a well-formed block of any type is decoded, exactly if there is input for its reads |
| `Inflate.OneBlockProgress` | include/stb_image.h:4466-4486 | every accepted block uses up a one-bit of the input, the measure by which the block loop ends |
| `Inflate.BlocksSound` | include/stb_image.h:4466-4486 | a run of accepted blocks is the encoding of blocks |
| `Inflate.BlocksExact` | include/stb_image.h:4466-4486 | a sequence of well-formed blocks is decoded, exactly if there is input for its reads |
| `Inflate.DecodeSound` | include/stb_image.h:4460-4496 | what `stbi__do_zlib` accepts begins with a DEFLATE stream (zero-extended if need be), and the result is what that stands for |
| `Inflate.DecodeExact` | include/stb_image.h:4460-4496 | input that begins with a DEFLATE stream, read with zeros past its end, decodes to what that stands for if it is long enough for the reads of the stream and the result fits, and is refused otherwise |
| `Inflate.AcceptedExactly` | include/stb_image.h:4460-4496 | `stbi__do_zlib` returns `r` if and only if the header is good, `r` fits, and the input is read as some DEFLATE stream that stands for `r` |
| `Inflate.DecodeComplete` | include/stb_image.h:4460-4496 | every DEFLATE stream with two more bytes decodes to what it stands for, if that fits |
| `Inflate.DecodeCap` | include/stb_image.h:4488-4496 | decoding under a limit succeeds exactly when unlimited decoding does with an output that fits, with the same bytes |
| `DeflateNumbers.HeaderFields` | include/stb_image.h:4419-4426 | the header test by the fields of RFC 1950: two bytes 16 * CINFO + 8 and 64 * FLEVEL + FCHECK with FDICT 0, together a multiple of 31, and one more byte |
| `DeflateExample.Example` | include/stb_image.h:4460-4496 | one stream byte for byte, with literals and an overlapping match with extra bits, decodes to its text |
| `ZlibStream.RoundTrip` | include/stb_image.h:4460-4496 | packing any blocks into a zlib stream and decoding gives what the blocks stand for |
| `ZlibStream.CutStream` | include/stb_image.h:4199-4257 | a well-formed stream cut to `n` bytes is still read as itself if and only if the lost bits are zero and `n` bytes are enough for its reads; if the lost bits are zero it decodes exactly then |
| `ZlibLimits.TruncatedAccepted` | include/stb_image.h:4199-4209 | the streams of a literal 0 to 7 have three bytes; each cut to its first byte is accepted, as the literal 0 |
| `ZlibLimits.TrailerExactly` | include/stb_image.h:4243-4246 | a stream with `k` bytes behind it is decoded exactly if their sizes feed its reads |
| `ZlibLimits.TwoBytesNeeded` | include/stb_image.h:4243-4246 | `k` bytes behind a stream guarantee that it is decoded if and only if `k >= 2` |
| `ZlibHeader.ReadSizes` | include/stb_image.h:4351-4355 | the code length lengths land in symbol order |
| `ZlibHeader.ReadOp` | include/stb_image.h:4360-4376 | one code length symbol with its extra bits |
| `ZlibHeader.StoreOp` | include/stb_image.h:4362-4380 | one operation extends `lencodes` as on values and leaves every place from `ntot` on as it was |
| `ZlibHeader.ReadLens` | include/stb_image.h:4358-4382 | the loop reads exactly `ntot` lengths and writes nothing behind them; its final test `n != ntot` is dead |
| `Zlib.ZBuf.constructor` | include/stb_image.h:4488-4496 | a fresh decoder state, for a buffer of any size |
| `Zlib.DoublingEnds` | include/stb_image.h:4268-4271 | the doubling loop ends if and only if it starts from a positive size or no room is needed |
| `Zlib.LimitNumbers` | include/stb_image.h:4268-4271 | doubling stops at the largest number below 2^32 that doubling makes of the size |
| `Zlib.Grow` | include/stb_image.h:4268-4271 | the loop succeeds exactly when doubling reaches the size |
| `Zlib.ZBuf.Expand` | include/stb_image.h:4259-4279 | room is made exactly when the buffer may grow and doubling reaches the size, contents are kept, and only size 0 does not come back |
| `Zlib.ZBuf.CopyMatch` | include/stb_image.h:4327-4333 | both copy loops, the run shortcut and the overlapping one, write the LZ77 copy |
| `Zlib.ZBuf.ReadLenDist` | include/stb_image.h:4314-4322 | length and distance of a match with their extra bits |
| `Zlib.ZBuf.BlockStep` | include/stb_image.h:4297-4335 | a turn of the block loop: done, failed, or longer output |
| `Zlib.ZBuf.ParseHuffmanBlock` | include/stb_image.h:4295-4336 | ends on every input and equals the block on values |
| `Zlib.ZBuf.ComputeHuffmanCodes` | include/stb_image.h:4338-4386 | reads the header of a dynamic block and builds its tables as on values |
| `Zlib.ZBuf.DrainReservoir` | include/stb_image.h:4394-4401 | whole buffered bytes go into the header, at most three |
| `Zlib.ZBuf.ReadStoredHeader` | include/stb_image.h:4392-4406 | the four header bytes are the next four bytes of the aligned stream |
| `Zlib.ZBuf.ParseUncompressedBlock` | include/stb_image.h:4388-4415 | equals the stored block on values |
| `Zlib.ZBuf.ParseZlibHeader` | include/stb_image.h:4417-4429 | accepts exactly the headers with a byte behind them that have method 8, no preset dictionary and good check bits, of any window size and level |
| `Zlib.ZBuf.ParseContent` | include/stb_image.h:4469-4484 | a block of any type as on values |
| `Zlib.ZBuf.ParseBlock` | include/stb_image.h:4466-4485 | one turn of the stream loop as on values |
| `Zlib.ZBuf.ParseZlib` | include/stb_image.h:4460-4486 | ends on every byte string, and equals the decoder on values |
| `Zlib.DecodeMalloc` | include/stb_image.h:4519-4533 | decoding into a growing buffer of any size is decoding under the limit that doubling can reach; it gets stuck only with size 0, and then for every input that decodes to one or more bytes |
| `Zlib.DecodeBuffer` | include/stb_image.h:4535-4544 | decoding into a fixed buffer is decoding under its size; the bytes are in the buffer |
| `Zlib.InitialSizeIrrelevant` | include/stb_image.h:4498-4533 | the initial size of a growing buffer does not change a result of up to 2^31 bytes |
| `Zlib.FixedVersusExpandable` | include/stb_image.h:4488-4544 | a fixed buffer succeeds exactly when a growing one does with an output no longer than the buffer, with the same bytes |
| `World.IndexExactly` | src/World.cpp:141-146 | exactly the places outside the chunk give -1, and no two places inside share an index |
| `World.LocalCoord` | src/World.cpp:92-95 | the remainder made non-negative is the coordinate modulo 16 |
| `World.ChunkCoord` | src/World.cpp:91-91 | the multiple of 16 at or below the coordinate |
| `World.SplitPosition` | src/World.cpp:89-106 | chunk position and place in the chunk add up to the position |
| `MeshGeometry.BlockNumbers` | src/World.cpp:89-106 | the block x, y, z places into a chunk is entry x + 16y + 256z of it, and air where no chunk is loaded |
| `ChunkMesh.SnapshotSuffices` | src/ChunkVertices.cpp:88-151 | meshing from the seven-chunk snapshot is meshing from the whole world |
| `ChunkMesh.SnapshotLocal` | src/Renderer.cpp:18-25 | replacing a chunk changes only the seven snapshots that `addChunk` invalidates |
| `ChunkMesh.MeshLocal` | src/Renderer.cpp:18-25 | replacing a chunk changes only the seven meshes that `addChunk` invalidates |
| `ChunkMesh.EveryExposedFaceOnce` | src/ChunkVertices.cpp:102-151 | over all chunk meshes every exposed face appears exactly once and nothing else appears |
| `ChunkMesh.MeshFacesBelong` | src/ChunkVertices.cpp:102-151 | a face of a mesh is an exposed face of a block of that chunk |
| `MeshGeometry.NeighbourNumbers` | src/Renderer.cpp:18-25 | the seven chunks are the chunk and those 16 blocks away along one axis |
| `MeshGeometry.FaceNumbers` | src/ChunkVertices.cpp:114-150 | in coordinates: a face of a block is in the mesh, once, exactly if the block is not air and the next one, at z - 1 for the front, z + 1, x - 1, x + 1, y + 1 for the top or y - 1, is air, leaves or glass |
| `MeshGeometry.FacesInOrder` | src/ChunkVertices.cpp:102-150 | faces come in the order of the cells in the chunk, and front, back, left, right, top, bottom in a cell |
| `MeshGeometry.CornersOnSide` | src/ChunkVertices.cpp:6-65 | the corners of a face lie on the side of the unit cube that looks at that next block |
| `MeshGeometry.SquareNumbers` | src/ChunkVertices.cpp:6-65 | the two triangles of a face turn counterclockwise as seen from outside, and together are the square |
| `MeshGeometry.PictureNumbers` | src/ChunkVertices.cpp:6-65 | which corner of the picture is at which corner of the face |
| `MeshGeometry.NormalNumbers` | shaders/cube_shadow.vs:37-48 | the normal that the shader looks up points to the next block |
| `MeshGeometry.SeveralPictures` | src/Blocktype.h:135-155 | the pictures on top, sides and bottom of grass, oak logs, barrels and bookshelves |
| `MeshGeometry.NaturalPictures` | src/Blocktype.h:135-155 | the picture of each other natural block |
| `MeshGeometry.BuildingPictures` | src/Blocktype.h:135-155 | the picture of each other block for building, and of what is no block |
| `MeshGeometry.ShaderReads` | shaders/cube_shadow.vs:18-55 | unpacking a vertex is shifting and masking as the shader does |
| `MeshGeometry.WordNumbers` | src/ChunkVertices.cpp:160-173 | word 6i + k of a mesh, read by the shader, is corner k of face i: place, point of the picture, normal and picture |
| `ChunkVertices.UnpackPack` | src/ChunkVertices.cpp:160-173 | no field of a vertex is lost in packing |
| `ChunkVertices.MeshIsWorldMesh` | src/ChunkVertices.cpp:88-152 | the vertex list made from the snapshot is that of the world |
| `ChunkVertices.ChunkVertices.LoadFaceVertices` | src/ChunkVertices.cpp:154-174 | six packed corners are appended |
| `ChunkVertices.ChunkVertices.TryFace` | src/ChunkVertices.cpp:116-120 | a face is appended exactly if the neighbouring block can be seen through |
| `ChunkVertices.ChunkVertices.MeshCell` | src/ChunkVertices.cpp:106-150 | a cell appends its visible faces |
| `ChunkVertices.ChunkVertices.CreateChunkVertices` | src/ChunkVertices.cpp:88-152 | the three loops append the mesh of the chunk |
| `ChunkVertices.TakeSnapshot` | src/ChunkVertices.cpp:90-100 | the seven look-ups copy exactly the snapshot |
| `MeshPipeline.SoundStep` | src/Renderer.cpp:12-56 | every step keeps: each result is the mesh of one world that is no older than its enqueueing |
| `MeshPipeline.UploadedMeshesAreGenuine` | src/Renderer.cpp:27-56 | in every run an uploaded mesh is the mesh of one single world, no older than the enqueueing of its task |
| `MeshHistory.WorldIsReplaced` | src/World.cpp:70-87 | the current world of a run, and its number, from its replacements alone |
| `MeshHistory.FetchedInOrder` | src/Renderer.cpp:27-41 | workers fetch positions in the order in which they were enqueued, and none is lost or made up |
| `MeshHistory.UploadedFrom` | src/Renderer.cpp:27-56 | an uploaded mesh is that of the world at a step at which a worker took a snapshot, after its position was enqueued; the numbers it carries are those of the two worlds |
| `MeshHistory.MeshStays` | src/World.cpp:70-87 | a mesh shown stays shown until `clearAllChunks` and changes only in an upload: replacing its chunk leaves it in place |
| `MeshAgreement.PublishExactly` | src/Renderer.cpp:31-38 | one step: a publication leaves its chunk settled if and only if work for it is to come, or it is the result of the latest snapshot, or another worker still holds that |
| `MeshAgreement.SettledStep` | src/Renderer.cpp:12-56 | every step but a harmful publication keeps each chunk pending, on the way or current |
| `MeshAgreement.AgreesUnlessWork` | src/Renderer.cpp:12-56 | without harmful publications a chunk has work pending, a result to upload, or a current mesh |
| `MeshAgreement.QuiescentAgrees` | src/Renderer.cpp:12-56 | without harmful publications all meshes are current once all work is done |
| `MeshAgreement.NoOverlapIsHarmless` | src/Renderer.cpp:31-38 | if no two workers are busy with one position, no publication is harmful |
| `MeshAgreement.AgreementWithoutOverlap` | src/Renderer.cpp:12-56 | with one worker, or without overlap, all meshes are current once all work is done |
| `MeshAgreement.CurrentExactly` | src/Renderer.cpp:12-56 | any run, any number of workers, all work done: the uploaded mesh is the result published last; it is current if that is of the latest snapshot, and in general exactly if the worlds then and now have the same mesh there |
| `MeshAgreement.EntryExactly` | src/World.cpp:70-87 | in every run exactly those loaded chunks have a mesh entry that were not loaded at any call of `clearAllChunks` |
| `MeshAgreement.EntryStaysLost` | src/World.cpp:70-87 | a loaded chunk without an entry stays without one for the rest of every run |
| `MeshAgreement.EntriesMatchChunks` | src/World.cpp:70-87 | until `clearAllChunks` exactly the loaded chunks have a mesh entry |
| `MeshRace.StaleMesh` | src/Renderer.cpp:12-56 | for every number of workers from two on, a run in which the main thread keeps the order of the program ends, all work done, with an uploaded mesh that is not that of the world |
| `MeshRace.LostEntry` | src/World.cpp:148-155 | for every number of workers and every chunk, a run in the order of the program ends, all work done, with that chunk loaded and without a mesh entry, now and ever after |
| `MeshRace.WorkOff` | src/Renderer.cpp:12-56 | from every state of every run of the program all work can be done, and neither the world nor the set of mesh entries changes |
| `MeshHistory.OrderMeans` | src/Renderer.cpp:12-56 | in the order of the program there is an upload between enqueueing a position and receiving or clearing chunks, and meshes are uploaded and chunks cleared with nothing marked |
| `Renderer.GameWorld.CreateOrReplaceChunk` | src/World.cpp:70-87 | the chunk map is updated and only a new position gets a mesh entry |
| `Renderer.GameWorld.ClearAllChunks` | src/World.cpp:148-155 | all mesh entries go |
| `Renderer.AllMarked` | src/Renderer.hpp:42-51 | the seven offsets of invalidation are those of the snapshot |
| `Renderer.Renderer.AddChunk` | src/Renderer.cpp:18-25 | marks the seven positions |
| `Renderer.Renderer.CreateChunksVertices` | src/Renderer.cpp:27-41 | every marked position gets exactly one entry in the queue, and none stays marked |
| `Renderer.Renderer.RunTask` | src/Renderer.cpp:31-38 | the closure stores the mesh of its chunk under its position |
| `Renderer.Renderer.CreateChunksMesh` | src/Renderer.cpp:43-56 | every ready mesh with an entry is uploaded, and none stays ready |
| `Renderer.ReceiveChunks` | src/GameScene.cpp:350-358 | the loop over received chunks |
| `Renderer.ChangesAreTouched` | src/GameScene.cpp:350-358 | a snapshot that changed while chunks were received is marked |
| `Renderer.EnqueueAll` | src/Renderer.cpp:27-41 | the enqueueing loop is a run of single steps, in whatever order the set is walked |
| `Renderer.ReceiveAll` | src/GameScene.cpp:347-358 | the loop over received chunks is a run of single steps |
| `Renderer.FrameRun` | src/Renderer.cpp:12-16 | the calls of a frame, one after the other, are a run of single steps to the state that their contracts describe |
| `ThreadPool.SafeStep` | src/Threadpool.hpp:40-89 | every step of pool, callers and condition variable keeps the queue order, exactly-once and wakefulness |
| `ThreadPool.FifoExactlyOnce` | src/Threadpool.hpp:40-58 | tasks leave the queue in the order they entered, each is executed by one worker once, and while a task waits a worker is awake or a notification is owed, unless `stop` was called and all tasks enqueued before it have left the queue |
| `ThreadPool.AllDoneAtStop` | src/Threadpool.hpp:67-80 | in every run, when all workers are joined every task enqueued before the first `stop` has been executed |
| `ThreadPool.AtStopCounts` | src/Threadpool.hpp:67-89 | in every run `atStop` stays the number of tasks enqueued before the first `stop` |
| `ThreadPool.OwnStepsEnd` | src/Threadpool.hpp:40-58 | every step of the pool itself makes less work |
| `ThreadPool.OwnRunsAreBounded` | src/Threadpool.hpp:40-58 | however threads are scheduled, the pool comes to rest |
| `ThreadPool.RestMeansDone` | src/Threadpool.hpp:40-80 | at rest every task is done, and after `stop` all workers have left, so that `stop` returns |
| `PoolHistory.StartedInOrder` | src/Threadpool.hpp:40-89 | workers start tasks in the order in which the run enqueues them |
| `PoolHistory.FinishesPushed` | src/Threadpool.hpp:40-58 | a worker that finishes has run a task that the run enqueued before |
| `PoolHistory.DoneMeansFinished` | src/Threadpool.hpp:40-58 | a task counts as done exactly if a worker has finished it |
| `PoolHistory.NoneTwice` | src/Threadpool.hpp:40-58 | no task is finished twice |
| `PoolHistory.EveryTaskOnce` | src/Threadpool.hpp:40-89 | a pool at rest that was not stopped has finished every task enqueued, each once |
| `PoolHistory.StopMeans` | src/Threadpool.hpp:67-80 | when all workers have left, every task enqueued before the first call of `stop` has been finished |
| `PngFilter.PaethNearest` | include/stb_image.h:4636-4645 | the neighbour nearest to a + b - c with the tie order of section 9.4 of the PNG specification |
| `PngFilter.FilterNumbers` | include/stb_image.h:4696-4743 | what the five filter types of section 9.2 predict: 0, the left byte, the upper byte, half the sum rounded down, and the nearest neighbour |
| `PngNumbers.RowEquation` | include/stb_image.h:4676-4772 | every byte of a reconstructed image is the filtered byte plus the prediction from the bytes left, above and above left, 0 outside, modulo 256, by the filter type in front of its row |
| `PngFilter.ReconFiltered` | include/stb_image.h:4696-4743 | reconstruction undoes filtering for every row, prior row, filter type and pixel size |
| `PngFilter.DecodeEncoded` | include/stb_image.h:4676-4772 | an image filtered row by row in any way is reconstructed, and data after it is ignored |
| `PngUnfilter.FirstValueIs` | include/stb_image.h:4692-4706 | for the first pixel, the first-row filters are the ordinary ones over a row of zeros |
| `PngUnfilter.NextValueIs` | include/stb_image.h:4734-4743 | for later pixels, the first-row filters are the ordinary ones over a row of zeros |
| `PngUnfilter.SampleAt` | include/stb_image.h:4746-4770 | where the samples and the alpha bytes of a pixel are in an output row |
| `PngUnfilter.UnfilterFlat` | include/stb_image.h:4695-4745 | a packed row is reconstructed in place |
| `PngUnfilter.UnfilterPixel` | include/stb_image.h:4749-4760 | a pixel of the loop that leaves room for alpha |
| `PngUnfilter.UnfilterRest` | include/stb_image.h:4746-4761 | all pixels but the first of a row with alpha |
| `PngUnfilter.SetLowAlpha` | include/stb_image.h:4763-4770 | the second alpha byte of 16-bit pixels |
| `PngUnfilter.UnfilterAlpha` | include/stb_image.h:4708-4771 | a row with alpha shows the reconstructed pixels, each followed by opaque alpha |
| `PngRows.UnfilterRow` | include/stb_image.h:4695-4771 | one row of either kind |
| `PngRows.UnfilterRows` | include/stb_image.h:4676-4772 | the row loop fails exactly at a filter type above 4 or at packed rows that do not fit, and else shows every reconstructed row |
| `PngNumbers.SizeNumbers` | include/stb_image.h:4653-4672 | a row has just the bytes its bits need; filters look back a whole pixel or one byte; output samples have one byte, or two at depth 16 |
| `PngNumbers.RefusedBecause` | include/stb_image.h:4676-4690 | data is refused only for missing rows, packed rows that do not fit, or a filter type above 4 |
| `PngNumbers.AcceptedBecause` | include/stb_image.h:4676-4690 | and accepted data has none of these |
| `PngUnpack.PieceBits` | include/stb_image.h:4791-4825 | a shifted and masked sample is the next bits of the byte from the left (section 7.2 of the PNG specification) |
| `PngUnpack.UnpackPacked` | include/stb_image.h:4791-4825 | unpacking a packed row gives its samples |
| `PngNumbers.SampleNumbers` | include/stb_image.h:4791-4825 | sample `k` of a packed row is read from bit `k` times the depth on, from the high end of each byte |
| `PngUnpack.ScaledIs` | include/stb_image.h:4783-4783 | a grey sample of `d` bits becomes 255/(2^d - 1) times as large, samples of other colour types and palette indices stay as they are, and none merge |
| `PngUnpack.UnpackByte` | include/stb_image.h:4791-4825 | the samples of a byte, which is read again for each of them |
| `PngUnpack.RoomToUnpack` | include/stb_image.h:4785-4825 | what is written for a byte ends at or before it |
| `PngUnpack.UnpackRow` | include/stb_image.h:4778-4825 | unpacking forwards in the same row never overwrites a packed byte before its last use |
| `PngUnpack.AlphaAfterOne` | include/stb_image.h:4830-4834 | inserting alpha backwards after grey or palette samples |
| `PngUnpack.AlphaAfterThree` | include/stb_image.h:4835-4843 | inserting alpha backwards after RGB samples |
| `PngImage.ExpandRow` | include/stb_image.h:4778-4845 | a row of small samples becomes its final row |
| `PngImage.ExpandRows` | include/stb_image.h:4774-4846 | the expansion pass disturbs no other row |
| `PngImage.SwapBytes` | include/stb_image.h:4846-4857 | 16-bit samples get the byte order of a little-endian machine |
| `PngImage.NativeTwice` | include/stb_image.h:4846-4857 | changing the byte order twice changes nothing |
| `PngNumbers.SampleBytes` | include/stb_image.h:4846-4857 | a 16-bit sample keeps its value, with the high byte first in the data and the low byte first in the output |
| `PngNumbers.PixelNumbers` | include/stb_image.h:4746-4845 | pixel `i` of an output row is pixel `i` of its samples, followed by 255 where alpha is asked for |
| `PngImage.UnpackPackedRow` | include/stb_image.h:4778-4825 | packing any row of samples and unpacking it shows the samples: grey ones in proportion to 255, others unchanged |
| `PngImage.CreatePngImageRaw` | include/stb_image.h:4650-4860 | succeeds exactly when the data is long enough, every filter type is known and packed rows fit; then every output row shows the samples of the reconstructed row |
| `PngImage.LargeRoundTrip` | include/stb_image.h:4676-4772 | rows of 8-bit or 16-bit samples, filtered in any way, come back |
| `PngImage.SmallRoundTrip` | include/stb_image.h:4676-4846 | rows of 1-, 2- or 4-bit samples, packed and filtered in any way, come back: grey ones in proportion to 255, others unchanged |
| `Adam7.PassSizes` | include/stb_image.h:4881-4882 | the size formula counts the columns and rows of a pass inside the image |
| `Adam7.PassCovers` | include/stb_image.h:4875-4895 | every pixel is in the pass of the 8 x 8 pattern of section 8.2 |
| `Adam7.PassUnique` | include/stb_image.h:4875-4895 | every place of a pass is one pixel, and no pixel is at two places |
| `PngNumbers.PatternNumbers` | include/stb_image.h:4875-4878 | the pass of a pixel is the number at its place in the 8 x 8 pattern of section 8.2 |
| `PngNumbers.PassInOrder` | include/stb_image.h:4875-4895 | the pixels of a pass are the places with its number, from left to right and from top to bottom |
| `Adam7.PassSum` | include/stb_image.h:4881-4882 | the pass sizes sum to width times height |
| `PngInterlace.PlaceIs` | include/stb_image.h:4893-4894 | the two index expressions address the same kind of place |
| `PngInterlace.PlacesApart` | include/stb_image.h:4889-4896 | different pixels do not overlap in memory |
| `PngInterlace.CopyPass` | include/stb_image.h:4889-4896 | the copying loops move every pixel of a pass and disturb none before |
| `PngInterlace.DecodePass` | include/stb_image.h:4874-4901 | one turn of the pass loop |
| `PngInterlace.CreatePngImage` | include/stb_image.h:4862-4905 | an interlaced image is decoded exactly when its non-empty passes are, and every pixel is that of its pass |
| `PngInterlaced.InterlacedPixel` | include/stb_image.h:4889-4896 | an output pixel has the samples at its place in its pass, and opaque alpha |
| `PngInterlaced.PackedFits` | include/stb_image.h:4684-4689 | packed rows fit exactly if a pixel has at most eight bits, as in all formats of 1, 2 or 4 bits |
| `PngInterlaced.RestOfEncoded` | include/stb_image.h:4898-4899 | each pass finds its own data, at every depth |
| `PngInterlaced.InterlacedRoundTrip` | include/stb_image.h:4862-4905 | once the passes an encoder makes of any image of 1, 2, 4, 8 or 16 bits, filtered in any way, are decoded and placed, every pixel is that of the image, small samples scaled |
| `PngInterlaced.CreateEncoded` | include/stb_image.h:4862-4905 | what an encoder makes of any image is accepted, and every pixel of the output is that of the image |
| `Lzw.StepOk` | include/stb_image.h:6743-6767 | every live entry keeps a string, and the previous code stays live |
| `Lzw.DecoderFollows` | include/stb_image.h:6748-6756 | the decoder builds the encoder's table, also when the code is that of the entry being created |
| `Lzw.DecodeEncoded` | include/stb_image.h:6690-6773 | whatever codes an encoder chooses for the data, they decode to the data |
| `Lzw.AnyDataEncodes` | include/stb_image.h:6690-6773 | every data has an encoding |
| `Lzw.DecodeFreelyEncoded` | include/stb_image.h:6690-6773 | an encoder that never lets the table pass 4096 entries gets its data back, whatever codes it chooses: over the whole run every code fits the width of the moment |
| `GifNumbers.CodeNumbers` | include/stb_image.h:6698-6714 | 2^cs literal codes, then the clear and the end code, one bit more than cs to begin with |
| `GifNumbers.StepNumbers` | include/stb_image.h:6743-6770 | when a data code is refused, and which entry it makes otherwise: the previous string with the first index of this one |
| `GifNumbers.WidthStart` | include/stb_image.h:6698-6714 | at the start and after a clear code the codes have just the width of the next code to be created |
| `GifNumbers.WidthStep` | include/stb_image.h:6762-6765 | for code sizes 2 to 11 the width is always just that of the next code to be created, up to twelve bits |
| `GifNumbers.CutRaster` | include/stb_image.h:6718-6722 | a raster that is cut off anywhere is no error: the indices up to there come out |
| `GifNumbers.BlockNumbers` | include/stb_image.h:6718-6742 | data cut into blocks in any way is read as it was before, up to the block of size 0 |
| `GifNumbers.CutBlock` | include/stb_image.h:6718-6726 | a file that ends inside a block: what is missing is read as zeros, and no block follows |
| `GifNumbers.DecodeControl` | include/stb_image.h:6730-6742 | the clear code empties the table, the end code ends the raster |
| `GifNumbers.DecodeRefused` | include/stb_image.h:6743-6770 | a refused data code, and every data code at the start before a clear code, ends the raster with an error |
| `GifExample.Example` | include/stb_image.h:6690-6773 | one raster byte for byte, with clear code, run, growing width and end code |
| `GifNumbers.ParseColorTable` | include/stb_image.h:6596-6605 | the table is filled from the red, green and blue bytes of the file, and is opaque but for the transparent entry |
| `GifNumbers.ColorNumbers` | include/stb_image.h:6670-6676 | a pixel gets the red, green and blue byte of its colour in the file, and full opacity; a transparent one stays |
| `GifRaster.Plot` | include/stb_image.h:6663-6687 | drawing one index keeps the picture its size and the pen inside the rectangle |
| `GifRaster.NextRow` | include/stb_image.h:6678-6687 | after a row the pen goes to the next of the rows to come |
| `GifRaster.EveryRowOnce` | include/stb_image.h:6678-6687 | interlaced or not, every row is visited exactly once |
| `GifNumbers.RowOrder` | include/stb_image.h:6678-6687 | interlaced rows come as every eighth from 0, every eighth from 4, every fourth from 2 and every second from 1, other rows from the top down |
| `GifPixels.EveryPixelOnce` | include/stb_image.h:6653-6688 | as many indices as the rectangle has pixels are drawn at every pixel exactly once, in the order in which the rows are visited |
| `GifPixels.WholePicture` | include/stb_image.h:6653-6688 | after them, every pixel shows the colour of its own index over what was there before |
| `Gif.Gif.SettleRow` | include/stb_image.h:6682-6686 | the loop over passes in byte positions is that in rows |
| `Gif.Gif.OutPixel` | include/stb_image.h:6663-6687 | a pixel is drawn and the pen moves as on values |
| `Gif.Gif.OutGifCode` | include/stb_image.h:6653-6688 | the recursion over prefixes ends and draws the string of the code |
| `Gif.Gif.InitTable` | include/stb_image.h:6706-6710 | the codes below the clear code stand for themselves |
| `Gif.Gif.AddEntry` | include/stb_image.h:6748-6756 | a new entry stands for the previous string and the first index of this code, also when it is this code |
| `Gif.Gif.DataCode` | include/stb_image.h:6743-6767 | a code that is no control code, as on strings |
| `Gif.Gif.TakeCode` | include/stb_image.h:6728-6770 | a code taken from the reservoir |
| `Gif.Gif.ProcessGifRaster` | include/stb_image.h:6690-6773 | draws exactly the indices of the string-table decoder, also up to bad data, ends on every input, and on success stands after the last block |
| `Gif.NextInput` | include/stb_image.h:6718-6726 | the next byte of a block enters the reservoir, or the blocks end |
| `Gif.SkipBlocks` | include/stb_image.h:6738-6742 | the rest of the blocks is skipped |
| `Gif.RasterRoundTrip` | include/stb_image.h:6690-6773 | indices that an encoder wrote come out, however the bytes are cut into blocks |
| `GifRoundTrip.DrawRaster` | include/stb_image.h:6690-6773 | an encoded raster of as many indices as the rectangle has pixels is accepted, and each pixel gets the colour of its own index |
| `JpegTable.Table.BuildSizes` | include/stb_image.h:2005-2012 | the list of sizes of Figure C.1 of T.81; fails exactly beyond 256 symbols |
| `JpegNumbers.SizesNumbers` | include/stb_image.h:2005-2012 | the list has as many entries of each length as BITS says |
| `JpegNumbers.SizesInOrder` | include/stb_image.h:2005-2012 | and the short ones first |
| `JpegTable.Table.BuildCodes` | include/stb_image.h:2014-2029 | codes, `delta` and `maxcode` of every length; fails exactly when the codes of a length do not fit |
| `JpegTable.Table.BuildFast` | include/stb_image.h:2031-2042 | a fast entry is the number of the symbol whose codeword begins the index, or 255 |
| `JpegTable.Table.Build` | include/stb_image.h:2001-2044 | `stbi__build_huffman` succeeds exactly for at most 256 symbols whose codes fit, and then the tables and codes are those of the canonical code |
| `JpegHuffman.BuiltIsGood` | include/stb_image.h:2001-2044 | what decoding relies on holds of all built tables |
| `JpegHuffman.DecodesExactly` | include/stb_image.h:2095-2144 | with 16 bits buffered the symbol whose codeword comes next is decoded, if and only if it is not number 255 with a codeword of at most nine bits |
| `JpegHuffman.DecodesNothing` | include/stb_image.h:2121-2129 | if no codeword comes next none is decoded and 16 bits are given up |
| `JpegHuffman.TablesDecodeExactly` | include/stb_image.h:2031-2042 | all codewords of a table are decoded if and only if it has at most 255 symbols or its last codeword is longer than nine bits |
| `JpegTable.MisreadAccepted` | include/stb_image.h:2001-2044 | one code of 8 bits and 255 of nine are accepted |
| `JpegTable.LastSymbolMisread` | include/stb_image.h:2102-2113 | its last codeword is then not decoded as its symbol |
| `JpegTable.LastSymbolAsserts` | include/stb_image.h:2134-2138 | in a build with assertions the assertion of the slow path fails there |
| `JpegAssertion.AssertionExactly` | include/stb_image.h:2134-2138 | the assertion fails exactly for a codeword of at most nine bits of symbol 255 with a zero behind it among the first ten bits |
| `JpegAssertion.AssertionUnreached` | include/stb_image.h:2121-2138 | if no codeword comes next it is not reached |
| `JpegAssertion.SilentMisread` | include/stb_image.h:2121-2144 | every table whose last symbol is misread is also misread without a failed assertion |
| `JpegFastAc.ExtendReceiveIs` | include/stb_image.h:2151-2164 | rotating, masking and adding the bias is RECEIVE and EXTEND of section F.2.2.1 of T.81 |
| `JpegNumbers.ExtendNumbers` | include/stb_image.h:2151-2164 | additional bits stand for -(2^n - 1) to -2^(n-1) and 2^(n-1) to 2^n - 1, in this order |
| `JpegFastAc.FastAcMade` | include/stb_image.h:2048-2071 | an entry is made exactly for a short code whose value follows within nine bits and fits a byte |
| `JpegFastAc.FastAcAgrees` | include/stb_image.h:2233-2257 | with 16 bits buffered a non-zero entry gives the run, value and length of the two separate steps |
| `JpegFastAc.FastAcOfBuilt` | include/stb_image.h:2233-2257 | for tables that `stbi__build_huffman` made, a non-zero entry stands for the symbol whose codeword comes next and the value behind it |
| `JpegFastAc.BuildFastAc` | include/stb_image.h:2048-2071 | the table holds the entry of every look-ahead |
| `RayWalk.Within` | src/GameScene.cpp:377-380 | between entering and leaving, the ray is within the cell's side |
| `RayWalk.RayNumbers` | src/GameScene.cpp:377-380 | the ray leaves the camera in its direction, and in time `len` goes as far as the direction says |
| `RayWalk.ExitNumbers` | src/GameScene.cpp:380-380 | `sideDist` is the time at which the ray reaches the far side of the cell |
| `RayWalk.CellStep` | src/GameScene.cpp:395-397 | the cell after a step is entered when the one before is left |
| `RayWalk.StepNumbers` | src/GameScene.cpp:395-397 | a step is made along every axis whose side is reached first, along several if at the same time, and along no other |
| `RayWalk.MaskMoves` | src/GameScene.cpp:395-397 | mask and step lead to that cell, whatever the mask holds for axes along which the ray does not move |
| `RayWalk.SidesMove` | src/GameScene.cpp:395-397 | `sideDist` stays the time of leaving on every axis along which the ray moves, and infinite or not a number on the others |
| `RayWalk.StillAxis` | src/GameScene.cpp:395-397 | in a level view a step makes `sideDist` of the vertical axis zero times infinity, not a number |
| `RayWalk.TestedCellsMeetTheRay` | src/GameScene.cpp:383-397 | every tested cell's closed cube meets the ray |
| `RayWalk.NoCrossedCellIsSkipped` | src/GameScene.cpp:383-397 | no cell whose interior the ray crosses up to the last test is left out |
| `RayWalk.NoCellTwice` | src/GameScene.cpp:383-397 | no cell is tested twice |
| `RayWalk.Picker.Dda` | src/GameScene.cpp:373-399 | for every direction, level views included, tests at most 100 cells in order, from that of the camera on, until one is not air; after a step, the cell in front of the hit face is the one tested before, hence air |

## Left out

- Zlib.DecodeMalloc: sizes are at most `UINT_MAX`, allocation succeeds, a call that would not come back returns with `stuck` set, and `outlen`, an `int` in the source, is an unbounded length here, so outputs of 2^31 bytes and more are not cut off.
- PngImage.CreatePngImageRaw: allocation and the 32-bit size tests of `stbi__mad3sizes_valid` succeed; 16-bit samples are stored for a little-endian machine; a row is chosen per filter inside the byte loop, where the source writes one loop per filter.
- JpegHuffman.DecodesExactly: needs 16 buffered bits, which `stbi__grow_buffer_unsafe` provides except right before a marker; there a symbol fails for which too few bits are left.
- JpegFastAc.FastAcAgrees: needs 16 buffered bits too; right before a marker the combined path may fail where the separate steps return zeros.
- RayWalk.Picker.Dda: reals are exact; float rounding and overflow are not modelled.
- MeshPipeline.UploadedMeshesAreGenuine: like all statements about every run, it is about more interleavings than the program has, because a call of the main thread is several steps here; a position is a chunk position by convention of the callers.
- World.ChunkCoord: integer floor division, which equals the float expression below 2^24 in magnitude.
- ThreadPool.FifoExactlyOnce: there is at least one worker, and no executed function throws.
- JPEG marker parsing, filling the bit buffer, IDCT, colour conversion, resampling and progressive scans.
- SIMD variants; BMP, TGA, PSD, PIC, HDR and PNM; format sniffing; PNG and GIF chunk parsing around the kernels; transparency and palette expansion; animated GIF disposal.
- Files, callbacks, error strings, allocation failure.
- The network client, OpenGL, shaders, ImGui, camera, shadow map, frustum test, entities and input.
