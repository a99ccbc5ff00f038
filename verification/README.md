# Verified models of UMKa's compression, imaging, disk and tool code

UMKa runs parts of KolibriOS as an ordinary program. This project models the
most intricate code it is built with, in Dafny, and proves what that code is
for:

- **lodepng**, the deflate compressor and decompressor: bit reader and writer,
  canonical Huffman codes and two-level decoding tables, the boundary
  package-merge algorithm with its node pool and garbage collector, LZ77
  matching over circular hash chains with lazy matching, stored, fixed and
  dynamic blocks, the zlib wrapper. `LodeCompress.DeflateThenInflate` and
  `LodeZlib.ZlibRoundTrip` are the round trips. `Bpm.HuffmanCodeLengths` gives
  codes of least cost under the length limit, and `LodeDynamic.MakeTrees` turns
  that into: no prefix codes of up to 15 bits give the block a shorter body.
- **em_inflate**, a second decompressor of a quite different make: a shifting
  bit reader in two widths, a fast table and a slow search, chunked copies.
  `EmInflate.CompressThenEmInflate` connects the two libraries.
- **lodepng's PNG scanlines**: filters and their unrolled in-place inverses,
  bit padding, Adam7 interlacing, and the staging of seven passes inside one
  buffer. `PngProcess.PlainRoundTrip` and `PngPasses.InterlacedRoundTrip` are
  the round trips.
- **lodepng's automatic colour mode**: exact statistics, a sixteen-way colour
  tree, bit packing, and the choice of a mode.
  `ColourConvert.AutoConvertRoundTrip` says it loses nothing and
  `ColourConvert.ChoiceLeast` exactly when no allowed mode would take fewer bits.
- **Adler-32 and CRC-32** in both libraries' forms, against their definitions.
- **The qcow2 reader** with its one-cluster buffer, over every run of reads.
- **optparse**, which reorders argv while it parses.
- **The XFS name hash** and the tools that make names which collide.

The streams themselves have one definition, `DeflateSpec`, written from RFC 1951
one bit at a time. It is wider than the RFC in two places, where it takes what
lodepng takes: a code of fewer than two symbols need not be complete, and a
dynamic block may announce up to 288 literal and length codes. Both
decompressors and the compressor are proved against it, so neither is the
measure of the other. Code that works step by step is modelled by methods and
loops on arrays and classes; each is tied by its `ensures` to a specification
function, and what the code promises is proved about those functions.

Some properties turned out not to hold for all inputs, and the models say when
they do:

- `LodeTrees.Inflate`: an empty stored block at the very end of the input is
  valid but refused (`LodeCompress.EmptyStoredBlock` is such a stream), which
  is why stored compression of nothing does not come back.
- `EmReader.Reader.Peek16`: with fewer than sixteen bits loaded and exactly one
  byte left to load, the reader counts a byte that is not there and loses its
  position, and only then (`EmReader.LostPosition` is such a call).
- `Qcow2.ReadRight`: the reader notes a cluster as buffered before it knows
  whether it will be, so the second read in a row of a hole delivers an older
  cluster (`Qcow2.StaleHole`); and a cluster without a host offset is read from
  the start of the file (`Qcow2.HeaderShows`).
- `Optparse.Exact`: an unknown letter that is not the first of its word leaves a
  count behind, by which the next option word is read too far on; the calls
  still reply as one pass over the words does if and only if `Optparse.Clean`
  holds of them: a word read with such a count left over must lead to another
  unknown letter, and up to there have the same letters as that much further on.
  `Optparse.LostOption` shows an option that is reported as an error, because
  the zero that ends its word is read in its place, and `Optparse.PastWord` a
  call that would read past its word; `Optparse.KnownClean` says that all is
  well when there are no unknown letters.
- `XfsHash.HashName`: char is signed, so the unrolled hash is the hash by
  character xor `Gap`, what its shifts lose of the sign bits; the two agree if
  and only if that is zero (`XfsHash.Agrees`), as it is when sign bits occur
  only at the ends of groups (`XfsHash.NothingLost`), and not for
  `XfsHash.SignedDiffers`.
- `ColourConvert.ChoiceLeast`: auto_choose_color is said to give the smallest
  mode, but does without palette or transparent colour when there are few
  pixels. For every image that has a pixel, the choice is least if and only if
  `Pays` holds of its statistics; `ColourConvert.TwoColours` and
  `ColourConvert.OneTransparent` are images for which it is not.
- `EmReader.Reader.GetBits`: asked for more bits than are left while a byte is
  still to be loaded, it does not fail but counts the missing bits as read, and
  only then (`EmReader.ShortRead`).
- `XfsNames.MakeNames`: the buffer has separators for four slots; the names made
  are all different if and only if four slots are enough, since the zero before
  a fifth slot ends the name.

Files follow the source: `wrappers`, `bits`, `words`, `huffman`, `deflate_spec`
and `deflate_encode` are shared; `lode_*`, `code_lengths`, `lz77*` and `bpm*`
model lodepng's compression, `em_*` em_inflate, `png_*` the scanlines,
`colour_*` the colour modes; `adler`, `crc`, `qcow2`, `optparse`, `xfs_hash` and
`xfs_names` speak for themselves. Integers are unbounded; where a width matters
it is written out (the 32-bit buffer of the bit reader, the sums of Adler-32,
the words of the CRC and the hash, the wrapped indices of em_inflate). Shifts
and masks are defined bit by bit in `Bits`. Nothing is assumed.

## Model

| member | source | states |
|---|---|---|
| `Huffman.CodeFits` | deps/lodepng/lodepng.c:786-820 | canonical codes whose Kraft sum is at most one never overflow their length |
| `Huffman.PrefixFree` | deps/lodepng/lodepng.c:786-820 | a bit string starts with the code of at most one symbol |
| `Huffman.Complete` | deps/lodepng/lodepng.c:786-820 | with a Kraft sum of exactly one, any fifteen bits start with some code |
| `DeflateSpec.CopyMatchPeriodic` | deps/lodepng/lodepng.c:1305-1320 | a copied match repeats the output with the period of its distance, also where it overlaps itself |
| `DeflateSpec.CopyMatchUnique` | deps/lodepng/lodepng.c:1305-1320 | any output of that length and period is the copied match |
| `LodeReader.BitReader.EnsureBits9` | deps/lodepng/lodepng.c:493-505 | the buffer holds at least 9 bits of the stream from the bit pointer on, zeros past the end |
| `LodeReader.BitReader.EnsureBits17` | deps/lodepng/lodepng.c:508-522 | the same for 17 bits |
| `LodeReader.BitReader.EnsureBits25` | deps/lodepng/lodepng.c:525-540 | the same for 25 bits |
| `LodeReader.BitReader.EnsureBits32` | deps/lodepng/lodepng.c:543-560 | the same for 32 bits, the fifth byte losing the bits that do not fit 32 |
| `LodeReader.BitReader.PeekBits` | deps/lodepng/lodepng.c:563-566 | the number made of the next n bits of the stream |
| `LodeReader.BitReader.AdvanceBits` | deps/lodepng/lodepng.c:569-572 | moves the bit pointer by n and keeps the buffer in step with the stream |
| `LodeReader.BitReader.ReadBits` | deps/lodepng/lodepng.c:575-579 | returns the next n bits of the stream and moves past them |
| `LodeTable.ReverseBits` | deps/lodepng/lodepng.c:582-587 | the number with its low bits in the opposite order |
| `LodeTable.ReverseTop` | deps/lodepng/lodepng.c:665-779 | the low bits of a reversed code are its high bits reversed, so that codes with a common beginning share a head entry |
| `LodeMakeTable.MakeTable` | deps/lodepng/lodepng.c:665-779 | whenever it succeeds every lookup agrees with the codes; it succeeds on all codes of which every pattern starts exactly one, and with fewer than two symbols |
| `LodeTree.MakeCodes` | deps/lodepng/lodepng.c:786-820 | the codes are the canonical ones: shorter first, equal lengths in symbol order, each the previous one plus one |
| `LodeTree.MakeFromLengths` | deps/lodepng/lodepng.c:827-836 | error 55 exactly when the lengths are neither complete nor those of fewer than two symbols; otherwise a tree whose table is right |
| `LodeTree.LookupDecodes` | deps/lodepng/lodepng.c:1074-1087 | the table lookup is prefix decoding, for every stream and position, unless it uses bits past the end |
| `LodeInflate.HuffmanDecodeSymbol` | deps/lodepng/lodepng.c:1074-1087 | returns the symbol of the lookup and moves by its length |
| `LodeInflate.NextSymbol` | deps/lodepng/lodepng.c:1074-1087 | decodes the symbol whose code comes next, or runs past the end or yields the invalid symbol exactly when there is none |
| `LodeInflate.CopyBack` | deps/lodepng/lodepng.c:1305-1320 | copying the part that does not overlap at once and the rest byte by byte gives the match of the format |
| `LodeInflate.InflateTokenLoop` | deps/lodepng/lodepng.c:1239-1345 | succeeds exactly when the format assigns the block body an output within the limit, and appends just that output |
| `LodeTrees.GenerateFixedLitLenTree` | deps/lodepng/lodepng.c:1038-1053 | never fails; the tree has the lengths section 3.2.6 of RFC 1951 gives |
| `LodeTrees.GenerateFixedDistanceTree` | deps/lodepng/lodepng.c:1056-1067 | never fails; thirty-two lengths of five bits |
| `LodeTrees.ReadClLengths` | deps/lodepng/lodepng.c:1138-1144 | reads the code length code lengths of the format, in their order |
| `LodeTrees.ReadAllLengths` | deps/lodepng/lodepng.c:1156-1217 | reads the lengths the format assigns, runs across the two alphabets included, and fails exactly when the format has none |
| `LodeTrees.GetTreeInflateDynamic` | deps/lodepng/lodepng.c:1105-1236 | succeeds exactly when the head of the dynamic block is valid, with the trees of the format |
| `LodeTrees.InflateHuffmanBlock` | deps/lodepng/lodepng.c:1239-1345 | succeeds exactly when the block is valid and its output within the limit, with the output of the format |
| `LodeTrees.InflateNoCompression` | deps/lodepng/lodepng.c:1347-1380 | a stored block is copied as the format says; it is refused exactly when invalid or when no byte follows its four length bytes |
| `LodeTrees.RefusedStored` | deps/lodepng/lodepng.c:1347-1380 | that last refusal concerns only empty blocks that end with the input |
| `LodeTrees.Inflate` | deps/lodepng/lodepng.c:1382-1406 | a stream is accepted if and only if it is valid, its output within the limit and its last block not an empty stored one at the end of the input; the output is that of the format |
| `LodeWriter.BitWriter.WriteBit` | deps/lodepng/lodepng.c:426-434 | appends one bit to the bits written so far |
| `LodeWriter.BitWriter.WriteBits` | deps/lodepng/lodepng.c:437-447 | appends the number, its least significant bit first |
| `LodeWriter.BitWriter.WriteBitsReversed` | deps/lodepng/lodepng.c:450-456 | appends the number, its most significant bit first |
| `LodeWriter.WrittenPadding` | deps/lodepng/lodepng.c:426-434 | the bytes are the written bits and fewer than eight zeros |
| `DeflateEncode.TokensDecode` | deps/lodepng/lodepng.c:1777-1799 | decoding the bits of any tokens and an end symbol, anywhere in a stream, expands the tokens |
| `CodeLengths.ClDecode` | deps/lodepng/lodepng.c:1156-1217 | decoding the bits of any run-length coding gives the lengths it stands for |
| `CodeLengths.RunLengthEncode` | deps/lodepng/lodepng.c:1905-1937 | the run-length entries decode to all lengths, and there are never more entries than lengths |
| `Lz77Hash.SlotDistinct` | deps/lodepng/lodepng.c:1616-1643 | positions less than a window apart lie in different slots of the circular tables |
| `Lz77Hash.Hash.constructor` | deps/lodepng/lodepng.c:1502-1525 | the tables start out empty and consistent |
| `Lz77Hash.Hash.UpdateHashChain` | deps/lodepng/lodepng.c:1569-1577 | entering the next position, or the last one again, keeps all chains inside the window and all zero counts true |
| `Lz77Hash.CountZeros` | deps/lodepng/lodepng.c:1558-1566 | the length of the zero run at a position, cut at 258 and at the end of the input |
| `Lz77Hash.NextZeros` | deps/lodepng/lodepng.c:1621-1627 | the running zero count always counts zeros that are there |
| `Lz77.LongestMatch` | deps/lodepng/lodepng.c:1631-1684 | a true match inside the window and the input, of at most 258 bytes; no position it tried along the chains has a longer one, and the first entry of the chain is tried |
| `Lz77.SearchCodeIndex` | deps/lodepng/lodepng.c:1447-1459 | the largest index whose entry is at most the value |
| `Lz77.AddLengthDistance` | deps/lodepng/lodepng.c:1461-1482 | the four numbers stand for exactly this length and distance |
| `Lz77.EmitChoice` | deps/lodepng/lodepng.c:1708-1731 | emits a literal or the match found, and what is emitted expands to the input up to the new position |
| `Lz77.EncodeRound` | deps/lodepng/lodepng.c:1615-1732 | one round with its lazy match keeps the emitted tokens and the tables consistent with the input, and makes progress |
| `Lz77.EncodeLZ77` | deps/lodepng/lodepng.c:1588-1735 | error 60 or 90 exactly for unusable window sizes, zero among them; otherwise the tokens expand to the input after what came before it, with distances below the window size |
| `BpmSort.MergePass` | deps/lodepng/lodepng.c:895-915 | one pass turns sorted pieces into sorted pieces twice as long, with the same leaves |
| `BpmSort.SortLeaves` | deps/lodepng/lodepng.c:895-915 | a stable sort of the leaves by weight |
| `BpmPool.SomeFree` | deps/lodepng/lodepng.c:866-892 | the chains the lists reach never fill the pool, so collecting always finds a free node |
| `BpmPool.Lists.Collect` | deps/lodepng/lodepng.c:869-884 | after collecting, free nodes are exactly places no chain reaches, and there is one |
| `BpmPool.Lists.Create` | deps/lodepng/lodepng.c:866-892 | the new node is reached by no chain and every chain stays as it was |
| `BpmPool.Lists.BoundaryPM` | deps/lodepng/lodepng.c:918-941 | on chains with shared nodes and garbage collection, the call does what it does on plain lists |
| `BpmSpec.BoundaryOk` | deps/lodepng/lodepng.c:918-941 | every call, with its recursive lookahead calls, keeps all lists consistent and adds one item |
| `BpmSpec.FinalChain` | deps/lodepng/lodepng.c:1003-1004 | after 2n-2 items the last list has taken all n leaves, in no more nodes than bits |
| `BpmSpec.FinalKraft` | deps/lodepng/lodepng.c:1003-1008 | the resulting lengths have a Kraft sum of exactly one |
| `BpmOptimal.ItemsSorted` | deps/lodepng/lodepng.c:918-941 | the items of each list, leaves and packages merged, come in order of weight |
| `BpmOptimal.Best` | deps/lodepng/lodepng.c:918-1019 | no choice of leaves, list by list, that takes as many items weighs less than the first items of the last list |
| `BpmCodes.CodeCost` | deps/lodepng/lodepng.c:918-1019 | no lengths within the limit whose Kraft sum is at most one cost less than the first 2n-2 items of the last list |
| `Bpm.CollectLeaves` | deps/lodepng/lodepng.c:956-962 | one leaf per symbol that occurs, in symbol order |
| `Bpm.RunLists` | deps/lodepng/lodepng.c:980-1004 | the whole run ends with a chain that covers all leaves and weighs what the lightest 2n-2 items of the last list weigh |
| `Bpm.WalkChain` | deps/lodepng/lodepng.c:1006-1008 | each leaf gets one bit for every node of the chain that counts it |
| `Bpm.AssignedCheapest` | deps/lodepng/lodepng.c:1003-1019 | the lengths read off a chain of that weight cost no more than any prefix code of the symbols within the limit |
| `Bpm.HuffmanCodeLengths` | deps/lodepng/lodepng.c:943-1019 | error 80 exactly for no symbols or too many for the limit; otherwise a complete code within the limit, in which a rarer symbol is never shorter, and which no other prefix code within the limit undercuts in total cost |
| `LodeFreq.MakeFromFrequencies` | deps/lodepng/lodepng.c:1022-1034 | never fails for the alphabets of deflate; every symbol that occurs has a code, trailing unused ones are dropped, and no prefix code within the limit is cheaper for these frequencies |
| `LodeFreq.CountSymbols` | deps/lodepng/lodepng.c:1872-1881 | the exact number of tokens with each literal, length and distance symbol, and one end symbol |
| `LodeFreq.CountClSymbols` | deps/lodepng/lodepng.c:1940-1945 | the exact number of entries with each code length symbol; the extra numbers are skipped |
| `LodeCost.EncodeLength` | deps/lodepng/lodepng.c:1777-1799 | the encoded tokens take the sum of frequency times code length, plus their extra bits |
| `LodeCost.CheapestBody` | deps/lodepng/lodepng.c:1872-1888 | codes of least cost for the counted frequencies give the shortest block body of all prefix codes of up to 15 bits |
| `LodeCost.CheapestCl` | deps/lodepng/lodepng.c:1940-1949 | a code of least cost for the counted entries sends the code lengths in the fewest bits of all prefix codes of up to 7 bits |
| `LodeBlocks.FixedDecodes` | deps/lodepng/lodepng.c:2024-2067 | a fixed block decodes to the expansion of its tokens, whatever follows |
| `LodeBlocks.DynamicDecodes` | deps/lodepng/lodepng.c:1802-2022 | a dynamic block with its three trees decodes to the expansion of its tokens, whatever follows |
| `LodeDeflate.WriteLZ77data` | deps/lodepng/lodepng.c:1777-1799 | writes the bits of all tokens |
| `LodeDeflate.DeflateFixed` | deps/lodepng/lodepng.c:2024-2067 | writes a block that decodes to the input range, given what came before; fails only with the errors of matching |
| `LodeDynamic.TrimCl` | deps/lodepng/lodepng.c:1952-1956 | drops only zero lengths, and leaves at least four |
| `LodeDynamic.MakeTrees` | deps/lodepng/lodepng.c:1884-1888 | both trees are good, have codes for all tokens and the end symbol, and no other prefix codes of up to 15 bits give a shorter body |
| `LodeDynamic.MakeClTree` | deps/lodepng/lodepng.c:1940-1949 | the third tree is good, of at most seven bits, with codes for all entries, and no other such code sends them in fewer bits |
| `LodeDynamic.WritePlan` | deps/lodepng/lodepng.c:1972-2005 | writes the head, the code lengths, the tokens and the end symbol of a dynamic block |
| `LodeDynamic.DeflateDynamic` | deps/lodepng/lodepng.c:1802-2022 | writes a block that decodes to the input range, given what came before, and whose three codes are the shortest for its tokens; fails only with the errors of matching |
| `LodeCompress.BlockRanges` | deps/lodepng/lodepng.c:2083-2098 | the blocks are full except the last and together cover the input |
| `LodeCompress.StoredDecodes` | deps/lodepng/lodepng.c:1739-1770 | a stored block at a byte boundary decodes to its bytes |
| `LodeCompress.DeflateNoCompression` | deps/lodepng/lodepng.c:1739-1770 | the stored blocks are a stream that decodes to the input; for an empty input there is none |
| `LodeCompress.DeflateBlocks` | deps/lodepng/lodepng.c:2088-2103 | all blocks together are a stream that decodes to the input; each covers its range of it, with the fixed codes or with the shortest codes for its tokens |
| `LodeCompress.Deflate` | deps/lodepng/lodepng.c:2069-2108 | error 61 for an unknown block type, otherwise those of matching; without error the bytes decode to the input, with every setting, and are the coded blocks and fewer than eight zeros |
| `LodeCompress.DeflateThenInflate` | deps/lodepng/lodepng.c:2069-2108 | inflating what was deflated returns the input, for every input and setting, except that stored blocks of an empty input are nothing and are refused |
| `LodeCompress.EmptyStoredBlock` | deps/lodepng/lodepng.c:1347-1380 | the five bytes of an empty stored block are a valid stream and fall under the refusal |
| `Adler.RunConcat` | deps/lodepng/lodepng.c:2138-2156 | the checksum of two pieces is the checksum of the second going on from the first |
| `Adler.UpdateAdler32` | deps/lodepng/lodepng.c:2138-2156 | reducing every 5552 bytes gives the Adler-32 of the data, without exceeding 32 bits |
| `Adler.Adler32Z` | deps/em_inflate/em_inflate.c:728-792 | the one-byte, short, unrolled and remaining cases all give the Adler-32 of the data, without exceeding 32 bits |
| `LodeZlib.ZlibCompress` | deps/lodepng/lodepng.c:2250-2285 | a header, a stream that decodes to the input, and the checksum of the input |
| `LodeZlib.ZlibDecompress` | deps/lodepng/lodepng.c:2169-2208 | accepts exactly data with a good header, an accepted stream and, unless told to ignore it, the right checksum |
| `LodeZlib.ZlibRoundTrip` | deps/lodepng/lodepng.c:2169-2285 | decompressing what was compressed returns the input, for every non-empty input and setting |
| `Crc.CrcConcat` | deps/lodepng/lodepng.c:2414-2421 | the CRC of two pieces is the CRC of the second going on from the first |
| `Crc.ByteStep` | deps/lodepng/lodepng.c:2414-2421 | eight bitwise steps are one shift and one table entry |
| `Crc.LodeCrc32` | deps/lodepng/lodepng.c:2414-2421 | the table method computes the CRC-32 defined bit by bit |
| `Crc.FourBytes` | deps/em_inflate/em_inflate.c:976-1006 | four bytes one after another are thirty-two steps on their word |
| `Crc.SliceStep` | deps/em_inflate/em_inflate.c:976-1006 | thirty-two steps on a word are four table entries |
| `Crc.SlicingCrc32` | deps/em_inflate/em_inflate.c:976-1006 | four bytes at a time and the rest one by one compute the CRC-32 of the data, going on from a previous one |
| `EmReader.Reader.Refill32` | deps/em_inflate/em_inflate.c:75-96 | refilling does not move the position, with a 64-bit or a 32-bit shifter |
| `EmReader.Reader.GetBits` | deps/em_inflate/em_inflate.c:106-125 | the next n bits of the data, least significant first, zeros past the end; -1 and no move exactly when there are fewer and nothing is left to load; the reader stays in step with the data if and only if there are that many bits or it returns -1 |
| `EmReader.ShortRead` | deps/em_inflate/em_inflate.c:106-125 | sixteen bits asked for of one byte give that byte and leave a bit count of -8 |
| `EmReader.Reader.Peek16` | deps/em_inflate/em_inflate.c:134-145 | the next 16 bits, zeros past the end; the position is kept if and only if it was not the case that fewer than 16 bits were loaded and exactly one byte was left to load |
| `EmReader.LostPosition` | deps/em_inflate/em_inflate.c:134-145 | on three bytes, one bit and then a look at sixteen leave the position at -7 instead of 1 |
| `EmReader.Reader.Consume` | deps/em_inflate/em_inflate.c:153-156 | moves the position by n bits |
| `EmReader.Reader.ByteAlign` | deps/em_inflate/em_inflate.c:163-175 | moves to the next byte boundary, giving back whole bytes loaded too early |
| `EmSort.PlaceOrder` | deps/em_inflate/em_inflate.c:206-242 | places follow lengths and, within a length, symbols |
| `EmSort.TableSorted` | deps/em_inflate/em_inflate.c:206-242 | the table lists the symbols that have a code in that order |
| `EmSort.PrepareTable` | deps/em_inflate/em_inflate.c:206-242 | fails exactly for lengths over 15 or too many symbols; otherwise the sorted table and where each length ends |
| `EmReverse.ReverseCode` | deps/em_inflate/em_inflate.c:283-288 | the five-step swap of a 16-bit word, shifted down, is the reversed code |
| `EmHuffman.FitKraft` | deps/em_inflate/em_inflate.c:252-311 | all codes fit their lengths if and only if the Kraft sum is at most one |
| `EmHuffman.FinalizeTable` | deps/em_inflate/em_inflate.c:252-311 | fails exactly for oversubscribed lengths; otherwise the fast table and the start indices decode the canonical code |
| `EmDecode.FastHit` | deps/em_inflate/em_inflate.c:323-329 | an entry of the fast table is the symbol that comes next, with its length and value |
| `EmDecode.FastMiss` | deps/em_inflate/em_inflate.c:323-329 | without an entry no code of up to ten bits comes next, so that the search finds longer ones only |
| `EmDecode.SlowHit` | deps/em_inflate/em_inflate.c:333-352 | when the search for longer codes stops, it has the symbol that comes next |
| `EmDecode.SlowMiss` | deps/em_inflate/em_inflate.c:333-352 | while it goes on, no code of the lengths tried comes next |
| `EmDecode.ReadValue` | deps/em_inflate/em_inflate.c:322-353 | by either way, the value of the symbol that comes next, or none if there is none, wherever sixteen bits are left and the look ahead keeps its position |
| `EmBlock.CopyInBuffer` | deps/em_inflate/em_inflate.c:656-682 | copying in chunks of sixteen bytes, or byte by byte when the distance is shorter, gives the match of the format and nothing past the buffer end |
| `EmBlock.LengthCodeParts` | deps/em_inflate/em_inflate.c:489-500 | base and extra bits of a length code come out of its packed word |
| `EmBlock.DistanceCodeParts` | deps/em_inflate/em_inflate.c:490-507 | base and extra bits of a distance code come out of its packed word |
| `EmBlock.BuildDecoder` | deps/em_inflate/em_inflate.c:206-311 | succeeds exactly for valid lengths that are not oversubscribed, with a decoder for their canonical code |
| `EmBlock.InflateSymbols` | deps/em_inflate/em_inflate.c:618-686 | a block body ends up in the buffer as the format says |
| `EmTables.ReadRawLengths` | deps/em_inflate/em_inflate.c:366-386 | reads the code length code lengths of the format |
| `EmTables.ReadVarLengths` | deps/em_inflate/em_inflate.c:400-449 | reads the code lengths of both alphabets as the format says |
| `EmTables.FixedDecoders` | deps/em_inflate/em_inflate.c:565-616 | decoders for the fixed codes |
| `EmTables.DynamicDecoders` | deps/em_inflate/em_inflate.c:528-564 | decoders for the codes that the head of a dynamic block describes |
| `EmTables.CopyStored` | deps/em_inflate/em_inflate.c:453-478 | a stored block ends up in the buffer as the format says |
| `EmTables.DecompressBlock` | deps/em_inflate/em_inflate.c:521-687 | a fixed or dynamic block ends up in the buffer as the format says |
| `EmInflate.InflateBlocks` | deps/em_inflate/em_inflate.c:1109-1147 | all blocks end up in the buffer, and the running checksum is that of the whole output |
| `EmInflate.Inflate` | deps/em_inflate/em_inflate.c:1025-1185 | the buffer holds what the format assigns to the stream and the result is its size, or -1 exactly when the checksum is wrong or the input too short |
| `EmInflate.CompressThenEmInflate` | deps/em_inflate/em_inflate.c:1025-1185 | em_inflate turns every stream lodepng_zlib_compress makes of a non-empty input back into that input, with every compression setting and both reader widths |
| `PngFilter.PaethSame` | deps/lodepng/lodepng.c:3972-3979 | the predictor is the one of section 9.4 of the PNG specification |
| `PngFilter.PaethEdges` | deps/lodepng/lodepng.c:4172-4224 | at the left and upper edges it is the neighbour that exists |
| `PngFilter.FilterInverse` | deps/lodepng/lodepng.c:5497-5539 | unfiltering undoes filtering, for all five types, all lines and all pixel widths |
| `PngFilter.UnfilteredUnique` | deps/lodepng/lodepng.c:4099-4227 | only one line satisfies the reconstruction rule |
| `PngFilter.UnfilterGroup` | deps/lodepng/lodepng.c:4133-4208 | a round of an unrolled loop, which reads before it writes, is byte-by-byte reconstruction in the same memory |
| `PngFilter.UnfilterSmooth` | deps/lodepng/lodepng.c:4128-4224 | average and Paeth lines, unrolled or not, are reconstructed in place |
| `PngFilter.UnfilterScanline` | deps/lodepng/lodepng.c:4099-4227 | error 36 exactly for an unknown type; otherwise the reconstructed line, and nothing else changes, even when source and target overlap |
| `PngImage.ImageInverse` | deps/lodepng/lodepng.c:4229-4257 | reconstructing a filtered image returns it, whatever types were chosen |
| `PngImage.Unfilter` | deps/lodepng/lodepng.c:4229-4257 | in place or not: error 36 exactly if a line has an unknown type, otherwise the reconstructed image |
| `PngChoose.FilterScanline` | deps/lodepng/lodepng.c:5497-5539 | the filtered line; an unknown type changes nothing |
| `PngChoose.Ilog2` | deps/lodepng/lodepng.c:5542-5550 | the whole part of the binary logarithm of a 32-bit number |
| `PngChoose.EntropyOfLine` | deps/lodepng/lodepng.c:5552-5560 | the sum of n log n over the byte counts of the line and its type |
| `PngChoose.ChooseType` | deps/lodepng/lodepng.c:5542-5745 | the given type for fixed and predefined strategies; otherwise the first type of least score, the score being the sum of differences, the negated entropy sum of the byte counts, or the size of the line compressed into fixed blocks |
| `PngChoose.Filter` | deps/lodepng/lodepng.c:5562-5754 | every line is filtered with the type written before it; error 88 for an unknown strategy |
| `PngBits.PutBit` | deps/lodepng/lodepng.c:2452-2457 | changes one bit of the memory |
| `PngBits.AddPaddingBits` | deps/lodepng/lodepng.c:5756-5773 | each line begins with the bits of its unpadded line and goes on with zeros |
| `PngBits.RemovePaddingBits` | deps/lodepng/lodepng.c:4310-4332 | moves the lines together, also within one memory |
| `PngAdam7.PassPixel` | deps/lodepng/lodepng.c:3983-4026 | every pixel of a pass is a pixel of the image and belongs to no other pass or place |
| `PngAdam7.ImagePixel` | deps/lodepng/lodepng.c:3983-4026 | every pixel of the image is in exactly one pass |
| `PngAdam7.RawSizeIs` | deps/lodepng/lodepng.c:2803-2808 | the overflow-avoiding formula gives one byte and the padded line, per line |
| `PngAdam7.ExpectedSize` | deps/lodepng/lodepng.c:4996-5010 | the predicted size of an interlaced image is the size of all filtered passes |
| `PngInterlace.InImageApart` | deps/lodepng/lodepng.c:4270-4308 | different pixels occupy different bits of the image |
| `PngInterlace.InPassApart` | deps/lodepng/lodepng.c:4270-4308 | different pixels occupy different bits of the passes |
| `PngInterlace.MovePixels` | deps/lodepng/lodepng.c:5786-5823 | every pixel is moved to its place in the passes, or back, bit by bit or byte by byte |
| `PngInterlace.ThereAndBack` | deps/lodepng/lodepng.c:5786-5823 | interlacing and then deinterlacing keeps every bit of the image |
| `PngProcess.StartOrder` | deps/lodepng/lodepng.c:4003-4026 | packed passes never start behind padded ones, nor these behind filtered ones |
| `PngProcess.PrePlain` | deps/lodepng/lodepng.c:5838-5858 | the scanlines are those of the image, padded and filtered |
| `PngProcess.PostPlain` | deps/lodepng/lodepng.c:4349-4355 | error 36 exactly for an unknown type; otherwise the image without padding, all in one memory |
| `PngProcess.PlainRoundTrip` | deps/lodepng/lodepng.c:5827-5898 | pre-processing and post-processing without interlacing keep every bit of the image |
| `PngPasses.PreInterlaced` | deps/lodepng/lodepng.c:5858-5895 | every pass holds the filtered lines of its pixels; error 88 for an unknown strategy |
| `PngPasses.UnfilterPass` | deps/lodepng/lodepng.c:4362-4372 | unfiltering and packing one pass in the shared buffer leaves the passes done and those to come intact |
| `PngPasses.PassDone` | deps/lodepng/lodepng.c:4362-4372 | what the two steps of a pass must leave behind for the next pass |
| `PngPasses.PostInterlaced` | deps/lodepng/lodepng.c:4356-4375 | error 36 exactly if some pass has an unknown type; otherwise the deinterlaced image |
| `PngPasses.InterlacedRoundTrip` | deps/lodepng/lodepng.c:5827-5898 | pre-processing and post-processing with interlacing keep every bit of the image |
| `ColourTree.PathInjective` | deps/lodepng/lodepng.c:3129-3162 | different colours take different paths through the sixteen-way tree |
| `ColourTree.Tree.Get` | deps/lodepng/lodepng.c:3129-3137 | the number stored for the colour, or -1 |
| `ColourTree.Tree.Add` | deps/lodepng/lodepng.c:3148-3162 | stores the number for the colour and changes what no other colour finds |
| `ColourStats.ComputeColorStats` | deps/lodepng/lodepng.c:3690-3871 | coloured iff some pixel is not grey, alpha iff no key would do, key iff one would and is needed, the least bits that suffice, the number of colours up to 257, and a palette of just these colours |
| `ColourStats.CheckKey` | deps/lodepng/lodepng.c:3849-3860 | a key that an opaque pixel shares is given up for alpha; one that none shares stays, and nothing changes |
| `ColourPack.AddColorBits` | deps/lodepng/lodepng.c:3090-3098 | the packed bytes hold the values so far and the new one |
| `ColourPack.ReadBits` | deps/lodepng/lodepng.c:2442-2450 | the number made of the bits at the running position, most significant first, and the position after them |
| `ColourPack.ReadPacked` | deps/lodepng/lodepng.c:3090-3098 | reading returns what was packed |
| `ColourConvert.AutoChooseColor` | deps/lodepng/lodepng.c:3900-3963 | exactly when a palette, alpha or grey is chosen, and with which bits, key and colours |
| `ColourConvert.ChoiceSuits` | deps/lodepng/lodepng.c:3900-3963 | whatever is chosen can represent every pixel of the image |
| `ColourConvert.ChoiceLeast` | deps/lodepng/lodepng.c:3893-3963 | no mode that the settings allow and that can represent the image has fewer bits per pixel, if and only if the palette or key that was not used for lack of pixels would not have been smaller |
| `ColourConvert.TwoColours` | deps/lodepng/lodepng.c:3925-3932 | two pixels of two colours get 24 bits although a palette would take one |
| `ColourConvert.OneTransparent` | deps/lodepng/lodepng.c:3916-3920 | one transparent pixel gets grey and alpha although one bit of grey with a key would do |
| `ColourConvert.ScaleBack` | deps/lodepng/lodepng.c:3326-3372 | a grey value that needs no more bits comes back from its most significant ones |
| `ColourConvert.KeyScaled` | deps/lodepng/lodepng.c:3951-3957 | the cut-off key is the stored form of the key colour |
| `ColourConvert.PaletteTree` | deps/lodepng/lodepng.c:3540-3566 | the tree finds exactly the palette, each colour at an index that holds it |
| `ColourConvert.FindIndices` | deps/lodepng/lodepng.c:3165-3216 | error 82 exactly if a colour is not in the palette; otherwise each pixel is the palette entry at its index |
| `ColourConvert.ConvertFrom` | deps/lodepng/lodepng.c:3522-3594 | error 82 exactly if a colour is not in the palette; otherwise the bytes hold every pixel as the mode squeezes it, and represent the image if the mode suits it |
| `ColourConvert.SuitsExactly` | deps/lodepng/lodepng.c:3522-3594 | a mode suits an image if and only if squeezing changes none of its pixels and its palette has them all |
| `ColourConvert.ReadSmall` | deps/lodepng/lodepng.c:3326-3419 | reading bit by bit at a running position gives every pixel of modes below eight bits, with the key applied; palette indices that do not exist give black |
| `ColourConvert.ApplyKey` | deps/lodepng/lodepng.c:3326-3419 | the second pass over the pixels makes exactly those of the key colour transparent |
| `ColourConvert.ConvertBack` | deps/lodepng/lodepng.c:3326-3419 | whole bytes or bits, with or without a second pass for the key, give the pixel that the mode stores at each place |
| `ColourConvert.AutoConvertRoundTrip` | deps/lodepng/lodepng.c:3522-3594 | converting any 8-bit RGBA image to the mode chosen for it and back is the identity |
| `Qcow2.Be64Value` | vdisk/qcow2.c:84-91 | the sum of shifted bytes is the big-endian number |
| `Qcow2.LoadL1` | vdisk/qcow2.c:323-333 | the first-level table as big-endian numbers |
| `Qcow2.SectorInside` | vdisk/qcow2.c:94-109 | every byte of a sector lies in the cluster and at the offset that the sector mask computes |
| `Qcow2.HitKeeps` | vdisk/qcow2.c:104-110 | reading the same cluster again would not change the buffer |
| `Qcow2.NoSentinel` | vdisk/qcow2.c:215-216 | no cluster of the disk has the number that marks the empty buffer |
| `Qcow2.Disk.Walk` | vdisk/qcow2.c:94-138 | the two table lookups find the place the format gives the cluster |
| `Qcow2.Disk.ReadGuestSector` | vdisk/qcow2.c:94-156 | over every run of reads, what is delivered, the buffer and the remembered cluster depend on the run in a stated way, error paths and short reads included |
| `Qcow2.Disk.Read` | vdisk/qcow2.c:173-183 | a read of several sectors delivers the single reads one after another |
| `Qcow2.ReadRight` | vdisk/qcow2.c:94-156 | a read delivers the guest bytes of the format if and only if its cluster has a host offset, or is a hole not read just before, or zeros happen to stand in the buffer or at the start of the file |
| `Qcow2.DataRight` | vdisk/qcow2.c:94-156 | on clusters with a host offset every read is right, whatever was read before |
| `Qcow2.ReadData` | vdisk/qcow2.c:173-183 | a read of sectors with host offsets delivers one stretch of guest bytes |
| `Qcow2.StaleHole` | vdisk/qcow2.c:104-129 | in a concrete image, the second of two reads of a hole delivers the bytes of an earlier cluster |
| `Qcow2.HeaderShows` | vdisk/qcow2.c:125-145 | in a concrete image, the first read of a cluster without a host offset delivers the start of the file |
| `Optparse.TypeKnown` | deps/optparse/optparse.h:181-192 | exactly the letters of the option string are options |
| `Optparse.ArgType` | deps/optparse/optparse.h:181-192 | the argument type the option string gives the letter |
| `Optparse.Parser.constructor` | deps/optparse/optparse.h:142-150 | parsing starts after the program name, if there is one |
| `Optparse.Parser.Permute` | deps/optparse/optparse.h:171-178 | moves one word behind the words up to optind and keeps the order of all others |
| `Optparse.Parser.Next` | deps/optparse/optparse.h:196-264 | the recursive call with its permutations replies as one look at the next option word does, and moves just the words used up in front of those skipped |
| `Optparse.Parser.Take` | deps/optparse/optparse.h:217-263 | the reply, argument, optind and subopt for one option letter |
| `Optparse.Parser.Arg` | deps/optparse/optparse.h:268-275 | returns the next word and steps over it |
| `Optparse.Exact` | deps/optparse/optparse.h:196-264 | the run of calls is one pass over the words in their original order if and only if the words are clean: where an unknown letter left a count behind, each later option word has the same letter at both places until the next |
| `Optparse.KnownClean` | deps/optparse/optparse.h:196-264 | words without unknown letters are clean |
| `Optparse.Parser.All` | deps/optparse/optparse.h:196-264 | the loop of calls carries out the run: its replies, the words each used up, the option words in order and then the other words in order |
| `Optparse.ScanKeeps` | deps/optparse/optparse.h:196-264 | no word is lost, added or changed |
| `Optparse.LostOption` | deps/optparse/optparse.h:225-230 | an unknown letter later in its word leaves subopt behind, and of the next option word the terminating zero is read and reported as an error |
| `Optparse.PastWord` | deps/optparse/optparse.h:217-230 | with two letters before the unknown one, the next option word is read past its end |
| `Optparse.Repeated` | deps/optparse/optparse.h:225-230 | an argv that is clean although an unknown letter leaves a count behind and the next word starts with a known letter |
| `XfsHash.HashName` | tools/gensamehash.c:28-52 | four characters at a time computes the hash defined one character at a time, xor what the shifts lose of sign bits |
| `XfsHash.Agrees` | tools/gensamehash.c:28-52 | the two hashes agree if and only if the losses cancel to zero |
| `XfsHash.NothingLost` | tools/gensamehash.c:28-52 | nothing is lost when sign bits occur only in the last character of a group, so for all 7-bit names |
| `XfsHash.GapOfSigns` | tools/gensamehash.c:28-52 | the loss depends on where the sign bits are and on nothing else |
| `XfsHash.SignedDiffers` | tools/gensamehash.c:28-52 | with the sign bit set in the first of two characters the two differ |
| `XfsHash.FoldTurn` | tools/gensamehash.c:28-52 | the hash of a name is the turned hash of its beginning, xor the hash of the rest |
| `XfsHash.Exchange` | tools/mksamehash.c:431-449 | a piece may be exchanged for one of equal length and hash anywhere in a name without changing the hash |
| `XfsNames.NamesDistinct` | tools/mksamehash.c:431-449 | all names that can be made are different |
| `XfsNames.NamesHash` | tools/mksamehash.c:431-449 | all names that can be made have one hash |
| `XfsNames.NamesCount` | tools/mksamehash.c:472-476 | k slots give exactly as many names as the number of pieces to the power k |
| `XfsNames.NamesCut` | tools/mksamehash.c:431-470 | as a C string, what the buffer holds is a name of its first four slots at most |
| `XfsNames.Maker.Iterate` | tools/mksamehash.c:431-449 | the nested loops over one buffer make the names in order, as C strings, as many as are left to make |
| `XfsNames.CountSlots` | tools/mksamehash.c:472-475 | the least number of slots that gives enough names |
| `XfsNames.MakeNames` | tools/mksamehash.c:451-480 | exactly the requested number of names, all with one hash by both ways of hashing; they are pairwise different if and only if there are at most 1000 to the fourth |
| `XfsNames.FollowingValue` | tools/gensamehash.c:57-74 | the next row of digits writes the next number, and the last row wraps to zero |
| `XfsNames.Increment` | tools/gensamehash.c:57-74 | the buffer becomes the next row of digits |

## Left out

- Allocation failure (error 83), vector growth and custom zlib, deflate and inflate hooks: they would only add error returns.
- PNG chunks, metadata, text, ICC profiles and file access in lodepng: easy members around the code modelled here.
- Colour modes of 16 bits, conversion between other pairs of modes, and images that arrive with a palette.
- The gzip wrapper of em_inflate; its CRC is modelled, its header is not.
- Invalid or truncated streams in em_inflate, such as blocks that use the symbols 286 and 287 or the distances 30 and 31, which it takes with base value zero: EmInflate.Inflate, EmInflate.InflateBlocks and the methods of EmTables and EmBlock ask for a valid stream with four more bytes behind it, as a zlib stream has, so that its reader never loses its position.
- The literal CRC tables and the literal table of name pieces: they are parameters that must satisfy their definition.
- shell, umkaio, threads, network and the emulated kernel itself: wrappers around system calls and assembler.
- Reading and checking the qcow2 header; bits that choose sizes are parameters, and sectors are no larger than clusters, since otherwise the reader's sector mask addresses memory outside its buffer.
- Decompression of packed qcow2 clusters: the call passes its buffers in the wrong order, so the model only says that the cluster buffer stays as it was.
- File reads of qcow2 that fail for other reasons than the end of the file; the image size is taken to be a multiple of eight.
- Long options and error messages of optparse.
- Bpm.HuffmanCodeLengths: an alphabet of one symbol, for which the source writes a length outside its array, limits over 15 bits, for which the codes of this model have no room, and the cut of weights to 31 bits are not modelled; deflate asks for none of them.
- LodeFreq.MakeFromFrequencies: only for the alphabet sizes of deflate.
- Lz77.LongestMatch: that none of the positions tried has a longer match is stated, but not how far along the chain it tries, apart from its first entry; chain length and nice length are limits of speed.
- LodeTrees.Inflate: the setting ignore_nlen is not modelled.
- LodeTrees.InflateNoCompression: the setting ignore_nlen is not modelled.
- LodeMakeTable.MakeTable: for arbitrary codes success is not characterized in both directions; for the canonical codes it is used with, LodeTree.MakeFromLengths does.
- LodeCompress.Deflate: starts with an empty output vector, and for fixed blocks asks for a non-empty input, because the source then divides by its size.
- EmInflate.Inflate: not for gzip streams.
- PngChoose.ChooseType: the brute-force score is the size of a stream of fixed blocks for the line, as LodeCompress.Deflate promises it; which matches it uses is left open.
- PngChoose.EntropyOfLine: for lines of fewer than 2^32 - 1 bytes, where its counts do not wrap around.
- PngChoose.Filter: predefined types over four are not modelled; the source then leaves the line as the allocator gave it. The setting filter_palette_zero is the strategy Fixed(0).
- Optparse.Parser.Next: asks that the letter to read is one of the word or the zero that ends it; further on the source reads outside the word, as PastWord shows can happen.
- Optparse.Parser.All: asks the same of each of its calls.
- XfsNames.MakeNames: for up to 1000 to the sixth names, beyond which the source's product wraps around; creating the directories is modelled as listing their names, and the source stops at the first that exists already.
- XfsNames.Increment: for buffers that hold digits only, as its callers provide.
