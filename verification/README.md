# Verified models of the codec, the workset, the dumper and the numerics

A Dafny project that models the parts of the repository with the most state
and arithmetic and proves what they are relied on for. `dafny verify
dfyconfig.toml` checks all of it.

The PNG codec in `externals/lodepng` is modelled from bits to images:

- `Bits`, `HuffmanCodes`, `HuffmanTree`, `CompleteCodes`: the bit streams, the
  canonical codes as lodepng numbers them, the flat decoding tree, and why a
  complete code decodes exactly what was encoded.
- `Chains`, `ChainLengths`, `NodePool`, `PackageMerge`: boundary package-merge on
  chains, the code its last chain stands for, and the algorithm as written, on a
  node pool with its own garbage collection.
- `MergedItems`, `OptimalChains`, `OptimalCodes`: why no prefix code within the
  length limit is cheaper than the one it finds.
- `RunLengths`, `Lz77Codes`: the coding of code lengths, and of lengths and distances.
- `HashChains`, `Matches`, `MatchSearch`, `Lz77Steps`, `Lz77`: circular lists of
  positions, which matches a search has to find in them, why it passes over none,
  which codes follow from what it finds, and the encoder that does all this with
  zero streaks and lazy matching.
- `Inflate`, `InflateErrors`, `Inflater`: what decompression returns for any bytes,
  as functions, which error each malformed stream gets, and the decompressor with
  its bit pointer and output buffer.
- `BlockCodes`, `DynamicHeader`, `BlockWriter`, `Frequencies`, `DeflateBlocks`,
  `BlockContents`, `StoredBlocks`, `Deflate`: the compressor, block by block, what it
  puts into each block, and the round trip.
- `Adler32`, `Zlib`: the container.
- `Scanlines`, `RowFilters`, `RowUnfilters`, `PixelBits`, `Adam7`, `Interlacing`,
  `InterlaceBuffers`, `PassAssembly`: filters, padding and interlacing, in place.
- `ImageSizes`, `EncoderSizes`: what decoder and encoder compute in 32 bits.
- `ImageData`, `PostProcess`, `Png`: both halves of the codec, and the pixels from
  one end to the other.

Beside it stand the reader/writer lock as a machine of atomic steps (`RwLock`),
the broadcast buffer (`WorksetModel`, `Workset`), both of them together in any
number of threads (`SharedWorkset`), the record log (`ByteOrder`, `DumperLog`,
`Dumper`), the random number generators (`TwisterWords`, `MersenneTwister`, `Ran2`)
and the matrix product (`Winograd`, `Matrix`). `Sequences`, `Unsigned32` and
`Wrappers` hold what they share.

Code that changes state in the source is a class or a method with loops here.
Each is proved against a function or a predicate on values, about which the
lemmas then speak. Bytes and bits are subset types of the integers. A `hide`
statement keeps the definitions a proof does not need away from the solver.

Where the code and its documentation differ the model follows the code:

- The decompressor reports an undecodable distance code as error 18, because the
  test behind it looks at the length code; the comments promise 10 or 11. Error
  10 is never given at all.
- The decoder promises images of up to 2^31-1 bytes. It accepts them, but both
  sides compute sizes from the bits of the image in 32 bits, so that images of
  2^32 bits and more do not come back. For accepted images both arrive at the same
  wrapped size, so that this encoder's data is never refused with error 91. `Png`
  says exactly which images come back, and for all others whether an error is
  given or a size has wrapped around.
- Decompression refuses a stored block of no bytes at the end of the input, which the
  standard allows. The compressor never writes one, but it writes nothing at all
  for no data in stored blocks, which is refused too.
- Stored blocks are written with a 32-bit position, so that behind the first 2^32
  bytes the data is stored again from its start. `StoredBlocks` says exactly which
  data survives this; `Deflate` and `Zlib` say that nothing else is ever lost.
- `reader_lock` never loads the lock again, so readers can keep each other out.

The preconditions are those the source needs: a block of type 1 needs data (its
block size would be zero), literals without LZ77 are copied to the right place
only in the first block, the inner dimension of a product is at least 2 (two
elements of each row are read unconditionally), the result of a product is
neither operand, a record is shorter than 65536 bytes and fits in a volume, and
the ran2 seed, without its sign, lies below both moduli.

## Model

| member | source | states |
|---|---|---|
| Png.PlainRoundTrip | externals/lodepng/lodepng.cpp:5453-5477 | encoding and then decoding, for every width and height of 32 bits, any filter choice per row and any compressor settings: error 61, a size that has wrapped around in the encoder, the error of the compressor, error 92, a size that has wrapped around in the decoder, or the same pixels, each under its own exact condition and in this order; never error 91 |
| Png.InterlacedRoundTrip | externals/lodepng/lodepng.cpp:5478-5524 | the same for Adam7 images: the encoder's sizes are right if and only if all extents, starts and pixel places of the passes, as it computes them in words, are the true ones |
| Png.PixelsComeBackIff | externals/lodepng/lodepng.cpp:4475-4481 | the outcome of a round trip is the image if and only if the decoder's guard accepts the number of pixels and w * h * bpp + 7 is below 2^32; an accepted image that does not come back has met a wrapped size |
| Png.DecodePlain | externals/lodepng/lodepng.cpp:4472-4647 | what decoding any data comes to: error 92, the error of the decompression, 91, 36 for an unknown filter type, a wrapped size, or the unfiltered rows without their padding |
| Png.DecodeInterlaced | externals/lodepng/lodepng.cpp:4472-4647 | the same for seven passes and any data: 36 exactly if some row of some pass has an unknown type, else the pixels of the one image that the passes show |
| Png.TooManyPixels | externals/lodepng/lodepng.cpp:4475-4481 | 20000 by 20000 pixels of one bit are refused although their size would fit |
| Png.AcceptedButTooLarge | externals/lodepng/lodepng.cpp:4639-4644 | 8192 by 8192 pixels of 64 bits are accepted although the size of the buffer for them has wrapped around to 0 |
| Png.PredictionIsRight | externals/lodepng/lodepng.cpp:4608-4633 | the prediction is the true size exactly when the bits of each row, or of the rows of each pass, can be counted in 32 bits |
| Png.TrueDataRefused | externals/lodepng/lodepng.cpp:4608-4633 | error 91 for the true data of an accepted image, as another encoder would write it, exactly when its rows cannot be counted |
| Png.EncodedDataFits | externals/lodepng/lodepng.cpp:5453 | what this encoder writes for an accepted image has the predicted size if the encoder's sizes are right, and is shorter than 2^32 bytes |
| Png.NoErrorForWrappedRow | externals/lodepng/lodepng.cpp:4608-4633 | one row of 67108864 pixels of 64 bits: encoder and decoder agree on one byte, so that there is no error 91, only a wrapped size |
| Png.WrappedBeforeGuard | externals/lodepng/lodepng.cpp:5453-5454 | 65536 by 65536 pixels of 8 bits: the encoder's buffer has 65536 bytes for 65536 rows, before the decoder could give error 92 |
| Png.EncoderSizesFit | externals/lodepng/lodepng.cpp:5453-5521 | for images that fit, no size the encoder computes wraps around |
| Deflate.DeflateV | externals/lodepng/lodepng.cpp:1996-2035 | for every input, block type and legal window, whatever bytes follow the output, decompression returns what was kept of the input: all of it in blocks of types 1 and 2, the stored bytes in blocks of type 0; the exact error codes |
| Deflate.CompressAndDecompress | externals/lodepng/lodepng.cpp:1228-1256 | running the compressor and then the decompressor gives the input back if and only if the blocks are of types 1 and 2 or the input survives stored blocks; no data in stored blocks is error 52 |
| Deflate.KeptIsData | externals/lodepng/lodepng.cpp:1996-2035 | what is kept is the input if and only if it is compressed or survives stored blocks |
| Zlib.ZlibCompress | externals/lodepng/lodepng.cpp:2167-2206 | the zlib decompressor gives the data back, with or without checksum, if and only if deflate keeps it; otherwise it returns what was kept, or error 58 if the checksum differs; the output is the header for a 32768-byte window, the compressed stream and the checksum |
| Zlib.LossGoesUnnoticed | externals/lodepng/lodepng.cpp:2167-2206 | at 2^32 + 1 bytes in stored blocks the last byte is lost and the checksum, whose length has 32 bits, does not notice |
| PackageMerge.HuffmanCodeLengths | externals/lodepng/lodepng.cpp:764-851 | error 80 exactly when the code cannot fit; else the cheapest code within the limit: no other prefix code needs fewer bits for these frequencies; Kraft sum exactly 1, present symbols have lengths, absent ones none with two or more present, the exact code with fewer, and rarer symbols never have the shorter code |
| Lz77.EncodeLZ77 | externals/lodepng/lodepng.cpp:1453-1628 | expanding the codes after the data before the block gives exactly the block, with lengths 3..258 and distances inside the window; and the codes are those that the search demands: they split into literals, deferred bytes and pairs, each with the match found at its position for a reason (`Lz77Steps.ReasonForStep`); errors 60 and 90 exactly for bad windows, 81 and 86 never; it terminates although lazy matching steps back |
| Bits.BitStream.AddBit | externals/lodepng/lodepng.cpp:413-420 | appends one bit to the bits written so far |
| Bits.BitStream.AddBits | externals/lodepng/lodepng.cpp:422-426 | appends the low bits of a value, least significant first |
| Bits.BitStream.AddBitsReversed | externals/lodepng/lodepng.cpp:428-432 | appends the low bits of a value, most significant first |
| Bits.BitStream.Written | externals/lodepng/lodepng.cpp:413-432 | the bits appended lie at the start of the byte buffer |
| Bits.ReadBitsFromStream | externals/lodepng/lodepng.cpp:446-455 | the number read and the bit pointer behind it |
| Bits.ReadBitsIsPart | externals/lodepng/lodepng.cpp:437-455 | what is read is the part between the two bit positions of the number that all the bytes make, the first byte being the least significant |
| Bits.StreamBitIsDigit | externals/lodepng/lodepng.cpp:437-444 | the bits of the stream are the binary digits of that number |
| Bits.ReadBitsInverse | externals/lodepng/lodepng.cpp:422-455 | reading undoes writing, at any bit position |
| Bits.AtPrefix | externals/lodepng/lodepng.cpp:413-432 | bits that are there stay there whatever is appended |
| HuffmanCodes.CodewordsPrefixFree | externals/lodepng/lodepng.cpp:603-641 | no code word of a code that is not oversubscribed is the beginning of another |
| HuffmanCodes.ConsecutiveCodes | externals/lodepng/lodepng.cpp:603-641 | codes of one length are consecutive numbers in symbol order, the first rule of RFC 1951 section 3.2.2 |
| HuffmanCodes.ShorterCodesFirst | externals/lodepng/lodepng.cpp:603-641 | shorter codes precede longer ones in lexicographic order, the second rule |
| HuffmanCodes.FirstCodeIsZero | externals/lodepng/lodepng.cpp:603-641 | the first code of the shortest length consists of zeros |
| HuffmanCodes.NextCodeOffset | externals/lodepng/lodepng.cpp:622-633 | counting absent symbols shifts the codes of one length by a multiple of 2^length |
| HuffmanCodes.OffsetInvisible | externals/lodepng/lodepng.cpp:622-633 | such a shift is invisible in the bits that are written |
| HuffmanCodes.CodeTableIsCanonical | externals/lodepng/lodepng.cpp:603-641 | the written bits of the generated codes are the canonical codes of RFC 1951 section 3.2.2 |
| HuffmanCodes.NextCodeBounded | externals/lodepng/lodepng.cpp:624-633 | how large the generated codes can become |
| HuffmanCodes.CountLengths | externals/lodepng/lodepng.cpp:622-623 | counts the symbols of each length, absent ones included |
| HuffmanCodes.MakeNextCodes | externals/lodepng/lodepng.cpp:624-628 | the first code of each length |
| HuffmanCodes.MakeCodes | externals/lodepng/lodepng.cpp:603-641 | fills the code table |
| HuffmanTree.Make2DTree | externals/lodepng/lodepng.cpp:538-596 | the flat tree, or error 55, that inserting the canonical code words gives |
| HuffmanTree.InsertSymbol | externals/lodepng/lodepng.cpp:564-587 | inserting one code word bit by bit |
| HuffmanTree.CompleteNodesFit | externals/lodepng/lodepng.cpp:538-596 | a complete code has fewer inner nodes than symbols, so the flat tree has room |
| HuffmanTree.CompleteCodeBuilds | externals/lodepng/lodepng.cpp:538-596 | a complete code never gives error 55 |
| HuffmanTree.HuffmanDecodeSymbol | externals/lodepng/lodepng.cpp:922-940 | walks the flat tree as the specification does |
| HuffmanTree.DecodeUndoesEncode | externals/lodepng/lodepng.cpp:538-596 | whenever a tree was built, the bits of a symbol decode to it and exactly its length is consumed |
| CompleteCodes.CompleteCodeCovers | externals/lodepng/lodepng.cpp:603-641 | every bit string that is long enough starts with a code word of a complete code |
| CompleteCodes.DecodeIsExact | externals/lodepng/lodepng.cpp:922-940 | with a complete code a symbol is decoded if and only if its code word is there |
| Chains.StepKeepsInv | externals/lodepng/lodepng.cpp:733-762 | every step of boundary package-merge keeps the lists consistent and takes one more item; package weights never fall |
| Chains.StepFrame | externals/lodepng/lodepng.cpp:733-762 | a step of one list leaves the lists above it alone |
| Chains.RunDescribes | externals/lodepng/lodepng.cpp:834-835 | after 2n-2 items the last chain describes a real selection, although lists run out of items on the way |
| ChainLengths.SlotsAndKraft | externals/lodepng/lodepng.cpp:837-840 | the items a chain stands for weigh exactly its Kraft sum |
| ChainLengths.ChainGivesCompleteCode | externals/lodepng/lodepng.cpp:837-840 | lengths added up from the last chain form a complete code that covers exactly the given symbols |
| ChainLengths.LeafLengthFalls | externals/lodepng/lodepng.cpp:837-840 | lighter leaves get the longer codes |
| MergedItems.ItemsAscend | externals/lodepng/lodepng.cpp:745-753 | merging leaves and packages in order of weight gives ascending lists, level after level |
| MergedItems.NoCheaperMix | externals/lodepng/lodepng.cpp:745-753 | any other mix of leaves and packages costs at least as much |
| MergedItems.FirstItemsAreCheapest | externals/lodepng/lodepng.cpp:834-835 | the first k items of a list are the cheapest of all selections of leaves, on all levels, that fill as many places |
| OptimalChains.StepIsGreedy | externals/lodepng/lodepng.cpp:733-762 | every step takes the next item of the merged list, although only two chains per list are kept |
| OptimalChains.RunIsOptimal | externals/lodepng/lodepng.cpp:834-840 | the last chain costs as much as the first 2n-2 items of the last list |
| OptimalCodes.PlacesAndKraft | externals/lodepng/lodepng.cpp:837-840 | the leaves of a code, counted level by level, fill the places that its Kraft sum leaves |
| OptimalCodes.ItemsAreCheapestCode | externals/lodepng/lodepng.cpp:764-851 | no prefix code within the limit is cheaper than those items |
| OptimalCodes.ChainGivesOptimalCode | externals/lodepng/lodepng.cpp:837-840 | the lengths added up from the last chain need the fewest bits of all codes that serve the frequencies |
| NodePool.LiveSize | externals/lodepng/lodepng.cpp:690-720 | the chains of c+1 nodes at most use no more than half of the pool |
| NodePool.BPMLists.Collect | externals/lodepng/lodepng.cpp:695-713 | collection keeps every chain and leaves free nodes |
| NodePool.BPMLists.CreateNode | externals/lodepng/lodepng.cpp:690-720 | the node returned is in no chain and no chain changes, whether or not a collection was needed |
| NodePool.BPMLists.MarkChain | externals/lodepng/lodepng.cpp:702-704 | marks exactly the nodes of a chain |
| NodePool.BPMLists.Advance | externals/lodepng/lodepng.cpp:747-753 | the newest chain becomes the older one and the new node heads the newest |
| NodePool.BPMLists.TakeLeaf | externals/lodepng/lodepng.cpp:747-752 | one leaf is taken from the list |
| NodePool.BPMLists.TakePackage | externals/lodepng/lodepng.cpp:747-753 | the package of the two lookahead chains is taken |
| PackageMerge.BoundaryPM | externals/lodepng/lodepng.cpp:733-762 | on the node pool it does what the step on chains does |
| PackageMerge.SortLeaves | externals/lodepng/lodepng.cpp:722-730 | leaves in ascending weight, the source order of equal ones included |
| PackageMerge.MergePackages | externals/lodepng/lodepng.cpp:805-847 | the lengths for two or more present symbols |
| RunLengths.RunLengthEncode | externals/lodepng/lodepng.cpp:1806-1849 | the run-length code expands, in the meaning of RFC 1951 section 3.2.7, to the lengths it was made of, and is short: never three zeros or four equal lengths in a row are written out |
| RunLengths.RepeatCodes | externals/lodepng/lodepng.cpp:1020-1072 | 16 repeats the last length 3 to 6 times, 17 stands for 3 to 10 zeros and 18 for 11 to 138 |
| RunLengths.EncodeRepeats | externals/lodepng/lodepng.cpp:1827-1844 | repeat codes for a length other than zero, leaving less than three of them |
| RunLengths.EncodeZeros | externals/lodepng/lodepng.cpp:1811-1826 | repeat codes for zeros, at most 138 at once |
| RunLengths.ReadLengthsInverse | externals/lodepng/lodepng.cpp:1006-1085 | the decoder loop undoes the run-length code, across the border of the two alphabets |
| Lz77Codes.LengthTable | externals/lodepng/lodepng.cpp:472-480 | the length tables follow the closed form of the standard |
| Lz77Codes.DistanceTable | externals/lodepng/lodepng.cpp:482-490 | the distance tables follow the closed form |
| Lz77Codes.SearchCodeIndex | externals/lodepng/lodepng.cpp:1303-1320 | binary search finds the last entry that is not larger |
| Lz77Codes.LengthDistance | externals/lodepng/lodepng.cpp:1322-1339 | the four codes mean exactly this length and distance |
| Lz77Codes.CopyWithoutOverlap | externals/lodepng/lodepng.cpp:1176-1179 | the block copy for distances that are long enough equals the copy byte by byte |
| Lz77Codes.CopyRepeats | externals/lodepng/lodepng.cpp:1171-1175 | copying with overlap reproduces data that repeats at that distance |
| Lz77.CountZeros | externals/lodepng/lodepng.cpp:1421-1430 | the exact length of the run of zeros, up to 258 |
| Lz77.Hash.UpdateHashChain | externals/lodepng/lodepng.cpp:1433-1442 | the position becomes the head of both its lists and links to the heads before, nothing else changes, and the circular lists stay those of everything that was entered |
| Lz77.Hash.MatchLength | externals/lodepng/lodepng.cpp:1519-1537 | the exact length of a match, found from behind the common zeros |
| Lz77.Hash.LongestMatch | externals/lodepng/lodepng.cpp:1500-1562 | a real repetition inside the window that cannot be made longer at its distance, the longest of all candidates and the nearest of its length: no position of the window with the same hash value, as far as the list may be followed, gives a longer one, unless the search has ended early at a nice match; although entries of the circular lists may be stale and the search changes over to the list of zero streaks |
| Lz77.Emit | externals/lodepng/lodepng.cpp:1595-1624 | exactly one literal, or one pair of this length and distance, is appended, and the positions inside a match are entered |
| Lz77.JudgeLazy | externals/lodepng/lodepng.cpp:1564-1591 | a match that was put off is taken up again unless the next position has one that is longer by two at least; then its byte is written as a literal |
| Lz77Steps.ReasonForStep | externals/lodepng/lodepng.cpp:1564-1607 | a literal stands exactly where the match is shorter than 3 or minmatch, or 3 bytes long and more than 4096 back, or put off for one that is longer by two at least, found at the next position while the first has 3 to 257 bytes (64 with a small window); everything else is a pair |
| Lz77Steps.LongestInBlock | externals/lodepng/lodepng.cpp:1500-1562 | with a window of 8192 or more and no nice match below 258, the match found at a position is as long as any repetition of the block inside the window |
| Lz77Steps.CandidateFound | externals/lodepng/lodepng.cpp:1507-1562 | in general as long as any that starts at one of the nearest positions of its list, as many as the list may be followed, or a nice match nearer by |
| Lz77Steps.NearestInBlock | externals/lodepng/lodepng.cpp:1539-1546 | and no nearer repetition of the block is as long |
| Lz77Steps.SmallWindow | externals/lodepng/lodepng.cpp:1460 | with a window below 8 the lists are not followed at all and every byte is a literal |
| Lz77Steps.EqualBytes | externals/lodepng/lodepng.cpp:1453-1628 | so 4 to 259 equal bytes come out as one literal and one pair of all the others if and only if the window is at least 8; otherwise nothing is searched |
| HashChains.FollowLink | externals/lodepng/lodepng.cpp:1433-1442 | from a position in the window the link leads to the position before it that has the same key, or to itself if it is the first |
| MatchSearch.NextByHash | externals/lodepng/lodepng.cpp:1556-1561 | one step along the list of the hash value passes over no candidate |
| MatchSearch.NextByStreak | externals/lodepng/lodepng.cpp:1551-1555 | one step along the list of the zero streak passes over no candidate that could be longer |
| Matches.SameBytesSameHash | externals/lodepng/lodepng.cpp:1399-1418 | where the same three bytes lie the hash value is the same |
| HashChains.PowersOfTwo | externals/lodepng/lodepng.cpp:1477 | the window sizes that are accepted are powers of two |
| Inflate.FixedCodesComplete | externals/lodepng/lodepng.cpp:883-914 | both fixed codes use all code space |
| Inflate.FixedCodeTable | externals/lodepng/lodepng.cpp:883-914 | the fixed code of every symbol is the one in the table of RFC 1951 section 3.2.6 |
| Inflate.OrderIsRule | externals/lodepng/lodepng.cpp:493-494 | the stored order of the code length code: 16, 17, 18, 0, then from 8 on outwards, upwards and downwards in turn |
| Inflate.ClLengthAtPlace | externals/lodepng/lodepng.cpp:993-997 | every symbol of the code length code has the three bits at its place in that order, or zero if fewer are stored |
| InflateErrors.BlockErrors | externals/lodepng/lodepng.cpp:1240-1253 | two bits tell the type of a block; error 20 for type 3, 52 for less than three bits |
| InflateErrors.StoredBlockErrors | externals/lodepng/lodepng.cpp:1200-1226 | 16 bits of length and 16 of its complement at the next byte boundary; errors 52, 21 and 23 exactly when, and else the bytes behind |
| InflateErrors.HeaderErrors | externals/lodepng/lodepng.cpp:973-982 | the counts of a description from its 14 bits; errors 49 and 50 exactly when |
| InflateErrors.RepeatErrors | externals/lodepng/lodepng.cpp:1020-1072 | errors 54, 50, 13, 14 and 15 of the repeat codes exactly when |
| InflateErrors.PairErrors | externals/lodepng/lodepng.cpp:1131-1180 | errors 51, 18 and 52 of a pair exactly when, and else the copy |
| Inflate.UndecodableDistance | externals/lodepng/lodepng.cpp:1145-1157 | error 18 for exactly the distance codes above 29, undecodable ones included; data that ends behind a length code gives it |
| Inflate.MissingEndCodeIsWrongJump | externals/lodepng/lodepng.cpp:1185-1191 | error 10 is never given, a missing end code is error 11 |
| Inflater.Inflater.InflateV | externals/lodepng/lodepng.cpp:1228-1256 | the data or the error code that the specification of inflate gives for any bytes |
| Inflater.Inflater.InflateBlock | externals/lodepng/lodepng.cpp:1240-1253 | one block |
| Inflater.Inflater.InflateHuffmanBlock | externals/lodepng/lodepng.cpp:1106-1198 | a block with fixed or dynamic codes |
| Inflater.Inflater.InflateSymbols | externals/lodepng/lodepng.cpp:1120-1192 | the loop over literals, lengths and the end code |
| Inflater.Inflater.InflatePair | externals/lodepng/lodepng.cpp:1131-1180 | a length and a distance with their extra bits, errors 51, 52 and 18, and the copy |
| Inflater.Inflater.CopyBack | externals/lodepng/lodepng.cpp:1168-1179 | the byte by byte copy whose source may overlap its target |
| Inflater.Inflater.InflateNoCompression | externals/lodepng/lodepng.cpp:1200-1226 | a stored block, errors 52, 21 and 23 |
| Inflater.Inflater.DynamicTrees | externals/lodepng/lodepng.cpp:958-1103 | both trees from their description, with all error codes |
| Inflater.Inflater.ReadLengths | externals/lodepng/lodepng.cpp:1006-1085 | the code lengths of both alphabets, errors 54, 50, 13 to 16, 10 and 11 |
| Inflater.Inflater.ReadClLengths | externals/lodepng/lodepng.cpp:993-997 | for any input, the length of each symbol is made of the three bits at its place in the stored order, which a rule defines |
| Inflater.Inflater.ReadHeader | externals/lodepng/lodepng.cpp:973-982 | HLIT, HDIST and HCLEN, errors 49 and 50 |
| Inflater.MakeFromLengths | externals/lodepng/lodepng.cpp:648-658 | a decoding tree from code lengths |
| BlockCodes.SymbolsInverse | externals/lodepng/lodepng.cpp:1674-1700 | decompressing the written symbols expands them |
| BlockCodes.DataInverse | externals/lodepng/lodepng.cpp:1922-1928 | and the end code ends the block |
| DynamicHeader.DescriptionInverse | externals/lodepng/lodepng.cpp:1866-1920 | the decompressor rebuilds trees for exactly the compressor's codes from the block header |
| DynamicHeader.ClLengthsInverse | externals/lodepng/lodepng.cpp:1866-1909 | the code length code survives its order and trimming |
| DynamicHeader.PadDataBits | externals/lodepng/lodepng.cpp:1798-1802 | trimming absent symbols at the end changes no code word |
| BlockWriter.AddHuffmanSymbol | externals/lodepng/lodepng.cpp:1296-1299 | writes the canonical code word of a symbol |
| BlockWriter.WriteLz77Data | externals/lodepng/lodepng.cpp:1674-1700 | writes the bits of all literals and pairs |
| BlockWriter.WriteRuns | externals/lodepng/lodepng.cpp:1911-1920 | writes the run-length coded lengths |
| Frequencies.CountFrequencies | externals/lodepng/lodepng.cpp:1777-1789 | exact counts of literal, length and distance symbols |
| Frequencies.CountRunFrequencies | externals/lodepng/lodepng.cpp:1853-1860 | exact counts of code length symbols |
| Frequencies.MakeFromFrequencies | externals/lodepng/lodepng.cpp:854-869 | the cheapest complete code, with a word for every symbol that occurs, zeros at the end trimmed |
| DeflateBlocks.DynamicBlockInverse | externals/lodepng/lodepng.cpp:1703-1946 | a block with dynamic codes is undone wherever it stands, back references into earlier blocks included |
| DeflateBlocks.FixedBlockInverse | externals/lodepng/lodepng.cpp:1948-1994 | the same with fixed codes |
| DeflateBlocks.AppendBlock | externals/lodepng/lodepng.cpp:1240-1253 | a stream extended by a block decompresses to the extended data |
| Deflate.DeflateDynamic | externals/lodepng/lodepng.cpp:1703-1946 | appends one block that turns the data so far into the data up to its end: the codes of this part, from the search or the plain bytes, in the cheapest Huffman codes for what occurs in it, which a short description with a cheapest code of its own precedes |
| Deflate.DeflateFixed | externals/lodepng/lodepng.cpp:1948-1994 | the same codes with the fixed Huffman codes |
| StoredBlocks.DeflateNoCompression | externals/lodepng/lodepng.cpp:1632-1667 | the blocks decompress to the stored bytes: the input read again from its start behind each 2^32 bytes, up to the end of the last block; below 2^32 bytes the output is exactly the blocks of 65535 bytes with their heads |
| StoredBlocks.LastHead | externals/lodepng/lodepng.cpp:1644-1657 | the head of a stored block: the mark, the length and its ones' complement, low bytes first |
| StoredBlocks.BytesOfBlock | externals/lodepng/lodepng.cpp:1641-1664 | each block below 2^32 bytes is its head and its 65535 bytes, or the rest of the data |
| StoredBlocks.StoredIsData | externals/lodepng/lodepng.cpp:1638-1663 | these are the input if and only if it is not empty, every byte behind the first 2^32 repeats the one 2^32 before it, and the last block, if it starts there, is full |
| StoredBlocks.OneByteTooMany | externals/lodepng/lodepng.cpp:1638-1663 | an input of 2^32 + 1 bytes comes back exactly if its last byte is equal to its first |
| StoredBlocks.StoreBlock | externals/lodepng/lodepng.cpp:1641-1664 | one block: its head and the bytes from the wrapped position on, which can be more than the head says |
| StoredBlocks.PushBytes | externals/lodepng/lodepng.cpp:1660-1663 | the inner loop, whose position wraps around inside the data |
| StoredBlocks.AppendStored | externals/lodepng/lodepng.cpp:1632-1667 | one stored block is undone, whatever follows |
| StoredBlocks.EmptyStoredBlockRefused | externals/lodepng/lodepng.cpp:1207-1210 | a stored block without data at the end of the input is refused, although RFC 1951 allows it |
| Deflate.NothingStoredIsRefused | externals/lodepng/lodepng.cpp:1632-1667 | no data in stored blocks gives no output, which the decompressor refuses |
| Deflate.BlockBounds | externals/lodepng/lodepng.cpp:2015-2026 | the blocks cut the input without gap or overlap and only the last one ends it |
| Deflate.NextBlock | externals/lodepng/lodepng.cpp:2023-2029 | one more block, of the type that the settings ask for, extends the stream by its part of the data |
| Deflate.DeflateHuffman | externals/lodepng/lodepng.cpp:2004-2034 | the output consists of the blocks bit by bit, the last byte filled up with zeros: the input is cut at multiples of the block size, only the last block is marked, each holds the codes for its part in fixed or cheapest codes; and all of it decompresses to the data |
| BlockContents.SizeOfBlocks | externals/lodepng/lodepng.cpp:2004-2013 | blocks with dynamic codes hold an eighth of the input and a bit more, at least 65536 and at most 262144 bytes |
| Deflate.StoreClLengths | externals/lodepng/lodepng.cpp:1866-1876 | the lengths of the code length code in the stored order, without the zeros at the end but at least four |
| Adler32.UpdateAdler32 | externals/lodepng/lodepng.cpp:2070-2091 | reducing every 5550 bytes equals the byte by byte definition of RFC 1950 section 2.2, without 32-bit overflow |
| Adler32.AdlerConcat | externals/lodepng/lodepng.cpp:2070-2091 | a checksum can be continued over concatenated data |
| Adler32.AdlerClosedForm | externals/lodepng/lodepng.cpp:2094-2097 | both sums as sums over the data |
| Adler32.SecondSumFits | externals/lodepng/lodepng.cpp:2077-2078 | 5550 bytes cannot overflow the second sum |
| Adler32.OneByteIsDetected | externals/lodepng/lodepng.cpp:2094-2097 | changing any one byte changes the checksum |
| Zlib.ZlibDecompress | externals/lodepng/lodepng.cpp:2105-2148 | the data, or errors 53, 24, 25, 26, those of inflate, and 58 |
| Zlib.AcceptedHeaders | externals/lodepng/lodepng.cpp:2111-2135 | accepted are exactly the headers of RFC 1950 section 2.2 with method 8, a window code up to 7, no dictionary and check bits that make a multiple of 31 |
| Zlib.EveryWindowIsAccepted | externals/lodepng/lodepng.cpp:2111-2135 | for every window code and level some check bits make an accepted header |
| Zlib.DigitAtTheEnd | externals/lodepng/lodepng.cpp:341-347 | 32-bit numbers are written with the most significant byte first |
| Zlib.Read32Inverse | externals/lodepng/lodepng.cpp:334-347 | reading a 32-bit number undoes writing it |
| Zlib.ShortStreamIsRefused | externals/lodepng/lodepng.cpp:2137-2142 | nothing shorter than two bytes decompresses, so the checksum is never read in front of the input |
| Zlib.CorruptionIsReported | externals/lodepng/lodepng.cpp:2140-2145 | data that differs in one byte from what was summed is reported with error 58 |
| Scanlines.PaethIsNearest | externals/lodepng/lodepng.cpp:3768-3777 | the predictor is the nearest neighbour with the ties of PNG section 9.4 |
| Scanlines.PredictorOfStandard | externals/lodepng/lodepng.cpp:3898-3970 | for every filter type the predictor is the one that PNG section 9.2 defines, and no other value: for type 3 half the sum of both neighbours, rounded down once |
| Scanlines.RowOfStandard | externals/lodepng/lodepng.cpp:3898-3970 | in a filtered row each byte is the original minus that predictor of its three neighbours |
| Scanlines.UnfilterUndoesFilterImage | externals/lodepng/lodepng.cpp:3972-4001 | for every image and every choice of filter types unfiltering undoes filtering |
| RowFilters.FilterScanline | externals/lodepng/lodepng.cpp:5070-5124 | each byte minus its prediction, the special cases of the first row and column included; nothing for an unknown type |
| RowFilters.Filter | externals/lodepng/lodepng.cpp:5135-5353 | all rows with their types in front |
| RowUnfilters.UnfilterScanline | externals/lodepng/lodepng.cpp:3898-3970 | each byte plus its prediction, also when both rows share memory; error 36 for an unknown type |
| RowUnfilters.Unfilter | externals/lodepng/lodepng.cpp:3972-4001 | all rows, in place or not, with everything else in the buffer unchanged |
| RowUnfilters.PartlyStep | externals/lodepng/lodepng.cpp:3898-3925 | a write lands before every byte that is still to be read |
| PixelBits.SetBitOfReversedStream | externals/lodepng/lodepng.cpp:2386-2392 | sets one bit and no other |
| PixelBits.SetBitOfReversedStream0 | externals/lodepng/lodepng.cpp:2374-2383 | the same when the bit is zero or right already |
| PixelBits.FirstBitIsHighest | externals/lodepng/lodepng.cpp:2355-2360 | a byte is the number that its bits make, the first one being worth 128 |
| PixelBits.RemovePaddingBits | externals/lodepng/lodepng.cpp:4064-4089 | drops the padding of every row, in place or not |
| PixelBits.AddPaddingBits | externals/lodepng/lodepng.cpp:5355-5375 | fills every row up with zeros |
| PixelBits.UnpaddingUndoesPadding | externals/lodepng/lodepng.cpp:4064-4089 | removing the padding undoes adding it |
| Adam7.PassesPartition | externals/lodepng/lodepng.cpp:3781-3827 | every pixel belongs to exactly one place of exactly one pass |
| Adam7.PatternOfStandard | externals/lodepng/lodepng.cpp:3781-3784 | the pass of every pixel is the one in the 8 by 8 pattern of PNG section 8.2 |
| Adam7.PixelsExact | externals/lodepng/lodepng.cpp:3808-3814 | a pass has exactly the columns and rows that lie inside the image |
| Adam7.GetPassValues | externals/lodepng/lodepng.cpp:3801-3827 | extents and starts of all passes |
| Adam7.PredictionIsExact | externals/lodepng/lodepng.cpp:4616-4628 | the formula of the prediction and the sum of the passes are equal as formulas, in unbounded numbers |
| ImageSizes.GuardIsExact | externals/lodepng/lodepng.cpp:4475-4481 | the two tests on the wrapped product accept exactly the images of at most 268435455 pixels |
| ImageSizes.RawSizeExact | externals/lodepng/lodepng.cpp:2685-2688 | for these, the 32-bit size is right if and only if w * h * bpp + 7 is below 2^32 |
| ImageSizes.AcceptedButWrapped | externals/lodepng/lodepng.cpp:2685-2688 | an accepted image whose 32-bit size is 0 |
| ImageSizes.IdatSizeExact | externals/lodepng/lodepng.cpp:2699-2702 | the predicted size is right if and only if there is no row or the bits of a row fit |
| ImageSizes.PredictionFits | externals/lodepng/lodepng.cpp:4616-4628 | the 32-bit prediction for an interlaced image is right if and only if the rows of all its passes fit |
| ImageSizes.PassValuesFit | externals/lodepng/lodepng.cpp:3816-3826 | no pass extent or start wraps around when the bits of the image fit |
| EncoderSizes.EncodedAsPredicted | externals/lodepng/lodepng.cpp:5453 | for every accepted image, the size that the encoder computes in words is the one that the decoder predicts in words, right or wrong, with or without interlacing |
| EncoderSizes.EncodedSizeExact | externals/lodepng/lodepng.cpp:5453 | without interlacing it is the true size if and only if the bits of a row, and all rows with their filter bytes, fit in a word |
| EncoderSizes.FittingImages | externals/lodepng/lodepng.cpp:3801-3827 | whenever the bits of an accepted image fit, all sizes, extents and starts that the encoder computes are the true ones |
| EncoderSizes.GetPassWords | externals/lodepng/lodepng.cpp:3801-3827 | extents and starts of all passes as they come out in words |
| EncoderSizes.PlacesExact | externals/lodepng/lodepng.cpp:5388-5434 | the places of all pixels come out right in words if and only if that of the last one fits |
| EncoderSizes.CheckEncoder | externals/lodepng/lodepng.cpp:5453-5485 | whether the numbers of the encoder are the true ones |
| EncoderSizes.AreasAddUp | externals/lodepng/lodepng.cpp:3808-3814 | the areas of the passes add up to that of the image, and their rows to at most 2h + 6 |
| EncoderSizes.AllPassesAreShort | externals/lodepng/lodepng.cpp:5486 | the data of an accepted interlaced image is shorter than 2^32 bytes |
| Interlacing.AllPixelsBack | externals/lodepng/lodepng.cpp:4014-4062 | when all passes are back, every unit of the image is |
| InterlaceBuffers.InterlaceBytes | externals/lodepng/lodepng.cpp:5388-5412 | every pass holds its pixels, row by row, for pixels of whole bytes |
| InterlaceBuffers.InterlaceBits | externals/lodepng/lodepng.cpp:5414-5434 | the same bit by bit |
| InterlaceBuffers.DeinterlaceBytes | externals/lodepng/lodepng.cpp:4014-4038 | gives back the image whose passes are stored |
| InterlaceBuffers.DeinterlaceBits | externals/lodepng/lodepng.cpp:4040-4061 | the same bit by bit, into a buffer of zeros |
| ImageData.PreProcessPlain | externals/lodepng/lodepng.cpp:5453-5477 | padded rows, filtered, when no size has wrapped around |
| ImageData.PreProcessInterlaced | externals/lodepng/lodepng.cpp:5478-5521 | every pass interlaced, padded and filtered at its place, when no size has wrapped around; the size is the predicted one |
| PassAssembly.PassesAreAnImage | externals/lodepng/lodepng.cpp:4014-4062 | whatever seven stored passes are, they are the passes of an image |
| PassAssembly.PassesDecideImage | externals/lodepng/lodepng.cpp:4014-4062 | and of no other one: interlacing is one to one and onto |
| PassAssembly.AnyPassesAreAnImage | externals/lodepng/lodepng.cpp:4014-4062 | any seven passes of the right sizes are the passes of an image |
| PostProcess.PostProcessPlain | externals/lodepng/lodepng.cpp:4108-4116 | for any data of the right size: error 36 exactly for an unknown filter type, else the rows without padding, through buffers reused in place |
| PostProcess.PostProcessInterlaced | externals/lodepng/lodepng.cpp:4117-4139 | for any data of the right size: error 36 exactly if a pass has an unknown filter type, else the buffer holds an image that the passes show, unfiltered and unpadded inside one buffer |
| PostProcess.SomethingShown | externals/lodepng/lodepng.cpp:4117-4139 | data whose rows all have known filter types shows an image, whatever its bytes are |
| PostProcess.OneImageShown | externals/lodepng/lodepng.cpp:4117-4139 | and never two with different pixels |
| PostProcess.RestorePass | externals/lodepng/lodepng.cpp:4124-4136 | restoring a pass damages neither the passes before it nor the filtered ones behind it |
| PostProcess.PassRowsShowPass | externals/lodepng/lodepng.cpp:5497-5514 | the rows the encoder makes of a pass show this pass |
| RwLock.StepKeepsInv | platform/aux/include/aux/rw_lock.hpp:21-90 | every atomic step of any thread keeps the lock value in agreement with its holders, however stale loaded values are |
| RwLock.RunKeepsInv | platform/aux/include/aux/rw_lock.hpp:21-90 | so it holds in every interleaving of any number of threads |
| RwLock.MutualExclusion | platform/aux/include/aux/rw_lock.hpp:21-90 | a writer never overlaps a reader or another writer |
| RwLock.LockTellsHolders | platform/aux/include/aux/rw_lock.hpp:21-90 | the lock is -1 exactly while one writer holds it and else the number of readers |
| RwLock.ReaderEnters | platform/aux/include/aux/rw_lock.hpp:47-67 | a reader enters exactly when its expected value is still there, and then nobody writes |
| RwLock.WriterEnters | platform/aux/include/aux/rw_lock.hpp:76-84 | a writer enters exactly when nobody holds the lock, and otherwise changes nothing |
| RwLock.HoldersLeave | platform/aux/include/aux/rw_lock.hpp:70-90 | a holder leaves with one step, and a writer leaves the lock free |
| RwLock.StaleReaderWaits | platform/aux/include/aux/rw_lock.hpp:50-66 | the loaded value is never refreshed, so a second reader can be kept out by a first |
| RwLock.ReaderTryLock | platform/aux/include/aux/rw_lock.hpp:21-44 | its two loops make the steps of the machine; it succeeds exactly if one of the 1000 attempts meets the expected value |
| RwLock.Lock.Continue | platform/aux/include/aux/rw_lock.hpp:21-90 | the atomic operation a thread performs next |
| SharedWorkset.ExecutionKeepsOk | common/quant/include/quant/workset.hpp:46-129 | push, try_pop, num_available, get_subscriber and remove_subscriber in any number of threads, one memory access at a time: in every interleaving the memory is that of the operations one after the other |
| SharedWorkset.RemoveKeepsOk | common/quant/include/quant/workset.hpp:268-274 | removing a subscriber while others wait for the lock leaves each of them with its own |
| SharedWorkset.Linearizable | common/quant/include/quant/workset.hpp:46-129 | whenever nobody holds the lock for writing, the workset is in the state that these operations lead to |
| SharedWorkset.TakesEffectOnce | common/quant/include/quant/workset.hpp:46-129 | every operation takes effect in exactly one step between its start and its end |
| SharedWorkset.PopReturns | common/quant/include/quant/workset.hpp:96-113 | a concurrent try_pop returns what it would return alone at the moment it takes effect |
| SharedWorkset.JoinsAtOldest | common/quant/include/quant/workset.hpp:205-212 | in every interleaving the step that adds a subscriber puts it at the oldest entry kept, with all of the buffer available |
| SharedWorkset.CountsUnderLock | common/quant/include/quant/workset.hpp:122-129 | num_available, which takes the lock by its own loop, reads size and index one after the other; in every interleaving the difference is the number of entries left for the subscriber, and not below zero |
| WorksetModel.RunKeepsInv | common/quant/include/quant/workset.hpp:46-113 | after any interleaving each cursor is inside the buffer and each subscriber has received a strictly increasing part of the stream, missing only overwritten entries |
| WorksetModel.PushMoves | common/quant/include/quant/workset.hpp:49-55 | a push into a full buffer keeps every cursor on its place of the stream, unless the cursor is at the overwritten entry |
| WorksetModel.PopTakes | common/quant/include/quant/workset.hpp:96-113 | a pop returns the entry at the position and moves only that cursor; it returns nothing exactly when the lock was not obtained or nothing is left |
| WorksetModel.OnlyOverwrittenIsSkipped | common/quant/include/quant/workset.hpp:46-113 | a place of the stream is passed undelivered only by a push into a full buffer at cursor 0 |
| WorksetModel.NoDuplicates | common/quant/include/quant/workset.hpp:96-113 | no entry is received twice, and each is the published one |
| WorksetModel.AvailableIsExact | common/quant/include/quant/workset.hpp:122-129 | num_available is not negative and counts what is left of the stream |
| Workset.Workset.Push | common/quant/include/quant/workset.hpp:46-58 | the loop over all subscribers and the push do what the model does |
| Workset.Workset.TryPop | common/quant/include/quant/workset.hpp:96-113 | the entry and the new state of the model |
| Workset.Workset.NumAvailable | common/quant/include/quant/workset.hpp:122-129 | the subtraction never underflows |
| Workset.Workset.GetSubscriber | common/quant/include/quant/workset.hpp:205-212 | a new subscriber stands at the place in the stream of the oldest entry kept |
| WorksetModel.SubscriberStartsAtOldest | common/quant/include/quant/workset.hpp:205-212 | a subscription changes nothing else; the new cursor is at the oldest entry kept and all of the buffer is available to it |
| WorksetModel.NewSubscriberGetsBuffer | common/quant/include/quant/workset.hpp:104-107 | as many pops as there are entries return the buffer to a new subscriber, oldest first, and the next one nothing |
| WorksetModel.OthersStaySubscribed | common/quant/include/quant/workset.hpp:268-274 | removing a subscriber takes away its cursor and leaves all others as they are |
| Workset.Workset.RemoveSubscriber | common/quant/include/quant/workset.hpp:268-274 | the others keep their cursors |
| ByteOrder.NetworkOrder | platform/aux/include/aux/endianness.hpp:25-40 | numbers of 16, 32 and 64 bits are stored big-endian on machines of both byte orders |
| ByteOrder.NetworkOrderLoaded | platform/aux/include/aux/endianness.hpp:25-40 | and loaded as the big-endian number they are |
| DumperLog.VolumeAppend | services/cgatepp/src/dumper.cpp:474-482 | size, record and header written in turn add exactly this record to the volume |
| DumperLog.EncodeAt | services/cgatepp/src/dumper.cpp:501-521 | where each record of a volume lies |
| Dumper.Dumper.WriteNext | services/cgatepp/src/dumper.cpp:455-483 | the log grows by the record, in a new volume when it does not fit |
| Dumper.Dumper.OpenNewVolume | services/cgatepp/src/dumper.cpp:563-595 | a new empty volume behind the last one |
| Dumper.Dumper.ReadNext | services/cgatepp/src/dumper.cpp:486-524 | the next record of the log, or nothing exactly at its end; the retry for a partial record is never taken |
| Dumper.Dumper.Replay | services/cgatepp/src/dumper.cpp:82-226 | all records ever written, in order; afterwards writing continues behind the last one |
| Dumper.Open | services/cgatepp/src/dumper.cpp:20-62 | continues the last volume or creates the first; refuses another size and then changes nothing |
| Dumper.RunSessions | services/cgatepp/src/dumper.cpp:20-226 | over any number of runs that write and replay in any order, with rollovers and restarts, every replay returns exactly what had been written by then |
| Dumper.RunSession | services/cgatepp/src/dumper.cpp:82-226 | one run: what its replays return and what it leaves in the log |
| MersenneTwister.Generator.UniRandInit | platform/aux/src/rng.cpp:28-41 | fills the block with the seed sequence |
| MersenneTwister.Generator.RefreshLow | platform/aux/src/rng.cpp:87-88 | the first segment is refreshed in place from words not yet refreshed |
| MersenneTwister.Generator.RefreshHigh | platform/aux/src/rng.cpp:90-91 | the second segment is refreshed from words already refreshed |
| MersenneTwister.Generator.NextState | platform/aux/src/rng.cpp:75-94 | all words move on by one block of the recurrence |
| MersenneTwister.Generator.UniRandInt32 | platform/aux/src/rng.cpp:98-112 | the next word of the sequence, tempered |
| TwisterWords.TemperIsLinear | platform/aux/src/rng.cpp:106-109 | tempering is linear over xor |
| TwisterWords.TemperOfBits | platform/aux/src/rng.cpp:106-109 | what it makes of each of the 32 bits, and with that of every word |
| TwisterWords.UntemperTemper | platform/aux/src/rng.cpp:106-109 | undoing the four steps gives back the word |
| TwisterWords.TwistBits | platform/aux/include/aux/rng.hpp:16-20 | twisting bit by bit: bits of the second word and the top bit of the first move down by one place, and an odd second word flips the bits of the matrix |
| MersenneTwister.Recurrence | platform/aux/src/rng.cpp:87-93 | x[k + 624] is x[k + 397] xor the twist of x[k] and x[k + 1] |
| MersenneTwister.DefaultSeedWords | platform/aux/src/rng.cpp:28-41 | the words that seed 5489 leads to |
| TwisterWords.SeedWordsAreInvertible | platform/aux/src/rng.cpp:33 | each word of the seed sequence gives back the one before |
| MersenneTwister.SeedsAreDistinguished | platform/aux/src/rng.cpp:28-41 | two seeds that differ in their low 32 bits never lead to the same seed word |
| MersenneTwister.SequenceFits | platform/aux/src/rng.cpp:28-94 | all words stay below 2^32 |
| MersenneTwister.Generate | platform/aux/src/rng.cpp:98-112 | the i-th of any number of outputs is the tempered i-th word behind the seed block |
| Ran2.NoOverflow | platform/aux/src/rng.cpp:300-302 | no intermediate result of Schrage's multiplication leaves 32 bits |
| Ran2.SchrageIsModular | platform/aux/src/rng.cpp:300-302 | it is the product modulo m |
| Ran2.NeverZero | platform/aux/include/aux/rng.hpp:23-31 | the multiplicative generators never reach zero |
| Ran2.StepsInRange | platform/aux/src/rng.cpp:315-320 | the generators are multiplication by 40014 modulo 2147483563 and by 40692 modulo 2147483399, and stay in their ranges |
| Ran2.PowerStep | platform/aux/src/rng.cpp:315-320 | each step multiplies the power by the multiplier |
| Ran2.NextPowers | platform/aux/src/rng.cpp:315-320 | one Schrage step of either generator is the next power of its multiplier times the seed |
| Ran2.Generator.RandInit | platform/aux/src/rng.cpp:289-306 | zero and negative seeds become 1 and their absolute value; after eight warm-up steps the table holds the powers 40 down to 9 |
| Ran2.Generator.RandReal | platform/aux/src/rng.cpp:309-327 | the next number of the shuffled sequence, scaled and clipped |
| Ran2.Generate | platform/aux/src/rng.cpp:289-327 | the i-th result, for every seed, is that of the shuffle of both power sequences after i+1 calls, and lies strictly between 0 and 1 |
| Winograd.WinogradIsDot | platform/aux/include/aux/matrix.hpp:160-171 | factors and mixed products add up to the inner product |
| Winograd.FastCellIsDot | platform/aux/include/aux/matrix.hpp:160-183 | for odd and even dimensions |
| Matrix.ProductAt | platform/aux/include/aux/matrix.hpp:118-128 | each cell of the product is a sum of products |
| Matrix.Matrix.MultiplyRegular | platform/aux/include/aux/matrix.hpp:114-128 | the regular method computes the product |
| Matrix.Matrix.RowFactors | platform/aux/include/aux/matrix.hpp:140-148 | the products of neighbours in each row |
| Matrix.Matrix.ColumnFactors | platform/aux/include/aux/matrix.hpp:150-158 | and in each column |
| Matrix.Matrix.FillEven | platform/aux/include/aux/matrix.hpp:160-171 | the main loops of Winograd's method |
| Matrix.Matrix.AddLastProducts | platform/aux/include/aux/matrix.hpp:173-183 | the correction for an odd common dimension completes the product |
| Matrix.Matrix.Mult | platform/aux/include/aux/matrix.hpp:87-188 | the product by either method; operands that do not fit leave the matrix unchanged |

## Left out

- HuffmanCodeLengths: the sums of weights, 32-bit in the source, are unbounded integers.
- DecodeIsExact: for an incomplete code, whose unfilled tree slots decode as symbol 0, only that encoded symbols come back is proved (`HuffmanTree.DecodeUndoesEncode`).
- HuffmanTree: the struct of lodepng is split into values (lengths, codes, tree); its allocation and clean-up are not modelled.
- EncodeLZ77: the hash keys are 32-bit words as in the source, but `pos & (windowsize - 1)` is a remainder.
- InflateV: after an error the contents of the output buffer are not described.
- DeflateV: without LZ77 and with more than one block of type 2 the source writes outside its buffer; that case is excluded by a precondition.
- PredictionIsExact: is about unbounded numbers; `ImageSizes.PredictionFits` says when the 32-bit prediction agrees, and `EncoderSizes.EncodedAsPredicted` that the encoder's always does.
- PreProcessPlain: describes the data when the encoder's 32-bit sizes are the true ones, which `EncoderSizes.CheckEncoder` computes; when they are not, only the sizes are modelled and not what the encoder writes into a buffer that is too small.
- PreProcessInterlaced: the same for the sizes of the passes.
- RoundTripped: after a size has wrapped around nothing is said about what happens.
- DecodePlain: nothing is said about what happens once the size of the pixels has wrapped around; the source then works with a buffer that does not fit the image.
- Filter: the strategies that choose a filter type (sums, entropy, brute force) are an arbitrary choice per row; the scratch rows they try types in are not modelled.
- RandReal: rounding of floating-point numbers is not modelled; the clipping at RNMX is.
- UniRandInit: `uni_rand_init_by_array`, the 31-bit, real-valued and normal generators are left out.
- Mult: elements are integers; for floating-point types the two methods differ by rounding.
- RunKeepsInv: memory ordering is sequentially consistent, and no liveness is claimed for the lock.
- ExecutionKeepsOk: two threads do not use one subscriber at the same time, which the source leaves to its callers; `clone`, which copies a cursor outside the lock, and the list of publishers, which carry no state, are left out.
- Replay: records are opaque byte sequences; waiting by timestamps, the handler's callbacks and listing the directory are left out, and volume ids start at 0.
- PlainRoundTrip: chunks, CRC, colour conversion and the header around the image data are left out.
- Allocation failures, custom codecs and callbacks, files, and the std::vector wrapper of lodepng.
- The HTTP server, sqldb, cgatepp connections and listeners, the C# services and drawing: foreign libraries carry their behaviour.
