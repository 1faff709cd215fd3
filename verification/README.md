# AGE: a verified model of its data structures and codecs

AGE is a C++ library for drawing and layout with a set of home-made containers and a bundled image decoder. This
project models the parts of it whose correctness is an algorithm rather than a call into a platform, and proves what
they promise for all inputs:

- **The AVL tree** of `src/btree.hpp`: nodes with parent pointers and balance fields, updated in place. A ghost tree
  of the class `Root` mirrors the links. `Trees` and `Rebalancing` hold the theory of trees with a hole (a node on a
  path, and all that hangs around it), `Ordering` that of sequences sorted by a strict weak order, and `Btree` the
  classes `Root`, `Node` and `Iterator`. `Valid()` of a root says that every link, back link and root link is right,
  that every balance field is height(right) - height(left) and one of -1, 0, 1, and that no node occurs twice.
- **The DEFLATE decoder** of `src/stb_image.h`: `Deflate` and `CanonicalCode` describe RFC 1951 as sequences of bits,
  independently of the decoder, and `DeflateReading` says what any bits whatsoever mean: exactly the blocks that were
  written there, or an error. `ZHuffman` builds the tables, `Inflate` is the decoder, with its buffered bit reader and
  its growing output; it does what `DeflateReading` says, errors included.
- **PNG reconstruction** of `src/stb_image.h`: `PngFilter` has the filters of RFC 2083, `PngRows` the row loops with
  and without alpha, `PngUnpack` the in-place expansion of 1, 2 and 4 bits, `PngImage` the whole image, `Adam7` the
  interlacing.
- **GIF rasters** of `src/stb_image.h`: `StringTable` describes the decoding of LZW (Appendix F of GIF89a), and
  `GifCompression` is a compressor that it inverts; `GifRaster` and `GifOrder` say what is painted where, and `Gif` is
  the decoder.
- **JPEG Huffman tables** of `src/stb_image.h`: `JpegCode` has the codes of Annex C of ITU-T T.81, `JpegHuffman` the
  tables and `JpegDecode` the decoding of symbols and magnitudes, one after the other and in one step.
- **The hash table** of `src/map.hpp`: `Probing` is the number theory of the probe sequence and `ControlBytes` the
  tags and marks of the slots. `HashLayout` describes the table as a value, with what adding, removing and doubling do
  to its slots; `HashCrowds` and `HashRuns` say which runs of operations it serves; `HashMap` has the classes and
  `HashFailures` the runs in which it fails.
- **The subset-indexed array** of `src/arrayset.hpp` with `binomial`: `Combinatorics` and `ArraySet`.
- **Bit regrouping and base64** of `src/util.cpp`: `BitCells` and `Base64`.
- **Multi-word numbers** of `src/numeric.cpp`: `Numeric`, for nonnegative numbers.

`Arithmetic`, `Sequences`, `Bits`, `BitReverse`, `PixelRows` and `DeflateTables` are shared helpers.

Some properties that the code was meant to have fail for some inputs. Each of these is proved with its exact
condition, and shown to fail for an input:

- `binomial` is right exactly when its falling product fits in 64 bits; it is wrong for the pairs out of
  2^32 + 1, though their number fits (`ArraySet.BinomialOverflows`).
- `ArraySet::Iterator` goes from a subset to the one with the next slot exactly when at most one element stands behind
  the one that it increments (`ArraySet.StepExactly`). So it follows the slots for all subsets exactly when they have
  at most two elements; for three or more, the step from the first subset already fails (`ArraySet.IteratorOrder`).
- `base64_decode` after `base64_encode` returns the right length exactly when the number of bytes does not leave a
  remainder of one modulo three; one byte is an input for which it does not.
- `operator+=` of a `Digital` with itself is right exactly when no digit is in the upper half; 0x8000 becomes 0
  (`Numeric.DoubleHalf`).
- The JPEG decoder treats a symbol right exactly when it is not number 255 with a code of at most nine bits, or when
  its code is not all in the buffer; 256 symbols with codes of nine bits are a table that has such a symbol
  (`JpegDecode.UnmarkedExists`).
- `Map::upsert` gives a new key the value-initialized value when it takes an empty slot, and the value of a removed
  key when it takes that one's slot; adding, removing and adding a key again shows the old value
  (`HashFailures.UpsertAfterRemove`).
- Doubling a `Map` loses no key exactly when the keys that are not in their first groups, and whose first groups stay,
  can be found on their new ways (`HashLayout.DoublingKeeps`); eighteen insertions into a new map lose a key
  (`HashFailures.LosesKey`).
- A search in a `Map` ends exactly when the key is there or some slot is empty (`HashLayout.SearchEnds`); a map in
  which 32 keys came and went, with never more than 16 of them at a time, has no empty slot left, although it has no
  key (`HashFailures.FillsUp`).

Check everything with `dafny verify dfyconfig.toml`.

## Model

| member | source | states |
|---|---|---|
| `Btree.Root.InsertNode` | src/btree.hpp:104-114 | inserting a detached node into a sorted AVL tree leaves a sorted AVL tree with all links and balance fields exact, whose in-order node sequence is the old one with exactly that node added, at an exact position: among equal keys behind one of them, and without any between the keys that are less and those that are greater |
| `Btree.Root.Insert` | src/btree.hpp:116-123 | the same for a key and a value: a fresh node with both is added at that position and nothing else moves |
| `Btree.Node.InsertNode` | src/btree.hpp:306-324 | insertion below any node between whose neighbours the key fits, including the recursion into the right subtree of an equal node, keeps the whole tree balanced, linked and sorted and adds exactly the node, at an exact position in that subtree |
| `Btree.LandingBehind` | src/btree.hpp:306-324 | whenever there are equal keys, the position of a new node is right behind one of them |
| `Btree.FirstStays` | src/btree.hpp:268-324 | hence a search for a key that was there finds the same node after an equal key has been inserted |
| `Btree.Node.Rebalance` | src/btree.hpp:213-266 | from a node whose subtree has grown or shrunk by one on one side, the shared loop restores the AVL invariant of the whole tree without changing the in-order sequence, in at most as many steps as the tree is high |
| `Rebalancing.TiltDecides` | src/btree.hpp:232-238 | without a rotation, the updated balance field alone tells, for growth and for removal, whether the height change travels on to the parent or is absorbed |
| `Rebalancing.FixDecides` | src/btree.hpp:222-231 | when the field reaches 2 or -2 the heavy child exists, so does the inner grandchild if a double rotation is due, and the field of the new top node tells whether the height change travels on |
| `Btree.Node.RotRightAt` | src/btree.hpp:167-188 | the rotation, anywhere in a tree, gives the rotated tree with exact links, back links and root link, and its two balance fields follow from the old ones even when they are off by one |
| `Btree.Node.Remove` | src/btree.hpp:334-392 | removing any node of a valid tree leaves a valid AVL tree whose in-order sequence lost exactly that node; the node is returned without children |
| `Btree.RemovalStaysSorted` | src/btree.hpp:334-392 | a sorted tree is still sorted after a removal |
| `Btree.Node.SwapPositions` | src/btree.hpp:408-433 | exchanging any two different nodes, also parent and child or the root, keeps the shape and the balance field of every position and all links, and swaps exactly these two in the in-order sequence |
| `Btree.Root.Find` | src/btree.hpp:99-102 | finds the first node in order with an equal key, or a node with the free slot where the key belongs, following a number of links that is logarithmic in the number of nodes; null exactly for the empty tree |
| `Btree.Node.Find` | src/btree.hpp:268-304 | the two phases of the search stay within the height of the tree, also for runs of equal keys on both sides of a node |
| `Trees.FibonacciBound` | src/btree.hpp:213-266 | an AVL tree of height h has at least Fib(h+2)-1 nodes |
| `Trees.LogarithmicHeight` | src/btree.hpp:268-285 | hence twice the logarithm of the number of nodes bounds the height, and with it every descent and every climb |
| `Btree.Iterator.Next` | src/btree.hpp:21-31 | `++` goes from position i to position i+1 in order by child and parent links only, from the last node to the end, and stays at the end |
| `Btree.Iterator.Prev` | src/btree.hpp:60-71 | `--` goes to the position before, from the end to the last node, and from the first node to the end |
| `Btree.StepsInverse` | src/btree.hpp:21-71 | on positions, `--` undoes `++` except at the end of a nonempty range, and `++` undoes `--` except at its first node |
| `Btree.Iterator.NextThenPrev` | src/btree.hpp:21-71 | on an iterator, `++` and then `--` comes back to its node exactly when it was on a node, and from the end comes to the last node |
| `Btree.Iterator.PrevThenNext` | src/btree.hpp:21-71 | on an iterator, `--` and then `++` comes back to where it was exactly when that was not the first node, from which it comes to the end |
| `Btree.Iterator.Plus` | src/btree.hpp:33-37 | k steps from position i lead to position i+k, or to the end if there are fewer: from the beginning, every position is met once and in order |
| `CanonicalCode.Kraft` | src/stb_image.h:3984-4000 | the check length by length accepts exactly the lists that satisfy the Kraft inequality |
| `CanonicalCode.UniqueStart` | src/stb_image.h:3975-4014 | for every accepted list, at most one of the canonical codes of section 3.2.2 of RFC 1951 starts any given sequence of bits |
| `ZHuffman.Table.Build` | src/stb_image.h:3969-4014 | a list of code lengths is accepted exactly when the codes of every length fit, and then the fast table, the preshifted limits and the symbol tables all describe its canonical code |
| `BitReverse.Reverse16Bit` | src/stb_image.h:3952-3959 | the four masked shifts exchange bit i with bit 15-i and drop all others |
| `BitReverse.ReverseIsFront` | src/stb_image.h:3961-3967 | reversing the buffer and shifting down reads its first s bits as a number, the first bit on top |
| `Inflate.FastMiss` | src/stb_image.h:4061-4091 | the fast table misses exactly when the reversed window is at or above the limit of the nine-bit codes, so the slow path may start at ten bits |
| `Inflate.Inflater.FillBits` | src/stb_image.h:4042-4049 | filling loses no bit and makes none up: the buffer holds the bits of the input that come next, least significant bit first, with zeros after the end |
| `Inflate.Inflater.Receive` | src/stb_image.h:4051-4059 | consumes exactly n bits and returns the number that they are |
| `Inflate.Inflater.Decode` | src/stb_image.h:4061-4091 | returns the symbol whose code comes next and consumes exactly its bits, by the fast or the slow path, or -1 and consumes nothing when no code comes |
| `Inflate.Inflater.Expand` | src/stb_image.h:4093-4110 | a buffer that may grow gets room for n more bytes and keeps every byte it held; a fixed one reports failure |
| `Inflate.Inflater.CopyMatch` | src/stb_image.h:4152-4163 | a match is rejected exactly when its distance goes back before the output or a fixed buffer is too small; otherwise each new byte equals the one the distance before it, whether the copy overlaps itself, has distance one, or made the buffer grow |
| `Inflate.Inflater.ParseHuffmanBlock` | src/stb_image.h:4126-4166 | on all bits but those named below, the output grows by exactly what the tokens up to the end code denote, and exactly their bits are consumed; it fails exactly when no code comes, a match goes back too far or a fixed buffer is too small |
| `DeflateReading.TokensFound` | src/stb_image.h:4126-4166 | wherever a sequence of literals and matches has been written in the bits of section 3.2.5 of RFC 1951, reading finds it and gives exactly what it denotes, or the error of a fixed buffer that is too small |
| `DeflateReading.FoundTokens` | src/stb_image.h:4126-4166 | conversely, reading ends without an error only where a sequence of tokens that denotes its output has been written |
| `Inflate.Inflater.ComputeHuffmanCodes` | src/stb_image.h:4168-4215 | on all bits, the two tables describe the two codes of the header, with repeats that run across both lists; it fails exactly when one of the three codes does not exist, no code comes, or an item repeats nothing or goes past the last length |
| `DeflateReading.HeaderFound` | src/stb_image.h:4168-4215 | wherever a header has been written in the bits of section 3.2.7, reading gives its two codes |
| `DeflateReading.FoundHeader` | src/stb_image.h:4168-4215 | conversely, two codes are read only where a header that describes them has been written |
| `DeflateTables.OrderTable` | src/stb_image.h:4170 | the table of the program has the order that section 3.2.7 of RFC 1951 gives the code length codes, stated as a rule: 16 to 18, then 0, then from 8 outwards |
| `Deflate.LengthPlaces` | src/stb_image.h:4182-4185 | each length in a header goes to the symbol with its place in that order, and the symbols without a place get none |
| `DeflateTables.DefaultTables` | src/stb_image.h:4259-4274 | the default tables have, symbol by symbol, the lengths of section 3.2.6 |
| `Inflate.Inflater.ParseUncompressedBlock` | src/stb_image.h:4217-4244 | on all bits, the reader skips to the byte boundary, gives back buffered bytes through the header and appends exactly the data; it fails exactly when the length is not confirmed by its complement, the data is not all there or a fixed buffer is too small |
| `DeflateReading.StoredFound` | src/stb_image.h:4217-4244 | wherever a stored block has been written, with any padding, its data is read |
| `DeflateReading.FoundStored` | src/stb_image.h:4217-4244 | conversely, data is read only where a stored block has been written |
| `Inflate.Inflater.ParseZlibHeader` | src/stb_image.h:4246-4257 | accepts two bytes exactly when the lower half of the first is 8, bit 5 of the second is clear, and as a number they are a multiple of 31 |
| `Inflate.Inflater.ParseZlib` | src/stb_image.h:4288-4314 | on every input but those named below, the decoder appends exactly what comes out of reading its blocks one after the other up to the last; it fails exactly when the zlib header is wrong or reading meets an error |
| `DeflateReading.StreamOfBlocks` | src/stb_image.h:4288-4314 | for every well-formed stream of stored, fixed and dynamic blocks, whatever follows it, that is exactly the bytes that the blocks denote, or the error of a fixed buffer that is too small |
| `DeflateReading.BlocksOfStream` | src/stb_image.h:4288-4314 | conversely, whatever is decoded has been written as blocks that denote it, but for zeros behind the end of the input |
| `PngFilter.PredictorOnly` | src/stb_image.h:4464-4573 | what the row loops add is, for every filter type, the one prediction of sections 6.2 to 6.6 of RFC 2083: nothing, the left byte, the upper one, half their sum rounded down, or the nearest of three in distance to a + b - c, on a tie the left before the upper and that before the upper left |
| `PngFilter.SyntheticFilters` | src/stb_image.h:4455-4462 | the filters for the first row and the special case of the first pixel are the general rule with zeros for missing neighbours |
| `PngFilter.RestoreRow` | src/stb_image.h:4520-4571 | undoing a filter gives back the bytes it was applied to, for every row, filter type and pixel size |
| `PngRows.PlainRow` | src/stb_image.h:4557-4573 | the row loops without alpha restore a row in place from the left and upper neighbours found in the output |
| `PngRows.AlphaPixels` | src/stb_image.h:4574-4589 | the loops with alpha give the same colour bytes, spread over wider pixels, and the alpha byte 255 |
| `PngRows.UnfilterRow` | src/stb_image.h:4518-4599 | one row, for all pixel sizes: the restored bytes in the colour columns, opaque alpha in the others, both bytes of it at 16 bits, and no change outside the row |
| `PngImage.UnfilterInverts` | src/stb_image.h:4504-4600 | whatever image was filtered, with whatever choice of filters per row, decoding its rows one after the other gives the image back |
| `PngImage.DecodedEncodes` | src/stb_image.h:4504-4600 | conversely the decoded rows, filtered with the types found, give the bytes of the stream: no other image has this encoding |
| `PngImage.DecodedByte` | src/stb_image.h:4504-4600 | every decoded byte is the byte of the stream plus such a prediction from the decoded bytes around it, with zeros outside the image |
| `PngImage.UnfilterRows` | src/stb_image.h:4504-4600 | the loop over the rows fails exactly at a filter type above 4, and otherwise leaves every row of the image at its place in the output |
| `PngUnpack.Behind` | src/stb_image.h:4605-4653 | a sample is never written over a packed byte that is still needed, for every number of samples per row |
| `PngUnpack.SamplesSpelled` | src/stb_image.h:4605-4653 | a sample is the next depth bits of the row, the highest first; for grayscale v becomes v * 255 / (2^depth - 1), so that the largest sample is white |
| `PngUnpack.ScaleSpreads` | src/stb_image.h:4475 | that is what multiplying by the constants of the table does, and the largest sample becomes 255 |
| `PngUnpack.UnpackSamples` | src/stb_image.h:4619-4653 | the expansion in place yields exactly the scaled samples of the row, for every depth and length, and touches nothing else |
| `PngUnpack.InsertAlpha` | src/stb_image.h:4654-4672 | inserting alpha from right to left in place keeps every colour sample and makes every pixel opaque |
| `PngImage.ExpandRows` | src/stb_image.h:4605-4673 | all rows of an image become the samples of their packed bytes, with alpha if asked for |
| `PngImage.ToNative` | src/stb_image.h:4674-4684 | the last pass over 16-bit images exchanges the two bytes of every sample on a machine with the low byte first, and changes nothing on the other kind |
| `PngImage.Mad3Exact` | src/stb_image.h:931-964 | the checks by division accept three factors and a summand exactly when the result is below 2^31 |
| `PngImage.CreateImageRaw` | src/stb_image.h:4478-4688 | succeeds exactly when the sizes fit, the data suffices and the filter types are known; on the filtered bytes of any image the output then shows the rows of that image, sixteen-bit samples in the byte order of the machine |
| `Adam7.OncePerPixel` | src/stb_image.h:4701-4728 | every pixel of an image of any size is written by exactly one step of exactly one pass |
| `Adam7.PassInImage` | src/stb_image.h:4701-4728 | every step of a pass writes a pixel inside the image that belongs to that pass in the pattern of section 2.6 of RFC 2083 |
| `Adam7.CopyPass` | src/stb_image.h:4716-4723 | the two loops over a pass put its pixels in their places and leave all other pixels as they were |
| `Adam7.CreateInterlaced` | src/stb_image.h:4690-4732 | succeeds exactly when every pass that has pixels is complete and valid, and then every pixel of the result is the one in its column and row of the image of its pass; on the seven filtered passes of any image, of any depth, the result is that image |
| `Adam7.ImageRestored` | src/stb_image.h:4690-4732 | the passes of an image, filtered in any way, decoded and put in their places, give back every row of the image, with opaque alpha where it is asked for |
| `StringTable.WidthsAlwaysFit` | src/stb_image.h:6488-6491 | after any codes, the next code is read with the number of bits the string table calls for, at most twelve, for all symbol sizes of the format. For the other sizes that the program accepts: with symbols of one bit this holds once a code has been read since the last clear code, and the first one is read with two bits; with symbols of no bits one bit too few is read, up to eleven; with symbols of twelve bits always thirteen are |
| `Gif.Decoder.AddEntry` | src/stb_image.h:6474-6484 | the new entry denotes the string of the previous code and the first symbol of the current one, also when the current code is the one being defined |
| `Gif.Decoder.OutGifCode` | src/stb_image.h:6379-6414 | the recursion over prefixes ends and paints the whole string of the code in order |
| `Gif.Decoder.ProcessCode` | src/stb_image.h:6454-6496 | one code does what a step of the string-table description does: clear, end, extend and paint, or fail |
| `Gif.Decoder.ProcessGifRaster` | src/stb_image.h:6416-6499 | for every input whatsoever, what is painted and whether it succeeds is what the string-table description of the blocks says; and on what a compressor has written, in any phrases and with any clear codes, the symbols that were compressed are painted, with success. After success the input goes on right behind the empty sub-block that ends the data |
| `GifCompression.RoundTrip` | src/stb_image.h:6416-6499 | for any symbols of 2 to 8 bits, what the greedy compressor of Appendix F writes for them, with growing code widths and clear codes when the table is full, is decoded to these symbols |
| `GifCompression.MessageDecoded` | src/stb_image.h:6454-6496 | the same for every way to cut the symbols into phrases that the table has by then, with clear codes anywhere: code k adds the string of code k - 1 with the first symbol of its own |
| `GifCompression.CodesNamed` | src/stb_image.h:6454-6496 | conversely, any codes that are taken after a clear code stand for phrases that a compressor could have written with them, and the decoder gives these |
| `GifCompression.TakenExactly` | src/stb_image.h:6462-6496 | which codes are taken: after a clear code, as long as each is at most the number of the entry to come, the first one is a symbol and the table has room; without a clear code, none |
| `GifCompression.TableFull` | src/stb_image.h:6474-6476 | the bound on the codes between two clear codes is exact: one more is an error |
| `Gif.SubBlocksPayload` | src/stb_image.h:6434-6445 | the data of sub-blocks is their bytes without the lengths, up to the empty one, and what comes behind that is what follows |
| `GifOrder.EveryRowOnce` | src/stb_image.h:6404-6413 | the order of rows, interlaced or not, has every row of the frame once |
| `GifOrder.RowsInOrder` | src/stb_image.h:6404-6413 | the rows come from top to bottom, or interlaced in the four passes of Appendix E: every eighth from the first and from the fifth, every fourth from the third, every second from the second |
| `GifOrder.OrderByRows` | src/stb_image.h:6379-6414 | each row is painted from left to right before the next |
| `GifOrder.FrameFilled` | src/stb_image.h:6379-6414 | as many symbols as a frame has pixels give each pixel the colour of exactly one of them, and mark it as painted |
| `JpegCode.OneCovers` | src/stb_image.h:1912-1927 | the codes of a size list are prefix-free |
| `JpegHuffman.Huffman.Build` | src/stb_image.h:1902-1942 | a table is accepted exactly when every code fits in its number of bits, and then sizes, codes, limits, offsets and the fast table describe the codes of Annex C of ITU-T T.81 |
| `JpegDecode.BuildFastAc` | src/stb_image.h:1946-1969 | an entry packs run, coefficient and total length of a symbol whose code and magnitude bits fit in the window, if the coefficient fits in a byte, and is zero only when none of the symbols 0 to 254 is such |
| `JpegDecode.FastAcAgrees` | src/stb_image.h:2121-2148 | for all bits, a nonzero entry has the run, the coefficient and the number of consumed bits of the only symbol whose code starts the bits, followed by RECEIVE and EXTEND (sections F.2.2.1 to F.2.2.4) |
| `JpegDecode.Decode` | src/stb_image.h:1993-2040 | returns the symbol whose code starts the buffer and consumes its bits, or -1 without consuming any when the buffer has fewer bits: exactly for the symbols other than number 255 with a short code, or with too few bits for it. For that one ten bits are consumed, or -1 is returned if there are fewer |
| `JpegDecode.UnmarkedExists` | src/stb_image.h:1902-1942 | there is an acceptable table in which symbol 255 has a code of nine bits that starts a buffer |
| `JpegDecode.ExtendReceive` | src/stb_image.h:2047-2060 | the rotation with masks and the sign taken from the top bit is RECEIVE followed by EXTEND |
| `JpegDecode.FastEqualsSlow` | src/stb_image.h:2121-2148 | on the same 32-bit buffer, a nonzero entry of the combined table gives the run, the coefficient and the rest of the buffer that decoding the symbol, and then receiving and extending its magnitude bits, gives |
| `Probing.ProbesDiffer` | src/map.hpp:183-192 | with a power of two of groups, the first n probes look at different groups |
| `Probing.ProbeOf` | src/map.hpp:183-192 | every group is looked at by exactly one of the first n probes |
| `Probing.WayChanges` | src/map.hpp:183-192 | doubling the number of groups can keep the first group of a key and change its second probe |
| `ControlBytes.HashBits` | src/map.hpp:152-159 | a hash is used as it is, or with all its 64 bits inverted when its low byte would be that of an empty or a removed slot |
| `HashMap.Map.constructor` | src/map.hpp:26-29 | a new table is an empty map with all slots empty |
| `HashMap.Map.WithCapacity` | src/map.hpp:31-35 | the same, with twice as many groups as the least power of two above the capacity asked for |
| `HashLayout.SearchEnds` | src/map.hpp:366-382 | the search of `operator[]`, `insert`, `upsert` and `remove` meets its key or an empty slot after finitely many probes exactly when the key is in the table or some slot, wherever it is, is empty |
| `HashMap.Map.Find` | src/map.hpp:366-382 | in any table in which the search ends, it ends after at most as many probes as there are groups, and finds the bucket of the key exactly when the key is there and no group with an empty slot is on its way before |
| `HashMap.Map.Insert` | src/map.hpp:50-80 | the map gets the value and the old one is returned; the table doubles exactly when it is more than half full, and slot by slot it is then the old one, doubled or not, with a new key in the first free slot of the first group on its way that has an empty slot. All keys can be found afterwards if a doubling has lost none |
| `HashMap.Map.Upsert` | src/map.hpp:82-109 | returns a bucket of the key, which is added if it was missing: with the value-initialized value if its slot was empty, and otherwise with what the bucket of a removed key held; slot by slot the table is that of an insertion |
| `HashFailures.UpsertAfterRemove` | src/map.hpp:82-129 | a key that was inserted and removed comes back with its old value |
| `HashMap.Map.Remove` | src/map.hpp:111-129 | removes exactly the key that the search finds and returns its value; its slot is marked and all others stay as they are, so that every other key is found as before |
| `HashMap.Map.Resize` | src/map.hpp:299-332 | for any table, also with keys out of their first groups, the loop over the old slots keeps the contents and gives slot by slot the table that results from moving, one after the other, every key whose first group is new |
| `HashLayout.DoublingKeeps` | src/map.hpp:299-332 | after doubling all keys can be found exactly when that is so for the keys that were not in their first groups and whose first groups stay |
| `HashFailures.LosesKey` | src/map.hpp:26-80 | for a certain hash function, after eighteen insertions into a new map one of the keys is in a slot, but is not found |
| `HashFailures.FillsUp` | src/map.hpp:26-129 | for a certain hash function, 32 keys that come and go, never more than 16 at a time, leave a map without keys in which no search ends |
| `HashRuns.ServedExactly` | src/map.hpp:41-129 | an operation is served exactly when its search ends and, in the table that it searches, doubled or not, all keys can be found |
| `HashMap.Run` | src/map.hpp:41-129 | any run of operations of which each is served, through any number of doublings and removals, returns what a finite map returns and ends with its contents |
| `HashMap.RunFromEmpty` | src/map.hpp:31-129 | the same from a new map made for a capacity |
| `HashMap.RunGrowing` | src/map.hpp:26-129 | the same from the default map of two groups, which grows as needed |
| `HashMap.UncrowdedServed` | src/map.hpp:26-129 | a new map serves every run, of any length and with any number of doublings, in which never sixteen keys have the same first group at the same time |
| `HashMap.FewDifferentServed` | src/map.hpp:26-129 | hence every run, of any length, on fewer than sixteen different keys, whatever the hash function is |
| `HashMap.FewAdditionsServed` | src/map.hpp:31-129 | a map made for a capacity serves every run that adds new keys at most 16 times that often, whatever the hash function is and however many other operations the run has |
| `ArraySet.Binomial` | src/util.cpp:143-156 | the result in 64-bit arithmetic is the binomial coefficient exactly when the falling product does not overflow |
| `ArraySet.BinomialOverflows` | src/util.cpp:143-156 | for two out of 2^32 + 1 the falling product overflows although the coefficient fits, so that the result is wrong |
| `ArraySet.SlotsDiffer` | src/arrayset.hpp:15-26 | two lists of different indices have the same slot exactly when they are the same subset, whatever their order |
| `ArraySet.SlotBound` | src/arrayset.hpp:12-26 | every slot is below the binomial coefficient that the storage has as its size |
| `ArraySet.SlotReached` | src/arrayset.hpp:15-26 | every slot belongs to a subset |
| `ArraySet.SlotOrder` | src/arrayset.hpp:15-26 | slots are in the order of the largest elements, then the second largest, and so on |
| `ArraySet.FirstSlot` | src/arrayset.hpp:62-69 | the subset with which the iterator begins is that of slot 0 |
| `ArraySet.Array.At` | src/arrayset.hpp:15-26 | sorting, reversing and summing gives the slot, inside the storage |
| `ArraySet.StepExactly` | src/arrayset.hpp:37-51 | for subsets of any size, the step leads to the subset with the next slot exactly when at most one element stands behind the one that is incremented |
| `ArraySet.IteratorOrder` | src/arrayset.hpp:37-51 | hence it does so for every subset exactly when subsets have at most two elements; from the first subset of three or more it goes wrong |
| `Base64.BitReinterpret` | src/util.cpp:36-75 | for all cell widths from one to eight, the cells written hold the bits read, padded with zeros in the last cell, and there are as many as that takes |
| `Base64.Encode` | src/util.cpp:77-94 | the text is that of section 4 of RFC 4648: six bits per letter and padding to a multiple of four |
| `Base64.Decode` | src/util.cpp:97-112 | the letters' bits in cells of eight; the length returned is the number of cells less the padding |
| `Base64.RoundTrip` | src/util.cpp:77-112 | decoding what was encoded starts with the bytes that were encoded, and the length returned is theirs exactly when it does not leave a remainder of one modulo three |
| `Base64.EncodeDecode` | src/util.cpp:77-112 | running the decoder on the text of the encoder gives the bytes first, and their number exactly when it does not leave a remainder of one modulo three |
| `Numeric.Digital.Trim` | src/numeric.cpp:33-43 | zeros at both ends go, at least one digit stays, and the value does not change |
| `Numeric.Digital.Add` | src/numeric.cpp:45-69 | adds a digit at any exponent, exactly, however far the carry goes |
| `Numeric.Digital.AddTo` | src/numeric.cpp:104-154 | the value becomes the exact sum, for numbers with any exponents; a number added to itself has every digit doubled without carries |
| `Numeric.DoubledValue` | src/numeric.cpp:110-118 | doubling without carries is right exactly when no digit is in the upper half |
| `Numeric.DoubleHalf` | src/numeric.cpp:104-118 | the number 0x8000 added to itself becomes zero |
| `Numeric.Digital.Times` | src/numeric.cpp:243-260 | the sum of the products of all pairs of digits is the exact product |

## Left out

- `HashMap.Map.Find`: not for a table without an empty slot and without the key, where the loop of the program does not end.
- `HashMap.Map.Insert`: not for a key that a doubling has lost, which the program would add a second time, and not for a search that does not end; the same holds for `Upsert`.
- `HashMap.Run`: not for runs with an operation whose search does not end, or with a doubling that loses a key.
- `HashMap.Map.constructor`: allocation always succeeds, and sizes are unbounded; the same holds for `WithCapacity` and `Resize`.
- Map: `multiple` mode, iteration and the iterators over all buckets.
- `Inflate.Inflater.ParseZlib`: not for inputs in which a distance symbol 30 or 31 comes, for which the program copies bytes that it has not written, nor for those behind whose end the zeros that the reader returns keep a block going for ever. The length symbols 286 and 287 are copies of nothing, as in the program. Sizes are unbounded integers, so the doubling of the buffer does not overflow.
- `Inflate.Inflater.ParseHuffmanBlock`: not for blocks in which a distance symbol 30 or 31 comes, nor for those that never end, as above.
- `Gif.Decoder.ProcessGifRaster`: follows the program where it fails after 8192 table entries instead of waiting for a clear code, and in accepting symbol sizes 0, 1 and 9 to 12.
- `PngImage.CreateImageRaw`: the unrolled statements for the samples of one byte are a loop, and the statements for one pixel of one and of three samples are one method. The byte order of the machine is a parameter.
- `Adam7.CreateInterlaced`: allocation of the result always succeeds.
- `JpegDecode.Decode`: works on a buffer that has been filled; filling it from bytes with stuffing and markers is not part of this model, and neither are the rest of the JPEG decoder, the inverse cosine transform and colour conversion.
- `ArraySet.StepExactly`: says nothing on which subsets the iterator visits after a step that goes wrong.
- `ArraySet.Array.At`: not for sizes whose falling product exceeds 64 bits, where the storage has the wrong size.
- `Base64.Decode`: not for text with characters outside the alphabet, for which the program subtracts from a null pointer.
- `Numeric.Digital.Trim`: only nonnegative numbers.
- `Numeric.Digital.Add`: only nonnegative numbers.
- `Numeric.Digital.AddTo`: only nonnegative numbers. Subtraction, comparison, division, shifts, rounding and `Rational` are left out.
- `Numeric.Digital.Times`: only nonnegative numbers. The product of two digits is taken to have 32 bits; the program multiplies two `uint16_t`, which C++ promotes to `int`, so that products from 2^31 on overflow a signed number.
- AVL tree: `Iterator::consume`, which drops left subtrees without rebalancing, inserting a removed node whose balance field is stale, `swap_positions` of a node with itself, and destructors.
- Keys and values of the tree are constant once a node has been made, and orders are strict weak orders.
- `VarIntRef`, whose writer and reader use different offsets.
- `Geometry`, paths and everything that draws, windows and OpenGL, fonts, the server, files and callbacks: foreign calls and floating point carry the meaning.
- `src/sortedmap.hpp`, `src/dft.cpp`, `src/database.cpp`, `src/cyclingindex.hpp`, `src/parser.hpp` and `src/config.cpp`.
