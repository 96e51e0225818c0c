# Verification of the vendored compression libraries

This project models the algorithm libraries that the repository carries under `deps/` and proves
what they are for. `dafny verify dfyconfig.toml` checks all of it.

## What is modelled

**bzip2** (`deps/bzip2`), both directions, from `BZ2_bzCompress` to `BZ2_bzDecompress`. The main
theorem, `RoundTrip.AnyRun`, is about whole runs: any calls to the encoder, with input and output
cut in any way, and any calls to the decoder. Below it each stage has its own specification, and
the code of the stage is proved against it:

- run-length coding (`RunLength`, `RunBuffer`, `FastOutput`, `SmallOutput`): runs and their bytes;
- block sorting: `Rotations` says what a sorted order is, with equal rotations in any order.
  `fallbackSort` (`FallbackSimpleSort`, `FallbackQSort`, `FallbackOrder`, `FallbackRefine`,
  `FallbackSort`) and `mainSort` (`RadixSort`, `RunningOrder`, `MainCompare`, `MainSimpleSort`,
  `MainQSort`, `BucketScan`, `MainScan`, `QuadrantCache`, `MainSort`) are proved against it;
  `Partitioning` and `SortStack` are shared by both quicksorts;
- its inverse (`InverseBwt` for the words of `tt`, `SmallDecode` for the 20-bit cells);
- move-to-front with zero runs (`MtfCoding`, `MtfEncoder`, `TwoLevelMtf`, `MtfDecoder`);
- Huffman coding (`HuffmanHeap`, `HuffmanForest`, `HuffmanOptimal`, `HuffmanLengths`,
  `HuffmanCodes`, `CodedSymbols`) and the transmission of its tables (`Selectors`, `MappingTable`, `CodeTables`,
  `SendMtf`, `ReceiveMtf`);
- bits (`BitStrings`, `BitIo`, `BitWords`), blocks and streams (`BlockFormat`, `BlockSize`,
  `BlockEncoder`, `BlockDecoder`, `StreamEncoder`, `StreamDecoder`, `RoundTrip`);
- the block CRC as a remainder of polynomials, and what it shows (`BlockCrc`, `BlockCrcPoly`,
  `StreamCrc`).

Words that the source reads at several widths are one array with views: `ByteView`, `HalfView` and
`BlockArea` (block, overshoot area and quadrant values in `arr2`). Where the source ORs values with
disjoint bits, the model adds them and proves that the bits are disjoint.

Assertions of the source (`AssertH` 1001 to 1007, 2001 to 2005, 3001 to 3007) that guard modelled
code are proved: they are index bounds or facts in the contracts.

**zlib** (`deps/zlib`), its LZ77 engine and its checksums:

- `deflate_fast` and `deflate_slow` (`Lz77`, `HashKeys`, `HashChains`, `DeflateState`, `MatchSearch`,
  `WindowFill`, `FastDeflate`, `SlowDeflate`, `DeflateRun`). Window, tables and counters are fields
  that change in place; the data read so far, the place of the window in it and the set of strings on
  chains are ghost. `FastStep` and `SlowStep` say which token is chosen; `DeflateRun.AnyRun` is the
  theorem about whole runs;
- `inflate_fast` (`BitSlices`, `InflateTables`, `MatchCopy`, `InflateFast`) against a specification
  that decodes bit by bit, for any tables of the form that `inftrees.h` describes; and against the
  encoding side (`InflateCodes`, `InflateRoundTrip`): tables for a code give back what was coded;
- `crc32` (`Words`, `CrcPoly`, `CrcPowers`, `Crc32`, `CrcTables`, `CrcWords`, `CrcBraid`): the field
  of polynomials modulo the CRC polynomial, combination, and the braided computation with N = 5 and
  W = 8. The variables `crc0` to `crc4` are one sequence;
- `adler32` (`Adler32`).

**SFMT** (`deps/SFMT`): in-place, bulk and single generation of one linear recurrence, and
certification of the period (`SfmtWords`, `SfmtShifts`, `SfmtLinear`, `Sfmt`, `Words`, `Parity`,
`Certification`).

Where a counter is brought up to date before a loop that ends only after the strings of a match have
been inserted, the model does it after the loop. Shifts and masks of `hold` are divisions and
remainders by powers of two. `match_start` is an integer: after a slide a match that waits may begin
one byte before the window, where the source relies on unsigned wrap-around.

## Model

| member | source | states |
|---|---|---|
| RoundTrip.AnyRun | deps/bzip2/bzlib.c:407-465 | For any sequence of BZ2_bzCompress calls (any actions, input buffers and room for output) that reaches the end of the stream, and any BZ2_bzDecompress calls that provide what was delivered, in pieces of any size and with any room: the output of each call fits its room, all of it together is a prefix of the input taken, the end is reported exactly when everything has come back, and if it is not reported the last call has used up its room |
| RoundTrip.DecompressDelivered | deps/bzip2/bzlib.c:806-857 | Once the encoder has reported the end of the stream, decoding what it delivered gives back what it took, however the calls are cut |
| RoundTrip.Decompress | deps/bzip2/bzlib.c:806-857 | For any valid blocks and any division of their stream into calls, the calls put out the original in order, check every CRC, and reach the end of the stream unless the last call runs out of room |
| StreamEncoder.Compressor.BzCompress | deps/bzip2/bzlib.c:407-465 | Takes a prefix of the input and delivers at most the room; StreamEnd is returned exactly on entering the idle mode, and then all input is taken and the output delivered over all calls is the complete stream of valid blocks that stand for all input taken; FinishOk and FlushOk only when the room is used up; after a flush the blocks stand for all input and only the bits in the bit buffer are still held back |
| StreamEncoder.Compressor.HandleCompress | deps/bzip2/bzlib.c:360-403 | Goes on until input is used up or output space is; keeps the invariant that blocks written plus the block being filled plus the pending run stand for exactly the input taken |
| StreamEncoder.Compressor.CompressTop | deps/bzip2/compress.c:602-665 | Writes the header once, the block and the trailer at the end; block and coded bytes together never pass the end of arr2 |
| StreamEncoder.Compressor.CopyInputUntilStop | deps/bzip2/bzlib.c:288-329 | Takes input until the block is full or the input is at its end, and the state stands for exactly the bytes taken |
| StreamEncoder.Compressor.constructor | deps/bzip2/bzlib.c:148-212 | BZ2_bzCompressInit gives a state that has taken and delivered nothing |
| BlockSize.BlockBitsSize | deps/bzip2/compress.c:239-597 | Every block of n bytes that the encoder may write, with any selectors and any code lengths of at most 17 bits, takes at most 18 n + 52000 bits |
| StreamDecoder.Decompressor.BzDecompress | deps/bzip2/bzlib.c:806-857 | On an encoder stream a call writes the next bytes of the original, reports the end exactly when all is written and checked, and never reports an error; otherwise it returns with its room used up |
| StreamDecoder.Decompressor.ReadBlock | deps/bzip2/decompress.c:222-262 | After the magic number of a block or of the trailer the decoder goes on with that block or checks the combined CRC; the input of an encoder never fails |
| StreamDecoder.Decompressor.ReadEnd | deps/bzip2/bzlib.c:841-850 | Reports the end of the stream only if the 32 bits read are the combined CRC that has been calculated, and then always |
| StreamDecoder.Decompressor.FinishBlock | deps/bzip2/bzlib.c:824-836 | Goes on after a block exactly if the complement of the register is the CRC stored for it; the combined CRC takes it in |
| BlockEncoder.CompressBlock | deps/bzip2/compress.c:602-665 | Whatever sorting path, selectors and tables are chosen, the bits written are exactly those of a valid block with the given runs; every coding table is the shortest code for the frequencies of the symbols in the groups that use it, up to the halvings that 17 bits call for |
| BlockEncoder.MakeTables | deps/bzip2/compress.c:443-451 | The code lengths of table t are the result of BZ2_hbMakeCodeLengths for how often each symbol occurs in the groups of 50 that use t |
| BlockEncoder.BlockSort | deps/bzip2/blocksort.c:1031-1090 | For every block, with every work factor, the result is a permutation of the positions in nondecreasing rotation order, by mainSort, by fallbackSort, or by fallbackSort after mainSort gave up; origPtr is the row of the block, and the block bytes are unchanged |
| BlockDecoder.DecodeBlock | deps/bzip2/decompress.c:238-581 | An input that starts with the bits of any valid block is read up to exactly its end, and what the output stage then owes is exactly the bytes of the runs of the block, without corruption |
| BlockDecoder.BlockSymbols | deps/bzip2/decompress.c:371-488 | The symbols read from the bits of a valid block followed by anything begin with the symbols of the block, and the MTF decoder with room for a full block makes the column indices of them |
| BlockDecoder.BlockRestored | deps/bzip2/decompress.c:557-577 | The last column of any sorted order, walked from origPtr and expanded, gives the bytes of the runs |
| RunLength.RunLengthRoundTrip | deps/bzip2/bzlib.c:215-247 | For all runs of 1 to 255 bytes, the bytes they are coded as, followed by any one byte of read-ahead, expand to the runs and do not end corrupt |
| RunBuffer.RunBuffer.AddCharToBlock | deps/bzip2/bzlib.c:260-284 | One more byte of input, fast path included: the block and the pending run stand for one more byte, nblock grows by at most 5, and CRC and inUse stay those of the block |
| RunBuffer.RunBuffer.FlushRl | deps/bzip2/bzlib.c:251-256 | The pending run goes to the block; what the buffer stands for is unchanged, and the block is empty exactly when that is nothing |
| FastOutput.DState.UnRleToOutputFast | deps/bzip2/bzlib.c:535-682 | Whatever room a call has, it writes the next bytes of the expansion, as many as fit, keeps the rest and the CRC; it reports corruption exactly for a block whose last run is cut short |
| FastOutput.DState.WriteAcrossCalls | deps/bzip2/bzlib.c:535-682 | Over any number of calls with any rooms the output is the expansion of the block cut to the total room, finished exactly when that is enough |
| SmallOutput.SmallState.UnRleToOutputSmall | deps/bzip2/bzlib.c:705-803 | The SMALL output stage obeys the contract of the FAST one over the reversed cells; reading never leaves the block |
| SmallOutput.SmallState.StartBlock | deps/bzip2/decompress.c:524-548 | Building T, reversing the cycle of origPtr and fetching the first byte leaves exactly as much owed as the FAST decoder owes for the same column |
| SmallOutput.SmallState.WriteAcrossCalls | deps/bzip2/bzlib.c:705-803 | Over any number of calls the SMALL stage writes the expansion of the block cut to the total room |
| InverseBwt.InverseBwtRestoresBlock | deps/bzip2/decompress.c:557-577 | For any block and any sorted order of its rotations, periodic blocks with equal rotations included, the row map of the last column walked from origPtr reads the block and then its first byte again |
| InverseBwt.NextRowHoldsNextRotation | deps/bzip2/decompress.c:557-577 | For any sorted order the row that the map leads to holds a rotation equal to that of the next position, even where rotations tie |
| InverseBwt.BuildNextRow | deps/bzip2/decompress.c:557-562 | Threading tt by the byte counts stores the row map above the bytes, which stay as they are |
| InverseBwt.BuildCftab | deps/bzip2/decompress.c:494-516 | cftab becomes the running totals of the byte counts, and none of the range checks can fail |
| SmallDecode.DecodeSmall | deps/bzip2/decompress.c:524-548 | For any last column and any origPtr inside it, T in 20-bit cells, pointer reversal along the cycle of origPtr and IndexIntoF read the bytes that the FAST walk reads |
| SmallDecode.ReversePointers | deps/bzip2/decompress.c:535-544 | Pointer reversal terminates after exactly the cycle of its start, stores the inverse of T there and leaves all other cells alone |
| SmallDecode.SmallCells.Set | deps/bzip2/bzlib_private.h:458-474 | A 20-bit value is kept whole in a 16-bit and a 4-bit part, and no other cell changes |
| SmallDecode.IndexIntoF | deps/bzip2/bzlib.c:687-698 | Binary search finds the byte whose bucket holds the row |
| FallbackSort.Sort | deps/bzip2/blocksort.c:212-329 | fmap becomes a permutation of all positions, their rotations in nondecreasing order, and the block is back in the bytes of arr2 |
| FallbackRefine.RefineClasses | deps/bzip2/blocksort.c:273-306 | A pass with step H takes fmap sorted on H cyclic characters, with header bits at the starts of the classes of equal H-prefixes, to the same for 2H; nothing is left to do exactly when all bits are set |
| FallbackRefine.RefinedIsSorted | deps/bzip2/blocksort.c:311-312 | When the header bits are all set or H has reached the block size, an order refined on H characters is the sorted order of the rotations |
| FallbackRefine.RefineAll | deps/bzip2/blocksort.c:259-313 | The exponential passes end, with fmap in rotation order |
| FallbackQSort.QSort3 | deps/bzip2/blocksort.c:92-180 | Sorts fmap between loSt and hiSt by class, only rearranging that stretch; the stack never holds more than 29 ranges, so assertion 1004 cannot fail |
| FallbackQSort.DepthIsLogarithmic | deps/bzip2/blocksort.c:106-178 | A stack on which each range is at most half of the one below needs 11 * 2^(d-2) entries for depth d |
| FallbackSimpleSort.SimpleSort | deps/bzip2/blocksort.c:32-59 | Sorts a stretch by class and rearranges nothing else |
| Partitioning.PartitionStretch | deps/bzip2/blocksort.c:127-163 | The 3-way partition loop: equal elements at both ends, smaller ones before, larger ones behind, all a rearrangement of the stretch |
| Partitioning.Gather | deps/bzip2/blocksort.c:167-171 | Swapping the equal ends into the middle leaves smaller, equal and larger elements in this order |
| MainSort.Sort | deps/bzip2/blocksort.c:751-1011 | Unless the budget runs out, ptr lists all rotations in nondecreasing order; the block bytes are unchanged; assertion 1006 cannot fail |
| MainSort.AllInOrder | deps/bzip2/blocksort.c:866-1006 | If each of the 65536 small buckets lists its positions in rotation order, the whole of ptr is a permutation in rotation order |
| MainSort.SortUnsorted | deps/bzip2/blocksort.c:878-907 | Step 1: afterwards all small buckets [ss,j], j != ss, are in order, and no bucket that was in order has been disturbed |
| MainScan.CopyPhase | deps/bzip2/blocksort.c:911-945 | Step 2: if all [ss,y], y != ss, are in rotation order, the two inward scans put every [t,ss] of the big buckets not done, [ss,ss] included, in rotation order, touch no other slot, and assertion 1007 cannot fail |
| MainScan.ScansDone | deps/bzip2/blocksort.c:918-943 | When both scans have ended in a block of more than one byte value, the fronts and backs of every unfinished bucket meet and the bucket is in order |
| BucketScan.ScanStep | deps/bzip2/blocksort.c:923-928 | One slot of a scan: appending the predecessor keeps every front sorted and listing exactly the predecessors of what has been scanned |
| BucketScan.ScanComplete | deps/bzip2/blocksort.c:923-934 | A scan that has caught up with itself has seen every position on its side of the bucket |
| QuadrantCache.UpdateQuadrants | deps/bzip2/blocksort.c:947-1004 | Step 3: every position of the finished big bucket gets its place shifted by the least shift that fits 16 bits (assertion 1002 cannot fail), copied into the overshoot area; positions with other bytes keep theirs; quadrant order never goes against rotation order |
| MainCompare.GreaterThan | deps/bzip2/blocksort.c:345-473 | The comparison with overshoot and quadrant values never answers against the non-strict order of the rotations and reads no index past the overshoot area |
| MainCompare.AgreeDecides | deps/bzip2/blocksort.c:423-468 | Behind a common part of any length the order of two rotations is that of what follows |
| MainSimpleSort.SimpleSort | deps/bzip2/blocksort.c:484-560 | Shell sort: a stretch with d common bytes ends in rotation order unless the budget is spent; only the stretch is rearranged |
| MainSimpleSort.RankOrder | deps/bzip2/blocksort.c:345-473 | Counting smaller rotations turns the order of rotations into an order of numbers |
| MainQSort.QSort3 | deps/bzip2/blocksort.c:620-728 | 3-way radix quicksort: a stretch with dSt common bytes ends in rotation order unless the budget is spent; nothing else moves; the stack holds at most 34 ranges, so assertion 1001 cannot fail |
| MainQSort.StackStaysLow | deps/bzip2/blocksort.c:641-727 | Ranges at most half as long two places further up the stack keep it below 35 for 900000 positions |
| MainQSort.KeyDecides | deps/bzip2/blocksort.c:655-690 | Between positions with d common bytes, a smaller byte at depth d means a rotation that is not larger, and an equal one another common byte |
| RadixSort.CountPairs | deps/bzip2/blocksort.c:769-798 | Counts the two-byte keys of all cyclic positions, clears the quadrant values and fills the overshoot area |
| RadixSort.Distribute | deps/bzip2/blocksort.c:802-830 | Every position goes to its bucket, and ftab ends with the bucket starts |
| MainSort.BigFreqCounts | deps/bzip2/blocksort.c:746 | BIGFREQ of a byte is how many rotations begin with it |
| RunningOrder.Compute | deps/bzip2/blocksort.c:832-860 | The big buckets in a permutation of 0..255, smallest first |
| BlockArea.PutQuadrant | deps/bzip2/blocksort.c:1046-1054 | Quadrant values live behind block and overshoot in the same words: writing one changes no byte of the block |
| MtfCoding.MtfRoundTrip | deps/bzip2/compress.c:157-228 | For every column over the list and every pending run, the symbols written, with zero runs in bijective base 2, decode to the column within room for exactly its length |
| MtfEncoder.GenerateMTFValues | deps/bzip2/compress.c:120-231 | mtfv, written over ptr in the same words, holds the symbols of the last column: the write index never passes what is still to be read |
| MtfDecoder.ExpandSymbols | deps/bzip2/decompress.c:371-488 | Succeeds exactly when the symbols decode within nblockMAX bytes; then tt holds the decoded bytes and unzftab their counts, and nothing after the first EOB has been read |
| TwoLevelMtf.MtfList.Move | deps/bzip2/decompress.c:423-475 | The 4096-byte two-level array refines a plain 256-element list: an entry moves to the front, with segments disjoint and in range, also when all segments are laid out again |
| TwoLevelMtf.MtfList.LayOutAgain | deps/bzip2/decompress.c:458-472 | Laying the 16 segments out again at the top of the array leaves the list as it is |
| ByteMaps.MakeMapsE | deps/bzip2/compress.c:106-115 | Bytes in use are numbered in order |
| ByteMaps.MakeMapsD | deps/bzip2/decompress.c:27-36 | The decoder map undoes that numbering |
| HuffmanLengths.MakeCodeLengths | deps/bzip2/huffman.c:63-148 | For every alphabet of 2..258 symbols and all frequencies of total at most 900000 it terminates, with lengths in 1..maxLen that satisfy Kraft with equality, and for some number of halvings of the weights (a weight being the frequency, or 1 for 0) no lengths that a prefix code can have make the coded symbols shorter; each halving happened because the weights were 6765 or more together, so below that the code is the shortest for the frequencies |
| HuffmanLengths.HeavierNotLonger | deps/bzip2/huffman.c:63-148 | In such a code a symbol with the larger weight never has the longer code |
| HuffmanLengths.TreeIsShortest | deps/bzip2/huffman.c:102-125 | For any tree in which every merge took two lightest roots, no lengths that satisfy Kraft cost less than the paths of its leaves |
| HuffmanOptimal.PathsAreBest | deps/bzip2/huffman.c:102-112 | The same for the roots that there were at any time of the merging: by exchanging lengths, cutting the longer of the two lightest to the shorter, and putting their parent in their place |
| HuffmanOptimal.MergeKeepsGreedy | deps/bzip2/huffman.c:102-111 | A merge of the two lightest roots keeps it true of all nodes that they were made of two lightest roots and weigh what these do |
| HuffmanLengths.SetWeights | deps/bzip2/huffman.c:79-80 | The weight of a leaf is its frequency, or 1 for 0 |
| HuffmanLengths.BuildTree | deps/bzip2/huffman.c:82-112 | The tree over any weights: every merge took two lightest roots, paths shorter than 29, shorter than 18 for a total weight below 6765, and every packed weight a positive 32-bit number |
| HuffmanLengths.Rescale | deps/bzip2/huffman.c:142-146 | Every weight w becomes 1 + w/2, which lowers the total whenever it is at least 6765, which is why the outer loop ends |
| HuffmanLengths.LengthsAreComplete | deps/bzip2/huffman.c:114-125 | Counting steps to the root of any tree gives lengths of at least 1 that satisfy Kraft with equality |
| HuffmanForest.LightIsLow | deps/bzip2/huffman.c:25-31 | A node whose subtree follows the merging order and weighs less than a Fibonacci number has less than the corresponding depth |
| HuffmanForest.MergeKeepsForest | deps/bzip2/huffman.c:102-111 | Merging the two lightest roots keeps packed weight and depth of every node right |
| HuffmanHeap.UpHeap | deps/bzip2/huffman.c:33-42 | UPHEAP restores the heap and only rearranges it |
| HuffmanHeap.DownHeap | deps/bzip2/huffman.c:44-57 | DOWNHEAP restores the heap and only rearranges it |
| HuffmanCodes.AssignCodes | deps/bzip2/huffman.c:152-166 | Codes are those of the canonical code for the lengths |
| HuffmanCodes.PrefixFree | deps/bzip2/huffman.c:152-166 | For lengths that satisfy Kraft no code is a prefix of another |
| HuffmanCodes.KraftFits | deps/bzip2/huffman.c:152-166 | For lengths that satisfy Kraft every code fits its length |
| HuffmanCodes.CreateDecodeTables | deps/bzip2/huffman.c:170-205 | limit, base and perm are those of the canonical code for any lengths of at most 20 bits |
| HuffmanCodes.Recognised | deps/bzip2/decompress.c:74-102 | A value within limit for its length is the code of exactly the symbol that perm names |
| HuffmanCodes.GetSymbol | deps/bzip2/decompress.c:74-102 | The bit by bit loop delivers a symbol exactly if the code of some symbol starts the input, and then uses that code and no more |
| CodedSymbols.SymbolsRoundTrip | deps/bzip2/decompress.c:74-102 | For all code lengths satisfying Kraft and any selectors, the codes of any symbols followed by anything read back as exactly those symbols, and then whatever follows |
| CodedSymbols.SymbolReader.GetMtfVal | deps/bzip2/decompress.c:74-102 | Delivers the next symbol of the bits, or fails exactly when there is none |
| Selectors.SelectorRoundTrip | deps/bzip2/compress.c:461-478 | Undoing the MTF values of any selectors gives the selectors |
| Selectors.Receive | deps/bzip2/decompress.c:291-300 | Selectors received in unary; an input that has nSelectors of them keeps selectorMtf in bounds if and only if there are at most 18002, which the source does not check |
| Selectors.TooManySelectors | deps/bzip2/decompress.c:289-300 | An input with 18003 selectors exists within the 15 bits of the count |
| Selectors.Send | deps/bzip2/compress.c:515-522 | Selectors are written in unary |
| MappingTable.Send | deps/bzip2/compress.c:494-511 | The 16 + 256 bit mapping table is written |
| MappingTable.Receive | deps/bzip2/decompress.c:266-281 | An input that starts with a mapping table gives back exactly the bytes in use |
| CodeTables.Send | deps/bzip2/compress.c:531-541 | Code lengths are written as differences |
| CodeTables.Receive | deps/bzip2/decompress.c:316-329 | An input that starts with the tables gives back exactly the lengths, all in 1..20 |
| SendMtf.SendMTFValues | deps/bzip2/compress.c:461-597 | The bits of mapping table, selectors, tables and all symbols are written, and the selectors fit the array |
| ReceiveMtf.ReceiveMTFValues | deps/bzip2/decompress.c:266-358 | An input that starts with what sendMTFValues writes gives back what was sent |
| BitIo.BitWriter.BsW | deps/bzip2/compress.c:51-80 | The bits written grow by the n lowest bits of v; the 32-bit buffer loses none |
| BitIo.BitWriter.FinishWrite | deps/bzip2/compress.c:45-54 | The last byte is filled up with fewer than 8 zeros |
| BitIo.BitReader.GetBits | deps/bzip2/decompress.c:43-65 | The next n bits of the input of all calls as a number, across any division of the input; it fails only if there are not enough in all of them, and then nothing is lost |
| BitStrings.BitsInjective | deps/bzip2/compress.c:73-80 | Different numbers have different bits |
| BlockCrc.CrcOfConcat | deps/bzip2/bzlib_private.h:167-172 | The CRC of a concatenation continues from the CRC of its first part |
| BlockCrcPoly.StepByTable | deps/bzip2/bzlib_private.h:167-172 | With the table whose entry i is the byte i, at the highest powers, shifted eight times modulo x^32 + ... + 1 (0x04c11db7), BZ_UPDATE_CRC is eight turns of the shift register on the register plus the byte |
| BlockCrcPoly.CrcIsRegister | deps/bzip2/bzlib.c:221-267 | With that table the CRC of any string is what a register fed with its bits one by one, most significant first, ends with |
| BlockCrcPoly.CrcIsRemainder | deps/bzip2/bzlib.c:221-267 | With that table the CRC of any string is the remainder of the polynomial of its bits times x^32, plus the start value shifted by as many bits |
| BlockCrcPoly.ChangeShows | deps/bzip2/bzlib_private.h:167-172 | Changing one to four neighbouring bytes of a string in any way changes its CRC, whatever comes before and after |
| StreamCrc.BlockCrcIsRemainder | deps/bzip2/compress.c:606 | The CRC written for a block is the complement of the remainder of its uncompressed bytes for a register that starts with all ones |
| StreamCrc.OneByte | deps/bzip2/crctable.c:30-104 | With that table the CRC of the one byte 0x61 is 0x19939b6b |
| StreamCrc.BlockChangeShows | deps/bzip2/bzlib.c:825-831 | A block in which one to four neighbouring bytes have been changed has another CRC |
| StreamCrc.CombineBits | deps/bzip2/compress.c:607-608 | Bit k of the new combined CRC is bit k - 1 of the old one, or bit 31 for k = 0, plus bit k of the CRC of the block |
| StreamCrc.CombinedChangeShows | deps/bzip2/bzlib.c:832-835 | A change in the CRC of any one block changes the combined CRC |
| DeflateRun.AnyRun | deps/zlib/deflate.c:1036-1080 | For any configuration, lazy or not, and any sequence of deflate calls (any pieces of input, flush modes, full flushes and output room), the tokens tallied expand to a prefix of the input given, to all of it when a call has finished, with lengths 3 to 258 and distances 1 to MAX_DIST; if the last call had room for its output, it has finished if it should, a flush has tallied all input, and otherwise at most MIN_LOOKAHEAD bytes are not tallied yet |
| DeflateRun.OneCall | deps/zlib/deflate.c:1036-1077 | A call takes its input, keeps the state steady, and reports the finish only when the tokens expand to all data; with room for its output it reads all its input, and does what its flush mode asks for |
| DeflateRun.ForgetHistory | deps/zlib/deflate.c:1070-1077 | CLEAR_HASH with the restart of the window after a full flush keeps the state steady |
| FastDeflate.DeflateFast | deps/zlib/deflate.c:1872-1966 | Between steps and on every return the tokens expand to exactly the data before strstart, across window slides; on block_done and finish they expand to all data and all input is read |
| FastDeflate.FastStep | deps/zlib/deflate.c:1892-1956 | Tallies one token: a match as long as any among the strings that are looked at and closer than the others of its length, or a literal if none of them repeats for three bytes; the current string goes on its chain, and so do those inside a match of at most max_lazy bytes; window, chains, running hash and tokens stay in step, and the symbol buffer is full exactly when it says so |
| SlowDeflate.DeflateSlow | deps/zlib/deflate.c:1974-2097 | Between steps and on every return the tokens expand to the data before strstart less the one byte held back when match_available is set; a match that waits may be used at strstart - 1; on block_done and finish nothing is held back |
| SlowDeflate.SlowStep | deps/zlib/deflate.c:1996-2080 | The match that waits is tallied exactly if the search at strstart comes to nothing longer; otherwise the byte held back, if any, becomes a literal and the result of the search waits; the result is the longest of the strings looked at, TOO_FAR and Z_FILTERED apart, and there is no search with a match of max_lazy bytes waiting |
| SlowDeflate.FindBetter | deps/zlib/deflate.c:1996-2030 | After the search the last match is still usable one byte back, and a match longer than it is usable at strstart; TOO_FAR and Z_FILTERED only drop matches |
| MatchSearch.LongestMatch | deps/zlib/deflate.c:1276-1417 | A result longer than prev_length is a repetition in the data at strstart - match_start, at most MAX_DIST back and no longer than the lookahead; unless it stops the search by being nice_match long or ends with the lookahead, none of the strings of the same key that are less than MAX_DIST back, the last max_chain of them or a quarter of that behind a match of good_match, repeats for one byte more; none of those that are closer repeats as long; no access leaves the window |
| MatchSearch.SearchChain | deps/zlib/deflate.c:1358-1416 | Over the candidates that the links lead to, max_chain or a quarter of it at most and none at or below the limit: the best length and the first candidate that has it |
| MatchSearch.VisitedIsRecent | deps/zlib/deflate.c:1412-1413 | The candidates are exactly the strings put on this chain last, in order |
| MatchSearch.NothingNear | deps/zlib/deflate.c:1904 | When the head of the chain is NIL or more than MAX_DIST back, no string of the same key is less than MAX_DIST back |
| MatchSearch.ThirdByteEqual | deps/zlib/deflate.c:1375-1382 | Two strings of one hash chain that agree in their first two bytes agree in the third, so that it need not be compared |
| MatchSearch.TryCandidate | deps/zlib/deflate.c:1370-1400 | A candidate that is passed over because of one of four bytes, or found no longer than the best, has no longer match |
| MatchSearch.Compare | deps/zlib/deflate.c:1384-1397 | Looking for the end only after every eighth byte finds the first difference, or 258 |
| HashChains.ChainsInserted | deps/zlib/deflate.c:182-185 | INSERT_STRING keeps the chains: each head is the last string put on its chain, and the link of every string not yet overwritten is the one before it on its chain, with none left out |
| HashChains.ChainsSlid | deps/zlib/deflate.c:204-228 | Subtracting wsize, or 0 for what falls out, from all of head and prev keeps the chains for the moved window |
| HashChains.Follow | deps/zlib/deflate.c:1412-1413 | The link of a string at most wsize back has not been overwritten and leads to the string before it with the same key |
| HashKeys.MixGivesChain | deps/zlib/deflate.c:163 | After three updates the oldest byte has fallen out of ins_h: mixing in the third byte gives the key of the three bytes whatever came before, for every memLevel |
| HashKeys.ThirdByte | deps/zlib/deflate.c:157-163 | Equal keys of strings with equal first two bytes have equal third bytes |
| WindowFill.FillWindow | deps/zlib/deflate.c:1522-1610 | Reads until there is enough lookahead or no more input, sliding the window before it is full; strings that waited for more bytes go on their chains; data, chains and ins_h stay consistent, the match that waits moves along, and strstart <= window_size - MIN_LOOKAHEAD |
| WindowFill.InsertRest | deps/zlib/deflate.c:1579-1598 | The last strings of the call before, which could not be inserted for want of bytes, go on their chains, and ins_h becomes ready for strstart |
| WindowFill.SlideTable | deps/zlib/deflate.c:211-226 | The loop from the end of a table to its start slides every entry once |
| Lz77.CopyIsData | deps/zlib/deflate.c:1926-1927 | A match copied byte by byte, source and target overlapping or not, gives the data it was found in (section 3.2.3 of RFC 1951) |
| InflateFast.InflateFast | deps/zlib/inffast.c:50-307 | Makes n >= 1 steps of the bit-by-bit specification and returns what these return, output and kind of end; fewer than 8 bits are left in hold, and hold with the input not used begins exactly at the bit where the last step ended |
| InflateFast.DoSymbol | deps/zlib/inffast.c:103-290 | One step is the step of the specification, reads at most 6 bytes, writes at most 258, and never has more than 30 bits in hold |
| InflateFast.GiveBack | deps/zlib/inffast.c:292-296 | Giving back the whole bytes in hold loses and repeats no bit and never goes before the start of the input |
| InflateFast.DecodeCode | deps/zlib/inffast.c:110-115 | Following first and second level entries by the low bits of hold is the lookup by the bits of the input |
| InflateFast.TotalIsSource | deps/zlib/inffast.c:94-108 | Entry values of hold and bits with the input make up one number in which every input byte is at its place |
| MatchCopy.CopyMatch | deps/zlib/inffast.c:169-264 | Every way of copying (output only, window only, window then output, around the end of the window and then output) equals the LZ77 copy over history and output, for any window that is full or has been filled from its start |
| MatchCopy.WrapAround | deps/zlib/inffast.c:210-228 | The copy that starts at the end of the window goes on at its start and then in the output |
| MatchCopy.FilledIsCopy | deps/zlib/inffast.c:239-263 | Bytes that repeat what is dist places before them are the LZ77 copy |
| BitSlices.SliceSplits | deps/zlib/inffast.c:112-114 | The low n bits of a slice and what is left when they are shifted out are the two parts of the slice |
| InflateCodes.FindsWord | deps/zlib/inffast.c:110-115 | In tables whose entries for a code word are those that its bits index, in the first table or through a link in the second, a code word that comes next is found and passed |
| InflateCodes.LengthFits | deps/zlib/inftrees.c:60-65 | Every length from 3 to 258 is the base of its symbol plus a number that fits the extra bits |
| InflateCodes.DistanceFits | deps/zlib/inftrees.c:66-73 | The same for every distance from 1 to 32768 |
| InflateRoundTrip.TokenStep | deps/zlib/inffast.c:116-290 | For any such tables, the bits of a literal or of a match (symbol and extra bits of the length, symbol and extra bits of the distance, section 3.2.5 of RFC 1951) lead to one step, which puts out what the token stands for |
| InflateRoundTrip.BlockSteps | deps/zlib/inffast.c:100-290 | For any such tables, tokens and output before them: after n steps over the bits of the tokens and the end-of-block code the first n tokens have been expanded, and the step after the last one ends the block |
| InflateRoundTrip.BlockComesBack | deps/zlib/inffast.c:100-290 | Tokens that expand to some data, coded with any code, followed by anything: the steps end with exactly these data, where the end-of-block code ends |
| InflateRoundTrip.FastDecodesBlock | deps/zlib/inffast.c:50-307 | What InflateFast has put out when its input is the bits of a block: the expansion of the tokens decoded so far; it finds the end exactly when these are all of them, and never an error |
| InflateRoundTrip.SampleIsTables | deps/zlib/inftrees.c:116-300 | Such tables exist, for a code with two levels |
| InflateRoundTrip.ExpandGoesOn | deps/zlib/inffast.c:150-180 | Expanding tokens onto what earlier tokens have made is expanding all of them |
| CrcBraid.Crc32Z | deps/zlib/crc32.c:739-1058 | For every buffer, length and address the braided computation gives the CRC of the definition, continued from any earlier CRC; at least one block is left after alignment; a null buffer gives 0 |
| CrcBraid.Braided | deps/zlib/crc32.c:795-905 | N registers over any positive number of blocks, combined in the last one, give the register of the bytewise run |
| CrcBraid.BlockStep | deps/zlib/crc32.c:827-883 | The registers after a block, each advanced over the words of the other braids, stand for the same as the registers before it and the words of the block |
| CrcBraid.LastWord | deps/zlib/crc32.c:889-905 | In the last block each register joins the one before it |
| CrcWords.LoopIsRun | deps/zlib/crc32.c:717-724 | The loop of crc_word on a word with a register laid on it is the run of the register over the bytes of the word |
| CrcWords.CrcWord | deps/zlib/crc32.c:717-724 | crc_word of a register xor a word is the run of that register over the eight bytes |
| CrcTables.StepByTable | deps/zlib/crc32.c:766 | The table step with shift by 8 is eight shifts of the register |
| CrcTables.OneByte | deps/zlib/crc32.c:739-1058 | The CRC of the one byte 0x61 is 0xe8b7be43 |
| CrcTables.BraidEntry | deps/zlib/crc32.c:505-522 | Multiplying i << 24 by x^(8(NW+3-k)) moves the byte i by NW - k bytes |
| CrcTables.Braid | deps/zlib/crc32.c:505-522 | A row of the braid table holds that product for every byte |
| CrcTables.MakeByteTable | deps/zlib/crc32.c:279-283 | crc_table[i] is i shifted eight times |
| Crc32.Combine | deps/zlib/crc32.c:1072-1081 | For all sequences with these CRCs and this second length, the result is the CRC of the concatenation |
| Crc32.CombineOp | deps/zlib/crc32.c:1110-1116 | The operator applied to a CRC and added to another is product and sum |
| Crc32.CrcOfConcat | deps/zlib/crc32.c:1072-1081 | The CRC of a concatenation is the first CRC shifted by the length of the second, plus the second |
| Crc32.CrcGoesOn | deps/zlib/crc32.c:752-753 | Going on from a CRC over more bytes gives the CRC of the whole |
| Crc32.MultModP | deps/zlib/crc32.c:542-560 | For every nonzero first argument the loop ends and gives the product of the polynomials modulo p |
| Crc32.X2nModP | deps/zlib/crc32.c:566-580 | x^(n 2^k) modulo p, with the table index taken modulo 32 |
| Crc32.MakeX2nTable | deps/zlib/crc32.c:290-293 | x2n_table[n] is x^(2^n) |
| CrcPowers.TableOfPowers | deps/zlib/crc32.h:9439-9446 | The 32 constants are x^(2^n), and the next one would be the first again |
| CrcPowers.PowersModulo | deps/zlib/crc32.c:574-575 | x^(2^n) depends only on n modulo 32, because squaring 32 times is the identity on x |
| CrcPowers.SquareIsEvenPowers | deps/zlib/crc32.c:293-294 | A square is the sum of the even powers that belong to its coefficients |
| CrcPoly.ProductCommutes | deps/zlib/crc32.c:538-560 | The product does not depend on the order |
| CrcPoly.ProductAssociates | deps/zlib/crc32.c:538-560 | The product does not depend on the grouping |
| CrcPoly.ProductAdds | deps/zlib/crc32.c:538-560 | The product distributes over exclusive-or |
| CrcPoly.ProductOfPower | deps/zlib/crc32.c:562-565 | Multiplying by x^n is n turns of the shift register |
| CrcPoly.PowerNonZero | deps/zlib/crc32.c:536-541 | No power of x is zero, as multmodp requires of its first argument |
| Adler32.Adler32 | deps/zlib/adler32.c:63-131 | Equals the definition with a modulo per byte for every length, with no 32-bit overflow; for a single byte exactly when the second sum stays below 2 BASE, which checksums always do |
| Adler32.NoOverflow | deps/zlib/adler32.c:12-14 | Sums over at most NMAX bytes from any two 16-bit halves fit 32 bits |
| Adler32.NmaxIsLargest | deps/zlib/adler32.c:13-14 | NMAX meets the bound of its definition and NMAX + 1 does not |
| Adler32.RawIsRun | deps/zlib/adler32.c:102-127 | Leaving the modulo operations to the end changes nothing modulo BASE |
| Adler32.ChecksumsNeverExceptional | deps/zlib/adler32.c:76-84 | With reduced halves the single-byte path is always right |
| Adler32.Combine | deps/zlib/adler32.c:143-169 | From the checksums of two pieces and the length of the second, the checksum of both; 0xffffffff for a negative length |
| Adler32.ChecksumOfConcat | deps/zlib/adler32.c:143-169 | The checksum of a concatenation is that of the second piece continued from that of the first |
| Adler32.Mod | deps/zlib/adler32.c:38-42 | The shift form is the remainder by 65521 for every 32-bit value |
| Adler32.Mod28 | deps/zlib/adler32.c:33-37 | The same below 2^28 |
| Adler32.Mod63 | deps/zlib/adler32.c:43-55 | The same for every non-negative 64-bit value |
| Sfmt.Generator.GenRandAll | deps/SFMT/SFMT.c:245-263 | The in-place update turns the state into the next N words of the recurrence |
| Sfmt.Generator.GenRandArray | deps/SFMT/SFMT.c:95-128 | For every size >= N the array gets exactly the next size words, and the state is left as the last N of them, for size below and from 2N on |
| Sfmt.Generator.FillArray32 | deps/SFMT/SFMT.c:293-300 | The numbers are those that as many calls of sfmt_genrand_uint32 would give |
| Sfmt.Generator.GenrandUint32 | deps/SFMT/SFMT.h:139-149 | The next number of the sequence that starts at the initial state |
| Sfmt.Generator.GenrandUint64 | deps/SFMT/SFMT.h:159-186 | The next two 32-bit numbers, the first in the lower half |
| Sfmt.StreamNext | deps/SFMT/SFMT-common.h:142-160 | The sequence satisfies x[n+N] = f(x[n], x[n+POS1], x[n+N-2], x[n+N-1]) |
| Sfmt.StreamRecurs | deps/SFMT/SFMT-common.h:142-160 | As numbers: each word of the sequence is x[n] plus x[n] 2^(8 SL2) modulo 2^128, plus the 32-bit words of x[n+POS1] shifted right by SR1 and masked, plus x[n+N-2] / 2^(8 SR2), plus the 32-bit words of x[n+N-1] shifted left by SL1, all without carries |
| Sfmt.StreamAdds | deps/SFMT/SFMT.c:245-263 | The sequence from the exclusive-or of two states is the exclusive-or of their sequences |
| SfmtShifts.LShiftValue | deps/SFMT/SFMT-common.h:100-114 | As a 128-bit number the result is the argument times 2^(8 shift) modulo 2^128 |
| SfmtShifts.RShiftValue | deps/SFMT/SFMT-common.h:60-74 | As a 128-bit number the result is the argument divided by 2^(8 shift) |
| SfmtLinear.RecursionIsNext | deps/SFMT/SFMT-common.h:142-160 | do_recursion gives the word described by these numbers |
| SfmtLinear.NextIsUnique | deps/SFMT/SFMT-common.h:142-160 | There is only one such word |
| SfmtLinear.RecursionAdds | deps/SFMT/SFMT-common.h:142-160 | do_recursion is linear over exclusive-or in its four words together |
| Sfmt.StreamResumes | deps/SFMT/SFMT.c:245-263 | Going on from any N words of the sequence goes on with the sequence |
| Sfmt.NextInPlace | deps/SFMT/SFMT.c:245-263 | Replacing word i by the recurrence on the partly replaced state makes the next word of the sequence |
| Sfmt.Generator.PeriodCertification | deps/SFMT/SFMT.c:170-205 | Afterwards the inner product with the parity vector is odd, unless that vector is zero; at most one bit of the first word has changed, and none if it was odd before |
| Certification.Certify | deps/SFMT/SFMT.c:170-205 | The same for one 128-bit word |
| Parity.FoldIsParity | deps/SFMT/SFMT.c:182-185 | Shifting a word onto itself by 16, 8, 4, 2 and 1 leaves its parity in the lowest bit |

## Left out

- File and stream I/O of `bzlib.c` (`BZ2_bzRead`, `BZ2_bzWrite` and the functions on top of them), version and parameter checks, allocation hooks and verbosity printing.
- Randomised blocks: the encoder never writes them, and the decoder model stops at one.
- The choice of tables and its cost tuning in `sendMTFValues` (compress.c:271-459): any selectors may be chosen (parameter `pick`), and the last table-building step is modelled, so all results hold for every choice.
- The 256 constants of `BZ2_crc32Table` are not written out: the table is a parameter, the same on both sides. The streams come back for every table; what the CRC is is proved for the table whose entries are the shifted bytes (`BlockCrcPoly.IsTable`).
- StreamDecoder.Decompressor.BzDecompress: models what happens across calls as one run that goes on where it stopped; the saving and restoring of local variables around every `GET_BITS` (decompress.c:111-188, 608-642) is not modelled, and an input that ends too early in all calls is reported like a wrong one.
- SmallOutput.SmallState.UnRleToOutputSmall: is proved to the contract of the FAST stage, but the stream decoder is put together with the FAST stage only.
- Selectors.Receive: from the point where the source would write past `selectorMtf` the model stops, because the source has no defined behaviour there.
- StreamEncoder.CodeBlock: allocates work arrays of exactly the block size where the source uses the front of larger ones, and gives `ftab` new words for every block.
- `perm` entries beyond the alphabet are what `BZ2_hbCreateDecodeTables` leaves in them; they are never reached.
- The 64-bit totals of bytes taken and delivered.
- Everything in zlib after the symbol buffer or before the decoding tables: block emission and Huffman trees (`trees.c`), `inflate_table` (what its tables hold is the predicate `InflateCodes.TablesFor`), the state machine of `inflate`, headers and trailers. A block flush empties the symbol buffer.
- `deflate_stored`, `deflate_rle`, `deflate_huff`, `deflateParams`, `deflateSetDictionary`, `deflateCopy`, `deflatePrime`, and the FASTEST and UNALIGNED_OK variants.
- Zeroing the window beyond the data (deflate.c:1612-1641), which only affects bytes that no result depends on.
- `avail_out`: whether it is 0 when the source looks at it is a parameter of the call.
- The window of inflate is taken as full or filled from its start, `sane` as set; `updatewindow`, `INFLATE_STRICT` and invalid distances are not modelled.
- The big-endian and ARM branches of `crc32_z`; an argument `crc` with more than 32 bits.
- Crc32.MultModP: requires a nonzero first argument, as the source says of it; with zero its loop does not end.
- SIMD and big-endian variants of SFMT, `sfmt_init_gen_rand` and `sfmt_init_by_array` (the initial words are a parameter), `sfmt_fill_array64`, and the conversions to floating point.
