# Verified models of the codecs in dep/bzip2 and dep/zlib

This project models the two compression libraries the game server carries, bzip2 1.0.6 and
zlib 1.2.7, and proves what they are for: that compression loses nothing.

The bzip2 part is a whole codec. `RoundTrip.CompressThenDecompress` states the result: make any
sequence of `BZ2_bzCompress` calls, with any inputs, output rooms and actions; if one of them
answers BZ_STREAM_END, then decompressing what they gave out, with the input cut into any pieces
and the output room divided in any way, returns exactly what they took in; and calls that run
and then finish, with room to spare, do come to BZ_STREAM_END with all input. Below it stand the
stages, each an imperative model of the C code with its own specification and its own inverse:

- `RunCollector`, `RunLength`, `BlockOutput`: the run-length front end and the resumable
  machines that undo it;
- `Rotations`, `FallbackQSort`, `FallbackBuckets`, `FallbackSort`: sorting all rotations of a
  block by prefix doubling, in storage shared with the block;
- `InverseBwt`, `BwtDecoder`: undoing the sort, with packed words (FAST) and with 20-bit slots
  reversed in place (SMALL);
- `MoveToFront`, `MtfCache`, `ColumnBuffer`, `ColumnReader`: move-to-front with run digits, the
  sliding 16 by 16 cache, and the way back to the last column;
- `HuffmanTree`, `HuffmanHeap`, `HuffmanOptimal`, `HuffmanLengths`, `CanonicalCode`: code lengths
  by a heap of packed weights, Huffman's theorem for them, canonical codes and decode tables;
- `BitIO`, `MappingTable`, `SelectorList`, `CodingTables`, `SymbolGroups`, `SymbolReader`,
  `BlockParts`, `BlockWriter`, `BlockReader`: the bit format of a block;
- `StreamFormat`, `StreamWriter`, `StreamReader`, `Compressor`, `Decompressor`, `RoundTrip`:
  streams, the two machines around the codec, and the theorem.

The zlib part takes its hard pieces one by one. `TokenInflate.DeflateThenInflate` joins the two
sides of LZ77: the tokens of any run of deflate, carried out by inflate over any output buffers,
give back the input.

- `DeflateHash`, `DeflateMatch`, `Deflater`: the rolling hash, hash chains under insertion and
  sliding, the search for matches, fill_window, deflate_fast and deflate_slow;
- `InflateWindow`, `TokenInflate`: the circular history of inflate and runs of calls over it;
- `CodeWords`, `WordOrder`, `DeflateCode`, `TableFill`, `TableSizes`, `InflateTable`,
  `TableBuilder`, `TableLimit`: inflate_table, against the canonical code of section 3.2.2 of
  RFC 1951, and a code it refuses for want of space;
- `DeflateAlphabet`: the base values and extra bits of lengths and distances;
- `InflateFast`: the unchecked inner loop of inflate, its budgets and what it decodes;
- `ZlibCrc`: CRC-32 by bits, bytes and words, and its combination by squaring matrices over GF(2);
  `CrcValues`: the entries of its table, and of the table of bzip2;
- `Adler`: Adler-32 with deferred reduction, and its combination.

`Sequences` and `Bits` hold what several parts need.

`dafny verify dfyconfig.toml` verifies all files together.

Conventions. Machine words are unbounded integers with truncation written out where the code
can reach it. A reader takes ghost arguments for what it is expected to find; its contract says
what it returns when the bits ahead are that, and what it returns on any bits at all. To keep
proofs small, some predicates are shut until a proof asks for what is inside: either by a
recursion on a count (`...Sealed(9, ...)`, opened by the lemma `...Seal`), or, in other
modules, by a quantifier over a dummy variable (opened by mentioning `Unfold...`).

## Model

| member | source | states |
|---|---|---|
| `RoundTrip.CompressThenDecompress` | dep/bzip2/bzlib.c:407-464 | for every sequence of `BZ2_bzCompress` calls (any inputs, output rooms and actions) that reaches BZ_STREAM_END, and however the decoder's input is cut into pieces and its output room is divided over calls (rooms of zero included), decompressing the bytes given out returns the bytes taken in as far as there is room, and answers BZ_STREAM_END with exactly those bytes when there is room to spare; run calls followed by a finish, each with room to spare, do reach BZ_STREAM_END and take in all input |
| `RoundTrip.CompressCalls` | dep/bzip2/bzlib.c:407-464 | the calls that reach BZ_STREAM_END give out a stream for what they took; run calls followed by a finish, each with room to spare, reach it and take all input |
| `RoundTrip.DecompressCalls` | dep/bzip2/bzlib.c:808-857 | every stream, in input pieces of any sizes, decodes to its data: every call before the last fills its room, and BZ_STREAM_END comes with exactly the data |
| `RoundTrip.OneCall` | dep/bzip2/bzlib.c:407-464 | one call takes a beginning of its input and appends what it gives; with room to spare a finish answers BZ_STREAM_END and a run call takes all its input |
| `Compressor.EState.Compress` | dep/bzip2/bzlib.c:407-464 | each return code exactly: BZ_SEQUENCE_ERROR if and only if the machine is idle, the action or the amount of input does not fit what was begun, or finishing made no progress; BZ_PARAM_ERROR if and only if it is running and the action is unknown or a run made no progress; with room to spare a finish answers BZ_STREAM_END, a flush BZ_RUN_OK, and a run takes all input; a call that does not fit changes nothing; at BZ_STREAM_END the output is a stream for all input |
| `Compressor.EState.Drive` | dep/bzip2/bzlib.c:438-460 | the FLUSHING and FINISHING cases: BZ_STREAM_END only with a whole stream for all input given out and the machine idle, BZ_RUN_OK after a flush only with all input in finished blocks, BZ_FLUSH_OK and BZ_FINISH_OK only when the output room is used up |
| `Compressor.EState.HandleCompress` | dep/bzip2/bzlib.c:360-401 | terminates; conserves input and output; when FINISHING stops complete, the trailer has been written |
| `Compressor.EState.Round` | dep/bzip2/bzlib.c:366-399 | one turn of the loop lowers a rank (input left, pending run, state) unless it stops |
| `Compressor.EState.OutputHalf` | dep/bzip2/bzlib.c:368-380 | leaves the output state only when the block is all given, and never once the stream is closed |
| `Compressor.EState.InputHalf` | dep/bzip2/bzlib.c:382-397 | stops only in RUNNING mode for want of input; otherwise a block has been compressed |
| `Compressor.EState.CompressRest` | dep/bzip2/bzlib.c:384-388 | ends the pending run and compresses; closes the stream exactly when FINISHING |
| `Compressor.EState.CompressFull` | dep/bzip2/bzlib.c:389-393 | compresses a full block and keeps the pending run for the next |
| `Compressor.EState.CopyInput` | dep/bzip2/bzlib.c:288-329 | data plus remaining input is conserved; stops at a full block or at the end of the input |
| `Compressor.EState.CopyOutput` | dep/bzip2/bzlib.c:333-356 | hands over the next bytes of the block until the room or the block is used up |
| `Compressor.EState.CompressBlock` | dep/bzip2/compress.c:602-667 | adds header, block and trailer to the bits written exactly when due; the block holds at most 100000*blockSize100k - 10 bytes |
| `Compressor.EState.PrepareNewBlock` | dep/bzip2/bzlib.c:116-126 | empties the block and the output, keeps the pending run and the bits not yet output |
| `Compressor.EState.constructor` | dep/bzip2/bzlib.c:148-211 | the invariant holds at the start |
| `Compressor.OpenStream` | dep/bzip2/compress.c:623-629 | writes the header before the first block and never again |
| `Compressor.SendBlock` | dep/bzip2/compress.c:604-620 | mixes the block checksum into the combined one and writes the block; an empty block writes nothing |
| `Compressor.CloseStream` | dep/bzip2/compress.c:653-664 | writes the trailer with the combined checksum and fills up to a byte |
| `Compressor.BooksClosed` | dep/bzip2/compress.c:602-667 | header, finished blocks and trailer together are a stream for the input in the blocks |
| `Compressor.BooksBlock` | dep/bzip2/compress.c:602-667 | one more block keeps the bits written, the input held and the combined checksum in step |
| `RunCollector.Collector.AddChar` | dep/bzip2/bzlib.c:260-284 | the bytes of block and pending run grow by exactly the byte added; the block grows by at most 5 |
| `RunCollector.Collector.AddPair` | dep/bzip2/bzlib.c:215-247 | the pending run moves into the block as its coded form, with checksum and marks for it |
| `RunCollector.Collector.Flush` | dep/bzip2/bzlib.c:251-256 | no byte is lost when the pending run is ended |
| `RunCollector.HoldsMore` | dep/bzip2/bzlib.c:215-247 | a further run keeps block, byte marks and checksum those of the runs |
| `RunCollector.MarkedPair` | dep/bzip2/bzlib.c:224-242 | the bytes marked in use are exactly the bytes of the block |
| `RunLength.RunsRoundTrip` | dep/bzip2/bzlib.c:536-682 | expanding the coded runs returns the bytes, whatever symbol follows the block, and finds no corruption |
| `RunLength.ExpandFirstRun` | dep/bzip2/bzlib.c:595-680 | the run the decoder peels off is the front of the expansion; a block ending in four equal symbols is corrupt |
| `BlockOutput.FastOutput.Drain` | dep/bzip2/bzlib.c:536-682 | a call emits as much of what remains as fits, for any room; corruption is reported exactly when the block is corrupt and everything before fits; the checksum is that of the bytes emitted |
| `BlockOutput.SmallOutput.Drain` | dep/bzip2/bzlib.c:706-804 | the same, for the SMALL decoder |
| `BlockOutput.FastOutput.NextRun` | dep/bzip2/bzlib.c:625-679 | one turn starts exactly the first run of the remaining symbols |
| `BlockOutput.SmallOutput.NextRun` | dep/bzip2/bzlib.c:762-801 | the same, for the SMALL decoder |
| `BlockOutput.FastOutput.FinishedWhenDrained` | dep/bzip2/bzlib.c:821-824 | the test for a finished block holds exactly when nothing remains |
| `BlockOutput.SmallOutput.FinishedWhenDrained` | dep/bzip2/bzlib.c:821-824 | the same, for the SMALL decoder |
| `BlockOutput.FastOutput.Fetch` | dep/bzip2/bzlib_private.h:451-456 | a fetch gives the next symbol and cursor, and its guard never fires |
| `Crc.CrcConcat` | dep/bzip2/bzlib_private.h:167-173 | the checksum of a concatenation continues the checksum of its front |
| `FallbackSort.BlockSort` | dep/bzip2/blocksort.c:1031-1088 | all rotations in weakly sorted order, the row of the block found, the block bytes intact |
| `FallbackSort.FallbackSort` | dep/bzip2/blocksort.c:212-329 | for every block, fmap is a permutation listing all rotations in weakly sorted order, and the overwritten block bytes are rebuilt |
| `FallbackSort.DoublingLoop` | dep/bzip2/blocksort.c:253-312 | ends with every bucket ordered by as many cyclic characters as settle the order |
| `FallbackSort.Round` | dep/bzip2/blocksort.c:258-311 | one round takes buckets ordered by H characters to buckets ordered by 2H |
| `FallbackSort.RefineBucket` | dep/bzip2/blocksort.c:292-308 | sorting one bucket by the classes H characters on refines it, header bits included |
| `FallbackSort.ClassesAreRanks` | dep/bzip2/blocksort.c:262-268 | the classes order positions by their next H characters |
| `FallbackSort.RefinedIsSorted` | dep/bzip2/blocksort.c:309-312 | buckets ordered by enough characters are sorted rotations |
| `FallbackQSort.FallbackQSort3` | dep/bzip2/blocksort.c:93-180 | sorts the range by class and permutes it, with a stack that never overflows |
| `FallbackQSort.FallbackSimpleSort` | dep/bzip2/blocksort.c:32-62 | sorts the range by class and permutes it |
| `FallbackQSort.Partition` | dep/bzip2/blocksort.c:130-170 | a three-way partition around the pivot class |
| `FallbackBuckets.RadixPass` | dep/bzip2/blocksort.c:228-241 | positions bucketed by their first character |
| `FallbackBuckets.Rebuild` | dep/bzip2/blocksort.c:314-329 | the block bytes are rebuilt from the sorted order |
| `Rotations.SortedByKeyIsSorted` | dep/bzip2/blocksort.c:212-329 | order by numeric keys of all characters is lexicographic order of rotations |
| `InverseBwt.InverseTransform` | dep/bzip2/decompress.c:557-574 | for every block, periodic ones included, walking the inverse vector from origPtr gives the block in order |
| `InverseBwt.RowsArePermutation` | dep/bzip2/decompress.c:557-562 | the row table of any last column is a permutation |
| `BwtDecoder.BuildFast` | dep/bzip2/decompress.c:557-574 | each slot holds its character and the inverse vector above it |
| `BwtDecoder.BuildSmall` | dep/bzip2/decompress.c:524-552 | along the cycle of origPtr the 20-bit slots hold the inverse vector, after in-place reversal |
| `BwtDecoder.ReverseCycle` | dep/bzip2/decompress.c:540-552 | pointer reversal terminates and inverts the cycle |
| `BwtDecoder.CumulativeCounts` | dep/bzip2/decompress.c:489-513 | bucket starts from counts; its checks never fail on true counts |
| `BwtDecoder.IndexIntoF` | dep/bzip2/bzlib.c:687-698 | the search finds the bucket of a row |
| `BwtDecoder.BucketIsUnique` | dep/bzip2/bzlib.c:687-698 | that bucket is the character the row begins with |
| `BwtDecoder.PackedSlots.Set` | dep/bzip2/bzlib_private.h:458-470 | a slot holds 20 bits, and setting it changes no other |
| `MoveToFront.GenerateMtfValues` | dep/bzip2/compress.c:120-231 | the symbols of the last column, ended by EOB, replace the pointers in place; no unread pointer is overwritten |
| `MoveToFront.CodeOne` | dep/bzip2/compress.c:163-208 | codes one character; what is written stays below the next unread pointer |
| `MoveToFront.RunRoundTrip` | dep/bzip2/compress.c:170-184 | adding up the digits of a run gives its length |
| `MoveToFront.RunLengthBound` | dep/bzip2/decompress.c:391-392 | a run of z needs k digits only if z + 1 >= 2^k, so the guard spares every legitimate run |
| `MoveToFront.RotateToFront` | dep/bzip2/compress.c:187-205 | finds the byte and moves it to the front |
| `MtfCache.MtfRows.Take` | dep/bzip2/decompress.c:423-475 | an access returns the entry a plain 256-entry list would, and leaves that list with it in front |
| `MtfCache.MtfRows.Rebuild` | dep/bzip2/decompress.c:463-472 | moving the rows back up keeps the list |
| `MtfCache.MtfRows.constructor` | dep/bzip2/decompress.c:358-370 | the list starts as 0..255 |
| `ColumnReader.ReadColumn` | dep/bzip2/decompress.c:374-486 | on the symbols of a column, fills exactly that column and takes exactly their bits; on any input stays in bounds and terminates |
| `ColumnReader.ReadRun` | dep/bzip2/decompress.c:383-401 | on a run code returns its length and the next symbol; the guard does not fire |
| `ColumnReader.EncodeRun` | dep/bzip2/compress.c:163-208 | the code of a column begins with the run of its front symbol |
| `ColumnBuffer.Column.PutRun` | dep/bzip2/decompress.c:403-421 | appends the run if it fits, with true counts |
| `ColumnBuffer.Column.PutPlace` | dep/bzip2/decompress.c:423-485 | appends the byte at a place of the list and moves it to the front |
| `HuffmanLengths.MakeCodeLengths` | dep/bzip2/huffman.c:63-148 | terminates, for every frequency vector of 2 to 258 symbols whose total fits a 32-bit key; the lengths are in 1..maxLen with a Kraft sum of exactly 1; for the frequencies (0 as 1), rescaled k times, no prefix code of any lengths takes fewer bits, and a more frequent symbol is never longer; k counts the times a shortest code was too deep |
| `HuffmanLengths.BuildTree` | dep/bzip2/huffman.c:79-113 | one tree over all leaves, its height bounded by the Fibonacci growth of its weight |
| `HuffmanLengths.JoinPair` | dep/bzip2/huffman.c:100-110 | joining the two lightest roots keeps weights adding up, the Fibonacci bound and that every join took the two lightest roots of its time |
| `HuffmanLengths.TooLongIsHeavy` | dep/bzip2/huffman.c:115-122 | a leaf deeper than 17 needs more weight than weights of at most 2 supply |
| `HuffmanLengths.HalvedTotal` | dep/bzip2/huffman.c:142-146 | rescaling lowers the total unless every weight is at most 2 |
| `HuffmanLengths.AddWeightsAdds` | dep/bzip2/huffman.c:25-31 | weights add and heights grow by one, without interference |
| `HuffmanHeap.UpHeap` | dep/bzip2/huffman.c:33-42 | restores heap order after an insertion, same nodes |
| `HuffmanHeap.DownHeap` | dep/bzip2/huffman.c:44-59 | restores heap order after a removal, same nodes |
| `HuffmanTree.TreeKraft` | dep/bzip2/huffman.c:115-122 | the leaf depths of one tree have Kraft sum exactly 1 |
| `HuffmanTree.RootSumConserved` | dep/bzip2/huffman.c:98-111 | what joins add up is conserved over the roots |
| `CanonicalCode.AssignCodes` | dep/bzip2/huffman.c:152-166 | each symbol gets its canonical code |
| `CanonicalCode.CreateDecodeTables` | dep/bzip2/huffman.c:170-200 | limit, base and perm describe the canonical code, for any lengths in 1..20 |
| `CanonicalCode.NextSymbol` | dep/bzip2/decompress.c:74-102 | returns the symbol whose code comes next and takes just that code; fails exactly when none does; its table index is always in range |
| `CanonicalCode.KraftFits` | dep/bzip2/huffman.c:152-166 | under Kraft's inequality every code fits its length |
| `CanonicalCode.PrefixFree` | dep/bzip2/huffman.c:152-166 | no code is a prefix of another |
| `CanonicalCode.MatchUnique` | dep/bzip2/decompress.c:89-97 | at most one code stands at the front of any bits, Kraft or not |
| `CanonicalCode.CodeThenAnything` | dep/bzip2/decompress.c:89-101 | a code followed by any bits is read back as its symbol |
| `BitIO.BitWriter.Write` | dep/bzip2/compress.c:71-79 | appends the n bits of v to the bits written |
| `BitIO.BitWriter.Finish` | dep/bzip2/compress.c:45-54 | fills up to a byte with zeros |
| `BitIO.BitReader.GetBits` | dep/bzip2/decompress.c:43-65 | the next n bits of the stream as a number, whatever pieces the input comes in; nothing is taken if all input runs out first |
| `MappingTable.WriteMapping` | dep/bzip2/compress.c:496-518 | the used rows, then the used bytes in them |
| `MappingTable.ReadMapping` | dep/bzip2/decompress.c:261-277 | reads back any table of bytes in use |
| `MappingTable.UsedAt` | dep/bzip2/decompress.c:26-36 | numbering the bytes in use and looking the number up are inverse |
| `SelectorList.WriteSelectors` | dep/bzip2/compress.c:520-529 | counts, then each selector moved to front, in unary |
| `SelectorList.ReadSelectors` | dep/bzip2/decompress.c:282-313 | reads back any list of at most 18002 selectors; a longer list (its count field has 15 bits) makes it store past the end of both arrays, and nothing else does |
| `SelectorList.UndonePlaces` | dep/bzip2/decompress.c:300-313 | undoing the move to front returns the selectors |
| `CodingTables.WriteTables` | dep/bzip2/compress.c:531-545 | code lengths as differences |
| `CodingTables.ReadTables` | dep/bzip2/decompress.c:315-330 | reads back any tables with lengths in 1..20, and returns only such tables |
| `SymbolGroups.ChooseTables` | dep/bzip2/compress.c:321-452 | complete codes within 17 bits and a valid selector for every group of 50; each table is a shortest code for the symbols of exactly the groups that select it, rescaled as `MakeCodeLengths` does |
| `SymbolGroups.CheapestTable` | dep/bzip2/compress.c:396-406 | the selected table codes the group in the fewest bits |
| `SymbolGroups.WriteSymbols` | dep/bzip2/compress.c:547-589 | each symbol in the code of its group's table |
| `SymbolReader.Reader.Next` | dep/bzip2/decompress.c:74-102 | returns the next symbol of the block, switching tables every 50 |
| `BlockWriter.InitialTables` | dep/bzip2/compress.c:284-318 | two-valued starting tables for every alphabet |
| `BlockWriter.WriteBody` | dep/bzip2/compress.c:631-649 | a sorted and coded form of the block, as one bit string |
| `BlockReader.ReadBody` | dep/bzip2/decompress.c:245-487 | reads that bit string back to the same last column, length and origPtr; on any input that does not drive it past the selector arrays it returns only an in-range row and true counts; a block with more than 18002 selectors does drive it past them |
| `BlockReader.GetBytes` | dep/bzip2/decompress.c:237-243 | on any bits, the number that the next bytes make, or nothing if they are not all there |
| `StreamWriter.WriteBlock` | dep/bzip2/compress.c:631-649 | block mark, checksum and body |
| `StreamReader.StartOutput` | dep/bzip2/decompress.c:222-576 | from the bits of a good block to an output that will give exactly its data |
| `StreamReader.SetUpFast` | dep/bzip2/decompress.c:489-574 | the FAST output of a column and row |
| `StreamReader.SetUpSmall` | dep/bzip2/decompress.c:489-555 | the SMALL output gives the same bytes as the FAST one for every column and row |
| `StreamReader.BlockExpands` | dep/bzip2/decompress.c:557-574 | whatever symbol is fetched past its end, a good block expands to its data |
| `Decompressor.DState.Decompress` | dep/bzip2/bzlib.c:808-857 | on a stream, each call fills its room or ends the stream with exactly the data given, and what is given is always a beginning of the data; on any input whatever, BZ_STREAM_END comes only when all bytes given are those of blocks whose stored checksums agree with their bytes, and the stored combined checksum with them all |
| `Decompressor.DState.NextBlock` | dep/bzip2/decompress.c:221-249 | the next block or the trailer, for every stream; on any input the checksum kept is the one that stands after the mark, and the end is reported only if the combined checksums agree |
| `Decompressor.DState.GiveOut` | dep/bzip2/bzlib.c:817-842 | a block counts as done only if the checksum of exactly the bytes given for it is the stored one; on a stream it always is |
| `Decompressor.BlockOut` | dep/bzip2/bzlib.c:825-836 | stored and calculated checksum agree, and the combined one advances |
| `BlockParts.PaddedIsWritten` | dep/bzip2/decompress.c:286-300 | every block has forms that pass all checks of the decoder and have more selectors than it has room for |
| `BlockReader.ReadOverlong` | dep/bzip2/decompress.c:286-313 | reading any such form runs past the selector arrays |
| `TableBuilder.BuildTable` | dep/zlib/inftrees.c:32-305 | for any lengths in 0..15: returns -1 exactly when the Kraft sum exceeds one, or is below one and the code is not a single one-bit code for lengths or distances; returns 1 exactly when the tables need 852 (592) entries or more; otherwise returns 0 with tables in which the one- or two-step lookup on any 15 bits or more gives the symbol and bit count of the code they begin with, by section 3.2.2 of RFC 1951, and the invalid marker exactly when they begin with none |
| `TableBuilder.BeginsOnce` | dep/zlib/inftrees.c:75-86 | a string begins with the code of at most one symbol |
| `TableBuilder.CodesLeft` | dep/zlib/inftrees.c:130-136 | the loop over `left` computes what is left of the Kraft sum, and stops early exactly when it is exceeded |
| `TableBuilder.SortSymbols` | dep/zlib/inftrees.c:140-147 | work lists the symbols in use by length, and by number within a length |
| `TableBuilder.GivenDecodes` | dep/zlib/inftrees.c:75-86 | entries placed in the order of the words decode the code of RFC 1951 |
| `DeflateCode.PlaceCode` | dep/zlib/inftrees.c:75-86 | the word at a symbol's place in the sorted order is its code number of RFC 1951 |
| `DeflateCode.FilledIsKraft` | dep/zlib/inftrees.c:130-138 | the level-by-level count of strings taken is the Kraft sum over the symbols |
| `InflateTable.FillTables` | dep/zlib/inftrees.c:199-304 | the main loop: with space enough every string finds the entry of its word, and a string without a word the invalid marker; it stops for want of space exactly when the tables need too much |
| `InflateTable.EnterWord` | dep/zlib/inftrees.c:217-239 | replicating an entry makes the strings of its word right and keeps those of all words before it right |
| `InflateTable.OpenTable` | dep/zlib/inftrees.c:259-289 | a new sub-table is linked in without disturbing any string decoded so far, and has room for every word of its cell |
| `TableSizes.TableBits` | dep/zlib/inftrees.c:268-276 | the look ahead over the counts finds the least depth at which the words left fill the cell |
| `TableSizes.ReachingIsLongest` | dep/zlib/inftrees.c:268-276 | in a complete code that depth is the length of the longest word in the cell |
| `TableFill.EnterRight` | dep/zlib/inftrees.c:232-239 | one more word: its strings are right and the others stay right, in the root table and in sub-tables |
| `TableFill.OpenRight` | dep/zlib/inftrees.c:259-289 | linking a sub-table keeps all strings before its cell right |
| `CodeWords.BackIncrement` | dep/zlib/inftrees.c:241-250 | the backwards increment of a reversed code is the next word of its length, and zero after the last |
| `WordOrder.WordAfter` | dep/zlib/inftrees.c:241-257 | the next word, when lengths grow, is the next number with zeros appended |
| `TableLimit.TightRefused` | dep/zlib/inftrees.h:38-53 | a complete distance code of 30 symbols whose tables take exactly the 592 entries provided, and which counts as too large |
| `TableLimit.BuildTight` | dep/zlib/inftrees.c:278-282 | inflate_table answers 1 for it |
| `TableLimit.CellSpace` | dep/zlib/inftrees.c:259-282 | a cell filled by consecutive words takes a sub-table as deep as the last of them |
| `InflateFast.FastRun.Run` | dep/zlib/inffast.c:67-323 | from fewer than 8 bits held, six bytes of input and room for 258: the bits used are the codes and extra bits of exactly the tokens carried out on the history, up to the end of the block, something wrong, or a shortage of input or room; it ends with fewer than 8 bits held and gives back only bytes pulled in this call |
| `InflateFast.FastRun.Turn` | dep/zlib/inffast.c:120-307 | one turn pulls at most six bytes, puts out at most 258, never drops a bit it does not hold, keeps the bit buffer within 30 bits, and does what the code ahead says |
| `InflateFast.FastRun.ReadMatch` | dep/zlib/inffast.c:139-185 | length and distance with their extra bits, within the bits of six bytes |
| `InflateFast.FastRun.LookUp` | dep/zlib/inffast.c:127-132 | on 15 bits or more, one or two steps give the entry of the code ahead and drop exactly its bits |
| `InflateFast.FastRun.GiveBack` | dep/zlib/inffast.c:309-313 | whole bytes still held are bytes pulled since the call began, and the bits ahead are unchanged |
| `InflateFast.FoundIsCode` | dep/zlib/inffast.c:127-132 | with tables from inflate_table, the entry found is that of the symbol whose code comes next |
| `InflateFast.BuiltServes` | dep/zlib/inftrees.c:32-305 | the tables of inflate_table are fit for inflate_fast |
| `InflateWindow.Inflater.FastMatch` | dep/zlib/inffast.c:186-281 | the match copy of inflate_fast, over the end of the window, its start and the output, appends what the distance rule gives; it fails exactly when the match reaches back too far |
| `TokenInflate.DeflateThenInflate` | dep/zlib/deflate.c:895-941 | the tokens of any run of deflate that needs no more output, carried out by inflate with any output rooms, give back the input; a run whose last call flushes, with output space never used up, is one |
| `TokenInflate.InflateCalls` | dep/zlib/inflate.c:1122-1172 | over any run of calls with any output rooms, the output is the beginning of what the tokens stand for that the rooms together hold, or all of it; a match stopped by a full buffer goes on in the next call |
| `InflateWindow.Inflater.Match` | dep/zlib/inflate.c:1122-1166 | a match appends what the rule history[n - offset] gives, as far as there is room; it is refused exactly when it reaches back before the history |
| `InflateWindow.Inflater.MatchTurn` | dep/zlib/inflate.c:1122-1166 | one turn copies from the window or the output, at least one byte |
| `InflateWindow.Inflater.UpdateWindow` | dep/zlib/inflate.c:378-426 | the circular window holds exactly the last bytes of all output, whether the output replaces it, goes around its end or behind what is there |
| `InflateWindow.Inflater.Leave` | dep/zlib/inflate.c:1229-1236 | between calls the window holds the last bytes of all output |
| `InflateWindow.WindowCopy` | dep/zlib/inflate.c:1125-1150 | bytes copied from the window continue the match |
| `InflateWindow.CopiedStretch` | dep/zlib/inflate.c:1125-1166 | a match no longer than its distance repeats a stretch of the history |
| `Deflater.Machine.Calls` | dep/zlib/deflate.c:895-941 | any run of calls at one level: input is conserved, and whenever a call needs no more output the tokens expand to all input ever given, with distances of at most MAX_DIST and lengths of 3 to 258; a last call that flushes needs no more output if the space for it is never used up |
| `Deflater.Machine.TokensTell` | dep/zlib/deflate.c:1626-1851 | at every step the tokens expand to exactly the input up to strstart, less a byte held back |
| `Deflater.Machine.DeflateFast` | dep/zlib/deflate.c:1626-1715 | deflate_fast keeps this, and tells all input unless it needs more; it needs more whenever there is no flush, and otherwise only because output space was used up; with space it takes all input, and a finish is done |
| `Deflater.Machine.DeflateSlow` | dep/zlib/deflate.c:1728-1851 | deflate_slow, with lazy matches, keeps this, and tells all input unless it needs more; its answers are those of deflate_fast |
| `Deflater.Machine.SlowStep` | dep/zlib/deflate.c:1751-1831 | one turn of the lazy loop: the string at strstart goes on its chain, the search starts at the head of that chain, and is for more than the match in hand; the match in hand is told if what is found is no longer, otherwise the byte held back; exactly the strings passed over are inserted |
| `Deflater.Machine.FillWindow` | dep/zlib/deflate.c:1388-1487 | conserves input, leaves MIN_LOOKAHEAD bytes ahead or no input, and keeps strstart clear of the end of the window |
| `Deflater.Machine.ClearHash` | dep/zlib/deflate.c:924-935 | a full flush forgets the history and keeps everything told |
| `Deflater.SlideGood` | dep/zlib/deflate.c:1411-1450 | sliding the window keeps the dictionary, the rolling hash, the match in hand and what the tokens stand for |
| `Deflater.InsertBoth` | dep/zlib/deflate.c:167-190 | INSERT_STRING: the hash rolled on is the key of the string, and the chain found holds strings of that key |
| `DeflateHash.SlideLinked` | dep/zlib/deflate.c:1425-1448 | chains through prev survive a slide: positions that leave the window become NIL and no others do |
| `DeflateHash.InsertLinked` | dep/zlib/deflate.c:181-190 | inserting a string keeps the chains, though it overwrites a slot of prev |
| `DeflateHash.FollowChain` | dep/zlib/deflate.c:1280-1281 | following prev within the distance leads to an earlier string of the same key, or to NIL |
| `DeflateHash.HashFixesThird` | dep/zlib/deflate.c:160-167 | equal hashes and equal first two bytes force equal third bytes |
| `DeflateHash.HashForgets` | dep/zlib/deflate.c:160-167 | after three steps the oldest byte takes no more part |
| `DeflateMatch.LongestMatch` | dep/zlib/deflate.c:1146-1287 | the strings followed are those down the chain, above the limit and as many as the chain length allows, a quarter of it if the match in hand is good; a length greater than prev_length is the full agreement of the string at match_start, one of them, within MAX_DIST; and none of them agrees on more, unless the length is nice enough to stop at; it never exceeds the lookahead |
| `DeflateMatch.MatchExpands` | dep/zlib/deflate.c:1146-1287 | a match that repeats an earlier string, overlapping or not, stands for the string |
| `ZlibCrc.CombineChecksums` | dep/zlib/crc32.c:355-408 | for all strings, the combination of their checksums is the checksum of their concatenation |
| `ZlibCrc.CombineIsConcat` | dep/zlib/crc32.c:355-408 | the checksum of a concatenation is the first after zeros as long as the second, exclusive-or the second |
| `ZlibCrc.CrcCombine` | dep/zlib/crc32.c:355-408 | repeated squaring applies the operator for any number of zero bytes |
| `ZlibCrc.MatrixSquare` | dep/zlib/crc32.c:344-352 | the columns are the images of the columns |
| `ZlibCrc.SquarePasses` | dep/zlib/crc32.c:344-352 | the square of the operator for n zero bits is the operator for 2n |
| `ZlibCrc.CrcByWords` | dep/zlib/crc32.c:247-278 | four bytes at a time with four tables gives the same checksum as bit by bit |
| `ZlibCrc.CrcByBytes` | dep/zlib/crc32.c:204-239 | byte by byte with one table gives the same checksum as bit by bit |
| `ZlibCrc.MakeTables` | dep/zlib/crc32.c:90-129 | the generated tables are those of one byte through the register, followed by zero to three zero bytes |
| `Adler.Adler32` | dep/zlib/adler32.c:65-133 | for every length path the checksum with deferred reduction is the one reduced at every byte |
| `Adler.CombineChecksums` | dep/zlib/adler32.c:136-162 | the combination of the checksums of two strings is the checksum of their concatenation |
| `Adler.CombinedIsConcat` | dep/zlib/adler32.c:148-161 | the combined sums are the sums of the concatenation |
| `Adler.AdlerCombine` | dep/zlib/adler32.c:136-162 | the subtractions in place of divisions reduce the combined sums; a negative length gives 0xffffffff |
| `Adler.NmaxFits` | dep/zlib/adler32.c:14-16 | 5552 is the greatest number of bytes whose sums, from reduced ones, stay within 32 bits |
| `Adler.RawReduces` | dep/zlib/adler32.c:104-129 | reducing after many bytes is the same as reducing after each |
| `Adler.Mod28Is` | dep/zlib/adler32.c:34-38 | MOD28 without division is the remainder, for arguments below 2^28 |
| `Adler.Mod32Is` | dep/zlib/adler32.c:39-43 | MOD without division is the remainder for 32-bit arguments |
| `Adler.Mod63Is` | dep/zlib/adler32.c:44-55 | MOD63 without division is the remainder for 63-bit arguments |
| `Compressor.EState.RunOnly` | dep/bzip2/bzlib.c:419-422 | BZ_RUN: it stops only when the input or the room is used up, and answers BZ_RUN_OK exactly when something was taken or given |
| `HuffmanOptimal.TreeOptimal` | dep/bzip2/huffman.c:98-122 | Huffman's theorem: if every join takes the two lightest roots, no lengths that satisfy Kraft's inequality cost less than the depths of the leaves |
| `HuffmanOptimal.NoneCheaper` | dep/bzip2/huffman.c:98-111 | after any number of joins, no lengths for the roots that satisfy Kraft's inequality cost less than the weights of the joins to come |
| `HuffmanOptimal.Levelled` | dep/bzip2/huffman.c:101-104 | lengths for the roots can be changed, at no cost and within Kraft's inequality, so that the two lightest share the greatest length |
| `HuffmanOptimal.DepthsCost` | dep/bzip2/huffman.c:98-122 | the depths of the leaves cost exactly the weights of all joins |
| `HuffmanOptimal.FrequentIsShort` | dep/bzip2/huffman.c:115-122 | in a shortest code a more frequent symbol is not longer |
| `HuffmanLengths.TryTree` | dep/bzip2/huffman.c:79-129 | one tree: its lengths are those of a complete and shortest code within the limit, or it is too deep and the weights add up to more than 2 for each symbol |
| `SymbolGroups.AssignGroups` | dep/bzip2/compress.c:342-435 | every group selects a table that codes it in the fewest bits, and each table's frequencies count the symbols of the groups that select it |
| `Decompressor.BooksAgree` | dep/bzip2/bzlib.c:825-850 | what the books say at the end: the bytes given are those of the blocks, every stored checksum is that of its block, and the combined one is mixed from them |
| `StreamReader.ReadMark` | dep/bzip2/decompress.c:221-234 | on any bits: a block is announced exactly by its six bytes, the trailer by its own |
| `StreamReader.ReadHeader` | dep/bzip2/decompress.c:197-209 | on any bits: accepted only if they begin with BZh and a digit from 1 to 9 |
| `StreamFormat.EmptyStream` | dep/bzip2/compress.c:622-665 | the stream of no data, byte by byte |
| `StreamFormat.Rotated` | dep/bzip2/compress.c:607-608 | the combined checksum is rotated left by one bit |
| `DeflateAlphabet.LengthCoded` | dep/zlib/inftrees.c:60-65 | every match length from 3 to 258 is a base and an extra value of some symbol |
| `DeflateAlphabet.LengthOnce` | dep/zlib/inftrees.c:60-65 | of only one among symbols 257 to 284, with one extra value; symbol 285 is 258 alone |
| `DeflateAlphabet.DistanceCoded` | dep/zlib/inftrees.c:66-73 | every distance from 1 to 32768 is a base and an extra value of some symbol |
| `DeflateAlphabet.DistanceOnce` | dep/zlib/inftrees.c:66-73 | of only one symbol, with one extra value |
| `DeflateAlphabet.LengthNext` | dep/zlib/inftrees.c:60-65 | each base is the one before and as many as its extra bits count, from 3 on |
| `DeflateAlphabet.DistNext` | dep/zlib/inftrees.c:66-73 | likewise for distances, from 1 on |
| `DeflateAlphabet.LensEntryMeans` | dep/zlib/inftrees.c:219-230 | the table entry of a length symbol has the extra bits and base of RFC 1951, in closed form |
| `DeflateAlphabet.DistsEntryMeans` | dep/zlib/inftrees.c:219-230 | the table entry of a distance symbol likewise |
| `DeflateMatch.ChainSearch` | dep/zlib/deflate.c:1193-1282 | the loop: of the strings followed so far none agrees on more bytes, and it stops before the last only at a nice length |
| `DeflateMatch.Candidate` | dep/zlib/deflate.c:1240-1271 | a string is passed over only if it agrees on no more than best_len bytes, though two or four bytes are looked at; otherwise the length is that of its full agreement |
| `Deflater.Machine.FastStep` | dep/zlib/deflate.c:1647-1709 | one turn of deflate_fast: the search starts at the head of the chain of the string; the longest match found is told, or a literal if there is none; the strings of a match are inserted exactly if it is short enough and bytes are left |
| `Deflater.Machine.InsertRange` | dep/zlib/deflate.c:1674-1684 | every string of a range that is there is put on the chain of its key, in order |
| `Deflater.Machine.ReadMore` | dep/zlib/deflate.c:1465-1487 | new input is taken in, and the strings left over are inserted as far as they are there |
| `CrcValues.PolyIs` | dep/zlib/crc32.c:97-108 | the register's polynomial is 0xedb88320 |
| `CrcValues.ZlibTable` | dep/zlib/crc32.h:8-33 | the entries at powers of two of the first table are the words listed |
| `CrcValues.TableLinear` | dep/zlib/crc32.c:110-116 | the entry for the exclusive-or of two bytes is the exclusive-or of their entries, which fixes all others |
| `CrcValues.OnesCancel` | dep/zlib/crc32.c:213-239 | the register is complemented before and after: four bytes of ones have the checksum of all ones |
| `CrcValues.BzTable` | dep/bzip2/crctable.c:35-98 | the entries of the table at powers of two |
| `Adler.PackedIs` | dep/zlib/adler32.c:65-133 | the checksum is the formula of section 8.2 of RFC 1950, weighted sum above plain sum |
| `Adler.PackedValues` | dep/zlib/adler32.c:65-133 | 1 for no bytes, 0x024d0127 for "abc" |

## Findings

- `BZ2_decompress` reads the number of selectors from 15 bits and stores each selector in two arrays
  of 18002 entries without comparing the two (dep/bzip2/decompress.c:289-313,
  dep/bzip2/bzlib_private.h:125, 402-403). `SelectorList.ReadSelectors` shows that the stores stay in bounds
  for a well-formed list if and only if it has at most 18002 selectors, and that no other input leads out of
  bounds. `BlockParts.PaddedIsWritten` and `BlockReader.ReadOverlong` give inputs for which it fails: any
  block, with needless selectors added. The compressor writes at most 18001 (`SymbolGroups.ChooseTables`),
  so the round trip holds.
- The comment in dep/zlib/inftrees.h:38-50 gives 852 and 592 as the most table entries that codes for lengths
  and distances can need, and the library provides that many; but dep/zlib/inftrees.c:210-213, 278-282 refuses
  tables that use exactly that many. `TableLimit.BuildTight` shows a complete distance code of 30 symbols that
  needs 592 entries and is refused. `TableBuilder.BuildTable` shows that sound lengths are refused if and only
  if their tables need 852 (592) entries or more, counted by `TableBuilder.SpaceFor` from the lengths alone.

## Left out

bzip2:

- `mainSort`, `mainQSort3`, `mainSimpleSort` and `mainGtU` (dep/bzip2/blocksort.c): blocks of every size are sorted by `fallbackSort`, which has the same postcondition.
- Randomised blocks (dep/bzip2/randtable.c): the compressor never writes them; `BlockReader.ReadStart` refuses them.
- Decompressor.DState.Decompress: drives the FAST output only; `StreamReader.SetUpSmall` shows that the SMALL output gives the same bytes. That `BZ2_decompress` saves its locals and returns when a piece of input is used up, to go on in the next call, is modelled as waiting for the next piece.
- RoundTrip.CompressThenDecompress: for the decoder as `Decompressor.DState.Decompress` models it.
- FallbackQSort.FallbackQSort3: the stacks stackLo and stackHi are one sequence of pairs; the header bits are looked at bit by bit, not by words of 32; fmap and eclass are just long enough.
- SymbolGroups.ChooseTables: the packed fast track for six tables is not separate; each table is proved shortest for the groups that select it, not the choice of groups for all tables together, and that there are four passes is not part of the contract.
- The 32-bit halves of the total counters, the verbosity messages, allocation and its failures.
- What the decoder does after a store past the end of the selector arrays.

zlib:

- Deflater.Machine.Calls: window, head and prev are sequences held in fields, so stores into them in place are not captured; windows have 512 bytes or more; whether output space is used up is a given sequence of answers, one for each time it is asked, since blocks are not written; the high_water zeroing past the data is not needed, as all of the window has a value. Preset dictionaries and changes of level are not modelled.
- `_tr_flush_block` and the block formats: tokens are collected, not coded. `deflate_stored`, `deflate_rle` and `deflate_huff` make no use of chains.
- TokenInflate.InflateCalls: tokens come decoded; the header, block and check states of inflate and its NEEDBITS loops are not modelled. Tables and the fast loop have their own results.
- InflateFast.FastRun.Run: strict checks against dmax and the variant that allows distances too far back are compile-time options that are off.
- TableBuilder.BuildTable: tables start at the head of their array; for code lengths, the caller's tables have index bits enough for the longest one, as all callers have.
- Adler.Adler32: uses the division of the default build; the division-free macros are proved equal to it by themselves.
- `crc32_big`: a mirror image of `crc32_little`. Null buffers for crc32 and adler32.
- gzip and zlib headers, `deflateParams`, `inflatePrime`, `inflateSync`, infback.c and the gz file layer.

The rest of the repository: file and command-line tools, dep/gsoap, dep/SFMT, dep/utf8cpp and dep/acelite.
