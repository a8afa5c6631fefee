# Verification of the zstd entropy coders

This project models the entropy-coding engine of the zstd library bundled under `src/main/native`, and two
stateful parts beside it, and proves what they are for: that what one side writes the other side reads back.
The platform is a 64-bit little-endian machine with a 64-bit bit container. Bytes in memory are arrays; a
register is a natural number below a power of two; streams are specified as bit strings (`Bits`, `Bitstream`).

What is modelled, bottom up:

- **Bit streams** (`BitWriter`, `BitReader`, `BitstreamRuns`): the forward writer and the backward reader, as
  classes with the registers and pointers of the source.
- **FSE** (`Fse*`, `NCount*`, `Histogram`): normalizing a histogram, printing and parsing the distribution,
  spreading symbols over a table, building the two tables, one coding step, and the interleaved payload loops.
- **Huffman** (`Huf*`, `Kraft`, `PrefixCode`): bucket sort, two-queue tree, depth limiter, canonical codes,
  the encoder with two containers and deliberately dirty bits, one and four streams, and the table
  description in both of its forms.
- **Sequences** (`Sequences`, `SequenceDecoder`, `SequenceCodes`, `DefaultTable`): three FSE states and raw bits in
  one stream, the codes of lengths and offsets, and the predefined table of literal lengths.
- **Literals** (`HufCompress`, `Literals`, `LiteralsDecoder`, `LiteralsRun`): the literals section with the
  Huffman table carried from block to block.
- **Pool** (`Pool`, `PoolRuns`): the worker pool, first as a class whose methods are the critical sections,
  then as runs of atomic steps with sleeping and waking.
- **Window** and **SeqStore**: index-to-history bookkeeping and the 16-bit sequence store.

The FSE, table and distribution readers are those of the repository. The decoders for Huffman streams, sequences
and literals are small ones written after RFC 8878 (sections 4.2.2, 3.1.1.3.2.1 and 3.1.1.3.1), which say what a
stream means; the faster ones under `src/main/native/decompress` are not modelled.

Choices that only affect the size of the output (the depth a search over all depths prefers, how the compression
strategy is set) are parameters, and every result holds for all of them.

## What was found

- *The open point in the depth limiter.* `HUF_setMaxHeight` asks why there are always enough rank 0 symbols
  to give back an overshoot. `HufHeight.EnoughRankZero` is the reason: all codes that are not at full length are
  at least k shorter, so rank 0 exceeds the cost by a positive multiple of 2^k.
- *The end rule of FSE has one exception.* The decoder stops by over-reading, which needs a cell that asks for a
  bit. If one symbol fills the whole table no cell does, and the stream cannot be read back at any capacity.
  `FsePayload.FseRoundTrip` is an if-and-only-if with exactly that condition; `FsePayload.OneSymbolFails` is
  an instance. Normalizing reports such input as run-length, so the condition is met in use.
- *A comment in the sort.* `RANK_POSITION_DISTINCT_COUNT_CUTOFF` is 158 + 7 = 165; the comments beside it say 166.
  The model uses 165, with which sorting is correct.
- *A dropped job.* `POOL_tryAdd` during shutdown returns 1 and drops the job. The run results count a job as
  queued only if it was stored.
- *Where indices are corrected.* The guard for index correction looks at the end of a chunk, and the correction is
  made at its beginning. `Window.GuardSuffices` is an if-and-only-if: exactly for chunks of at most 448,790,527
  bytes every correction, whatever cycle and window, exceeds 2^28 as the source asserts. Blocks and long-distance
  chunks are far below that. `ZSTD_CHUNKSIZE_MAX` is above it; `Window.NothingToCorrect` has the cycle and the
  window for which nothing is left to correct then.
- *Table log 6 and below.* The dispatcher lets the last symbol of a group of nine be fast as well, which
  leaves room for only three dirty bits; that is enough because a length of at most 6 fits into three bits.

## Model

| member | source | states |
|---|---|---|
| `BitstreamRuns.WriteThenRead` | src/main/native/common/bitstream.h:150-452 | The stream is a stack: for every legal run of adds and flushes and every legal schedule of (fast) reads and reloads, a non-zero close means nothing was clamped, the widths read in reverse give every masked value back, and the end test holds after exactly those reads that leave nothing |
| `BitstreamRuns.WriteFields` | src/main/native/common/bitstream.h:180-242 | A run of adds and flushes followed by a close leaves the sealed concatenation of all fields in place, or 0, as the capacity decides; no other byte changes |
| `BitstreamRuns.ReadFields` | src/main/native/common/bitstream.h:254-452 | From any byte string that unseals to the fields, reading in reverse returns them, including strings shorter than 8 bytes |
| `BitWriter.CStream.AddBits` | src/main/native/common/bitstream.h:180-188 | Appends exactly the low nbBits bits of the value to what was written, or-ing over the register |
| `BitWriter.CStream.FlushBits` | src/main/native/common/bitstream.h:221-231 | Moves whole bytes to memory without changing what was written; the pointer is clamped at the end and stays there |
| `BitWriter.CStream.Close` | src/main/native/common/bitstream.h:236-242 | 0 exactly when the stream does not fit, else the size of the sealed stream, whose bytes are in place; nothing outside the buffer changes |
| `Bitstream.UnsealSeal` | src/main/native/common/bitstream.h:236-300 | Opening a sealed stream finds exactly the bits that were written |
| `Bitstream.SealUnseal` | src/main/native/common/bitstream.h:254-300 | Every byte string that can be opened is the seal of the bits found in it |
| `BitReader.DStream.constructor` | src/main/native/common/bitstream.h:254-300 | After opening, what is left to read is everything below the end mark, for long and short sources |
| `BitReader.DStream.ReadBits` | src/main/native/common/bitstream.h:362-367 | Takes the field from the end of what is left; asking for more than is left shows as an overflow |
| `BitReader.DStream.ReadBitsFast` | src/main/native/common/bitstream.h:346-377 | The two-shift form reads the same field as the masking form when at least one bit is asked for |
| `BitReader.DStream.Reload` | src/main/native/common/bitstream.h:384-444 | Refilling never changes what is left; the status is overflow exactly after over-reading and completed exactly at the end |
| `BitReader.DStream.EndOfDStream` | src/main/native/common/bitstream.h:449-452 | True exactly when nothing is left |
| `FseSpread.OrbitInjective` | src/main/native/common/fse.h:623 | For table logs from 5 up the fixed odd step enters no cell twice |
| `FseSpread.OrbitReturns` | src/main/native/common/fse.h:623 | After as many steps as there are cells the walk is back at cell 0 |
| `FseSpread.OrbitClosed` | src/main/native/common/fse.h:623 | Step i of the walk is at cell i * (5 * 2^(log - 3) + 3) modulo the table size, in closed form |
| `FseSpread.VisitsPermute` | src/main/native/compress/fse_compress.c:144-167 | Skipping the low-probability area, the walk visits every other cell exactly once |
| `FseSpread.SpreadUnique` | src/main/native/common/fse_decompress.c:74-147 | The layout rules have one solution, so the encoder table and the decoder table agree cell by cell |
| `FseSpread.SpreadCount` | src/main/native/compress/fse_compress.c:100-167 | Every symbol occupies exactly as many cells as its normalized count says |
| `FseLayout.SpreadTwoByTwo` | src/main/native/common/fse_decompress.c:114-133 | The second stage places the symbol laid out at position i in the i-th cell of the walk |
| `FseLayout.SpreadSymbols` | src/main/native/compress/fse_compress.c:111-167 | Both spreads, the two-stage one and the direct one, produce the one layout along that walk |
| `FseTables.BuildCTable` | src/main/native/compress/fse_compress.c:68-214 | The encoding table of the layout along that walk: states grouped by symbol, and for each symbol the shift and offset of its states |
| `FseTables.BuildDTable` | src/main/native/common/fse_decompress.c:58-159 | The decoding table of the same layout; fast mode exactly when no count reaches half the table; for the default literal length distribution DefaultTable.DefaultDTable gives all cells |
| `DefaultTable.DefaultDTable` | src/main/native/decompress/zstd_decompress_block.c:363-399 | For the default distribution of literal lengths, any table the builder may return has fast mode and 64 cells, and every cell is the one printed in the repository and in Appendix A of RFC 8878: next state, bits, and base and extra bits of its code |
| `FseStep.StepInverse` | src/main/native/compress/fse_compress.c:169-200 | Encoding s from any state x and looking up the state reached gives s, the same width, and x back from the emitted bits |
| `FseStep.TablesInverse` | src/main/native/common/fse_decompress.c:149-156 | For every valid distribution and every symbol with cells, the two builders produce mutually inverse tables |
| `FseStep.BuiltDTableOk` | src/main/native/common/fse_decompress.c:78-88 | No cell leads outside the table, and fast mode means that every cell asks for at least one bit |
| `FseStep.FirstUndone` | src/main/native/common/fse.h:443-452 | The initial state of a symbol shows that symbol and asks for at least one bit, unless the symbol fills the whole table |
| `FseState.CState.constructor` | src/main/native/common/fse.h:443-452 | Starts in the state that the transform of the symbol points to, the one FseStep.FirstUndone is about |
| `FseState.CState.Encode` | src/main/native/common/fse.h:454-461 | Moves to the next state and appends exactly the bits the decoder needs to come back |
| `FseState.DState.DecodeSymbol` | src/main/native/common/fse.h:540-549 | Returns the symbol of the state and follows its cell with the bits from the end of the stream, or the stream runs out |
| `FseState.DState.DecodeSymbolFast` | src/main/native/common/fse.h:553-562 | Does the same with the fast read, given that every cell asks for a bit |
| `FsePayload.Compress` | src/main/native/compress/fse_compress.c:551-608 | The unrolled two-state loop writes the sealed bits of encoding the source backwards, one symbol after the other; 0 exactly for sources of at most two symbols and for too little room |
| `FsePayload.Decompress` | src/main/native/common/fse_decompress.c:173-236 | For every byte string, table and capacity the unrolled loop does what a decoder on bit strings does, which reads one symbol at a time, including its errors |
| `FsePayload.PayloadRoundTrip` | src/main/native/common/fse_decompress.c:173-236 | Whenever the last state that is entered asks for a bit, decoding returns the source if there is room for it |
| `FsePayload.FseRoundTrip` | src/main/native/compress/fse_compress.c:551-608 | For every valid distribution and every source of more than two symbols with cells: decompression returns the source if and only if there is room for it and no symbol fills the whole table |
| `FsePayload.OneSymbolFails` | src/main/native/common/fse_decompress.c:207-233 | A distribution that one symbol fills: the stream is written and cannot be read back at any capacity |
| `FseNormalize.NormalizeCount` | src/main/native/compress/fse_compress.c:465-525 | Every error exit; 0 exactly when one symbol is the whole input; otherwise the counts sum to 2^tableLog, are 0 exactly where the histogram is, and are -1 only for allowed low counts. Every count above the threshold first gets a share in proportion; what these leave or lack goes to the first of the largest shares, unless they lack half of it or more: exactly then the fallback decides, and it is the only other source of an error |
| `FseNormalize.ProbaProportional` | src/main/native/compress/fse_compress.c:477-500 | A share v of a count c above the threshold: v > 8 is never above the worth c * 2^log / total of the count, smaller v by less than 11/20; v < 8 is below it by less than 4/5, larger v by less than 2 |
| `FseNormalize.LimitsMean` | src/main/native/compress/fse_compress.c:386-387 | The two limits: counts worth at most one cell, and at most one and a half cells |
| `FseNormalize.ShareBounds` | src/main/native/compress/fse_compress.c:446-458 | In the fallback, wherever the running total stands: a share v of the cells left is less than one cell below the worth of its count, and less than one and a half above it |
| `FseNormalize.FailsAfterRisk` | src/main/native/compress/fse_compress.c:413-460 | The fallback fails only after it gave single cells to more symbols because of the risk of rounding to zero |
| `FseNormalize.NormalizeM2` | src/main/native/compress/fse_compress.c:379-463 | The fallback method reaches a finished distribution at each of its exits. Low counts get one cell, more of them if there is a risk of rounding to zero; what is left goes to the first of the most frequent symbols if none waits with every symbol in one cell, round the positive shares if nothing waits, and otherwise in proportion to those that wait; it fails only if one of these is worth less than a cell |
| `FseNormalize.SharesAddUp` | src/main/native/compress/fse_compress.c:446-460 | The rounded-down running shares of the waiting symbols add up to exactly what was to be distributed |
| `HufWriteTable.HeaderLog` | src/main/native/compress/fse_compress.c:348-369 | The table log chosen for Huffman weights is allowed and not too small |
| `HufWriteTable.LogChosen` | src/main/native/compress/fse_compress.c:348-369 | The log chosen for a table: the wanted one, or for a short source the greatest with 2^(log + minus) below its size, raised to the minimum |
| `FseNormalize.LeastLog` | src/main/native/compress/fse_compress.c:348-354 | The minimum is the least log with 2^log above the size of the source or above twice the greatest symbol |
| `NCountFormat.ReadFieldInverse` | src/main/native/common/entropy_common.c:132-144 | Both field widths are recognized from the bits, whatever follows |
| `NCountFormat.FieldsFill` | src/main/native/common/entropy_common.c:132-144 | The short and long fields fill the code space exactly: twice the number of short ones and the number of long ones make the next power of two |
| `NCountFormat.FieldsFor157` | src/main/native/common/entropy_common.c:132-144 | With 157 values left the fields are those of the example in RFC 8878 section 4.1.1: 7 bits for the values below 98, 8 for the others |
| `NCountFormat.RunWindow` | src/main/native/common/entropy_common.c:83-108 | From a window onto a run of zeros the reader finds the number of repeat codes and the rest |
| `NCountWriter.WriteNCount` | src/main/native/compress/fse_compress.c:234-327 | On success the packed description of the distribution is in place; for a distribution that sums to the table size the only error is too small a buffer |
| `NCountReader.ReadNCount` | src/main/native/common/entropy_common.c:42-187 | Any source that starts with a description yields that distribution, its symbols, its log and its size; whatever the source is, an accepted parse is a distribution that sums to the table size |
| `NCountReader.PackedIsHeader` | src/main/native/compress/fse_compress.c:234-327 | What the writer produced, followed by any bytes, starts with the description: with the two above, the round trip |
| `NCountReader.HeaderPadded` | src/main/native/common/entropy_common.c:53-64 | Parsing a short source in a zero-padded buffer finds the same, within the source |
| `NCountFormat.AccuracyField` | src/main/native/common/entropy_common.c:70-74 | A description starts with the table log less 5 in its four lowest bits |
| `FseDecompress.DecompressWksp` | src/main/native/common/fse_decompress.c:243-289 | On any input fails or stays within the capacity; on a header and payload written from one distribution it restores the source |
| `HufSort.Sort` | src/main/native/compress/huf_compress.c:620-665 | The nodes become the symbols in descending order of count, each once; the tail of the array is untouched |
| `HufSort.IndexMonotone` | src/main/native/compress/huf_compress.c:523-534 | Buckets are ordered like the counts in them, and buckets below the cutoff of 165 hold one count each |
| `HufArrange.SimpleQuickSort` | src/main/native/compress/huf_compress.c:591-607 | Sorts the range and only rearranges it |
| `HufArrange.InsertionSort` | src/main/native/compress/huf_compress.c:555-568 | Sorts the range and only rearranges it |
| `HufArrange.Partition` | src/main/native/compress/huf_compress.c:571-586 | Splits the range around the pivot and only rearranges it |
| `HufTree.TreeIsComplete` | src/main/native/compress/huf_compress.c:681-718 | Depths in the tree that the two queues grow satisfy the Kraft equality and never decrease along the sorted leaves |
| `HufTree.TreeIsOptimal` | src/main/native/compress/huf_compress.c:681-718 | No lengths within the Kraft inequality weigh less than those depths |
| `PrefixCode.KraftInequality` | src/main/native/compress/huf_compress.c:681-718 | Every prefix-free set of codes satisfies the Kraft inequality, which makes the optimality one over all prefix codes |
| `HufBuild.SentinelsChoose` | src/main/native/compress/huf_compress.c:696-706 | The 2^30 and 2^31 sentinels make the plain comparison choose as if the ends of the two queues were known |
| `HufBuild.BuildTree` | src/main/native/compress/huf_compress.c:681-718 | Lengths with Kraft equality, not decreasing, and with minimal total over all prefix codes; the depth is bounded by the Fibonacci growth of the counts; the symbols without a count stay as they were |
| `HufHeight.SetMaxHeight` | src/main/native/compress/huf_compress.c:376-498 | From any sorted complete code of at most 2^target symbols: all lengths in 1..target, Kraft sum exactly 2^target, still sorted, some symbol at the maximum, and no other change to the nodes; the numbers of the clamping stay within 2^largest |
| `HufDepth.SiblingOutweighs` | src/main/native/compress/huf_compress.c:700-706 | A node is no heavier than the sibling of its parent, so the weights along a path add up like Fibonacci numbers |
| `HufDepth.DepthNeedsWeight` | src/main/native/compress/huf_compress.c:681-718 | A tree of depth k takes a sum of counts of at least Fibonacci(k + 2) |
| `HufDepth.DepthInBlock` | src/main/native/compress/huf_compress.c:681-718 | For the counts of one block of 128 KB no symbol is deeper than 24 |
| `HufBuildTable.FinishNodes` | src/main/native/compress/huf_compress.c:756-791 | Sorting, tree and limiter together leave a complete sorted code for the symbols that occur; for the counts of one block the numbers of the clamping stay within 2^24, well inside 32 bits |
| `HufHeight.CostIsMultiple` | src/main/native/compress/huf_compress.c:403-407 | The cost of clamping is a multiple of the unit it is renormalized to, so the shift loses nothing |
| `HufHeight.EnoughRankZero` | src/main/native/compress/huf_compress.c:474-476 | Why an overshoot can be repaid: it is below 2^(k-1), rank 0 plus the overshoot is a multiple of 2^(k-1), and rank 0 has more symbols than the overshoot |
| `HufHeight.EnoughLeft` | src/main/native/compress/huf_compress.c:423-476 | After any choice of the repayment loop, rank 0 still has more symbols than there is to give back |
| `HufHeight.ChooseRank` | src/main/native/compress/huf_compress.c:423-445 | The rank found is occupied, and if its gain exceeds the cost then all ranks below it are empty; no rank above it pays, and it pays itself unless nothing is below it: a rank pays if shortening its last symbol costs no more than shortening the two cheapest one rank below |
| `HufHeight.Repay` | src/main/native/compress/huf_compress.c:423-470 | The repayment loop ends with nothing left to repay and an overshoot that rank 0 can cover |
| `HufHeight.GiveBack` | src/main/native/compress/huf_compress.c:472-493 | Moving rank 0 symbols up ends with Kraft equality |
| `HufTable.BuildCTableFromTree` | src/main/native/compress/huf_compress.c:730-753 | The table of the canonical code with the lengths of the tree, which is complete |
| `HufBuildTable.BuildCTable` | src/main/native/compress/huf_compress.c:756-791 | From a histogram: a complete canonical code within the limit, with codes for exactly the symbols that occur, rarer symbols never shorter; if the longest code is below the limit, no prefix code for these counts takes fewer bits |
| `HufBuildTable.OptimalForSymbols` | src/main/native/compress/huf_compress.c:756-791 | Lengths that are optimal for the sorted nodes are optimal for the symbols of the histogram, over all prefix codes |
| `HufCodes.CodePosition` | src/main/native/compress/huf_compress.c:740-750 | A canonical code value is the first table entry of its symbol in units of its length, so it fits into its bits |
| `HufCodes.OneOwner` | src/main/native/compress/huf_compress.c:740-750 | No table entry belongs to two symbols: the code is prefix-free |
| `HufCodes.HuffmanRoundTrip` | src/main/native/compress/huf_compress.c:985-1042 | Decoding what the encoder appends, symbol by symbol from the end of the stream, gives back the source |
| `HufContainer.AddKeeps` | src/main/native/compress/huf_compress.c:877-909 | Adding an element keeps the bits at the top of the container exact, as long as the dirt of the fast form stays below the slack |
| `HufContainer.MergeKeeps` | src/main/native/compress/huf_compress.c:921-928 | Merging puts the bits of container 1 after those of container 0, dirt and noisy position included |
| `HufContainer.FlushKeeps` | src/main/native/compress/huf_compress.c:937-957 | After a flush of whole bytes the rest is still at the top |
| `HufEncoder.HufCStream.FlushBits` | src/main/native/compress/huf_compress.c:937-957 | The bytes stored are the next bits of the stream; the fast form needs no clamping when there is room |
| `HufEncoder.HufCStream.Close` | src/main/native/compress/huf_compress.c:973-982 | 0 exactly when the stream does not fit, else the sealed bits are in place |
| `HufEncoder.SettingsAreRoomy` | src/main/native/compress/huf_compress.c:1076-1112 | Every unroll and fast setting the dispatcher picks for its table log leaves room for its symbols and their dirt |
| `HufEncoder.EncodeLoop` | src/main/native/compress/huf_compress.c:991-1042 | For any roomy setting the two-container loop appends the code of every symbol in reverse order, exactly |
| `HufEncoder.Compress1X` | src/main/native/compress/huf_compress.c:1056-1118 | Whichever loop is picked, the result is the sealed codes in reverse source order, or 0 exactly when they do not fit |
| `HufStreams.Compress4X` | src/main/native/compress/huf_compress.c:1168-1215 | Not 0 exactly if there are 12 symbols and 17 bytes and each of the four streams fits behind the ones before it and into 16 bits; then the jump table and the four streams are in place |
| `HufStreams.OneStreamDecodes` | src/main/native/compress/huf_compress.c:1056-1118 | Decoding one stream with the RFC rule gives back the source |
| `HufStreams.FourStreamsDecode` | src/main/native/compress/huf_compress.c:1168-1215 | Decoding the jump table and four streams gives back the source |
| `HufStreams.FourSegments` | src/main/native/compress/huf_compress.c:1172-1172 | Four segments of the common size cover the source, and the last one is shorter by at most three symbols |
| `HufWriteTable.CompressWeights` | src/main/native/compress/huf_compress.c:147-186 | A result above 1 is a block that FSE decompression restores to the weights; 1 exactly if all weights are equal, 0 for a single weight, for weights that each occur once, and when the payload does not fit; an error only if normalizing fails or the distribution does not fit |
| `HufWriteTable.WriteCTable` | src/main/native/compress/huf_compress.c:248-289 | On success a description of the weights of all symbols but the last is in place, in one of the two forms: compressed exactly if that takes more than 1 byte and less than half a byte per weight, otherwise nibbles for up to 128 weights and room for them, and in all other cases an error |
| `HufWriteTable.HalfByteEach` | src/main/native/compress/huf_compress.c:269-288 | A description takes half a byte per weight and one at most, and never more than 129 bytes |
| `HufReadTable.Recovers` | src/main/native/common/entropy_common.c:276-300 | From the written weights the reader recovers table log and last weight, and its parity test on the number of ones passes |
| `HufReadTable.ReadStats` | src/main/native/common/entropy_common.c:243-306 | Whatever is accepted is a complete code; every description of one is accepted with its weights and log |
| `HufReadTable.ReadCTable` | src/main/native/compress/huf_compress.c:292-343 | Whatever is accepted becomes the table of a complete canonical code; every description gives its lengths back, and tells whether some symbol has no code |
| `HufHeader.WriteThenRead` | src/main/native/compress/huf_compress.c:146-343 | For every complete table with the last symbol in use: writing then reading, with any bytes after it, gives the identical header and elements |
| `Sequences.EncodeOne` | src/main/native/compress/zstd_compress_sequences.c:318-371 | One round appends state bits and extra bits of one sequence; no add overflows the register under the conditional flushes, with offsets of up to 31 bits |
| `Sequences.EncodeSequences` | src/main/native/compress/zstd_compress_sequences.c:291-382 | The result is the sealed stream of all sequences and the three final states, or the capacity error exactly when it does not fit; that the extra bits suffice is SequenceCodes.CodesRestore |
| `SequenceDecoder.SequenceRoundTrip` | src/main/native/compress/zstd_compress_sequences.c:291-382 | With tables that undo each other, the decoder of RFC 8878 section 3.1.1.3.2.1 recovers the codes and extra bits of every sequence in order and uses up the stream |
| `SequenceDecoder.BlockRoundTrip` | src/main/native/compress/zstd_compress_sequences.c:291-382 | The same for tables built from any three distributions or single symbols that give every code cells; the lengths and offsets themselves come back by SequenceCodes.LengthsRoundTrip |
| `SequenceDecoder.RleUndone` | src/main/native/compress/fse_compress.c:528-548 | A run-length table is undone by the one-cell table of RLE mode |
| `SequenceCodes.LLDetermined` | src/main/native/compress/zstd_compress_internal.h:584-596 | For every literal length below 128 KB: the base of its code and as many low bits as the code has extra bits make up the length |
| `SequenceCodes.MLDetermined` | src/main/native/compress/zstd_compress_internal.h:598-615 | The same for every match length |
| `SequenceCodes.OffsetDetermined` | src/main/native/compress/zstd_compress.c:2705-2709 | The same for every offset: the code is the highest bit |
| `SequenceCodes.CodesRestore` | src/main/native/common/zstd_internal.h:119-145 | What a decoder can see of a coded sequence, codes and extra bits, gives back literal length, match length and offset |
| `SequenceCodes.SeqToCodes` | src/main/native/compress/zstd_compress.c:2693-2719 | With the codes it stores, every stored sequence, the one with the long length included, is coded by its true lengths; no other byte of the code tables changes |
| `SequenceCodes.LengthsRoundTrip` | src/main/native/compress/zstd_compress_sequences.c:291-382 | For all sequences of a block and any three distributions or single symbols that have their codes: the decoder recovers every literal length, match length and offset |
| `HufCompress.ValidateCTable` | src/main/native/compress/huf_compress.c:804-819 | True exactly when every byte of the block has a code in the table |
| `HufCompress.HuffLogSuffices` | src/main/native/compress/huf_compress.c:1254-1327 | Whatever depth the search prefers, the table log has room for all symbols that occur |
| `HufCompress.CompressCTable` | src/main/native/compress/huf_compress.c:1224-1239 | Not 0 exactly if the streams fit and save two bytes together with what is before them; then they are in place |
| `HufEstimate.EstimateIsSize` | src/main/native/compress/huf_compress.c:793-802 | The lengths of the codes weighted with the counts add up to the length of the stream |
| `HufEstimate.EstimateCompressedSize` | src/main/native/compress/huf_compress.c:793-802 | The estimate is the length of the stream in whole bytes, without the end mark |
| `HufCompress.LooksIncompressible` | src/main/native/compress/huf_compress.c:1365-1379 | Gives up exactly if suspected, from 40960 bytes on, and no two bytes occur more than 68 times together, one in the first and one in the last 4096 bytes |
| `HufCompress.StreamsSize` | src/main/native/compress/zstd_compress_literals.c:192-201 | Eight symbols never fit into a stream of one byte |
| `HufCompress.CompressInternal` | src/main/native/compress/huf_compress.c:1333-1434 | What the block becomes is decided by its content and the sizes: nothing if empty, too long or without room, sampled flat under suspicion, or flat; one byte exactly if all are equal (and no valid table is preferred); the carried table only with a code for every byte, if preferred or no longer than a new one with its description; else the new description and streams, which replace the carried table; and 0 if the chosen streams do not fit or do not pay |
| `HufCompress.GivenUpFor` | src/main/native/compress/huf_compress.c:1333-1434 | A block is given up only for one of these reasons: empty, too long, no room, flat in the samples or as a whole, no description of the new table or none within 12 bytes of the block, or streams that do not fit or do not save two bytes |
| `Literals.CompressedHeaderRead` | src/main/native/compress/zstd_compress_literals.c:208-232 | All three header forms read back: type, streams, and both sizes, including the byte for what is cut off at 32 bits |
| `Literals.PlainHeaderRead` | src/main/native/compress/zstd_compress_literals.c:39-107 | The three forms of raw and RLE headers read back |
| `Literals.TypeFields` | src/main/native/compress/zstd_compress_literals.c:39-232 | The type is in the two lowest bits of every header: 0 raw, 1 RLE, 2 compressed, 3 treeless |
| `Literals.NoCompressLiterals` | src/main/native/compress/zstd_compress_literals.c:39-66 | Header and literals in place, or the capacity error exactly when they do not fit |
| `Literals.CompressRleLiterals` | src/main/native/compress/zstd_compress_literals.c:81-107 | Header and the one byte |
| `Literals.AllBytesIdentical` | src/main/native/compress/zstd_compress_literals.c:68-79 | True exactly when all bytes are equal |
| `Literals.SingleIsIdentical` | src/main/native/compress/zstd_compress_literals.c:192-201 | A result of size 1 on eight or more bytes stands for a single repeated byte |
| `Literals.CompressLiterals` | src/main/native/compress/zstd_compress_literals.c:129-235 | The section is valid for one of the four types; it is raw exactly if compression is off, the literals are too few, the header has no room, or the coder gives up or gains less than the least gain; four streams from 256 literals on, from 1024 with a valid table; the table and mode passed on are those from before unless a new table was sent, in which case it is that one, to be checked; treeless only with a table carried over; an error exactly if the raw section does not fit |
| `Literals.LeastLiterals` | src/main/native/compress/zstd_compress_literals.c:109-127 | With a valid table from 6 literals on, otherwise from 8 on for the highest strategy and twice as many for each one below, up to 64 |
| `Literals.LeastGain` | src/main/native/compress/zstd_compress_internal.h:677-683 | The least gain is two bytes and a 64th of the literals, a 128th and a 256th for the two highest strategies |
| `LiteralsDecoder.DecodeLiterals` | src/main/native/compress/zstd_compress_literals.c:129-235 | A decoder after RFC 8878 section 3.1.1.3.1 restores the literals from any such section, with anything after it, and ends with the table that was sent last |
| `LiteralsRun.SendAll` | src/main/native/compress/zstd_compress_literals.c:129-235 | Over every run of blocks, kept or dropped, with whatever choices and capacities: the carried table and the decoder agree, and every kept block arrives unchanged |
| `Pool.PopKeeps` | src/main/native/common/pool.c:84-88 | The slot at the head holds the oldest waiting job, and after the pop the ring holds the others in order, wrapped around or not |
| `Pool.AddKeeps` | src/main/native/common/pool.c:261-284 | Unless the ring counts as full, the slot at the tail holds no waiting job; after the store the ring holds the job behind all others, also in the ring of one slot |
| `Pool.FullMeans` | src/main/native/common/pool.c:255-270 | A ring counts as full exactly when its capacity of jobs wait; one without a queue when a job waits or the busy threads are at the limit |
| `Pool.Ctx.constructor` | src/main/native/common/pool.c:115-160 | An empty ring with one slot more than asked for, nothing waiting or running |
| `Pool.Ctx.Pop` | src/main/native/common/pool.c:84-88 | Takes the first of the waiting jobs and leaves the others waiting in order; fewer threads than the limit were busy, and one more is now |
| `Pool.Ctx.AddInternal` | src/main/native/common/pool.c:272-284 | Puts the job behind all waiting jobs; once the pool shuts down it changes nothing |
| `Pool.Ctx.TryAdd` | src/main/native/common/pool.c:261-310 | Refuses exactly when the queue is full, that is when its capacity of jobs wait, or in a pool without a queue when one waits or the limit of threads is busy; otherwise the job waits behind all others, except that during shutdown it is dropped and success reported |
| `Pool.Ctx.ResizeInternal` | src/main/native/common/pool.c:215-241 | The limit changes unless the pool would have no thread or a thread could not be created; no waiting job is touched |
| `PoolRuns.StepKeeps` | src/main/native/common/pool.c:67-310 | Every atomic step of every thread keeps the invariant that ties ring, jobs, workers, busy count and limit together |
| `PoolRuns.TakenBelowLimit` | src/main/native/common/pool.c:74-88 | In every run: jobs are taken one at a time, the oldest first, by the worker that checks, and only while fewer threads are busy than the limit allows |
| `PoolRuns.CheckTakes` | src/main/native/common/pool.c:74-104 | The converse: an awake worker that checks while a job waits and fewer threads are busy than the limit takes that job; otherwise it sleeps, or leaves at shutdown |
| `PoolRuns.BusyWithinLimit` | src/main/native/common/pool.c:67-310 | At every point of every run the busy threads are at most the greatest limit so far |
| `PoolRuns.PoolIsSafe` | src/main/native/common/pool.c:67-310 | In every run: jobs are taken in order, each once; the ring holds exactly the rest; an idle flagged-empty pool has finished everything; once all workers are gone nothing is queued; while jobs wait some worker is awake or busy |
| `PoolRuns.NoLostWakeUp` | src/main/native/common/pool.c:67-104 | While a job waits and a worker sleeps, the workers awake or busy reach the thread limit or are awake for every waiting job, also after the limit was lowered or raised |
| `Window.Window.constructor` | src/main/native/compress/zstd_compress_internal.h:1334-1343 | An empty window at index 2 |
| `Window.Window.Clear` | src/main/native/compress/zstd_compress_internal.h:1041-1048 | Nothing is in reach and the next index is unchanged |
| `Window.Window.Update` | src/main/native/compress/zstd_compress_internal.h:1354-1390 | Every index in reach names the byte of the history it named before, new input gets the next indices, dictionary and prefix memory stay disjoint, and input over the dictionary takes exactly the bytes up to the last overwritten one out of reach |
| `Window.UpdateKeeps` | src/main/native/compress/zstd_compress_internal.h:1366-1388 | Why overlapping input does not make a reachable index name another byte |
| `Window.OnlyTouchedLost` | src/main/native/compress/zstd_compress_internal.h:1380-1388 | An index of the dictionary stays in reach exactly if the input ends below its byte or does not touch the dictionary |
| `Window.Window.EnforceMaxDist` | src/main/native/compress/zstd_compress_internal.h:1256-1292 | After it nothing further than maxDist is in reach, nothing nearer is lost, and no index changes its meaning |
| `Window.Window.CorrectOverflow` | src/main/native/compress/zstd_compress_internal.h:1159-1230 | All indices shrink by the correction and name the same bytes, the low cycleLog bits of the current index stay, and at least 2 indices stay below newCurrent - maxDist |
| `Window.CycleKept` | src/main/native/compress/zstd_compress_internal.h:1181-1200 | The arithmetic of that: the restart point keeps the cycle position for any power-of-two maxDist |
| `Window.LargeCorrection` | src/main/native/compress/zstd_compress_internal.h:1159-1204 | From index 3 * 2^30 + 2 on, every correction exceeds 2^28 and leads back below that index, for every cycle and window |
| `Window.NothingToCorrect` | src/main/native/compress/zstd_compress_internal.h:1181-1198 | Below that index the largest cycle and window leave nothing to correct |
| `Window.GuardSuffices` | src/main/native/compress/zstd_compress_internal.h:1132-1204 | The guard at the end of a chunk makes the correction at its beginning a large one exactly for chunks of at most 448790527 bytes |
| `Window.Window.OverflowCorrectIfNeeded` | src/main/native/compress/zstd_compress.c:4526-4547 | After it the end of the chunk is within the maximal index; a correction is made exactly if it was not before, exceeds 2^28, keeps the cycle position, drops the dictionary, and every byte up to maxDist back is named by its corrected index |
| `SeqStore.OneLong` | src/main/native/compress/zstd_compress_internal.h:735-767 | In a block of at most 128 KB with matches of at least 3, one length at most exceeds 16 bits |
| `SeqStore.Store.StoreSeqOnly` | src/main/native/compress/zstd_compress_internal.h:735-767 | The sequence is appended, and the one place for a long length is free whenever it is needed |
| `SeqStore.Store.GetSequenceLength` | src/main/native/compress/zstd_compress_internal.h:126-140 | Returns the literal and match length that were stored, for every sequence |
| `Histogram.CountSimple` | src/main/native/compress/hist.c:39-64 | How often each symbol occurs, the greatest symbol that occurs, and the largest count |

## Left out

- All code in `jni_*.c` and the Java class: argument checks and foreign calls around the library.
- Compression contexts, match finders, long-distance matching, multithreaded compression and frame assembly (`zstd_compress.c`, `zstd_fast.c`, `zstd_lazy.c`, `zstd_opt.c`, `zstd_ldm.c`, `zstdmt_compress.c` and what belongs to them): the model starts where literals, sequences and window segments have been chosen.
- The Huffman, sequence and literals decoders of `src/main/native/decompress`, with their multi-symbol tables and assembly: the round trips are against the decoders of the format instead.
- 32-bit and big-endian variants, BMI2 and assembly dispatch, prefetching, sanitizer and debug macros.
- Workspace alignment and size arithmetic, and failure to allocate: workspaces are arrays that are large enough.
- Unchecked writes: `BIT_flushBitsFast`, the `fast` payload encoder and the unchecked NCount writer (`writeIsSafe`); the bounds `FSE_NCountWriteBound` and `FSE_BLOCKBOUND` are not proved.
- Four-table counting in `HIST_count_wksp`: counting is modelled by `HIST_count_simple`, which computes the same histogram.
- `ZSTD_selectEncodingType`, and the search in `HUF_optimalTableLog` for the two highest strategies: its outcome is a parameter, within the range the code allows.
- A limit above 12 bits: the error exit of `HUF_buildCTable_wksp` for it.
- The width of node counts, which are unbounded integers; that the depth limiter's numbers fit 32 bits is proved for the counts of one block (`HufBuildTable.FinishNodes`).
- The predefined tables of offsets and match lengths, and the choice of table mode in the sequences section; the round trips hold for any distributions.
- Repeat offsets and match finding: sequences come with their offset base, which the decoder recovers.
- Wake-up fairness between callers of `POOL_joinJobs` and `POOL_add` that wait on the same condition: the code does not establish it.
- Joining and freeing threads: a worker that has left the loop is gone; the system call that waits for it is not modelled.
- Whether `FSE_normalizeM2` can fail: `FseNormalize.NormalizeM2` says what must hold if it does.
- FseNormalize.NormalizeCount: is stated for at least two symbols in the alphabet and a total of at least 2, as the source asserts, and of at most 2^30, below which its fixed-point products fit 64 bits.
- FseTables.BuildCTable: the packed 16-bit and 32-bit layout of the table in memory is not modelled, only its fields.
- Window.Window.OverflowCorrectIfNeeded: is stated for chunks of at most 448,790,527 bytes; for longer ones `Window.GuardSuffices` shows that the source's own assertion on the size of the correction fails for some cycle and window. The reduction of the indices stored in match finder tables is not modelled.
- Window.Window.Update: addresses are integers in one address space, and the content of memory is what the caller says it wrote. The end of the input stays below 2^32, as the source asserts.
