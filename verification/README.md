# Verified model of the JPEG entropy coders and their control logic

The repository bundles the Independent JPEG Group's library, version 8 (`Unix_program/jpeg-8`). This project models the
lossless half of that library in Dafny and proves that its two sides fit together: what the compressor writes, the
decompressor reads back.

- **Arithmetic coding** (`jcarith.c`, `jdarith.c`, `jaricom.c`): the adaptive binary coder, the statistical models,
  whole scans with restart intervals, whole files.
- **Huffman coding** (`jchuff.c`, `jdhuff.c`): derived tables and the lookahead decoder, bit packing and byte stuffing,
  sequential scans, progressive scans with end-of-band runs and deferred correction bits, suspension, optimal tables,
  coding in two passes, whole files.
- **Scan scripts and passes** (`jcmaster.c`, `jcparam.c`, `jcapimin.c`).
- **Buffer controllers** (`jccoefct.c`, `jctrans.c`, `jdcoefct.c`, `jdinput.c`, `jdmainct.c`).
- **Marker writer and reader** (`jcmarker.c`, `jdmarker.c`).

Check it with `dafny verify dfyconfig.toml`.

## How it is built

Most parts come twice. A module of functions says what is written and read (decisions, items, bits, bytes), and lemmas
state the properties. Classes and methods (`...Object` modules, `BitWriting`, `BitReading`, the controllers) update
registers, counters, arrays and blocks in place as the C code does, with its loops, and their contracts tie the new state
to those functions. What the lemmas say about the functions therefore holds of the routines.

What is written and what is read could fit together and still be wrong. Modules whose names begin with `Standard`, and
`EstimationColumns`, `ScriptRules`, `RasterOrder` and `HeaderTables`, therefore state once more, from the coefficients, the
script or the fields alone and without the functions that the routines are proved against, which decision, symbol, block or
byte stands where, and prove that the functions come to the same.

Whole files are put together in three steps. `ScanImages` says, for either entropy coder, what a scan does to the blocks it
visits and what an accepted script leaves. `ScanPlans` derives from the geometry of the image which blocks every scan visits,
in which order, and that these are the MCUs of the coefficient controllers. `ArithFile` and `HuffmanFile` add the coders.

Conventions:

- Registers are integers, and their bounds are proved; where the C code truncates, the model does (`Short`, `% 0x10000`).
  Of the Huffman encoder's bit buffer only the 24 bits that count are modelled.
- An error exit is a failure result. Arithmetic decoding after a corrupt category ("Bad code", a warning in the source) is
  the result `Bad`, or the status `Damaged`.
- The data source is a byte sequence. A suspending source refuses every refill; bytes that come later are appended behind
  those not yet read.
- Blocks are in zigzag order: `natural_order` is taken as given, and positions behind the block are stored at position 63.
- A table number of the Huffman coder counts DC tables first, then AC tables.
- The objects of the source are split where their parts do different work: `ArithEncoder` and `ArithMcuEncoder`;
  `HuffmanEncoder`, `HuffmanSequentialEncoder` and `HuffmanAcEncoder`.
- Renormalisation is a `while` loop where the source has `do ... while`; it is entered only when a shift is due.

## Where the code does not keep its promise

Four properties that one would expect fail. For each there is an input that shows it, and the exact condition under
which the property holds.

- **Optimal tables** (`jchuff.c:1372-1385`). A symbol that occurs more often should have no longer code. The source lists the
  symbols by the sizes before they are limited to sixteen bits and wonders in a comment why that should do. The table is legal
  all the same, and for sizes up to 16, so for every total below 4181, the order is right
  (`TableOrder.HeavierHasNoLongerCode`). Where lengths are limited, symbols of one size get different lengths by their values:
  `LimitedTable.HeavierGetsLongerCode` gives counts of eighteen symbols for which seven occurrences get 16 bits and five get 15.
  `TableOrder.ExactlyWhenHeavierIsLonger` states for any two symbols of any table when that happens, as an equivalence.
- **Context rows** (`jdmainct.c:266-299`, `jdmainct.c:439-443`). Above and below the image the nearest row should be
  repeated. But the last row group of an iMCU row is shown when the next iMCU row has been read and before
  `set_bottom_pointers` has repeated its last row. If the next row group is the last of the image and not full, the
  upsampler sees padding. `ContextRows.WindowIsClamped` states the condition as an equivalence,
  `ContextRows.LastWindowShowsPadding` gives an image of five rows, and `ContextRows.SingleRowsAreClamped` shows that it
  takes a row group of at least two rows, such as a vertical factor of 2 under a maximum of 4.
- **Arithmetic conditioning** (`jcmarker.c:253-256`, `jdmarker.c:401-406`). The writer emits any DC bounds, the reader
  refuses a lower bound above the upper one. `HeaderSegments.DacReads` states when conditioning is read back,
  `HeaderRoundTrip.BoundsOutOfOrder` gives lower bound 1 and upper bound 0.
- **Component identifiers** (`jdmarker.c:330-346`). The reader takes the first component of the frame with the identifier
  that a scan header names, and nobody asks for different identifiers. `HeaderRoundTrip.SecondIsTakenForFirst` gives a frame
  in which a scan of the second component is read as a scan of the first. `HeaderRoundTrip.UnderstoodExactly` states for
  both causes together when a scan header is understood, as an equivalence.

## Model

| member | source | states |
|---|---|---|
| ArithDecoding.ArithmeticCodingIsLossless | Unix_program/jpeg-8/jcarith.c:219-311 | Any sequence of decisions on any bins, coded from the start of a segment, finished and stuffed, and followed by any marker, is decoded to the same bits, and leaves the statistics as the encoder left them. |
| ExactInterval.EncoderRefinesExactCoder | Unix_program/jpeg-8/jcarith.c:235-310 | After any decisions the bytes written, pending zeros, buffered byte, stacked 0xFF bytes and register, read as one number, are the base of the interval of an unbounded-precision coder; both intervals have the same size, between 0x8000 and 0x10000. |
| ExactInterval.SegmentIsInsideExactInterval | Unix_program/jpeg-8/jcarith.c:140-193 | The finished segment, read as a binary fraction, is a number of the final exact interval. |
| ShortestSegment.SegmentIsShortest | Unix_program/jpeg-8/jcarith.c:136-193 | No sequence of fewer bytes denotes a number of the final exact interval, so a segment takes as few bytes as possible. |
| ArithCoding.FinalPointEndsInMostZeros | Unix_program/jpeg-8/jcarith.c:140-147 | Whatever digits precede the register, the point sent ends in at least as many zero bits as any other point of the interval. |
| ExactInterval.SegmentHasNoFinalZero | Unix_program/jpeg-8/jcarith.c:148-193 | The last data byte of a finished segment is never zero. |
| ArithCoding.CarryIsCaught | Unix_program/jpeg-8/jcarith.c:265-309 | A byte that is due for output is at most 0x11F, so one carry suffices, and at most 0xFF while no byte is buffered, so there is always a byte to take the carry. |
| Bytes.StuffedHasNoMarker | Unix_program/jpeg-8/jcarith.c:268-303 | Behind stuffing every 0xFF is followed by a zero byte. |
| ArithEncoderObject.ArithEncoder.ArithEncode | Unix_program/jpeg-8/jcarith.c:219-311 | Registers, statistics and output become those of the value-level coder after one decision more; the output stays the stuffed data of the segment. The less probable symbol moves the bin to the next state of its column and turns its sense over in exactly ten states; the more probable one moves it only with a renormalisation, and never turns it over. |
| ArithEncoderObject.ArithEncoder.FinishPass | Unix_program/jpeg-8/jcarith.c:133-193 | Appends exactly what completes the segment. |
| ArithDecoderObject.ArithDecoder.ArithDecode | Unix_program/jpeg-8/jdarith.c:106-182 | Fails just if the source is dry, and otherwise gives the bit, the registers and the bin of the value-level decoder; no other bin changes, and the bin adapts to the bit found as in the encoder, by the same columns. |
| EstimationColumns.LookupGivesColumns | Unix_program/jpeg-8/jaricom.c:31-153 | Each of the 114 states has the interval size, the two next states and the switch of the sense that the columns of the table, written down one by one, give. |
| EstimationColumns.ChoiceIsByColumns | Unix_program/jpeg-8/jcarith.c:229-259 | A decision cuts the interval in two, the part of the column size on top; the more probable symbol takes the larger part, and the bin adapts by the columns. |
| ArithCoding.FixedBinStays | Unix_program/jpeg-8/jaricom.c:146-152 | A bin in state 113 keeps that state through any run. |
| ArithScan.ScanKeepsFixedBin | Unix_program/jpeg-8/jcarith.c:930-933 | Through the intervals of a scan, resets at restarts included, the bin for evenly distributed decisions keeps state 113. |
| ArithBins.DcBinRanges | Unix_program/jpeg-8/jcarith.c:715-770 | For differences up to 0x8000 all DC decisions use bins below 49 of their area; context, category and pattern bins do not meet. |
| ArithBins.AcBinRanges | Unix_program/jpeg-8/jcarith.c:771-817 | For coefficients up to 0x8000 position, category and pattern bins of AC coding do not meet, and all lie below 245. |
| ArithScan.ScanIsLossless | Unix_program/jpeg-8/jcarith.c:686-823 | A scan of any kind (sequential, DC or AC, first or refining), with restart intervals and DC prediction, is decoded to the coefficients at the precision of the scan, and leaves the same statistics; DC scans whatever the decoder holds, AC scans on top of what the scans before have left. |
| ScanImages.ScriptIsHeld | Unix_program/jpeg-8/jcmaster.c:342-473 | Whatever script is accepted, sequential or progressive: every scan finds in the decoder's arrays what it needs, and at the end every block that all scans of its component visit is at the precision of its last scans. Other blocks, which only fill up MCUs, may be visited by some scans and not by others. |
| ScanImages.ArraysStayShort | Unix_program/jpeg-8/jdhuff.c:855-895 | Through all scans the decoder's arrays stay within 16 bits to a coefficient, also where a refinement sets a bit of a block that has not been sent before. |
| ScanPlans.PlanHas | Unix_program/jpeg-8/jcmaster.c:556-629 | An interleaved scan goes exactly once through every block of the full-image buffers, a scan of one component exactly once through the blocks of the image and through no others. |
| ScanPlans.ScansCover | Unix_program/jpeg-8/jdinput.c:388-462 | For any image size and sampling factors every scan goes through all blocks of the image of its components, and AC scans through no dummy block. |
| ScanPlans.McusCarry | Unix_program/jpeg-8/jccoefct.c:275-320 | The blocks that the plan of a scan takes from the padded buffers are the MCUs that the coefficient controllers send, dummy blocks included, in their order. |
| ArithFile.ScansAreLossless | Unix_program/jpeg-8/jdarith.c:637-675 | If the validator accepts the script, decoding the arithmetic-coded scans one after another leaves every block of the image at its last `Al`: DC by arithmetic shift, AC by magnitude. |
| ArithFile.FrameIsLossless | Unix_program/jpeg-8/jcarith.c:686-823 | The same over the geometry of any image, with dummy blocks at its edges in interleaved scans and any restart intervals. |
| ArithFile.CompleteFrameIsRestored | Unix_program/jpeg-8/jcparam.c:559-632 | An image of any size and sampling factors, coded with the recommended progressive script or an accepted sequential one, is decoded to exactly its blocks. |
| HuffmanFile.ScansAreLossless | Unix_program/jpeg-8/jdhuff.c:1316-1360 | The same for Huffman-coded files: first DC, refining DC, first AC, refining AC and sequential scans, each with its own tables and restart intervals; the accepted script alone makes each of them find what it needs. |
| HuffmanFile.FrameIsLossless | Unix_program/jpeg-8/jdhuff.c:766-1050 | The same over the geometry of any image, with dummy blocks at its edges in interleaved scans and any restart intervals. |
| HuffmanFile.CompleteFrameIsRestored | Unix_program/jpeg-8/jcparam.c:497-557 | With the recommended script or an accepted sequential one the blocks of the image come back exactly. |
| ArithMcuEncoderObject.ArithMcuEncoder.EncodeMcu | Unix_program/jpeg-8/jcarith.c:686-823 | Keeps that output, statistics, predictions and counters are those of the MCUs coded so far, split into intervals as restarts fall due; the decisions since the last restart are, bin by bin, those of the standard for the blocks since then, and a restart clears the statistics in use. |
| StandardDecisions.IntervalIsStandard | Unix_program/jpeg-8/jcarith.c:361-823 | For any blocks of an interval the encoder makes the decisions that ITU-T T.81 lays out from the coefficients alone: which bin each of them uses and what it says, for DC differences to the block before in the same component, for bands, and for their refinement. |
| StandardDecisions.CategoryBinsFollowKx | Unix_program/jpeg-8/jcarith.c:793-806 | For a magnitude of at least three, the category decisions behind the first two lie in bins 189 to 202 of the area up to the conditioning value and in bins 217 to 230 beyond it, those for its bits 14 bins further. |
| StandardDecisions.ContextIsClass | Unix_program/jpeg-8/jcarith.c:431-436 | The context for the next difference depends on the sign and on whether the magnitude is at most half of 2^L or exceeds 2^U. |
| StandardDecisions.RestartClearsUsedAreas | Unix_program/jpeg-8/jcarith.c:330-344 | On both sides a restart sets exactly the bins of the areas that the scan uses to zero. |
| StandardDecisions.StandardIntervalIsRead | Unix_program/jpeg-8/jdarith.c:503-623 | Given the decisions of the standard, the reader finds the coefficients at the precision of the scan and keeps the same predictions. |
| StandardDecisions.OnlyTheScansCoefficients | Unix_program/jpeg-8/jdarith.c:311-623 | Whatever bits are read, corrupt ones included, a block keeps every coefficient that the scan is not for. |
| ArithMcuDecoderObject.ArithMcuDecoder.DecodeMcu | Unix_program/jpeg-8/jdarith.c:503-623 | Gives blocks, predictions and decoder state of the value-level reading, after a restart if one is due; on corrupt data it gives up the segment, on a dry source it fails. |
| HuffmanCode.PrefixFree | Unix_program/jpeg-8/jchuff.c:190-245 | In a legal code no word is a prefix of another. |
| HuffmanCode.NotAllOnes | Unix_program/jpeg-8/jchuff.c:206-226 | In a legal code no word consists of ones only. |
| StandardSegments.CodesInTurn | Unix_program/jpeg-8/jchuff.c:206-226 | The first word consists of zeros, and every word is the number after the one before it, with zeros appended up to its length. |
| HuffmanTables.MakeEncoderTable | Unix_program/jpeg-8/jchuff.c:161-262 | Fails just if the table is not legal, has a symbol twice, or a DC symbol above 15; otherwise every symbol gets its canonical word, and the others size 0. |
| HuffmanTables.MakeDecoderTable | Unix_program/jpeg-8/jdhuff.c:323-437 | Fails just if the table is not legal or a DC symbol is above 15; otherwise maxcode, valoffset and the lookahead tables are those of the same canonical code. |
| HuffmanTables.EncoderTablesDecode | Unix_program/jpeg-8/jdhuff.c:428-436 | Every table that the encoder takes is taken by the decoder. |
| StandardItems.EncoderAsksFor | Unix_program/jpeg-8/jchuff.c:228-258 | Of a table the encoder asks for a legal code without a symbol twice, and of a DC table besides what the decoder asks. |
| StandardItems.DcSizesAreSmall | Unix_program/jpeg-8/jdhuff.c:428-436 | The decoder takes exactly those legal DC tables from which no bits can give a size above 15. |
| HuffmanTables.LookaheadAgrees | Unix_program/jpeg-8/jdhuff.c:168-188 | Where the 8-bit lookahead has an entry, bit-by-bit matching finds the same symbol with the same length; where it has none, the code is longer than 8 bits. |
| HuffmanTables.SymbolIsFound | Unix_program/jpeg-8/jdhuff.c:592-627 | Whatever bits follow, matching at the code that the encoder's table has for a symbol finds that symbol with that length. |
| StandardSegments.MatchFindsWords | Unix_program/jpeg-8/jdhuff.c:592-627 | Matching finds exactly the word that stands in front of the bits; if none does, it asks for more bits up to sixteen and gives up with seventeen. |
| StandardSegments.NoWordIsZero | Unix_program/jpeg-8/jdhuff.c:617-625 | Bits that no word fits give the symbol zero and cost seventeen bits. |
| BitReading.BitReader.HuffDecode | Unix_program/jpeg-8/jdhuff.c:592-627 | Gives the symbol whose word stands next and takes exactly its bits; suspends only if no marker is ahead; behind a marker it supplies zero bits and sets the flag. |
| BitReading.BitReader.FillBitBuffer | Unix_program/jpeg-8/jdhuff.c:465-562 | Loading bytes does not change the bits ahead, stuffed zeros removed; a failed attempt changes nothing. |
| BitWriting.BitWriter.EmitBits | Unix_program/jpeg-8/jchuff.c:307-341 | The bits sent grow by exactly the code; never more than seven bits stay in the buffer, and every 0xFF byte is stuffed. |
| StandardSegments.PaddedWithOnes | Unix_program/jpeg-8/jchuff.c:386-404 | A segment is filled up to whole bytes with fewer than eight bits, all of them ones. |
| StandardSegments.MarkersInTurn | Unix_program/jpeg-8/jchuff.c:490-509 | Between the segments of a Huffman-coded scan stand the bytes 0xFF and 0xD0 to 0xD7 in turn. |
| StandardSegments.IntervalsInTurn | Unix_program/jpeg-8/jcarith.c:319-353 | The same for arithmetic-coded intervals, each of which starts with the statistics that the restart before it leaves. |
| HuffmanSequential.SequentialScanIsLossless | Unix_program/jpeg-8/jchuff.c:916-1065 | Any blocks in range, with DC prediction and restart intervals, coded to stuffed bytes with restart markers: the reader finds every interval, reads every block into its cleared area (for a first DC scan, at its precision and into any area), and is left with less than a byte of ones. |
| StandardItems.IntervalIsStandard | Unix_program/jpeg-8/jchuff.c:916-1065 | For any blocks of an interval the encoder sends the symbols and bits that ITU-T T.81 lays out from the coefficients alone: for DC the size and bits of the difference to the block before in the same component, for every nonzero AC coefficient sixteens of zeros, run and size, and bits, and the end of the block unless its last coefficient is not zero. |
| StandardItems.OppositeBits | Unix_program/jpeg-8/jchuff.c:668-704 | The first bit of a value is one for positive values, which are sent as they are, and the bits of the negative are the opposite ones. |
| StandardItems.CodableRanges | Unix_program/jpeg-8/jchuff.c:945-986 | The encoder takes exactly DC differences below 2048 and AC coefficients below 1024 in magnitude. |
| StandardItems.CodableBandRange | Unix_program/jpeg-8/jchuff.c:691-697 | In a first AC scan it takes exactly those below 1024 after the point transform. |
| HuffmanLimited.LimitsOnlySkip | Unix_program/jpeg-8/jdhuff.c:1187-1302 | On any bits, decoding with coefficient limits suspends where decoding without them suspends, or takes the same bits and gives the same coefficients in front of the limits, and the same predictions for all components that are needed. |
| HuffmanLimited.LimitedScanIsRead | Unix_program/jpeg-8/jdhuff.c:1059-1179 | An interval that was coded is read back in front of the limits. |
| HuffmanRefinement.RefinementIsLossless | Unix_program/jpeg-8/jdhuff.c:904-1050 | For any sequence of blocks, reading what the refinement scan writes gives every coefficient of the band its next bit, lets new ones appear with their sign, and takes none of the bits behind. |
| HuffmanEobRuns.PendingStaysValid | Unix_program/jpeg-8/jchuff.c:786-910 | Correction bits wait only with a run, a run stays below 0x7FFF between blocks, and the buffer of correction bits is never exceeded. |
| HuffmanFirst.FirstScanIsLossless | Unix_program/jpeg-8/jchuff.c:628-732 | For any sequence of blocks in range, reading what the first scan of a band writes gives its coefficients at the precision of the scan, and takes none of the bits behind. |
| StandardBands.FirstBlockIsStandard | Unix_program/jpeg-8/jchuff.c:628-732 | A block of a first AC scan sends the pending run in front of its first nonzero coefficient, then its coefficients by runs and sizes, and joins the run if its last coefficient is zero; the run goes out at 32767. |
| StandardBands.RefinedBlockIsStandard | Unix_program/jpeg-8/jchuff.c:786-910 | A refined block sends, up to the last coefficient that becomes nonzero, sixteens of zeros at the next coefficient that is nonzero, the symbol and the sign of every new one, and behind the first symbol the correction bits passed since the last; it joins the run if anything is left, and the run goes out at 32767 blocks or beyond 937 correction bits. |
| StandardBands.BandIntervalIsStandard | Unix_program/jpeg-8/jchuff.c:459-534 | An interval of an AC scan sends what its blocks send in turn, and what is pending at its end. |
| HuffmanAcScans.AcScanIsLossless | Unix_program/jpeg-8/jchuff.c:628-910 | First or refining AC scans from coefficients to stuffed bytes with restart markers and back: every interval is read back, and what is left is padding. |
| HuffmanDcRefinement.DcBitsAreReceived | Unix_program/jpeg-8/jdhuff.c:855-895 | The scan that refines DC coefficients, to stuffed bytes with restart markers and back: every DC coefficient receives its bit, whatever it was, and nothing else changes. |
| HuffmanDcRefinement.DcRefinementIsLossless | Unix_program/jpeg-8/jchuff.c:739-778 | Where the scans before have left the approximation, the next one is there afterwards. |
| RefinementSuspension.AnyInterruptionsAreTransparent | Unix_program/jpeg-8/jdhuff.c:904-1050 | Wherever input runs out, however often, and whatever arrives in between: decoding from the block that is left behind gives the block, run and bit position of an uninterrupted run, although bits added to old coefficients are not undone. |
| HuffmanRefineDecoderObject.HuffmanRefineDecoder.DecodeMcu | Unix_program/jpeg-8/jdhuff.c:904-1050 | Decodes the block, with its restart, as the value-level reader does from where it begins; after a suspension the next attempt begins at the same bits with the same run, and from the block that is left it gives the same, whatever bits arrive. |
| HuffmanFirstDecoderObject.HuffmanFirstDecoder.DecodeMcu | Unix_program/jpeg-8/jdhuff.c:766-845 | The same for the first scan of a band. |
| HuffmanMcuDecoderObject.HuffmanMcuDecoder.DecodeMcu | Unix_program/jpeg-8/jdhuff.c:1187-1302 | Decodes an MCU, with its restart, as the value-level reader does; a suspended attempt changes neither predictions nor bit position, and from the blocks it leaves the next attempt gives the same, whatever bits arrive. |
| HuffmanMcuDecoderObject.HuffmanMcuDecoder.ProcessRestart | Unix_program/jpeg-8/jdhuff.c:636-687 | Finds the expected marker or suspends; then predictions, counter and bit reader start over. |
| HuffmanSequentialEncoderObject.HuffmanSequentialEncoder.EncodeOneBlock | Unix_program/jpeg-8/jchuff.c:916-1008 | Sends exactly the items of the block; fails just if a coefficient is out of range or a symbol has no code. |
| HuffmanSequentialEncoderObject.HuffmanSequentialEncoder.HTestOneBlock | Unix_program/jpeg-8/jchuff.c:1122-1190 | Counts exactly the symbols that `EncodeOneBlock` sends; fails just if a coefficient is out of range. |
| HuffmanSequentialEncoderObject.HuffmanSequentialEncoder.EncodeMcu | Unix_program/jpeg-8/jchuff.c:1016-1065 | In either mode, restarts included: complete intervals are logged as complete segments, and the current segment holds the items of the current interval. |
| HuffmanAcEncoderObject.HuffmanAcEncoder.EncodeMcuRefine | Unix_program/jpeg-8/jchuff.c:786-910 | Sends or counts exactly the items of the refinement of the block, and keeps the pending run and bits. |
| HuffmanAcEncoderObject.HuffmanAcEncoder.EncodeMcu | Unix_program/jpeg-8/jchuff.c:511-534 | In either mode: when a restart falls due, what is pending goes out with the interval that ends, and run and bits start over; the log is that of the MCUs coded. |
| HuffmanAcEncoderObject.HuffmanAcEncoder.FinishPass | Unix_program/jpeg-8/jchuff.c:1073-1110 | The pass has logged exactly the items of all intervals; in output mode the bytes of the scan are complete. |
| RestartIntervals.IntervalsAreChunks | Unix_program/jpeg-8/jchuff.c:1051-1062 | The counter divides the MCUs into intervals of exactly the restart interval. |
| HuffmanEncoderObject.GatheredTablesSuffice | Unix_program/jpeg-8/jchuff.c:1397-1441 | If every table in use was made from the counts of these very items, each of them has a code. |
| OptimizedCoding.CountsAreCountable | Unix_program/jpeg-8/jchuff.c:411-432 | The counts of a table that was used are such that an optimal table exists: at least one symbol, at most 254 different ones. |
| OptimizedScans.OptimizedScan | Unix_program/jpeg-8/jchuff.c:1197-1247 | A gathering pass, tables from its counts, an output pass over the same MCUs and restarts: for any MCUs the second pass never lacks a code and writes the scan that `SequentialScanIsLossless` reads back; it fails just for a coefficient out of range, or for totals of at least 9227465. |
| OptimizedScans.OptimizedAcScan | Unix_program/jpeg-8/jchuff.c:1397-1441 | The same for AC scans, first and refining, with their end-of-band runs. |
| GenOptimalTable.GenerateOptimalTable | Unix_program/jpeg-8/jchuff.c:1256-1389 | From 1 to 254 symbols with a total up to 10^9 it makes a legal table, of lengths up to 16, with a code for exactly the symbols counted; it fails exactly if some size exceeds 32, and cannot for totals below 9227465. The counts determine the table: the sizes of the merging in its order, the numbers of codes after limiting, and the symbols by size and value. |
| GenOptimalTable.LongCodesNeedLargeCounts | Unix_program/jpeg-8/jchuff.c:1281-1339 | A code of more than 32 bits takes a total of at least the 35th Fibonacci number. |
| OptimalTable.AssignSizes | Unix_program/jpeg-8/jchuff.c:1268-1327 | The sizes are those of merging the two smallest counts again and again, ties included; no prefix code for these symbols takes fewer bits in all; they fill the code space exactly, and a symbol of size d takes a total of at least the Fibonacci number of d + 2. |
| HuffmanOptimality.MergeReduces | Unix_program/jpeg-8/jchuff.c:1281-1327 | Merging the two lightest trees loses nothing: whatever prefix code there is for the symbols, there still is one for the trees that takes no more bits with the sizes assigned so far. |
| HuffmanOptimality.HeavierIsNotLonger | Unix_program/jpeg-8/jchuff.c:1281-1327 | In sizes of least cost, a symbol that occurs more often is not longer. |
| TableOrder.HeavierHasNoLongerCode | Unix_program/jpeg-8/jchuff.c:1377-1385 | As long as no size exceeds 16, a symbol that occurs more often has no longer code in the table. |
| TableOrder.SmallTotalsAreNotLimited | Unix_program/jpeg-8/jchuff.c:1355-1369 | With a total below 4181 no size exceeds 16. |
| TableOrder.ExactlyWhenHeavierIsLonger | Unix_program/jpeg-8/jchuff.c:1372-1385 | In any table, of two symbols the one that occurs more often has the longer code if and only if both have the same size, it has the larger value, and a boundary between two code lengths falls between their places. |
| LimitedTable.HeavierGetsLongerCode | Unix_program/jpeg-8/jchuff.c:1372-1385 | Counts of eighteen symbols for which that happens: seven occurrences get 16 bits, five get 15. |
| LimitedTable.SampleIsCountable | Unix_program/jpeg-8/jchuff.c:1256-1389 | For these counts the table is made without an error. |
| LengthLimit.LimitLengths | Unix_program/jpeg-8/jchuff.c:1341-1369 | Limiting to 16 bits terminates, keeps the number of codes and fills the code space; pair by pair, from the longest length down, the longest code that is at least two bits shorter becomes a prefix. |
| ScriptValidator.ValidateScript | Unix_program/jpeg-8/jcmaster.c:342-473 | Reports the fault of the first scan that breaks a rule in view of the scans before it, with its number; if there is none, missing data if and only if some component is in no scan that sends DC coefficients; otherwise nothing. |
| ScriptRules.ValidatorFollowsRules | Unix_program/jpeg-8/jcmaster.c:370-473 | The same of the function that keeps a record of the bits sent: it says what the rules, stated over the script alone, say. |
| ScriptRules.AcceptedSendsEverything | Unix_program/jpeg-8/jcmaster.c:454-472 | Of an accepted script, sequential or progressive, some scan sends the DC coefficients of each component. |
| DecoderProgression.AcceptedScriptsDecodeCleanly | Unix_program/jpeg-8/jdhuff.c:1316-1360 | Every script that the validator accepts passes the decoder's checks without an error or a warning, and both keep the same record of bit positions. |
| DecoderProgression.StartPass | Unix_program/jpeg-8/jdarith.c:637-675 | Fails exactly for a band that mixes DC and AC, is out of order or has several components, for a bit position that does not follow, and for one above 13; otherwise the loops over the record of bit positions give the warnings of the scan and record its bits. |
| DecoderProgression.MismatchesAre | Unix_program/jpeg-8/jdarith.c:660-668 | There is a warning for exactly those coefficients of the band whose high bit does not continue where the scans before left it. |
| DecoderProgression.RecordAfter | Unix_program/jpeg-8/jdarith.c:656-669 | After a scan, exactly the bands of its components stand at its last bit. |
| SimpleProgression.FillSimpleProgression | Unix_program/jpeg-8/jcparam.c:559-632 | Fills exactly as many entries as were provided for, with the recommended script; uses an earlier space if it is large enough. |
| SimpleProgression.YccColumns | Unix_program/jpeg-8/jcparam.c:599-617 | The ten entries for luminance and chrominance, column by column. |
| SimpleProgression.GeneralRounds | Unix_program/jpeg-8/jcparam.c:618-629 | The entries for other images, round by round, for every number of components. |
| SimpleProgression.SimpleScriptIsAccepted | Unix_program/jpeg-8/jcparam.c:497-632 | For any number of components of at least one the script is accepted and sends every coefficient down to its last bit. |
| PassMaster.CompMaster.Compress | Unix_program/jpeg-8/jcapimin.c:149-187 | A run ends after exactly the total number of passes, and its events are those of all scans in order, then the trailer; with optimisation, statistics are gathered once, in front of the scan header, for each scan with `Ss` not 0 or `Ah` 0 and for the first one of a run that collects the image, and for no other. |
| PassMaster.EachScanOnce | Unix_program/jpeg-8/jcmaster.c:649-783 | In these events the frame header comes once and before all scan headers, scan headers come in order, the data of every scan are written once and in order, and passes are skipped exactly for scans that need no statistics. |
| PassMaster.FinishedLog | Unix_program/jpeg-8/jcmaster.c:679-694 | In the finished log, statistics stand as the parameters of the scans ask for them, and the data of every scan between its header and the next one. |
| Geometry.McusOfBlocks | Unix_program/jpeg-8/jcmaster.c:555-629 | Rounding up twice is rounding up once: the blocks of a component are as many as the MCUs of the image take. |
| McuTiling.ComponentFits | Unix_program/jpeg-8/jdinput.c:388-462 | The dimensions that both sides compute from the image size fit together, for every component. |
| McuTiling.LastOnesAreRight | Unix_program/jpeg-8/jcmaster.c:600-613 | The formulas for the width and height of the last MCU count the blocks that are real. |
| RasterOrder.BlockInMcu | Unix_program/jpeg-8/jccoefct.c:143-240 | In an interleaved scan the block at row y and column x of a component in MCU row i and column m has its place behind the MCUs above and to the left, the components before, the rows above and the blocks to the left; it is the block of the image at row i * v + y and column m * h + x, or a dummy that repeats the DC value of the last block of the MCU in the nearest row. |
| RasterOrder.BlockAlone | Unix_program/jpeg-8/jccoefct.c:143-240 | In a scan of one component every MCU is one block of the image, in raster order. |
| CoefControllers.CoefController.CompressData | Unix_program/jpeg-8/jccoefct.c:143-240 | However often the entropy coder refuses, what has been sent is always the MCUs of the scan in raster order up to the present position, each once, dummy blocks included: the same for the single-pass, the full-image and the transcoding controller. |
| CoefControllers.CoefController.CompressFirstPass | Unix_program/jpeg-8/jccoefct.c:248-343 | Fills the full-image buffer with the blocks and with dummies that repeat DC values, so that `CompressData` from it sends the same MCUs. |
| CoefControllers.CoefController.AllSent | Unix_program/jpeg-8/jctrans.c:272-345 | After the last iMCU row the MCUs sent are those of the whole scan. |
| InputCoefController.InputController.ConsumeData | Unix_program/jpeg-8/jdcoefct.c:244-303 | Under any suspension every MCU is taken once and its blocks are put back where they came from; at the end every block of the image is in its place. |
| ContextRows.MainController.ProcessDataContextMain | Unix_program/jpeg-8/jdmainct.c:385-447 | Under any suspension and partial consumption the row groups are delivered once, in order, each with the groups above and below it, although no row is copied and none overwritten while needed. |
| ContextRows.WindowIsClamped | Unix_program/jpeg-8/jdmainct.c:266-299 | What is shown with a row group is the image with its edge rows repeated, if and only if the group is not the last but one, ending an iMCU row, before a group that is not full. |
| ContextRows.LastWindowShowsPadding | Unix_program/jpeg-8/jdmainct.c:439-443 | An image of five rows for which that exception occurs. |
| ContextRows.ShapesAgree | Unix_program/jpeg-8/jdmainct.c:283-290 | All components have the same number of row groups, so it is enough to count those of the first. |
| HeaderRoundTrip.FrameHeaderIsRead | Unix_program/jpeg-8/jcmarker.c:510-572 | What is written as a frame header is read back: the frame parameters, all quantisation tables in use, and for reduced block sizes of progressive images the pseudo scan header. |
| HeaderRoundTrip.ScanHeaderIsRead | Unix_program/jpeg-8/jcmarker.c:574-611 | A scan header with out-of-order DC bounds is refused; any other is read back with restart interval, tables or conditioning, although tables are sent only once, and its components are restored if and only if each is the first with its identifier. |
| HeaderRoundTrip.UnderstoodExactly | Unix_program/jpeg-8/jdmarker.c:304-371 | A scan header that was written is understood if and only if each of its components is the first with its identifier and, with arithmetic coding, the DC bounds are in order. |
| HeaderRoundTrip.AllScanHeadersAreRead | Unix_program/jpeg-8/jcmarker.c:186-222 | All scan headers of a file, with tables that are sent only once and replaced between scans: for every scan the reader knows its components and parameters and has the tables or the conditioning that the writer has. |
| HeaderRoundTrip.SecondIsTakenForFirst | Unix_program/jpeg-8/jdmarker.c:330-346 | A frame with one identifier for two components, where a scan of the second is read as one of the first. |
| HeaderRoundTrip.BoundsOutOfOrder | Unix_program/jpeg-8/jdmarker.c:401-406 | A lower bound of 1 with an upper bound of 0 is written and refused. |
| HeaderFormat.TableRestored | Unix_program/jpeg-8/jdmarker.c:495-581 | A quantisation table read back has every value that was sent in its place and ones elsewhere, for any block size; for full blocks it is the table. |
| HeaderFormat.OrderIsBySquares | Unix_program/jpeg-8/jdmarker.c:531-557 | The reader takes the zigzag order of a smaller block exactly for 4, 9, 16, 25, 36 or 49 values. |
| StandardHeaders.DqtIsStandard | Unix_program/jpeg-8/jcmarker.c:145-183 | The bytes of a quantisation table by position: length, precision and index, values in zigzag order. |
| StandardHeaders.DhtIsStandard | Unix_program/jpeg-8/jcmarker.c:186-221 | The bytes of a Huffman table by position. |
| StandardHeaders.DacIsStandard | Unix_program/jpeg-8/jcmarker.c:224-268 | The bytes of arithmetic conditioning by position. |
| StandardHeaders.DriIsStandard | Unix_program/jpeg-8/jcmarker.c:271-280 | The bytes of a restart interval by position. |
| StandardHeaders.SofIsStandard | Unix_program/jpeg-8/jcmarker.c:283-311 | The bytes of a frame header by position: height before width, horizontal factor above the vertical one. |
| StandardHeaders.SosIsStandard | Unix_program/jpeg-8/jcmarker.c:314-352 | The bytes of a scan header by position. |
| StandardHeaders.SegmentMarkers | Unix_program/jpeg-8/jcmarker.c:145-352 | Each segment stands behind its own marker. |
| StandardHeaders.FrameMarker | Unix_program/jpeg-8/jcmarker.c:547-563 | The SOF code is 0xC0 for baseline, else 0xC1, one more for progressive and eight more for arithmetic coding. |
| StandardHeaders.FrameByPosition | Unix_program/jpeg-8/jdmarker.c:238-301 | A frame header is refused exactly if there was one before, if width, height or the list of components is empty or if the length is wrong; otherwise every field comes from its place. |
| StandardHeaders.ScanByPosition | Unix_program/jpeg-8/jdmarker.c:304-371 | A scan header is refused exactly without a frame, for a wrong length, for more than four components or an unknown one, or for none if the frame is not progressive; otherwise every field comes from its place. |
| StandardHeaders.ConditionByPosition | Unix_program/jpeg-8/jdmarker.c:378-412 | Each pair of a conditioning segment: sixteen tables of each class, bounds in order. |
| StandardHeaders.IntervalByPosition | Unix_program/jpeg-8/jdmarker.c:585-605 | A restart interval is taken from a segment of four bytes and refused otherwise. |
| StandardHeaders.WrongLengths | Unix_program/jpeg-8/jdmarker.c:378-581 | Segments of tables whose length is used up exactly are taken, and those with bytes missing or left over are refused. |
| StandardHeaders.QuantByPosition | Unix_program/jpeg-8/jdmarker.c:495-581 | Each table of a DQT segment: one of four, with as many values as the segment has bytes for, up to 64. |
| StandardHeaders.HuffmanByPosition | Unix_program/jpeg-8/jdmarker.c:424-492 | Each table of a DHT segment: one of four of its class, with at most 256 symbols and no more than the segment has bytes for. |
| StandardHeaders.KindsOfMarkers | Unix_program/jpeg-8/jdmarker.c:994-1143 | Which SOF codes announce which process, which markers stand alone, and that the others are refused. |
| HeaderTables.QuantsSent | Unix_program/jpeg-8/jcmarker.c:518-522 | The quantisation tables of all components are sent, or one of them is missing and nothing is; exactly they are marked afterwards, and none is sent twice. |
| HeaderTables.MarksAfterTables | Unix_program/jpeg-8/jcmarker.c:587-597 | Before a scan exactly the tables in use are sent and marked: DC tables where differences are coded, AC tables where the band goes beyond DC. |
| HeaderTables.CondsSent | Unix_program/jpeg-8/jcmarker.c:224-268 | The conditioning of exactly the tables in use is sent, with the values of the compressor. |
| HeaderTables.PseudoHeader | Unix_program/jpeg-8/jcmarker.c:565-571 | The pseudo scan header follows the frame header exactly for progressive images with a block size other than eight. |
| HeaderSegments.DacReads | Unix_program/jpeg-8/jdmarker.c:378-412 | Conditioning is read back if every lower bound is at most its upper bound, and refused otherwise. |
| HeaderRoundTrip.BlockSizeIsSeen | Unix_program/jpeg-8/jdinput.c:208-384 | The reader derives the block size that the writer has used, from the scan header or the pseudo scan header. |
| MarkerReaderObject.MarkerReader.ReadOn | Unix_program/jpeg-8/jdmarker.c:994-1143 | When read_markers has to wait, from the state left (bytes unread, pending marker, tables and fields stored so far) any input that follows gives what it would have given from the start. |
| MarkerReaderObject.MarkerReader.ReadChunks | Unix_program/jpeg-8/jdmarker.c:238-581 | Input cut into any chunks gives the result of one reading of all of it: the same outcome, tables and parameters, and bytes left. |
| MarkerWriterObject.MarkerWriter.WriteFrameHeader | Unix_program/jpeg-8/jcmarker.c:510-572 | Appends exactly the bytes of the frame header and marks the tables sent, or stops at the first missing table. |
| MarkerWriterObject.MarkerWriter.CodeOfFrame | Unix_program/jpeg-8/jcmarker.c:528-563 | The SOF code is that of baseline exactly for sequential Huffman coding of eight-bit samples in blocks of eight with tables 0 and 1 and no value above 255; the others follow process and entropy coding. |
| MarkerWriterObject.MarkerWriter.WriteScanHeader | Unix_program/jpeg-8/jcmarker.c:574-611 | The same for scan headers. |

## Left out

- GenOptimalTable.GenerateOptimalTable: requires between 1 and 254 symbols and a total of at most 10^9. With more symbols the byte counters of the source wrap, with none it walks off its array, and beyond 10^9 the search for the smallest count overlooks some. `OptimizedCoding.CountsAreCountable` shows that no scan has too many or too few symbols; the bound on the total is what is asked of the caller.
- HuffmanMcuDecoderObject.HuffmanMcuDecoder.DecodeMcu: reads all coefficients. The path that drops those behind a limit is the subject of `HuffmanLimited`, on values.
- HuffmanSequentialEncoderObject.HuffmanSequentialEncoder.EncodeMcu: the destination never refuses bytes; suspension on the encoder's side, and the working state that serves it, are not modelled.
- HuffmanDcRefinement.DcBitsAreReceived: this scan is modelled on values only, without encoder and decoder objects.
- ArithScan.ScanIsLossless: for DC differences of a magnitude up to 0x8000; the bins for larger ones would leave their area.
- ContextRows.WindowIsClamped: one component at a time; `ShapesAgree` covers what the components must have in common. Rows below the image are not told apart.
- CoefControllers.CoefController.CompressFirstPass: the full-image buffer is modelled for interleaved scans.
- Resynchronisation after a wrong restart marker: the decoders report that they are out of step.
- Checks that a table number is in range and the table defined, where an entropy coder is set up.
- APPn, COM, DNL and SOI markers, JFIF and Adobe parameters, saved markers, and frame types that the library does not decode; the marker reader refuses them.
- Forward and inverse DCT, quantisation, colour conversion, resampling and block smoothing.
- Memory managers and virtual arrays, data source and destination managers, progress monitoring, trace messages.
- Everything outside `Unix_program/jpeg-8`, and the command-line programs in it.
