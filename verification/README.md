# The codecs of IJG libjpeg 9c, in Dafny

This project models the machinery of the bundled libjpeg 9c that must work exactly: the adaptive binary arithmetic
coder and the Huffman coder with their MCU routines for sequential and progressive scans, the scan scripts, the pass
machine, the controllers that move blocks and context rows through small buffers, and the markers. Most of it comes in
pairs that sit in separate files and share almost no code shape: encoder and decoder, writer and reader, three ways to
build an MCU, two ways to output one. The main results say that the two sides of a pair fit together, for every image,
every restart interval, every set of tables and every place at which input or output may be suspended.

The code that works step by step is modelled as classes and methods with the loops and fields of the source, proved
against functions on values; the results about whole runs are lemmas about those functions, or methods that run both
sides one after the other. A `Byte` is a number below 256; `ghost` parameters such as `on`, `goal` or `mcus` say what an
encoder has sent and do not take part in the computation.

How the modules hang together:

- **Arithmetic coding** (sections D.1, D.2, F.1.4, F.2.4 and G.1.3 of ITU-T T.81): `ArithTable`, `Fractions` and
  `ArithCoding` (registers as values), `ArithAdaptation` (what happens to the bins, by Table D.3 alone),
  `ArithRoundTrip` (both register files measure the same exact offset in the interval), `ArithCarry`;
  `ArithCoderObject` and `ArithDecoderObject` (the objects); `ArithModel` and `ArithBlocks` (the decisions of blocks, and
  what decoding makes of them), `ArithMcuEncoder`, `ArithMcuDecoder`, `ArithScan`, `ArithRestart` (segments do not depend
  on what was before them), `ArithWholeScan`.
- **Huffman coding** (annex C and sections F.1.2, F.2.2, G.1.2 and K.2): `HuffmanCodes` and `HuffmanDerived` (canonical
  codes and derived tables), `HuffmanOptimal`, `HuffmanMerge`, `HuffmanLimit` and `HuffmanGenerate` (optimal tables),
  `BitStrings`, `BitSinkObject`, `BitReaderObject`; `HuffmanItems` (symbols, extra bits and end-of-band runs),
  `HuffmanEncoder`, `HuffmanRuns`, `HuffmanEobRuns`, `HuffmanDecoder`, `HuffmanRefine`, `HuffmanRefineDecoder`,
  `HuffmanMcuDecoder`; `HuffmanScan`, `HuffmanScanEncoder`, `HuffmanScanDecoder`, `HuffmanScanTables`, `HuffmanSymbols`,
  `HuffmanWholeScan`.
- **Scripts and passes**: `ScanScript`, `ScriptDelivery`, `SimpleProgression`, `PassControl`.
- **Buffers**: `ImageRows`, `ContextRows`, `PrepContext`; `BlockLayout`, `McuBuilders`, `CoefInput`, `CoefOutput`,
  `BufferedImage` (files of several scans, with output while scans are still to come); `SizeArithmetic`.
- **A whole file**: `WholeFile` puts scripts, traversal and block coding together.
- **Markers** (annex B): `Segments`, `MarkerParsing`, `MarkerReaderObject`, `MarkerSegments`, `MarkerBytes` (whole headers
  as bytes), `MarkerWriterObject`, `HeaderRoundTrip`.

`PointTransform` holds the shifts and truncations that all of them share.

Three expectations turn out not to hold of the code, and are proved with their exact conditions:

- The rows that the upsampler gets with a row group are its true neighbours, except for one row group: the one just
  before a last iMCU row that has fewer rows than a row group (`ContextRows.TrueUnlessShortEnd`, with the image of
  `ContextRows.ShortEndExists`).
- DC conditioning bounds that are out of order are written to a DAC marker, and reading it is an error
  (`MarkerSegments.DacRead`, `MarkerWriterObject.MarkerWriter.EmitDac`, with the bounds 1 and 0 of
  `MarkerSegments.OutOfOrderExists`).
- A frame whose component ids are not distinct is written, and read with other ids: exactly which ones, and that the frame
  is kept only if they are distinct, is stated by `MarkerSegments.FrameRead`, with the two components of
  `MarkerSegments.EqualIdsExist`. A scan is then still found if each of its components is (`MarkerSegments.SosRead`), as
  in a scan of all components in order (`MarkerSegments.FirstAreFound`); a color transform is an error if its ids were
  repeated (`MarkerSegments.LseRead`).

## Model

| member | source | states |
|---|---|---|
| `ArithTable.UnpackPack` | libjpeg/jaricom.c:23-33 | the four fields of an entry with Qe below 2^16 and successors below 2^7 can be read back from the packed word as the coders do it |
| `ArithRoundTrip.RoundTrip` | libjpeg/jcarith.c:132-311 | for every finite sequence of decisions on any bins: decoding the bytes of the encoder with zeros after their end gives back every bit, and leaves every statistics bin as the encoder left it |
| `ArithRoundTrip.StepRecovers` | libjpeg/jdarith.c:105-182 | one decision: if the decoder's registers hold the exact offset of the interval that the encoder chose, it answers the coded bit, moves the bin to the same state and holds the offset of the next interval |
| `ArithAdaptation.EncoderAdapts` | libjpeg/jcarith.c:229-262 | for every state: the bin stays as it is without renormalisation; otherwise an MPS takes its index to Next_Index_MPS and keeps the sense, an LPS takes it to Next_Index_LPS and flips the sense exactly if Switch_MPS is 1; all other bins stay |
| `ArithAdaptation.DecoderAdapts` | libjpeg/jdarith.c:144-182 | the same for the decoder, with the size of its interval after input |
| `ArithAdaptation.SubIntervals` | libjpeg/jcarith.c:236-262 | the intervals of the two values make up the coding interval, and the LPS never gets the larger one: Qe at the top if that is not more than half, and otherwise the rest at the bottom |
| `ArithAdaptation.FixedBinStays` | libjpeg/jcarith.c:943 | the bin for fixed probabilities stands at line 113 of the table after any decisions, in whatever bins |
| `ArithCarry.CarryIsContained` | libjpeg/jcarith.c:219-311 | at every decision of every run and at every shift of its renormalisation, C stays below 2^28, the held byte is not FF, and nothing carries out of the first byte; nor when the segment is finished instead |
| `ArithCarry.SegmentEndsClean` | libjpeg/jcarith.c:133-193 | a finished segment ends in no zero byte other than one stuffed behind FF, and a zero byte follows every FF |
| `ArithCoderObject.ArithCoder.ArithEncode` | libjpeg/jcarith.c:219-311 | after the call the registers, the bins and the bytes sent so far are those of the run extended by this decision; with the standard table the bin has moved as Table D.3 says, and no other bin has (`ArithAdaptation.Adapted`) |
| `ArithCoderObject.ArithCoder.FinishPass` | libjpeg/jcarith.c:133-193 | the data of the segment become the final bytes of the run: the value in the interval with the most trailing zero bits, trailing zero bytes dropped |
| `ArithDecoderObject.ArithDecoder.ArithDecode` | libjpeg/jdarith.c:106-182 | as long as the input holds the answers to the decisions still to come, the answer is the bit that was coded, whatever stuffing and markers the input has; with the standard table the bin has moved as Table D.3 says, and no other bin has |
| `ArithDecoderObject.ArithDecoder.ReadRestartMarker` | libjpeg/jdmarker.c:1264-1303 | succeeds exactly if the next marker is the restart marker expected, and then swallows it; otherwise the marker stays unread |
| `ArithMcuEncoder.McuEncoder.EncodeDc` | libjpeg/jcarith.c:362-444 | codes exactly the decisions for the difference to the prediction in its conditioning context, and moves prediction and context |
| `ArithMcuEncoder.McuEncoder.FindEndOfBlock` | libjpeg/jcarith.c:475-490 | the last index whose coefficient is not zero at this precision |
| `ArithMcuEncoder.McuEncoder.EncodeAcBand` | libjpeg/jcarith.c:492-548 | codes exactly the decisions of the band: end-of-block flags, zero runs, signs, categories and magnitude bits in their bins |
| `ArithMcuEncoder.McuEncoder.EncodeRefineBand` | libjpeg/jcarith.c:593-684 | codes exactly the decisions of a refinement, with no end-of-block flag before the end of the previous stage |
| `ArithMcuEncoder.McuEncoder.EncodeMcu` | libjpeg/jcarith.c:692-833 | each of the five routines keeps the promise that the bytes of the scan will be those of its MCUs, restart markers included |
| `ArithMcuEncoder.McuEncoder.EmitRestart` | libjpeg/jcarith.c:319-355 | closing a segment, writing the marker and resetting bins and predictions keeps that promise |
| `ArithRestart.RestartClears` | libjpeg/jcarith.c:329-347 | after a restart each bin of an area that the scan uses holds 0, and every other bin what it held |
| `ArithRestart.BlockInTables` | libjpeg/jcarith.c:362-833 | the decisions of a block use bins of its component's own tables, DC or AC only where the scan codes them, and the fixed bin |
| `ArithRestart.ThresholdIsOwn` | libjpeg/jcarith.c:519-530 | the bins for larger magnitudes are chosen by comparing the index of the coefficient with the conditioning value of the component's own table |
| `ArithRestart.RestartForgets` | libjpeg/jcarith.c:319-355 | the bytes behind a restart marker depend on the MCUs that follow it only, not on the bins, contexts and predictions before it |
| `ArithBlocks.EndsAgree` | libjpeg/jdarith.c:460-470 | the end of the previous stage that the decoder finds in the block is the encoder's, or both lie below the band, where the difference does not matter |
| `ArithBlocks.DecodedMeans` | libjpeg/jdarith.c:242-635 | what a routine leaves in a block: each coefficient of the scan as coded, truncated at the precision of the scan, and nothing else changed |
| `ArithMcuDecoder.McuDecoder.DecodeAcBand` | libjpeg/jdarith.c:321-396 | on the decisions of a band the block gets exactly its coefficients, and the decoder stands behind the band |
| `ArithMcuDecoder.McuDecoder.DecodeRefineBand` | libjpeg/jdarith.c:436-503 | on the decisions of a refinement, a block that holds the coefficients at Al+1 comes to hold them at Al |
| `ArithMcuDecoder.McuDecoder.DecodeMcu` | libjpeg/jdarith.c:242-635 | in all five routines, as long as the input holds what an encoder wrote, every block of the MCU is decoded to what was coded, and the rest of the scan is still to come |
| `ArithMcuDecoder.McuDecoder.ProcessRestart` | libjpeg/jdarith.c:190-226 | at a restart the marker is found behind the segment, and bins, registers and predictions are those with which the encoder went on |
| `ArithWholeScan.Transmit` | libjpeg/jcarith.c:319-911 | a whole scan, coded by any of the five routines of jcarith.c and decoded by the matching one of jdarith.c: every block is rebuilt, for any coefficients, conditioning values, restart interval and table |
| `HuffmanCodes.DecodeIff` | libjpeg/jdhuff.c:355-398 | the codes of figures C.1 and C.2 against the bit-serial decoding of figure F.16: a bit string decodes to a symbol if and only if it begins with its code; the index then lies inside the table |
| `HuffmanCodes.PrefixFree` | libjpeg/jchuff.c:199-218 | the codes of different symbols differ, and none begins another |
| `HuffmanCodes.LookAgrees` | libjpeg/jdhuff.c:405-420 | an entry of the lookahead table is what bit-serial decoding finds if the code is that short; otherwise decoding can go on at the next length |
| `HuffmanDerived.MakeCDerivedTbl` | libjpeg/jchuff.c:161-246 | accepts exactly the tables with legal code lengths and with no symbol twice or out of range, and gives each symbol its canonical code |
| `HuffmanDerived.MakeDDerivedTbl` | libjpeg/jdhuff.c:323-440 | accepts exactly the legal tables, for DC with symbols up to 15; maxcode, valoffset and the lookahead tables then describe the canonical codes |
| `HuffmanDerived.MakeLookahead` | libjpeg/jdhuff.c:400-420 | every lookahead entry is filled with the code that its bits begin with, or marked as too long |
| `BitReaderObject.BitReader.HuffDecode` | libjpeg/jdhuff.c:168-188 | decoding with lookahead table, bit buffer, stuffed bytes and zeros behind the segment gives the symbol, and uses up the bits, of bit-serial canonical decoding; it is suspended only where the marker has not arrived and less than 25 bits are at hand |
| `BitReaderObject.BitReader.HuffDecodeSlow` | libjpeg/jdhuff.c:592-627 | the same for the routine that goes on bit by bit with maxcode |
| `BitReaderObject.BitReader.Fill` | libjpeg/jdhuff.c:465-578 | suspended exactly if neither the marker has arrived nor enough bytes for 25 bits, and then nothing has changed; otherwise at least as many bits as asked for are in the buffer, and the bits ahead are unchanged but for zeros behind the end, which are recorded |
| `BitSinkObject.BitSink.EmitBits` | libjpeg/jchuff.c:307-388 | the bits sent so far are extended by the code, of which less than 8 stay in the buffer; an empty code is refused |
| `BitSinkObject.BitSink.FlushBits` | libjpeg/jchuff.c:391-410 | at most seven bits of padding, all of them ones, complete the last byte, and the destination holds the stuffed bytes of the bits |
| `HuffmanMerge.CodeLengths` | libjpeg/jchuff.c:1276-1324 | the merge loop, for weights of at most 10^9 in all: the lengths have Kraft sum 1, no lengths that meet Kraft's inequality cost less, and none is longer than the Fibonacci bound allows; the last symbol gets a code of the greatest length if none is used less |
| `HuffmanMerge.MergeKeepsDeepest` | libjpeg/jchuff.c:1269-1299 | every merge, with ties broken for the larger symbol, keeps the pseudo-symbol deepest, as the comment on it claims |
| `HuffmanMerge.OptimalAmongPrefixCodes` | libjpeg/jchuff.c:1276-1324 | such lengths cost no more than any prefix code for the counts and the pseudo-symbol |
| `HuffmanLimit.LimitLengths` | libjpeg/jchuff.c:1347-1358 | limiting keeps the number of symbols and the Kraft sum, always finds a shorter code to split, and ends with no length over the limit; the counts become those of the procedure of figure K.3 (`Limited`), and stay as they are if no length was over the limit |
| `HuffmanLimit.RemovePseudo` | libjpeg/jchuff.c:1360-1363 | taking the pseudo-symbol off leaves one slot free at the longest length |
| `HuffmanGenerate.GenOptimalTable` | libjpeg/jchuff.c:1253-1386 | for 1 to 254 symbols in use: overflow exactly if an optimal length is over 32, which takes counts of at least F(35) - 1 in all, a Fibonacci number less one; otherwise a legal table that lists each used symbol once, in the order of the optimal lengths, with one slot free; if none of the lengths is over 16, each symbol has a code of exactly its optimal length, and otherwise the counts are the limited ones less one of the greatest length |
| `HuffmanGenerate.ShortLengthsKept` | libjpeg/jchuff.c:1360-1379 | counts and symbol list fit together: the p-th symbol listed has the code length that the merge gave it, because the code taken back is one of the pseudo-symbol's length |
| `HuffmanGenerate.TableAccepted` | libjpeg/jchuff.c:161-246 | both sides accept the generated table |
| `HuffmanScanTables.Optimize` | libjpeg/jchuff.c:1253-1386 | the table made from the counts comes from an optimal code for them, and has a code for every symbol that was counted; it fails only if some optimal code for the counts overflows, and surely if each does; the counters of other tables are not touched |
| `HuffmanScanTables.DeriveEncoderTables` | libjpeg/jchuff.c:1495-1537 | succeeds exactly if each table that a component of the scan needs is defined and legal, whatever the other slots hold; the tables are then the canonical codes |
| `HuffmanScanTables.DeriveDecoderTables` | libjpeg/jdhuff.c:1377-1438 | the decoder then has the tables too, those of the slots in use |
| `HuffmanScanTables.FewNeverOverflow` | libjpeg/jchuff.c:1326-1335 | no table overflows for less than 9227464 counted symbols |
| `HuffmanScanTables.FinishGather` | libjpeg/jchuff.c:1394-1438 | each table that the components use is made once, from all its counts, for an optimal code, and replaces what was in its slot, the other slots are kept; it fails only if an optimal code of some table in use overflows, and surely if for some table each does |
| `HuffmanEncoder.SymbolCounts.Count` | libjpeg/jchuff.c:416-442 | the counters are the multiset of the symbols counted so far |
| `HuffmanEncoder.HuffEncoder.EncodeOneBlock` | libjpeg/jchuff.c:913-1005 | sends exactly the items of the block; fails exactly if a coefficient or difference is out of range |
| `HuffmanEncoder.HuffEncoder.HtestOneBlock` | libjpeg/jchuff.c:1119-1186 | counts exactly the items that encode_one_block sends, with the same failures |
| `HuffmanEncoder.HuffEncoder.EmitEobrun` | libjpeg/jchuff.c:464-487 | sends the symbol, the extra bits of the run and the buffered correction bits, and leaves no run and no bits |
| `HuffmanEncoder.HuffEncoder.EncodeAcFirst` | libjpeg/jchuff.c:629-732 | items sent, plus those that the pending run still owes, are the items of the bands so far |
| `HuffmanEncoder.HuffEncoder.EncodeAcRefine` | libjpeg/jchuff.c:783-907 | the same for refinement; EOBRUN stays below 0x7FFF and the buffer has room for one more block, and there are no buffered bits without a run |
| `HuffmanDecoder.HuffDecoder.DecodeMcu` | libjpeg/jdhuff.c:1198-1313 | sequential MCUs, also with coefficients limited as in decode_mcu_sub: the blocks and predictions are the encoder's; a suspended call has lost nothing, and can be made again with the same outcome |
| `HuffmanDecoder.HuffDecoder.DecodeAcFirst` | libjpeg/jdhuff.c:779-858 | the same for the first pass over a band, with runs of ended bands |
| `HuffmanRefineDecoder.DecodeAcRefine` | libjpeg/jdhuff.c:913-1061 | refinement: if the block holds the coefficients truncated at Al+1, it comes to hold them truncated at Al; after a suspension, wherever it comes, the block is one from which the same call with more bytes leads to the same block, bits and EOBRUN; it is suspended only where less than 25 bits are at hand |
| `HuffmanRefineDecoder.Undo` | libjpeg/jdhuff.c:1054-1060 | exactly the coefficients that this call made nonzero are zero again |
| `HuffmanMcuDecoder.DecodeMcu` | libjpeg/jdhuff.c:708-1313 | all five routines as one: MCU rebuilt, or suspended without loss; suspended only where the marker has not arrived and less than 25 bits are at hand; and nothing is decoded once zeros had to be supplied, except by the DC refinement |
| `HuffmanScanEncoder.ScanEncoder.EncodeMcu` | libjpeg/jchuff.c:546-1062 | each routine keeps the promise that all items of the scan will be sent, segment by segment, or reports that a coefficient is out of range |
| `HuffmanScanEncoder.ScanEncoder.EmitRestart` | libjpeg/jchuff.c:495-537 | closing a segment and writing the marker keeps that promise |
| `HuffmanScanEncoder.ScanEncoder.FinishPass` | libjpeg/jchuff.c:1070-1101 | at the end the output holds all segments, or the counters all symbols, that the MCUs require; a code was missing exactly if some item has none |
| `HuffmanScanDecoder.ScanDecoder.DecodeMcu` | libjpeg/jdhuff.c:708-1313 | the same over restarts: as long as the input holds what an encoder sent, the next MCU is rebuilt and the others are still to come |
| `HuffmanScanDecoder.ScanDecoder.ProcessRestart` | libjpeg/jdhuff.c:652-681 | the restart marker behind the segment is found, also when it has to be waited for, and the decoder then stands at the next segment |
| `HuffmanSymbols.SymbolsListed` | libjpeg/jchuff.c:1394-1438 | tables made from the counts of a scan list every symbol that the output pass over the same scan sends, over restarts, shared tables and runs |
| `HuffmanSymbols.EachNeeded` | libjpeg/jchuff.c:1448-1525 | a scan uses each table that its components need at least once, so that it is not generated from nothing |
| `HuffmanWholeScan.GatherScan` | libjpeg/jchuff.c:1194-1438 | a whole gathering pass: it fails exactly if a coefficient is out of range; the tables are refused only on an overflow, and surely if one cannot be avoided; otherwise both sides accept them and they list every symbol of the scan |
| `HuffmanWholeScan.SmallScansNeverOverflow` | libjpeg/jchuff.c:1326-1335 | no overflow if each table is used less than 9227464 times |
| `HuffmanWholeScan.Transmit` | libjpeg/jdhuff.c:635-1438 | a whole scan with given tables, of which only those that its components need matter, and whose bytes arrive in any portions: exactly which inputs the encoder refuses; otherwise every block is rebuilt, unless some of its bytes never arrive |
| `HuffmanWholeScan.TransmitOptimized` | libjpeg/jchuff.c:1394-1547 | the same with tables made for the scan, whatever the slots held: the output pass never meets a symbol without a code, and only a table that overflows stops it, as surely one does that has to |
| `ScanScript.ValidateScript` | libjpeg/jcmaster.c:174-301 | accepts exactly the valid scripts, tells sequential from progressive ones, and names the first bad scan otherwise |
| `ScanScript.ReduceScript` | libjpeg/jcmaster.c:305-334 | in place, the script becomes the one with scans beyond lim_Se dropped and the others cut off there |
| `ScanScript.ReducedKeeps` | libjpeg/jcmaster.c:305-334 | reduction does not change what is sent last of any coefficient up to lim_Se |
| `ScriptDelivery.StartScan` | libjpeg/jdhuff.c:1327-1371 | the decoder accepts exactly the decodable scan parameters, warns exactly if a scan does not follow what was sent before, and records what it sends |
| `ScriptDelivery.StartPass` | libjpeg/jdhuff.c:1321-1416 | the same for sequential frames, where it only warns, exactly if the parameters are not those of a sequential scan of this block size |
| `ScriptDelivery.BlockSizeSeen` | libjpeg/jdinput.c:241-330 | for every block size, the decoder derives it from the Se that the encoder writes |
| `ScriptDelivery.AcceptedIsQuiet` | libjpeg/jcmaster.c:173-380 | no scan of a script that validate_script accepts, sequential or progressive, as reduce_script and select_scan_parameters make it for any block size, is rejected or warned about by start_pass of either decoder |
| `ScriptDelivery.ScriptDelivers` | libjpeg/jcmaster.c:173-334 | decoding all scans of any accepted script, for any block size, leaves each coefficient truncated at the last bit position sent for it, and each scan finds the blocks as its coder expects |
| `ScriptDelivery.InOneScan` | libjpeg/jcmaster.c:266-277 | in an accepted sequential script each component is in exactly one scan |
| `ScriptDelivery.SequentialIsLossless` | libjpeg/jcmaster.c:173-334 | and decoding its scans gives back every coefficient of every component |
| `SimpleProgression.ScriptHolder.MakeSimpleProgression` | libjpeg/jcparam.c:598-673 | fills exactly the computed number of scans with the scans of the progression, inside the space kept from an earlier call or a new one |
| `SimpleProgression.SimpleScriptAccepted` | libjpeg/jcparam.c:598-673 | for every number of components the script is accepted, and it sends every coefficient down to bit position 0 |
| `SimpleProgression.SimpleScriptIsLossless` | libjpeg/jcparam.c:598-673 | decoding all its scans gives back every coefficient of every component |
| `PassControl.Compressor.InitMasterControl` | libjpeg/jcmaster.c:619-674 | the first pass, the number of passes and the choice of coder and buffer for every request: the arithmetic coder exactly if it is wanted and optimisation is not, which then holds in every pass |
| `PassControl.Compressor.StartCompress` | libjpeg/jcapistd.c:39-72 | a first pass begins at scanline 0 from the start state; in any other state nothing changes |
| `PassControl.Compressor.PrepareForPass` | libjpeg/jcmaster.c:477-555 | never meets a buffer or coder that is not set up for the pass, starts both in the right mode; keeps pass_number == 2 * scan_number (+ 1 in an output pass) when optimising, and what has happened so far |
| `PassControl.Compressor.FinishPass` | libjpeg/jcmaster.c:579-611 | moves on to the next pass or scan with the same invariant, one pass more being complete |
| `PassControl.Compressor.FinishCompress` | libjpeg/jcapimin.c:155-189 | the loop over the passes ends, and the log of headers, statistics and scans is then complete and ends with the trailer; it fails exactly when called out of turn or before the image is complete |
| `PassControl.LogIsRight` | libjpeg/jcmaster.c:477-611 | in that log the frame header comes once and first, each scan header once in script order, each scan directly behind its header and with tables gathered from that scan, if tables are optimised and the scan is not a DC refinement; only the Huffman coder gathers, and the arithmetic coder codes the scans exactly if it is wanted and optimisation is not |
| `ContextRows.MainController.MakeFunnyPointers` | libjpeg/jdmainct.c:197-237 | the two row lists name the physical rows in order, the second one with its last two groups exchanged, and the first one repeats row 0 above |
| `ContextRows.MainController.SetWraparoundPointers` | libjpeg/jdmainct.c:240-265 | both lists get the neighbouring groups of the other buffer at their ends |
| `ContextRows.MainController.SetBottomPointers` | libjpeg/jdmainct.c:268-301 | the list repeats the last real row below, and rowgroups_avail counts the real groups |
| `ContextRows.MainController.ProcessDataContext` | libjpeg/jdmainct.c:378-440 | whatever input is ready and however many row groups are taken: row groups are handed over in order with the rows that belong to them; there is progress if both are possible, and less than wanted is handed over only if the iMCU row is used up |
| `ContextRows.OutputPass` | libjpeg/jdmainct.c:197-440 | a whole pass: every row group once, in order, with the true clamped neighbouring rows if and only if it is not the exceptional one; enough calls bring all of them |
| `ContextRows.TrueUnlessShortEnd` | libjpeg/jdmainct.c:268-301 | the exact condition for true neighbours |
| `ContextRows.ShortEndExists` | libjpeg/jdmainct.c:268-301 | an image for which it fails: row groups of two rows, five rows in all |
| `ContextRows.GroupsAreCommon` | libjpeg/jdmainct.c:276-288 | the count of row groups is the same for all components of an image, as the code assumes |
| `PrepContext.PrepController.CreateList` | libjpeg/jcprepct.c:269-308 | the row list names three groups of rows with one more wrapped around at each end |
| `PrepContext.PrepController.PreProcessContext` | libjpeg/jcprepct.c:197-261 | whatever rows are given and groups wanted, each group is downsampled once, in order, from its true rows and their true clamped neighbours, none overwritten early (`AllTrue` in `Valid`); rows stay unused only if all wanted groups were made |
| `BlockLayout.CountFits` | libjpeg/jdinput.c:345-377 | ceil(size * factor / d) blocks fill n MCUs of the component but for less than one, for n = ceil(size / d) |
| `BlockLayout.LayoutFits` | libjpeg/jcmaster.c:108-167 | this holds for the layout of every image, whatever its size and sampling factors |
| `BlockLayout.LastPartIs` | libjpeg/jdinput.c:388-462 | (n - 1) * factor + last part == size for last_col_width and last_row_height |
| `BlockLayout.EachBlockOnce` | libjpeg/jdinput.c:388-462 | the MCUs of a scan visit every block of its components exactly once and no place outside the padded array |
| `McuBuilders.CoefController.BuildMcu` | libjpeg/jccoefct.c:144-222 | compress_data, and with `trans` the compress_output of jctrans.c (lines 293-366), put the same blocks into an MCU, dummy blocks at the right and at the bottom included |
| `McuBuilders.CoefController.FirstPassRow` | libjpeg/jccoefct.c:249-333 | compress_first_pass fills the arrays of an iMCU row, with the dummy blocks, and nothing else |
| `McuBuilders.CoefController.McuFromArrays` | libjpeg/jccoefct.c:346-400 | compress_output takes the same blocks from those arrays |
| `McuBuilders.CoefController.RunPass` | libjpeg/jccoefct.c:144-400 | over a whole pass, however the coder suspends, all three builders give it the same MCUs, each once and in order |
| `CoefInput.InputController.ConsumeData` | libjpeg/jdcoefct.c:246-308 | one iMCU row under any suspension keeps: every block before the position is decoded once to its place, in the encoder's order, all others are as they were; it is suspended only when all MCUs at hand have been decoded |
| `CoefInput.InputController.RunScan` | libjpeg/jdcoefct.c:246-308 | calls that each find something to decode complete the scan: each block that it covers has been decoded once, from what the block held, and no other has changed |
| `CoefOutput.OutputFromArrays` | libjpeg/jdcoefct.c:340-376 | gives the inverse DCT exactly the real blocks of the iMCU row, each at its place |
| `BufferedImage.Decompressor.ConsumeInput` | libjpeg/jdinput.c:521-616 | the next portion of a scan or the next marker: scans are stored one over the other in their order; a scan is reported complete exactly at the call that decodes its last iMCU row, a row at any other that completes one; between scans the answer is suspension exactly without input, else EOI exactly behind the last scan, else SOS, or an error exactly if the first scan did not announce another; behind EOI nothing is read, and output is for no later scan than the last |
| `BufferedImage.Decompressor.DecompressData` | libjpeg/jdcoefct.c:317-376 | forces input until it is ahead of the output, which always ends; then every real block of the iMCU row is given as at least the scans up to output_scan_number have left it, and at most those begun; it waits only when all input at hand has been read |
| `BufferedImage.Decompressor.OutputPass` | libjpeg/jdapistd.c:229-243 | a whole output pass for any scan, however the input arrives: all rows in order, and complete once enough calls find something to read |
| `BufferedImage.Decompressor.ReadFile` | libjpeg/jdapistd.c:39-84 | without buffered-image mode all scans are read first, and the output is of all of them |
| `CoefOutput.OnePassController.DecompressOnepass` | libjpeg/jdcoefct.c:148-222 | gives it exactly the real blocks of the iMCU row as decoded; suspended only when all MCUs at hand have been decoded |
| `CoefOutput.OnePassController.RunScan` | libjpeg/jdcoefct.c:148-222 | all rows of the scan in order, complete once enough calls find something to decode |
| `BufferedImage.BothWaysTheSame` | libjpeg/jdcoefct.c:147-376 | both ways are run on a scan of all components, each with its own suspensions: row by row they give the same blocks at the same places, and each gives all rows |
| `WholeFile.DecodeFile` | libjpeg/jdapistd.c:39-84 | the scans of any accepted script, read into the arrays in any portions and put out: every real block of the image holds each coefficient, truncated to the last bit position that the script sends for it |
| `Segments.Unstuff` | libjpeg/jdmarker.c:1011-1050 | a reader at the start of a stuffed segment sees exactly its data and then the marker behind it |
| `MarkerParsing.SofDistinct` | libjpeg/jdmarker.c:240-314 | whatever ids a frame header names, the components get distinct ones |
| `MarkerParsing.SosDistinct` | libjpeg/jdmarker.c:322-405 | the components of a scan are distinct; a scan of all components is a permutation of them |
| `MarkerParsing.OtherCodes` | libjpeg/jdmarker.c:1094-1248 | what the reader does at each marker code, given as bytes; every code not named is an error |
| `MarkerParsing.TableCodes` | libjpeg/jdmarker.c:1168-1181 | C4 defines Huffman tables, DB quantization tables and CC conditioning values |
| `MarkerParsing.FrameCodes` | libjpeg/jdmarker.c:1119-1142 | C0, C1, C2, C9 and CA are the frames that are accepted, and which of them are baseline, progressive or arithmetic |
| `MarkerParsing.SoiDefaults` | libjpeg/jdmarker.c:196-236 | SOI sets the restart interval to 0 and the conditioning of all 16 tables to 0, 1 and 5; other tables stay defined |
| `MarkerReaderObject.MarkerReader.GetDht` | libjpeg/jdmarker.c:459-528 | processed, suspended or failed exactly as parsing all bytes says; what a suspended call has stored does not change the outcome of starting over |
| `MarkerReaderObject.MarkerReader.GetDqt` | libjpeg/jdmarker.c:532-618 | the same, also if a table has been stored in part |
| `MarkerReaderObject.MarkerReader.GetDac` | libjpeg/jdmarker.c:413-448 | the same for conditioning values |
| `MarkerReaderObject.MarkerReader.GetSof` | libjpeg/jdmarker.c:240-314 | the same for the frame header, whose fields are set byte by byte |
| `MarkerReaderObject.MarkerReader.GetSos` | libjpeg/jdmarker.c:322-405 | the same for the scan header |
| `MarkerReaderObject.MarkerReader.SaveMarker` | libjpeg/jdmarker.c:876-976 | a marker that is saved in portions ends up as if it had been saved at once |
| `MarkerReaderObject.MarkerReader.NextMarker` | libjpeg/jdmarker.c:1011-1050 | finds the next marker, or stops where the search can go on |
| `MarkerReaderObject.MarkerReader.ReadMarkers` | libjpeg/jdmarker.c:1094-1248 | comes to SOS, EOI or an error exactly as with all input at hand; if it asks for input, the same is still to come, and bytes that lead there have not arrived |
| `MarkerReaderObject.ReadArriving` | libjpeg/jdmarker.c:1094-1248 | however the bytes are split over calls, the result and all header fields are those of reading them at once; it waits no longer than for the last byte of what it comes to |
| `MarkerSegments.DhtRead` | libjpeg/jcmarker.c:187-221 | a DHT marker is read to the same counts and symbols, with zeros behind them |
| `MarkerSegments.DqtRead` | libjpeg/jcmarker.c:146-183 | a DQT marker of 8 or 16 bits is read to the same entries in their natural places |
| `MarkerSegments.SentIsRead` | libjpeg/jdmarker.c:587-604 | for every block size, each entry in use of the table read is that of the table sent |
| `MarkerSegments.DacRead` | libjpeg/jdmarker.c:413-448 | a DAC marker is read to exactly the conditioning in use if its DC bounds are in order, and is an error otherwise |
| `MarkerSegments.OutOfOrderExists` | libjpeg/jcmarker.c:225-270 | bounds for which it fails: 1 and 0 |
| `MarkerSegments.FrameRead` | libjpeg/jcmarker.c:317-344 | a frame header is read with each repeated id replaced by one more than the greatest before it, hence as it was written if and only if the component ids are distinct |
| `MarkerSegments.EqualIdsExist` | libjpeg/jdmarker.c:281-301 | a frame for which it fails: two components with id 1 are read with ids 1 and 2 |
| `MarkerSegments.LseRead` | libjpeg/jcmarker.c:274-313 | a color transform is accepted if and only if the reader has the ids of the first three components that the writer has |
| `MarkerSegments.SosRead` | libjpeg/jcmarker.c:348-379 | a scan header is read to the same components, parameters and table numbers in use if and only if each component is found by its id |
| `MarkerSegments.FirstAreFound` | libjpeg/jdmarker.c:344-372 | whatever the ids, that is so for a scan of the first components in order; and for distinct ids in every scan (`DistinctAreFound`) |
| `MarkerSegments.DataRead` | libjpeg/jcmarker.c:488-503 | an APPn or COM marker is skipped, looked at, or saved up to the limit |
| `MarkerBytes.NewOnes` | libjpeg/jcmarker.c:163-180 | of the tables wanted, those that had not been sent, each exactly once |
| `MarkerWriterObject.MarkerWriter.EmitDqt` | libjpeg/jcmarker.c:146-183 | nothing is written if the table has been sent, and exactly its DQT marker if not; the precision returned is 1 exactly if an entry in use is over 255; the reader then has the table |
| `MarkerWriterObject.MarkerWriter.EmitDht` | libjpeg/jcmarker.c:187-221 | fails exactly without a table; otherwise nothing is written if it has been sent, and exactly its DHT marker if not, and the reader has it |
| `MarkerWriterObject.MarkerWriter.EmitDac` | libjpeg/jcmarker.c:225-270 | writes the conditioning in use as it is, none if none is; the reader has it if the bounds are in order, and comes to an error if they are not |
| `MarkerWriterObject.MarkerWriter.EmitSof` | libjpeg/jcmarker.c:317-344 | fails exactly for sizes over 65535; otherwise writes the frame whatever the ids, and the reader has it with repeated ids replaced |
| `MarkerWriterObject.MarkerWriter.WriteFileHeader` | libjpeg/jcmarker.c:399-533 | the bytes are SOI, the JFIF marker and the Adobe marker, where they are wanted; the reader starts with interval 0 and default conditioning, and sees JFIF and Adobe markers as it wants them treated |
| `MarkerWriterObject.MarkerWriter.WriteFrameHeader` | libjpeg/jcmarker.c:545-604 | when it fails, exactly; otherwise the bytes are one DQT marker for each table that had not been sent, the frame, the color transform and a pseudo SOS marker where they are due, and no more; the reader has frame, kind of process, all quantization tables and color transform; SOF0 exactly for baseline; a color transform whose ids were repeated is an error for the reader |
| `MarkerWriterObject.MarkerWriter.WriteScanHeader` | libjpeg/jcmarker.c:613-649 | when it fails, exactly; otherwise the bytes are the conditioning in use, or one DHT marker for each table needed that had not been sent, DRI exactly if the interval has changed, and SOS; if the bounds in use are in order and each component is found, the reader comes to this scan with its components, parameters, restart interval and all tables it uses, and writer and reader stay in step for the next one; bounds out of order are written, and are an error for the reader |
| `MarkerWriterObject.MarkerWriter.WriteTablesOnly` | libjpeg/jcmarker.c:671-693 | the bytes are SOI, one marker for each defined table that had not been sent, and EOI; the reader of an abbreviated datastream ends up with every defined table |
| `MarkerWriterObject.MarkerWriter.WriteMarker` | libjpeg/jcapimin.c:200-219 | a marker of the application reaches the reader's application unchanged up to its limit; data that is too long is refused |
| `MarkerWriterObject.MarkerWriter.ReplaceHuff` | libjpeg/jchuff.c:1384-1385 | a table that has been made anew will be sent again, and writer and reader stay in step |
| `HeaderRoundTrip.Announce` | libjpeg/jcmarker.c:519-649 | all headers of an image, written and then read however the bytes arrive: the reader comes to the first scan, right behind the headers, and knows the frame, the scan and all tables in use, unless not all bytes of the headers have arrived; headers that no reader can take end in an error |
| `HeaderRoundTrip.DistinctIsReadable` | libjpeg/jcmarker.c:519-649 | distinct ids, and bounds in order, are enough for that |

## Left out

- Forward and inverse DCT, quantization, color conversion, resampling and merged upsampling: per-pixel arithmetic with
  deliberate rounding; the DCT is a function of the place of a block here.
- Recovery from corrupt data: jpeg_resync_to_restart, the warnings about discarded bytes, and what the Huffman decoders
  make of the zeros they are fed in the MCU in which a segment ends too early.
- Suspension of the output in the entropy encoders: the destination always accepts a byte. That a whole MCU is coded
  again after a suspension is modelled in the coefficient controllers (`McuBuilders`).
- decompress_smooth_data and the choice of components that are needed: decoding for output only.
- ContextRows.MainController.ProcessDataContext: models one component; the others are handled by the same loops, and
  `GroupsAreCommon` shows that they have the same number of row groups. How many rows a row group has after scaling is a
  parameter.
- ContextRows.OutputPass: promises less than the comments of jdmainct.c, because the code does not keep it for a last
  iMCU row with fewer rows than a row group; the condition is exact.
- McuBuilders.CoefController.RunPass: models the virtual arrays as maps from places to blocks; the memory manager, which
  swaps them, and the aliasing of block rows are not part of this model.
- CoefInput.InputController.ConsumeData: takes the entropy decoder as a function that gives a block its new contents; what
  the entropy decoders do is stated for arrays in the modules for coding.
- HuffmanGenerate.GenOptimalTable: requires at most 254 symbols in use and less than 10^9 counts, as the comments of the
  code demand; the counters themselves are unbounded.
- HuffmanWholeScan.Transmit: reports a coefficient that is out of range before a symbol without a code, where the source
  stops at whichever comes first; which inputs are refused is the same.
- HuffmanWholeScan.TransmitOptimized: between a table that may overflow and one that must, it depends on how the merge
  breaks ties between equal weights, which the contract describes for the pseudo-symbol only.
- BufferedImage.Decompressor.ConsumeInput: counts a marker segment between scans as one unit of input; what is read in it is
  the subject of `MarkerReaderObject`. A pseudo SOS between scans, which is skipped, does not occur.
- BufferedImage.Decompressor.StartOutput: does not model the dummy passes of two-pass color quantization.
- WholeFile.DecodeFile: reads the file into the arrays; the single scan that decompress_onepass handles is the subject of
  `BufferedImage.BothWaysTheSame`.
- MarkerReaderObject.MarkerReader.GetInterestingAppn: skips the marker as the code does, but does not model the JFIF and
  Adobe fields that examine_app0 and examine_app14 take from it.
- MarkerWriterObject.MarkerWriter.WriteFrameHeader: takes sampling factors below 16, table numbers, entries and ids of the
  width of their fields as given, as initial_setup and the types of the fields ensure; the ids are bytes.
- HeaderRoundTrip.Announce: ends at the first scan; the entropy-coded data and the headers of later scans are covered by
  the modules for coding and by WriteScanHeader, which keeps writer and reader in step.
- The scaling ladders of jdinput.c and jcinit.c, color space defaults, progress monitors and tracing.
- jutils.c and the memory manager are not part of this model; the natural orders are parameters, of which the one for
  8x8 blocks reaches every entry of a table.
