# The entropy coders of the bundled JPEG library

A Dafny model of the two entropy coders of libjpeg 8c (`libs/jpeg`), from coefficient blocks to
the bytes of a scan and back, with the scan scripts and MCU layout that feed them.

- **Arithmetic codec.** `ExactCoder` is the coder of ITU-T T.81 (ISO/IEC 10918-1), annex D, on
  unbounded integers: nested intervals and adaptive statistics. The classes of `ArithEncoder` and
  `ArithDecoder` are the registers, held byte, stacked 0xFF and pending zeros of `jcarith.c` and
  the floating cut point of `jdarith.c`; both are proved to follow it. `Termination` is about the
  last bytes of a segment, `Bytes` about stuffing and markers, `CodecRoundTrip` about both sides.
  `Adaptation` is about what the statistics learn, and what that saves.
- **MCUs, scans and scripts of scans.** `DecisionModel` says which decisions stand for a block in
  the five modes (sequential, DC and AC, first and refinement). `McuEncoder` and `McuDecoder` are
  the MCU routines, restarts included. `ScanModel` says how restart segments lie in a stream,
  `Progression` how precise a coefficient is after each scan. `ImageRoundTrip` sends whole scripts.
  `CodingLimits` says which statistics bins are touched and which differences can be coded,
  `BinUse` what each bin is told about a block, and `RestartSegments` that segments stand alone.
- **What scans there are.** `ScanScript` has validation, reduction to small blocks and the
  decoder's checks, `SimpleProgression` the recommended script, `ImageLayout` the MCUs of a scan
  and the dummy blocks at the edges of the image, `ImageScript` the way from an accepted script to
  a decoded image.
- **Huffman coder.** `HuffmanCost` and `HuffmanMerge` have the tree and its optimality,
  `HuffmanDepth` how deep it gets, `HuffmanTable` the length limit, `DerivedTable` the canonical
  codes, `BitStream` the bit emitter, `HuffmanItems` the symbols of a block and their decoding,
  `HuffmanScan` the statistics pass and the output pass, `HuffmanSegments` and `HuffmanRestarts`
  restarts,
  `HuffmanRoundTrip` all of it together, `OverflowExample` a scan that is refused.
  `RefinementItems` and `HuffmanRefinement` are the progressive AC refinement with its held
  correction bits, `RefinementStream` a whole such scan on its way to bytes and back.

The error exits on bad scripts, bad tables, coefficients out of range, missing codes and code
length overflow are outcomes (a `false` result, `BadTable`, `OutOfRange`, `LengthOverflow`), and
each of these has its exact condition. The destination is a byte sequence that
grows, the source one that ends with an end-of-image marker as the stdio source manager supplies.

## Findings

- A sequential scan, or a first DC scan, with a DC difference beyond 2^15 is coded without
  complaint, but the decoder takes it for corrupt data (libs/jpeg/jdarith.c:546-556).
  `CodingLimits.WideDifference` names two blocks. A script comes back if and only if
  `ImageRoundTrip.ScriptFits` holds, that is, all its DC differences are at most 2^15; DC values
  up to 2^14 are always good (`CodingLimits.SmallScanFits`).
- The comment at libs/jpeg/jchuff.c:1332-1333 takes it that a code length overflow cannot happen. It
  can: `OverflowExample.OverflowIsReached` is a sequential scan, all in range, with 9227464 symbols
  of one AC table, one less than the 35th Fibonacci number. The exact condition is
  `HuffmanDepth.Overflows`. Fewer symbols of a table cannot overflow (`HuffmanDepth.LightFits`);
  neither can any number of DC symbols (`HuffmanRoundTrip.DcNeverOverflows`) or of symbols of an AC
  refinement (`RefinementStream.RefinementNeverOverflows`), as there are too few different ones.
- The claim at libs/jpeg/jchuff.c:1273-1277 that the pseudo-symbol is in the longest category is
  true, ties or not (`HuffmanDepth.PseudoIsDeepest`).

## Model

| member | source | states |
|---|---|---|
| ArithEncoder.Encoder.Subdivide | libs/jpeg/jcarith.c:234-259 | the two conditional exchanges in the source together select the exact subinterval of section D.1.4 for the coded symbol |
| ArithEncoder.Encoder.TakeByte | libs/jpeg/jcarith.c:265-303 | bytes sent, held byte, stacked 0xFF and pending zeros read as one number that grows by exactly the new byte, carry included; the held byte is never 0xFF, no carry meets an empty buffer, no zero byte is sent before something nonzero |
| ArithEncoder.ByteFits | libs/jpeg/jcarith.c:206-211 | the spacer-bit bound: a byte leaving the register, with its carry, is at most 0x11F, so a carry leaves a buffered byte below 0xFF |
| ArithEncoder.Encoder.Encode | libs/jpeg/jcarith.c:218-311 | the decision joins the history, and registers, output and statistics stay exactly those of the exact coder's run of that history |
| Termination.FinalCodeIsRoundest | libs/jpeg/jcarith.c:138-146 | the value chosen at the end is the one in the interval with the most trailing zeros |
| ArithEncoder.Encoder.FinishPass | libs/jpeg/jcarith.c:131-193 | the finished segment is the stuffing of a shortest code of all its decisions: every 0xFF is followed by 0x00, and no unstuffed zero byte ends it |
| ArithDecoder.Decoder.NextData | libs/jpeg/jdarith.c:111-144 | the data read are the unstuffed segment and then zeros for ever, up to the marker, which is kept |
| ArithDecoder.Decoder.ShiftIn | libs/jpeg/jdarith.c:111-149 | register and shift count always satisfy 0 <= c < a * 2^ct, whatever bytes come in, and stand for the exact interval and the data read so far |
| ArithDecoder.Decoder.Decode | libs/jpeg/jdarith.c:105-182 | for any input the state follows the exact coder on the bits it returns; on data that lie in the interval of recorded decisions it returns the next recorded bit |
| ArithDecoder.Decoder.ReadRestartMarker | libs/jpeg/jdmarker.c:1159-1185 | the marker behind the segment is found past any padding, and accepted exactly if it is the expected restart marker; reading goes on right behind it |
| CodecRoundTrip.RoundTrip | libs/jpeg/jdarith.c:105-182 | for every adaptive choice of bins, every bit sequence, every initial statistics and every following marker: the decoder returns the encoder's bits and ends with the encoder's statistics |
| Adaptation.BinLearns | libs/jpeg/jcarith.c:223-262 | a bin that is always told the same bit, with anything in other bins between, takes it for the more probable symbol after at most 29 uses, in exactly as many as its state says, and keeps to it |
| Adaptation.EstimateMoves | libs/jpeg/jcarith.c:223-262 | a symbol that came is held for more probable than before: an MPS that renormalizes shrinks the estimate for the LPS, an LPS grows it or exchanges the senses; no other bin is touched |
| Adaptation.SameBitsAreShort | libs/jpeg/jcarith.c:131-193 | from any statistics, a segment of equal bits takes at most 62 bytes and one for every 262136 bits, stuffed zeros apart |
| DecisionModel.FixedBinStays | libs/jpeg/jaricom.c:148-153 | the fixed bin stays in its state, of probability one half, through any run of decisions |
| McuEncoder.Encoder.EncodeBlocks | libs/jpeg/jcarith.c:361-823 | in each of the five modes the decisions coded are those the statistical models of F.1.4 and G.1.3 prescribe for the transformed blocks, and the predictions and conditioning contexts advance with them |
| McuEncoder.Encoder.EncodeMcu | libs/jpeg/jcarith.c:685-823 | a restart marker comes exactly where the interval asks for one; what has been written, marker by marker, stays the record of the MCUs so far |
| McuEncoder.Encoder.FinishScan | libs/jpeg/jcarith.c:131-193 | a finished scan is a sequence of restart segments, each the shortest code of its decisions from freshly cleared tables, with the markers in order between them |
| RestartSegments.SegmentStartsClean | libs/jpeg/jcarith.c:330-344 | in every segment of a scan, the first and those behind restart markers, each statistics bin the segment uses is zero to begin with, the fixed one in its state |
| RestartSegments.SegmentStandsAlone | libs/jpeg/jcarith.c:317-353 | so its bytes are a shortest code of its own decisions from statistics that have learned nothing, whatever was sent before |
| RestartSegments.SegmentIsPredicted | libs/jpeg/jcarith.c:330-344 | and each DC value is predicted by the last one of its component in the segment, zero if there is none, and conditioned on that one's difference |
| BinUse.BlockBinsTold | libs/jpeg/jcarith.c:361-823 | Tables F.4 and F.5 bin by bin: in each of the five modes, what every single bin is told about a block, end-of-block decisions only where one is due |
| BinUse.MagnitudeBins | libs/jpeg/jcarith.c:790-812 | the AC bins 189 to 216 are used exactly if a coefficient up to Kx is larger than 2 in magnitude, 217 to 244 exactly if one beyond is |
| BinUse.AcBinIsReached | libs/jpeg/jcarith.c:50-58 | the last AC bin, 244, is reached |
| BinUse.ContextIs | libs/jpeg/jcarith.c:431-435 | the conditioning category is zero up to 2^(L-1) (0 if L is 0), small up to 2^U and large beyond, with the sign |
| McuDecoder.Decoder.ReadAcBand | libs/jpeg/jdarith.c:339-388 | a first AC pass restores the whole band, the end-of-band decision met at the right place or not at all |
| McuDecoder.Decoder.ReadAcRefinement | libs/jpeg/jdarith.c:447-492 | a refinement turns the band of the previous stage into that of this one, negatives and newly nonzero coefficients included, even if the previous stage ended below Ss |
| McuDecoder.Decoder.DecodeBlocks | libs/jpeg/jdarith.c:241-623 | given the decisions of the MCU, all its blocks are restored and the predictions agree with the encoder's, or the error state is entered, and that exactly if a DC difference exceeds 2^15 |
| McuDecoder.Decoder.DecodeMcu | libs/jpeg/jdarith.c:502-623 | across restart markers, the next recorded MCU is restored, with the same iff for the error state |
| McuDecoder.Decoder.ProcessRestart | libs/jpeg/jdarith.c:190-222 | behind a segment the decoder finds the marker it expects, with which the next recorded segment begins |
| DecisionModel.ReceivedIsRestored | libs/jpeg/jdarith.c:397-423 | a DC refinement adds its bit to anything; if the block was right but for that bit it becomes right, in two's complement |
| CodingLimits.BlockBins | libs/jpeg/jcarith.c:50-64 | no block in the coded range touches a DC bin above 48 or an AC bin above 244 of its tables, nor any bin of another table |
| CodingLimits.DcBinIsReached | libs/jpeg/jcarith.c:50-58 | the last DC bin is reached: the size of the table cannot be cut to its index |
| CodingLimits.SmallScanFits | libs/jpeg/jdarith.c:546-556 | DC values of at most 2^14 never put the decoder into its error state |
| CodingLimits.WideDifference | libs/jpeg/jdarith.c:546-556 | two blocks within the range of a coefficient whose DC difference the decoder refuses |
| ImageRoundTrip.TransmitPass | libs/jpeg/jdarith.c:241-495 | one whole scan from blocks to bytes and back, statistics carried over |
| ImageRoundTrip.Transmit | libs/jpeg/jdarith.c:241-623 | a whole sequential or progressive script, with restarts, from blocks to bytes and back: it succeeds if and only if every DC difference is in range, and then every shown block has each coefficient at the level the script takes it to |
| ImageRoundTrip.ExactAtZero | libs/jpeg/jdarith.c:397-495 | a coefficient whose last scan had Al = 0 is the original |
| Progression.ShownIsNear | libs/jpeg/jcarith.c:387-508 | at level Al a coefficient shows as the multiple of 2^Al next below (DC) or next towards zero (AC), less than 2^Al away, its sign kept |
| ScanScript.ValidateScript | libs/jpeg/jcmaster.c:358-489 | accepts exactly the scripts in which each scan sends or refines by one bit what is due of components in order, after their DC data, and which send DC data of every component (all of each component, once, if sequential) |
| ScanScript.ReduceScript | libs/jpeg/jcmaster.c:493-522 | in place, the scans beyond the block are dropped and the others cut to it, in order; what lies behind the script is untouched |
| ScanScript.ReducedIsLegal | libs/jpeg/jcmaster.c:493-522 | a legal script stays legal for the smaller blocks, and sends the same of every coefficient that is left |
| ScanScript.StartPass | libs/jpeg/jdarith.c:637-695 | the decoder stops exactly on intolerable parameters, and is silent exactly on a scan it expects; the precision it remembers is the precision sent |
| ScanScript.AcceptedIsQuiet | libs/jpeg/jdarith.c:637-695 | through the scans of an accepted script, reduced or not, the decoder neither stops nor warns, for every block size from 1 to 16 |
| ImageScript.ToleratedIsDecodable | libs/jpeg/jdarith.c:637-660 | and what it does not stop on is exactly what the MCU routines can decode |
| SimpleProgression.SimpleProgression | libs/jpeg/jcparam.c:559-630 | the space computed beforehand is exactly what the script takes |
| SimpleProgression.SimpleProgressionIsAccepted | libs/jpeg/jcparam.c:559-630 | for every number of components, with or without the YCbCr script: it is accepted as progressive and takes every coefficient to Al = 0 |
| ImageScript.CompressionIsLegal | libs/jpeg/jcmaster.c:358-522 | the passes that follow an accepted script hand over to each other, block by block, what the entropy coder needs; dummy blocks may lag behind |
| ImageScript.TransmitImage | libs/jpeg/jcmaster.c:358-568 | an image compressed by any accepted script comes back with every shown block at the levels of its component, and with all of its coefficients (the square of the block size, at most 64) unchanged if the script sends everything |
| ImageScript.SimpleSendsAll | libs/jpeg/jcparam.c:559-630 | the recommended script sends everything, for every block size |
| ImageScript.SequentialSendsAll | libs/jpeg/jcmaster.c:455-488 | so does every accepted sequential script |
| ImageLayout.FrameIsValid | libs/jpeg/jcmaster.c:326-352 | the MCUs of an image cover every component, and no row or column of MCUs is all dummies |
| ImageLayout.RoundedUpAgree | libs/jpeg/jccoefct.c:427-436 | rounding a component up to whole MCUs gives the MCUs of the image: ceil(ceil(W*h/(H*b))/h) = ceil(W/(H*b)), for both directions |
| ImageLayout.VisitScan | libs/jpeg/jccoefct.c:345-399 | the loops over iMCU rows, rows, columns, components and blocks visit the MCUs of the scan in order, for one component or several, the short last iMCU row included |
| ImageLayout.FrameCarriesOut | libs/jpeg/jcmaster.c:572-653 | they visit every shown block of the scan's components once, and dummy blocks at most once and only in an interleaved scan |
| ImageLayout.FrameIsCompressed | libs/jpeg/jccoefct.c:345-399 | so for every image size, sampling factors and accepted script the transmission theorem applies |
| HuffmanMerge.Merge | libs/jpeg/jchuff.c:1279-1327 | the loop over freq, codesize and others leaves the code sizes of that procedure, ties going to the larger symbol; they fill Kraft's sum and no prefix code costs less |
| HuffmanDepth.PseudoIsDeepest | libs/jpeg/jchuff.c:1273-1277 | the pseudo-symbol gets a longest code, as its comment claims, whatever ties there are |
| HuffmanDepth.DeepIsHeavy | libs/jpeg/jchuff.c:1279-1335 | a code of length l takes counts that sum up to at least the Fibonacci number of l + 2 |
| HuffmanDepth.LightFits | libs/jpeg/jchuff.c:1329-1335 | below a total of 9227465, the pseudo-symbol included, the code length overflow cannot happen |
| HuffmanDepth.FibonacciOverflows | libs/jpeg/jchuff.c:1329-1335 | counts with just that total, of symbols that AC coefficients have, for which it does happen |
| HuffmanDepth.FewSymbolsFit | libs/jpeg/jchuff.c:1329-1335 | with at most 33 symbols in use, the pseudo-symbol included, it cannot happen, whatever the counts |
| OverflowExample.OverflowIsReached | libs/jpeg/jchuff.c:1107-1441 | a sequential scan, every coefficient in range and every count below the sentinel, whose AC table overflows, with the fewest symbols possible |
| HuffmanTable.LimitLengths | libs/jpeg/jchuff.c:1353-1365 | the loops compute the adjustment of section K.2; it keeps Kraft's sum at 1 and the number of words, no byte-sized count under- or overflows, and all lengths end at most 16 |
| HuffmanTable.ShorterWordExists | libs/jpeg/jchuff.c:1355-1357 | the inner search never runs off the counts: a full code of fewer than 256 words with one longer than 16 bits has a word at least two bits shorter |
| HuffmanTable.CountsAreExact | libs/jpeg/jchuff.c:1329-1372 | if no code size exceeds 16, the counts delivered are those of the optimal code sizes, the pseudo-symbol taken out |
| HuffmanTable.GenOptimalTable | libs/jpeg/jchuff.c:1255-1389 | fails exactly if a code size exceeds 32; otherwise counts and symbol list are those of the optimal code sizes, limited, with one slot free and exactly the used symbols in order |
| DerivedTable.MakeDerived | libs/jpeg/jchuff.c:161-246 | accepts exactly the counts of at most 256 words with Kraft's sum below 1 and distinct symbols in range; the codes are the canonical ones |
| DerivedTable.CodesArePrefixFree | libs/jpeg/jchuff.c:203-221 | no code of an accepted table is a prefix of another, none is all ones |
| DerivedTable.OptimalIsAcceptable | libs/jpeg/jchuff.c:161-246 | a table made from counts is always accepted, as an AC table, or as a DC table if its symbols are at most 15 |
| DerivedTable.OptimalCodes | libs/jpeg/jchuff.c:1255-1389 | from counts to codes: exactly the used symbols get prefix-free codes of at most 16 bits; a smaller code size never gets a longer code, and code sizes of at most 16 are kept, so the code is optimal |
| BitStream.BitWriter.EmitBits | libs/jpeg/jchuff.c:299-341 | the bits written grow by exactly the masked code, at most 7 stay pending, every 0xFF is stuffed; it fails exactly on size 0 |
| BitStream.BitWriter.FlushBits | libs/jpeg/jchuff.c:385-393 | at most 7 ones are added and everything is written |
| HuffmanItems.SymbolIsFound | libs/jpeg/jdhuff.c:592-627 | the decoding procedure of section F.2.2.3 on the code of a symbol, whatever follows, returns the symbol and stops behind it |
| HuffmanItems.BlockDecodes | libs/jpeg/jchuff.c:915-1008 | the bits of a block's DC difference, runs and coefficients decode to the block, whatever follows |
| HuffmanScan.Gatherer.EncodeMcuGather | libs/jpeg/jchuff.c:1107-1225 | the symbols counted are those of the MCU's items, and it fails exactly on a coefficient out of range |
| HuffmanScan.Encoder.EncodeMcu | libs/jpeg/jchuff.c:1016-1065 | emits those same items, restart markers where they are due; it fails exactly on a coefficient out of range or a symbol without a code |
| HuffmanSegments.StreamDecodes | libs/jpeg/jchuff.c:1016-1104 | the stuffed and padded stream of a scan, with its restart markers, decodes to its MCUs for every restart interval |
| HuffmanRestarts.SegmentIsAlone | libs/jpeg/jchuff.c:489-506 | segment g has the MCUs from g restart intervals on and no others, and their items from predictions of zero |
| HuffmanRestarts.SegmentDecodesAlone | libs/jpeg/jchuff.c:489-506 | its bits decode to just those MCUs from literal zeros, without any other segment |
| HuffmanRoundTrip.FewItemsFit | libs/jpeg/jchuff.c:1329-1335 | a table with fewer than 9227464 symbols in the scan never overflows |
| HuffmanRoundTrip.DcNeverOverflows | libs/jpeg/jchuff.c:1329-1335 | nor does a DC table, whatever its counts |
| HuffmanRoundTrip.OptimizedScan | libs/jpeg/jchuff.c:1107-1441 | statistics pass, tables, output pass and decoding: with its own tables a scan never lacks a code; it is refused exactly if a coefficient is out of range or the code lengths of a table overflow, and otherwise decodes to its MCUs |
| HuffmanRefinement.RefineEncoder.EmitEobrun | libs/jpeg/jchuff.c:458-482 | the run symbol with its extra bits and then the held correction bits, in order, and nothing if no run is pending; the check on the run length never fires |
| HuffmanRefinement.RefineEncoder.EncodeMcu | libs/jpeg/jchuff.c:785-910 | EOBRUN = 0 implies BE = 0, at most 937 bits are held between MCUs and never more than MAX_CORR_BITS, EOBRUN stays below 0x7FFF, and no correction bit is lost, repeated or moved; a block without new coefficients emits nothing and lengthens the run as long as both bounds allow, and sends it exactly if not |
| HuffmanRefinement.RefineEncoder.Finish | libs/jpeg/jchuff.c:1073-1104 | after the last MCU the items emitted take a decoder that knows the previous stage of all blocks to their refinement |
| RefinementStream.EncodeRefinement | libs/jpeg/jchuff.c:511-532 | with a restart marker wherever the interval asks for one, each segment takes a decoder through its blocks, and the counts go on through all segments; at most 64 symbols for each block, and just one, that of the run, for a segment of fewer than 0x7FFF blocks without new coefficients and with at most 937 correction bits |
| RefinementStream.PackPieces | libs/jpeg/jchuff.c:346-402 | the segments are packed, padded and stuffed one after the other with the restart markers in order between them; it fails exactly on a symbol without a code |
| RefinementStream.RefinementNeverOverflows | libs/jpeg/jchuff.c:1329-1335 | the code lengths of an AC refinement never overflow |
| RefinementStream.OptimizedRefinement | libs/jpeg/jchuff.c:785-910 | a whole AC refinement scan with its restart segments, from blocks to one table and stuffed bytes and back to the refined blocks: nothing is lost and no code is missing, for every scan whose symbols stay below the sentinel, as they do up to fifteen million blocks |
| RefinementStream.BlockSame | libs/jpeg/jdhuff.c:903-1056 | whatever a decoder makes of the symbols and bits one by one, it makes of the bit stream |
| RefinementItems.RunReads | libs/jpeg/jdhuff.c:903-1056 | a decoder in an end-of-band run reads the correction bits of each block of the run, and of no other |
## Left out

- HuffmanItems.BlockDecodes: decodes by the procedures of section F.2.2 of T.81 on bits; the look-ahead tables and the bit buffer of jdhuff.c, and its warnings on corrupt data, are not modelled.
- HuffmanSegments.StreamDecodes: uses those procedures too, with restart markers as process_restart of jdhuff.c expects them.
- RefinementStream.OptimizedRefinement: runs the encoder once, and packs what it has emitted when the table is there; in the source the output pass runs it again on the same blocks. As many symbols as the sentinel give an outcome of their own.
- HuffmanRoundTrip.OptimizedScan: asks that the symbols of each table are fewer than the sentinel 1000000000 of the merge loop, above which counts would be overlooked.
- HuffmanScan.Encoder.EncodeMcu: suspension in the middle of an MCU, and the state saved for it, is not modelled.
- ArithDecoder.Decoder.ReadRestartMarker: resynchronization after an unexpected marker is not modelled.
- McuDecoder.Decoder.DecodeMcu: with corrupt data promises only that the decoder stays valid; an int that `last_dc_val` could overflow then is unbounded here.
- McuDecoder.Decoder.ProcessRestart: recovery from a wrong marker (jpeg_resync_to_restart) ends the model's decoding.
- ImageScript.TransmitImage: each scan has a byte stream of its own, followed by some marker; frame and scan headers are not written, and the decoder is given the parameters.
- ImageLayout.VisitScan: suspension, and with it the saved position inside an iMCU row, is not modelled; nor is the single-pass controller compress_data, nor what values dummy blocks get (the theorems hold for any values).
- SimpleProgression.SimpleProgression: always allocates; reuse of script space from an earlier call is not modelled.
- BitStream.BitWriter.EmitBits: adds the new bits where the source or-s them in; they do not overlap. The destination always takes a byte.
- BitStream.BitWriter.FlushBits: the destination always takes a byte.
- ProbabilityTable: holds the four fields of an entry, not their packing into one integer.
- Suspension: `encode_mcu` and the marker reader always have room and data. The empty-file error of the source manager is out, and so are JERR_CANT_SUSPEND and JERR_NO_ARITH_TABLE.
- Progressive Huffman first scans and DC refinement.
- Tables of the standard (std_huff_tables, natural orders): an order is any injective one.
- The preprocessing and main controllers, the pass schedule, Fortify's allocator and the calendar arithmetic of exiftags: independent of the coders.
