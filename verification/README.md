# Verified models of the JPEG entropy codec and the ANN search trees

This project models three parts of the repository and proves properties of them.

**The JPEG Huffman entropy codec** (ITU-T T.81 | ISO/IEC 10918-1) in `3rd/jpeg`, sequential and progressive, encoder and
decoder: canonical code construction (Annex C), the lookahead decoder beside the bit-serial one (figures F.15, F.16), byte
stuffing and padding, restarts, successive approximation with EOB runs and deferred correction bits (sections G.1.2.1 to
G.1.2.3), suspension and retry, statistics gathering, optimal table construction (section K.2), and the scan scripts.

**The ANN kd-trees and bd-trees** in `3rd/ANN`: building them by in-place selection and partition of an index array, three
searches with incrementally maintained cell distances over a bounded sorted set and a binary heap, dump and load, and the linear
scan that all of them are measured against.

**The context-row buffers** of `3rd/jpeg`: the row lists of the decompressor's main controller and the circular buffer of the
compressor's preprocessing controller.

`dafny verify dfyconfig.toml` checks the whole project.

## How the models are built

Each file is one module. Buffers that the source changes in place are arrays, and the source's controller objects are classes.
Where the source loads state into locals for the length of a call (the bit reader, the bit writer), the state is a value that is
passed along and stored back. A method is proved against a specification: a function on bit strings or sequences, or a predicate
on the state. The lemmas are about these.

*Codec.* The abstract stream is a string of bits. `HuffmanTable` defines bit-serial decoding, `BitReader` and `BitWriter`
connect byte sequences to bit strings, `AcBlocks`, `AcScan` and `McuScan` define what blocks and scans send and how they are
read, and prove the round trips. `AcGrammar` and `McuGrammar` say once more what is sent, as words read off the coefficients
without an encoder's counters, and prove that these are the bits. `AcEncoder`, `AcDecoder`, `ProgressiveDecoder`, `McuEncoder`
and `McuDecoder` are the source's routines, proved to do just that. `AcReplay` and `McuReplay` prove that a suspended block
decodes like the original one; `Delivery` and `McuDelivery` run the decoders over coded scans that arrive in arbitrary pieces.
`ScanScript` says what the scans of a script are meant to achieve for every coefficient, and `ScanRun` proves that a decoder
achieves it: it folds the decoding of scan after scan over the bytes of the whole file. `Precision` says how near that is to the
original. `FileDecoding` has the decoder objects read that file, in pieces, into coefficient arrays. `Statistics`,
`HuffmanCost`, `OptimalTable` and `TwoPass` lead from counting symbols by way of Huffman's procedure, which is proved to give
code sizes of least cost, to a coding pass that lacks no code. The suspending source is a byte sequence that may get longer; the
suspending destination is a sequence of buffers of given sizes, after which it refuses.

*Trees.* Coordinates are real numbers, infinity is explicit (`MinK.Key`). A tree is a datatype whose leaves denote stretches of
the index array; `KdTree.Built` relates it to the array, the points and the cell, and `KdTree.Grown` to the splitting and
shrinking rules, which `CellRules` states in terms of a cell and the points in it. `Neighbours` says what a search may leave out
and proves by counting that its answer is good; `Answers` says what a reply promises, in terms of the points and the sums of
their squared coordinate differences alone. The depth-first searches for nearest neighbours and within a radius walk the tree in
the same way and are one class, `KdSearch.Searcher`, with a goal; the priority search is another.

*Buffers.* A row is a value; the downsampler and the postprocessor are consumers that see windows of rows, and the classes
record what they have seen.

## What does not hold

* The suspension scheme of `encode_mcu_huff` supposes that a refused call can be repeated. That is so just if the destination,
  before the call, would provide no buffer beyond the present one, which is what a suspending destination does
  (`McuEncoder.HuffEncoder.EncodeMcu`); otherwise part of the refused output is already part of the stream.
  `RefusedMcu.RefusedForGood` is such a call, with one more buffer to come.
* The decompressor's main controller promises, at the bottom of the image, context rows that duplicate the last real row. The
  row group just before the last iMCU row is passed on before the bottom pointers are set, so dummy rows are seen below it,
  unless the last iMCU row has all rows of a row group (`DecompressContext.SeenIsNearest`; `DummyRowRun` runs the controller on
  an image of five rows). The first row below is right in all cases (`FirstRowBelow`), which is all that the existing upsamplers
  use.
* `rbd_tree` with simple shrinking does not terminate if it is called for more points than a bucket holds and all of them
  coincide (`CoincidingPoints.CoincidingPointsShrinkForever`). It terminates if no more than a bucket's worth of points coincide
  (`BdTree.RbdTree`), which is not necessary: splits may separate coinciding points (`CoincidingPoints.CoincidingPointsSplit`).
  The comment above trySimpleShrink says that it cannot shrink twice in a row; that is so just if not all points coincide
  (`BdTree.ShrinksAgain`).
* `annkPriSearch` and `annkFRSearch` do not check k against the number of points, as `annkSearch` does; what they report then is
  stated.
* After a shrinking node the distance passed down is only a lower bound of the distance of the cell, because sides shared with
  the outer box are not counted; in kd-trees it is exact.
* A simple shrink leaves no point outside: the outer child is always the trivial leaf (`BdTree.Hollow`).

## Model



| member | source | states |
|---|---|---|
| `Bits.BinSplit` | 3rd/jpeg/jchuff.c:301-336 | a field of m + n bits is its upper m bits followed by its lower n bits, for every number |
| `Bits.BinAppend` | 3rd/jpeg/jchuff.c:313-330 | shifting n masked bits into a register of fixed width appends exactly these bits and loses only bits beyond the width |
| `Coefficients.ExtendComplement` | 3rd/jpeg/jdhuff.c:441-460 | sending a value as its category and its complemented low bits, and extending the sign on arrival (figure F.12), gives the value back |
| `Coefficients.CorrectionBit` | 3rd/jpeg/jdphuff.c:566-576 | bumping a coefficient known down to bit al + 1 by its correction bit makes it known down to bit al; a second bump with the same bit changes nothing |
| `Coefficients.NewlyNonzero` | 3rd/jpeg/jdphuff.c:541-548 | a coefficient whose magnitude first becomes 1 at bit al is plus or minus 1 shifted left by al |
| `HuffmanTable.SerialDecodesCode` | 3rd/jpeg/jdhuff.c:396-433 | the bit-serial loop of figure F.16 turns the code of the q-th symbol, followed by any bits, into that symbol and those bits |
| `HuffmanTable.SerialExtends` | 3rd/jpeg/jdhuff.c:396-433 | if a bit string holds a symbol, more bits after it change neither the symbol nor what is consumed |
| `HuffmanTable.SerialMisses` | 3rd/jpeg/jdhuff.h:176-196 | if the first n bits hold no complete code, bit-serial decoding continues from them as the code so far, so the loop may start at length n + 1 |
| `HuffmanTable.PrefixFree` | 3rd/jpeg/jchuff.c:221-239 | no code is a prefix of another |
| `HuffmanTable.NeverAllOnes` | 3rd/jpeg/jdhuff.c:193-211 | no code of an accepted table consists of ones only, so the one bits of padding hold no code |
| `HuffmanTable.Canonical` | 3rd/jpeg/jchuff.c:221-239 | the first code is zero, and each next code is the next number, with zeros appended if it is longer |
| `DerivedTables.CodeSizes` | 3rd/jpeg/jchuff.c:208-219 | figure C.1: the lengths of all codes, or refusal just if the table lists more than 256 |
| `DerivedTables.GenerateCodes` | 3rd/jpeg/jchuff.c:221-239 | figure C.2: the canonical code of every symbol, or refusal just if some length overflows |
| `DerivedTables.MakeCDerivedTbl` | 3rd/jpeg/jchuff.c:177-264 | accepts just the legal tables whose symbols are distinct and in range, and then maps every listed symbol to its code and the others to size 0 |
| `DerivedTables.LookCode` | 3rd/jpeg/jdhuff.c:230-251 | every eight-bit index that starts with a code of at most eight bits belongs to that code's symbol |
| `DerivedTables.LookNone` | 3rd/jpeg/jdhuff.c:230-251 | an index above all codes of length up to n holds no code of that length or less |
| `DerivedTables.FillLookahead` | 3rd/jpeg/jdhuff.c:230-251 | entry by entry, the lookahead table is what bit-serial decoding of the eight bits gives; no two codes claim the same entry |
| `DerivedTables.DecodingBounds` | 3rd/jpeg/jdhuff.c:213-228 | figure F.15: maxcode and valoffset for every length, with the sentinel in entry 17 |
| `DerivedTables.MakeDDerivedTbl` | 3rd/jpeg/jdhuff.c:147-266 | accepts just the legal tables with proper DC symbols, and then its lookahead, maxcode and valoffset entries decode that table |
| `BitReader.ReadByte` | 3rd/jpeg/jdhuff.c:290-360 | the next unit of input: a data byte with its stuffed zero removed, a marker after any fill bytes, or nothing yet |
| `BitReader.Units` | 3rd/jpeg/jdhuff.c:312-345 | a byte other than 0xFF is data; any number of bytes 0xFF are one data byte 0xFF if a zero follows, a marker if another byte does, and incomplete otherwise |
| `BitReader.LoadBytes` | 3rd/jpeg/jdhuff.c:290-366 | fetching bytes neither loses nor reorders bits, and stops at a full register, a marker or the end of what is delivered |
| `BitReader.FillBitBuffer` | 3rd/jpeg/jdhuff.c:290-389 | provides the bits asked for; they are real data whenever that many are left before the marker; fails just if the source runs dry first |
| `BitReader.CheckBitBuffer` | 3rd/jpeg/jdhuff.h:138-142 | after success the bits are in the register and the bits still to come are unchanged |
| `BitReader.SlowDecode` | 3rd/jpeg/jdhuff.c:396-433 | starting at any length known to be too short, the loop finds what figure F.16 finds from length 1, with the same bits consumed |
| `BitReader.HuffDecode` | 3rd/jpeg/jdhuff.h:176-196 | lookahead, bit-serial loop and their combination at the end of the data all give the symbol that figure F.16 gives and consume the same bits |
| `BitWriter.DestuffBytes` | 3rd/jpeg/jchuff.c:301-336 | the decoder's view of stuffed bytes is exactly the bits that were written |
| `BitWriter.NoFalseMarker` | 3rd/jpeg/jchuff.c:321-330 | no 0xFF among the data bytes is followed by anything but a zero byte |
| `BitWriter.TakeByte` | 3rd/jpeg/jchuff.c:321-330 | taking the top byte off the 24-bit register leaves exactly the later bits, left-justified |
| `BitWriter.EmitBits` | 3rd/jpeg/jchuff.c:301-336 | appends the low bits of the code to the bits written so far, with at most seven bits retained; refused only when the destination has no room |
| `BitWriter.PadBytes` | 3rd/jpeg/jchuff.c:339-347 | seven one bits complete the last byte, and whatever is left of them is dropped |
| `BitWriter.PadOnes` | 3rd/jpeg/jchuff.c:339-347 | the padding consists of fewer than eight one bits and leads to a whole number of bytes |
| `BitWriter.FlushBits` | 3rd/jpeg/jchuff.c:339-347 | the output is the bits padded with ones to whole bytes, and the register is empty |
| `BitWriter.SegmentReads` | 3rd/jpeg/jdhuff.c:290-389 | finished bytes before a marker read back as the bits written and fewer than eight one bits, up to that marker |
| `Segments.FromReads` | 3rd/jpeg/jdmarker.c:1111-1139 | in a scan of segments and restart markers, reading from any segment yields its own bits and padding and stops at the marker that ends it |
| `Segments.EmitMarker` | 3rd/jpeg/jchuff.c:449-468 | the finished segment is padded and followed by the bytes 0xFF and 0xD0 + restartNum |
| `Segments.NextMarker` | 3rd/jpeg/jdmarker.c:872-917 | finds the first marker that destuffing stops at, skipping stuffed zeros and fill bytes; None just if there is none yet |
| `Segments.ProcessRestart` | 3rd/jpeg/jdhuff.c:466-498 | resumes behind the marker 0xD0 + nextNum with an empty register, suspends if no marker has arrived, and otherwise reports that resynchronisation is called for |
| `AcBlocks.SequentialAgrees` | 3rd/jpeg/jdhuff.c:567-592 | where no EOB run is announced, the AC part of decode_mcu reads a block exactly as a first progressive scan at bit 0 |
| `AcBlocks.FirstDecodes` | 3rd/jpeg/jdphuff.c:379-428 | a first AC scan decodes what was sent for a block, followed by any bits, to the block at precision al; with trailing zeros it ends in the announced EOB run |
| `AcBlocks.RefineZrlDecodes` | 3rd/jpeg/jdphuff.c:537-590 | run-length-16 codes with their held-back correction bits are read back as sixteen zeros and the corrections among them |
| `AcBlocks.RefineInv` | 3rd/jpeg/jcphuff.c:662-711 | after any number of coefficients of a block, the refinement encoder's output decodes to the block improved up to its last symbol, whatever follows |
| `AcBlocks.RefineTail` | 3rd/jpeg/jdphuff.c:593-615 | correction bits after the last symbol, or all through a block inside an EOB run, improve the rest of the band |
| `AcBlocks.RefineDecodes` | 3rd/jpeg/jdphuff.c:489-633 | a refinement scan decodes a block known down to bit al + 1 to the block known down to bit al, alone, at the start of an EOB run or inside one |
| `AcScan.ScanBounds` | 3rd/jpeg/jcphuff.c:713-722 | for every sequence of blocks EOBRUN stays below 0x7FFF between blocks and never exceeds it, the held-back correction bits never exceed MAX_CORR_BITS, and there is always room for another block's 63 |
| `AcScan.ScanInv` | 3rd/jpeg/jcphuff.c:616-738 | after every prefix of blocks, the bits sent and any announcement of a pending run that is long enough decode to just those blocks and leave the rest of the run pending |
| `AcScan.ScanRoundTrip` | 3rd/jpeg/jcphuff.c:616-738 | for every sequence of blocks, first or refinement scan, decoding what was encoded gives every block at precision al and leaves the following bits untouched |
| `AcScan.ScanPrefix` | 3rd/jpeg/jdphuff.c:489-633 | if all blocks of a scan decode, so do the first j of them, to the same blocks |
| `AcScan.NextInSegment` | 3rd/jpeg/jdphuff.c:489-633 | behind j blocks of a padded segment the decoder finds block j + 1 as encoded, padding and all |
| `AcGrammar.ShrQuotient` | 3rd/jpeg/jcphuff.c:490-512 | shifting right by al, with sign extension, is dividing by 2^al and rounding down |
| `AcGrammar.ValueBits` | 3rd/jpeg/jcphuff.c:502-513 | the bits sent for a negative value of n bits are those of 2^n - 1 less its magnitude |
| `AcGrammar.BlockSpelt` | 3rd/jpeg/jcphuff.c:481-561 | a block is sent as one word for every coded coefficient, by the zeros since the last word and its size, and one word 0xF0 for every sixteenth zero before a coded coefficient, each with the corrections passed since the last word; the corrections after the last coded coefficient are held back, and there is an end of band to count unless the last coefficient is coded |
| `AcGrammar.EndSpelt` | 3rd/jpeg/jcphuff.c:541-545 | a block with a coded coefficient ends the run and starts one if its last coefficient is not coded; any other block joins the run; a run is sent alone only at the length 0x7FFF or with more than 937 corrections |
| `AcGrammar.ScanSpelt` | 3rd/jpeg/jcphuff.c:713-722 | for every sequence of blocks, what has been sent and what is pending is what the coefficients say, without reference to the encoder |
| `AcGrammar.SegmentSpelt` | 3rd/jpeg/jcphuff.c:616-738 | the bits of a segment are exactly its words, and it can be sent just if every symbol has a code and no coefficient of a first scan needs more than ten bits |
| `AcGrammar.OpenSince` | 3rd/jpeg/jcphuff.c:713-722 | until one of the two limits is reached, the pending run counts every block since the last coded coefficient, and the bits held back are all their corrections in order |
| `AcGrammar.FirstOpen` | 3rd/jpeg/jcphuff.c:541-545 | in a first scan the pending run is the number of blocks since the last coded coefficient modulo 0x7FFF, and no bits are held back |
| `AcGrammar.QuietSegment` | 3rd/jpeg/jcphuff.c:713-722 | fewer than 0x7FFF blocks without a coefficient to code and with at most 937 corrections send nothing before the segment ends, and then one symbol 16e, the low e bits of their number, where 2^e is the greatest power in it, and all corrections in order |
| `ZigzagOrder.StandardOrder` | 3rd/jpeg/jdhuff.c:563-586 | the zigzag table with its sixteen extra entries is a permutation of 0 to 63 that fixes 0, and its extra entries all denote position 63 |
| `ZigzagOrder.ZigzagWalk` | 3rd/jpeg/jutils.c:53-64 | the table starts at 0 and each entry is the next place of the walk along the antidiagonals, up those with an even sum of row and column and down the others |
| `ZigzagOrder.ZigzagSet` | 3rd/jpeg/jdphuff.c:584-586 | a store through the table changes just the zigzag position it is meant for, and position 63 for the extra entries |
| `AcEncoder.EmitSymbol` | 3rd/jpeg/jcphuff.c:279-289 | appends the symbol's code; stops just if it has none |
| `AcEncoder.EmitBufferedBits` | 3rd/jpeg/jcphuff.c:295-308 | appends the held-back correction bits in order |
| `AcEncoder.PhuffEncoder.constructor` | 3rd/jpeg/jcphuff.c:104-189 | an encoder that has coded nothing |
| `AcEncoder.PhuffEncoder.EmitEobrun` | 3rd/jpeg/jcphuff.c:314-339 | announces the pending run with its extra bits and sends the held-back bits; nothing is pending afterwards |
| `AcEncoder.PhuffEncoder.CodeCoefficient` | 3rd/jpeg/jcphuff.c:666-711 | one coefficient of a refinement scan takes output, run and buffers to the state that the bit-level definition gives |
| `AcEncoder.PhuffEncoder.EncodeBlockRefine` | 3rd/jpeg/jcphuff.c:616-738 | the body for one block of a refinement scan; a block without a newly nonzero coefficient adds one to EOBRUN and its corrections to BE, another one leaves EOBRUN at 1 or 0, and only a run of 0x7FFF or more than 937 bits held back is forced out |
| `AcEncoder.PhuffEncoder.EncodeBlockFirst` | 3rd/jpeg/jcphuff.c:462-561 | the body for one block of a first scan; a zero band adds one to EOBRUN, another one leaves it at 1 if it ends in zeros and at 0 if not, and only a run of 0x7FFF is forced out |
| `AcEncoder.PhuffEncoder.EmitRestart` | 3rd/jpeg/jcphuff.c:345-368 | announces the pending run, pads, and writes the marker; the segment is finished |
| `AcEncoder.PhuffEncoder.EncodeMcu` | 3rd/jpeg/jcphuff.c:616-738 | adds the block to the scan, with a restart marker before it just when one is due; the segment so far has been sent in the words of its coefficients, and until a limit is reached EOBRUN counts every block since the last coded coefficient and BE its corrections; stops only for a block that cannot be sent; the block itself is unchanged |
| `AcEncoder.PhuffEncoder.FinishPass` | 3rd/jpeg/jcphuff.c:744-759 | the output is the whole scan: every segment's bits, padded, with the restart markers between them |
| `AcReplay.BumpTwice` | 3rd/jpeg/jdphuff.c:569-576 | a correction made a second time changes nothing, because the bit is tested first |
| `AcReplay.SymLocal` | 3rd/jpeg/jdphuff.c:538-560 | the bits of a symbol alone decide what it is |
| `AcReplay.LeadsRefine` | 3rd/jpeg/jdphuff.c:537-590 | a refinement symbol and the coefficients it passes decode alike whether or not they have been corrected before |
| `AcReplay.SuspendedInside` | 3rd/jpeg/jdphuff.c:525-632 | suspension among the coefficients that a symbol passes: the corrected block decodes like the original one with any further bits |
| `AcReplay.SuspendedInRun` | 3rd/jpeg/jdphuff.c:593-632 | the same in a block that an EOB run covers |
| `AcDecoder.ReadSymbol` | 3rd/jpeg/jdphuff.c:538-560 | one symbol with its extra bits, as the bit strings have it, or suspension just if they do not hold it |
| `AcDecoder.Correct` | 3rd/jpeg/jdphuff.c:566-576 | appends the next bit to a nonzero coefficient unless an earlier try already did |
| `AcDecoder.PassZeros` | 3rd/jpeg/jdphuff.c:561-582 | the inner loop corrects the nonzero coefficients it passes and stops at the right zero |
| `AcDecoder.CorrectRest` | 3rd/jpeg/jdphuff.c:593-612 | corrections to the end of the band |
| `AcDecoder.UndoIt` | 3rd/jpeg/jdphuff.c:627-632 | sets back to zero just the coefficients that this try had made nonzero |
| `AcDecoder.RefineBlock` | 3rd/jpeg/jdphuff.c:489-633 | either the block, reader and run that the bit strings call for, or suspension after which another try decodes as from the original block |
| `AcDecoder.FirstBlock` | 3rd/jpeg/jdphuff.c:355-432 | the same for a first scan, which simply stores its values again |
| `ProgressiveDecoder.PhuffDecoder.constructor` | 3rd/jpeg/jdphuff.c:90-193 | a decoder at the start of its input; if the input is a coded scan it stands at the scan's beginning |
| `ProgressiveDecoder.PhuffDecoder.Restart` | 3rd/jpeg/jdphuff.c:226-260 | a due restart resumes in the next segment, waits, or is out of step |
| `ProgressiveDecoder.PhuffDecoder.DecodeMcu` | 3rd/jpeg/jdphuff.c:489-633 | saves nothing unless the block is complete; standing in a coded scan, it completes the next block with the value the encoder meant and stands behind it |
| `ProgressiveDecoder.RetryDecodes` | 3rd/jpeg/jdphuff.c:525-632 | whatever a suspended try has done to a block, with more input it decodes from the saved state as the original block would |
| `ProgressiveDecoder.SuspensionInvisible` | 3rd/jpeg/jdphuff.c:489-633 | a retry that completes leaves the block, the run and the remaining input of an uninterrupted try |
| `ProgressiveDecoder.SuspendedAgain` | 3rd/jpeg/jdphuff.c:525-632 | a try that is suspended again may be retried again |
| `MoreBits.BlockMore` | 3rd/jpeg/jdphuff.c:344-632 | a block of an AC scan that is complete with the bits at hand is decoded in the same way when more bits follow, which it leaves |
| `Delivery.InputMore` | 3rd/jpeg/jdhuff.c:277-379 | data bits, first marker and incomplete unit of an input in two pieces follow from the first piece's incomplete unit and the second piece |
| `Delivery.DoneWithMore` | 3rd/jpeg/jdphuff.c:344-632 | a try with part of the input completes the block that a try with all of it completes, or leaves one that decodes to the same |
| `Delivery.NotLost` | 3rd/jpeg/jdphuff.c:236-279 | in a coded scan that arrives in pieces a restart is due just at the end of a segment, and its marker is the expected one as soon as it is there |
| `Delivery.TryStep` | 3rd/jpeg/jdphuff.c:344-632 | one call in such a scan completes the next block as the encoder meant it, or more input is still to come and the saved state and the block are as good as before |
| `Delivery.Try` | 3rd/jpeg/jdcoefct.c:283-289 | the same for a call of the decoder object on a block in place, restarts included |
| `Delivery.DecodeNext` | 3rd/jpeg/jdcoefct.c:283-289 | calling again with one more piece of input after every suspension completes the block, however many calls are in vain |
| `Delivery.ConsumeScan` | 3rd/jpeg/jdcoefct.c:243-306 | however the bytes of a coded AC scan are cut into pieces, every block of the scan is completed as the encoder meant it |
| `McuScan.DcDecodes` | 3rd/jpeg/jdhuff.c:550-565 | a DC difference reads back, whatever follows |
| `McuScan.AcDecodes` | 3rd/jpeg/jdhuff.c:567-592 | the AC part of a sequential block reads back, whatever follows |
| `McuScan.DcBit` | 3rd/jpeg/jdphuff.c:463-476 | one more bit takes an arithmetically shifted DC value to the next precision |
| `McuScan.McuRoundTrip` | 3rd/jpeg/jdhuff.c:515-627 | for every sequence of blocks of any components, sequential, DC first or DC refinement: from the encoder's predictions the decoder recovers every block and the predictions, and stops where the encoder stopped |
| `McuScan.SegmentRoundTrip` | 3rd/jpeg/jdhuff.c:515-627 | the same for a whole segment |
| `McuGrammar.DiffSpelt` | 3rd/jpeg/jchuff.c:360-391 | a DC difference is sent as its category n and n bits, those of the difference if it is positive and of the difference plus 2^n - 1 if not; it can be sent just if the category is at most eleven and has a code |
| `McuGrammar.AcSpelt` | 3rd/jpeg/jchuff.c:393-442 | the AC part of a block is sent as one word for every nonzero coefficient, by the zeros before it modulo sixteen and its size, one word 0xF0 for every sixteen zeros before it, and the symbol 0 just if the last coefficient is zero |
| `McuGrammar.SegmentSpelt` | 3rd/jpeg/jchuff.c:474-525 | the bits of a segment of a sequential, DC first or DC refinement scan, what stops it, and the predictions are what the coefficients say: each difference is from the last block of the same component in the segment, 0 at its start |
| `McuEncoder.Category` | 3rd/jpeg/jchuff.c:362-376 | the number of bits of a magnitude, by shifting, and the complemented value to send |
| `McuEncoder.EncodeDc` | 3rd/jpeg/jchuff.c:360-391 | sends the difference's category and bits; refuses a difference of more than eleven bits |
| `McuEncoder.EncodeAc` | 3rd/jpeg/jchuff.c:393-442 | sends the AC part of a block |
| `McuEncoder.EncodeItem` | 3rd/jpeg/jchuff.c:351-443 | sends one block: DC difference, AC part, or DC bit, as the scan has it; stops just for a block that cannot be sent |
| `McuEncoder.RefusalRepeats` | 3rd/jpeg/jchuff.c:483-512 | what a refusal leaves is the state before the call just if the destination had no buffer beyond the present one; otherwise output stays behind and the state no longer matches the scan |
| `McuEncoder.HuffEncoder.constructor` | 3rd/jpeg/jchuff.c:104-168 | an encoder that has coded nothing, in front of the destination given |
| `McuEncoder.HuffEncoder.EncodeMcu` | 3rd/jpeg/jchuff.c:474-525 | adds the MCU to the scan, or stops for one that cannot be sent, or is refused; the bits of the segment and the predictions are those that its coefficients spell; after a refusal predictions and counters are unchanged, and the call may be repeated just if the destination, before the call, had no buffer beyond the present one, which is a suspending destination; just then output and register are unchanged |
| `McuEncoder.HuffEncoder.FinishPass` | 3rd/jpeg/jchuff.c:531-552 | the output is the whole scan: every segment's bits, padded, with the restart markers between them |
| `McuEncoder.HuffEncoder.Refill` | 3rd/jpeg/jchuff.c:475-525 | more room leaves the scan so far as it was |
| `RefusedMcu.RefusedForGood` | 3rd/jpeg/jchuff.c:474-512 | an encoder, a destination with one more buffer, and one MCU whose refused call leaves a state that is no encoder state: it cannot be repeated |
| `Statistics.WordsSent` | 3rd/jpeg/jchuff.c:393-442 | the coding pass sends, for the coefficients up to any point, just the words that the statistics pass lists |
| `Statistics.AcSends` | 3rd/jpeg/jchuff.c:600-635 | coding an AC part succeeds just if all its words have codes and its values are in range |
| `Statistics.SlotsSuffice` | 3rd/jpeg/jchuff.c:351-443 | coding a sequence of blocks succeeds just if every word has a code in its component's table and every value is in range |
| `Statistics.StatisticsSuffice` | 3rd/jpeg/jchuff.c:643-673 | tables that list every symbol with a nonzero count never lack a code in the coding pass over the same segments |
| `TwoPass.CountsFit` | 3rd/jpeg/jchuff.c:558-640 | the counts of any scan in range are such as jpeg_gen_optimal_table can take: some symbol and at most 254, a total below 10^9 if there are fewer words than that, and of DC symbols none above 15 |
| `TwoPass.NeverUsed` | 3rd/jpeg/jchuff.c:860-880 | a table slot that no component of the scan uses has no words to send |
| `TwoPass.GenTables` | 3rd/jpeg/jchuff.c:860-880 | one table for each slot in use, generated once from code lengths of least cost for its words: every slot has an acceptable table with a code for every word counted, unless code lengths of least cost for some slot exceed 32 |
| `TwoPass.FinishPassGather` | 3rd/jpeg/jchuff.c:845-880 | the tables generated from the counts of the statistics pass are acceptable, follow code lengths of least cost for the words of their slots, and the coding pass over the same segments never lacks a code, unless code lengths of least cost for some slot exceed 32 |
| `Statistics.CountAc` | 3rd/jpeg/jchuff.c:600-635 | the AC part of htest_one_block adds just the block's words to the counts |
| `Statistics.GatherEncoder.TestBlock` | 3rd/jpeg/jchuff.c:570-636 | counts the words of one block, DC and AC |
| `Statistics.GatherEncoder.EncodeMcuGather` | 3rd/jpeg/jchuff.c:643-673 | the counts are those of all words of the scan, divided into segments as the coding pass will divide them; fails just if a value is out of range |
| `McuReplay.SequentialAgain` | 3rd/jpeg/jdhuff.c:567-592 | the AC part of a block reads the same bits to the same values over a half-decoded block |
| `McuReplay.ItemAgain` | 3rd/jpeg/jdphuff.c:440-483 | so does every kind of block, DC refinement included |
| `McuReplay.McuStopped` | 3rd/jpeg/jdhuff.c:515-627 | suspension inside block k: the MCU as it stands decodes like the original MCU with any further bits |
| `McuDecoder.DecodeInto` | 3rd/jpeg/jdhuff.c:542-616 | one block in place: what the bit strings call for, or suspension that a retry will not notice |
| `McuDecoder.AtNextSegment` | 3rd/jpeg/jdhuff.c:466-498 | at the end of a segment the marker is the expected one, and passing it leads to the next segment |
| `McuDecoder.AtNextMcu` | 3rd/jpeg/jdhuff.c:515-627 | decoding the next MCU completes, gives what the encoder meant, and leads to the place after it |
| `McuDecoder.HuffDecoder.constructor` | 3rd/jpeg/jdhuff.c:84-138 | a decoder at the start of its input; if the input is a coded scan it stands at the scan's beginning |
| `McuDecoder.HuffDecoder.Restart` | 3rd/jpeg/jdhuff.c:466-498 | a due restart resumes in the next segment with predictions reset, waits, or is out of step |
| `McuDecoder.HuffDecoder.DecodeMcu` | 3rd/jpeg/jdhuff.c:515-627 | saves nothing unless the MCU is complete; standing in a coded scan, it completes the next MCU with the encoder's blocks and stands behind it |
| `McuDecoder.RetryDecodes` | 3rd/jpeg/jdhuff.c:515-627 | a half-decoded MCU decodes with more input as the original would |
| `MoreBits.ItemsMore` | 3rd/jpeg/jdhuff.c:515-627 | an MCU that is complete with the bits at hand is decoded in the same way when more bits follow, which it leaves |
| `McuDelivery.McuWithMore` | 3rd/jpeg/jdhuff.c:515-627 | a try with part of the input completes the MCU that a try with all of it completes, or leaves one that decodes to the same |
| `McuDelivery.TryStep` | 3rd/jpeg/jdhuff.c:515-627 | one call in a coded scan that arrives in pieces completes the next MCU as the encoder meant it, or more input is still to come and saved state and MCU are as good as before |
| `McuDelivery.Try` | 3rd/jpeg/jdcoefct.c:283-289 | the same for a call of the decoder object on the blocks of an MCU in place, restarts included |
| `McuDelivery.DecodeNext` | 3rd/jpeg/jdcoefct.c:283-289 | calling again with one more piece of input after every suspension completes the MCU |
| `McuDelivery.ConsumeScan` | 3rd/jpeg/jdcoefct.c:243-306 | however the bytes of a coded sequential or DC scan are cut into pieces, every MCU of the scan is completed as the encoder meant it |
| `ScanScript.BlockStep` | 3rd/jpeg/jdphuff.c:285-483 | an admissible scan finds in a block just the precision it relies on and leaves the precision that later scans rely on |
| `ScanScript.ScanStep` | 3rd/jpeg/jcmaster.c:168-254 | one scan of an accepted script is meant to take an image at the recorded precisions to the image at the updated ones |
| `ScanScript.PrecisionReached` | 3rd/jpeg/jcmaster.c:168-254 | what the scans of an accepted script are meant to achieve, block by block and without regard to bits: every coefficient under the point transform of its last Al, and each scan finds what it needs; the specification for ScanRun |
| `ScanScript.AcScanDecodes` | 3rd/jpeg/jcphuff.c:462-738 | the bits of a segment of an AC scan give every block listed its next value, whatever follows |
| `ScanScript.DcScanDecodes` | 3rd/jpeg/jcphuff.c:375-610 | so do the bits of a segment of a DC scan, for every interleaving of components and blocks |
| `ScanScript.ValidateProgressive` | 3rd/jpeg/jcmaster.c:168-254 | accepts just the scripts whose every scan is admissible after those before it |
| `ScanScript.ValidateSequential` | 3rd/jpeg/jcmaster.c:228-261 | accepts just the scripts that send every component once, in whole |
| `ScanScript.ValidateScript` | 3rd/jpeg/jcmaster.c:128-261 | accepts a script just if the declarative definition does, and tells which kind it is; a progressive one just if every scan fits the history of each coefficient that it sends and every component has its DC |
| `ScanScript.RunHistory` | 3rd/jpeg/jcmaster.c:205-243 | the table of last Al is the history of the scans, and the scans pass just if each has one to four components in ascending order, DC alone or a band of a single component whose DC has been sent, and sends every coefficient for the first time with Ah = 0, or with just the next bit |
| `ScanScript.AcceptedHistory` | 3rd/jpeg/jcmaster.c:168-254 | a progressive script is accepted just if its scans pass by that history and every component has its DC |
| `ScanScript.DeepestStart` | 3rd/jpeg/jcmaster.c:180-201 | a script may start at Al = 10 and no higher |
| `ScanScript.StartPass` | 3rd/jpeg/jdphuff.c:90-146 | the errors that the decoder's progression checks raise, and what they take not to warn; a scan of an accepted script raises no error and no warning, and the same precisions are recorded |
| `ScanScript.StartPasses` | 3rd/jpeg/jdphuff.c:90-146 | the checks before every scan of a whole accepted script, from the first to the last, raise no error and no warning, and coef_bits ends where the table of validate_script does |
| `ScanScript.FillAScan` | 3rd/jpeg/jcparam.c:473-487 | writes one scan and advances |
| `ScanScript.FillScans` | 3rd/jpeg/jcparam.c:488-506 | writes one scan for each component |
| `ScanScript.FillDcScans` | 3rd/jpeg/jcparam.c:507-528 | writes one interleaved DC scan, or one for each component if there are more than four |
| `ScanScript.JpegSimpleProgression` | 3rd/jpeg/jcparam.c:535-608 | fills exactly the space computed for it: for YCbCr the ten scans given field by field, otherwise the six groups given field by field; of two scans of a coefficient the later is finer, and the first AC scans of a component come in ascending order of their bands |
| `ScanScript.PlainLiteral` | 3rd/jpeg/jcparam.c:596-606 | the groups of the all-purpose script, scan by scan |
| `ScanScript.PlainGradual` | 3rd/jpeg/jcparam.c:596-606 | of two scans of a coefficient the later is finer, and first AC scans come in ascending order of their bands |
| `ScanScript.SimpleScripts` | 3rd/jpeg/jcparam.c:535-608 | both scripts of jpeg_simple_progression are accepted, for every number of components, and their scans are meant to achieve the original coefficients |
| `ScanRun.SegmentDecodes` | 3rd/jpeg/jcphuff.c:375-738 | a segment of any scan of an accepted script: if it could be sent, its bits, with any bits behind them, give just the blocks it lists their next values |
| `ScanRun.PlacedPartly` | 3rd/jpeg/jdcoefct.c:270-294 | storing the blocks of a segment where the interleaving says adds just these blocks to those decoded |
| `ScanRun.ScanReads` | 3rd/jpeg/jdphuff.c:285-632 | from the start of any restart segment, the bytes of a scan take the decoder to the image after the scan, for every division into segments and every interleaving that lists each block once, and it stops at the marker behind the scan |
| `ScanRun.WholeRun` | 3rd/jpeg/jdphuff.c:90-632 | reading the stuffed bytes of all scans of an accepted script one after the other, from cleared blocks, with each scan's own tables, interleaving, restart segments and headers in between, gives every coefficient under the point transform of its last Al, and uses up just the scans |
| `ScanRun.EveryPrefix` | 3rd/jpeg/jdphuff.c:90-632 | the same for a decoder that has read the first i scans of the file, for every i; the next scan is one that fits |
| `ScanRun.Exact` | 3rd/jpeg/jdphuff.c:90-632 | a coefficient whose last Al is 0 is received exactly |
| `ScanRun.SimpleProgression` | 3rd/jpeg/jcparam.c:535-608 | a decoder that reads the bytes of all scans of either script of jpeg_simple_progression has exactly the original coefficients, for every image |
| `Precision.ReachedNear` | 3rd/jpeg/jcphuff.c:386-420 | a DC value known down to bit p is the greatest multiple of 2^p that does not exceed the original, an AC value the multiple next to it toward zero |
| `Precision.ImageNear` | 3rd/jpeg/jcmaster.c:168-254 | so it is for every coefficient after the scans of a script, with p the Al of the last scan that sent it |
| `FileDecoding.AcPass` | 3rd/jpeg/jcphuff.c:616-738 | the bytes of the file at an AC scan are the coded scan that the decoder object expects, for any restart interval that divides its blocks so |
| `FileDecoding.DcPass` | 3rd/jpeg/jcphuff.c:375-610 | the same for a DC scan of interleaved MCUs |
| `FileDecoding.McusPicked` | 3rd/jpeg/jdcoefct.c:270-281 | the blocks of the MCUs of a scan that lists every block once are different arrays |
| `FileDecoding.ReadAcScan` | 3rd/jpeg/jdcoefct.c:243-306 | the decoder object, given the bytes of an AC scan in any pieces, takes the coefficient arrays from the image before the scan to the image after it, and leaves other components alone |
| `FileDecoding.ReadDcScan` | 3rd/jpeg/jdcoefct.c:243-306 | the same for a DC scan, MCU by MCU |
| `FileDecoding.ReadPass` | 3rd/jpeg/jdphuff.c:90-193 | the checks before a scan pass without a warning, and its data are read |
| `FileDecoding.DecodeFile` | 3rd/jpeg/jdcoefct.c:243-306 | for every accepted progressive script whose scans could be sent, however the bytes arrive: no error and no warning from the first scan to the last, and every coefficient in the arrays is the original to the next multiple of 2^Al of the last scan that sent it, below for DC and toward zero for AC, and 0 if none did |
| `FileDecoding.DecodeSimple` | 3rd/jpeg/jcparam.c:535-608 | with either script of jpeg_simple_progression the coefficient arrays end with the original coefficients, for every image |
| `OptimalTable.Smallest` | 3rd/jpeg/jchuff.c:731-751 | the least nonzero count apart from one symbol, the larger symbol in case of ties, or -1 only if every such count exceeds 10^9 |
| `OptimalTable.Deepen` | 3rd/jpeg/jchuff.c:761-775 | adds one to the code size of every symbol of a branch, follows the chain to its end, and changes no other |
| `OptimalTable.KraftMerge` | 3rd/jpeg/jchuff.c:757-775 | joining two complete codes one level down gives a complete code, and leaves all others as they are |
| `OptimalTable.ForestMerge` | 3rd/jpeg/jchuff.c:757-775 | one merge keeps the forest: disjoint chains that cover the used symbols, each the code sizes of a complete code, with the counts added up |
| `OptimalTable.HuffmanSizes` | 3rd/jpeg/jchuff.c:728-776 | the merging loop gives every used symbol a code size and no other, the Kraft sum of the sizes is exactly 1, and no code lengths of these symbols with Kraft sum at most 1, of whatever maximum, have a smaller sum of count times length |
| `HuffmanCost.LeastLongest` | 3rd/jpeg/jchuff.c:728-752 | the two symbols of least count can be given the two greatest lengths without more cost |
| `HuffmanCost.Shorten` | 3rd/jpeg/jchuff.c:728-752 | a single longest code can be shortened to the next longest: the other shares leave the room |
| `HuffmanCost.MergeCheaper` | 3rd/jpeg/jchuff.c:754-776 | for any code lengths there are lengths after merging two least counts that cost less by the two counts |
| `OptimalTable.ReducesMerge` | 3rd/jpeg/jchuff.c:754-776 | the merging step keeps the invariant that any lengths of the original symbols cost at least what the branches cost already and some lengths of the present roots cost |
| `OptimalTable.CountLengths` | 3rd/jpeg/jchuff.c:778-788 | bits[l] is the number of symbols of length l; fails just if a length exceeds 32 |
| `OptimalTable.LongestPairs` | 3rd/jpeg/jchuff.c:790-805 | in a complete code the codes of the greatest length come in pairs, and the search for a shorter length in use always succeeds |
| `OptimalTable.AdjustedComplete` | 3rd/jpeg/jchuff.c:807-810 | moving a pair up and splitting a shorter code keeps the Kraft sum and the number of codes |
| `OptimalTable.LimitLengths` | 3rd/jpeg/jchuff.c:801-812 | ends with a complete code of the same number of codes and no length above 16, by the adjustment of section K.2 as often as it applies; no counter wraps around |
| `OptimalTable.DropPseudo` | 3rd/jpeg/jchuff.c:814-817 | takes one code of the greatest length away, after which the all-ones code is free at every length |
| `OptimalTable.ListSymbols` | 3rd/jpeg/jchuff.c:822-834 | lists every symbol that has a code once, shortest codes first and in ascending order for one length |
| `OptimalTable.RoomyLegal` | 3rd/jpeg/jchuff.c:208-239 | such counts make a table that jpeg_make_c_derived_tbl accepts |
| `OptimalTable.GenOptimalTable` | 3rd/jpeg/jchuff.c:703-838 | unless a size exceeds 32, the table is accepted by the encoder's table builder (also as a DC table if only DC symbols were counted), lists exactly the symbols counted in order of their size and then of their value, and its counts of lengths are those of the sizes limited to 16, less one of the greatest; the sizes before limiting have Kraft sum exactly 1 and the least cost of all code lengths for the counts with the pseudo-symbol |
| `OptimalTable.ShorterFirst` | 3rd/jpeg/jchuff.c:822-834 | a symbol with a smaller size comes before one with a greater and gets no longer code |
| `OptimalTable.LengthsAreSizes` | 3rd/jpeg/jchuff.c:814-820 | when no size is above 16, bits[l] is the number of symbols of size l, less one for the greatest size |
| `OptimalTable.LengthsFit` | 3rd/jpeg/jchuff.c:822-834 | when no size is above 16, no symbol gets a code longer than its size |
| `OptimalTable.LimitedStep` | 3rd/jpeg/jchuff.c:801-812 | one adjustment leads to the same limited counts |
| `Geometry.AnnDist` | 3rd/ANN/ANN.cpp:43-61 | the sum of the squared coordinate differences, never negative |
| `Geometry.IsInside` | 3rd/ANN/ANN.cpp:154-160 | true just for points within the closed box |
| `Geometry.AnnBoxDistance` | 3rd/ANN/kd_util.cpp:124-146 | the squared distance of the nearest point of the box, and no point of the box is closer |
| `Geometry.DistOne` | 3rd/ANN/ANN.h:355-358 | on one coordinate the distance is the square of the difference |
| `Geometry.DistJoin` | 3rd/ANN/ANN.cpp:43-61 | the distance of points put together from two parts is the sum of the distances of the parts |
| `Geometry.DistMetric` | 3rd/ANN/ANN.cpp:43-61 | the distance is the sum of the squared differences, coordinate by coordinate |
| `Geometry.BoxNearest` | 3rd/ANN/kd_util.cpp:124-146 | the distance of a box is that of the point of the box whose coordinates are clamped to it, and no point of the box is closer |
| `Geometry.BoxBelow` | 3rd/ANN/kd_util.cpp:124-146 | no point of a box is closer to the query than the box |
| `Geometry.SideDist` | 3rd/ANN/kd_search.cpp:132-160 | replacing one side interval of a box changes just one term of its distance |
| `Geometry.Box2Bnds` | 3rd/ANN/kd_util.cpp:384-417 | one half-space for each side of the inner box that lies strictly inside the outer box, in an array of just that size |
| `Geometry.Bnds2Box` | 3rd/ANN/kd_util.cpp:426-439 | the box cut down by the half-spaces one after the other |
| `Geometry.BoundsRoundTrip` | 3rd/ANN/kd_util.cpp:384-439 | converting an inner box to bounds and back gives the inner box |
| `Geometry.BoundsTell` | 3rd/ANN/kd_util.cpp:384-417 | a point of the outer box is in the inner box just if it is outside of none of the half-spaces |
| `Geometry.OutBelow` | 3rd/ANN/bd_search.cpp:44-50 | the distance that a shrinking node adds up is at most the distance of its inner box |
| `Geometry.OutExact` | 3rd/ANN/bd_search.cpp:44-50 | for a query in the outer box it is exactly the distance of the inner box |
| `MinK.SortSorted` | 3rd/ANN/pr_queue_k.h:99-115 | the specification: a stable insertion sort is sorted and has just the items inserted |
| `MinK.TakeInsert` | 3rd/ANN/pr_queue_k.h:99-115 | forgetting all but the k smallest items before an insertion makes no difference to the k smallest afterwards |
| `MinK.Rank` | 3rd/ANN/pr_queue_k.h:90-97 | in a sorted list the i-th key is at most t just if more than i keys are |
| `MinK.ANNmin_k.constructor` | 3rd/ANN/pr_queue_k.h:77-82 | an empty set of capacity k |
| `MinK.ANNmin_k.Add` | 3rd/ANN/pr_queue_k.h:99-115 | the array is always the first k items of a stable sort of everything inserted |
| `PrQueue.LeastEntry` | 3rd/ANN/pr_queue.h:102-122 | the root of a heap has the least key |
| `PrQueue.ANNpr_queue.Insert` | 3rd/ANN/pr_queue.h:84-100 | keeps the heap and adds just the new entry |
| `PrQueue.ANNpr_queue.ExtrMin` | 3rd/ANN/pr_queue.h:102-122 | keeps the heap, removes just the entry returned, and its key is the least |
| `PointSplit.Partition` | 3rd/ANN/kd_util.cpp:302-308 | the exchange loop ends with the entries that satisfy a predicate first, permutes only the stretch, and its scans stay in bounds |
| `PointSplit.PlaneSplit` | 3rd/ANN/kd_util.cpp:291-319 | points below, on and above the plane, in this order, with the two breaks; only the stretch is permuted |
| `PointSplit.BoxSplit` | 3rd/ANN/kd_util.cpp:332-350 | just the points inside the box come first; only the stretch is permuted |
| `PointSplit.MinMax` | 3rd/ANN/kd_util.cpp:170-185 | the least and greatest coordinate of a stretch |
| `PointSplit.MaxSpread` | 3rd/ANN/kd_util.cpp:187-206 | a dimension along which no other spreads more |
| `PointSplit.EnclRect` | 3rd/ANN/kd_util.cpp:73-90 | the tight box of a stretch |
| `PointSplit.TightLeast` | 3rd/ANN/kd_util.cpp:73-90 | the tight box holds the points, and a box holds them just if it contains the tight box |
| `PointSplit.ExtentPermuted` | 3rd/ANN/kd_util.cpp:154-185 | the extents do not depend on the order of the points |
| `PointSplit.PivotDone` | 3rd/ANN/kd_util.cpp:251-256 | when the scans have passed each other, moving the pivot to k divides the stretch there |
| `PointSplit.Pivot` | 3rd/ANN/kd_util.cpp:241-256 | one pass of the selection: both unguarded scans stay within [l, r], and position k ends up between what is not larger and what is not smaller |
| `PointSplit.Select` | 3rd/ANN/kd_util.cpp:238-261 | Hoare's selection terminates with the wanted rank in place, permuting only the stretch |
| `PointSplit.MedianSplit` | 3rd/ANN/kd_util.cpp:230-275 | for 1 <= n_lo < n: points up to n_lo - 2 are at most point n_lo - 1, which is at most point n_lo, which is at most the rest; the cut is half way between these two; only the stretch is permuted |
| `KdSplit.MedianRule` | 3rd/ANN/kd_split.cpp:44-59 | half the points on either side of a cut inside the box, along a dimension of greatest spread, half way between the last of one side and the first of the other |
| `KdSplit.LongestSide` | 3rd/ANN/kd_split.cpp:158-176 | of the sides within a thousandth of the longest, one along which the points spread most |
| `KdSplit.SlidingMidpointRule` | 3rd/ANN/kd_split.cpp:146-213 | of the sides within a thousandth of the longest, that along which the points spread most is cut in the middle, or at the nearest point, which is alone on its side, if all points lie on one side; if the cut did not slide, no other sharing out of the points on it comes nearer to half |
| `KdSplit.SplitBy` | 3rd/ANN/kd_split.cpp:36-213 | the cut is that of the rule chosen |
| `CellRules.TightEncloses` | 3rd/ANN/kd_util.cpp:73-90 | the tight box of a stretch is the least box of its points: it holds them, and each of its sides is reached by one |
| `CellRules.EnclosingUnique` | 3rd/ANN/kd_util.cpp:73-90 | points have only one such box |
| `CellRules.PartsBetween` | 3rd/ANN/kd_split.cpp:189-213 | however the points on a cut are shared out, at least those below it and at most those not above it are on the lower side |
| `KdTree.BuiltHolds` | 3rd/ANN/kd_tree.cpp:314-358 | every point of a subtree lies in its cell |
| `KdTree.BuiltFrame` | 3rd/ANN/kd_tree.cpp:314-358 | a subtree depends only on its own stretch of the index array |
| `KdTree.GrownFrame` | 3rd/ANN/kd_tree.cpp:314-358 | whether a subtree follows the rules depends only on its own stretch of the index array |
| `KdTree.RkdTree` | 3rd/ANN/kd_tree.cpp:314-358 | terminates; restores the box; permutes only its stretch; the buckets are consecutive stretches of at most bsp points that partition it; every point lies in its cell and every cut in its box; every cell of more than bsp points is cut as the splitting rule chosen says |
| `BdTree.GapsOfPulled` | 3rd/ANN/bd_tree.cpp:201-215 | no gap of the inner box is large, unless the tight box has no extent: then all are |
| `BdTree.ShrinksAgain` | 3rd/ANN/bd_tree.cpp:160-220 | a simple shrink is followed by another just if all points coincide |
| `BdTree.FlatCoincide` | 3rd/ANN/bd_tree.cpp:190-199 | the tight box has no extent just if all points coincide |
| `BdTree.ShrinksTwo` | 3rd/ANN/bd_tree.cpp:196-220 | the count of large gaps reaches the threshold just if there are two different sides whose gaps are at least half of every side of the tight box |
| `BdTree.Decided` | 3rd/ANN/bd_tree.cpp:181-220 | the rule shrinks or leaves a cell by the least box of the points in it, and moves in just the sides with large gaps |
| `CoincidingPoints.CoincidingPointsShrinkForever` | 3rd/ANN/bd_tree.cpp:335-417 | for more coinciding points than a bucket holds the recursion goes to any depth k: each call is for the same stretch of the index array and n > bsp points, and from the first inner call on for the same cell |
| `CoincidingPoints.InnerCall` | 3rd/ANN/bd_tree.cpp:335-417 | one such call: selectDecomp shrinks, to the place of the points, and the box split puts all of them inside |
| `CoincidingPoints.CoincidingPointsSplit` | 3rd/ANN/bd_tree.cpp:335-417 | coordinates 0, 5, 5, 10 and buckets of one point: more points coincide than a bucket holds, and yet the tree is built, because the split separates them |
| `BdTree.TrySimpleShrink` | 3rd/ANN/bd_tree.cpp:181-220 | shrinks just if at least two gaps are half the longest tight side or more, to the cell with those sides moved in |
| `BdTree.SelectDecomp` | 3rd/ANN/bd_tree.cpp:279-315 | the choice for the rules ANN_BD_NONE and ANN_BD_SIMPLE |
| `BdTree.ShrunkIn` | 3rd/ANN/bd_tree.cpp:387-402 | after a simple shrink all points are inside, and the inner box would not be shrunk again |
| `BdTree.RbdTree` | 3rd/ANN/bd_tree.cpp:335-417 | terminates if no more than bsp points coincide; restores the box; permutes only its stretch; builds a tree with every point in its cell, in which a cell of more than bsp points is shrunk just if at least two gaps to the least box of its points are half of that box's longest side or more, to the cell with just these sides moved in, and otherwise cut as the splitting rule says; no shrink directly follows another, and the outer child of every shrink is the trivial leaf |
| `BdTree.RbdSplit` | 3rd/ANN/bd_tree.cpp:363-386 | the splitting half, for a cell that is not to be shrunk, with the guarantees of rbd_tree |
| `AnnTree.ANNtree.KdTree` | 3rd/ANN/kd_tree.cpp:368-405 | every point is in the tree exactly once, over the tight box of all points, with every cell cut as the splitting rule says; no points, no tree |
| `AnnTree.ANNtree.BdTree` | 3rd/ANN/bd_tree.cpp:116-156 | the same for bd-trees, with every cell shrunk or cut as the two rules say |
| `AnnTree.Skeleton` | 3rd/ANN/kd_tree.cpp:244-271 | the index array starts as the identity |
| `Neighbours.KthFalls` | 3rd/ANN/pr_queue_k.h:90-91 | the k-th smallest key never grows as points are inserted |
| `Neighbours.Inserted` | 3rd/ANN/kd_search.cpp:200-205 | inserting a point keeps the account of what has been visited |
| `Neighbours.PassedOver` | 3rd/ANN/kd_search.cpp:142-144 | so does passing over points that are too far by the error factor |
| `Neighbours.RankBelow` | 3rd/ANN/brute.cpp:54-78 | a search that inserts no point twice reports at each rank no less than brute force |
| `Neighbours.RankAbove` | 3rd/ANN/kd_search.cpp:89-118 | if every point left out is at least d over the error factor away, rank by rank the reported distance is at most the factor times that of brute force |
| `Neighbours.GoodAnswer` | 3rd/ANN/kd_search.cpp:89-118 | after a visit everywhere, the k-set holds distinct points with their true distances, sorted, each within the error factor of brute force at its rank |
| `Neighbours.FullAnswer` | 3rd/ANN/kd_search.cpp:113-116 | a nearest-neighbour search then has min(k, n) points |
| `Neighbours.RangeCount` | 3rd/ANN/kd_fix_rad_search.cpp:58-89 | the number of insertions lies between the number of points within the radius over (1 + eps) and the number within the radius |
| `Answers.NearestAnswer` | 3rd/ANN/kd_search.cpp:89-118 | after a visit everywhere the reply is distinct points with their squared distances in ascending order, and no point left out is closer by more than the error factor |
| `Answers.RadiusAnswer` | 3rd/ANN/kd_fix_rad_search.cpp:58-89 | after a visit everywhere the reply is the closest of some points within the radius, among which are all that are within it by the error factor |
| `SearchSteps.ChildDist` | 3rd/ANN/kd_search.cpp:132-160 | from the distance of a cell the update gives exactly that of the further child, and the nearer child is as far as the cell |
| `SearchSteps.InnerDist` | 3rd/ANN/bd_search.cpp:44-50 | adds up the half-spaces that the query is outside of |
| `SearchSteps.SubtreeFar` | 3rd/ANN/kd_search.cpp:132-160 | no point of a subtree is closer than its cell |
| `SearchSteps.PartialDist` | 3rd/ANN/kd_search.cpp:185-198 | gives the distance of a point, or stops just if it exceeds the bound |
| `SearchSteps.Extract` | 3rd/ANN/kd_search.cpp:113-116 | the distances and indices reported, padded with infinity and -1 |
| `BruteForce.BruteSearch` | 3rd/ANN/brute.cpp:54-78 | refuses just if k exceeds the number of points; otherwise k distinct points with the sums of their squared coordinate differences, in ascending order, and no point left out is closer; they are the first k of a stable sort |
| `BruteForce.BruteRange` | 3rd/ANN/brute.cpp:80-109 | the number of points within the radius, and the closest k of them, by a stable sort |
| `BruteForce.ExactSearch` | 3rd/ANN/brute.cpp:54-78 | without an error allowance a search reports the distances of brute force |
| `BruteForce.ExactRange` | 3rd/ANN/brute.cpp:80-109 | so does a search within a radius |
| `KdSearch.Searcher.SearchLeaf` | 3rd/ANN/kd_search.cpp:172-210 | every point of the bucket is inserted or does not matter; in order, just those within the bound at the time are inserted |
| `KdSearch.Searcher.SplitCells` | 3rd/ANN/kd_search.cpp:124-164 | the distances passed to the children of a splitting node are exact in a kd-tree, and lower bounds in a bd-tree |
| `KdSearch.Searcher.ShrinkCells` | 3rd/ANN/bd_search.cpp:39-61 | those passed to the children of a shrinking node are lower bounds |
| `KdSearch.Searcher.SearchSplit` | 3rd/ANN/kd_search.cpp:124-164 | deals with all points of the node: the child on the query's side first, and the other one just if it is not too far by then |
| `KdSearch.Searcher.SearchShrink` | 3rd/ANN/bd_search.cpp:39-61 | deals with all points of both children, the one with the smaller distance first |
| `KdSearch.Searcher.Search` | 3rd/ANN/kd_search.cpp:124-210 | after the search of a subtree each of its points has been inserted, once, or does not matter, and the insertions are those of the walk that takes near children first and leaves out cells that are too far |
| `KdSearch.AnnkSearch` | 3rd/ANN/kd_search.cpp:89-118 | refuses just if k exceeds the number of points; otherwise k distinct points with the sums of their squared coordinate differences, in ascending order, and no point left out is closer by more than the factor (1 + eps) squared; at each rank at most that factor times the distance of brute force and no less than it; with eps = 0 the distances of brute force |
| `KdSearch.AnnkFRSearch` | 3rd/ANN/kd_fix_rad_search.cpp:58-89 | the points counted are distinct and within the radius, and among them is every point within the radius even after multiplying its squared distance by (1 + eps) squared; the answer is the closest k of them, by a stable sort; with eps = 0 count and distances agree with brute force |
| `PriSearch.PendingSize` | 3rd/ANN/kd_pr_search.cpp:153-154 | every queued subtree has a point |
| `PriSearch.PriSearcher.Room` | 3rd/ANN/kd_pr_search.cpp:109-110 | visited points, queued subtrees and the subtree in hand share out the points, so the heap of capacity n_pts never overflows |
| `PriSearch.PriSearcher.Wait` | 3rd/ANN/kd_pr_search.cpp:153-154 | the other child is queued unless it is the trivial leaf |
| `PriSearch.PriSearcher.Dequeue` | 3rd/ANN/kd_pr_search.cpp:112-117 | the closest subtree leaves the queue; in a kd-tree its key is no less than the last one's |
| `PriSearch.PriSearcher.SearchSplit` | 3rd/ANN/kd_pr_search.cpp:139-173 | the points of the node are shared between the queue and the walk to a leaf |
| `PriSearch.PriSearcher.SearchShrink` | 3rd/ANN/bd_pr_search.cpp:39-62 | the same for a shrinking node |
| `PriSearch.PriSearcher.Search` | 3rd/ANN/kd_pr_search.cpp:139-219 | after the walk every point is visited or queued, exactly once |
| `PriSearch.PriSearcher.AllFar` | 3rd/ANN/kd_pr_search.cpp:119-121 | if the closest queued subtree is too far, no point of any queued subtree matters |
| `PriSearch.AnnkPriSearch` | 3rd/ANN/kd_pr_search.cpp:87-133 | the guarantee of annkSearch: distinct points with their squared distances in ascending order, and none left out is closer by more than (1 + eps) squared; asked for more neighbours than there are points, all of them and infinite distances after them |
| `TreeDump.DumpNode` | 3rd/ANN/kd_dump.cpp:139-173 | writes the tree in preorder, token by token: a leaf as its count and indices, a cut as its dimension, place and cell bounds before its lower and upper part, a shrinking node as its sides, with +1 or -1, before its inner and outer part |
| `TreeDump.Format` | 3rd/ANN/kd_dump.cpp:139-173 | the tokens of a tree in this format, node by node |
| `TreeDump.ReadTree` | 3rd/ANN/kd_dump.cpp:373-449 | reads what the functional reader reads, fills the index array in order and advances by as many indices |
| `TreeDump.ReadTokens` | 3rd/ANN/kd_dump.cpp:373-449 | reading the dump of a tree, followed by anything, gives the same tree and indices and stops behind it |
| `TreeDump.DumpWhatWasRead` | 3rd/ANN/kd_dump.cpp:139-173 | dumping a tree that was read gives back the tokens that were read |
| `TreeDump.Reload` | 3rd/ANN/kd_dump.cpp:320-343 | dump and load of a built tree give the identical tree and index array, use up the dump, and pass the loader's check that all points have been seen |
| `CompressContext.CreateContextBuffer` | 3rd/jpeg/jcprepct.c:265-305 | row pointers for five row groups on three, the outer ones wrapped around |
| `CompressContext.Extend` | 3rd/jpeg/jcprepct.c:208-229 | storing rows behind those in place overwrites none that is still needed |
| `CompressContext.Shift` | 3rd/jpeg/jcprepct.c:250-256 | advancing with wraparound keeps the last two row groups in place |
| `CompressContext.Prep.constructor` | 3rd/jpeg/jcprepct.c:76-97 | an empty buffer |
| `CompressContext.Prep.Fill` | 3rd/jpeg/jcprepct.c:207-229 | takes in rows, and repeats the first one above the image |
| `CompressContext.Prep.Pad` | 3rd/jpeg/jcprepct.c:230-242 | repeats the last row up to the stopping point |
| `CompressContext.Prep.Advance` | 3rd/jpeg/jcprepct.c:243-257 | the downsampler sees the next row group with its two neighbours |
| `CompressContext.Prep.PreProcessContext` | 3rd/jpeg/jcprepct.c:194-259 | for every height and every chunking, the k-th downsample call sees at place e exactly image row k * rg - rg + e, above the image its first row and below it its last; a call stops only for want of room or of rows |
| `DecompressContext.MakeFunnyPointers` | 3rd/jpeg/jdmainct.c:193-234 | two lists over M + 2 row groups, each without repetition, either of which shows at M and M + 1 the last two row groups of the other; above row 0 of the first list is row 0 |
| `DecompressContext.AroundPostponed` | 3rd/jpeg/jdmainct.c:236-262 | with the wraparound pointers the row groups on both sides of an iMCU boundary are adjacent in the list |
| `DecompressContext.Switch` | 3rd/jpeg/jdmainct.c:435-445 | switching lists keeps the last two row groups in view, and the next iMCU row does not overwrite them |
| `DecompressContext.BottomShows` | 3rd/jpeg/jdmainct.c:264-299 | the bottom pointers repeat the last real row for two row groups |
| `DecompressContext.SeenIsNearest` | 3rd/jpeg/jdmainct.c:405-426 | the row seen is the nearest image row in all cases just if there is only one iMCU row or the last one has all rows of a row group |
| `DecompressContext.FirstRowBelow` | 3rd/jpeg/jdmainct.c:405-426 | the rows above, the row group and the first row below it are always the nearest image rows |
| `DecompressContext.RightAround` | 3rd/jpeg/jdmainct.c:405-426 | what is right for a row group has its own rows in the middle, the row group above before and the next row after them, at the edges the first or the last row of the image |
| `DecompressContext.DummyRowSeen` | 3rd/jpeg/jdmainct.c:405-426 | with five rows, two to a row group and two row groups to an iMCU row, a dummy row is seen below the second row group |
| `DecompressContext.MainController.constructor` | 3rd/jpeg/jdmainct.c:305-336 | an empty workspace, before the first iMCU row |
| `DecompressContext.MainController.DecompressData` | 3rd/jpeg/jdmainct.c:391-398 | an iMCU row goes where the list in use says, and no other row of the list changes |
| `DecompressContext.MainController.SetWraparoundPointers` | 3rd/jpeg/jdmainct.c:236-262 | the pointers above and below are those of row groups M + 1 and 0 |
| `DecompressContext.MainController.SetBottomPointers` | 3rd/jpeg/jdmainct.c:264-299 | the last real row is repeated, and the row groups available are those with real rows |
| `DecompressContext.MainController.GroupsCover` | 3rd/jpeg/jdmainct.c:282-290 | the row groups passed on are as many as the image height needs |
| `DecompressContext.MainController.ProcessDataContextMain` | 3rd/jpeg/jdmainct.c:383-447 | whatever the postprocessor takes and whenever data arrive, the row groups are passed on in order, each once, with its own rows, the row group above and the first row below, at the edges the first or the last row of the image, none overwritten before use; progress is made when data are there and row groups are taken |
| `DecompressContext.DummyRowRun` | 3rd/jpeg/jdmainct.c:405-449 | the controller at work on these five rows: the postprocessor is shown the second row group with a dummy row below it, not with the last real row repeated |

## Left out

- Corrupt entropy-coded data: what zero bits supplied at the end of a segment decode to, the resynchronisation strategy of jpeg_resync_to_restart, and warnings; coefficients are unbounded integers, so the overflow of 16-bit coefficients on corrupt data is not modelled.
- The statistics mode of the progressive encoder (finish_pass_gather_phuff); that of the sequential encoder is modelled.
- Choosing the encoder routines for a scan and setting up its tables: the encoder classes are given the tables of their scan.
- The path of decode_mcu and decode_mcu_AC_first that reads MCUs of components the caller does not want.
- Marker headers and tables in the file (SOI, SOF, SOS, DHT, DQT, DRI, APPn), apart from restart markers.
- The DCT, quantisation, colour conversion, sampling, arithmetic coding and colour quantisation.
- Memory management, error and trace messages, stdio sources and destinations.
- GenOptimalTable: at least one and at most 254 symbols used (176 is the most the encoders can produce), so the 8-bit counts do not wrap; the total count is below 10^9, the bound of the search loop. With no symbol used, the source's final loop would run off the array.
- BitReader.FillBitBuffer: an unread marker and the insufficient-data flag are part of the state that a suspended try discards, where the source keeps them in the decompression object; they are found again by the retry.
- Floating-point rounding and overflow in ANN: coordinates and distances are exact reals.
- The splitting rules midpt_split, fair_split and sl_fair_split, and the centroid shrinking rule.
- ANNmaxPtsVisited (taken as 0), performance counters, statistics and printing; ANN_ALLOW_SELF_MATCH is true, as the library sets it.
- TreeDump.ReadTree: the header and the points section of a dump; sides other than +1 and -1, a null subtree, negative counts and unreadable values make the model fail, where the source goes on with what its stream leaves behind.
- BdTree.RbdTree: the converse of its termination condition is proved only for calls whose points all coincide; it is false in general, as CoincidingPoints.CoincidingPointsSplit shows, because a split may separate coinciding points.
- ScanRun.WholeRun: the dummy blocks that fill up interleaved MCUs at the right and bottom edges of an image are not part of the image; of what stands between two scans the decoder only checks that it is there.
- ScanRun.WholeRun: progressive files; of a sequential file each scan is decoded as McuDelivery.ConsumeScan says.
- The context-row buffers for several components at once: one component is modelled, and components do not affect one another; the row groups available are computed from the first component in the source.
- The simple main controller and the preprocessing without context rows, which only copy.
- CompressContext.Prep.PreProcessContext: colour conversion of a row is the identity.
