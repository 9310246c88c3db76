# AC controller firmware: QR encoder, infrared command path, pairing credentials

This project models three parts of the AC controller firmware in Dafny and proves what they are for.

**QR encoder** (`src/qrcodegen.c`). Every stage is kept in the form of the C code, as methods that update byte buffers in
place, and is proved against a mathematical description: field arithmetic, Reed-Solomon polynomials, blocks and interleaving,
the bit stream of segments, the zigzag placement on the bit-packed grid, the masks and their penalty score, and the choice of
version and level. The stages compose: `Encoder.EncodeText` and `Encoder.EncodeBinary` promise that a simple reader of the
symbol (`Reader.dfy`: format bits, unmasking, zigzag scan, de-interleaving, parsing) gets back exactly the text or the bytes,
that encoding fails only if no version in the range can hold them, and that version, level and automatic mask are the best ones.
`UpwardFit.dfy` settles when what fits a version fits a larger one: always for a single segment, and for lists of segments
exactly under a condition on two capacities, which fails for a handful of pairs of versions.
`ErrorTolerance.dfy` adds what the check bytes buy: at most one content is within half the check bytes of whatever a damaged
symbol shows.

**Infrared command path** (`src/zcl_callbacks.cpp`, `src/ir_protocol.cpp`, `src/ir_driver.cpp`). Attribute changes become AC
states, repeats are dropped, a state becomes a frame of 427 pulses, and the frame passes a one-slot mailbox to the thread that
transmits it. The mailbox is a step relation (`Mailbox.dfy`) over any number of producers and one consumer, with buffers copied
pulse by pulse, and its properties hold over all interleavings. `IrDriver.dfy` holds the same code as methods, and proves that
an uninterrupted run of the steps has the effect of the method. `CommandPath.dfy` joins the pieces: in every run of callbacks
and threads, what goes on air decodes to a state derived at a callback or to the off state of the shell command, and the last
transmission to the newest of them.

**Pairing credentials** (`src/hw_pairing.cpp`). Seeded FNV-1a hashes of the device ID.

## Files

| file | contents |
|---|---|
| `Bytes`, `VersionInfo`, `BlockGroups`, `Grid` | bit strings and byte buffers; version tables; the blocks of each version as a list; the bit-packed module grid |
| `GaloisField`, `ReedSolomon`, `MinimumDistance`, `Interleave`, `ErrorTolerance` | the field GF(2^8)/0x11D, the code over it, its distance, blocks |
| `FunctionModules`, `FunctionPatterns`, `CheckWords`, `Pictures`, `ModuleCount`, `Placement`, `Masking`, `Penalty`, `PenaltyRules`, `Symbols` | drawing, the format and version words, what the patterns look like, counting free modules, placing codewords, masks, score and its rules, the finished symbol |
| `Segments`, `DataStream`, `Selection`, `UpwardFit`, `Encoder`, `Reader` | text and byte segments, the bit stream and its parser, version and level, fitting larger versions, the public functions, the reader |
| `IrProtocol`, `Mailbox`, `IrDriver`, `ZclCallbacks`, `CommandPath` | frames, the mailbox protocol, the driver's code, attribute callbacks, all of them together |
| `HwPairing` | seeded hashes and the credentials made from them |

## Where code and documentation differ, or a promise fails

- `getMinFitVersion` (lines 1013-1027) does not look at a failed length computation, so for more than 4095 bytes the assertion
  at line 984 fails. `Encoder.GetMinFitVersion` says exactly when, and `Encoder.UncheckedLengthAccepted` shows that without
  the assertion the search would end at version 10 for 4096 to 65535 bytes, which no version holds, and find nothing above.
- The setpoint conversion `(uint8_t)(setpoint / 100)` followed by the clamp gives the setpoint in whole degrees, limited to
  16..30, only for some setpoints: `ZclCallbacks.TemperatureExactlyWhen` states for which, `ZclCallbacks.SetpointWraps` gives
  two for which it does not (-1 degree asks for 30, 256 degrees for 16). Both lie in the stored range of the attribute
  (`src/zap-generated/endpoint_config.h:52-53`). The device declares limits of 7 to 32 degrees
  (`src/ac_controller.matter:2732-2741`) and registers a callback of the Matter stack that may refuse values outside them
  (`endpoint_config.h:774`); within the limits the conversion is exact (`ZclCallbacks.ExactWithinLimits`).
- Fitting is not monotone in the version, because count fields widen after versions 9 and 26. `UpwardFit.UpwardExactlyWhen`
  gives the condition under which everything that fits a version fits a larger one, and `UpwardFit.ExactlyLost` the pairs of
  versions that fail it: only 8, 9 to 10..12 and 25, 26 to 27, 28. `UpwardFit.FitNotMonotone` is one list that is lost.
- A changed state can be sent as an unchanged frame: the frame of an AC that is off does not carry the mode
  (`ZclCallbacks.RepeatedFrame`; `ZclCallbacks.SameFrameTwice` is such a run).

## Model

| member | source | states |
|---|---|---|
| Bytes.AppendBitsToBuffer | src/qrcodegen.c:185-189 | The low-order bits of the value are OR-ed into the bit string of the buffer right behind its current end, most significant first, and no other bit changes. |
| Bytes.AppendToStream | src/qrcodegen.c:185-189 | On a buffer that holds a stream followed by zeros, appending a number extends the stream by its bits and leaves zeros behind it. |
| Bytes.PackBits | src/qrcodegen.c:188 | Bytes are recovered from their bit string, whatever 0..7 bits follow. |
| GaloisField.FiniteFieldMultiply | src/qrcodegen.c:398-406 | The Russian peasant loop computes the product of the field GF(2^8)/0x11D. |
| GaloisField.Commute | src/qrcodegen.c:398-406 | The product is commutative for all pairs of bytes. |
| GaloisField.Associate | src/qrcodegen.c:398-406 | The product is associative for all triples of bytes. |
| GaloisField.Distribute | src/qrcodegen.c:398-406 | The product distributes over XOR. |
| GaloisField.ExpInjective | src/qrcodegen.c:362-371 | The powers 2^0 .. 2^254 are pairwise different. |
| GaloisField.OrderOfTwo | src/qrcodegen.c:362-371 | None of 2^1 .. 2^254 is 1. |
| GaloisField.EveryNonzeroIsPower | src/qrcodegen.c:362 | 2 generates the field: every nonzero byte is one of its powers. |
| GaloisField.NoZeroDivisors | src/qrcodegen.c:398-406 | A product is zero only if a factor is. |
| GaloisField.Inverse | src/qrcodegen.c:398-406 | Every nonzero byte has an inverse, so the ring is a field. |
| ReedSolomon.CalcReedSolomonGenerator | src/qrcodegen.c:354-373 | For every degree 1..30 the in-place loops leave the product (x - 2^0)...(x - 2^(degree-1)) without its leading coefficient. |
| ReedSolomon.ProductRoots | src/qrcodegen.c:360-362 | That product vanishes at each of the powers. |
| ReedSolomon.ProductMonic | src/qrcodegen.c:360-361 | The dropped coefficient is 1. |
| ReedSolomon.EvalMul | src/qrcodegen.c:360-371 | Evaluation of a product of polynomials is the product of the evaluations. |
| ReedSolomon.CalcReedSolomonRemainder | src/qrcodegen.c:378-391 | The shift-and-xor loop leaves the remainder of the block, also when both lie in one buffer, and changes nothing else. |
| ReedSolomon.DivisionIdentity | src/qrcodegen.c:376-391 | The loop is polynomial division: data times x^degree is quotient times generator plus remainder. |
| ReedSolomon.CodewordRoots | src/qrcodegen.c:376-391 | Data followed by its remainder evaluates to 0 at 2^0 .. 2^(degree-1), for every block and degree. |
| ReedSolomon.RemainderLinear | src/qrcodegen.c:384-390 | The remainder of the XOR of two blocks is the XOR of their remainders. |
| MinimumDistance.Vandermonde | src/qrcodegen.c:360-362 | If a sum of n terms with distinct exponents vanishes at the first n powers of 2, all its coefficients are zero. |
| MinimumDistance.MinimumDistance | src/qrcodegen.c:376-391 | Different blocks of one length have codewords that differ in more than degree places. |
| MinimumDistance.UniqueDecoding | src/qrcodegen.c:376-391 | At most one block has its codeword within degree/2 places of any received word. |
| VersionInfo.EntryBounds | src/qrcodegen.c:97-116 | Every table entry gives 7..30 check bytes, at least one block, non-empty blocks that fit the code, and 9..2956 data codewords. |
| VersionInfo.RawBounds | src/qrcodegen.c:334-347 | 26..3706 codewords per version, and the grid buffer holds them. |
| VersionInfo.CapacityIs | src/qrcodegen.c:325-347 | The formulas and tables give the listed capacities for all 40 versions and 4 levels. |
| VersionInfo.CapacityGrows | src/qrcodegen.c:325-331 | A larger version always has more room. |
| VersionInfo.CapacityDecreases | src/qrcodegen.c:325-331 | A higher level never has more room. |
| VersionInfo.BlocksAddUp | src/qrcodegen.c:295-300 | Short blocks, long blocks and check bytes add up to the data and raw lengths. |
| VersionInfo.BufferHoldsSmaller | src/qrcodegen.h:135-139 | A buffer for a version is large enough for the data of every smaller version. |
| VersionInfo.SizesAre | src/qrcodegen.c:1029-1036 | Sides go from 21 to 177 in steps of four, -1 outside the versions, and the buffer length is the least that holds the modules. |
| VersionInfo.FieldWidths | src/qrcodegen.c:1000-1011 | The width of every count field in versions 1..9, 10..26 and 27..40. |
| BlockGroups.GroupsAre | src/qrcodegen.c:97-116 | For every version and level the numbers of shorter and longer blocks and their length are the listed ones, and with the listed capacities so is the error correction of a block. |
| BlockGroups.BlocksListed | src/qrcodegen.c:299-308 | The listed shorter blocks come first, and the blocks follow one another in the data. |
| Grid.GetSize | src/qrcodegen.c:740-746 | Returns the side length of the version that the grid has. |
| Grid.GetModule | src/qrcodegen.c:758-763 | Reads the module at the given place of the bit-packed grid. |
| Grid.RowByRow | src/qrcodegen.c:758-763 | The module is a bit of the raw bytes: row by row behind the size byte, least significant bit first. |
| Grid.SetModule | src/qrcodegen.c:767-777 | Sets the module at (x, y) and changes no other module, nor the size. |
| Grid.SetModuleBounded | src/qrcodegen.c:781-785 | The same inside the grid; outside, nothing changes. |
| Grid.GetModulePublic | src/qrcodegen.c:750-754 | The module inside the grid, white everywhere outside, and white everywhere in a failed symbol, whose size byte is 0. |
| FunctionModules.GetAlignmentPatternPositions | src/qrcodegen.c:546-556 | The list of positions in ascending order, by formula, each within a byte. |
| FunctionModules.AlignGap | src/qrcodegen.c:546-556 | The positions ascend, any two of a version at least 12 modules apart, so alignment patterns never touch. |
| Pictures.AlignListed | src/qrcodegen.c:546-556 | For every version the positions are those of a list, version 32 included. |
| FunctionModules.FillRectangle | src/qrcodegen.c:560-565 | Blackens the rectangle and nothing else. |
| FunctionModules.InitializeFunctionModules | src/qrcodegen.c:414-445 | Afterwards exactly the function modules are black: finders with format area, timing, alignment and version blocks. |
| Pictures.FunctionRoles | src/qrcodegen.c:414-445 | The function modules are exactly the finder patterns with separators, the timing patterns, the alignment patterns at the listed centres, the version blocks and the places of the format information. |
| FunctionPatterns.DrawWhiteFunctionModules | src/qrcodegen.c:451-506 | A module turns white exactly if the patterns make it white; all others keep their colour, alignment centres stay black. |
| FunctionPatterns.WhiteIsFunction | src/qrcodegen.c:448-450 | Only function modules are turned white. |
| Pictures.FinderDrawn | src/qrcodegen.c:459-471 | In every symbol the three finder patterns with their separators look like a picture given module by module. |
| Pictures.AlignmentDrawn | src/qrcodegen.c:473-485 | So do the alignment patterns, at all pairs of listed centres but three. |
| Pictures.TimingDrawn | src/qrcodegen.c:452-457 | Between the finder patterns, row and column 6 alternate, black at even places, across alignment patterns too. |
| Pictures.VersionDrawn | src/qrcodegen.c:496-504 | Each of the 18 bits of the listed version word is shown at its place in both blocks. |
| CheckWords.VersionWordIs | src/qrcodegen.c:487-494 | The twelve rounds of division give the listed word for each of the versions 7..40. |
| CheckWords.VersionDistance | src/qrcodegen.c:490-493 | The words of two versions differ in at least eight bits. |
| CheckWords.VersionNearest | src/qrcodegen.c:490-493 | With three damaged bits the version is still determined. |
| FunctionPatterns.DrawFormatBits | src/qrcodegen.c:512-539 | Both copies of the format word and the dark module are written, always at the same places, and nothing else. |
| FunctionPatterns.FormatIsFunction | src/qrcodegen.c:509-511 | Those places are function modules. |
| FunctionPatterns.FormatWordData | src/qrcodegen.c:515-521 | The word fits 15 bits and its top five, unmasked, are the level code and the mask. |
| Pictures.FormatDrawn | src/qrcodegen.c:523-538 | Each of the 15 bits of the listed format word is shown at its two places, and the one dark module is black, in every symbol. |
| CheckWords.FormatWordIs | src/qrcodegen.c:515-521 | The ten rounds of division and the final mask give the listed word for each of the 32 pairs of level and mask. |
| CheckWords.FormatDistance | src/qrcodegen.c:517-520 | Two different format words differ in at least seven bits. |
| CheckWords.FormatNearest | src/qrcodegen.c:517-520 | With three damaged bits level and mask are still determined. |
| ModuleCount.FreeCount | src/qrcodegen.c:337-347 | The closed formula counts exactly the modules that are not function modules, for every version. |
| Placement.ScanVisitsOnce | src/qrcodegen.c:577-594 | The zigzag visits every module outside column 6 exactly once. |
| Placement.ScanOrder | src/qrcodegen.c:577-588 | The place of every module in the scan: column pairs from the right, the first upwards and then in turns, right module before left, column 6 stepped over. |
| Placement.FreeCellsAre | src/qrcodegen.c:573-596 | The free modules met by the scan are all non-function modules, once each, as many as the formula says. |
| Placement.DrawCodewords | src/qrcodegen.c:573-596 | Every codeword bit is placed, in scan order; left-over modules stay white, function modules stay as they are. |
| Masking.ApplyMask | src/qrcodegen.c:604-627 | Each module is XORed with the mask pattern if and only if it is unmarked in the function map; which pattern that is, MaskPicture says. |
| Masking.MaskPicture | src/qrcodegen.c:612-621 | Each of the eight masks covers the plane with copies of one tile, given module by module: six by six, or six by four for mask 4. |
| Masking.Checkerboard | src/qrcodegen.c:613 | Mask 0 inverts the corner and alternates in both directions. |
| Masking.EverySecondRow | src/qrcodegen.c:614 | Mask 1 inverts row 0 and every second row. |
| Masking.EveryThirdColumn | src/qrcodegen.c:615 | Mask 2 inverts column 0 and every third column. |
| Masking.EveryThirdDiagonal | src/qrcodegen.c:616 | Mask 3 is constant along the diagonals and has period three across them. |
| Masking.CheckerboardOfTiles | src/qrcodegen.c:617 | Mask 4 is a checkerboard of tiles three wide and two high, the first inverted. |
| Masking.MaskTwice | src/qrcodegen.c:599-603 | The same mask a second time restores every module. |
| Penalty.RunsExpand | src/qrcodegen.c:636-661 | The run list used by the score expands back to the line and its runs are maximal. |
| Penalty.AddRunToHistory | src/qrcodegen.c:718-721 | The seven-place history holds the last runs, newest first. |
| Penalty.HasFinderLikePattern | src/qrcodegen.c:727-733 | True exactly if the run that has just ended completes a 1:1:3:1:1 pattern with four units of white on one side. |
| Penalty.ScoreLine | src/qrcodegen.c:637-661 | One row or column: L - 2 for each run of length at least 5 plus 40 for each finder-like window of the run list; byte counters do not overflow. |
| PenaltyRules.LineCost | src/qrcodegen.c:636-661 | The penalty of any line in terms of its modules: one for each five of one colour in a row, two more where such a stretch begins, and forty for each finder-like pattern. |
| PenaltyRules.SevenCost | src/qrcodegen.c:727-733 | Seven stretches, white at both ends, hold such a pattern exactly if the inner five are as 1:1:3:1:1 and one of the outer two is at least four units long. |
| PenaltyRules.RunsOfExpand | src/qrcodegen.c:637-661 | Every list of run lengths is the run list of the line it describes. |
| Penalty.CountBlocks | src/qrcodegen.c:690-698 | Three for each uniform 2x2 square, as the size of a set. |
| Penalty.CountBlack | src/qrcodegen.c:701-707 | The number of black modules, as the size of a set. |
| Penalty.BalanceIsLeast | src/qrcodegen.c:709-711 | The quotient is the least k with a black share between 45-5k and 55+5k percent. |
| Penalty.GetPenaltyScore | src/qrcodegen.c:632-713 | The whole function computes the declarative score of the picture in the buffer. |
| PenaltyRules.PlainScore | src/qrcodegen.c:632-713 | A picture of one colour with side n scores 2n(n-2) for its lines, 3(n-1)(n-1) for its squares and 90 for its balance. |
| Penalty.ScoreBound | src/qrcodegen.c:265 | Every score is below the initial minimum of the mask choice, also for a 32-bit long. |
| Symbols.DrawBase | src/qrcodegen.c:258-261 | The four drawing calls leave the unmasked symbol in one buffer and the map of function modules in the other. |
| Symbols.DrawMasked | src/qrcodegen.c:279-280 | One mask and its format bits on the unmasked symbol give the finished symbol. |
| Symbols.UnmaskedIsBase | src/qrcodegen.c:275 | Taking the mask off again leaves the unmasked symbol, whatever the format modules show. |
| Symbols.ChooseMask | src/qrcodegen.c:264-277 | The lowest-numbered mask whose penalty, measured with its own format bits, is minimal; the symbol is left unmasked. |
| Segments.IsNumericText | src/qrcodegen.c:809-816 | True exactly if all characters are digits. |
| Segments.IsAlphanumericText | src/qrcodegen.c:798-805 | True exactly if all characters are in the 45-character set. |
| Segments.AlphanumericByCode | src/qrcodegen.c:928-930 | By character code: exactly the digits, the capital letters and nine signs are in the set, with the values 0..9, 10..35 and 36..44 that are packed. |
| Segments.NumericByCode | src/qrcodegen.c:894-896 | Exactly the ten digits are numeric, and each is packed as its own value. |
| Segments.GroupRoundTrip | src/qrcodegen.c:895-905 | A group of characters is recovered from its base-10 or base-45 number. |
| Segments.GroupFits | src/qrcodegen.c:185-186 | The number of a group fits its bit field, so the precondition of the append holds. |
| Segments.PayloadRoundTrip | src/qrcodegen.c:879-943 | For all valid texts of the three modes, the payload bits are read back as the text, whatever follows them. |
| Segments.PayloadLength | src/qrcodegen.c:829-860 | The number of payload bits is what calcSegmentBitLength announces. |
| Segments.BitLengthExactly | src/qrcodegen.c:837-860 | For every mode the longest length that is accepted, and the bits of each accepted length as the least number that suffices. |
| Segments.MakeNumeric | src/qrcodegen.c:879-910 | The buffer holds the digits, three to a number in ten bits, the last one or two in four or seven, and the segment describes them. |
| Segments.MakeAlphanumeric | src/qrcodegen.c:914-943 | The buffer holds each pair of characters as 45 times the first value plus the second in eleven bits, a last single one in six, with the values given by character code. |
| Segments.NumericGroups | src/qrcodegen.c:891-905 | The payload bits of any decimal text are that stream of numbers. |
| Segments.AlphanumericGroups | src/qrcodegen.c:925-939 | The payload bits of any alphanumeric text are that stream of pairs. |
| DataStream.GetTotalBits | src/qrcodegen.c:977-995 | -1 exactly if a count overflows its field or the sum exceeds 32767; otherwise the sum. |
| DataStream.StreamLength | src/qrcodegen.c:240 | The stream that is written is as long as the sum. |
| DataStream.WriteSegments | src/qrcodegen.c:231-240 | The buffer holds mode, count and payload of all segments in order, with zeros behind. |
| DataStream.Indicators | src/qrcodegen.h:89-95 | The four bits of each mode. |
| DataStream.PadStream | src/qrcodegen.c:242-254 | Up to four zeros, zeros to a byte boundary, then 0xEC and 0x11 in turn, up to the capacity exactly. |
| DataStream.TailExactly | src/qrcodegen.c:242-254 | Between stream and pad bytes lies the least number of zeros that is at least four, or all that are left, and ends at a byte boundary. |
| DataStream.PadPattern | src/qrcodegen.c:251-254 | The pad bytes repeat one pattern of sixteen bits. |
| DataStream.ParseStream | src/qrcodegen.c:230-240 | Parsing the stream of consistent segments, with any proper tail, gives exactly those segments. |
| DataStream.DataBitsRoundTrip | src/qrcodegen.c:230-254 | Parsing all data bits, padding included, gives exactly the segments. |
| Selection.FindVersion | src/qrcodegen.c:210-222 | Succeeds exactly if some version of the range fits, and returns the least. |
| Selection.BoostLevel | src/qrcodegen.c:224-228 | The greatest level that still fits, never below the request; unchanged without boosting. |
| Selection.FitsBelow | src/qrcodegen.c:224-228 | What fits at a level fits at every lower one. |
| UpwardFit.FitCarries | src/qrcodegen.c:977-1011 | Whatever list of segments fits a version fits a larger one that has room for every header of a full version to widen. |
| UpwardFit.SameClassCarries | src/qrcodegen.c:1000-1011 | Between versions with equal count fields there always is. |
| UpwardFit.UpwardExactlyWhen | src/qrcodegen.c:977-1011 | The condition is exact for every pair of versions and level, over all lists of segments as well as over the well-formed ones. |
| UpwardFit.ExactlyLost | src/qrcodegen.c:97-116 | By the tables, it fails only for a few pairs just past versions 9 and 26, which are listed by level. |
| UpwardFit.FitLost | src/qrcodegen.c:977-1011 | For each of those pairs, a list of well-formed segments that fits the smaller version and not the larger. |
| UpwardFit.FitNotMonotone | src/qrcodegen.c:1000-1011 | One such list for versions 9 and 10. |
| UpwardFit.LargestDecides | src/qrcodegen.c:210-221 | In a range without such a pair, encoding succeeds exactly if the largest version fits. |
| UpwardFit.SingleCarries | src/qrcodegen.c:977-1011 | A single segment that fits a version fits every larger one. |
| Interleave.SlotOfPos | src/qrcodegen.c:311-317 | Each data and check byte has a place inside the result from which block and index are recovered. |
| Interleave.PosOfSlot | src/qrcodegen.c:311-317 | Each place of the result belongs to a byte; together with SlotOfPos a bijection. |
| Interleave.InterleavedOrder | src/qrcodegen.c:311-317 | The order of the places: data before check bytes, lower index first, then lower block; with the bijection this fixes every place. |
| Interleave.AddEccAndInterleave | src/qrcodegen.c:292-320 | The result is the interleaving of all blocks with their check bytes; the message in front of the scratch area is kept. |
| Interleave.CollectedBlock | src/qrcodegen.c:307-319 | Collecting a block from the result gives its data and its check bytes, together a codeword. |
| Interleave.DeinterleaveInterleaved | src/qrcodegen.c:288-291 | De-interleaving returns the data, for short and long blocks. |
| ErrorTolerance.SymbolSyndromes | src/qrcodegen.c:292-320 | In every symbol all syndromes of all blocks are zero. |
| ErrorTolerance.UndamagedWithinReach | src/qrcodegen.c:292-320 | An undamaged symbol is within reach of its content. |
| ErrorTolerance.DamagedSymbol | src/qrcodegen.c:292-320 | Whatever a damaged symbol shows, at most one content differs from it in no more than half the check bytes of each block. |
| Reader.FormatRoundTrip | src/qrcodegen.c:512-539 | Level and mask are read back from the format bits of the symbol. |
| Reader.ScanRoundTrip | src/qrcodegen.c:573-627 | Unmasking and rescanning returns the codeword bits, then only white. |
| Reader.DataRoundTrip | src/qrcodegen.c:257-280 | The data codewords are read back from the finished symbol, for every version, level and mask. |
| Reader.VersionRoundTrip | src/qrcodegen.c:416-418 | The version is read back from the size. |
| Encoder.SegmentsRoundTrip | src/qrcodegen.c:204-282 | A reader gets back exactly the segments from every symbol that shows them. |
| Encoder.ReadableRoundTrip | src/qrcodegen.c:204-282 | The same for segments whose counts and lengths agree as documented, whatever version they were fitted to. |
| Encoder.WriteData | src/qrcodegen.c:230-254 | The data codewords in the buffer are the padded bit string of the segments. |
| Encoder.DrawSegments | src/qrcodegen.c:230-261 | Bit string, error correction and drawing: the unmasked symbol of the segments. |
| Encoder.EncodeSegmentsAdvanced | src/qrcodegen.c:204-282 | Fails exactly if no version fits; else least version, final level, requested or best mask, the symbol of the segments, and a reader gets the segments back if their counts agree with their lengths. |
| Encoder.EncodeSegments | src/qrcodegen.c:196-200 | The same over all versions with boosting and automatic mask. |
| Encoder.TooLongForBuffer | src/qrcodegen.c:139-148 | What the early size checks reject fits no version of the range. |
| Encoder.HardLimits | src/qrcodegen.h:161-164 | Exactly the lengths up to 7089 digits, 4296 alphanumeric characters or 2953 bytes fit some symbol. |
| Encoder.LengthFitsUpward | src/qrcodegen.c:977-1011 | A length that fits a version in some mode fits every larger version. |
| Encoder.LargestDecidesText | src/qrcodegen.c:129-163 | A text fits some version of a range exactly if it fits the largest. |
| Encoder.MakeTextSegment | src/qrcodegen.c:137-157 | Packs the text in a mode that can spell it and needs no more bits than any other such mode; gives up only on texts that fit no version of the range in any mode. |
| Encoder.ChosenIsShortest | src/qrcodegen.c:138-156 | The mode that the tests choose is the shortest of those that can spell the text. |
| Encoder.TextFitsChosen | src/qrcodegen.c:138-156 | In every version and level a text fits in the chosen mode exactly if it fits in any. |
| Encoder.TextRoundTrip | src/qrcodegen.c:129-163 | The symbol of a text's segments is read back as that text. |
| Encoder.EncodeText | src/qrcodegen.c:129-163 | For every text: succeeds exactly if in some version of the range some mode that can spell the text holds it; then the symbol is that of a shortest such segment, a reader recovers the text, version and level are the least and the final one for the text in any mode, and the mask is the requested or the best one. |
| Encoder.MakeBytes | src/qrcodegen.c:864-875 | A segment with a copy of the bytes. |
| Encoder.EncodeBinary | src/qrcodegen.c:167-180 | For all bytes, lying in the temporary buffer itself: succeeds exactly if some version of the range holds them; then a reader recovers them, with least version, final level, and the requested or best mask. |
| Encoder.BinaryRoundTrip | src/qrcodegen.c:167-180 | The symbol of a byte segment is read back as those bytes. |
| Encoder.GetMinFitVersion | src/qrcodegen.c:1013-1027 | The least version that holds the bytes, -1 exactly if none does; an assertion failure exactly above 4095 bytes. |
| Encoder.MinFitAgrees | src/qrcodegen.c:1013-1036 | The least fitting version is -1 exactly if encoding over all versions fails, and otherwise the version used, whose side length is the announced one. |
| Encoder.EncodeAtMinFit | src/qrcodegen.c:167-180 | Calling both functions on one input: up to 4095 bytes encodeBinary over versions 1..40 succeeds exactly if getMinFitVersion returns a version, and the size byte is that of the version. |
| Encoder.UncheckedLengthAccepted | src/qrcodegen.c:1017-1024 | Without the assertion, version 10 is the first that the loop accepts for 4096..65535 bytes, none is accepted above, and none of these lengths fits any version. |
| IrProtocol.EncodeRaw | src/ir_protocol.cpp:28-67 | The array holds the 25-byte payload of the state, with the bytes by which the protocol is known in their places. |
| IrProtocol.RawIsProtocol | src/ir_protocol.cpp:28-67 | For every state, bytes 0..4, 15..18 and 21..24 are those of the protocol, and 6..10, 13, 14, 19 and 20 are zero. |
| IrProtocol.EncodeCommand | src/ir_protocol.cpp:71-86 | The array holds the preamble and every payload byte followed by its complement. |
| IrProtocol.AcEncodePulses | src/ir_protocol.cpp:88-120 | Exactly 427 pulses are written, the frame of the state, and the rest of the buffer is kept; a receiver with its own numbers for pulses and protocol bytes accepts them and decodes the state. |
| IrProtocol.FrameRoundTrip | src/ir_protocol.cpp:71-120 | For every payload a reader that takes bits least significant first accepts the frame and returns the payload. |
| IrProtocol.SingleErrorDetected | src/ir_protocol.cpp:71-86 | No frame with one changed pulse is accepted. |
| IrProtocol.StateRoundTrip | src/ir_protocol.cpp:28-120 | A receiver that refuses every frame with other timings, preamble, protocol bytes or flags accepts the frame of every state and decodes power, fan, six bits of temperature and, when on, the mode. |
| IrProtocol.SameFrame | src/ir_protocol.cpp:28-67 | Two states have one frame exactly if they agree on power, fan, temperature modulo 64 and, when on, mode. |
| IrProtocol.ConstantDuration | src/ir_protocol.cpp:17-25 | Marks and spaces of every frame take 585626 microseconds in all. |
| Mailbox.InitialInv | src/ir_driver.cpp:50-55 | The invariant holds at start. |
| Mailbox.StepInv | src/ir_driver.cpp:50-77 | Every step of every thread keeps mutual exclusion, whole commands, the record of transmissions and no lost wakeup. |
| Mailbox.RunDispatched | src/ir_driver.cpp:71-77 | The recorded commands are those of the dispatch calls, in the order of the mutex. |
| Mailbox.Safety | src/ir_driver.cpp:50-77 | In every run: each transmission is one complete dispatched command, never after a later one; one to ten attempts per copy, until the first acknowledgement; no lost wakeup. |
| Mailbox.NoDeadlock | src/ir_driver.cpp:57-77 | While a call is under way or the consumer is not asleep, some thread can go on. |
| Mailbox.NeverBlocked | src/ir_driver.cpp:57-66 | Once dispatches stop, the consumer can always take its next step until it sleeps. |
| Mailbox.BoundedRun | src/ir_driver.cpp:57-77 | Once no more calls start, each step of any thread uses up a bound, signals of calls under way included. |
| Mailbox.Delivery | src/ir_driver.cpp:50-77 | From any reachable state, once no more calls start, at most 907 steps follow and 887 for each call under way; some step is possible until all are at rest, and then the newest command has been transmitted last, until acknowledged or ten times. |
| IrDriver.Driver.DispatchCommand | src/ir_driver.cpp:71-77 | The mailbox holds the command and its count, and the semaphore is up. |
| IrDriver.Driver.SendCommand | src/ir_driver.cpp:153-165 | One to ten transmissions of the same pulses, stopping at the first acknowledgement; false exactly after ten failures. |
| IrDriver.Driver.DispatchRound | src/ir_driver.cpp:57-66 | One round takes the semaphore, copies the mailbox and sends the copy. |
| IrDriver.DispatchAlone | src/ir_driver.cpp:71-77 | The steps of a call that nothing interrupts have the effect of the method. |
| IrDriver.RoundAlone | src/ir_driver.cpp:57-66 | The steps of a round that nothing interrupts have the effect of the method. |
| ZclCallbacks.TemperatureExactlyWhen | src/zcl_callbacks.cpp:136-143 | The temperature is the setpoint in whole degrees limited to 16..30 exactly for the listed setpoints. |
| ZclCallbacks.ExactWithinLimits | src/ac_controller.matter:2732-2741 | Among them are all setpoints within the declared limits. |
| ZclCallbacks.SetpointWraps | src/zcl_callbacks.cpp:136-143 | Two setpoints for which it is not. |
| ZclCallbacks.TemperatureAsked | src/zcl_callbacks.cpp:136-143 | For every setpoint: cut toward zero to degrees, kept in a byte, limited to 16..30, each step stated as a relation. |
| ZclCallbacks.AskedInDegrees | src/zcl_callbacks.cpp:136-143 | For the setpoints that do not wrap: the t with 100t <= setpoint < 100t + 100 inside 16..30, the nearer limit outside. |
| ZclCallbacks.DerivedDescribes | src/zcl_callbacks.cpp:32-143 | Exactly one state describes the attributes, the derived one: on if On/Off is true; heating exactly for system mode 4, with the heating setpoint; ventilation exactly for 7, dehumidify exactly for 8, cooling for every other value and a failed read, with the cooling setpoint for 3 and a failed read; fan 1 for 0 and 1, 3 for 2, 5 for 3, automatic otherwise. |
| ZclCallbacks.DerivedAnnounces | src/zcl_callbacks.cpp:102-157 | What a receiver decodes from the frame says the same about the attributes; when off, heating whatever the mode. |
| ZclCallbacks.Reacts | src/zcl_callbacks.cpp:65-181 | What one event does, in terms of the attributes: the record then describes them, and a state is dispatched exactly at a relevant callback after start-up whose attributes the record did not describe. |
| ZclCallbacks.DerivedDecodes | src/zcl_callbacks.cpp:107-157 | Every derived temperature is in 16..30, and the frame of a derived state decodes to it (without a mode when off). |
| ZclCallbacks.RepeatedFrame | src/zcl_callbacks.cpp:145-157 | Two different derived states have one frame exactly if the unit is off in both, with equal temperature and fan. |
| ZclCallbacks.SameFrameTwice | src/zcl_callbacks.cpp:145-157 | A run in which two states are dispatched one after the other as one and the same frame. |
| ZclCallbacks.NothingBeforeReady | src/zcl_callbacks.cpp:102-105 | Before the start-up signal no callback changes or dispatches anything. |
| ZclCallbacks.RunDispatches | src/zcl_callbacks.cpp:65-181 | In every run with one start-up signal the dispatched states are the derived states at relevant callbacks without consecutive repeats, from the snapshot on. |
| ZclCallbacks.NoRepeats | src/zcl_callbacks.cpp:145-149 | Dropping repeats leaves no two equal neighbours and keeps the latest state. |
| ZclCallbacks.Tracks | src/zcl_callbacks.cpp:65-181 | The last state handed to the driver, or the snapshot if there is none, is the state derived at the last relevant callback. |
| ZclCallbacks.SentAreDerived | src/zcl_callbacks.cpp:102-161 | Every dispatched state is derived from the attributes at some relevant callback. |
| ZclCallbacks.Callbacks.MarkReady | src/zcl_callbacks.cpp:65-100 | Takes a snapshot that describes the attributes, opens the gate, dispatches nothing. |
| ZclCallbacks.Callbacks.SendIrIfChanged | src/zcl_callbacks.cpp:102-161 | If the gate is closed or the remembered state describes the attributes, nothing changes; otherwise the mailbox then holds a frame that a receiver reads as the attributes say, and the remembered state describes them. |
| ZclCallbacks.Callbacks.PostAttributeChange | src/zcl_callbacks.cpp:163-181 | The same for the three clusters of endpoint 1; any other change does nothing. |
| CommandPath.CommandState | src/shell_commands.cpp:29-39 | Every command in the mailbox is the frame of a state of the callbacks or of the off state of the shell command. |
| CommandPath.OnAirIsDerived | src/zcl_callbacks.cpp:102-161 | In every run, each transmission decodes to the off state or to a state derived at a relevant callback; a receiver reads it as off at 24 degrees, or as the attributes at that callback say. |
| CommandPath.NewestOnAir | src/ir_driver.cpp:50-77 | When no more calls start and all is at rest, the last transmission decodes to the state derived at the last relevant callback and says what the attributes there say, or the off state if a shell dispatched last. |
| HwPairing.Fnv1a32 | src/hw_pairing.cpp:33-41 | The loop computes the hash of the bytes under the seed. |
| HwPairing.KnownHashes | src/hw_pairing.cpp:30-41 | From the standard basis the hash takes its published values for the empty string, "a" and "foobar". |
| HwPairing.SeedBijection | src/hw_pairing.cpp:33-41 | For every byte string, hashing is a bijection from seeds to hashes, with an explicit inverse. |
| HwPairing.OneByteSeparates | src/hw_pairing.cpp:33-41 | Byte strings that differ in one place have different hashes under every seed. |
| HwPairing.KeysDiffer | src/hw_pairing.cpp:112-125 | The six hashes of one device are pairwise different. |
| HwPairing.DevicesDiffer | src/hw_pairing.cpp:104-125 | Device IDs that differ in one byte have different hashes of every kind. |
| HwPairing.SeedsAre | src/hw_pairing.cpp:112-124 | The six seeds are 0xD15C0001 to 0xD15C0006. |
| HwPairing.WordDigits | src/hw_pairing.cpp:108-110 | The bytes of a word are its digits to base 256, lowest first. |
| HwPairing.ForbiddenAre | src/hw_pairing.cpp:46-50 | The forbidden passcodes are the twelve of the list. |
| HwPairing.PasscodeExactlyWhen | src/hw_pairing.cpp:52-65 | Which hashes lead to a passcode: those of its residue, and those of the residue below if that one is forbidden; none lead to a forbidden one. |
| HwPairing.MakePasscode | src/hw_pairing.cpp:44-65 | The passcode is in 1..99999998 and not a forbidden one. |
| HwPairing.Provider.Init | src/hw_pairing.cpp:102-132 | Discriminator, passcode and the four salt words come from the hashes of the device bytes under the six seeds, each given by its number. |
| HwPairing.SaltWordsDiffer | src/hw_pairing.cpp:121-126 | The four words of the salt are pairwise different. |

## Left out

- Kanji and ECI payloads: no caller in the repository makes them; the reader parses their headers but `TextOf` reads byte, numeric and alphanumeric payloads only, and `makeEci` is not modelled.
- The reader does not correct errors; `ErrorTolerance.DamagedSymbol` says that correction within half the check bytes is unambiguous.
- Text is a string of characters below 256, and a character of code 0 is allowed, where C ends the string; a null segment array is an empty sequence.
- Assertions of the source are proved to hold under the documented requirements; only in `getMinFitVersion` is a failing one modelled.
- `long` and `int` are unbounded; `ScoreBound` and the bounds of `VersionInfo` show that the values stay small.
- `Encoder.EncodeSegmentsAdvanced`, `Encoder.EncodeText`, `Encoder.EncodeBinary`: version, level and mask are ghost results, because the C functions return only a boolean.
- Mailbox: one step is one call on a kernel object or one copied pulse; priorities, timing and the kernel's own code are not part of this model, and an acknowledgement is an arbitrary boolean.
- `ir_transmit`: the PWM registers and busy waits; a transmission is an entry in a trace.
- `shell_commands.cpp`: only the off command, as further producers of the mailbox in `CommandPath`; it does not touch the last sent state, so a following callback with unchanged attributes sends nothing.
- Attribute access: a read is a value or a failure that keeps the default; the Matter stack is not part of this model.
- Callback runs with several start-up signals: the methods and `Next` allow them, the lemmas on runs assume one, as in start-up.
- `hw_pairing.cpp`: SPAKE2+ verifier, getters and registration; little-endian memory is assumed for the device ID and the salt.
- `pdm_manager.cpp`, `scd40_manager.cpp`, `identify_led.cpp`, `app_task.cpp` and generated code: library wrappers, floating-point detection and start-up code that would add only easy members.
