# Verified models of Monero's algorithmic cores

This project models, in Dafny, the self-contained algorithms of the Monero code base and proves
what they promise. Code that works by updating variables, arrays and objects is modelled by methods
and classes, each proved against a specification; what the code promises is then proved about those
specifications. `dafny verify dfyconfig.toml` checks everything.

What is modelled, and the main results:

- **QR symbols** (`external/qrcodegen/QrCode.cpp`). Arithmetic in GF(2^8)/0x11D is shown to be a field
  generated by 2 (`gf256`, `field_order`). The Reed-Solomon divisor and remainder loops produce words
  that vanish at the required roots (section 7.5.2 of ISO/IEC 18004), such words are far apart, and a
  damaged block is determined (`reed_solomon`, `code_distance`). Splitting and interleaving, the zigzag
  scan, masking, format bits, segment packing and the choice of version and level are each inverted by a
  reader (`interleave`, `zigzag`, `symbol`, `segments`, `segment_encoder`). What the symbol looks like
  is also said without the definitions that draw it: the way from module to module (`scan_order`),
  pictures of the masks, check words as multiples of their generators and the places of their bits
  (`symbol_laws`, `pattern_laws`), and the bits of segments and padding (`segment_laws`). The modules
  that the function patterns leave free are counted, and the closed formula of the source is shown to be
  that count for all 40 versions (`function_modules`, `function_patterns`, `pattern_drawing`). The
  penalty score is bounded, its run history never trips the source's assertion, and the patterns it
  counts, and the whole score, are given by position (`penalty`, `finder_windows`, `penalty_positions`).
  The pieces are put together: every message that is not refused becomes a symbol that reads back as
  that message, has the first mask with the least penalty and all function patterns in their colours,
  and no internal assertion of the encoder fires (`qr_pipeline`).
- **Base58** (`src/common/base58.cpp`, `src/common/varint.h`). Encoding and decoding are inverse to
  each other on all byte strings and all accepted texts, wrapping 64-bit arithmetic included,
  encoding keeps order, and no block could do with fewer symbols (`base58`, `varint`, `positional`).
- **Ancestry** (`src/blockchain_utilities/blockchain_ancestry.cpp`). The forward, cached, resumable
  closure and the backward worklist both compute exactly the outputs that a transaction descends from,
  through ring members and the transactions that made them, and the counts of the walk are numbers of
  paths (`ancestry`, `ancestry_ways`, `ancestry_state`).
- **Chain store** (`src/blockchain_db/blockchain_db.cpp` over `src/blockchain_db/lmdb/db_lmdb.cpp`).
  After every run the tables are a function of the chain, no key image is spent twice, and it is said
  exactly when popping a block restores every table (`chain_tables`, `chain_blocks`, `chain_history`,
  `chain_rct`, `chain_undo`, `chain_store`).
- **Logging** (`external/easylogging++/easylogging++.cc`). Over every run the threshold and cache of
  the category filter agree with the last matching entry, the category text is read back exactly, and
  the in-place UTF-8 sanitiser is decode, clean, encode (`wildcard`, `category_list`, `log_filter`, `utf8`).
- **Kernels**. Cycle-following permutation (`permutation`), listing and counting of combinations
  (`combinator`), an aligned allocator (`aligned`), and the framed export file with its seek
  (`bootstrap`).

Where a promise does not hold of the code as it stands, the model keeps the code, a lemma gives an
input, and another lemma says exactly when the promise holds:

- `decode_addr` accepts an address whose tag is cut off in the middle, because `read_varint` returns
  what it has at the end of its input (`Base58.CutOffTagAccepted`, `Base58.AddressCanonical`).
- Removing a transaction restores the tables exactly when the test that chose where its outputs are
  stored (an input of the coinbase type, version 2) agrees with the one that looks for them (exactly
  one input, of the coinbase type, version 2 or more), or all its amounts are 0
  (`ChainTables.VersionThreeCoinbase`, `ChainTables.UndoneExactly`). Popping a block restores them
  exactly when the places in which its outputs are looked for are, taken together, those in which they
  were stored (`ChainBlocks.TwoWrongs`, `ChainUndo.PopUndoesAddExactly`).
- The running count of outputs in a block record is meant to be that of the outputs stored under amount
  0. What a block adds to it is right exactly when the tests that store and that count its outputs
  agree (`ChainRct.OutputNotCounted`, `ChainRct.BlockCountExactly`).
- `combinations_count` is right exactly when its largest product, m * C(n, m) for
  m = min(k, (n + 1) / 2), fits in 64 bits (`Combinator.WrongCount`, `Combinator.CountExactly`).
- The comment on `count_blocks` promises a position at most as high as the height sought; it is higher
  exactly when the file begins above that height (`Bootstrap.NotedTooHigh`, `Bootstrap.NotedAbove`). The
  importer then skips at least one chunk, and it returns early for the last height of a file, so it
  starts at the height it wants exactly when that is neither the first nor the last of the file
  (`Bootstrap.FirstHeightMissed`, `Bootstrap.LastHeightRefused`, `Bootstrap.ImportStartsAt`).
- A last chunk that is cut off is counted as a block, and an export writes chunks that no reader
  accepts with a warning only. A resumed export leaves the file of one export exactly when the cut was
  at a chunk boundary and no such chunk comes before it (`Bootstrap.ResumedAfterCut`,
  `Bootstrap.EmptyChunkWritten`, `Bootstrap.ResumeExactly`, `Bootstrap.CountsExactly`).
- A log category without a level, or a level without a category, becomes part of the next entry
  (`CategoryList.TwoReadAsOne`, `CategoryList.JoinExactly`), and `clearCategories` keeps the text that
  described the entries, which is right exactly when there were none
  (`LogFilter.VRegistry.ClearLosesEntry`, `LogFilter.VRegistry.ClearCategories`).
- `utf8canonical` does not check the high bits of continuation bytes, so it accepts texts that are not
  UTF-8 (`Utf8.LooseContinuation`); an accepted text is UTF-8 exactly when it is in shortest form and
  holds no surrogate (`Utf8.WellFormedExactly`). It keeps surrogates, so its output is UTF-8 exactly
  when the input holds none (`Utf8.SurrogateKept`, `Utf8.SanitizedIsUtf8Exactly`).
- `aligned_realloc` tests the old size where the new one matters. The block it asks for has room for
  the payload exactly when the sum of new size, header and alignment does not wrap
  (`Aligned.GrownTooFar`, `Aligned.AskedExactly`, `Aligned.Heap.AlignedRealloc`).
- The search of the ancestry tool compares keys only, and can name the wrong one of two transactions
  of a block that pay to one key (`Ancestry.SharedKey`). It names the maker exactly when that is the
  first payer of the key in block order and nothing unreadable comes before it
  (`Ancestry.LocateIsMaker`).
- The zigzag scan covers all modules outside column 6 for odd sizes from 7 on, and for no smaller one
  (`Zigzag.ScanVisits`).
- The comment in `decode_block` that `order` never overflows is not quite right: the multiplication
  after the last symbol of a full block wraps, and its result is not used (`Base58.OrderStep`).

Conventions: an exception or a false return is `None` or a failure value. A method that the source
aborts in the middle is specified on success, and on failure where the source restores the state.
Bytes are numbers below 256, and 32-bit and 64-bit wrap-around is written out where it can occur.

## Model

| member | source | states |
|---|---|---|
| GF256.MulCommutative | external/qrcodegen/QrCode.cpp:772-782 | the shift-and-reduce product of bytes is commutative |
| GF256.MulAssociative | external/qrcodegen/QrCode.cpp:772-782 | the product is associative, for all bytes |
| GF256.MulDistributive | external/qrcodegen/QrCode.cpp:772-782 | the product distributes over exclusive or |
| GF256.MulOne | external/qrcodegen/QrCode.cpp:772-782 | 1 is the unit of the product |
| GF256.Generates | external/qrcodegen/QrCode.cpp:772-782 | two maps of bytes that respect exclusive or and multiplication by 2 are equal once they agree at 1; the field laws rest on it |
| FieldOrder.PowersDistinct | external/qrcodegen/QrCode.cpp:742-745 | 2 is a generator: its powers 0 to 254 are all different |
| FieldOrder.Log | external/qrcodegen/QrCode.cpp:742-745 | every non-zero byte is a power of 2 |
| FieldOrder.NoZeroDivisors | external/qrcodegen/QrCode.cpp:772-782 | a product of bytes is 0 only when a factor is |
| FieldOrder.FieldPolynomial | external/qrcodegen/QrCode.cpp:772-782 | x to the eighth is x^4 + x^3 + x^2 + 1 |
| ReedSolomon.ReedSolomonMultiply | external/qrcodegen/QrCode.cpp:772-782 | the loop returns the field product of its arguments, so its assertion never fires |
| ReedSolomon.GeneratorRoots | external/qrcodegen/QrCode.cpp:734-756 | the divisor polynomial with its leading 1 vanishes at 2^0, ..., 2^(degree - 1) |
| ReedSolomon.EvalGenerator | external/qrcodegen/QrCode.cpp:734-756 | at every point the divisor polynomial is the product of the factors x - 2^i |
| ReedSolomon.MultiplyByLinear | external/qrcodegen/QrCode.cpp:747-752 | the in-place inner loop multiplies the stored polynomial by one linear factor |
| ReedSolomon.ReedSolomonComputeDivisor | external/qrcodegen/QrCode.cpp:734-756 | for every degree from 1 to 255 the loops leave the product of the linear factors without its leading 1, and other degrees are errors |
| ReedSolomon.RemainderAtRoot | external/qrcodegen/QrCode.cpp:759-769 | at every root of the divisor the remainder takes the value of the shifted data |
| ReedSolomon.ReedSolomonComputeRemainder | external/qrcodegen/QrCode.cpp:759-769 | the in-place division loop computes the remainder, for all data and divisors |
| ReedSolomon.CodewordRoots | external/qrcodegen/QrCode.cpp:734-769 | data followed by the computed remainder vanishes at 2^0, ..., 2^(n - 1) |
| CodeDistance.CodewordsFarApart | external/qrcodegen/QrCode.cpp:529-565 | two different words of at most 255 bytes that vanish at the n roots differ in more than n places |
| CodeDistance.UniqueDecoding | external/qrcodegen/QrCode.cpp:529-565 | a received word within n / 2 byte errors of a codeword is so close to no other codeword |
| CodeDistance.CodewordIsSystematic | external/qrcodegen/QrCode.cpp:759-769 | a word vanishes at the n roots if and only if its last n bytes are the remainder computed for the others |
| Interleave.AddEccAndInterleave | external/qrcodegen/QrCode.cpp:529-565 | for all block counts and lengths, data of the right length is turned into exactly rawCodewords bytes that carry every block and its error correction bytes; other lengths are errors |
| Interleave.SplitBlocks | external/qrcodegen/QrCode.cpp:540-551 | the first loop makes block j from its own stretch of the data, a padding byte in short blocks, and the remainder |
| Interleave.InterleaveBlocks | external/qrcodegen/QrCode.cpp:553-561 | the second loop puts row i of block j at its own place and leaves the padding out |
| Interleave.CarriesBlock | external/qrcodegen/QrCode.cpp:529-565 | reading the places of block j back gives the block and its error correction bytes |
| Interleave.CarriesAll | external/qrcodegen/QrCode.cpp:529-565 | reading all blocks back one after the other gives the data |
| Interleave.PositionOnto | external/qrcodegen/QrCode.cpp:553-561 | every place of the result belongs to a row and block, so nothing else is emitted |
| Interleave.CarriesUnique | external/qrcodegen/QrCode.cpp:529-565 | a data sequence has exactly one interleaving |
| PatternLaws.BlocksBalanced | external/qrcodegen/QrCode.cpp:533-547 | short blocks come first, and no two blocks differ by more than one data codeword |
| PatternLaws.RowByRow | external/qrcodegen/QrCode.cpp:553-561 | codewords are taken row by row, and in a row block by block |
| Zigzag.ScanVisits | external/qrcodegen/QrCode.cpp:574-590 | for every odd size the scan meets no module twice and none of column 6, and it meets all others if and only if the size is at least 7 |
| Zigzag.ScanMembers | external/qrcodegen/QrCode.cpp:574-590 | a scan from a given column meets exactly the modules of the columns it passes over |
| ScanOrder.ScanBegins | external/qrcodegen/QrCode.cpp:574-590 | the scan starts in the bottom right corner and has as many modules as the symbol without column 6 |
| ScanOrder.ScanNeighbours | external/qrcodegen/QrCode.cpp:574-590 | for sizes that are 1 modulo 4, as all symbol sizes are: the scan takes the right module of a row of two columns and then the left one, goes up in the first pair of columns, down in the second, and so on in turn, and at the end of a pair moves left in the same row, across column 6 where that comes next |
| Symbol.QrCode.DrawCodewords | external/qrcodegen/QrCode.cpp:568-593 | the loops write bit k of the codewords to the k-th free module of the scan, whose order ScanOrder gives, and nothing else, and succeed if and only if there are enough free modules |
| Symbol.QrCode.DrawColumnPair | external/qrcodegen/QrCode.cpp:577-589 | the inner loops extend that to two more columns |
| SymbolLaws.CodeBitsValue | external/qrcodegen/QrCode.cpp:582-584 | the bits of a codeword are drawn from the one that counts 128 to the one that counts 1 |
| SymbolLaws.CornerModule | external/qrcodegen/QrCode.cpp:574-590 | the highest bit of the first codeword goes to the bottom right corner |
| Symbol.QrCode.ApplyMask | external/qrcodegen/QrCode.cpp:596-617 | exactly the data modules that the mask selects are inverted; mask numbers out of range are errors |
| SymbolLaws.MaskPictures | external/qrcodegen/QrCode.cpp:600-613 | each of the eight masks inverts what its picture, repeated over the symbol, shows |
| Symbol.MaskTwice | external/qrcodegen/QrCode.cpp:349-355 | applying a mask twice restores the grid |
| Symbol.QrCode.SetFunctionModule | external/qrcodegen/QrCode.cpp:516-521 | one module gets the colour and becomes a function module, all others stay |
| Symbol.QrCode.ComputeFormatBits | external/qrcodegen/QrCode.cpp:446-451 | the loop computes the 15 format bits |
| Symbol.FormatRoundTrip | external/qrcodegen/QrCode.cpp:446-453 | level and mask can be read back from the format bits, which stay below 2^15 |
| SymbolLaws.FormatWord | external/qrcodegen/QrCode.cpp:446-453 | the format bits are level and mask followed by ten check bits that make a multiple of the generator 0x537, exclusive or 0x5412 |
| SymbolLaws.FormatExample | external/qrcodegen/QrCode.cpp:446-453 | for the level bits 00 and mask 0 they are 0x5412 |
| PatternLaws.LevelBits | external/qrcodegen/QrCode.cpp:232-240 | the levels low, medium, quartile and high are 01, 00, 11 and 10 |
| Symbol.QrCode.DrawFormatBits | external/qrcodegen/QrCode.cpp:445-470 | the 31 format modules are written and marked, all others stay |
| SymbolLaws.FormatPlaces | external/qrcodegen/QrCode.cpp:455-470 | where each bit of either copy is, and the module that is always dark |
| Symbol.FormatNamesMask | external/qrcodegen/QrCode.cpp:445-470 | reading either copy of the format modules gives the level and mask that were written |
| Symbol.TrialUndone | external/qrcodegen/QrCode.cpp:342-349 | masking again after a trial restores every module outside the format bits |
| Symbol.QrCode.TryMask | external/qrcodegen/QrCode.cpp:342-349 | one trial scores exactly the finished symbol for that mask, below LONG_MAX, and leaves the data modules as they were |
| Symbol.QrCode.ChooseMask | external/qrcodegen/QrCode.cpp:339-356 | the final grid is the drawn one with exactly one mask applied and its format bits written; a requested mask is used, otherwise the penalty score is the least of the eight and ties go to the lowest mask |
| Symbol.SymbolRoundTrip | external/qrcodegen/QrCode.cpp:568-617 | reading the scan of a finished symbol after taking the mask off gives back the codewords that were drawn |
| MaskPenalty.RunsExpand | external/qrcodegen/QrCode.cpp:624-644 | the runs that the scan of a line counts cut it into pieces of alternating colour, light first, only the first of which may be empty |
| MaskPenalty.AddHistory | external/qrcodegen/QrCode.cpp:806-811 | the history is shifted by one, and the first run of a line gets the light border |
| MaskPenalty.CountPatterns | external/qrcodegen/QrCode.cpp:785-792 | the finder-like patterns that have just ended, or the assertion error exactly when the last dark run exceeds three times the size |
| MaskPenalty.CountLast | external/qrcodegen/QrCode.cpp:785-792 | wherever it is called that assertion does not fire, and the count is that of the runs themselves |
| MaskPenalty.TerminateAndCount | external/qrcodegen/QrCode.cpp:795-803 | the line is closed with its light border, and the patterns that end there are counted |
| MaskPenalty.LinePenalty | external/qrcodegen/QrCode.cpp:624-666 | the scan of a row or a column scores its runs of five and more and counts the 1:1:3:1:1 patterns in the line with its border; no assertion fires |
| FinderWindows.FindersAreWindows | external/qrcodegen/QrCode.cpp:785-803 | said by position, the finder part of the score counts in the line with its light border every dark-light 1:1:3:1:1 window with one part of light before and four after it, and every one with four before and one after it |
| FinderWindows.FramedExpands | external/qrcodegen/QrCode.cpp:795-811 | the run lengths that the history is fed are those of the line with as many light modules on either side as it has itself |
| MaskPenalty.GetPenaltyScore | external/qrcodegen/QrCode.cpp:620-692 | the score of every symbol: lines, two by two blocks and balance, each given by position in PenaltyPositions; no assertion fires |
| PenaltyPositions.LineByPosition | external/qrcodegen/QrCode.cpp:624-666 | said by position, a line scores 3 for every place where five equal modules in a row have just come together, 1 for every further module of that stretch, and 40 for every finder-like window |
| PenaltyPositions.BlocksByPosition | external/qrcodegen/QrCode.cpp:668-677 | the blocks that are counted are the places at which two by two modules are of one colour |
| PenaltyPositions.DarkByPosition | external/qrcodegen/QrCode.cpp:680-686 | the modules that are counted for the balance are the dark ones |
| PenaltyPositions.PenaltyByPosition | external/qrcodegen/QrCode.cpp:620-692 | the whole score as a sum over places: rows, columns, 3 for each block of one colour, and 10 for each step away from balance |
| MaskPenalty.ImbalanceIsLeast | external/qrcodegen/QrCode.cpp:687-690 | as the comment says, k is the least number with (45 - 5k)% <= black / total <= (55 + 5k)% |
| MaskPenalty.PenaltyBound | external/qrcodegen/QrCode.cpp:620-692 | for every symbol of at most 177 modules a side the score is below 2^31 - 1 |
| BitStrings.BitBuffer.AppendBits | external/qrcodegen/QrCode.cpp:855-860 | the loop appends the len lowest bits, highest first, if and only if the value fits |
| BitStrings.FromToBits | external/qrcodegen/QrCode.cpp:855-860 | a value that fits is read back from its bits |
| SegmentLaws.SegmentHeader | external/qrcodegen/QrCode.cpp:42-65 | a segment starts with 0001, 0010, 0100 or 0111, followed by its count in 10, 12 or 14, 9, 11 or 13, or 8 or 16 bits as the version is below 10, below 27 or above, and none for ECI |
| SegmentLaws.DigitGroups | external/qrcodegen/QrCode.cpp:77-97 | three digits abc are the number 100a + 10b + c in ten bits |
| SegmentLaws.DigitRest | external/qrcodegen/QrCode.cpp:94-97 | two digits that are left take seven bits and one takes four |
| SegmentLaws.CharsetOrder | external/qrcodegen/QrCode.cpp:228 | digits, capital letters and the nine signs have the numbers 0 to 9, 10 to 35 and 36 to 44, and no other character has one |
| SegmentLaws.CharacterPairs | external/qrcodegen/QrCode.cpp:100-120 | two characters are 45 times the first number plus the second in eleven bits |
| SegmentLaws.CharacterRest | external/qrcodegen/QrCode.cpp:117-119 | a character that is left takes six bits |
| SegmentLaws.BytesInOrder | external/qrcodegen/QrCode.cpp:67-74 | byte i stands in the bits from 8i on |
| SegmentLaws.EciForms | external/qrcodegen/QrCode.cpp:141-156 | a designator takes one byte, two bytes that start with 10 or three that start with 110 |
| Segments.PackGroups | external/qrcodegen/QrCode.cpp:82-96 | the accumulator loop packs full groups and one last shorter group |
| Segments.UnpackPack | external/qrcodegen/QrCode.cpp:77-120 | packing decimal digits in threes or characters in twos loses nothing |
| Segments.MakeBytes | external/qrcodegen/QrCode.cpp:67-74 | the bits are those of the bytes, and the character count is their number |
| Segments.MakeNumeric | external/qrcodegen/QrCode.cpp:77-97 | exactly texts of digits are accepted, and their packed form is returned |
| Segments.MakeAlphanumeric | external/qrcodegen/QrCode.cpp:100-120 | exactly texts over the 45-character set are accepted, and their packed form is returned |
| Segments.MakeEci | external/qrcodegen/QrCode.cpp:141-156 | values from 0 to 999999 are accepted, in the shortest of three forms |
| Segments.ReadBodyRoundTrip | external/qrcodegen/QrCode.cpp:67-156 | a reader of the segment body gets back what each factory was given |
| Segments.ReadAllRoundTrip | external/qrcodegen/QrCode.cpp:287-308 | a reader of the bit stream gets back the whole list of payloads and stops at the terminator |
| Segments.GetTotalBits | external/qrcodegen/QrCode.cpp:177-191 | the loop returns the length of the bit stream, or -1 if and only if a count does not fit its field or the total exceeds INT_MAX |
| Segments.TotalBitsIsLength | external/qrcodegen/QrCode.cpp:177-191 | the total is the number of bits that the segments take |
| QrTables.RawInRange | external/qrcodegen/QrCode.cpp:711-724 | the range assertion of getNumRawDataModules never fires |
| QrTables.SymbolLayout | external/qrcodegen/QrCode.cpp:711-731 | the tables give a usable block layout for every version and level, with blocks of at most 255 bytes |
| SegmentEncoder.ChooseVersion | external/qrcodegen/QrCode.cpp:260-279 | the smallest version from minVersion on in which the segments fit, or -1 when there is none |
| SegmentEncoder.BoostLevel | external/qrcodegen/QrCode.cpp:281-285 | the highest level at which the data still fits, never below the requested one |
| SegmentEncoder.AppendSegments | external/qrcodegen/QrCode.cpp:287-295 | the loop appends mode, count and data of every segment |
| SegmentEncoder.FillCapacity | external/qrcodegen/QrCode.cpp:297-308 | terminator, alignment and pad bytes fill the capacity exactly |
| SegmentLaws.CodewordsShow | external/qrcodegen/QrCode.cpp:297-313 | the codewords hold the bits of the segments, zeros to the end of the byte in which a four-bit terminator ends, and then 0xEC and 0x11 in turn |
| SegmentEncoder.PackCodewords | external/qrcodegen/QrCode.cpp:310-313 | the packed bytes have the bits of the buffer |
| SegmentEncoder.EncodeSegments | external/qrcodegen/QrCode.cpp:255-317 | invalid arguments and data that is too long are reported exactly when they should be; otherwise version and level are the right ones and the codewords hold the segments and fill the symbol |
| SegmentEncoder.CodewordsReadBack | external/qrcodegen/QrCode.cpp:255-317 | the data codewords of a symbol read back as the payloads of its segments |
| FunctionModules.AlignApart | external/qrcodegen/QrCode.cpp:695-708 | alignment patterns do not touch, in any version |
| PatternLaws.StepIsLeast | external/qrcodegen/QrCode.cpp:695-708 | the patterns are as close as an even step from the first to the last centre allows, and version 32 has the step 26 |
| PatternLaws.Centres | external/qrcodegen/QrCode.cpp:695-708 | the first centre is 6, the last one lies six modules from the far edge, and those after the first are one step apart |
| FunctionModules.OccupiedSize | external/qrcodegen/QrCode.cpp:711-724 | the closed formula of getNumRawDataModules is the number of modules that the function patterns leave, for every version |
| FunctionPatterns.FunctionModulesOccupy | external/qrcodegen/QrCode.cpp:416-442 | the modules that the drawing marks, part by part and overlapping, are exactly those that were counted |
| FunctionPatterns.FreeModules | external/qrcodegen/QrCode.cpp:568-593 | on every grid that marks the function modules of its version the scan finds exactly getNumRawDataModules free modules, so the assertion of drawCodewords never fires |
| PatternDrawing.DrawTiming | external/qrcodegen/QrCode.cpp:417-421 | the loop marks row and column 6 and colours them alternately |
| PatternDrawing.DrawSquares | external/qrcodegen/QrCode.cpp:496-513 | the loops mark the squares around a centre, clipped to the symbol, and colour them by distance |
| PatternDrawing.GetAlignmentPatternPositions | external/qrcodegen/QrCode.cpp:695-708 | the loop lists the positions in ascending order |
| PatternDrawing.DrawAlignment | external/qrcodegen/QrCode.cpp:428-437 | the loops mark exactly the alignment patterns away from the finder patterns, and each of them has its colours in the end |
| PatternDrawing.DrawVersion | external/qrcodegen/QrCode.cpp:473-493 | both copies show the version bits, and nothing else changes |
| PatternDrawing.VersionReadBack | external/qrcodegen/QrCode.cpp:477-483 | the version bits fit in 18 bits and name the version |
| PatternLaws.VersionWord | external/qrcodegen/QrCode.cpp:477-483 | the version bits are a multiple of the generator 0x1F25 that starts with the version |
| PatternLaws.VersionPlaces | external/qrcodegen/QrCode.cpp:485-492 | three bits to a row left of the top right finder pattern, lowest first, and the mirror image above the bottom left one |
| PatternDrawing.DrawFunctionPatterns | external/qrcodegen/QrCode.cpp:416-442 | on an empty symbol exactly the function modules of the version are marked, and finder, alignment and timing patterns and version bits are there in their colours |
| PatternDrawing.PatternsKept | external/qrcodegen/QrCode.cpp:416-513 | changes to data modules and format bits leave every other pattern in its colours |
| QrPipeline.MessageRoundTrip | external/qrcodegen/QrCode.cpp:255-360 | segments to finished symbol and back: a reader of format, mask, scan, blocks and segments gets the message |
| QrPipeline.DrawMessage | external/qrcodegen/QrCode.cpp:335-356 | the constructor after the function patterns: it fails if and only if there are too few free modules, and otherwise leaves a symbol that reads back as the message, shows the format bits of level and mask, has the function modules as they were drawn, and has the best mask |
| QrPipeline.EncodeMessage | external/qrcodegen/QrCode.cpp:255-360 | the whole encoder: it refuses exactly bad arguments and messages that fit no allowed version; otherwise version and level are well chosen, the symbol reads back as the message, its mask is the one asked for or the first with the least penalty, and all function patterns are there in their colours; no internal assertion fires |
| QrPipeline.RemaskedIs | external/qrcodegen/QrCode.cpp:342-349 | the finished symbols for the other masks can be had from the one for any mask, so that the best mask can be told from the symbol alone |
| QrPipeline.FunctionModulesKept | external/qrcodegen/QrCode.cpp:568-617 | codewords and mask change no function module |
| QrPipeline.DamagedBlockDetermined | external/qrcodegen/QrCode.cpp:529-565 | a block of a finished symbol is determined by any copy with at most half as many damaged bytes as it has error correction bytes |
| Varint.WriteVarint | src/common/varint.h:69-80 | the loop writes seven bits to a byte, lowest first |
| Varint.WrittenGroups | src/common/varint.h:69-80 | group i of a written value counts 128 to the power of i, exactly the bytes before the last have the high bit, and the last is not 0 unless it is alone |
| Varint.ReadVarint | src/common/varint.h:94-119 | the loop reads such a value and reports overflow and non-canonical forms exactly as the reference reader does |
| Varint.ReadWrite | src/common/varint.h:69-119 | every 64-bit value is read back from what was written, whatever follows |
| Varint.WriteRead | src/common/varint.h:94-119 | what is read is what write_varint writes, unless the input ends in the middle |
| Varint.ReadBound | src/common/varint.h:94-119 | a value that is read fits in 64 bits |
| Base58.BuildReverseAlphabet | src/common/base58.cpp:54-79 | the table gives each symbol its digit and -1 to all other letters |
| Base58.SizesInverse | src/common/base58.cpp:49-104 | encoded and decoded block sizes are inverse to each other |
| Base58.SymbolsLeast | src/common/base58.cpp:49 | the encoded size of n bytes is the least number of symbols that can tell all n-byte blocks apart |
| Base58.EncodedLength | src/common/base58.cpp:172-193 | a text has 11 symbols for every 8 bytes, and the least sufficient number for the bytes that are left |
| Base58.AddressLength | src/common/base58.cpp:227-235 | an address with a one-byte tag and two 32-byte keys has 95 symbols |
| Base58.AlphabetHas | src/common/base58.cpp:47 | the symbols are the digits and letters without 0, O, I and l |
| Base58.BlockFits | src/common/base58.cpp:106-136 | 58 to the encoded size exceeds 256 to the block size, so encode_block never writes before its buffer |
| Base58.EncodeBlock | src/common/base58.cpp:123-136 | the loop writes the base-58 digits of the block over the leading zeros that are already there |
| Base58.AddProduct | src/common/base58.cpp:154-157 | the 64-bit sum with its two overflow tests is exact or reports an overflow |
| Base58.OrderStep | src/common/base58.cpp:147-160 | order is the exact power of 58 at every use: a multiplication wraps if and only if it is the one after the last use in an 11-symbol block |
| Base58.DecodeBlock | src/common/base58.cpp:138-169 | a block is accepted if and only if its length and symbols are valid and its true base-58 value is below 256^res_size, and the bytes are those of that value |
| Base58.DecodeEncodedBlock | src/common/base58.cpp:123-169 | decoding an encoded block gives the block |
| Base58.EncodeDecodedBlock | src/common/base58.cpp:123-169 | encoding a decoded block gives the text |
| Base58.Encode | src/common/base58.cpp:172-193 | the block loop writes the text of the data |
| Base58.Decode | src/common/base58.cpp:195-225 | the block loop accepts exactly the texts that stand for data, and returns it |
| Base58.DecodeEncode | src/common/base58.cpp:172-225 | decode undoes encode for every byte string |
| Base58.EncodeDecode | src/common/base58.cpp:172-225 | every accepted text is the encoding of what it decodes to |
| Base58.TextConcat | src/common/base58.cpp:172-193 | the text of a concatenation is the concatenation of the texts when the first part is a multiple of 8 bytes |
| Base58.TextOrder | src/common/base58.cpp:47-51 | on data of one length the texts are ordered as the data is |
| Base58.AddressRoundTrip | src/common/base58.cpp:227-257 | decode_addr undoes encode_addr for every 64-bit tag and all data |
| Base58.AddressCanonical | src/common/base58.cpp:237-257 | an accepted address is the encoding of what it stands for if and only if its tag is not cut off |
| Base58.CutOffTagAccepted | src/common/base58.cpp:252-253 | an address whose body is the single byte 0x80 is accepted with tag 0, and is not what encode_addr writes |
| Ancestry.LocateExactly | src/blockchain_utilities/blockchain_ancestry.cpp:286-327 | the search names a transaction if and only if it is the first of its block that pays to the key, miner transaction first, and nothing unreadable comes before it |
| Ancestry.LocateIsMaker | src/blockchain_utilities/blockchain_ancestry.cpp:286-327 | the search names the transaction that made the output if and only if that one is the first payer of its key in block order and nothing unreadable comes before it |
| Ancestry.UniquePayerFound | src/blockchain_utilities/blockchain_ancestry.cpp:286-327 | in a readable block in which no two transactions pay to the key the search names exactly the one that does |
| Ancestry.ReachIsReachability | src/blockchain_utilities/blockchain_ancestry.cpp:507-595 | in a chain whose ring members were made by earlier transactions, each the first payer of its key in its block, the recursive reference is true descent: an output is in it if and only if ring members and their makers lead to it |
| Ancestry.WellFormedSearchable | src/blockchain_utilities/blockchain_ancestry.cpp:286-327 | in such a chain every search for a maker succeeds and leads to an earlier transaction |
| Ancestry.SharedKey | src/blockchain_utilities/blockchain_ancestry.cpp:293-324 | two transactions of a block pay to one key: the search names the first, and the second made the output |
| Ancestry.CountPositive | src/blockchain_utilities/blockchain_ancestry.cpp:656-703 | an output is reached in at least one way if and only if it is reachable |
| AncestryWays.RefsCount | src/blockchain_utilities/blockchain_ancestry.cpp:565-571 | an output is referred to as often as there are an input and a place in its ring that name it, with the amount of that input |
| AncestryWays.Ways | src/blockchain_utilities/blockchain_ancestry.cpp:656-703 | the count of an output is the number of its ways, each a sequence of input and ring places that leads from the transaction through the makers of the members to that output |
| Ancestry.ReachSame | src/blockchain_utilities/blockchain_ancestry.cpp:507-595 | what a transaction descends from does not change when the chain grows, if every search for it succeeds |
| Ancestry.ReachGrows | src/blockchain_utilities/blockchain_ancestry.cpp:507-595 | and nothing of it is ever lost |
| AncestryTool.State.GetBlockFromHeight | src/blockchain_utilities/blockchain_ancestry.cpp:223-244 | the block of the chain, whatever is cached; caches stay right |
| AncestryTool.State.GetTransaction | src/blockchain_utilities/blockchain_ancestry.cpp:246-273 | the transaction of the database, whatever is cached; caches stay right |
| AncestryTool.State.GetOutputTxid | src/blockchain_utilities/blockchain_ancestry.cpp:275-328 | the maker of the output, whatever is cached; caches stay right |
| AncestryTool.State.ProcessTransaction | src/blockchain_utilities/blockchain_ancestry.cpp:533-586 | a pass over one transaction fails if and only if a ring member of it is not found, and otherwise everything it descends from is recorded, and nothing else |
| AncestryTool.State.ProcessRing | src/blockchain_utilities/blockchain_ancestry.cpp:565-581 | a pass over one input fails if and only if a member of its ring is not found, and otherwise the members and everything they descend from are recorded, and nothing else |
| AncestryTool.State.ProcessBlock | src/blockchain_utilities/blockchain_ancestry.cpp:523-592 | a pass over one block fails if and only if a ring member in it is not found, and otherwise every transaction of it is complete |
| AncestryTool.State.Refresh | src/blockchain_utilities/blockchain_ancestry.cpp:507-595 | it fails if and only if it comes to a block with a ring member that is not found; every transaction of the blocks before maps to exactly the outputs it descends from, in a well-formed chain those of the chain itself, whatever caches are on; otherwise it stops early only on request, and its state can be resumed from |
| AncestryTool.State.StaysReady | src/blockchain_utilities/blockchain_ancestry.cpp:507-595 | a saved state stays a good starting point while the chain grows |
| AncestryTool.State.BackwardWalk | src/blockchain_utilities/blockchain_ancestry.cpp:656-703 | the worklist ends; it fails if and only if an output that the transaction descends from is not found, and otherwise its keys are exactly those outputs, in a well-formed chain those of the chain itself, and each count is the number of ways to that output modulo 2^32 |
| AncestryTool.State.VisitTransaction | src/blockchain_utilities/blockchain_ancestry.cpp:672-702 | one step of the worklist keeps counted ways plus ways still to come equal to all ways, or meets an output that is not found |
| ChainTables.AddKeysExactly | src/blockchain_db/blockchain_db.cpp:198-214 | inputs are accepted if and only if their types are known, no key image repeats and none is spent already |
| ChainTables.AddKeysAdds | src/blockchain_db/blockchain_db.cpp:198-214 | accepted inputs add exactly their key images |
| ChainTables.RemoveAdded | src/blockchain_db/lmdb/db_lmdb.cpp:1027-1176 | removing the output added last restores amounts, indices and origins exactly |
| ChainTables.RemoveAddedOutputs | src/blockchain_db/lmdb/db_lmdb.cpp:1117-1138 | outputs come off in reverse order and leave the tables as they were |
| ChainTables.UndoneExactly | src/blockchain_db/blockchain_db.cpp:175-346 | removing the transaction added last restores every table if and only if the test that chose where its outputs are stored agrees with the one that looks for them, or all its amounts are 0 |
| ChainTables.VersionThreeCoinbase | src/blockchain_db/lmdb/db_lmdb.cpp:1132-1137 | a coinbase transaction of version 3 is stored under its amounts, looked for under 0, and cannot be removed |
| ChainUndo.PopUndoesAddExactly | src/blockchain_db/blockchain_db.cpp:243-325 | popping the block added last hands its transactions out in reverse, and restores every table if and only if the places in which its outputs are looked for are exactly those in which they were stored |
| ChainUndo.PopIs | src/blockchain_db/blockchain_db.cpp:307-325 | what popping the block added last leaves: the tables before it, with the looked-for places taken off the outputs |
| ChainBlocks.PopUndoesAdd | src/blockchain_db/blockchain_db.cpp:243-325 | a block whose transactions are each looked for where they are stored is undone exactly |
| ChainBlocks.TwoWrongs | src/blockchain_db/blockchain_db.cpp:243-325 | a block with two transactions that are not looked for where they are stored, which popping restores all the same: the places agree only taken together |
| ChainHistory.TablesDescribeChain | src/blockchain_db/blockchain_db.cpp:243-300 | after every accepted sequence of blocks the spent keys are exactly those of the chain, no key image is spent twice, the outputs of each amount are listed in chain order with origin, key, unlock time and height, transactions are found under their hashes and filed with the places of their outputs, and the blocks are linked and count the outputs of amount 0 |
| ChainRct.BlockCountExactly | src/blockchain_db/blockchain_db.cpp:268-284 | the number that a block adds to the count is that of the outputs it stores under amount 0 if and only if its miner transaction has version 2 or less or no output of amount 0, and no other transaction of it is a coinbase transaction of version 2 with another amount |
| ChainRct.OutputNotCounted | src/blockchain_db/blockchain_db.cpp:268-284 | a miner transaction of version 3 with an output of amount 0, which is stored under 0 and not counted |
| ChainRct.CumulativeCount | src/blockchain_db/lmdb/db_lmdb.cpp:799-808 | the record of a block then carries the number of outputs stored under amount 0 since the last block before version 4 |
| ChainHistory.DoubleSpendRefused | src/blockchain_db/blockchain_db.cpp:198-214 | a block with a key image of an earlier block, or with one image twice, is refused |
| ChainStore.BlockchainDB.AddSpentKeys | src/blockchain_db/blockchain_db.cpp:198-214 | the input loop adds the key images, or fails exactly when it should |
| ChainStore.BlockchainDB.AddTxOutputs | src/blockchain_db/blockchain_db.cpp:218-239 | the output loop appends each output to the list of its amount and collects the indices |
| ChainStore.BlockchainDB.AddTransaction | src/blockchain_db/blockchain_db.cpp:175-241 | key images, transaction, index entry, outputs under their amounts and output indices are added; it fails exactly when an input is refused, the hash is known, or an output of amount 0 has no commitment |
| ChainStore.BlockchainDB.AddRecordOf | src/blockchain_db/lmdb/db_lmdb.cpp:747-824 | the block record is added if and only if the hash is new and the parent is the top block |
| ChainStore.BlockchainDB.AddBlock | src/blockchain_db/blockchain_db.cpp:243-300 | a successful call leaves exactly the tables of the longer chain |
| ChainStore.BlockchainDB.RemoveSpentKeys | src/blockchain_db/blockchain_db.cpp:336-342 | the key images of the inputs are no longer spent |
| ChainStore.BlockchainDB.RemoveTxOutputs | src/blockchain_db/lmdb/db_lmdb.cpp:1117-1138 | the loop removes the outputs from the last to the first |
| ChainStore.BlockchainDB.RemoveTransaction | src/blockchain_db/blockchain_db.cpp:332-346 | takes all of that out again under the amounts it looks for; it fails exactly when the transaction or one of those outputs is not there |
| ChainStore.BlockchainDB.RemoveTransactions | src/blockchain_db/blockchain_db.cpp:313-323 | the loop removes the transactions from the last to the first and hands them out in that order |
| ChainStore.BlockchainDB.PopBlock | src/blockchain_db/blockchain_db.cpp:307-325 | a failed call changes nothing; a successful one hands out the transactions of the last block in reverse and leaves exactly the tables of the shorter chain if and only if the outputs of the block were looked for in the places in which they were stored, and then it never fails |
| Wildcard.WildCardMatch | external/easylogging++/easylogging++.cc:964-986 | terminates, and answers whether the text can be cut up so that ? gets one character, * any text and every other character itself |
| Wildcard.MatchesStar | external/easylogging++/easylogging++.cc:973-978 | a star takes nothing, or one character and then what a star takes |
| Wildcard.MatchesOne | external/easylogging++/easylogging++.cc:967-982 | a pattern that starts with another character or ? takes one character |
| CategoryList.ParseWritten | external/easylogging++/easylogging++.cc:2187-2219 | a list written as name:LEVEL entries is read back exactly |
| CategoryList.JoinExactly | external/easylogging++/easylogging++.cc:2176-2219 | two lists can be joined with a comma, whatever the second is, if and only if the first ends with a complete entry or with nothing pending |
| CategoryList.Unsettled | external/easylogging++/easylogging++.cc:2197-2206 | a name without a level, or a level without a name, becomes part of the next entry |
| CategoryList.TwoReadAsOne | external/easylogging++/easylogging++.cc:2187-2219 | x followed by x:INFO is read as one entry, xx:INFO |
| CategoryList.RunComma | external/easylogging++/easylogging++.cc:2191-2216 | the scanner goes on after a comma from exactly what the comma left pending |
| CategoryList.LevelWords | external/easylogging++/easylogging++.cc:231-249 | the eight words that name levels, in capitals or small letters, whatever follows them |
| LogFilter.VRegistry.InsertAll | external/easylogging++/easylogging++.cc:2187-2219 | the scanner loop appends exactly the entries that the text names |
| LogFilter.VRegistry.Insert | external/easylogging++/easylogging++.cc:2161-2167 | the entry is appended, and cache and threshold are right for the longer list |
| LogFilter.VRegistry.SetCategories | external/easylogging++/easylogging++.cc:2159-2220 | entries and text afterwards for either clear flag; after clearing, or when the text described the entries before, it describes them if and only if the new text is settled |
| LogFilter.VRegistry.ClearCategories | external/easylogging++/easylogging++.cc:2152-2157 | no entries are left and the text is kept; a text that described the entries goes on doing so if and only if there were none |
| LogFilter.VRegistry.ClearLosesEntry | external/easylogging++/easylogging++.cc:2152-2157 | after setting x:INFO and clearing, the text names an entry that is gone |
| LogFilter.VRegistry.PriorityAllowed | external/easylogging++/easylogging++.cc:2230-2249 | the cached answer is that of the last matching entry |
| LogFilter.VRegistry.Allowed | external/easylogging++/easylogging++.cc:3369-3375 | over every run the threshold and the cache never change the answer: the last matching entry decides, and none means no |
| LogFilter.LevelLetsThrough | external/easylogging++/easylogging++.cc:2136-2145 | the last matching entry lets through exactly the levels that are at least as severe as its own, from fatal over error, warning, info, debug and verbose to trace |
| LogFilter.GlobalLetsThrough | external/easylogging++/easylogging++.cc:2136-2145 | an entry of the level global lets every level through |
| Utf8.Utf8Canonical | external/easylogging++/easylogging++.cc:2504-2583 | the in-place loop leaves what the code-point-wise reference says, for every transformation; the write offset never passes the read offset |
| Utf8.CanonicalIsComposed | external/easylogging++/easylogging++.cc:2504-2583 | a finished rewrite is decode, transform, encode, and is not longer than the input |
| Utf8.DecodeEncodedAll | external/easylogging++/easylogging++.cc:2513-2578 | every encoded text decodes to its code points |
| Utf8.EncodeOrder | external/easylogging++/easylogging++.cc:2553-2578 | bytes are ordered as the code points are |
| Utf8.EncodedIsShortest | external/easylogging++/easylogging++.cc:2553-2578 | the encoder gives the shortest text with these code points |
| Utf8.SanitizeAccepts | external/easylogging++/easylogging++.cc:2513-2566 | sanitising fails if and only if a lead byte is wrong, the text is cut off or a code point exceeds 0x10ffff; it never needs more space |
| Utf8.WellFormedExactly | external/easylogging++/easylogging++.cc:2513-2566 | valid UTF-8, after section 4 of RFC 3629, is what is accepted, in shortest form and without surrogates |
| Utf8.Utf8Accepted | external/easylogging++/easylogging++.cc:2504-2600 | valid UTF-8 is never rejected and stays valid |
| Utf8.SanitizedText | external/easylogging++/easylogging++.cc:2586-2600 | the result decodes to the cleaned code points, holds no control characters but tab, LF and CR, is in shortest form and is not longer |
| Utf8.SanitizedPlaces | external/easylogging++/easylogging++.cc:2586-2600 | code point by code point: a control character becomes a question mark, and any other is kept |
| Utf8.SanitizedIsUtf8Exactly | external/easylogging++/easylogging++.cc:2586-2600 | the result is valid UTF-8 if and only if no code point of the input is a surrogate |
| Utf8.SurrogateKept | external/easylogging++/easylogging++.cc:2529-2538 | the bytes ED A0 80 are accepted and kept, and are not UTF-8 |
| Utf8.UnchangedExactly | external/easylogging++/easylogging++.cc:2586-2600 | a text is left as it is if and only if it is shortest-form text without control characters |
| Utf8.SanitizeTwice | external/easylogging++/easylogging++.cc:2586-2600 | sanitising again changes nothing |
| Utf8.LooseContinuation | external/easylogging++/easylogging++.cc:2519-2528 | the high bits of continuation bytes are not checked: the bytes C3 41 are accepted, and are not UTF-8 |
| Permutation.FindsAllExactly | src/common/apply_permutation.h:45-47 | looking for each index accepts exactly the permutations |
| Permutation.ApplyPermutation | src/common/apply_permutation.h:42-61 | accepts exactly the permutations, terminates, and its calls of swap turn the identity into the permutation |
| Permutation.FollowFrom | src/common/apply_permutation.h:49-60 | one round settles the cycle of its index and disturbs no settled place |
| Permutation.FollowCycle | src/common/apply_permutation.h:52-58 | one swap settles one more place and moves the displaced content along |
| Permutation.SwapsAlign | src/common/apply_permutation.h:42-61 | the same calls of swap rearrange every vector in the same way |
| Permutation.ApplyToVector | src/common/apply_permutation.h:63-68 | element j of the result is element permutation[j] of the vector, and other permutations and sizes are errors that change nothing |
| Combinator.ChoicesExactly | src/common/combinator.h:75-96 | the list holds exactly the strictly increasing k-tuples of indices |
| Combinator.ChoicesAscend | src/common/combinator.h:75-96 | the list is in strictly ascending lexicographic order, so nothing is listed twice |
| Combinator.ChoicesCount | src/common/combinator.h:57-96 | the list is as long as the binomial coefficient |
| Combinator.Combinator.DoCombine | src/common/combinator.h:75-96 | appends the choices that continue the current one and leaves current as it was |
| Combinator.Combinator.Combine | src/common/combinator.h:57-72 | the vectors of all choices, and an error exactly for k = 0 and k beyond the size; current is left empty |
| Combinator.CombinationsCount | src/common/combinator.cpp:35-48 | the 64-bit loop with its wrap-around, and an error for k > n |
| Combinator.CountExact | src/common/combinator.cpp:41-45 | every division is exact while the products fit in 64 bits |
| Combinator.CountExactly | src/common/combinator.cpp:35-48 | for all k and n the count is right if and only if the largest product of its rounds, m * C(n, m) for m = min(k, (n + 1) / 2), is below 2^64 |
| Combinator.TooSmallStays | src/common/combinator.cpp:41-45 | once a product has wrapped the count stays below the true one |
| Combinator.CountMatchesListing | src/common/combinator.cpp:35-48 | the listing is as long as the count says if and only if the largest product fits |
| Combinator.WrongCount | src/common/combinator.cpp:41-45 | the count of 3 out of 4000000 is wrong |
| Aligned.PowerOf2Exactly | src/common/aligned.c:36 | the test accepts exactly the powers of two |
| Aligned.PlaceFits | src/common/aligned.c:74 | the address handed out is aligned, leaves room for the header and wastes less than align bytes |
| Aligned.LiveApart | src/common/aligned.c:59-139 | headers and payloads of different live pointers do not overlap |
| Aligned.Heap.AlignedMalloc | src/common/aligned.c:59-81 | NULL exactly for a bad alignment, a size that does not fit or a refusal of malloc; otherwise one more live pointer and all others as before |
| Aligned.Heap.AlignedFree | src/common/aligned.c:128-139 | aborts exactly on a control block that is not live, unless memory that this allocator did not write looks like one; otherwise the block is given back and all other pointers stay live |
| Aligned.Heap.AlignedRealloc | src/common/aligned.c:83-126 | when it answers NULL, aborts, frees, keeps the pointer, moves the block or, because the size asked for has wrapped and is smaller than the payload, goes wrong; old contents are kept, and the payloads of all other pointers are unchanged |
| Aligned.Heap.Grow | src/common/aligned.c:113-125 | allocate, copy and free keep the heap sound |
| Aligned.OldSizeFits | src/common/aligned.c:108-111 | the two tests on the old size never fail for a live pointer |
| Aligned.AskedExactly | src/common/aligned.c:113 | the block asked of malloc has room for the payload if and only if size, header and alignment together do not wrap |
| Aligned.GrownTooFar | src/common/aligned.c:108-113 | a block of 16 bytes grown to SIZE_MAX bytes passes the tests, and malloc is asked for 47 bytes |
| Bootstrap.CountBytes | src/blockchain_utilities/bootstrap_file.cpp:405-459 | the loop skips chunks as the reference reader does, and its byte count is the distance |
| Bootstrap.SkipChunks | src/blockchain_utilities/bootstrap_file.cpp:405-459 | in a file cut off anywhere one call passes over the number of chunks asked for, at least one, or all whose size is still there |
| Bootstrap.CountBlocks | src/blockchain_utilities/bootstrap_file.cpp:471-534 | the scan loop gives the block count and the place to start from that the reference scan gives, for well-formed and damaged files |
| Bootstrap.CountsAll | src/blockchain_utilities/bootstrap_file.cpp:494-512 | in a file cut off anywhere exactly the chunks whose size is still there are counted |
| Bootstrap.CountsExactly | src/blockchain_utilities/bootstrap_file.cpp:405-459 | the count aborts if and only if the file shows the size of a chunk that is empty or over 2 MB, which an export writes with a warning only |
| Bootstrap.NotedAbove | src/blockchain_utilities/bootstrap_file.cpp:494-502 | the place noted lies above the height sought if and only if the file begins above it |
| Bootstrap.NotedTooHigh | src/blockchain_utilities/bootstrap_file.cpp:494-502 | in a file of block 5 alone the place noted for height 3 is that of block 5 |
| Bootstrap.ImportStartsAt | src/blockchain_utilities/blockchain_import.cpp:233-313 | the importer starts reading at the chunk of the height it wants to go on at if and only if that chunk is neither the first nor the last that the file shows |
| Bootstrap.LastHeightRefused | src/blockchain_utilities/blockchain_import.cpp:249-252 | the last height of a file is refused, as in a file of the blocks 1 and 2 for a chain that wants block 2 |
| Bootstrap.FirstHeightMissed | src/blockchain_utilities/blockchain_import.cpp:302-313 | the first height of a file is missed, as block 1 in a file of the blocks 1 to 3: reading starts at block 2 |
| Bootstrap.ImportStart | src/blockchain_utilities/blockchain_import.cpp:233-313 | counting, the early return and the skip: where reading starts, or whether the import is refused, gives up at the end of the file or aborts, for every height and every file cut off anywhere |
| Bootstrap.BootstrapFile.OpenWriter | src/blockchain_utilities/bootstrap_file.cpp:80-110 | a new file starts at height 0, an existing one after its last block |
| Bootstrap.BootstrapFile.FlushChunk | src/blockchain_utilities/bootstrap_file.cpp:171-208 | a chunk is written as its size in four bytes, lowest first, and its contents |
| Bootstrap.SizeWritten | src/blockchain_utilities/bootstrap_file.cpp:175-186 | the size of a chunk is four bytes, lowest first |
| Bootstrap.BootstrapFile.StoreBlockchainRaw | src/blockchain_utilities/bootstrap_file.cpp:264-325 | whatever the file holds, it is extended by exactly the blocks after those counted, up to the block to stop at, unless the count aborts |
| Bootstrap.ResumeExactly | src/blockchain_utilities/bootstrap_file.cpp:80-110 | an export of which only a part reached the file, resumed, leaves the file of one export if and only if the cut was at a chunk boundary and no chunk before it is empty or over 2 MB |
| Bootstrap.ResumedAfterCut | src/blockchain_utilities/bootstrap_file.cpp:80-110 | a file cut off after the size of its only chunk: the resumed export goes on with the next block and differs from one export |
| Bootstrap.EmptyChunkWritten | src/blockchain_utilities/bootstrap_file.cpp:171-208 | an empty chunk is written, and no later export can read the file |
| Bootstrap.ExportResumes | src/blockchain_utilities/bootstrap_file.cpp:290-310 | exporting up to one height and later up to a higher one leaves the same file as one export |

## Left out

- Segments in Kanji mode, which no factory makes, and the wrappers makeSegments, encodeText and encodeBinary, which choose a factory.
- Base58.AddressRoundTrip: the hash is any function that returns at least four bytes.
- AncestryTool.State.Refresh: parsing of blocks and transactions is not modelled; the database is a value that holds the transactions of its chain, and in which a search that succeeds leads to an earlier transaction.
- AncestryTool.State.BackwardWalk: a stop request during the walk, which discards the result, is not modelled.
- ChainStore.BlockchainDB.AddBlock: a failed call is followed by an abort of the write transaction in its callers, so the tables after a failure are not specified.
- ChainTables.AddTx: this and its removal leave out commitments, prunable parts, pruning seeds and the hard fork table.
- ChainRct.BlockCountExactly: said for miner transactions with a coinbase input, which the rules of the chain ask for before a block is stored.
- LogFilter.VRegistry.Allowed: the threshold, a global of the process, is a field of the one registry; locking and the per-file verbose levels are not modelled.
- Utf8.Utf8Canonical: the contents of the string after an exception are not specified.
- Aligned.Heap.AlignedRealloc: what C leaves undefined, a block smaller than its payload or a control block that the allocator did not write, is an outcome after which nothing is promised.
- Bootstrap.ImportStart: the header of the file, whose structures are serialised by templates elsewhere, enters as the number of the first block, and block contents as chunks of bytes.
- Strings are sequences without NUL characters.
- Printing, option parsing, file handling, SVG output, file streams and colours of the logger, DNS, checkpoints and command lines are left out: they hold no algorithm of this kind.
- Thread interleavings: a locked method is one atomic step.
