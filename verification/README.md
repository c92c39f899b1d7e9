# luxir in Dafny

A verification project beside the luxir search engine. It models the parts that
carry the most state and arithmetic and proves what the engine relies on:

- **Postings codec** (`Bits`, `Bytes`, `Lanes`, `PForWidth`, `BitPacker`, `PFor`, `T4`, `SimdFor`): bit-packed blocks of
  128 integers with patched exceptions, the transposed delta of document ids, and the frame-of-reference codec with
  random access.
- **Ordinal columns** (`LinearPack`, `LinearFit`, `OrdColumn`): bit-contiguous values of up to 57 bits and
  fixed-point linear prediction.
- **UTF-8 validation** (`Utf8`): the table-driven 64-byte block checker and the scalar validator, both against the
  grammar of section 4 of RFC 3629.
- **Char filters** (`CharFilter`, `CharStages`, `Mapping`, `HtmlStrip`, `HtmlDocument`, `HtmlScanCost`): splicing with
  a sparse edit log, offset correction through any stack of filters, the mapping trie, and the HTML stripper: what it
  leaves of any document, its memory of failed searches, and what its tag scans cost.
- **Tokens** (`Words`, `WordRegions`, `TokenChain`): the ASCII word automaton against the Word Boundary Rules of
  section 4.1.1 of UAX #29, the carving of a value into ASCII and other regions, and position accounting through
  stop and fold stages.
- **Stemming** (`KStemRules`, `KStemForms`, `SuffixScreen`, `KStemmer`): the Krovetz rules on one reused buffer, the
  forms each tries for every stem, and the suffix screen and memo in front of them.

`Ascii` and `Options` hold shared small definitions. Verify everything with `dafny verify dfyconfig.toml`.

Code that changes things step by step is modelled as classes, arrays and loops, each proved against a
specification function on values. The theorems are about those functions, so they hold for every input and every
sequence of calls. Machine integers are unbounded numbers with the wrap-around written out where it can happen.
Text is a sequence of bytes held in `string`; `Utf8` works on 8-bit vectors.

Places where the code does not do what its shape or its comments suggest:

- `CharFilter.Filter.Finish`: pure insertions at offset 0 are lost, because zero copied bytes also means "no change".
  The condition is exact (`CharFilter.LostInsertion` is an input), and no filter of the repository inserts without
  consuming source.
- `OrdColumn.PlanBlock`: the source asserts that a constant plan always exists. It exists if and only if the values
  of the block span less than 2^57 (`OrdColumn.SpreadLimit`).
- `KStemRules.LookupAfterAlIsIdle`: a comment calls the extra lookup after -al semantic. No run finds anything
  there, and leaving it out would change no stem (`KStemRules.ChainWithoutLookup`).
- `KStemRules.DroppedRFoundIff`: for words in -ior the -or rule looks up -ie where dropping the r would give -io, so
  "warrior" misses "warrio" (`KStemRules.WarriorIsLeft`). All other words in -er and -or find the form without the r.
- `HtmlScanCost.ScansAreQuadratic`: a comment says malformed candidates cannot repeatedly scan a suffix to the end.
  They can, inside quoted values, and the remembered position never turns a candidate away that had a byte to read
  (`HtmlScanCost.MemorySavesNothing`). Counted are the bytes read outside quoted values. On every text they are at
  most the length of the text times one plus the number of candidates inside a quoted value of a malformed tag
  (`HtmlScanCost.ScansAreBounded`, sharp up to a constant by `HtmlScanCost.BoundIsSharp`), so they are at most the
  length when there is no such candidate (`HtmlScanCost.ScansAreLinear`).

## Model

| member | source | states |
|---|---|---|
| `PForWidth.CountWidths` | src/luxir/codec/Codec.cpp:193-195 | entry w of the table is the number of values whose bit width is w, for all 33 widths |
| `PForWidth.GetBestB` | src/luxir/codec/Codec.cpp:193-211 | the search returns the widest width of the block and a base width of least cost over all base widths; the exception count is the number of values wider than the base |
| `PForWidth.ExceptionsIffNarrower` | src/luxir/codec/Codec.cpp:198-211 | the chosen block has no exceptions if and only if its base width is its widest width |
| `PForWidth.AtMost102Exceptions` | src/luxir/codec/Codec.cpp:114-124 | no best choice for 128 values has more than 102 exceptions, so the count fits its byte |
| `PForWidth.SameChoiceForPermutation` | src/luxir/codec/Codec.cpp:193-211 | two blocks that are permutations of each other get the same width, widest width and exception count |
| `PFor.CostIsSize` | src/luxir/codec/Codec.cpp:114-124 | for every base width the cost the search minimises is the size of the block in bits, less 16 to 71 bits of header, padding and rounding |
| `PFor.BestIsNearlySmallest` | src/luxir/codec/Codec.cpp:193-211 | no other base width gives a block more than one word smaller than the chosen one |
| `PFor.HeaderFields` | src/luxir/codec/Codec.cpp:227-253 | the first bytes of a block are the base width, the exception count, the widest width and the positions, whatever follows |
| `PFor.PositionsAre` | src/luxir/codec/Codec.cpp:232-253 | the positions are exactly those of the values wider than the base, in increasing order |
| `BitPacker.LuxirBitPacker.Clear` | src/luxir/codec/Codec.cpp:56-58 | every lane is empty |
| `BitPacker.LuxirBitPacker.DirectAppend` | src/luxir/codec/Codec.cpp:46-46 | the lane grows by exactly the value |
| `BitPacker.LuxirBitPacker.FillPadding` | src/luxir/codec/Codec.cpp:71-75 | zeroes the padding of a lane and leaves its values |
| `BitPacker.LuxirBitPacker.WriteLane` | src/luxir/codec/Codec.cpp:64-82 | the words written are the packed lane, partial last group backed out, for every lane length up to 128 |
| `BitPacker.BackOut` | src/luxir/codec/Codec.cpp:71-80 | backing the unused words of the padded groups out leaves exactly the words the packed lane needs |
| `BitPacker.PackLane` | src/luxir/codec/Codec.cpp:64-82 | group-by-group packing followed by the word back-out is the bit layout of the whole lane |
| `BitPacker.LuxirBitPacker.ReadPartial` | src/luxir/codec/Codec.cpp:99-110 | reads the last partial group through the scratch buffer and stops at the word where the lane ends |
| `BitPacker.LuxirBitPacker.ReadLane` | src/luxir/codec/Codec.cpp:86-111 | reads back every value of a lane and advances by exactly the words the writer used |
| `BitPacker.PartialAdvance` | src/luxir/codec/Codec.cpp:99-110 | the address arithmetic of the partial read equals the length of the packed remainder |
| `PFor.BestIsEncodable` | src/luxir/codec/Codec.cpp:223-240 | the width search always yields a choice the encoder can write: positions fit a byte, residuals fit their lane |
| `PFor.CollectExceptions` | src/luxir/codec/Codec.cpp:232-266 | the header gets the position of every wider value in order and the lane gets their high bits |
| `PFor.EncodeBlockPFor` | src/luxir/codec/Codec.cpp:223-283 | writes header, positions, padding, base and exception lane for a best choice; the size it reports is the size it wrote, and the block decodes to the values |
| `PFor.WriteBlock` | src/luxir/codec/Codec.cpp:227-282 | header, positions, padding, base and exception lane of any encodable choice |
| `PFor.ReadResiduals` | src/luxir/codec/Codec.cpp:304-313 | exception residuals are all ones at width 1, which is not stored, and otherwise the packed lane |
| `PFor.PatchInPlace` | src/luxir/codec/Codec.cpp:306-316 | each exception is added to its own position in order, the rest of the block is untouched |
| `PFor.PatchRestores` | src/luxir/codec/Codec.cpp:301-318 | patching the low bits of a block at its exception positions restores the values |
| `PFor.DecodeBlockPFor` | src/luxir/codec/Codec.cpp:286-320 | decodes any well-formed block in place and returns its encoded size |
| `PFor.SkipBlockPFor` | src/luxir/codec/Codec.cpp:325-359 | the header-only walk returns the same size as the decoder and the encoder |
| `PFor.SkipLane` | src/luxir/codec/Codec.cpp:325-359 | skipping a lane moves by exactly the length the reader consumes |
| `PFor.EncodedLength` | src/luxir/codec/Codec.cpp:223-283 | the encoded block has the length computed from its header alone |
| `PFor.DecodeInvertsEncode` | src/luxir/codec/Codec.cpp:223-359 | for every block of 128 values and every encodable choice, and whatever bytes follow, decoding the encoded block gives the values back |
| `PFor.EncodedSizeBound` | src/luxir/codec/Codec.cpp:114-124 | a best block takes at most 16 * widest + 8 bytes |
| `T4.T4Delta` | src/luxir/codec/Codec.cpp:415-426 | the rewritten block holds the adjacent gaps, transposed into four lanes |
| `T4.T4InverseDelta` | src/luxir/codec/Codec.cpp:428-473 | in place, four running sums plus lane bases give the ids back in natural order |
| `T4.LaneBases` | src/luxir/codec/Codec.cpp:437-443 | the base of each lane is the block base plus the totals of the lanes below |
| `T4.InverseUndoesDelta` | src/luxir/codec/Codec.cpp:415-473 | the inverse undoes the transposed delta on every block, modulo 2^32, ascending or not |
| `T4.TransposedIsPermutation` | src/luxir/codec/Codec.cpp:399-426 | the transposed residuals are a permutation of the adjacent gaps |
| `T4.SameCostAsAdjacentDelta` | src/luxir/codec/Codec.cpp:399-414 | width, exception count and encoded size are those of plain adjacent delta |
| `T4.EncodeBlockD` | src/luxir/codec/Codec.cpp:597-603 | encodes the transposed gaps of a block with a best choice, and the block decodes to the ids |
| `T4.DecodeBlockD` | src/luxir/codec/Codec.cpp:605-612 | decodes a block against its base and returns its size |
| `T4.DocsRoundTrip` | src/luxir/codec/Codec.cpp:597-612 | decode inverts encode on one block of ids, whatever bytes follow |
| `T4.ChainRoundTrip` | src/luxir/codec/Codec.cpp:597-612 | any number of blocks, each based on the last id of the one before, decode to the original blocks |
| `SimdFor.StoredSize` | src/luxir/codec/Codec.h:122-132 | full blocks and compact tail together take exactly byteSize bytes |
| `SimdFor.PackTail` | src/luxir/codec/Codec.cpp:371-384 | or-ing shifted residuals into zeroed words gives the four-lane layout, including values that straddle two words |
| `SimdFor.UnpackTail` | src/luxir/codec/Codec.cpp:386-397 | reads every residual of a tail |
| `SimdFor.EncodeWithMeta` | src/luxir/codec/Codec.cpp:483-513 | stores the residuals at the given width and writes byteSize bytes |
| `SimdFor.DecodeWithMeta` | src/luxir/codec/Codec.h:137-160 | bulk decode yields every residual and reads byteSize bytes |
| `SimdFor.DecodeInvertsStore` | src/luxir/codec/Codec.cpp:483-526 | decoding a stored stream gives all residuals back, for any count and width |
| `SimdFor.SelectReturnsValue` | src/luxir/codec/Codec.h:168-191 | random access to any index of a stored stream returns the value, in full blocks and in the tail |
| `SimdFor.EncodeBlock` | src/luxir/codec/Codec.cpp:528-545 | a self-describing block records the least and greatest value and the residuals at the width of their range |
| `SimdFor.BlockIsSmallest` | src/luxir/codec/Codec.cpp:528-545 | no width that holds every residual gives a smaller block |
| `SimdFor.DecodeBlock` | src/luxir/codec/Codec.cpp:547-559 | decodes a self-describing block and returns the bytes read |
| `SimdFor.BlockDecodeInvertsEncode` | src/luxir/codec/Codec.cpp:528-559 | every list of values comes back from its self-describing block |
| `LinearPack.Writer.constructor` | src/luxir/codec/LinearPack.h:66-78 | a fresh writer has written nothing |
| `LinearPack.Writer.Append` | src/luxir/codec/LinearPack.h:80-94 | the bytes and pending bits together are the bit stream of all appended values |
| `LinearPack.Writer.Finish` | src/luxir/codec/LinearPack.h:101-115 | the bytes are the packed values, with or without the tail pad, and the count returned is their number |
| `LinearPack.EncodedSize` | src/luxir/codec/LinearPack.h:24-31 | the written size is packedByteSize, plus TAIL_PAD when padded |
| `LinearPack.SelectIsValueAt` | src/luxir/codec/LinearPack.h:118-134 | an unaligned 64-bit load, shift and mask read the value at its bit position: widths up to 57, and up to 32 for the 32-bit form |
| `LinearPack.SelectInvertsWriter` | src/luxir/codec/LinearPack.h:80-134 | for every width up to 57, select64 over the written bytes returns each appended value without reading past the pad |
| `LinearPack.LoadWithinPad` | src/luxir/codec/LinearPack.h:19-22 | point reads end at most 7 bytes past the packed data |
| `LinearPack.GroupLaneIsValueAt` | src/luxir/codec/LinearPack.cpp:14-58 | each lane of the group kernel is the value at its index, for every width below 32 and both phases |
| `LinearPack.GroupWithinPad` | src/luxir/codec/LinearPack.h:19-31 | the loads of the last group stay within the packed size plus TAIL_PAD |
| `LinearPack.TailPadIsLeast` | src/luxir/codec/LinearPack.h:19-22 | a pad keeps every group load inside the buffer if and only if it is at least 10 bytes |
| `LinearPack.UnpackGroup` | src/luxir/codec/LinearPack.cpp:14-58 | one kernel call yields four consecutive values |
| `LinearPack.UnpackBlockBits` | src/luxir/codec/LinearPack.cpp:60-135 | groups with alternating phases and the point-read remainder yield the whole range from any index that is a multiple of eight |
| `LinearPack.UnpackBlock32` | src/luxir/codec/LinearPack.cpp:60-135 | the width-32 copy yields the whole range |
| `LinearPack.KernelAgreesWithSelect` | src/luxir/codec/LinearPack.cpp:60-135 | bulk reads agree with select32 at every index |
| `LinearFit.SlopeIsNearest` | src/luxir/codec/LinearFit.h:44-60 | the endpoint slope is the nearest fixed-point slope to the true one, for rising and falling values |
| `LinearFit.PredictRoundsDown` | src/luxir/codec/LinearFit.h:26-34 | a prediction is the line rounded down, for rising and falling lines |
| `LinearFit.DriftBound` | src/luxir/codec/LinearFit.h:52-54 | at rank i the fixed-point line is within i / 2^(shift+1) of the true line before flooring |
| `LinearFit.Evaluate` | src/luxir/codec/LinearFit.h:81-97 | the loop finds the exact least and greatest prediction error, and every residual of a plan it returns fits the bits of the plan |
| `LinearFit.PlanExistsIff` | src/luxir/codec/LinearFit.h:62-79 | a plan exists if and only if the lowered intercept fits int64 and the error range is below 2^57 |
| `LinearFit.ResidualsFitExactly` | src/luxir/codec/LinearFit.h:62-97 | every residual of a plan lies in [0, 2^bits), one is zero, and one needs all the bits |
| `LinearFit.EndpointPredictable` | src/luxir/codec/LinearFit.h:26-34 | endpoint lines never leave int64 while the count is at most 2^(shift+1) |
| `LinearFit.EndpointOvershoots` | src/luxir/codec/LinearFit.h:26-61 | for one value more or any larger count there is a line of slope one whose last prediction is 2^63, so the assertion fails |
| `LinearFit.EndpointLimit` | src/luxir/codec/LinearFit.h:26-61 | every endpoint line over a count of values stays in int64 if and only if the count is at most 2^(shift+1) |
| `LinearFit.PlanLinearFit` | src/luxir/codec/LinearFit.h:99-111 | the plan of the endpoint line, with residuals that fit its bits, or none when its slope does not fit |
| `LinearFit.ProgressionNeedsNoBits` | src/luxir/codec/LinearFit.h:44-111 | an arithmetic progression with a representable slope gets that slope and zero bits |
| `OrdColumn.ConstantPlanIff` | src/luxir/codec/OrdColumnFormat.h:104-106 | the constant plan exists if and only if the values span less than 2^57 |
| `OrdColumn.PlanBlock` | src/luxir/codec/OrdColumnFormat.h:100-113 | a block gets the cheaper of the constant and linear plans, its residuals fit, and there is a plan if and only if the values span less than 2^57; the source asserts that there always is |
| `OrdColumn.SpreadLimit` | src/luxir/codec/OrdColumnFormat.h:104-106 | a block of two values 2^57 apart has no plan and fails the assertion; one less apart has one |
| `OrdColumn.EndpointInRange` | src/luxir/codec/OrdColumnFormat.h:39-47 | the predictions of a block of up to 4096 values stay in int64 |
| `OrdColumn.CoveredPredictions` | src/luxir/codec/OrdColumnFormat.h:39-55 | reading a covered column back never leaves int64 |
| `OrdColumn.ColumnRoundTrip` | src/luxir/codec/OrdColumnFormat.h:49-113 | prediction plus the packed residual gives every value back |
| `Utf8.SecondLane` | deps/is_utf8/src/is_utf8.cpp:5607-5695 | the three lookup tables reject a pair of bytes exactly when the grammar does |
| `Utf8.LanesAreGrammar` | deps/is_utf8/src/is_utf8.cpp:5607-5711 | lane checks over a run that starts after a complete character accept it if and only if it is well formed by section 4 of RFC 3629 |
| `Utf8.JoinRuns` | deps/is_utf8/src/is_utf8.cpp:5766-5774 | checking two runs is checking the second after the last three bytes of the first |
| `Utf8.AsciiRun` | deps/is_utf8/src/is_utf8.cpp:5785-5788 | an ASCII block after an unfinished character is an error, after a finished one it is not |
| `Utf8.ContextIrrelevant` | deps/is_utf8/src/is_utf8.cpp:5785-5806 | after a finished character the bytes before do not matter, so a stale previous block is harmless |
| `Utf8.IncompleteIffEndOwes` | deps/is_utf8/src/is_utf8.cpp:5713-5752 | the end-of-block test finds exactly the blocks that end inside a character |
| `Utf8.AsciiBlockStep` | deps/is_utf8/src/is_utf8.cpp:5785-5788 | the ASCII shortcut keeps the checker in step with all bytes seen, though it leaves the previous block and the incomplete mask stale |
| `Utf8.FullBlockStep` | deps/is_utf8/src/is_utf8.cpp:5788-5806 | a full block keeps the checker in step with all bytes seen |
| `Utf8.Utf8Checker.constructor` | deps/is_utf8/src/is_utf8.cpp:5754-5763 | a zeroed checker has seen nothing |
| `Utf8.Utf8Checker.CheckNextInput` | deps/is_utf8/src/is_utf8.cpp:5785-5807 | in every reachable state the three state words describe exactly the bytes seen |
| `Utf8.Utf8Checker.CheckEof` | deps/is_utf8/src/is_utf8.cpp:5779-5783 | the checker reports no error if and only if everything seen is well formed |
| `Utf8.ValidateBlocks` | deps/is_utf8/src/is_utf8.cpp:5832-5847 | for every byte string, whatever its length, the block checker accepts if and only if it is well formed |
| `Utf8.ScalarChar` | deps/is_utf8/src/is_utf8.cpp:4718-4786 | the scalar code accepts the non-ASCII character at a position if and only if the grammar has one there, and finds its length |
| `Utf8.ValidateScalar` | deps/is_utf8/src/is_utf8.cpp:4702-4790 | the scalar validator, with its 16-byte ASCII skip, accepts exactly the well-formed strings |
| `CharFilter.GallopLowerBound` | src/luxir/util/screaming.h:45-76 | doubling then halving finds the first key at or above the target, as a linear scan would |
| `CharFilter.Filter.Begin` | src/luxir/analysis/CharFilter.cpp:42-48 | a fresh value has no replacements |
| `CharFilter.Filter.Replace` | src/luxir/analysis/CharFilter.cpp:20-34 | output and edit log stay exact after any ordered replacement; a replacement by the same text is dropped |
| `CharFilter.Filter.Finish` | src/luxir/analysis/CharFilter.cpp:49-54 | the output is the spliced input if and only if there was no replacement or one reaches past offset 0: insertions at offset 0 alone are lost |
| `CharFilter.LostInsertion` | src/luxir/analysis/CharFilter.cpp:49-49 | putting "x" before "a" should give "xa", but meets the condition under which the input comes back |
| `CharFilter.InsertionsOnly` | src/luxir/analysis/CharFilter.cpp:49-49 | insertions at offset 0 alone would have changed the text |
| `CharFilter.Filter.CorrectOffset` | src/luxir/analysis/CharFilter.cpp:56-80 | in any order of start and end queries the resumed search answers as a fresh scan of the log would |
| `CharFilter.LogStep` | src/luxir/analysis/CharFilter.cpp:27-33 | merging adjacent deletions and skipping one-byte substitutions loses no origin |
| `CharFilter.StartMapMonotone` | src/luxir/analysis/CharFilter.cpp:70-79 | the start map never goes backwards |
| `CharFilter.EndMapMonotone` | src/luxir/analysis/CharFilter.cpp:62-79 | the end map never goes backwards |
| `CharStages.OriginsMonotone` | src/luxir/analysis/CharFilter.cpp:20-34 | the source spans of the output bytes run forward and lie in the input |
| `CharStages.SourceHull` | src/luxir/analysis/Analyzer.cpp:598-602 | through any stack of filters a corrected start and end delimit exactly the hull of the source bytes that produced the output span |
| `CharStages.CorrectedMonotone` | src/luxir/analysis/Analyzer.cpp:598-602 | correcting through any stack keeps the order of offsets |
| `CharStages.PipedFiltersChain` | src/luxir/analysis/Analyzer.cpp:583-588 | filters run each on the text of the one before meet the conditions of the hull theorem |
| `CharStages.SourceOffset` | src/luxir/analysis/Analyzer.cpp:598-602 | walking the stages backwards applies every offset map, and leaves the filters ready for more queries |
| `Mapping.LongestSpec` | src/luxir/analysis/CharFilter.cpp:190-202 | the chosen source matches and no longer prefix is a source |
| `Mapping.SourceReplaced` | src/luxir/analysis/CharFilter.cpp:190-206 | a source that no longer source extends is replaced, and what follows is rewritten on its own |
| `Mapping.ByteKept` | src/luxir/analysis/CharFilter.cpp:190-203 | a byte no source starts at stays |
| `Mapping.OrderIrrelevant` | src/luxir/analysis/CharFilter.cpp:190-206 | the same rules in another order rewrite every text the same way |
| `Mapping.Trie.constructor` | src/luxir/analysis/CharFilter.cpp:136-143 | the empty trie holds no rules |
| `Mapping.Trie.Add` | src/luxir/analysis/CharFilter.cpp:145-174 | adds exactly the rule, or reports an empty or duplicate source and changes no rule |
| `Mapping.Trie.Seal` | src/luxir/analysis/CharFilter.cpp:425-425 | sorting the edges of every node keeps what the trie holds |
| `Mapping.SortKeepsTargets` | src/luxir/analysis/CharFilter.cpp:425-425 | sorted edges lead where the unsorted ones led |
| `Mapping.Trie.Next` | src/luxir/analysis/CharFilter.cpp:176-181 | binary search over sorted edges finds the child for a byte if there is one |
| `Mapping.NoLongerRule` | src/luxir/analysis/CharFilter.cpp:196-197 | when the walk falls off the trie no longer rule can match |
| `Mapping.Trie.LongestAt` | src/luxir/analysis/CharFilter.cpp:194-202 | the walk finds the longest rule source at a position and its replacement |
| `Mapping.BuildTrie` | src/luxir/analysis/CharFilter.cpp:400-430 | a trie is built if and only if all sources are nonempty and distinct, and then holds exactly the rules |
| `Mapping.Step` | src/luxir/analysis/CharFilter.cpp:192-206 | one position: the longest rule is replaced or one byte kept, and the rest is still to be rewritten |
| `Mapping.Apply` | src/luxir/analysis/CharFilter.cpp:184-208 | the filtered text is the leftmost-longest rewriting of the input without rescanning, and every replacement consumed source; it is refused exactly when a rewritten text is too long |
| `HtmlStrip.NoTagEnd` | src/luxir/analysis/CharFilter.cpp:263-268 | with no closing bracket ahead no tag ends, in any scanner state |
| `HtmlStrip.HtmlStripFilter.FindQuoteEnd` | src/luxir/analysis/CharFilter.cpp:231-237 | with its memory of failed searches it returns what a fresh search would |
| `HtmlStrip.HtmlStripFilter.FindTagEnd` | src/luxir/analysis/CharFilter.cpp:239-269 | with both memories it returns what a scan without memory would, keeps them true, and reads the bytes counted |
| `HtmlStrip.HtmlStripFilter.FindDeclarationEnd` | src/luxir/analysis/CharFilter.cpp:271-281 | the first closing bracket outside quotes, or the end of the text |
| `HtmlStrip.HtmlStripFilter.FindCommentEnd` | src/luxir/analysis/CharFilter.cpp:359-366 | the end of the first comment closer of either form, or the end of the text |
| `HtmlStrip.HtmlStripFilter.FindRawEnd` | src/luxir/analysis/CharFilter.cpp:283-295 | the end of the first complete closing tag of a script or style, or the end of the text |
| `HtmlStrip.HtmlStripFilter.ReadNumber` | src/luxir/analysis/CharFilter.cpp:300-325 | the saturating 32-bit accumulator decides the same scalar value as the exact number, Windows-1252 remapping included |
| `HtmlStrip.SaturatedStep` | src/luxir/analysis/CharFilter.cpp:306-312 | saturation keeps the accumulator equal to the number while that is in Unicode and above it afterwards |
| `HtmlStrip.LongestNameSpec` | src/luxir/analysis/CharFilter.cpp:326-340 | the reference chosen is the longest name of the table that fits |
| `HtmlStrip.FindEntity` | src/luxir/analysis/CharFilter.cpp:331-338 | binary search of the sorted table finds the value of a name as a linear scan would |
| `HtmlStrip.HtmlStripFilter.ReadReference` | src/luxir/analysis/CharFilter.cpp:297-341 | a numeric or named reference, or none |
| `HtmlStrip.HtmlStripFilter.ReadTag` | src/luxir/analysis/CharFilter.cpp:375-393 | a tag is cut with the raw text it opens, or kept when it does not end |
| `HtmlStrip.HtmlStripFilter.ReadItem` | src/luxir/analysis/CharFilter.cpp:346-395 | what stands at a position is decided as by the scans without memory |
| `HtmlStrip.HtmlStripFilter.Step` | src/luxir/analysis/CharFilter.cpp:346-395 | every step advances and keeps the output equal to the stripped text so far |
| `HtmlStrip.HtmlStripFilter.Apply` | src/luxir/analysis/CharFilter.cpp:343-397 | the output is the stripped text, the replacements issued are increasing, disjoint and nonempty, and the bytes tag scans read are those counted |
| `HtmlStrip.PlainTextKept` | src/luxir/analysis/CharFilter.cpp:343-397 | text without markup or references is unchanged |
| `HtmlDocument.DocumentStripped` | src/luxir/analysis/CharFilter.cpp:343-397 | stripping the printed form of any document of text, tags with quoted attributes, scripts and styles, comments, declarations, CDATA sections and references leaves the text the document stands for |
| `HtmlDocument.NodeRead` | src/luxir/analysis/CharFilter.cpp:343-397 | anywhere in a text a printed piece of markup is replaced by what it stands for, whatever is around it |
| `HtmlDocument.TextAroundKept` | src/luxir/analysis/CharFilter.cpp:343-397 | the text before and after a piece of markup stays |
| `HtmlDocument.TagSeparates` | src/luxir/analysis/CharFilter.cpp:375-393 | an opening or closing tag leaves nothing if its name is that of an inline element, in any case, and a line break otherwise |
| `HtmlDocument.OpenItem` | src/luxir/analysis/CharFilter.cpp:375-393 | a tag with any quoted attribute values, brackets in them included, is taken whole |
| `HtmlDocument.RawItem` | src/luxir/analysis/CharFilter.cpp:384-386 | a script or style is taken with its text up to its own closing tag and leaves a line break |
| `HtmlDocument.CommentItem` | src/luxir/analysis/CharFilter.cpp:359-369 | a comment is taken up to its first closer and leaves nothing |
| `HtmlDocument.DeclarationItem` | src/luxir/analysis/CharFilter.cpp:370-374 | a declaration is taken up to its closing bracket and leaves nothing |
| `HtmlDocument.SectionItem` | src/luxir/analysis/CharFilter.cpp:352-358 | a CDATA section leaves its content as it is |
| `HtmlDocument.SymbolItem` | src/luxir/analysis/CharFilter.cpp:326-340 | a named reference in the table leaves its value |
| `HtmlDocument.ValueOfDigits` | src/luxir/analysis/CharFilter.cpp:300-312 | reading a number printed in decimal or hexadecimal, in either case, gives the number back |
| `HtmlDocument.NumberIsCharacter` | src/luxir/analysis/CharFilter.cpp:300-325 | for every number, decimal or hexadecimal, the reference leaves the well-formed UTF-8 bytes of the character it names |
| `HtmlDocument.C1Characters` | src/luxir/analysis/CharFilter.cpp:315-321 | the five C1 numbers Windows-1252 leaves undefined stand for themselves, all others for characters past Latin-1 |
| `HtmlDocument.EncodeIsUtf8` | src/luxir/analysis/CharFilter.cpp:322-323 | every scalar value is encoded as the one well-formed character of section 4 of RFC 3629 that carries it |
| `HtmlScanCost.OpenersBeforeTail` | src/luxir/analysis/CharFilter.cpp:239-268 | a scan that runs off the text has skipped every opener ahead in quotes: each has a quote between it and the remembered position |
| `HtmlScanCost.NotPassedOver` | src/luxir/analysis/CharFilter.cpp:240-240 | no candidate ahead is turned away by the remembered position, except one whose name ends the text and which has nothing to read |
| `HtmlScanCost.RawCloseIsCandidate` | src/luxir/analysis/CharFilter.cpp:283-296 | the closing tags tried for a script or style are candidates scanned from the end of their name |
| `HtmlScanCost.MemorySavesNothing` | src/luxir/analysis/CharFilter.cpp:239-268 | on every text the tag scans read as many bytes with the memory of failed scans as without it |
| `HtmlScanCost.ScansAreQuadratic` | src/luxir/analysis/CharFilter.cpp:246-267 | on a text of 7n + 2 bytes the tag scans read n(3n + 7)/2 bytes: malformed candidates do scan to the end again and again |
| `HtmlScanCost.ScanIsPaid` | src/luxir/analysis/CharFilter.cpp:239-268 | one scan, closed, failed or inside a skipped value, costs at most the bytes it moves past or, for a hidden candidate, the length of the text |
| `HtmlScanCost.ScansAreBounded` | src/luxir/analysis/CharFilter.cpp:239-268 | on every text the tag scans read at most the length of the text once, and once more for each candidate inside a quoted value of a malformed tag |
| `HtmlScanCost.ScansAreLinear` | src/luxir/analysis/CharFilter.cpp:246-267 | unless a malformed tag has another candidate in one of its quoted values, all tag scans together read at most as many bytes as the text has |
| `HtmlScanCost.ScansAreLinearWithoutQuotes` | src/luxir/analysis/CharFilter.cpp:246-267 | in particular on any text without quotes |
| `HtmlScanCost.BoundIsSharp` | src/luxir/analysis/CharFilter.cpp:246-267 | the quadratic family has n hidden candidates, and at least 3/14 of the text is read for each of them |
| `KStemRules.Plural` | src/luxir/analysis/KStemmer.cpp:296-344 | the ordered dictionary tries for plurals: a hit is the entry of the word left; without a match the word is nonempty and no longer than before |
| `KStemRules.PastTense` | src/luxir/analysis/KStemmer.cpp:365-438 | the ordered dictionary tries for -ed and -ied: a hit is the entry of the word left; without a match the word is nonempty and no longer than before |
| `KStemRules.Aspect` | src/luxir/analysis/KStemmer.cpp:456-527 | the ordered dictionary tries for -ing: a hit is the entry of the word left; without a match the word is nonempty and no longer than before |
| `KStemRules.Ity` | src/luxir/analysis/KStemmer.cpp:535-591 | the ordered dictionary tries for -ity: a hit is the entry of the word left; without a match the word is nonempty and no longer than before |
| `KStemRules.Ness` | src/luxir/analysis/KStemmer.cpp:620-632 | the ordered dictionary tries for -ness: a hit is the entry of the word left; without a match the word is nonempty and no longer than before |
| `KStemRules.Ion` | src/luxir/analysis/KStemmer.cpp:788-889 | the ordered dictionary tries for -ion and its longer forms: a hit is the entry of the word left; without a match the word comes back as found unless it ends in -ization |
| `KStemRules.ErAndOr` | src/luxir/analysis/KStemmer.cpp:895-955 | the ordered dictionary tries for -er and -or: a hit is the entry of the word left; without a match the word comes back as found unless it ends in -izer |
| `KStemRules.Ly` | src/luxir/analysis/KStemmer.cpp:963-1007 | the ordered dictionary tries for -ly: a hit is the entry of the word left; without a match the word is nonempty and no longer than before |
| `KStemRules.Al` | src/luxir/analysis/KStemmer.cpp:1013-1075 | the ordered dictionary tries for -al: a hit is the entry of the word left; without a match the word is nonempty and no longer than before |
| `KStemRules.Ive` | src/luxir/analysis/KStemmer.cpp:1081-1117 | the ordered dictionary tries for -ive: a hit is the entry of the word left; without a match the word comes back exactly as found |
| `KStemRules.Ize` | src/luxir/analysis/KStemmer.cpp:664-691 | the ordered dictionary tries for -ize: a hit is the entry of the word left; without a match the word comes back exactly as found |
| `KStemRules.Ment` | src/luxir/analysis/KStemmer.cpp:649-661 | the ordered dictionary tries for -ment: a hit is the entry of the word left; without a match the word comes back exactly as found |
| `KStemRules.Ble` | src/luxir/analysis/KStemmer.cpp:712-746 | the ordered dictionary tries for -able and -ible: a hit is the entry of the word left; without a match the word comes back exactly as found |
| `KStemRules.Ism` | src/luxir/analysis/KStemmer.cpp:635-646 | the ordered dictionary tries for -ism: a hit is the entry of the word left; without a match the word is nonempty and no longer than before |
| `KStemRules.Ic` | src/luxir/analysis/KStemmer.cpp:753-776 | the ordered dictionary tries for -ic: a hit is the entry of the word left; without a match the word comes back exactly as found |
| `KStemRules.Ncy` | src/luxir/analysis/KStemmer.cpp:694-709 | the ordered dictionary tries for -ncy: a hit is the entry of the word left; without a match the word is nonempty and no longer than before |
| `KStemRules.Nce` | src/luxir/analysis/KStemmer.cpp:594-617 | the ordered dictionary tries for -nce: a hit is the entry of the word left; without a match the word comes back exactly as found |
| `KStemmer.Stemmer.RunPlural` | src/luxir/analysis/KStemmer.cpp:296-344 | rewriting the buffer in place for plurals ends in exactly the specified word and match, using at most two bytes past the word |
| `KStemmer.Stemmer.RunPastTense` | src/luxir/analysis/KStemmer.cpp:365-438 | rewriting the buffer in place for -ed and -ied ends in exactly the specified word and match, using at most two bytes past the word |
| `KStemmer.Stemmer.RunAspect` | src/luxir/analysis/KStemmer.cpp:456-527 | rewriting the buffer in place for -ing ends in exactly the specified word and match, using at most two bytes past the word |
| `KStemmer.Stemmer.RunIty` | src/luxir/analysis/KStemmer.cpp:535-591 | rewriting the buffer in place for -ity ends in exactly the specified word and match, using at most two bytes past the word |
| `KStemmer.Stemmer.RunNess` | src/luxir/analysis/KStemmer.cpp:620-632 | rewriting the buffer in place for -ness ends in exactly the specified word and match, using at most two bytes past the word |
| `KStemmer.Stemmer.RunIon` | src/luxir/analysis/KStemmer.cpp:788-889 | rewriting the buffer in place for -ion and its longer forms ends in exactly the specified word and match, using at most two bytes past the word |
| `KStemmer.Stemmer.RunErAndOr` | src/luxir/analysis/KStemmer.cpp:895-955 | rewriting the buffer in place for -er and -or ends in exactly the specified word and match, using at most two bytes past the word |
| `KStemmer.Stemmer.RunLy` | src/luxir/analysis/KStemmer.cpp:963-1007 | rewriting the buffer in place for -ly ends in exactly the specified word and match, using at most two bytes past the word |
| `KStemmer.Stemmer.RunAl` | src/luxir/analysis/KStemmer.cpp:1013-1075 | rewriting the buffer in place for -al ends in exactly the specified word and match, using at most two bytes past the word |
| `KStemmer.Stemmer.RunIve` | src/luxir/analysis/KStemmer.cpp:1081-1117 | rewriting the buffer in place for -ive after the regular lookup that follows -al ends in exactly the specified word and match, using at most two bytes past the word |
| `KStemmer.Stemmer.RunIze` | src/luxir/analysis/KStemmer.cpp:664-691 | rewriting the buffer in place for -ize ends in exactly the specified word and match, using at most two bytes past the word |
| `KStemmer.Stemmer.RunMent` | src/luxir/analysis/KStemmer.cpp:649-661 | rewriting the buffer in place for -ment ends in exactly the specified word and match, using at most two bytes past the word |
| `KStemmer.Stemmer.RunBle` | src/luxir/analysis/KStemmer.cpp:712-746 | rewriting the buffer in place for -able and -ible ends in exactly the specified word and match, using at most two bytes past the word |
| `KStemmer.Stemmer.RunIsm` | src/luxir/analysis/KStemmer.cpp:635-646 | rewriting the buffer in place for -ism ends in exactly the specified word and match, using at most two bytes past the word |
| `KStemmer.Stemmer.RunIc` | src/luxir/analysis/KStemmer.cpp:753-776 | rewriting the buffer in place for -ic ends in exactly the specified word and match, using at most two bytes past the word |
| `KStemmer.Stemmer.RunNcy` | src/luxir/analysis/KStemmer.cpp:694-709 | rewriting the buffer in place for -ncy ends in exactly the specified word and match, using at most two bytes past the word |
| `KStemmer.Stemmer.RunNce` | src/luxir/analysis/KStemmer.cpp:594-617 | rewriting the buffer in place for -nce ends in exactly the specified word and match, using at most two bytes past the word |
| `KStemForms.PluralIes` | src/luxir/analysis/KStemmer.cpp:296-344 | for every stem and dictionary, -ies: the form in -ie if known, else -y |
| `KStemForms.PluralEs` | src/luxir/analysis/KStemmer.cpp:296-344 | -es: -e then the stem, but the stem first after -ss or a single letter; else -e is left |
| `KStemForms.PluralS` | src/luxir/analysis/KStemmer.cpp:296-344 | -s after other letters: the stem, known or not |
| `KStemForms.NoPlural` | src/luxir/analysis/KStemmer.cpp:296-344 | words in no -s, in -ss or -ous, or too short stay |
| `KStemForms.PastIed` | src/luxir/analysis/KStemmer.cpp:365-438 | -ied: the form in -ie if known, else -y |
| `KStemForms.PastEd` | src/luxir/analysis/KStemmer.cpp:365-438 | -ed: a regular -e, the stem, a doubled consonant undone; then the stem, the word after un-, or the stem with -e is left |
| `KStemForms.NoPast` | src/luxir/analysis/KStemmer.cpp:365-438 | words without -ed, without a vowel before it, or too short stay |
| `KStemForms.AspectIng` | src/luxir/analysis/KStemmer.cpp:456-527 | -ing: a regular -e, the stem, a doubled consonant undone; then the stem is left, with -e unless two consonants end it |
| `KStemForms.NoAspect` | src/luxir/analysis/KStemmer.cpp:456-527 | words without -ing, without a vowel before it, or too short stay |
| `KStemForms.ItyForms` | src/luxir/analysis/KStemmer.cpp:535-591 | -ity: the stem, -e; then -ility to -le, -ivity to -ive, -ality to -al, else the word itself or the stem |
| `KStemForms.NessForms` | src/luxir/analysis/KStemmer.cpp:620-632 | -ness to the stem, -iness to -y |
| `KStemForms.IonIzation` | src/luxir/analysis/KStemmer.cpp:788-889 | -ization to -ize |
| `KStemForms.IonItion` | src/luxir/analysis/KStemmer.cpp:788-889 | -ition: -e, -ite, -it, else the word |
| `KStemForms.IonAtion` | src/luxir/analysis/KStemmer.cpp:788-889 | -ation: -ate, -e, the stem, -y for -ication, -ate, -at, else the word |
| `KStemForms.IonOther` | src/luxir/analysis/KStemmer.cpp:788-889 | any other -ion: -e, the stem, else the word |
| `KStemForms.AgentIzer` | src/luxir/analysis/KStemmer.cpp:895-955 | -izer to -ize |
| `KStemForms.AgentForms` | src/luxir/analysis/KStemmer.cpp:895-955 | -er and -or: a doubled consonant undone, -y for i, nothing for e, the word less its r, the stem, the stem with -e, else the word; after an i the letter before the r has become an e |
| `KStemForms.LyForms` | src/luxir/analysis/KStemmer.cpp:963-1007 | -ly: -le, the stem; then -ally leaves -al, -ably leaves -able, -ily tries -y, else the stem is left |
| `KStemForms.AlForms` | src/luxir/analysis/KStemmer.cpp:1013-1075 | -al: the stem, a doubled consonant undone, -e, -um; nothing, -y and -ic for -ical; nothing for -ial, or the word |
| `KStemForms.IveForms` | src/luxir/analysis/KStemmer.cpp:1081-1117 | -ive: the stem, -e; for -ative -e and nothing in place of all of it; -ion, else the word |
| `KStemForms.NoIve` | src/luxir/analysis/KStemmer.cpp:1081-1117 | words without -ive are looked up as they are, exceptions aside |
| `KStemForms.IzeForms` | src/luxir/analysis/KStemmer.cpp:664-691 | -ize: the stem, a doubled consonant undone, -e, else the word |
| `KStemForms.MentForms` | src/luxir/analysis/KStemmer.cpp:649-661 | -ment: the stem, else the word |
| `KStemForms.BleForms` | src/luxir/analysis/KStemmer.cpp:712-746 | -able and -ible: the stem, a doubled consonant undone, -e, -ate, else the word |
| `KStemForms.IsmForms` | src/luxir/analysis/KStemmer.cpp:635-646 | -ism: the stem, known or not |
| `KStemForms.IcForms` | src/luxir/analysis/KStemmer.cpp:753-776 | -ic: -ical, -y, -e, the stem, else the word |
| `KStemForms.NcyForms` | src/luxir/analysis/KStemmer.cpp:694-709 | -ency and -ancy: -nt, else -nce |
| `KStemForms.NceForms` | src/luxir/analysis/KStemmer.cpp:594-617 | -ence and -ance: -e, the stem, else the word |
| `KStemForms.NounsStay` | src/luxir/analysis/KStemmer.cpp:535-955 | a rule leaves every word without its ending: -ity, -ness, -ion, -er and -or |
| `KStemForms.AdjectivesStay` | src/luxir/analysis/KStemmer.cpp:649-1075 | likewise -ly, -al, -ize, -ment, -able and -ible |
| `KStemForms.OthersStay` | src/luxir/analysis/KStemmer.cpp:594-776 | likewise -ism, -ic, -ncy and -nce |
| `KStemForms.RunOfYs` | src/luxir/analysis/KStemmer.cpp:236-241 | in a run of y the first is a consonant at the start of a word or after a vowel letter, and from there they alternate |
| `KStemForms.NcyThenNce` | src/luxir/analysis/KStemmer.cpp:1139-1173 | an unknown -ency or -ancy goes on as -ence or -ance |
| `KStemForms.AllyThenAl` | src/luxir/analysis/KStemmer.cpp:1139-1173 | an unknown -ally goes on as -al |
| `KStemForms.IvityThenIve` | src/luxir/analysis/KStemmer.cpp:1139-1173 | an unknown -ivity goes on as -ive past the rules between |
| `KStemForms.IzationThenIze` | src/luxir/analysis/KStemmer.cpp:1139-1173 | an unknown -ization goes on as -ize past the rules between |
| `KStemForms.KnownTerm` | src/luxir/analysis/KStemmer.cpp:1119-1126 | a term the dictionary holds has the stem its entry gives |
| `KStemForms.StemByRule` | src/luxir/analysis/KStemmer.cpp:1128-1183 | the first rule that finds a form gives the stem |
| `KStemForms.IesToY` | src/luxir/analysis/KStemmer.cpp:296-344 | "ponies" is "pony" whenever the dictionary has "pony" but neither "ponies" nor "ponie" |
| `KStemmer.Stemmer.Put` | src/luxir/analysis/KStemmer.cpp:225-234 | cutting and appending spells the intended word; a cut alone keeps the bytes past it |
| `KStemmer.Stemmer.EndsIn` | src/luxir/analysis/KStemmer.cpp:255-284 | true exactly for proper suffixes of the word; a mismatch leaves j alone |
| `KStemmer.Stemmer.EndsInText` | src/luxir/analysis/KStemmer.cpp:243-253 | true exactly for proper suffixes of the word; a mismatch leaves j at the last letter unless the suffix is too long |
| `KStemmer.Stemmer.WordInDict` | src/luxir/analysis/KStemmer.cpp:286-293 | caches only entries that are not exceptions and keeps an earlier match |
| `KStemmer.Stemmer.VowelInStem` | src/luxir/analysis/KStemmer.cpp:448-453 | true exactly when the stem has a vowel, with y judged by its neighbour |
| `KStemRules.LookupAfterAlIsIdle` | src/luxir/analysis/KStemmer.cpp:1137-1160 | on every run from a term the dictionary does not hold, the lookup between -al and -ive finds nothing |
| `KStemRules.ChainWithoutLookup` | src/luxir/analysis/KStemmer.cpp:1137-1160 | the chain without that lookup gives the same word and match |
| `KStemRules.ChainSplits` | src/luxir/analysis/KStemmer.cpp:1139-1173 | the chain is its first rules, then the rest from where they stopped |
| `KStemRules.DroppedRFoundIff` | src/luxir/analysis/KStemmer.cpp:918-944 | with only the word less its r known, -er and -or find it if and only if the word does not end in -ior |
| `KStemRules.WarriorIsLeft` | src/luxir/analysis/KStemmer.cpp:918-944 | "warrior" with only "warrio" known is left as it is |
| `KStemmer.PossessiveIff` | src/luxir/analysis/EnglishPossessive.h:13-24 | an ending is removed if and only if it is one of the three apostrophes with s or S, and then exactly that is removed |
| `KStemmer.MemoSlot` | src/luxir/analysis/KStemmer.h:103-111 | the hash of both ends and the length names one of the 4096 slots |
| `KStemmer.Stemmer.Advance` | src/luxir/analysis/KStemmer.cpp:1139-1173 | at every unmatched rule boundary the buffer holds a word of 1 to the original number of letters and k is its last index |
| `KStemmer.Stemmer.RunRules` | src/luxir/analysis/KStemmer.cpp:1137-1174 | running the seventeen rules in order with early exit is the specified chain |
| `KStemmer.Stemmer.StemUnknown` | src/luxir/analysis/KStemmer.cpp:1128-1183 | the result is a function of the term alone, whatever the buffer held |
| `KStemmer.Stemmer.StemCandidate` | src/luxir/analysis/KStemmer.cpp:1119-1126 | dictionary first, rules otherwise |
| `SuffixScreen.MakeTable` | src/luxir/analysis/KStemmer.cpp:75-95 | a cell of the table has the bit of a third letter if and only if some listed ending allows those three letters |
| `SuffixScreen.TableDecides` | src/luxir/analysis/KStemmer.cpp:75-95 | the table lookup decides exactly whether the last letters match an ending |
| `KStemRules.ScreenProvesIdentity` | src/luxir/analysis/KStemmer.h:69-75 | a term whose last letters match no listed ending is its own stem under the dictionary and all rules |
| `KStemmer.Rejected` | src/luxir/analysis/KStemmer.h:69-75 | a term the table rejects is its own stem |
| `KStemmer.Stemmer.constructor` | src/luxir/analysis/KStemmer.cpp:214-214 | a new stemmer has an exact screen and no memo |
| `KStemmer.Stemmer.StemTerm` | src/luxir/analysis/KStemmer.h:66-98 | after any sequence of calls every filled memo slot holds the true stem of its key, and the result equals that of a stemmer without screen and memo, with or without possessive removal |
| `Words.WordBytesJoin` | src/luxir/analysis/Analyzer.cpp:186-189 | adjacent word bytes never break (WB5, WB8, WB9, WB10, WB13a, WB13b) |
| `Words.MidDecides` | src/luxir/analysis/Analyzer.cpp:396-411 | a byte after a word byte continues the word if and only if the class table joins the pair around it (WB6, WB7, WB11, WB12) |
| `Words.MiddleByte` | src/luxir/analysis/Analyzer.cpp:378-413 | two runs of letters around a byte are one word if the byte is a full stop, an apostrophe or a colon, two runs of digits if it is a full stop, an apostrophe, a comma or a semicolon, and two words otherwise |
| `Words.OutsideSegment` | src/luxir/analysis/Analyzer.cpp:382-387 | no segment that starts outside a word holds a letter or digit |
| `Words.Scanner.ReadWord` | src/luxir/analysis/Analyzer.cpp:388-413 | the run read is exactly one segment, and the flag tells whether it has a letter or digit |
| `Words.Scanner.Next` | src/luxir/analysis/Analyzer.cpp:378-422 | the next token is the next segment with a letter or digit, with exact offsets |
| `Words.Tokenize` | src/luxir/analysis/Analyzer.cpp:378-422 | the tokens of an ASCII text are exactly its segments with a letter or digit under the Word Boundary Rules of section 4.1.1 of UAX #29 |
| `Words.SplitAtBlank` | src/luxir/analysis/Analyzer.cpp:337-361 | cutting a text at a white-space byte leaves its words and offsets unchanged |
| `Words.SplitAnywhere` | src/luxir/analysis/Analyzer.cpp:337-361 | so does cutting it at any set of white-space bytes |
| `WordRegions.Carver.NextRegion` | src/luxir/analysis/Analyzer.cpp:337-375 | the next region starts at the first byte that is not blank, is for the automaton if and only if it is ASCII, and ends with the value or at a blank followed by ASCII |
| `WordRegions.RegionStep` | src/luxir/analysis/Analyzer.cpp:206-232 | the words of a region, then those of the rest, are the words of the value from there |
| `WordRegions.TokenizeValue` | src/luxir/analysis/Analyzer.cpp:285-300 | carving a value and segmenting each region gives the words of the whole value, for any library segmentation that agrees with the rules on ASCII and may be cut at those places |
| `WordRegions.RulesAreConformant` | src/luxir/analysis/Analyzer.cpp:206-232 | the rules themselves are such a segmentation |
| `Words.LoweredWords` | src/luxir/analysis/Analyzer.cpp:255-266 | lower-casing ASCII first changes no word boundary |
| `TokenChain.StopConserves` | src/luxir/analysis/Analyzer.cpp:730-743 | a stop stage keeps every position, in an increment or in the rest |
| `TokenChain.FoldConserves` | src/luxir/analysis/Analyzer.cpp:432-448 | a fold stage gives up exactly one position for each token it drops |
| `TokenChain.KeepsPlaces` | src/luxir/analysis/Analyzer.cpp:432-448 | survivors of a stop stage keep their absolute position; survivors of a fold stage move down by the tokens dropped before them and keep upstream holes |
| `TokenChain.StackConserves` | src/luxir/analysis/Analyzer.cpp:719-744 | through any stack, emitted increments plus the final increment plus the tokens folds dropped equal the number of source tokens |
| `TokenChain.StopsKeepPositions` | src/luxir/analysis/Analyzer.cpp:719-744 | through any stack of stop stages the output is the source tokens that no stage lists as a stop word, at their source positions |
| `TokenChain.LostIsFolded` | src/luxir/analysis/Analyzer.cpp:719-744 | the positions a stack gives up are those of the source tokens some fold turns into the empty text |
| `TokenChain.StackPositions` | src/luxir/analysis/Analyzer.cpp:426-448 | through any mixed stack every survivor sits at its source index less the tokens folds dropped before it |
| `TokenChain.FoldsLeaveNoHoles` | src/luxir/analysis/Analyzer.cpp:444-447 | without stop stages every increment is one and the final increment is zero |
| `TokenChain.Chain.Reset` | src/luxir/analysis/Analyzer.cpp:725-728 | a fresh value starts with a zero final increment, though only stop stages clear it |
| `TokenChain.Chain.Pull` | src/luxir/analysis/Analyzer.cpp:432-448 | pulling through any number of stages over the shared token yields the head of the specified stream, and exhaustion adds its rest once |
| `TokenChain.Chain.Analyze` | src/luxir/analysis/Analyzer.h:60-68 | one analysis yields exactly the specified tokens and final increment: each survivor at its source index less the tokens folded away before it, and increments, final increment and folded tokens adding up to the source |

## Left out

- Unicode beyond ASCII in tokenizing, lower-casing and NFKC case folding: libraries and tables that are not part of this model. A fold stage takes any function on text.
- Which words a library finds outside ASCII: any segmentation that meets `WordRegions.Conformant`. That a real one may drop a blank right before a non-ASCII byte is one of those conditions.
- FastPFOR's pack and unpack kernels: given by their documented bit layout.
- The AVX2 form of the width count: only the portable loop is modelled.
- `bytewiseOutput`: byte-for-byte output that bypasses the edit log.
- The textual form of mapping rules with its escapes: rules arrive decoded.
- The HTML entity table and the Krovetz word list: any table sorted by name, and any dictionary with nonempty lower-case keys whose mapped words have listed endings.
- KStemmer.Stemmer.StemTerm: does not model whether a result borrows the input, the dictionary or the buffer.
- Memory safety of the SIMD loads in `Codec.cpp`: loads are modelled as words of a sequence.
- `NumColumn`, `NumBlockCodec`, `ArrayOrdValues`, file formats, configuration, request handling: not part of this model.
- Running time, except the bytes that HTML tag scans read outside quoted values.
