# Verified model of the `opensqlany` page-store reader

This project models the parts of `opensqlany` in which bytes are transformed, searched and parsed, and proves
what they do for every input. `dafny verify dfyconfig.toml` checks the whole project.

| Files | Part of the reader |
|---|---|
| `Bytes.dfy` | result types, wrapping byte arithmetic, little-endian words |
| `PagePermutation.dfy` | the in-place sector permutation and the number theory of its walk |
| `ApStream.dfy`, `ApModel.dfy` | the additive keystream, its histogram search, and the deobfuscation of a page |
| `ApRecovery.dfy`, `ApExactness.dfy` | what the search guarantees for mostly zero pages, and exactly when it succeeds on any page |
| `Decimals.dfy`, `Calendar.dfy` | exact base-100 decimals with their rendering, and minute-based dates |
| `RowSchema.dfy`, `RowFields.dfy`, `RowDecoder.dfy` | the typed row decoder: schema, fields, the full decode |
| `RowRoundTrip.dfy`, `RowGrammar.dfy` | writing rows in every layout, and the decoder as an exact recogniser of them |
| `RowPrefix.dfy`, `MaterializedRow.dfy` | the prefix decode and the materialized carrier |
| `RowSegment.dfy` | row segments and the bounded continuation-chain walk |
| `Slotted.dfy`, `SlotSlicing.dfy` | the slot-directory search and the two row slicers |
| `PageLinks.dfy` | page-link blocks and the bounded walk along them |

Loops of the source are methods with invariants. Each is proved against a specification (a function of its
inputs, or a predicate that fixes the result up to choices the source leaves open), and the properties below are proved about that
specification. A byte is an integer below 256 and wraps explicitly; unbounded integers stand for machine words
where the source cannot overflow.

## Where the code differs from what its names and comments suggest

- **A negative key undoes a positive one only from 128 bytes on.** Below that, every active byte comes back
  displaced by `2 * len * increment` modulo 256, which is then never zero (`KeyInversion`, an equivalence). The
  512-byte sector is always restored.
- **A decimal coefficient is not always canonical.** It keeps superfluous zeros exactly when every digit is zero
  and the exponent is above 0xC0 (`DecimalIsExact`, with the example in `ZeroCanHaveLeadingZeros`). The rendering
  suppresses a minus sign only for the coefficient `0`, and such a coefficient is never negative.
- **Step recovery is a heuristic with an exact condition.** The true step is chosen if and only if every step
  error gives the plaintext a lower peak, or an equal one when the wrong step is tried later (`StepChosenExactly`).
  A byte that fills more than three quarters of a sector always meets it (`DominantStepChosen`); a page whose sectors
  are exactly three quarters zero can fail it and is then never recovered (`ThreeQuartersPageIsLost`).
- **A page-link limit equal to the page count can still be what stops a walk**, exactly from three pages on
  (`LimitStopsExactly`, with a store of page bytes in `StoreLimitReached`).

## Model

| member | source | states |
|---|---|---|
| PagePermutation.KeyInversion | crates/opensqlany/src/page_permutation.rs:33-99 | A key followed by its opposite, in either order, adds `2*len*increment` modulo 256 to every active byte and touches no other; the buffer comes back exactly if and only if the key is zero or the length is at least 128 |
| PagePermutation.RotateCycle | crates/opensqlany/src/page_permutation.rs:60-72 | The loop with one saved byte and a running seed: each position of the cycle ends with the original byte of the next position plus its seed, nothing is read after being overwritten, and bytes off the cycle are unchanged; it ends because the cycle is finite, and a lost cycle is never reported |
| PagePermutation.PermutePowerOfTwoInPlace | crates/opensqlany/src/page_permutation.rs:33-73 | Errors exactly for the rejected bounds, leaves the buffer alone then, and otherwise rotates the cycle of the key's stride with the key's seed and increment |
| PagePermutation.PermuteSectorInPlace | crates/opensqlany/src/page_permutation.rs:16-26 | For 512 bytes the only failure is a bad active range, any other length is refused, and both leave the buffer alone, as does key 0. For any other key the new first byte is the old byte one stride further (when that place is active) plus the seed, and over a whole sector every byte is told by its place on the walk, with stride, seed and increment given by the low, middle and high bytes of the key |
| PagePermutation.KeySchedule | crates/opensqlany/src/page_permutation.rs:45-54 | For every key of magnitude `low + 256*mid + 65536*high`: the increment is the odd one of `mid` and `mid + 1`, and the stride the odd one of `high + low` and `high + low + 1` as a signed 16-bit number, negated for a negative key |
| PagePermutation.SectorMovesByKey | crates/opensqlany/src/page_permutation.rs:45-72 | What a permuted sector holds, told by the three parts of the key alone |
| PagePermutation.BoundsExactly | crates/opensqlany/src/page_permutation.rs:75-86 | The accepted lengths are exactly the powers of two, the accepted ranges those with `start + tail < len`, and each violation has its error |
| RingWalk.SingleCycle | crates/opensqlany/src/page_permutation.rs:60-72 | An odd stride on a power-of-two ring meets every active position exactly once, beginning at `start` |
| RingWalk.PositionsDistinct | crates/opensqlany/src/page_permutation.rs:101-124 | One turn of the walk repeats no position |
| RingWalk.OddCancels | crates/opensqlany/src/page_permutation.rs:116-118 | If a power of two divides `d` times an odd number, it divides `d`: the number theory that the comment relies on |
| RingWalk.OppositeCycle | crates/opensqlany/src/page_permutation.rs:54-58 | The opposite stride meets the same cycle backwards after its first member |
| PagePermutation.NextInActiveRange | crates/opensqlany/src/page_permutation.rs:101-124 | The first active position after the current one, with every skipped one inactive; the error means that a whole turn has none |
| PagePermutation.NextOnCycle | crates/opensqlany/src/page_permutation.rs:61-66 | The first active position after the `j`-th member of the cycle is the next member, or `start` after the last |
| PagePermutation.SeedClosedForm | crates/opensqlany/src/page_permutation.rs:55-59 | The running seed after `j` writes is `seed + j*increment` modulo 256 |
| PagePermutation.NegativeSeedValue | crates/opensqlany/src/page_permutation.rs:88-99 | Both branches of the negative seed are `increment*(start+tail+1)` (plus `len*increment` below 256) less `low8`, although computed bytewise |
| PagePermutation.OppositeSeeds | crates/opensqlany/src/page_permutation.rs:45-59 | Opposite keys have the same increment and opposite strides, and their seeds with the remaining increments of the cycle add up to `2*len` or `len` increments |
| PagePermutation.ShiftThereAndBack | crates/opensqlany/src/page_permutation.rs:60-72 | Two opposite walks one after the other shift every byte of the cycle by one constant |
| PagePermutation.DisplacementIsZero | crates/opensqlany/src/page_permutation.rs:88-99 | For a power-of-two length and an odd increment, `2*len*increment` vanishes modulo 256 exactly from 128 bytes on |
| ApExactness.EndToEndExactly | crates/opensqlany/src/ap.rs:532-599 | On any stored page and any run, the output is the plaintext if and only if the calibration byte found is the true one and every sector's plaintext shows its step; and the calibration byte found is one that the plaintext admits |
| ApExactness.CalibrationExactly | crates/opensqlany/src/ap.rs:532-542 | Which calibration bytes may be reported is told by the plaintext alone: its own sectors vote for the error, or none votes and the error has the best score over all step errors |
| ApExactness.RecoveredExactly | crates/opensqlany/src/ap.rs:560-599 | The output is the plaintext if and only if the page was decoded with the true calibration byte and every sector with its true step |
| ApExactness.StepChosenExactly | crates/opensqlany/src/ap.rs:182-237 | The search chooses the true step if and only if each wrong step drifts the plaintext to a lower peak, or to an equal one when it is tried later |
| ApExactness.DriftedByte | crates/opensqlany/src/ap.rs:192-195 | Byte `i` of a drifted plaintext is its own byte less `i` times the step error, modulo 256 |
| ApExactness.WrongStepDrifts | crates/opensqlany/src/ap.rs:182-197 | Decoding with another step shows the plaintext drifted by `i` times the step error |
| ApExactness.SectorDecodesExactly | crates/opensqlany/src/ap.rs:240-246 | A sector decodes to its plaintext only with its own base and step |
| ApExactness.VoteByPlain | crates/opensqlany/src/ap.rs:306-326 | A sector's vote is off by the first byte of its plaintext, and is cast exactly when that plaintext is a progression |
| ApExactness.BestMatchByPlain | crates/opensqlany/src/ap.rs:256-291 | A sector's score for a calibration byte is the best count of the calibration error over all drifts of its plaintext |
| ApRecovery.EndToEndRecovery | crates/opensqlany/src/ap.rs:532-599 | A stored page whose eight sectors are each more than three quarters zero decodes to exactly its plaintext, trailer included, with the true calibration byte, the true step of every sector and no tie, whichever way the calibration byte was found |
| ApExactness.ThreeQuartersPageIsLost | crates/opensqlany/src/ap.rs:560-599 | The bound is sharp: a page of 0, 0, 0, 128 over and over, each sector exactly three quarters zero, stored with step 128 is given back by no run, whatever the page number and calibration byte |
| ApExactness.ThreeQuartersIsLost | crates/opensqlany/src/ap.rs:182-237 | For every base and length there is a sector of that plaintext whose step the search does not choose |
| ApRecovery.CalibrationShift | crates/opensqlany/src/ap.rs:560-599 | On any page, a calibration byte off by `delta` changes no chosen step, peak, runner-up or tie flag, moves every body byte by `-delta` and keeps the trailer |
| ApRecovery.RefillRestoresRaw | crates/opensqlany/src/ap.rs:560-599 | On any page, adding the keystream that the report names to the output gives the raw page back |
| ApRecovery.CalibrationIsTrue | crates/opensqlany/src/ap.rs:532-542 | On a mostly zero page both the direct learner and the brute-force score give the true calibration byte |
| ApRecovery.RecoveryWithTrueBv | crates/opensqlany/src/ap.rs:560-599 | With the true calibration byte a mostly zero page decodes exactly, without a tie |
| ApRecovery.LearnedIsTrue | crates/opensqlany/src/ap.rs:299-329 | On a mostly zero page the direct learner, even under an arbitrary choice among equal votes, is silent or right |
| ApModel.VotesExactlyWhenPure | crates/opensqlany/src/ap.rs:306-326 | A sector casts a vote if and only if some base and step explain all of it, and then for that base: the two histogram modes cannot miss a perfect progression |
| ApModel.ModesFindProgression | crates/opensqlany/src/ap.rs:131-160 | On a pure progression the most frequent difference and then the most frequent base are the true ones |
| ApRecovery.PureMustBeTrue | crates/opensqlany/src/ap.rs:164-171 | A sector dominated by zero plaintext can only be pure with its true base and step |
| ApRecovery.ScorePrefersTrueBv | crates/opensqlany/src/ap.rs:256-291 | On a mostly zero page every wrong calibration byte scores strictly less |
| ApRecovery.SectorPrefersTrueBv | crates/opensqlany/src/ap.rs:260-290 | The same for one sector and its best step |
| ApStream.RecoverStepConfidence | crates/opensqlany/src/ap.rs:182-237 | The report is exact: the least step with the largest peak over all steps, the largest peak among the other steps, a tie flag that holds exactly when the two are equal, the zero count under the chosen step, and the two fractions as exact ratios |
| ApStream.EvidenceUnique | crates/opensqlany/src/ap.rs:182-237 | That description determines the report |
| ApStream.WrongStepExplainsHalf | crates/opensqlany/src/ap.rs:175-181 | A byte under a wrong step and a byte under the right one together explain at most one and a half sectors |
| ApStream.NeighboursDisagree | crates/opensqlany/src/ap.rs:191-196 | A nonzero step error moves two neighbouring equal plaintext bytes apart |
| ApStream.DominantPeak | crates/opensqlany/src/ap.rs:175-181 | A byte that fills more than three quarters of a sector is the peak of its step, and every other step has a lower peak |
| ApStream.DominantStepChosen | crates/opensqlany/src/ap.rs:198-210 | Such a byte is enough for the search to choose its step, untied |
| ApStream.StripUndoesFill | crates/opensqlany/src/ap.rs:240-246 | Removing the keystream undoes adding it |
| ApStream.FillUndoesStrip | crates/opensqlany/src/ap.rs:240-246 | Adding the keystream undoes removing it |
| ApStream.PlaintextHistogram | crates/opensqlany/src/ap.rs:191-197 | Each entry is how often its byte occurs among the stripped bytes |
| ByteCounts.CountIsMultiplicity | crates/opensqlany/src/ap.rs:191-197 | The counted occurrences of a byte are its multiplicity |
| ApStream.LastLargestIndex | crates/opensqlany/src/ap.rs:137-141 | The largest index among the most frequent, as `max_by_key` returns |
| ApModel.SectorDecodes | crates/opensqlany/src/ap.rs:560-585 | Stripping an obfuscated sector with its own base and step gives the plaintext sector |
| ApModel.BaseByRecurrence | crates/opensqlany/src/ap.rs:120-126 | The base formula is a recurrence: the calibration byte at page 0, one more from sector to sector, and from a page to the next one more after an even page, three less after an odd one, and twenty-nine more after the last of sixteen |
| ApModel.KeyedByFill | crates/opensqlany/src/ap.rs:240-246 | The keystream that deobfuscation removes is `base + k*step` modulo 256 with that base |
| ApModel.BvOfApBase | crates/opensqlany/src/ap.rs:120-126 | Solving the base formula for the calibration byte inverts it, in both directions |
| ApModel.BestMatches | crates/opensqlany/src/ap.rs:260-285 | For every calibration byte, its best count over all 256 steps |
| ApModel.ScoreBvCandidates | crates/opensqlany/src/ap.rs:256-291 | Adds to every entry its best counts over the first seven sectors |
| ApModel.RecoverBvForPage | crates/opensqlany/src/ap.rs:496-509 | The greatest index among the best scores of the stored page, or the fallback outside the store |
| ApModel.DominantStep | crates/opensqlany/src/ap.rs:131-142 | The most frequent difference of neighbouring bytes, the greatest among equals |
| ApModel.RecoverBase | crates/opensqlany/src/ap.rs:149-160 | The base that matches the most bytes, the greatest among equals |
| ApModel.FullPurity | crates/opensqlany/src/ap.rs:164-171 | All bytes hit exactly when every byte is the bare keystream |
| ApModel.SectorVote | crates/opensqlany/src/ap.rs:308-326 | Two histogram modes and a purity test find the vote that the sector's first two bytes define: it votes when the whole sector is their progression |
| ApModel.LearnBvForPage | crates/opensqlany/src/ap.rs:299-329 | Nothing for other page types; otherwise a calibration byte that no other one outvotes over the eight sectors, and nothing exactly when no sector votes |
| ApModel.ApplyStream | crates/opensqlany/src/ap.rs:240-246 | Writes the stripped sector into its window and nothing outside it |
| ApModel.DeobfuscateWithBvAndConfidence | crates/opensqlany/src/ap.rs:560-599 | Every sector of the output is the raw sector stripped with the step of its exact report, the trailer is copied, and the tie count counts the ties |
| ApModel.DeobfuscateWithStoreAndConfidence | crates/opensqlany/src/ap.rs:532-542 | The calibration byte comes from the page when it votes and otherwise from the stored page's score, and the page is decoded with it |
| RowGrammar.RowDecodesExactly | crates/opensqlany/src/row_decoder.rs:803-993 | The exact decoder accepts the row grammar and nothing else, in every Boolean, null-map, coverage, carrier and length layout: a decode has a given result if and only if the declared bytes are a written row of those values; carrier bytes, unread null-map bits and padding bits are free |
| RowGrammar.AcceptedRowIsWritten | crates/opensqlany/src/row_decoder.rs:803-993 | Every accepted row was written from some field encodings and Booleans, consumes its declared size and has no flags |
| RowGrammar.NullExactly | crates/opensqlany/src/row_decoder.rs:898-972 | Which columns of an exact row are null, by the input bytes: the nullable ones whose null-map bit, at the column number or at the number of nullable columns before it, counted from the high or the low end, is clear in the two present layouts and set in the two null layouts; the map stands after the size and 0 to 3 carrier bytes |
| RowGrammar.FieldsAreWritten | crates/opensqlany/src/row_decoder.rs:812-857 | Whatever the field loop accepts is a concatenation of encodings of the values it reports |
| RowGrammar.PackAllBits | crates/opensqlany/src/row_decoder.rs:793-800 | Packing the bits read from whole bytes gives the bytes back, in both bit orders |
| RowRoundTrip.RowReadsBack | crates/opensqlany/src/row_decoder.rs:803-993 | Any schema, presence and well-formed cells: the row formed from size, carrier, null map, fields and Boolean storage, up to 8191 bytes and followed by anything, decodes exactly to each field's own value and null for each absent column |
| RowRoundTrip.WrittenRowReadsBack | crates/opensqlany/src/row_decoder.rs:803-993 | The same with a null map packed from the presence, for every presence that keeps non-nullable columns |
| RowRoundTrip.NullMapReadsBack | crates/opensqlany/src/row_decoder.rs:932-963 | Packing presence in any of the four layouts and two coverages decides presence as intended |
| RowRoundTrip.PackedBitReadsBack | crates/opensqlany/src/row_decoder.rs:793-800 | Every packed bit reads back, from either end of its byte |
| RowRoundTrip.FieldsReadBack | crates/opensqlany/src/row_decoder.rs:812-857 | All fields from an item on read back, packed runs included, with the cursor after their bytes |
| RowRoundTrip.SidecarReadsBack | crates/opensqlany/src/row_decoder.rs:860-888 | Filling in the Boolean sidecar completes exactly the values that the field loop left open |
| RowRoundTrip.HeaderReadsBack | crates/opensqlany/src/row_decoder.rs:898-972 | The envelope of a written row reads back, whatever follows the row |
| RowDecoder.DecodeRow | crates/opensqlany/src/row_decoder.rs:803-896 | The two loops compute the recursive decoding of items and tail, errors included, although the code keeps a mutable cursor and skips inside packed runs |
| RowDecoder.DecodeRowExact | crates/opensqlany/src/row_decoder.rs:986-993 | The same, and bytes left over are an error |
| RowDecoder.RowHeaderAndPresence | crates/opensqlany/src/row_decoder.rs:898-972 | The envelope and presence by a counting loop equal the positional definition, with the same errors in the same order |
| RowDecoder.DecidePresence | crates/opensqlany/src/row_decoder.rs:932-963 | The running nullable index is each column's bitmap position |
| RowDecoder.PresenceExactly | crates/opensqlany/src/row_decoder.rs:932-963 | A column is present exactly when it is not nullable or its bit says so: set for the present layouts, clear for the null layouts, with weight `2^(7 - place % 8)` or `2^(place % 8)` |
| RowDecoder.NullMapSize | crates/opensqlany/src/row_decoder.rs:330-335 | The null map has one bit for every column or for every nullable column, in whole bytes |
| RowDecoder.HeaderExactly | crates/opensqlany/src/row_decoder.rs:898-972 | The size is the low thirteen bits of the first word and its top three bits must be clear; each violated rule has its error, the first one in source order |
| RowDecoder.CarrierLengths | crates/opensqlany/src/row_decoder.rs:918-923 | The four carrier layouts stand for 0, 1, 2 and 3 bytes |
| RowDecoder.InlineBooleanExactly | crates/opensqlany/src/row_decoder.rs:755-770 | An inline Boolean by its bytes: only 0 and 1 are flags, as one byte or as a little-endian word, and every other value and every missing byte has its error |
| RowDecoder.PackedRunExactly | crates/opensqlany/src/row_decoder.rs:782-800 | A run of `n` present Booleans takes `(n + 7) / 8` bytes, and its `k`-th flag is bit `7 - k % 8` or `k % 8` of byte `k / 8` |
| RowDecoder.TailExactly | crates/opensqlany/src/row_decoder.rs:860-888 | The tail needs one byte or one bit for each noted Boolean; a byte other than 0 and 1 is an error, and bits count from the high end |
| RowDecoder.InlineBooleanRunEnd | crates/opensqlany/src/row_decoder.rs:782-791 | The end of the longest run of present Booleans from a column |
| RowDecoder.DecodeFields | crates/opensqlany/src/row_decoder.rs:809-857 | The field loop, item by item, with the tail columns noted in order |
| RowDecoder.DecodeTail | crates/opensqlany/src/row_decoder.rs:875-888 | The tail loop fills the noted columns in order and stops at the first bad byte |
| RowDecoder.TailColumnsOrdered | crates/opensqlany/src/row_decoder.rs:809-835 | The noted columns ascend and are all the present Booleans |
| RowFields.FieldDecodesExactly | crates/opensqlany/src/row_decoder.rs:1205-1316 | Decoding a field gives a value and a cursor if and only if the bytes between the two cursors are an encoding of the value, for every column type and layout |
| RowFields.IntegerFieldExactly | crates/opensqlany/src/row_decoder.rs:1337-1412 | Integer and enum columns take widths 1, 2, 4 and 8 only, the 64-bit column only 8; each failure has its error with the bytes needed and left |
| RowFields.TimeFieldExactly | crates/opensqlany/src/row_decoder.rs:1282-1307 | Dates take four bytes and date-times twice four, asked for one after the other |
| RowFields.VariableFieldExactly | crates/opensqlany/src/row_decoder.rs:1212-1252 | A variable column stores a length of one byte, or of two for the wide layout and for declared widths at or above the threshold; the largest length is the overflow marker; each failure has its error |
| RowFields.NumericErrorExactly | crates/opensqlany/src/row_decoder.rs:1414-1500 | A numeric that does not decode: what is missing, or its first byte above 99 |
| RowFields.LongWordByBytes | crates/opensqlany/src/row_decoder.rs:1369-1395 | An eight-byte word is its low four bytes plus 2^32 times its high four, each little-endian |
| RowFields.SignByTopBit | crates/opensqlany/src/row_decoder.rs:1337-1367 | A signed field is its unsigned value less 2^(8*width) exactly when its last byte is at least 0x80 |
| RowFields.VariableDecodesExactly | crates/opensqlany/src/row_decoder.rs:1212-1252 | The same for variable columns: length prefix and bytes, or overflow marker and reference, never both |
| RowFields.NumericDecodesExactly | crates/opensqlany/src/row_decoder.rs:1414-1500 | The same for numerics, both layouts |
| RowFields.ReadNumericLegacy | crates/opensqlany/src/row_decoder.rs:1430-1477 | The imperative reader equals the specification of numerics, errors included |
| RowFields.AppendDigits | crates/opensqlany/src/row_decoder.rs:1448-1455 | The digit loop stops at the first byte above 99 and otherwise spells out all digits |
| RowFields.SignedRoundTrip | crates/opensqlany/src/row_decoder.rs:1337-1367 | Every integer in the range of a width reads back from its two's complement bytes |
| RowFields.UnsignedRoundTrip | crates/opensqlany/src/row_decoder.rs:1369-1395 | Every natural number below 256 to the width reads back from its little-endian bytes |
| RowPrefix.PrefixAgreesWithFull | crates/opensqlany/src/row_decoder.rs:1004-1156 | Once a row decodes exactly, for every ordinal the prefix decode succeeds and reports exactly the full decode's non-Boolean columns up to it in order and its present Booleans (all of them for tail layouts, up to the ordinal for inline ones, cutting packed runs), and nothing stays opaque at the last ordinal |
| RowPrefix.PrefixReports | crates/opensqlany/src/row_decoder.rs:1004-1156 | The two reports list every non-Boolean column below the ordinal and every present Boolean (of the whole row for the tail layouts, below the ordinal otherwise), ascending, each with its own number, its identifier in the schema, and the value the full decode gives it |
| RowPrefix.WholePrefixExactly | crates/opensqlany/src/row_decoder.rs:1004-1156 | The two decoders accept the same rows: a row decodes exactly if and only if the prefix decode through the last ordinal succeeds and leaves nothing opaque |
| RowPrefix.OpaqueMiddleShrinks | crates/opensqlany/src/row_decoder.rs:1149-1153 | The opaque middle never grows with the ordinal |
| RowPrefix.FieldsAgree | crates/opensqlany/src/row_decoder.rs:1053-1120 | The prefix loop collects the full decode's values below the ordinal and never overlaps the tail |
| RowPrefix.TailAgrees | crates/opensqlany/src/row_decoder.rs:1121-1142 | What is collected from the tail is what the full decode reports for its columns |
| RowPrefix.DecodeRowPrefixAndBooleanTail | crates/opensqlany/src/row_decoder.rs:1004-1156 | The imperative prefix decode equals its specification, errors included |
| RowPrefix.CollectFields | crates/opensqlany/src/row_decoder.rs:1053-1120 | The prefix loop, item by item |
| RowPrefix.CollectRun | crates/opensqlany/src/row_decoder.rs:1085-1101 | A packed run is reported up to the ordinal |
| MaterializedRow.MaterializedDecodesExactly | crates/opensqlany/src/row_decoder.rs:1166-1203 | Succeeds if and only if the input is one whole unflagged segment of at most 8189 payload bytes whose rebuilt direct row decodes exactly, with that row's result and a decoded size one less than the input |
| MaterializedRow.OversizedNeverDecodes | crates/opensqlany/src/row_decoder.rs:1190-1202 | A payload whose direct row needs more than thirteen size bits never decodes, so it is never read as a shorter row |
| MaterializedRow.DecodeMaterializedRowRecordExact | crates/opensqlany/src/row_decoder.rs:1166-1203 | The method and its errors |
| Decimals.DecimalIsExact | crates/opensqlany/src/row_decoder.rs:1430-1477 | Coefficient over 10^scale equals the base-100 number times 100^(exponent-0xC0); the coefficient has no superfluous leading zero if and only if some digit is nonzero or the exponent is at most 0xC0 |
| Decimals.ZeroCanHaveLeadingZeros | crates/opensqlany/src/row_decoder.rs:350-351 | The field's documented canonical form fails for digit zero under exponent 0xC1, whose coefficient is `000` |
| Decimals.ShortFormIsExact | crates/opensqlany/src/row_decoder.rs:1437-1446 | The one-byte form is the signed distance from 0x80, never a negative zero |
| Decimals.PlainStringReadsBack | crates/opensqlany/src/row_decoder.rs:358-378 | The rendering has exactly `scale` fraction digits and at least one integer digit, an independent reader gets the same number back, and no minus precedes the coefficient `0` |
| Decimals.SignificantDigitsExact | crates/opensqlany/src/row_decoder.rs:1448-1461 | Trimming the zero-padded digit pairs keeps the base-100 value |
| Calendar.DateOfDayInverted | crates/opensqlany/src/row_decoder.rs:401-417 | Every day number, negative ones included, becomes a valid Gregorian date whose independently counted day number is the original |
| Calendar.DateOfDayIsInverse | crates/opensqlany/src/row_decoder.rs:401-417 | And every valid date comes back from its day number |
| Calendar.MinutesFollowTheCalendar | crates/opensqlany/src/row_decoder.rs:396-417 | Minute 0 is 29 February 1600, the 1440 minutes of a floor-divided day share one date, and the next day has the next calendar date |
| Calendar.NextDateNumber | crates/opensqlany/src/row_decoder.rs:400-417 | Calendar succession adds one to the day count, so the count numbers the valid dates without gaps |
| Calendar.DayNumberInjective | crates/opensqlany/src/row_decoder.rs:400-417 | A day number belongs to one date |
| Calendar.YearOfEraCorrect | crates/opensqlany/src/row_decoder.rs:409-411 | The year formula finds the March year of every day of a 400-year era, and day 365 only in leap years |
| Calendar.MonthOfYear | crates/opensqlany/src/row_decoder.rs:412-415 | The month formula gives a valid date with the right day count |
| Calendar.DaysBeforeYearClosedForm | crates/opensqlany/src/row_decoder.rs:409-411 | Adding up years one at a time equals the leap-year count, before year 0 too |
| RowSegment.WalkRowSegmentChain | crates/opensqlany/src/row_segment.rs:405-495 | Succeeds exactly when following continuations gives a finite chain of exact segments with distinct targets within both limits, and returns that chain with its payload sum; otherwise reports how far it got and the one reason that fits; says which targets the resolver was asked for, in order, on success and on every failure |
| RowSegment.FailureUnique | crates/opensqlany/src/row_segment.rs:405-495 | The failure is determined: two failing walks within the limits have the same path and the same reason |
| RowSegment.ReasonUnique | crates/opensqlany/src/row_segment.rs:405-495 | After one path at most one reason fits |
| RowSegment.FailedWalkIsMaximal | crates/opensqlany/src/row_segment.rs:405-495 | No walk within the limits goes further than a failed one |
| RowSegment.CompleteChainUnique | crates/opensqlany/src/row_segment.rs:405-495 | There is at most one complete chain |
| RowSegment.WalkIsPrefix | crates/opensqlany/src/row_segment.rs:405-495 | Every partial walk is a prefix of it |
| RowSegment.FailureRulesOutChains | crates/opensqlany/src/row_segment.rs:405-495 | Each failure reason rules out every complete chain within the limits |
| RowSegment.ParseReadsEncoded | crates/opensqlany/src/row_segment.rs:502-532 | A well-formed segment followed by anything parses to its own flags, target and payload |
| RowSegment.ParsedIsEncoded | crates/opensqlany/src/row_segment.rs:502-532 | Whatever parses is such a segment |
| RowSegment.ContinuedReadsBack | crates/opensqlany/src/row_segment.rs:502-532 | With flag bit 0x04 set, whatever the other seven: a size, the flags, a four-byte key, a two-byte record and a payload parse to that target and payload, followed by anything |
| RowSegment.FinalReadsBack | crates/opensqlany/src/row_segment.rs:502-532 | With flag bit 0x04 clear: a size, the flags and a payload parse to no target and that payload |
| RowSegment.RefusedExactly | crates/opensqlany/src/row_segment.rs:502-525 | Parsing fails exactly for fewer than three bytes, a size below the nine or three header bytes that bit 0x04 selects, or a size beyond the input, each with its error |
| RowSegment.WrittenChainIsComplete | crates/opensqlany/src/row_segment.rs:405-495 | Any list of segments written with the targets of their successors, the last one without, is a complete chain |
| Bytes.LittleEndian | crates/opensqlany/src/row_segment.rs:63-69 | The bytes of the words that written segments and blocks use, low byte first |
| Slotted.FindSlotDirectory | crates/opensqlany/src/slotted.rs:251-275 | The result is the preferred one of all directories that the page bytes store, by live slots, then total slots, then the earlier start, then little-endian before big-endian, and nothing only when the page stores none |
| Slotted.ScanFrom | crates/opensqlany/src/slotted.rs:191-249 | The greedy scan finds the longest admissible run from its start, and rejects exactly when that run is no directory |
| Slotted.CandidateExactly | crates/opensqlany/src/slotted.rs:191-249 | A scan accepts exactly what the page stores: at least eight live words in 32..4080, read high or low byte first, strictly descending, the first one live, zero words in between, inside the first 768 bytes, ending at or before the lowest row, followed by a word that does not go on with it, and possibly one zero word in front |
| Slotted.BestExactly | crates/opensqlany/src/slotted.rs:251-275 | The best of all trials is the preferred stored directory, and none is found exactly when none is stored |
| Slotted.StuckRunIsLongest | crates/opensqlany/src/slotted.rs:210-226 | A run that its next word cannot extend is longer than every other run |
| Slotted.CandidateUnique | crates/opensqlany/src/slotted.rs:191-249 | A start and byte order admit at most one directory |
| Slotted.RowSlots | crates/opensqlany/src/slotted.rs:101-139 | One row per live slot that has room, in slot order with its own index, ending at the next higher live offset |
| Slotted.CollectBounds | crates/opensqlany/src/slotted.rs:115-125 | The loop over the sorted offsets bounds exactly the offsets that have a row, repeated ones included |
| Slotted.BoundsAreComplete | crates/opensqlany/src/slotted.rs:126-138 | A live offset has a bound exactly when it has a row, even if the directory repeats it |
| SlotSlicing.RowsPartitionPage | crates/opensqlany/src/slotted.rs:101-139 | For every stored directory each of its eight or more live slots has one row, with its own index and offset, and the rows joined in reverse slot order are exactly the page bytes from the lowest offset, which is not before the end of the directory, to the trailer at 4080 |
| SlotSlicing.RowsJoin | crates/opensqlany/src/slotted.rs:101-139 | The rows of the first slots join without gap or overlap |
| SlotSlicing.SlicersAgree | crates/opensqlany-cli/src/main.rs:273-303 | For every directory, with repeated, unordered or out-of-range offsets too, the command line's rows without the empty ones are the library's rows |
| SlotSlicing.SlotRows | crates/opensqlany-cli/src/main.rs:273-303 | The position-based slicer shows for every entry the row that the boundary definition gives it |
| SlotSlicing.EntryRowExact | crates/opensqlany-cli/src/main.rs:286-299 | The entry after an offset's position among the sorted distinct offsets ends its row |
| PageLinks.WalkPageLinks | crates/opensqlany/src/page_links.rs:140-183 | Visited pages are distinct, each the in-range link of the one before, at most the limit, and the stop reason is the true one |
| PageLinks.SmallerLimitIsPrefix | crates/opensqlany/src/page_links.rs:140-183 | A smaller limit gives a prefix of a larger one's walk, and a walk that stopped by itself does not depend on the limit |
| PageLinks.StoppedWalkIsMaximal | crates/opensqlany/src/page_links.rs:140-183 | A walk that stopped before its limit is the longest list of linked pages |
| PageLinks.LimitStopsExactly | crates/opensqlany/src/page_links.rs:140-183 | For every page count: some walk over validated links ends with the limit if and only if the limit is zero, below the page count, or equal to a page count of at least three |
| PageLinks.LimitAboveCountNeverReached | crates/opensqlany/src/page_links.rs:140-183 | Pigeonhole: with validated links no other limit is ever what stops a walk |
| PageLinks.StoreLimitReached | crates/opensqlany/src/page_links.rs:63-183 | Each of those limits does stop a walk over the bytes of a store, for every page count that fits page numbers |
| PageLinks.BlockReadsBack | crates/opensqlany/src/page_links.rs:63-108 | A written block is found, whatever its flag, gap bytes and the bytes after it: flag 1 links to a page other than 0 and itself below the page count, flag 1 with any other target is invalid, and every other flag means no link |
| PageLinks.BlockIsWritten | crates/opensqlany/src/page_links.rs:63-108 | And whatever is taken for a block has those 34 bytes |
| PageLinks.TargetExactly | crates/opensqlany/src/page_links.rs:91-99 | The three cases of a flag and a target, for every page count |
| PageLinks.StoreWalkEnds | crates/opensqlany/src/page_links.rs:63-183 | Over the pages of any store, the two functions together end for a reason of the pages' own unless the limit is one of those |
| PageLinks.StoreLookupIsValidated | crates/opensqlany/src/page_links.rs:91-99 | Links found in a store are in range, never page 0 and never the page itself |
| PageLinks.FindPageLinkMetadata | crates/opensqlany/src/page_links.rs:63-108 | The block with the least offset, and nothing exactly when no offset holds one or the page number is out of range |

## Left out

- PagePermutation.KeyInversion: leaves out the key -2147483648, which has no opposite among 32-bit integers.
- PagePermutation.NextInActiveRange: masks with a power-of-two length are written as remainders by that length.
- RowSegment.WalkRowSegmentChain: the resolver is a pure function of the target, one fixed context as its documentation demands; a resolver with state of its own is not modelled.
- PageLinks.WalkPageLinks: the lookup is a pure function of the page.
- ApModel.MostVoted: hash-map order is an arbitrary choice among the most voted candidates.
- ApModel.FullPurity: the floating-point purity test against 1.0 is the exact count of hits.
- ApStream.RecoverStepConfidence: the two fractions are exact ratios; their rounding to `f64` is not modelled.
- `RowFields`: the readers advance a cursor by reference in the source; here they return the new cursor as a value.
- `ApModel::learn`, `bv_at` and `recover_bv_for_block`: block-level voting over the same per-sector reasoning.
- `store.rs` and `page.rs`: file access, checksums and page-type tables.
- `superblock.rs` and `materialized_page.rs`: they read header fields at fixed offsets and slice records whose bounds were checked when the page was parsed.
- The legacy catalog schemas, domain identifiers, `Display` and error texts.
- `overflow_prefix` and `row_bytes` of slotted pages: projections of what is modelled.
- The rest of the command line and the documentation site: user interface.
