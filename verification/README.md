# Verified core of tantivy

A Dafny model of the parts of tantivy where correctness rests on arithmetic, protocols or tree
rewriting rather than on plumbing, with machine-checked proofs about all inputs and all runs.

- **Bit packing.** The writer with its 64-bit carry buffer, the one-value reader with its
  zero-padded tail, the range reader with its five decode regimes and unchecked eight-byte loads,
  the ramp/highway/ramp batch reader and the value-range search, and the growable blocked sequence.
  Every reader is compared with one reference: value i of width w is the window of w binary digits
  that starts at digit i * w of the little-endian number of the bytes (`BitUnpacking.ValueAt`).
- **Bitsets.** One-word sets, the fixed-capacity bitset with its cached length, and the reader of its
  serialized form. All of them refine a mathematical set (`BitSets.Elements`).
- **Document cursors.** The default methods of a docset over any strictly increasing sequence of ids,
  1024-wide bitmask windows, leapfrog intersection of any cursors that keep the `seek_danger` protocol,
  and the two ways of counting an intersection.
- **Memory accounting.** The guards that share one atomic counter, as a state machine whose steps
  interleave freely, and as objects whose methods are runs of those steps.
- **Queries.** From a flat operand list to nested clauses, the rewrite pass, what both mean for the
  matching documents under either default label, the loops and the recursive grammar of the
  error-recovering parser, and the proof that it reads back every query that is written out as text.
- **Codecs and order-preserving maps.** Variable-length integers, the binary serialization of values
  built from integers, booleans, pairs and vectors, the map from floats to integers, and the
  renumbering of dictionary ids by rank.

Conventions. Machine words are natural numbers below an explicit bound (`U8`, `U32`, `U64`); shifts,
masks and bit operations are defined on naturals in `Bits.dfy` and related to `/`, `%` and powers of
two there. Anything the code updates in place is a class, an array or a reassigned sequence;
expressions are functions. A condition under which the code panics is a precondition; where only a
build with overflow checks panics, the unchecked arithmetic is modelled. Automatic
induction is switched off on every lemma, so that each proof is its body.

Files: `Collections`, `Bits` (shared); `BitPacker`, `BitUnpacker`, `RangeReader`, `BatchReader`,
`BlockedBitpacker`, `BlockedRuns`; `TinySet`, `BitSet`, `ReadOnlyBitSet`; `DocSet`, `BlockWindow`, `Intersection`,
`DenseCount`; `AggLimits`; `QueryAst`, `Independence`, `Aggregate`, `AggregateMeaning`, `DefaultOccur`, `Rewrite`,
`RewriteMeaning`, `Pipeline`, `Lenient`, `LenientGrammar`, `QueryText`, `SetText`, `PlainGrammar`; `VInt`, `VIntU32`,
`Serialize`; `OrderedBits`; `Dictionary`.

## Where the code and its promise part

Each of these is stated with the exact condition under which the promise holds.

- `get_range` casts the index to `u32` on the path it takes near the end of the data. It decodes the
  requested values on all data if and only if `IndexFits`: the range ends at or below 2^32, or that
  path is not taken, or the width or the length is 0 (`RangeReading.RangeCorrectIff`).
- The comment on the entrance ramp says it ends at the closest multiple of 8 at or above the start;
  that is so if and only if the start is not a multiple of 8 (`BatchReading.RampReachesClosest`). The
  batch reader is right either way.
- `get_batch_u32s` computes the end of the first block in `u32` even for short requests. Near 2^32 a
  build with overflow checks panics on it; an unchecked build cuts a ramp off an output that is too
  short, and panics, if and only if that end does not fit and the request does not fill the ramp
  (`BatchReading.RampFitsExact`).
- The stored block offset is the offset that was given if and only if that is below 2^56
  (`BlockedBitpacking.MetaDataRoundTrip`).
- A public `flush` of a partial block makes `iter` yield more elements than were added; it yields the
  added values if and only if every block is full (`BlockedBitpacking.BlockedBitpacker.Iter`). For every
  sequence of adds and flushes, `get` returns the added value at every index whatever the values are if
  and only if nothing is added after the flush of a partial block (`BlockedRuns.ReadsExact`).
- `fill_bitset_block` takes the sentinel TERMINATED for a document if and only if its window reaches
  past TERMINATED and no document is left at or above its start. Chaining windows and the dense
  intersection count are proved right in spite of it.
- `BitSet::clear` leaves the cached length: the bitset stays valid if and only if it was empty.
  Intersecting with fewer words keeps the length right if and only if no element lies beyond them.
- In the aggregated query an operand marked `+` that stands alone between ORs becomes mandatory. With
  explicit operators and independent operands, the query means "some AND run is satisfied" if and only
  if there is no such operand and no leading AND before a lone operand
  (`AggregationMeaning.RunMeaningExact`). What it means for every operand list, with operators written
  or not, is `AggregationMeaning.AggregateMeaning`.
- The rewrite pass turns the choice `a (-b)` into the obligation `a -b`. On trees with independent
  leaves it preserves the matching documents if and only if `Harmless` holds of the query: in every
  clause that can influence the result, an unlabelled clause of one child that ends in a Must or
  MustNot has only MustNot siblings (`RewritingMeaning.RewriteExact`). For trees with repeated leaves,
  `Careful` is a condition on the query that suffices (`RewritingMeaning.CarefulPreserves`).
- Reading a string stops silently at the end of the data: the result is the string that was written
  if and only if none of its bytes is missing (`BinarySerialization.StringTruncation`).
- The map from floats to integers tells -0 from +0; otherwise it follows the real order
  (`OrderedBits.F64OrderOnFinite`).

## Model

| member | source | states |
|---|---|---|
| BitPacking.BitPacker.Write | bitpacker/src/bitpacker.rs:25-47 | for every width 0..64 and in-range value, emitted bytes and new carry together are the old carry with the value stacked on top |
| BitPacking.BitPacker.Flush | bitpacker/src/bitpacker.rs:49-58 | the carry leaves on the fewest bytes that hold it and the packer is empty again |
| BitPacking.WriteAll | bitpacker/src/bitpacker.rs:25-47 | after any run of writes with mixed widths, output plus carry is the little-endian bit concatenation of all values |
| BitPacking.Pack | bitpacker/src/bitpacker.rs:25-64 | a complete run emits the concatenation on ceil(bits / 8) bytes |
| BitPacking.BitConcatWindow | bitpacker/src/bitpacker.rs:25-47 | every value of the concatenation is the window of digits at the sum of the widths before it |
| BitUnpacking.BitUnpacker.New | bitpacker/src/bitpacker.rs:79-90 | the mask has exactly the low digits of the width set, for all legal widths including 64 |
| BitUnpacking.GetReads | bitpacker/src/bitpacker.rs:97-112 | the one-value reader returns the reference value on the fast path and on the tail |
| BitUnpacking.SlowPathReads | bitpacker/src/bitpacker.rs:218-227 | the zero-padded tail read returns the digits of the data |
| BitUnpacking.LoadHoldsBound | bitpacker/src/bitpacker.rs:168-206 | the widths of each regime fit 8, 4, 2 or 1 values plus leading bits into one 64-bit load |
| BitUnpacking.Decode | bitpacker/src/bitpacker.rs:153-213 | value i of an eight-byte load is the reference value i places later |
| RangeReading.GetRange | bitpacker/src/bitpacker.rs:118-213 | every output is the reference value at its index, which the tail path takes modulo 2^32; every unchecked load lies inside the data |
| RangeReading.FillNearTail | bitpacker/src/bitpacker.rs:142-147 | the fallback reads each index after its cast to u32 |
| RangeReading.FillByEight | bitpacker/src/bitpacker.rs:168-181 | 64 outputs of at most 8 bits, eight per load, are the reference values |
| RangeReading.FillByFour | bitpacker/src/bitpacker.rs:182-212 | chunks of four on one, two or four loads and the remainder are the reference values |
| RangeReading.RangeWraps | bitpacker/src/bitpacker.rs:142-147 | whenever the cast loses bits, some data makes the range reader return a wrong value |
| RangeReading.RangeCorrectIff | bitpacker/src/bitpacker.rs:118-213 | the range reader is right on all data of a given length exactly when the index fits |
| BatchReading.EntranceRampLen | bitpacker/src/bitpacker.rs:267-269 | the ramp has 1 to 8 values and ends on a multiple of 8 |
| BatchReading.RampReachesClosest | bitpacker/src/bitpacker.rs:264-267 | it ends on the closest multiple of 8 at or above the start exactly when the start is not aligned |
| BatchReading.RampFitsExact | bitpacker/src/bitpacker.rs:269-281 | with unchecked u32 arithmetic the ramp is cut inside the output exactly when the first block end fits in u32 or the request fills the ramp |
| BatchReading.SliceValue | bitpacker/src/bitpacker.rs:283-293 | a reader started on a byte boundary sees the same values, so each highway block can be decoded from its own offset |
| BatchReading.Highway | bitpacker/src/bitpacker.rs:283-293 | every 32-value block starts on a byte boundary and decodes to the reference values |
| BatchReading.GetBatchU32s | bitpacker/src/bitpacker.rs:235-298 | ramps and 32-value blocks together are the reference values for every start, length and width up to 32 |
| BatchReading.MatchingIdsExact | bitpacker/src/bitpacker.rs:319-335 | the listed ids are exactly those whose value lies in the range, ascending |
| BatchReading.FilterVecInPlace | bitpacker/src/filter_vec/scalar.rs:3-13 | the branchless in-place filter leaves exactly the matching ids |
| BatchReading.GetIdsForValueRangeSlow | bitpacker/src/bitpacker.rs:319-335 | an id is returned exactly when it lies in the id range and its value in the value range, once and ascending |
| BatchReading.GetIdsForValueRangeFast | bitpacker/src/bitpacker.rs:337-347 | the same of the batch search |
| BatchReading.ClampHarmless | bitpacker/src/bitpacker.rs:307-316 | clamping the bounds to u32 does not change which ids of values of at most 32 bits are returned |
| BatchReading.GetIdsForValueRange | bitpacker/src/bitpacker.rs:300-317 | the same of the search that chooses between them, also when the bounds exceed u32 |
| BatchReading.PackedValue | bitpacker/src/bitpacker.rs:97-112 | bytes that start with the packed values, whatever follows, read back value i |
| BatchReading.PackAndGet | bitpacker/src/bitpacker.rs:25-112 | packing at one legal width and reading index i returns value i, on the tail too |
| BlockedBitpacking.ComputeNumBits | bitpacker/src/lib.rs:34-37 | the least width the reader accepts that holds the value |
| BlockedBitpacking.MinMax | bitpacker/src/lib.rs:48-69 | none exactly when no value is comparable, otherwise elements that bound all comparable ones; NaN is skipped |
| BlockedBitpacking.MetaDataRoundTrip | bitpacker/src/blocked_bitpacker.rs:35-52 | offset, width and base come back, the offset exactly when below 2^56 |
| BlockedBitpacking.BlockStable | bitpacker/src/blocked_bitpacker.rs:90-124 | rewriting the padding and appending blocks does not disturb an earlier block |
| BlockedBitpacking.FreshBlock | bitpacker/src/blocked_bitpacker.rs:90-124 | a freshly packed block decodes to its values wherever it starts, with eight readable bytes after it |
| BlockedBitpacking.BlockedBitpacker.constructor | bitpacker/src/blocked_bitpacker.rs:66-72 | starts empty, with eight bytes of padding |
| BlockedBitpacking.BlockedBitpacker.Add | bitpacker/src/blocked_bitpacker.rs:83-88 | appends one value, keeps all earlier ones and packs full blocks only |
| BlockedBitpacking.BlockedBitpacker.Flush | bitpacker/src/blocked_bitpacker.rs:90-124 | keeps the contents; all blocks stay full exactly when the buffer was empty |
| BlockedBitpacking.BlockedBitpacker.Pack | bitpacker/src/blocked_bitpacker.rs:90-124 | the buffer becomes one block of minimal legal width above its minimum |
| BlockedBitpacking.PackedRead | bitpacker/src/blocked_bitpacker.rs:126-138 | a read in a block has eight bytes, never overflows when the base is added and returns the value |
| BlockedBitpacking.GetIsContents | bitpacker/src/blocked_bitpacker.rs:126-138 | while only the last block may be partial, and nothing follows it, get(i) is the i-th added value |
| BlockedBitpacking.BlockedBitpacker.Iter | bitpacker/src/blocked_bitpacker.rs:140-147 | yields 128 reads per block and then the buffer; these are the added values exactly when every block is full |
| BlockedBitpacking.IterLengthExact | bitpacker/src/blocked_bitpacker.rs:140-147 | the number of visited elements is right exactly when every block is full |
| BlockedRuns.AddAll | bitpacker/src/blocked_bitpacker.rs:83-88 | any run of adds holds the whole sequence in full blocks and a buffer |
| BlockedRuns.Run | bitpacker/src/blocked_bitpacker.rs:83-124 | any run of adds and flushes holds the added values, cut into blocks as the operations say |
| BlockedBitpacking.ConstantBlockRead | bitpacker/src/blocked_bitpacker.rs:126-138 | every position up to 128 of a block of equal values reads as that value, also beyond a partial block |
| BlockedBitpacking.FirstAfter | bitpacker/src/blocked_bitpacker.rs:83-124 | the value added after a partial block behind full ones has the index of the first position the block does not fill |
| BlockedBitpacking.PartialBlockMisreads | bitpacker/src/blocked_bitpacker.rs:126-138 | after a partial block of equal values the next added value is read as the value of the block |
| BlockedRuns.QuietIsSealed | bitpacker/src/blocked_bitpacker.rs:83-124 | when nothing is added after the flush of a partial block, only the last block is partial and the buffer is empty |
| BlockedRuns.LoudRunMisreads | bitpacker/src/blocked_bitpacker.rs:83-138 | every sequence of adds and flushes with an add after the flush of a partial block misreads some values, however they are represented |
| BlockedRuns.ReadsExact | bitpacker/src/blocked_bitpacker.rs:83-138 | for every sequence of adds and flushes, every index reads right for all values exactly when nothing is added after the flush of a partial block |
| BlockedRuns.PartialFlushMisreads | bitpacker/src/blocked_bitpacker.rs:90-138 | the smallest instance: after adding 5, flushing and adding 7, index 1 reads 5 |
| TinySets.MembersUnion | common/src/bitset.rs:141-143 | union of words is union of sets |
| TinySets.MembersIntersect | common/src/bitset.rs:93-95 | conjunction of words is intersection of sets |
| TinySets.MembersComplement | common/src/bitset.rs:74-76 | negation of the word is the complement below 64 |
| TinySets.MembersInsert | common/src/bitset.rs:107-109 | insert adds one element |
| TinySets.MembersRemove | common/src/bitset.rs:114-116 | remove takes away one element |
| TinySets.ContainsIsMember | common/src/bitset.rs:80-82 | the mask test is membership |
| TinySets.ChangedWhenNew | common/src/bitset.rs:122-136 | the word changes exactly when the element is new, respectively present |
| TinySets.LenIsCardinality | common/src/bitset.rs:86-88 | the population count is the cardinality |
| TinySets.PopLowestIsMinimum | common/src/bitset.rs:154-177 | returns the minimum, removes it and nothing else, none exactly on the empty set |
| TinySets.RangeLowerIs | common/src/bitset.rs:183-193 | the two range constructors hold exactly the numbers below, respectively from, the bound |
| TinySets.Drain | common/src/bitset.rs:18-33 | popping until empty lists the members in ascending order |
| BitSets.InsertWord | common/src/bitset.rs:287-294 | updating one word inserts exactly one number into the whole set |
| BitSets.RemoveWord | common/src/bitset.rs:298-303 | updating one word removes exactly one number from the whole set |
| BitSets.SumLenIsCardinality | common/src/bitset.rs:371-375 | the word lengths add up to the cardinality |
| BitSets.BitSet.WithMaxValue | common/src/bitset.rs:228-236 | a valid empty set |
| BitSets.BitSet.WithMaxValueAndFull | common/src/bitset.rs:240-254 | a valid set of all numbers below the capacity, with no padding bit |
| BitSets.BitSet.Insert | common/src/bitset.rs:287-294 | inserts, keeps the length equal to the cardinality, reports change exactly when new, stays valid exactly below the capacity |
| BitSets.BitSet.Remove | common/src/bitset.rs:298-303 | removes and keeps length and padding right |
| BitSets.BitSet.IntersectUpdateWithIter | common/src/bitset.rs:269-275 | intersects over the words the other side has; the length is right exactly when no element lies beyond them |
| BitSets.BitSet.FirstNonEmptyBucket | common/src/bitset.rs:316-322 | the first bucket at or after the given one that holds an element, none exactly when there is none |
| BitSets.BitSet.Clear | common/src/bitset.rs:257-261 | empties the set and keeps the cached length, so it stays valid exactly when it was empty |
| BitSets.ContainsElement | common/src/bitset.rs:307-309 | contains is membership |
| ReadOnlyBitSets.Serialize | common/src/bitset.rs:217-224 | four bytes of capacity and eight little-endian bytes per word |
| ReadOnlyBitSets.ContainsElement | common/src/bitset.rs:402-407 | testing one bit of one byte is membership in the set of the words |
| ReadOnlyBitSets.OpenImage | common/src/bitset.rs:362-367 | opening an image gives back capacity and words |
| ReadOnlyBitSets.SerializeAndOpen | common/src/bitset.rs:425-433 | the reader of a serialized bitset agrees with it on set, membership, length and capacity |
| ReadOnlyBitSets.Iter | common/src/bitset.rs:388-398 | lists the elements below the capacity, ascending |
| ReadOnlyBitSets.IntersectBitsets | common/src/bitset.rs:344-359 | the result holds the intersection of the two sets |
| DocSets.DocSet.Seek | src/docset.rs:53-60 | moves forward over exactly the documents below the target and returns the first at or above it |
| DocSets.DocSet.SeekDanger | src/docset.rs:90-111 | found exactly when the target is in the set, otherwise the first later document, also when the cursor is already past the target |
| DocSets.SeekDangerRun | src/docset.rs:90-111 | every strictly increasing run of targets is answered that way |
| DocSets.DocSet.SeekDangerLazily | src/docset.rs:62-89 | any implementation of the protocol: found exactly when in the set, otherwise any bound that passes no document, leaving a cursor that only answers seek_danger |
| DocSets.DocSet.FillBuffer | src/docset.rs:128-139 | the next 64 documents, or all that remain |
| DocSets.CollectByBuffer | src/docset.rs:128-139 | repeated buffers enumerate the remaining documents |
| DocSets.DocSet.Count | src/docset.rs:198-208 | the number of remaining documents that are alive |
| DocSets.DocSet.CountIncludingDeleted | src/docset.rs:215-223 | the number of remaining documents |
| BlockWindows.FillBitsetBlock | src/docset.rs:176-194 | adds exactly the documents of the window, and the sentinel exactly in the phantom case; returns the first document beyond |
| BlockWindows.DrainBlock | common/src/bitset.rs:154-177 | popping every word of a block lists its documents ascending |
| BlockWindows.CollectByWindows | src/docset.rs:176-194 | chaining windows from each returned document enumerates what repeated advance enumerates |
| Intersections.GoToFirstDoc | src/query/intersection.rs:66-79 | terminates with every cursor on the first common document that none had passed |
| Intersections.SortByCost | src/query/intersection.rs:84-92 | the same sets, cheapest first |
| Intersections.Intersection.constructor | src/query/intersection.rs:84-108 | sorts by cost and stands on the first common document that no cursor had passed |
| Intersections.Intersection.SeekFromCandidate | src/query/intersection.rs:131-185 | over any cursors that keep the protocol, terminates with every cursor on the first common document at or above the candidate, or exhausted |
| Intersections.Intersection.AlignOthers | src/query/intersection.rs:148-176 | either every cursor stands on the candidate, or the candidate may move up to a bound below which nothing is common |
| Intersections.Intersection.SeekDanger | src/query/intersection.rs:216-229 | keeps the protocol itself: found exactly when the target is common, otherwise a bound that skips no common document |
| Intersections.Intersection.Advance | src/query/intersection.rs:190-196 | the next common document, or TERMINATED |
| Intersections.Intersection.Seek | src/query/intersection.rs:198-210 | the first common document at or above the target |
| Intersections.CountIncludingDeletedSparse | src/query/intersection.rs:288-296 | the number of common documents from the current one on |
| DenseCounting.AndBlocks | src/query/intersection.rs:275-285 | intersects two blocks and tells exactly whether nothing is left |
| DenseCounting.MasksAreCommon | src/query/intersection.rs:303-334 | the ANDed blocks hold exactly the common documents of the window; the sentinel cannot survive |
| DenseCounting.CountWindow | src/query/intersection.rs:307-332 | one round counts the common documents below the next base and skips none |
| DenseCounting.CountIncludingDeletedDense | src/query/intersection.rs:303-336 | the window-by-window count is the number of common documents |
| DenseCounting.CountIncludingDeleted | src/query/intersection.rs:252-268 | the density heuristic chooses between two ways to the same number |
| AggregationLimits.StepConserves | src/aggregation/agg_limits.rs:47-106 | every step of every guard keeps: counter = live tallies plus fetched but untallied bytes, modulo 2^64 |
| AggregationLimits.EveryRunConserves | src/aggregation/agg_limits.rs:47-106 | every interleaving conserves, and the counter is 0 once no guard is live, failed adds or not |
| AggregationLimits.NoUnderflow | src/aggregation/agg_limits.rs:58-65 | below 2^64 the counter is the exact total and a drop subtracts without wrapping |
| AggregationLimits.StepGuarded | src/aggregation/agg_limits.rs:99-126 | whenever the counter is above the limit, some add has failed or is bound to fail |
| AggregationLimits.LimitHolds | src/aggregation/agg_limits.rs:99-126 | in every interleaving an add fails exactly when the total at its own fetch_add exceeds the limit, and if all adds returned Ok the counter is within the limit |
| AggregationLimits.StepIsLocal | src/aggregation/agg_limits.rs:47-106 | a step of one guard changes no other guard and takes away none of its steps |
| AggregationLimits.ManyGuards | src/aggregation/agg_limits.rs:47-56 | cloning reaches any number of idle guards on one counter |
| AggregationLimits.FullOverlap | src/aggregation/agg_limits.rs:99-102 | any number of guards may all have fetched before one goes on, each knowing the counter at its own turn |
| AggregationLimits.GuardFinishes | src/aggregation/agg_limits.rs:58-106 | in every state a guard can finish its add and be dropped, whatever the others are doing |
| AggregationLimits.WindDown | src/aggregation/agg_limits.rs:58-106 | every conserving state can be wound down, and then the counter is 0 |
| AggregationLimits.AggregationLimitsGuard.constructor | src/aggregation/agg_limits.rs:90-97 | a fresh counter and the given or default limits |
| AggregationLimits.AggregationLimitsGuard.Cloned | src/aggregation/agg_limits.rs:47-56 | the clone shares the counter and starts with an empty tally: it is the clone step of the state machine |
| AggregationLimits.AggregationLimitsGuard.AddMemoryConsumed | src/aggregation/agg_limits.rs:99-106 | is the three steps of the state machine in a row; Ok exactly when the counter is within the limit |
| AggregationLimits.AggregationLimitsGuard.Drop | src/aggregation/agg_limits.rs:58-65 | is the drop step of the state machine |
| QueryAst.SingletonClause | query-grammar/src/user_input_ast.rs:246-249 | a clause of one child says what the child says, negated under MustNot |
| QueryAst.ConjunctiveClause | query-grammar/src/occur.rs:8-20 | a clause of Must and MustNot children is a conjunction |
| QueryIndependence.ChosenUniform | query-grammar/src/occur.rs:8-20 | in a tree where no leaf occurs twice, every combination of holding and failing children has a document |
| QueryIndependence.UniformForces | query-grammar/src/occur.rs:8-20 | setting every leaf by the parity of the MustNots above it forces the whole query |
| Aggregation.AggregateInfallibleExpressions | query-grammar/src/query_grammar.rs:943-1055 | the loop over neighbouring operands, its special last operand and the final nesting compute the grouped query; the only error is a leading operator |
| Aggregation.PushLast | query-grammar/src/query_grammar.rs:1014-1034 | the branches for the last operand agree with an operand that has no successor |
| Aggregation.AggregateBinaryExpressions | query-grammar/src/query_grammar.rs:922-941 | the strict entry point never fails |
| AggregationMeaning.GroupsKeepOperands | query-grammar/src/query_grammar.rs:967-1034 | flattening the groups lists every operand once, in order, wrapped at most once in a MustNot |
| AggregationMeaning.AggregationKeepsLeaves | query-grammar/src/query_grammar.rs:943-1055 | the leaves of the query are the leaves of the operands, in order |
| AggregationMeaning.BoundsAreRuns | query-grammar/src/query_grammar.rs:967-1034 | the groups are exactly the maximal AND runs |
| AggregationMeaning.AggregateMeaning | query-grammar/src/query_grammar.rs:943-1055 | for every operand list, whatever its operators and signs: a document matches exactly when it has every mandatory lone operand, no excluded one and, unless one is mandatory or all are excluded, some optional AND run |
| AggregationMeaning.AggregatedShape | query-grammar/src/query_grammar.rs:943-1055 | the whole tree from the operands alone: which runs become which children, in order, and that a child is unlabelled exactly for a lone operand with no sign, no operator before it and no OR after it |
| AggregationMeaning.PlainMeaning | query-grammar/src/query_grammar.rs:989-1009 | without operators: all of `+`, none of `-`, and one of the others unless some are `+` or all are `-` |
| AggregationMeaning.RunMeaning | query-grammar/src/query_grammar.rs:943-1055 | with explicit operators and no ambiguous lone operand, a document matches exactly when some maximal AND run is satisfied |
| AggregationMeaning.AmbiguousMismatch | query-grammar/src/query_grammar.rs:967-1055 | every ambiguous lone operand has a document that satisfies some run and is not matched |
| AggregationMeaning.RunMeaningExact | query-grammar/src/query_grammar.rs:943-1055 | for independent operands that condition is exact |
| AggregationMeaning.PlusBeforeOr | query-grammar/src/query_grammar.rs:993-1009 | `+a OR b` does not match a document that satisfies only b |
| DefaultOccur.ShouldChangesNothing | src/query/query_parser/query_parser.rs:646-691 | filling in Should for missing labels keeps the matching documents of every query |
| DefaultOccur.MarkedAggregated | src/query/query_parser/query_parser.rs:646-691 | filling in Must gives the query in which every operand with neither sign nor operators is marked + |
| DefaultOccur.ConjunctionMeaning | src/query/query_parser/query_parser.rs:286-294 | with conjunction by default, a document matches exactly when it has what those operands ask for |
| DefaultOccur.BareWordsConjoin | src/query/query_parser/query_parser.rs:286-294 | with conjunction by default, operands without signs and operators must all match |
| Rewriting.RewriteAst | query-grammar/src/query_grammar.rs:1157-1189 | the recursive pass with its seen-set and in-place hoisting computes the rewritten tree |
| Rewriting.Retain | query-grammar/src/query_grammar.rs:1169-1170 | the seen-set keeps the first occurrence of every child |
| Rewriting.RewriteKeepsLeaves | query-grammar/src/query_grammar.rs:1157-1189 | the set of leaves of every tree is unchanged |
| Rewriting.RewriteNeverGrows | query-grammar/src/query_grammar.rs:1157-1189 | no tree gets more nodes |
| Rewriting.RewriteIsNormal | query-grammar/src/query_grammar.rs:1182-1189 | no clause of the result has an unlabelled child that is a clause of one, at any depth outside boosts |
| Rewriting.RewriteByChildren | query-grammar/src/query_grammar.rs:1157-1189 | every child of the result is the rewritten child of the query, or the only child of that if it is unlabelled; none is invented or forgotten |
| Rewriting.DedupKeepsOrder | query-grammar/src/query_grammar.rs:1167-1170 | children stay in the order of their first occurrences, once each |
| RewritingMeaning.DedupPreserves | query-grammar/src/query_grammar.rs:1167-1170 | dropping duplicate children preserves the matching documents of every clause |
| RewritingMeaning.HoistPreserves | query-grammar/src/query_grammar.rs:1182-1189 | hoisting preserves them when every obligation has only MustNot siblings |
| RewritingMeaning.RewritePreserves | query-grammar/src/query_grammar.rs:1157-1189 | on every safe tree the pass preserves the matching documents |
| RewritingMeaning.NoRiskyChildIsSafe | query-grammar/src/query_grammar.rs:1157-1189 | a tree where no unlabelled child reduces to a single Must or MustNot is safe |
| RewritingMeaning.Mismatch | query-grammar/src/query_grammar.rs:1157-1189 | every unsafe tree with independent leaves has a document on which the rewritten tree differs |
| RewritingMeaning.RiskyIsObligation | query-grammar/src/query_grammar.rs:1157-1189 | without repeated leaves, what the pass makes mandatory can be read off the query |
| RewritingMeaning.HarmlessIsSafe | query-grammar/src/query_grammar.rs:1157-1189 | without repeated leaves, safety is a property of the query itself |
| RewritingMeaning.RewriteExact | query-grammar/src/query_grammar.rs:1157-1189 | on trees with independent leaves, the pass preserves all documents exactly when every obligation of the query that can be felt has only MustNot siblings |
| RewritingMeaning.CarefulPreserves | query-grammar/src/query_grammar.rs:1157-1189 | on every tree, a condition on the query that makes the pass preserve its documents, duplicates included |
| RewritingMeaning.ChoiceBecomesObligation | query-grammar/src/query_grammar.rs:1845-1848 | the rewritten form of `a (-b)` is `a -b` and rejects a document with both |
| QueryPipeline.NotExcludes | query-grammar/src/query_grammar.rs:1157-1189 | wherever NOT b stands alone with neither sign nor OR, the rewritten query matches no document that matches b |
| QueryPipeline.OrNotStays | query-grammar/src/query_grammar.rs:976-1009 | next to an OR the negation stays a labelled choice |
| QueryPipeline.WordNotWord | query-grammar/src/query_grammar.rs:1845-1848 | `a NOT b` becomes `*a -b` and matches the documents with a and without b |
| LenientParsing.SeparatedListInfallible | query-grammar/src/infallible.rs:267-302 | the loop terminates, returns the recursive reading of the list, a suffix, and positions inside the input |
| LenientParsing.ListFollowsChain | query-grammar/src/infallible.rs:267-302 | the outputs are those of the element parser along the chain of inputs, the errors are theirs in order, and the list ends where the parser consumes nothing |
| LenientParsing.SetFromFits | query-grammar/src/query_grammar.rs:652-707 | every element consumed something, positions lie inside, and either the bracket was consumed or its absence is the last error |
| LenientParsing.SetInfallible | query-grammar/src/query_grammar.rs:652-707 | the loop terminates and returns the recursive reading of the set literal |
| LenientParsing.ReportedWhereRecorded | query-grammar/src/infallible.rs:26-33 | an error recorded with some suffix left to parse is reported where that suffix begins |
| LenientParsing.AstInfallible | query-grammar/src/query_grammar.rs:1107-1125 | spaces, operands and spaces give the aggregated query with all errors in order |
| LenientGrammar.FieldMeaning | query-grammar/src/user_input_ast.rs:276-284 | a group with a default field matches a document as the group matches the document restricted to the field |
| LenientGrammar.LeafFits | query-grammar/src/query_grammar.rs:801-846 | parentheses, stars, NOT, field groups and literals leave a suffix and record positions inside, given literals that do |
| LenientGrammar.AstFitsIn | query-grammar/src/query_grammar.rs:1107-1125 | so does every query, with sub-queries nested to any depth |
| LenientGrammar.Knot | query-grammar/src/query_grammar.rs:898-911 | the list loop run on the operand parser, which calls it again inside parentheses, parses exactly this grammar |
| LenientGrammar.ParseToAstLenient | query-grammar/src/query_grammar.rs:1133-1155 | the rewritten query, every recorded error at its start-based position, what is left over reported where it begins, and exactly the leaves of the parsed operands |
| QueryText.BodyReads | query-grammar/src/query_grammar.rs:801-846 | words, stars, NOT, parentheses and field groups, nested to any depth, are read back from their text without error and with nothing else consumed |
| QueryText.ItemReads | query-grammar/src/query_grammar.rs:873-920 | so is an operand with its operator, sign and boost |
| QueryText.AllRead | query-grammar/src/query_grammar.rs:1107-1125 | the text of a list of operands is read as exactly these operands, in order and without error |
| QueryText.WrittenMeaning | query-grammar/src/query_grammar.rs:1107-1125 | a written query is read to its end and matches exactly the documents its operands ask for; the only error is a leading operator |
| QueryText.BodyMeaning | query-grammar/src/query_grammar.rs:774-846 | what each kind of operand matches: NOT the complement, a group what its operands ask for, a field group the same on the restricted document |
| QueryText.StrayEnd | query-grammar/src/query_grammar.rs:1141-1147 | a stray closing parenthesis and what follows it are left over |
| QueryText.Unclosed | query-grammar/src/query_grammar.rs:804-815 | with any number of parentheses never closed, the query inside is read and each missing one is recorded at the end |
| QueryText.MissingSpace | query-grammar/src/infallible.rs:90-104 | two groups that touch are both read and the missing space is recorded where the second begins |
| QueryText.NotInText | query-grammar/src/query_grammar.rs:1845-1848 | the text of `u NOT v` is parsed and rewritten into: u, and not v |
| SetText.SetReads | query-grammar/src/query_grammar.rs:652-707 | the text of a set literal is read as its elements, in order and without error; a missing bracket is recorded at the end |
| SetText.TouchingElement | query-grammar/src/query_grammar.rs:659-666 | an element that touches the one before is read and the missing space is recorded |
| VInts.SerializeInto | common/src/vint.rs:177-190 | writes the canonical bytes into the ten-byte buffer and leaves the others alone |
| VInts.SerializeVIntU128 | common/src/vint.rs:7-18 | appends the canonical bytes |
| VInts.VIntMinimal | common/src/vint.rs:177-190 | n bytes exactly when the value needs n groups of seven digits |
| VInts.Deserialize | common/src/vint.rs:201-223 | the loop reads the stream as the recursive decoder does, overlong streams and missing ends included |
| VInts.VIntRoundTrip | common/src/vint.rs:177-223 | decoding an encoding gives the value and leaves trailing bytes alone, at every width |
| VInts.VIntPrefixFree | common/src/vint.rs:177-223 | equal streams have equal heads and equal tails |
| VInts.VIntShortest | common/src/vint.rs:177-223 | no shorter byte string decodes to the value |
| VInts.DecodeExact | common/src/vint.rs:201-223 | every stream: it decodes exactly when some byte has the stop bit, up to the first such byte, to the number its groups hold while they start inside the word |
| VInts.DecodesLocally | common/src/vint.rs:201-223 | what follows the stop byte does not matter |
| VInts.EncodingIsPayload | common/src/vint.rs:177-190 | only the last byte of an encoding has the stop bit, and the groups hold the value |
| VIntsU32.SerializeVIntU32 | common/src/vint.rs:64-112 | the branching encoder returns the canonical bytes and fills the buffer with its word |
| VIntsU32.BranchingIsCanonical | common/src/vint.rs:64-112 | for every u32 the masked and shifted word starts with the canonical bytes |
| VIntsU32.VintLen | common/src/vint.rs:123-130 | the position after the first stop bit |
| VIntsU32.ReadU32VintNoAdvance | common/src/vint.rs:145-154 | value and length are those of the generic decoder at 32 bits |
| VIntsU32.ReadU32Vint | common/src/vint.rs:139-143 | advances past exactly the payload |
| VIntsU32.U32RoundTrip | common/src/vint.rs:64-154 | what the branching encoder writes meets the reader's condition and is read back |
| BinarySerialization.RoundTrip | common/src/serialize.rs:62-232 | every value of every nested type deserializes back with trailing bytes untouched |
| BinarySerialization.Unambiguous | common/src/serialize.rs:62-232 | a stream has one reading |
| BinarySerialization.ScalarBytes | common/src/serialize.rs:74-225 | integers are little-endian, true is 1, and a vector starts with its length |
| BinarySerialization.ItemsInOrder | common/src/serialize.rs:76-82 | the items of a vector follow each other in order |
| BinarySerialization.DecodeSound | common/src/serialize.rs:62-232 | whatever decodes is a value of the type, read off the front, and its encoding is no longer than what was read |
| BinarySerialization.DecodeLocal | common/src/serialize.rs:62-232 | the bytes that were read decide the value, whatever follows them |
| BinarySerialization.FixedDecodeExact | common/src/serialize.rs:111-225 | every stream of a fixed-size type: invalid data if a boolean it holds is neither 0 nor 1, else an unexpected end if it is short, else the value whose encoding begins it |
| BinarySerialization.CutFails | common/src/serialize.rs:62-232 | no proper beginning of an encoding decodes: the error is invalid data inside a variable-length integer and an unexpected end elsewhere |
| BinarySerialization.WriteVInt | common/src/vint.rs:194-198 | a length goes through the ten-byte buffer and arrives as its canonical bytes |
| BinarySerialization.Serialize | common/src/serialize.rs:62-232 | appends the encoding, and a counting writer advances by its length |
| BinarySerialization.NumBytes | common/src/serialize.rs:35-39 | is the length of the encoding |
| BinarySerialization.Deserialize | common/src/serialize.rs:62-232 | consumes exactly one value or fails with the error of the format |
| BinarySerialization.DeserializeItems | common/src/serialize.rs:83-91 | the item loop reads as many items as announced |
| BinarySerialization.StringTruncation | common/src/serialize.rs:243-250 | bytes are read back exactly when none is missing and they are text; when some are missing the beginning is, if that is text |
| OrderedBits.I64OrderIsomorphism | common/src/lib.rs:73-81 | the map on signed integers keeps the order both ways and is inverted by its partner |
| OrderedBits.F64Bijection | common/src/lib.rs:101-118 | the two float maps are inverse bijections on bit patterns |
| OrderedBits.UnitsMonotone | common/src/lib.rs:101-108 | a larger magnitude denotes a larger number, across subnormals and exponent changes |
| OrderedBits.UnitsExact | common/src/lib.rs:101-108 | the numbers that patterns denote: consecutive multiples of the unit up to the second binade, and twice as much for the next exponent |
| OrderedBits.F64OrderOnFinite | common/src/lib.rs:101-108 | on finite floats the image order is the order of the real values, plus -0 before +0 |
| OrderedBits.F64IsTotalOrder | common/src/lib.rs:101-108 | on all patterns the image order is totalOrder, section 5.10 of IEEE 754-2008 |
| Dictionaries.DictionaryBuilder.GetOrAllocateId | columnar/src/dictionary.rs:40-52 | known terms keep their id, a new one gets the next; ids stay distinct and dense |
| Dictionaries.DictionaryBuilder.BuildSortedTerms | columnar/src/dictionary.rs:54-62 | every term once, in byte order, whatever the hash map's order |
| Dictionaries.DictionaryBuilder.BuildTermIdMapping | columnar/src/dictionary.rs:85-92 | every id is sent to the rank of its term |
| Dictionaries.DictionaryBuilder.Serialize | columnar/src/dictionary.rs:66-82 | the same mapping, and the table writer receives the terms strictly ascending |
| Dictionaries.LessIsLexicographic | columnar/src/dictionary.rs:54-62 | a term comes first exactly when it ends, or has the smaller byte, where the two first differ |
| Dictionaries.IndexIsRank | columnar/src/dictionary.rs:54-92 | the position in the sorted list is the number of smaller terms |
| Dictionaries.RankMappingOrders | columnar/src/dictionary.rs:10-14 | to_ord(u) < to_ord(v) exactly when term u sorts before term v; equal only for equal terms |

## Left out

- The SIMD block decoder is its contract (`BatchReading.DecompressBlock`: 32 consecutive values on 4 * w bytes); it belongs to another crate.
- The SIMD variants of the range filter and their runtime selection; the scalar one is modelled.
- BatchReading.GetBatchU32s: leaves out requests that end at 2^32 or beyond, whose end index does not fit in u32.
- BlockedBitpacking.BlockedBitpacker.Add: needs fewer than 2^56 bytes of packed blocks, the bound of the stored offset (`BlockedBitpacking.MetaDataRoundTrip`).
- BlockedBitpacking.BlockedBitpacker.Flush: needs the same bound.
- BlockedBitpacking.BlockedBitpacker.Pack: needs the same bound.
- BlockedRuns.AddAll: needs a run short enough for that bound; so does BlockedRuns.Run.
- DocSets.DocSet.SeekDangerLazily: leaves out bounds that pass a document. The documentation admits TERMINATED on any miss, but an intersection would then end early.
- Costs and size hints of cursors are given numbers; how they are estimated only affects speed.
- Scores, boost values and floating-point aggregation; a boost is a wrapper that preserves matching.
- LenientGrammar.ParseToAstLenient: the character-level parsers of literals, boost suffixes and field names are parameters, required to return suffixes and to record positions inside their input.
- QueryText.BodyReads: words, field names and boost suffixes are any that the given character-level parsers read back before white space, a closing parenthesis, a boost or the end; `PlainGrammar` is an instance.
- The source's own printers of the query tree, and the strict parser apart from its aggregation.
- AggregationMeaning.RunMeaningExact: the exactness needs operands without shared leaves; the meaning of every list is stated without it.
- RewritingMeaning.RewriteExact: the exactness needs a tree without repeated leaves or empty clauses; on other trees only the sufficient direction is stated.
- AggregationLimits.LimitHolds: speaks of runs whose accounted total stays below 2^64; conservation is proved modulo 2^64 without that condition.
- Memory orderings weaker than a total order on the steps of one atomic counter; panics of builds with overflow checks.
- VInts.Deserialize: models the unchecked shift, which takes its amount modulo the width; a checked build panics on a stream longer than any encoding.
- BinarySerialization.StringTruncation: which bytes are valid UTF-8 is a parameter.
- `DateTime`, write errors, capacity limits of vectors and allocation failure.
- The arena hash map and the table writer of the dictionary: a map with arbitrary iteration order and a sequence of keys. Sorting is by insertion.
- `FileSlice`, `OwnedBytes`, JSON path writing, column readers, collectors and index management: mostly I/O and plumbing that would only add easy members.
