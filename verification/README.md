# Verification of little_bigtable

little_bigtable emulates Cloud Bigtable on a SQL store. This project models its algorithmic cores and
proves what they promise:

- **Sketches.** HyperLogLog++ sketches that switch from hash sets to registers and fold registers when
  precision drops (`Sketches`, `SketchLaws`, `Hll`, `SketchCodec`).
- **Keys.** Row-key codecs and the byte order that materialized views rely on (`OrderedInt`,
  `OrderedCode`, `KeyCodec`, `ViewKeys`), and SQL values with their order and hashing keys (`Values`,
  `ValueOrder`).
- **Rows.** Mutations, garbage collection, write requests, batches and the change log (`Columns`, `Gc`,
  `Mutations`, `AggregateCells`, `Rows`, `RowEngine`, `Replay`, `Writes`, `Batches`, `BatchReplay`,
  `WriteLaws`, `Runs`, `SketchReplay`, `Tables`).
- **Queries.** LIKE, key-range pushdown, the executor and the GROUP BY rewrite (`LikePattern`,
  `KeyRanges`, `ExprLaws`, `Exec`, `ExecMeaning`, `ExecLaws`, `OrderBy`, `Pipeline`, `Fingerprints`,
  `GroupBy`).
- **Reads.** Row filters, ReadRows chunks and change streams (`Filters`, `FilterMeaning`,
  `FilterEngine`, `FilterLaws`, `Chunks`, `ChangeStreams`).
- **View refresh.** The protocol around the dirty flag and the refresh lock (`ViewRefresh`).

Values carry the meaning of an operation; classes and methods follow the code that works in place and
are proved against those values. Storage is a map, a transaction is one step, and clock readings,
randomness, regular expressions, the sketch hash and the scalar functions of SQL are parameters.
`dafny verify dfyconfig.toml` checks the project.

Where the code does not do what its comments say or what one would expect, the model follows the code:

- The comment on materialized views says that reads always observe every committed write. While a
  refresh is in flight the fast path can return the view being replaced: `ViewRefresh.FastPathCanBeStale`
  is such a run, and `ViewRefresh.FastPathDuringRefresh` says exactly when it happens.
- The comment on continuation tokens says that no change is skipped. Only the last token's partition is
  read: `ChangeStreams.NeighboursLoseOne`, with the exact condition in `ChangeStreams.NothingSkippedIff`.
- Garbage-collection records cover `[ts, ts+1000)`. For the greatest valid timestamp the end does not
  fit 64 bits, and replaying the record removes nothing: `Replay.CollectionReplays`.
- A batch that repeats a key logs all user changes before all collections, and its log can delete a cell
  that the row keeps: `BatchReplay.RepeatedKeyIsNotReplayed`, `BatchReplay.BatchReplaysIff`.
- Delimited keys are decoded unambiguously exactly when the delimiter does not overlap itself, and keys
  of schemas without fields never decode: `KeyCodec.DelimiterIsSafeIffUnbordered`,
  `KeyCodec.NoFieldsNoRoundTrip`.
- Pushdown can hide an evaluation error on rows that are not scanned:
  `ExecMeaning.PushdownHidesAnError`, `ExecMeaning.PushdownIsInvisibleIff`.
- GROUP BY takes expressions, and rows, that differ in the sign of a zero or in the pattern of a NaN for
  the same: `GroupBy.RewriteConfusesZeros` and `GroupBy.RewriteIff`, `GroupBy.ZerosShareAGroup` and
  `GroupBy.GroupReadsBackIff`.

## Model

| member | source | states |
|---|---|---|
| `Sketches.RhoClosed` | bttest/internal/gsql/hll.go:93-101 | a hash's rank is the number of zeros behind its index bits, plus one, and lies between 1 and 65 - p |
| `Sketches.FoldOfHash` | bttest/internal/gsql/hll.go:123-140 | index and rank at a lower precision are functions of index and rank at the higher one |
| `Sketches.FoldIsRegisters` | bttest/internal/gsql/hll.go:123-141 | folding dense registers gives the registers built directly at the lower precision from the same hashes |
| `Sketches.DowngradeIsCanonical` | bttest/internal/gsql/hll.go:112-142 | downgrading the canonical sketch of a hash set gives its canonical sketch at the lower precision |
| `Sketches.AddIsCanonical` | bttest/internal/gsql/hll.go:82-91 | adding a hash gives the canonical sketch of the set with it |
| `Sketches.JoinIsCanonical` | bttest/internal/gsql/hll.go:169-183 | joining two canonical sketches of one precision gives that of the union |
| `Sketches.HistoryIsCanonical` | bttest/internal/gsql/hll.go:82-184 | any tree of adds and merges at any precisions ends in the canonical sketch of all hashes at the lowest precision: sparse iff within the limit, otherwise maximal ranks |
| `Sketches.SameHashesSameSketch` | bttest/internal/gsql/hll.go:82-184 | histories with the same hashes and lowest precision end in the same sketch |
| `SketchLaws.MergeIsCommutative` | bttest/internal/gsql/hll.go:157-184 | merging is commutative on all valid sketches, also those read from foreign bytes |
| `SketchLaws.MergeIsAssociative` | bttest/internal/gsql/hll.go:157-184 | merging is associative on all valid sketches, at any precisions and in any mix of hash sets and registers |
| `SketchLaws.LowerOfJoin` | bttest/internal/gsql/hll.go:112-142 | lowering precision commutes with joining |
| `SketchLaws.FoldTwice` | bttest/internal/gsql/hll.go:123-140 | folding registers in two steps is folding them in one |
| `SketchLaws.MergeIsIdempotent` | bttest/internal/gsql/hll.go:157-184 | merging a valid sketch with itself changes nothing |
| `SketchLaws.MergedBySet` | bttest/internal/gsql/hll.go:157-184 | of many merges only the set of merged sketches matters, neither order nor repetition |
| `Hll.Hll.constructor` | bttest/internal/gsql/hll.go:59-61 | a new sketch is the empty sparse one |
| `Hll.Hll.Clone` | bttest/internal/gsql/hll.go:144-155 | a copy has the same value and its own registers |
| `Hll.Hll.SetRegister` | bttest/internal/gsql/hll.go:93-101 | in place, the register of the index is raised to the rank and no other changes |
| `Hll.Hll.Densify` | bttest/internal/gsql/hll.go:103-109 | the registers become the maximal ranks of the hash set, whatever the iteration order |
| `Hll.Hll.AddHash` | bttest/internal/gsql/hll.go:82-91 | the object's value is the old one with the hash added |
| `Hll.Hll.Downgrade` | bttest/internal/gsql/hll.go:112-142 | the object's value is the old one lowered to the precision; a higher one changes nothing |
| `Hll.Hll.FoldRegisters` | bttest/internal/gsql/hll.go:123-140 | the folding loop computes the fold of the registers into a fresh array |
| `Hll.Hll.Merge` | bttest/internal/gsql/hll.go:159-184 | the object becomes the merge of both values, the other object is unchanged, and aliasing and nil are allowed |
| `Hll.Hll.MergeRegisters` | bttest/internal/gsql/hll.go:178-182 | registers become pairwise maxima in place |
| `Hll.Hll.Encode` | bttest/internal/gsql/hll.go:239-258 | the bytes written are the encoding of the value |
| `Hll.Hll.Decode` | bttest/internal/gsql/hll.go:261-312 | the object read, or the error message, is what decoding the bytes means |
| `SketchCodec.Sort` | bttest/internal/gsql/hll.go:243-247 | sorting the hashes gives the ascending sequence of the set |
| `SketchCodec.EncodeHashes` | bttest/internal/gsql/hll.go:240-254 | version, precision, sparse mark, count and sorted deltas |
| `SketchCodec.ReadHashes` | bttest/internal/gsql/hll.go:281-291 | the loop reads the announced deltas, wrapping at 64 bits, or reports truncation |
| `SketchCodec.DecodeInvertsEncode` | bttest/internal/gsql/hll.go:239-312 | decoding inverts encoding on every valid sketch, sparse or dense |
| `SketchCodec.DecodeIsValid` | bttest/internal/gsql/hll.go:261-312 | whatever bytes are accepted, the sketch read is valid |
| `SketchCodec.BytesOfHistories` | bttest/internal/gsql/hll.go:239-258 | equal hashes and precision give equal bytes whatever the order of adds and merges, and equal bytes mean equal sketches |
| `Uvarint.RoundTrip` | bttest/internal/gsql/hll.go:276-291 | a varint reads back with the number of bytes it took, whatever follows |
| `Uvarint.PrefixFree` | bttest/internal/gsql/hll.go:248-251 | no varint is the start of another |
| `OrderedInt.EncodeOrder` | bttest/internal/gsql/keycodec.go:415-439 | smaller 64-bit integers have encodings that are smaller at a byte both have |
| `OrderedInt.PrefixFree` | bttest/internal/gsql/keycodec.go:415-439 | at most one integer's encoding starts a given key |
| `OrderedInt.ReadFinds` | bttest/internal/gsql/keycodec.go:443-497 | a key that starts with the encoding of an integer reads as that integer and that length |
| `OrderedInt.AppendOrderedInt64` | bttest/internal/gsql/keycodec.go:415-439 | the buffer-filling encoder appends exactly the encoding |
| `OrderedInt.DecodeOrderedInt64` | bttest/internal/gsql/keycodec.go:443-497 | the decoder accepts a key exactly when it starts with the encoding of the value returned, and returns that length |
| `OrderedCode.JoinOrder` | bttest/internal/gsql/keycodec.go:127-155 | byte order of joined keys is the order of the field tuples, with embedded zero and 0xFF bytes and dropped trailing empty fields |
| `OrderedCode.OrderedCodeJoin` | bttest/internal/gsql/keycodec.go:127-155 | the loop writes the escaped and separated fields up to the last one with content |
| `OrderedCode.SplitInvertsJoin` | bttest/internal/gsql/keycodec.go:127-201 | splitting inverts joining for every tuple of at least one field |
| `OrderedCode.NoFieldsNoRoundTrip` | bttest/internal/gsql/keycodec.go:127-201 | a schema without fields writes 00 00, which never splits back |
| `OrderedCode.SplitLength` | bttest/internal/gsql/keycodec.go:157-201 | a successful split has exactly the fields asked for |
| `OrderedCode.OrderedCodeSplit` | bttest/internal/gsql/keycodec.go:157-201 | the scanning loop computes the split or its error |
| `KeyCodec.FieldRoundTrip` | bttest/internal/gsql/keycodec.go:296-374 | decoding a field inverts encoding it for every value the encoder accepts, null escapes included |
| `KeyCodec.KeyRoundTrip` | bttest/internal/gsql/keycodec.go:97-125 | decoding a key inverts encoding it for every singleton, ordered-code and unbordered delimited schema with a field |
| `KeyCodec.NoFieldsNoRoundTrip` | bttest/internal/gsql/keycodec.go:97-125 | the key of a schema without fields never reads back |
| `KeyCodec.OverlapBreaksRoundTrip` | bttest/internal/gsql/keycodec.go:115-120 | a delimiter that overlaps itself confuses two BYTES fields |
| `KeyCodec.DelimiterIsSafeIffUnbordered` | bttest/internal/gsql/keycodec.go:115-120 | every accepted tuple of every schema survives a delimiter exactly when the delimiter does not overlap itself |
| `KeyCodec.DecodeKeyField` | bttest/internal/gsql/keycodec.go:338-374 | the field decoder computes the declarative decoding of one field |
| `KeyCodec.DecodeKeyInt` | bttest/internal/gsql/keycodec.go:392-407 | both integer encodings are read, and trailing bytes refused |
| `KeyCodec.NextExtent` | bttest/internal/gsql/keycodec.go:241-266 | the extent of the next delimited field: fixed width, up to the delimiter, or the rest |
| `KeyCodec.DecodeDelimitedKey` | bttest/internal/gsql/keycodec.go:232-277 | the loop over delimited fields computes the tuple or its error |
| `Values.TotalPreorder` | bttest/internal/gsql/values.go:131-233 | the comparison is a total preorder on the values of one type, NaN and NULL included |
| `ValueOrder.FloatsByNumber` | bttest/internal/gsql/values.go:216-233 | floats that are not NaN compare as the numbers that sign, exponent and fraction denote |
| `ValueOrder.NaNFirst` | bttest/internal/gsql/values.go:216-224 | NaN comes before every number, and NaNs are alike |
| `ValueOrder.NullFirst` | bttest/internal/gsql/values.go:131-141 | NULL comes before every value |
| `ValueOrder.ScalarsByValue` | bttest/internal/gsql/values.go:143-174 | FALSE before TRUE, integers and times by number, dates by day |
| `ValueOrder.BytesByFirstDifference` | bttest/internal/gsql/values.go:167-170 | strings and bytes are decided by the first byte that differs, or else the shorter is first |
| `ValueOrder.ContainersByFirstDifference` | bttest/internal/gsql/values.go:175-204 | containers are decided by the first element that differs, and otherwise by length |
| `Values.KeyDetermines` | bttest/internal/gsql/values.go:309-368 | key bytes are self-delimiting and identify a value up to the comparison, whatever follows |
| `Values.KeyIffEqual` | bttest/internal/gsql/values.go:305-368 | key bytes are equal exactly when values compare equal |
| `Values.HashedRowsAgree` | bttest/internal/gsql/exec.go:166-175 | concatenated keys of two rows are equal exactly when the rows agree column by column |
| `ViewKeys.FieldKeyOrder` | bttest/internal/gsql/mv.go:66-89 | the bytes of one key field order values as the comparison does |
| `ViewKeys.LessIsKeyThenTime` | bttest/internal/gsql/mv.go:66-76 | the view order is key columns in turn and then newest first |
| `ViewKeys.ViewKeyOrder` | bttest/internal/gsql/mv.go:79-89 | byte order of view keys is the order of their key columns |
| `ViewKeys.ViewOrderIsByteOrder` | bttest/internal/gsql/mv.go:66-89 | sorting view rows is sorting by key bytes, newest first among rows of one key |
| `ViewKeys.DistinctTuplesDistinctKeys` | bttest/internal/gsql/mv.go:79-89 | different key tuples have different view keys and equal ones equal keys |
| `LikePattern.CompileLike` | bttest/internal/gsql/ops.go:730-760 | compilation fails exactly on a dangling backslash, and otherwise the collapsed tokens match exactly what the pattern means |
| `LikePattern.TokensMean` | bttest/internal/gsql/ops.go:730-760 | the tokens of a pattern match exactly what the pattern means |
| `LikePattern.CollapseMeans` | bttest/internal/gsql/ops.go:749-753 | a run of % matches what one % does |
| `ExprLaws.LikeConcat` | bttest/internal/gsql/ops.go:730-801 | a pattern made of two matches exactly the texts made of two that they match |
| `ExprLaws.LikeParts` | bttest/internal/gsql/ops.go:739-760 | % matches anything, _ one character, an escaped or ordinary character itself |
| `LikePattern.Match` | bttest/internal/gsql/ops.go:763-801 | the loop that remembers only the last % terminates and decides the declarative relation |
| `LikePattern.PrefixBounds` | bttest/internal/gsql/ops.go:805-822 | every match starts with the literal prefix, and an exact prefix is the only match |
| `LikePattern.LikePrefix` | bttest/internal/gsql/ops.go:805-822 | the loop computes the literal prefix and whether it is the whole pattern |
| `KeyRanges.PrefixIsRange` | bttest/internal/gsql/pushdown.go:19-28 | the keys with a prefix are exactly those from it up to its successor |
| `KeyRanges.FindPrefixSuccessor` | bttest/internal/gsql/pushdown.go:19-28 | the loop finds the successor, or that there is none |
| `KeyRanges.NormalizeRanges` | bttest/internal/gsql/pushdown.go:46-68 | the result covers the same keys, sorted, disjoint, and without a range that has a bounded empty end |
| `KeyRanges.IntersectRanges` | bttest/internal/gsql/pushdown.go:70-90 | the result covers exactly the keys both cover |
| `KeyRanges.TrueIsReached` | bttest/internal/gsql/pushdown.go:125-250 | no row that a condition makes TRUE is outside the keys that its constraints leave |
| `KeyRanges.RangesFor` | bttest/internal/gsql/pushdown.go:125-250 | there are ranges exactly for conditions that constrain the key, and they cover exactly the keys that the constraints leave |
| `KeyRanges.KeyRanges` | bttest/internal/gsql/pushdown.go:92-102 | the scanned ranges are normalized and cover exactly the keys that the constraints of WHERE leave, or all keys |
| `KeyRanges.SargableIsDecided` | bttest/internal/gsql/ops.go:234-275 | a condition on the key alone raises no error and is TRUE exactly on the keys it leaves |
| `ExprLaws.AndMeans` | bttest/internal/gsql/ops.go:234-253 | FALSE on the left decides AND whatever the right does; otherwise an error on either side is one, and without errors AND is the lesser |
| `ExprLaws.OrMeans` | bttest/internal/gsql/ops.go:255-274 | TRUE on the left decides OR whatever the right does; otherwise an error on either side is one, and without errors OR is the greater |
| `ExprLaws.JunctionsAssociate` | bttest/internal/gsql/ops.go:234-274 | conditions in a row can be grouped in any way, errors and NULL included |
| `ExprLaws.ComparisonMeans` | bttest/internal/gsql/ops.go:281-330 | a comparison fails with its operands, is NULL with them, and otherwise is decided by the first byte that differs |
| `ExprLaws.BetweenMeans` | bttest/internal/gsql/ops.go:608-671 | BETWEEN is two comparisons, except that it fails with any of its operands |
| `ExprLaws.InMeans` | bttest/internal/gsql/ops.go:589-606 | IN is the disjunction of the equalities, except that it fails with any of its operands |
| `ExprLaws.UnnestMeans` | bttest/internal/gsql/ops.go:492-606 | IN UNNEST is that disjunction over the elements, and FALSE for an empty or NULL array |
| `Exec.ScanIsFilter` | bttest/internal/gsql/exec.go:269-279 | visiting normalized ranges in turn is one pass over the rows they cover, in key order |
| `Exec.PushdownIsInvisible` | bttest/internal/gsql/exec.go:42-239 | when WHERE fails on no row, the plan over the ranges emits what it emits over all rows, through grouping, DISTINCT, ORDER BY, OFFSET and LIMIT |
| `Exec.GroupIndex` | bttest/internal/gsql/exec.go:166-175 | the group found is the first with the row's key bytes |
| `ExecMeaning.FullIsFinal` | bttest/internal/gsql/exec.go:322-335 | once the limit is reached further rows change nothing |
| `ExecMeaning.RunMeans` | bttest/internal/gsql/exec.go:42-239 | every run, plain or grouped, of a query or a view, fails exactly when something breaks before the limit is reached, and emits the window of the distinct and sorted rows: streaming and stopping early are invisible |
| `ExecMeaning.SortedSorts` | bttest/internal/gsql/exec.go:337-349 | ORDER BY emits a permutation in order |
| `ExecMeaning.SortedIsStable` | bttest/internal/gsql/exec.go:337-349 | rows that tie keep their order |
| `OrderBy.Compare` | bttest/internal/gsql/aggregates.go:177-206 | the loop compares rows of keys as specified, key by key |
| `OrderBy.OrderMeans` | bttest/internal/gsql/aggregates.go:177-206 | the first key that differs decides: NULL by its own placing, values by the direction |
| `OrderBy.OrderTransitive` | bttest/internal/gsql/aggregates.go:177-206 | under any directions and placings the comparison is transitive on keys of the same types |
| `OrderBy.OrderBySorts` | bttest/internal/gsql/exec.go:337-349 | ORDER BY emits a permutation of the rows in the order of their keys, and ties in the order they came |
| `ExecMeaning.SkippedSortIsInvisibleIff` | bttest/internal/gsql/query.go:324-328 | skipping the sort for ORDER BY _key gives the same rows and outcome exactly unless a row breaks the run after more rows were kept than OFFSET skips |
| `ExecMeaning.DistinctMeans` | bttest/internal/gsql/exec.go:305-314 | DISTINCT keeps exactly one row of every class of rows that agree column by column |
| `ExecLaws.FirstIsKept` | bttest/internal/gsql/exec.go:299-320 | a row stays when the view accepts it and, with DISTINCT, no earlier accepted row has its key bytes |
| `ExecLaws.WindowMeans` | bttest/internal/gsql/exec.go:322-335 | the rows emitted are those behind the offset, at most as many as the limit |
| `ExecLaws.ViewsNeverFail` | bttest/internal/gsql/exec.go:42-239 | recomputing a view never fails, whatever its rows do |
| `ExecLaws.NoRows` | bttest/internal/gsql/exec.go:113-239 | over no rows nothing is emitted, except by an aggregate without GROUP BY, which emits or fails with the result of its start |
| `ExecMeaning.GroupByMeans` | bttest/internal/gsql/exec.go:113-185 | grouping succeeds exactly when no row breaks it and the aggregate of every different key succeeds; the groups are the different keys, in first-seen order, with the aggregates of exactly their rows |
| `ExecMeaning.DistinctKeysMean` | bttest/internal/gsql/exec.go:166-175 | the keys of groups are pairwise different, and every contributing row has one of them |
| `ExecMeaning.PushdownIsInvisibleIff` | bttest/internal/gsql/pushdown.go:92-102 | scanning the ranges of WHERE gives the rows and the outcome of a full scan exactly unless the full scan meets, before the limit, an error outside the ranges and the scan does not break as well before it keeps a further row beyond OFFSET; plain and grouped, with LIMIT |
| `ExecMeaning.PushdownHidesAnError` | bttest/internal/gsql/pushdown.go:92-102 | whatever ranges are found for f(row) AND _key = x, the query fails on a full scan and succeeds with pushdown |
| `ExecMeaning.LimitHidesAnError` | bttest/internal/gsql/exec.go:322-335 | with LIMIT 1 a query succeeds that fails with any other limit or none |
| `Pipeline.Sink.constructor` | bttest/internal/gsql/exec.go:49-54 | a new sink has taken no rows |
| `Pipeline.Sink.Push` | bttest/internal/gsql/exec.go:322-335 | OFFSET rows are skipped, at most LIMIT are emitted, and the result says whether more are wanted |
| `Pipeline.Sink.Add` | bttest/internal/gsql/exec.go:299-320 | view exclusion, DISTINCT and sorting: the sink holds the specified rows after every row, and asks for more exactly until the limit |
| `Pipeline.Sink.Finish` | bttest/internal/gsql/exec.go:337-360 | the output is the window of the sorted rows |
| `Pipeline.Feed` | bttest/internal/gsql/exec.go:58-82 | the row loop does what fetching means, errors included |
| `Pipeline.Join` | bttest/internal/gsql/exec.go:166-183 | one row joins the group of its key bytes through the hash map |
| `Pipeline.Collect` | bttest/internal/gsql/exec.go:113-188 | the grouping loop computes the groups or the error |
| `Pipeline.Flush` | bttest/internal/gsql/exec.go:193-238 | groups are delivered in first-seen order, with HAVING, until the limit |
| `Pipeline.Execute` | bttest/internal/gsql/exec.go:42-239 | the executor emits exactly the rows, and the failure, that the plan means |
| `Pipeline.ScanTable` | bttest/internal/gsql/exec.go:269-279 | the loops visit the rows of the ranges in turn |
| `Pipeline.Query` | bttest/internal/gsql/exec.go:269-279 | the executor over the ranges of its WHERE emits what the plan means on the scanned rows, which is what it means on the whole table when WHERE fails on no row |
| `Fingerprints.SameHashIff` | bttest/internal/gsql/values.go:309-368 | rows have equal key bytes exactly when they agree up to the patterns of their floats |
| `Fingerprints.CanonicalIff` | bttest/internal/gsql/values.go:309-368 | a value is the only canonical one with its key bytes exactly when every float in it is canonical: no negative zero, and one NaN |
| `Fingerprints.AloneIff` | bttest/internal/gsql/values.go:309-368 | a row is the only one with its key bytes exactly when no float in it, however nested, is a zero or a NaN |
| `Fingerprints.PrintDetermines` | bttest/internal/gsql/bind.go:102-137 | a fingerprint, whatever follows it, determines the expression up to the patterns of its floats |
| `Fingerprints.SpecDetermines` | bttest/internal/gsql/aggregates.go:131-159 | so does the specification of an aggregate, with its flags, arguments, orders and limit |
| `Fingerprints.FingerprintIff` | bttest/internal/gsql/bind.go:102-137 | two expressions have one fingerprint exactly when they agree up to the patterns of their floats |
| `Fingerprints.FingerprintIsInjective` | bttest/internal/gsql/bind.go:102-137 | the fingerprint identifies an expression whose floats are canonical |
| `Fingerprints.ZerosShareAFingerprint` | bttest/internal/gsql/bind.go:102-137 | the two zeros are different constants with one fingerprint |
| `GroupBy.RewriteIff` | bttest/internal/gsql/query.go:384-412 | on a group the rewritten expression evaluates as the original does on every row, for all operators, exactly when every match by fingerprint is a match of expressions |
| `GroupBy.CanonicalIsFaithful` | bttest/internal/gsql/query.go:384-412 | with canonical floats every match by fingerprint is a match of expressions |
| `GroupBy.RewritePreservesMeaning` | bttest/internal/gsql/query.go:384-412 | in a hashed group of canonical values the rewritten expression evaluates as the original does on any row with the same aggregates |
| `GroupBy.GroupReadsBackIff` | bttest/internal/gsql/exec.go:166-175 | grouped by its columns, a row reads its own values back from every group it can be hashed into exactly when none of its floats is a zero or a NaN |
| `GroupBy.ZerosShareAGroup` | bttest/internal/gsql/exec.go:166-175 | the smallest failing case: the negative zero is hashed into the group of the other zero, which is read back for it |
| `GroupBy.RewriteConfusesZeros` | bttest/internal/gsql/query.go:384-412 | IEEE_DIVIDE(x, -0.0) is taken for the key IEEE_DIVIDE(x, 0.0), and for every x but zeros and NaNs the infinity of the other sign is read |
| `GroupBy.AcceptsExactlyGrouped` | bttest/internal/gsql/query.go:384-412 | the rewrite accepts exactly the expressions whose columns are all inside keys, up to floats, and its result reads no column |
| `Columns.AppendOrReplaceCell` | bttest/mutation_engine.go:432-442 | the cell replaces the one of its time, or goes where it keeps the column descending |
| `Columns.PutHolds` | bttest/mutation_engine.go:432-442 | afterwards the column holds the new cell and every old one of another time |
| `Columns.PutDescends` | bttest/mutation_engine.go:432-442 | timestamps stay strictly descending |
| `Columns.EraseRange` | bttest/mutation_engine.go:335-343 | the loop removes the cells of a time range; end 0 is no end |
| `Columns.EraseHolds` | bttest/mutation_engine.go:335-343 | exactly the cells outside the range stay |
| `Columns.SortStable` | bttest/filter.go:499 | sorting is the stable sort, newest first |
| `Columns.StableTwice` | bttest/filter.go:343-351 | sorting part of a column first does not change the sorted whole |
| `Gc.DeletesIsMonotone` | bttest/inmem.go:609-644 | an older cell, further back or judged later, is deleted too, for every nested rule |
| `Gc.GcDeletes` | bttest/inmem.go:609-644 | the flag array says of every cell whether the rule deletes it |
| `Gc.DeletedIsSuffix` | bttest/inmem.go:587-644 | in a descending column exactly a suffix is deleted |
| `Gc.NothingIsCollected` | bttest/inmem.go:587-590 | without a rule, and with a union or an intersection of nothing, every cell stays |
| `Gc.AgeKeeps` | bttest/inmem.go:618-622 | a maximal age keeps exactly the cells no older than it |
| `Gc.VersionsKeep` | bttest/inmem.go:612-617 | a number of versions keeps exactly that many newest cells |
| `Gc.UnionKeepsLeast` | bttest/inmem.go:623-628 | a union keeps what the strictest of its parts keeps |
| `Gc.IntersectionKeepsMost` | bttest/inmem.go:629-642 | an intersection keeps what the most lenient of its parts keeps |
| `Gc.ApplyGcAt` | bttest/inmem.go:587-603 | kept and removed are the two parts of the column |
| `Gc.EagerGcIsUnobservable` | bttest/inmem.go:587-644 | whenever the column was collected between writes and expirations, a final collection gives the cells that one collection of the never-collected column gives |
| `Gc.UnobservableIff` | bttest/inmem.go:587-644 | under writes and any deletions this holds for all edits exactly when the rule ignores the position of a cell |
| `Gc.PositionShowsGc` | bttest/inmem.go:587-644 | for every rule that looks at positions, edits after which early collection shows |
| `Gc.AgeOnlyIgnoresPosition` | bttest/inmem.go:609-644 | rules without version counts ignore positions |
| `Names.InsertName` | bttest/inmem.go:666-672 | a new name goes to its sorted place |
| `Names.BeforeMeans` | bttest/inmem.go:657-662 | families are ordered by creation first and then by name, byte by byte |
| `Names.SortNames` | bttest/inmem.go:489-496 | names come in the one order by creation order and name |
| `Names.RemoveName` | bttest/mutation_engine.go:352-357 | removing a name keeps the rest in order |
| `Rows.RepDetermines` | bttest/inmem.go:646-651 | different contents have different representations |
| `Rows.Normalize` | bttest/filter.go:491-509 | the result is the normal form: names and cells sorted, nothing empty |
| `Rows.NormalIsRep` | bttest/filter.go:491-509 | normalizing a row that loosely holds a content gives the one representation of that content |
| `Mutations.ApplyKeepsRowGood` | bttest/mutation_engine.go:281-327 | a validated mutation keeps known families, nonempty columns and valid, strictly descending timestamps |
| `Mutations.Store` | bttest/mutation_engine.go:347-360 | one column is replaced, an empty one removed, and all others stay |
| `RowEngine.Row.constructor` | bttest/inmem.go:440-445 | a new row is empty |
| `RowEngine.Row.Copy` | bttest/inmem.go:449-464 | a copy holds the content of the stored row |
| `RowEngine.Row.GetOrCreateFamily` | bttest/inmem.go:498-507 | the family of that name, or an empty one with the schema's order |
| `RowEngine.CellsByColumn` | bttest/inmem.go:666-672 | the column name is added in order and the column's cells returned |
| `RowEngine.Row.SetCell` | bttest/mutation_engine.go:285-290 | one column gets the cell and the representation invariant holds |
| `RowEngine.Row.DeleteFromColumn` | bttest/mutation_engine.go:329-361 | the range, or the column, is deleted; empty columns and families disappear |
| `RowEngine.Row.DeleteFamily` | bttest/mutation_engine.go:298-300 | one family is gone and the others stay |
| `RowEngine.Row.SortedFamilies` | bttest/inmem.go:489-496 | families come by creation order, then by name |
| `RowEngine.Row.ApplyAggregate` | bttest/mutation_engine.go:363-430 | the aggregate cell at the time gets the combined value; a corrupt sketch fails and changes nothing |
| `RowEngine.Row.ApplyMutations` | bttest/mutation_engine.go:281-327 | the row and the recorded changes are those the mutation list means; the first failure fails the list |
| `RowEngine.Row.GcWithChanges` | bttest/inmem.go:516-547 | the row is collected and the changes list one deletion per removed cell in family, column and time order |
| `RowEngine.RecordRemoved` | bttest/inmem.go:534-542 | one deletion over [ts, ts+1000), in 64-bit arithmetic, per removed cell |
| `AggregateCells.DecodeInvertsEncode` | bttest/mutation_engine.go:272-276 | a stored integer reads back as itself, wrapped to 64 bits |
| `AggregateCells.SumCellHoldsTotal` | bttest/mutation_engine.go:407-429 | a sum cell holds the total of everything added, in 64-bit arithmetic, however often it wrapped |
| `AggregateCells.ExtremeCells` | bttest/mutation_engine.go:407-429 | a min cell holds the least and a max cell the greatest of everything added |
| `AggregateCells.SketchCellStaysReadable` | bttest/mutation_engine.go:376-405 | whatever valid additions and merges it takes, a sketch cell never fails and stays readable |
| `AggregateCells.SketchCellIsOrderIndependent` | bttest/mutation_engine.go:376-405 | a sketch cell depends on the set of its valid writes, merges of any readable sketches included, not on their order or repetition |
| `AggregateCells.SketchCellIsCanonical` | bttest/mutation_engine.go:376-405 | when the merged sketches come from additions and merges, the cell holds the bytes of the canonical sketch of all hashes written, at the lowest precision met |
| `Replay.ChangeReplays` | bttest/mutation_engine.go:284-325 | applying what was recorded does what the mutation did |
| `Replay.UserChangesReplay` | bttest/mutation_engine.go:281-327 | replaying the recorded changes of a mutation list gives its row |
| `Replay.GcRecordsAre` | bttest/inmem.go:516-547 | the records are exactly those of the removed cells |
| `Replay.RecordCovers` | bttest/inmem.go:539 | on millisecond timestamps a record covers exactly its own cell, and not even that when its range does not fit 64 bits |
| `Replay.CollectionReplays` | bttest/inmem.go:516-547 | replaying the records of a collection gives the collected row if and only if every removed cell's range fits 64 bits |
| `Runs.EveryStoredRowIsGood` | bttest/data_write.go:65-404 | in every run, batches included, every stored row has known families, no empty column and valid, strictly descending timestamps |
| `Writes.CommitReplays` | bttest/data_write.go:427-447 | the log of a table that rebuilt it still does after a commit if and only if the ranges fit |
| `Writes.StepReplays` | bttest/table_admin.go:711-749 | so after every request, row drops included |
| `WriteLaws.SetCellLeaves` | bttest/mutation_engine.go:55-65 | a cell is written at the time asked for, cut to milliseconds when the client chose it, or at the server time for -1; it replaces the cell at that time and nothing else |
| `WriteLaws.DeletionLeaves` | bttest/mutation_engine.go:329-360 | exactly the cells of the column in the range, of the family or of the row are gone |
| `WriteLaws.RangeIsValidIff` | bttest/mutation_engine.go:132-176 | a range between valid times is accepted exactly when it holds a valid time |
| `WriteLaws.AggregateLeaves` | bttest/mutation_engine.go:363-430 | one cell is written, at its time: the input combined into the value there and its labels kept, or the input alone |
| `WriteLaws.ServerTimedCellIsFound` | bttest/mutation_engine.go:57-65 | a cell that the server times is found in the row at the server time |
| `WriteLaws.MutateRowLeaves` | bttest/data_write.go:65-116 | an invalid or failing request changes nothing; any other leaves all other rows and, in its own, what the mutations and then the collection leave |
| `WriteLaws.CheckChooses` | bttest/data_write.go:223-293 | a checked mutation does what MutateRow does with the list that the check chooses, and nothing when the check fails |
| `WriteLaws.RuleLeaves` | bttest/data_write.go:337-381 | a rule fails only on a value that is not eight bytes; otherwise the newest cell has the bytes appended, or the amount added in 64-bit arithmetic, no older than the clock and the cell before |
| `WriteLaws.AppendsConcatenate` | bttest/data_write.go:357-358 | two appends are one append of both |
| `WriteLaws.IncrementsAdd` | bttest/data_write.go:359-368 | two increments are one by their sum modulo 2^64 |
| `WriteLaws.TwoRulesLeave` | bttest/data_write.go:337-381 | a request with two such rules leaves the table that a request with the one rule leaves |
| `WriteLaws.RuleSeesCollected` | bttest/data_write.go:340-343 | a rule appends to the newest cell that the collection leaves of its column, not to a collected one |
| `WriteLaws.InputsAgree` | bttest/mutation_engine.go:244-258 | eight raw bytes are the integer they encode, in every aggregate |
| `WriteLaws.DropLeaves` | bttest/table_admin.go:711-749 | exactly the keys not selected remain, with their rows |
| `WriteLaws.DropLogs` | bttest/table_admin.go:711-749 | every key that is gone, in key order, has one record that deletes the families of its row |
| `Runs.LogRebuildsTable` | bttest/data_write.go:427-447 | after any run of MutateRow, MutateRows, CheckAndMutateRow, ReadModifyWriteRow and DropRowRange on a millisecond table, folding the change log rebuilds exactly the stored rows, when ranges fit and no batch revives a collected cell |
| `Runs.SimpleRunsRebuild` | bttest/data_write.go:427-447 | this holds for all requests that write no greatest timestamp and repeat no key in a batch |
| `Runs.DistinctBatchReplays` | bttest/data_write.go:141-208 | the log of a batch without repeated keys rebuilds its rows |
| `Writes.GreatestTimestampIsNotReplayed` | bttest/inmem.go:539 | the greatest valid timestamp, once collected, is not removed by the log |
| `Batches.BatchIsSequential` | bttest/data_write.go:141-208 | a batch, repeated keys allowed, leaves the rows that its entries leave one at a time |
| `Batches.DistinctBatchLogsSequentially` | bttest/mutation_engine.go:487-494 | without repeated keys it also logs what they log |
| `Batches.InvalidEntryChangesNothing` | bttest/data_write.go:148-177 | an invalid entry changes nothing wherever it stands |
| `Batches.StageAllConsistent` | bttest/data_write.go:179-197 | every staged row is saved, and exactly once |
| `BatchReplay.RedoIff` | bttest/mutation_engine.go:487-494 | the log of a staged row rebuilds it exactly when its user changes replay and no cell it collected is back |
| `BatchReplay.BatchReplaysIff` | bttest/mutation_engine.go:487-494 | a log that rebuilt the table still does after a batch, repeated keys allowed, exactly when the batch revives no collected cell |
| `BatchReplay.RepeatedKeyIsNotReplayed` | bttest/mutation_engine.go:487-490 | a batch that collects a version and sets it again under the same key, which its log then deletes |
| `BatchReplay.ReplaysWithoutSketches` | bttest/mutation_engine.go:284-325 | only an aggregate into a sketch can fail when user changes are replayed |
| `SketchReplay.EveryStoredSketchIsReadable` | bttest/mutation_engine.go:376-405 | in every run every stored sketch can be decoded |
| `SketchReplay.BatchReplaysUnlessRevived` | bttest/mutation_engine.go:487-494 | with the sketch operation of the code, a log that rebuilt the table still does after a batch exactly when no cell that the batch collected is back |
| `Tables.Table.constructor` | bttest/inmem.go:440-445 | a new table holds no rows and no log |
| `Tables.Table.CommitRow` | bttest/data_write.go:407-447 | the collected row and its records are persisted in one step |
| `Tables.Table.MutateRow` | bttest/data_write.go:65-114 | the table steps as the request means; a failure changes nothing |
| `Tables.Table.CheckAndMutateRow` | bttest/data_write.go:223-293 | the branch chosen by the predicate is committed when it changes something; the answer is the predicate's exactly when it and the chosen list succeed |
| `Tables.Table.ReadModifyWriteRow` | bttest/data_write.go:295-404 | rules read the collected row and their own earlier writes, and one failing rule fails the request |
| `Tables.Modify` | bttest/data_write.go:337-381 | the rule loop computes the row, what later rules see, and the changes |
| `Tables.Table.StageEntry` | bttest/mutation_engine.go:456-497 | one entry is staged on the staged or stored row |
| `Tables.Table.MutateRows` | bttest/data_write.go:118-221 | a request without mutations or with too many in all is refused and changes nothing; otherwise the loop commits the staged batch and reports which entries succeed |
| `Tables.Table.DropRowRange` | bttest/table_admin.go:711-749 | the selected rows are removed and logged as family deletions |
| `FilterMeaning.EvalMeans` | bttest/filter.go:206-340 | evaluating any filter on any row gives its meaning on the flat cell sequence, in order, and the sink gets what was sunk |
| `FilterMeaning.FilteredMeans` | bttest/filter.go:185-201 | filtering a row gives one stable sort of the cells that pass and the cells sunk |
| `FilterMeaning.ChainComposes` | bttest/filter.go:220-232 | a chain is the composition of its parts wherever it is split |
| `FilterMeaning.BranchesMean` | bttest/filter.go:233-243 | merging and re-sorting branch by branch is one stable sort of the concatenated branches, duplicates kept |
| `FilterMeaning.LimitAndOffsetPartition` | bttest/filter.go:283-314 | limit n and offset n partition the row |
| `FilterMeaning.SinksConserveCells` | bttest/filter.go:185-201 | nothing that passes and nothing that is sunk is lost, counted with duplicates |
| `FilterMeaning.SortedIsOrdered` | bttest/filter.go:491-509 | the sort is by family, column and then newest first |
| `FilterMeaning.SortedIsStable` | bttest/filter.go:491-509 | cells of one column and time keep their order |
| `FilterMeaning.SortedKeeps` | bttest/filter.go:343-351 | the sort keeps every cell, duplicates included |
| `FilterEngine.MergeCells` | bttest/filter.go:343-351 | every cell is appended and the result normalized |
| `FilterEngine.EditColumns` | bttest/filter.go:317-339 | per-cell filters and column limits edit a copy and normalize it |
| `FilterEngine.LimitRow` | bttest/filter.go:283-297 | the counting loop keeps the first cells of the row |
| `FilterEngine.SkipRow` | bttest/filter.go:298-314 | the counting loop drops the first cells of the row |
| `FilterEngine.EvalFilter` | bttest/filter.go:206-340 | the recursive evaluator computes the evaluation on columns |
| `FilterEngine.FilterRow` | bttest/filter.go:185-201 | a refused filter is an error; otherwise the row is filtered and the result says whether a cell is left |
| `FilterLaws.ColumnRangeKeeps` | bttest/filter.go:390-410 | a column range leaves the columns of its family whose qualifier is between its bounds, whole, and no other |
| `FilterLaws.NamesKeep` | bttest/filter.go:372-383 | a test of family or qualifier leaves exactly the columns whose name passes, whole |
| `FilterLaws.TimesKeep` | bttest/filter.go:411-417 | every cell from the start of a timestamp range up to its open end, 0 being none, stays as often as it was there, and no other |
| `FilterLaws.ValueRangeKeeps` | bttest/filter.go:430-448 | every cell with a value between the bounds stays as often as it was there, and no other |
| `FilterLaws.ValuesKeep` | bttest/filter.go:384-389 | every cell whose value passes stays as often as it was there, and no other |
| `FilterLaws.MaskKeeps` | bttest/filter.go:418-429 | every cell whose value is as long as the mask and has each of its bits stays as often as it was there, and no other |
| `FilterLaws.StripChanges` | bttest/filter.go:353-356 | every cell stays in its place with its time and labels and an empty value |
| `FilterLaws.LabelChanges` | bttest/filter.go:357-366 | every cell stays in its place with its time and value and the one label |
| `FilterLaws.RowsKeep` | bttest/filter.go:211-265 | passing and sinking leave the row, blocking nothing, a test of the key one or the other |
| `FilterLaws.ColumnLimitKeeps` | bttest/filter.go:271-282 | every column keeps its newest cells up to the limit |
| `FilterLaws.RowLimitKeeps` | bttest/filter.go:283-297 | the first cells of the row stay |
| `FilterLaws.RowOffsetKeeps` | bttest/filter.go:298-314 | all but the first cells of the row stay |
| `FilterLaws.ChainFilters` | bttest/filter.go:220-232 | without sinks a chain of two filters is the one after the other |
| `FilterLaws.ConditionChooses` | bttest/filter.go:244-256 | the first branch when the test leaves a cell, the second otherwise, nothing for a missing branch |
| `FilterLaws.AcceptedInCondition` | bttest/filter.go:75-80 | what is accepted inside a condition has no sink |
| `FilterLaws.InterleaveAdds` | bttest/filter.go:233-243 | every cell is there as often as all branches together leave it |
| `Chunks.PiecesContinue` | bttest/data_read.go:233-265 | the pieces of a split value put together are the value |
| `Chunks.RowsRead` | bttest/data_read.go:227-275 | the client reads back exactly the rows written: keys, families, qualifiers, times, labels and values |
| `Chunks.ResponseReads` | bttest/data_read.go:277-285 | every response on its own reads as whole rows, and no value in it exceeds the limit |
| `Chunks.ResponsesRead` | bttest/data_read.go:277-285 | all responses together read as all rows |
| `Chunks.EncodeCell` | bttest/data_read.go:234-265 | a value is split at the limit; only its first piece carries head, time and labels |
| `Chunks.EncodeColumn` | bttest/data_read.go:232-266 | the flags of the writer produce the heads that the client needs |
| `Chunks.EncodeFamily` | bttest/data_read.go:229-267 | the columns of a family follow each other |
| `Chunks.EncodeRow` | bttest/data_read.go:227-270 | the nested loops write the chunks of the row, the last of which commits it |
| `Chunks.RowWriter.constructor` | bttest/data_read.go:223-225 | a new writer has written nothing |
| `Chunks.RowWriter.WriteRow` | bttest/data_read.go:227-275 | the row is added to the rows written, and a response that reached its size is sent |
| `Chunks.RowWriter.Flush` | bttest/data_read.go:277-285 | what waits is sent as one response; an empty one is not |
| `ChangeStreams.PartitionMeans` | bttest/localcloud_change_stream.go:331-347 | the key range of a partition holds exactly the keys between its edges |
| `ChangeStreams.SelectMeans` | bttest/localcloud_change_stream.go:62-87 | selection is membership by table, id and key, in id order |
| `ChangeStreams.GrowthKeeps` | bttest/localcloud_change_stream.go:231-250 | records appended meanwhile do not change what was delivered |
| `ChangeStreams.Session.constructor` | bttest/localcloud_change_stream.go:211-215 | a session starts at its position with nothing sent |
| `ChangeStreams.Session.Deliver` | bttest/localcloud_change_stream.go:239-250 | the session closes exactly when there is an end time and a listed record is past it; the in-partition records before that one are sent, and the position is behind the last of those passed |
| `ChangeStreams.Session.Poll` | bttest/localcloud_change_stream.go:231-271 | the session closes exactly when it has an end time and a listed record, or the watermark after a listing that is not full, is past it; when it closes, and whenever a listing is not full, what was sent is exactly what is due |
| `ChangeStreams.TimelyMeans` | bttest/localcloud_change_stream.go:239-242 | the records before the first one past the end time: none of them is past it, and the next one is |
| `ChangeStreams.DueMeans` | bttest/localcloud_change_stream.go:231-250 | what is due are the records of the table in the partition after the start, up to the first one of the table past the end time, once each and in id order |
| `ChangeStreams.ListAfterMeans` | bttest/localcloud_change_stream.go:62-87 | a listing is the first records of the table after the position, as many as fit a batch |
| `ChangeStreams.ResumeIsSeamless` | bttest/localcloud_change_stream.go:275-300 | cutting at any data or heartbeat token and resuming gives together exactly the uninterrupted sequence |
| `ChangeStreams.ChangeStreamStart` | bttest/localcloud_change_stream.go:277-300 | a token that does not decode, or a last partition other than the requested one, is an error; otherwise delivery starts after the smallest id in the requested partition or else that of the last token |
| `ChangeStreams.NothingSkippedIff` | bttest/localcloud_change_stream.go:277-300 | resuming skips no record that a token still misses, whatever the log holds, exactly when the key range of every token is inside the partition that is read |
| `ChangeStreams.NeighboursLoseOne` | bttest/localcloud_change_stream.go:277-300 | tokens of two neighbouring partitions are accepted, and no record of the first is ever delivered |
| `ChangeStreams.InsideMeans` | bttest/localcloud_change_stream.go:331-347 | when bounds say that one range lies inside another, every key of it does |
| `ViewRefresh.RunKeepsInv` | bttest/materialized_views.go:56-71 | the protocol invariant holds in every interleaving |
| `ViewRefresh.ClearFlagMeansFresh` | bttest/materialized_views.go:56-71 | a clear flag with no refresh in flight means that the stored view has every acknowledged commit |
| `ViewRefresh.ReaderSeesEarlierCommits` | bttest/materialized_views.go:56-71 | a reader that took the lock, or found the flag clear with no refresh in flight, gets every commit acknowledged before it began |
| `ViewRefresh.ViewsNeverGoBack` | bttest/materialized_views.go:107-180 | an installed view was read at versions no older than those of the view it replaces |
| `ViewRefresh.OneRefreshAtATime` | bttest/materialized_views.go:60-61 | recomputations exclude each other |
| `ViewRefresh.FastPathDuringRefresh` | bttest/materialized_views.go:57-59 | a reader that found the flag clear, and reads after any other steps, has all commits acknowledged before it exactly when a view was installed in between or the one it found already had them |
| `ViewRefresh.FastPathCanBeStale` | bttest/materialized_views.go:57-59 | a run in which the fast path returns a view without an acknowledged commit |

## Left out

- gRPC handlers, protobuf and gob encoding, base64 tokens, SQL text, storage errors and app-profile or authorized-view checks: plumbing around the modelled steps.
- Instance, cluster, IAM, backup, schema-bundle and logical-view administration: validation and copying with easy claims.
- `Estimate`, its helpers and all floating-point aggregates: rounding is their point; the hash function is any function into 64 bits.
- Regular expressions, time zones, parsing and the scalar function tables: predicates and operator meanings are parameters.
- The random row sample filter, RAND and the current time: not deterministic.
- Idempotency tokens: a batch is modelled without them.
- Creating, dropping and changing column families between writes: the schema is fixed in a run, because dropping family data is not logged.
- RowEngine.Row.Copy: cell values are immutable sequences and a family is a value inside its row, so that a copy shares nothing with the stored row holds by construction.
- FilterEngine.EvalFilter: for the same reason its input cannot change; the copies that the source makes for this are not captured.
- RowEngine.Row.ApplyAggregate: the step on a stored sketch is a parameter of the schema; `AggregateCells` states what it is on decoded sketches and what the cell then holds.
- Mutations.ApplyKeepsRowGood: likewise for every possible step on sketches.
- ExecMeaning.GroupByMeans: one value stands for all accumulators of a group, and the limits inside aggregates are left out.
- Gc.GcDeletes: the age cutoff is computed without 64-bit wrap-around, which no real clock reaches.
- Fingerprints.FingerprintIff: quoting of constants is any self-delimiting function, and operator names, aggregate names, type names and extra data are taken to be free of the marks that delimit them.
- ChangeStreams.ChangeStreamStart: the start from a time, and the decoding of tokens, are left out.
- ChangeStreams.Session.Poll: new records have greater ids than all records visible before, as with serialized writers; purging of expired records and low watermarks are left out.
- ViewRefresh.RunKeepsInv: a view stands for the source versions its ranges were read at; how its rows are computed is the executor's part.
- Tables.Table.CheckAndMutateRow: the predicate is any function of the row, error included; what filters leave of a row is the part of `FilterEngine`.
- Tables.Table.ReadModifyWriteRow: the response, which repeats the cells written, is left out.
- Chunks.RowWriter.WriteRow: failures while sending are left out.
- Pipeline.Execute: failures of the consumer of emitted rows are left out.
