# Huge multi-column indexer-to-string prediction, and RowUtil

This project models two parts of Alink in Dafny and proves what they compute.

**1. The prediction pipeline of `HugeMultiIndexerStringPredictBatchOp`.** Its inputs are a fitted multi-column string indexer model and a data set whose selected columns hold token indices. It maps each index back to its token string. The stages are:

- **Meta extraction** (`getModelMeta`). It keeps the text of every model row whose column index is negative.
- **Model reading** (`getModelData`):
  - `open` requires exactly one meta text. It then finds every requested column among the training columns, or fails.
  - `flatMap` re-labels each token row of a requested column with the column's first prediction-time position.
- **Flatten.** Each record becomes one `(id, position, tokenIndex)` tuple per selected column. A null field becomes `-1`.
- **Left-outer join** on `(position, tokenIndex)`. It produces the model's token, or the literal `"null"` when nothing matches.
- **Group-reduce by id.** It scatters the tokens of one record into a fresh row of arity k.
- **Final join by id.** It hands each record and its assembled row to the output-column placement step.

**2. `RowUtil`.** This covers `remove`, the three `merge` overloads and `rowToString`. `remove` and the merges allocate a fresh Flink `Row` and fill it with index loops. `rowToString` appends the field texts to a string buffer in a loop.

Modules:

- `Wrappers`: the `Option`, `Result` and `Outcome` datatypes.
- `Rows`: Flink's `Row`, a class over an `array<Field>` that `setField` updates in place.
- `RowUtil`: the helpers as methods on rows. Each is proved against a function or a concatenation on `seq<Field>`.
- `IndexerModel`: meta extraction and model reading. The `open`/`flatMap` object is the class `ModelDataMapper`, and its `selectedColIdxInModel` array is filled by a loop.
- `IndexerPredict`: flatten, join, group-reduce, recombination, and the end-to-end theorem `PredictRecords`.

Flink data sets become sequences in input order. Joins and group-by become relational functions over them. Record ids from `zipWithUniqueId` are taken as given and unique.

Behaviour of the code worth knowing:

- The class comment says "string to index", and the code does the reverse; the model follows the code. The code joins the field value against the model's token index (field 2) and emits the model's token (field 1). So the mapping goes index to string.
- An unmatched tuple gets the literal string `"null"`. `HandleInvalid` is parsed at HugeMultiIndexerStringPredictBatchOp.java:147-149 and never used, so unmatched values are never skipped and never raise an error.
- The aggregator does not check its group. A position that no tuple writes stays null.
- A record is emitted only when its id appears in the join output. With no selected column (k = 0), nothing is flattened, so every record is dropped (`NoSelectedColumns`).

## Model

| member | source | states |
|---|---|---|
| RowUtil.Removed | core/src/main/java/com/alibaba/alink/common/utils/RowUtil.java:34-45 | the fields without the one at idx: arity n-1, earlier fields in place, later fields shifted down by one |
| RowUtil.Remove | core/src/main/java/com/alibaba/alink/common/utils/RowUtil.java:34-45 | arity 0 fails allocating a row of arity -1; an idx outside [0, n) fails on an out-of-range setField; otherwise a fresh row holding `Removed(fields, idx)` |
| RowUtil.RemovedThenInserted | core/src/main/java/com/alibaba/alink/common/utils/RowUtil.java:34-45 | putting the removed field back at idx restores the original fields |
| RowUtil.MergeTail | core/src/main/java/com/alibaba/alink/common/utils/RowUtil.java:50-58 | a fresh row whose fields are rec1's followed by obj; no input row is written |
| RowUtil.MergeHead | core/src/main/java/com/alibaba/alink/common/utils/RowUtil.java:63-71 | a fresh row whose fields are obj followed by rec1's, shifted up by one; no input row is written |
| RowUtil.Merge | core/src/main/java/com/alibaba/alink/common/utils/RowUtil.java:76-87 | a fresh row whose fields are rec1's followed by rec2's (arity n1+n2); no input row is written |
| RowUtil.MergeAssociative | core/src/main/java/com/alibaba/alink/common/utils/RowUtil.java:76-87 | merge(merge(a,b),c) and merge(a,merge(b,c)) hold the same fields, a ++ b ++ c |
| RowUtil.RemoveAfterMergeTail | core/src/main/java/com/alibaba/alink/common/utils/RowUtil.java:34-58 | removing the last field of merge(r, x) gives back r's fields |
| RowUtil.RemoveAfterMergeHead | core/src/main/java/com/alibaba/alink/common/utils/RowUtil.java:34-71 | removing field 0 of merge(x, r) gives back r's fields |
| RowUtil.RowToString | core/src/main/java/com/alibaba/alink/common/utils/RowUtil.java:15-29 | "null" for a null row; otherwise the per-field texts (a null field is "null") joined in field order by commas |
| RowUtil.EmptyRowText | core/src/main/java/com/alibaba/alink/common/utils/RowUtil.java:20-27 | an arity-0 row renders as "" |
| RowUtil.JoinedConcat | core/src/main/java/com/alibaba/alink/common/utils/RowUtil.java:20-27 | the rendering of two non-empty field runs is their renderings separated by exactly one comma |
| RowUtil.SplitJoined | core/src/main/java/com/alibaba/alink/common/utils/RowUtil.java:15-29 | when no field text has a comma, splitting the rendering at commas gives back the field texts in order, so there is no leading, trailing or doubled comma |
| IndexerModel.MetaOf | core/src/main/java/com/alibaba/alink/operator/batch/dataproc/HugeMultiIndexerStringPredictBatchOp.java:60-65 | one model row yields its text if its column index is negative, and nothing otherwise |
| IndexerModel.ModelMeta | core/src/main/java/com/alibaba/alink/operator/batch/dataproc/HugeMultiIndexerStringPredictBatchOp.java:53-70 | meta extraction emits at most one text per model row |
| IndexerModel.ModelMetaCount | core/src/main/java/com/alibaba/alink/operator/batch/dataproc/HugeMultiIndexerStringPredictBatchOp.java:53-70 | the number of texts emitted is exactly the number of rows with a negative column index |
| IndexerModel.ModelMetaMembers | core/src/main/java/com/alibaba/alink/operator/batch/dataproc/HugeMultiIndexerStringPredictBatchOp.java:60-65 | a text is emitted if and only if some row with a negative column index carries it |
| IndexerModel.ModelMetaConcat | core/src/main/java/com/alibaba/alink/operator/batch/dataproc/HugeMultiIndexerStringPredictBatchOp.java:53-70 | extraction over a split model is the extraction of each part, concatenated |
| IndexerModel.ModelMetaPermutation | core/src/main/java/com/alibaba/alink/operator/batch/dataproc/HugeMultiIndexerStringPredictBatchOp.java:53-70 | reordering the model rows only reorders the emitted texts (equal multisets) |
| IndexerModel.SingleMeta | core/src/main/java/com/alibaba/alink/operator/batch/dataproc/HugeMultiIndexerStringPredictBatchOp.java:92-95 | exactly one meta text if and only if exactly one model row has a negative column index |
| IndexerModel.FindColIndex | core/src/main/java/com/alibaba/alink/operator/batch/dataproc/HugeMultiIndexerStringPredictBatchOp.java:101-102 | negative if and only if the name is absent; otherwise a position holding the name |
| IndexerModel.ColumnPositions | core/src/main/java/com/alibaba/alink/operator/batch/dataproc/HugeMultiIndexerStringPredictBatchOp.java:98-106 | succeeds if and only if every requested column is a training column; then entry i is the lookup of column i, a valid training position holding that name, and equal names get equal positions; otherwise it fails naming the first missing column |
| IndexerModel.ColumnPositionsStep | core/src/main/java/com/alibaba/alink/operator/batch/dataproc/HugeMultiIndexerStringPredictBatchOp.java:99-106 | one more loop iteration either appends the next column's position or fails on that column |
| IndexerModel.ColumnPositionsPrefixFailure | core/src/main/java/com/alibaba/alink/operator/batch/dataproc/HugeMultiIndexerStringPredictBatchOp.java:99-104 | a failure on a prefix of the requested columns is the failure of the whole request |
| IndexerModel.ModelDataMapper.constructor | core/src/main/java/com/alibaba/alink/operator/batch/dataproc/HugeMultiIndexerStringPredictBatchOp.java:86-88 | keeps the requested column names; the position array is not yet allocated |
| IndexerModel.ModelDataMapper.Open | core/src/main/java/com/alibaba/alink/operator/batch/dataproc/HugeMultiIndexerStringPredictBatchOp.java:91-107 | "Invalid model." unless there is exactly one meta text; otherwise the `ColumnPositions` outcome: on success a fresh array holding the training position of every requested column, on failure the first missing column |
| IndexerModel.IntValue | core/src/main/java/com/alibaba/alink/operator/batch/dataproc/HugeMultiIndexerStringPredictBatchOp.java:113 | `Long.intValue()`: a 32-bit signed value congruent to x modulo 2^32, and equal to x when x fits |
| IndexerModel.FirstIndexOf | core/src/main/java/com/alibaba/alink/operator/batch/dataproc/HugeMultiIndexerStringPredictBatchOp.java:114-119 | none if and only if absent; otherwise the first position holding the value |
| IndexerModel.EntriesOf | core/src/main/java/com/alibaba/alink/operator/batch/dataproc/HugeMultiIndexerStringPredictBatchOp.java:110-121 | at most one entry; none for a meta row or an unrequested column; otherwise the first requested position of the row's column, with token and token index unchanged |
| IndexerModel.ModelDataMapper.FlatMap | core/src/main/java/com/alibaba/alink/operator/batch/dataproc/HugeMultiIndexerStringPredictBatchOp.java:110-121 | the loop with `break` emits exactly `EntriesOf(row, selectedColIdxInModel)` |
| IndexerModel.ColumnIndexWraps | core/src/main/java/com/alibaba/alink/operator/batch/dataproc/HugeMultiIndexerStringPredictBatchOp.java:111-115 | a column index 2^32 above a training position is taken for that position |
| IndexerModel.ModelEntries | core/src/main/java/com/alibaba/alink/operator/batch/dataproc/HugeMultiIndexerStringPredictBatchOp.java:84-122 | the flatMap over all model rows: at most one entry per row, each labelled with a valid prediction-time position; `ModelEntriesOrigin` and `ModelEntriesComplete` say which rows yield which entries |
| IndexerModel.ModelEntriesOrigin | core/src/main/java/com/alibaba/alink/operator/batch/dataproc/HugeMultiIndexerStringPredictBatchOp.java:110-121 | every model entry comes from one model row through `EntriesOf` |
| IndexerModel.ModelEntriesComplete | core/src/main/java/com/alibaba/alink/operator/batch/dataproc/HugeMultiIndexerStringPredictBatchOp.java:110-121 | every token row of a requested column yields its entry |
| IndexerModel.RepeatedColumnHasNoEntries | core/src/main/java/com/alibaba/alink/operator/batch/dataproc/HugeMultiIndexerStringPredictBatchOp.java:114-118 | a position whose training column is also requested earlier never receives an entry |
| IndexerPredict.OutputSchema | core/src/main/java/com/alibaba/alink/operator/batch/dataproc/HugeMultiIndexerStringPredictBatchOp.java:134-141 | output names default to the selected names; one STRING type per output column |
| IndexerPredict.Flattened | core/src/main/java/com/alibaba/alink/operator/batch/dataproc/HugeMultiIndexerStringPredictBatchOp.java:164-171 | the tuples of one record: exactly k, positions 0..k-1 in order, each with the record id and the field's long value, or -1 for a null field |
| IndexerPredict.FlattenRecord | core/src/main/java/com/alibaba/alink/operator/batch/dataproc/HugeMultiIndexerStringPredictBatchOp.java:162-172 | exactly k tuples, positions 0..k-1 in order, each with the record id and the field's long value, or -1 for a null field |
| IndexerPredict.FlattenAll | core/src/main/java/com/alibaba/alink/operator/batch/dataproc/HugeMultiIndexerStringPredictBatchOp.java:157-175 | every tuple has a position below k and the id of some record |
| IndexerPredict.JoinFunction | core/src/main/java/com/alibaba/alink/operator/batch/dataproc/HugeMultiIndexerStringPredictBatchOp.java:187-194 | keeps id and position; the matched entry's token, or "null" when there is no match |
| IndexerPredict.Matches | core/src/main/java/com/alibaba/alink/operator/batch/dataproc/HugeMultiIndexerStringPredictBatchOp.java:178-180 | exactly the model entries whose (position, token index) equals the key |
| IndexerPredict.JoinOne | core/src/main/java/com/alibaba/alink/operator/batch/dataproc/HugeMultiIndexerStringPredictBatchOp.java:178-194 | at least one output, all keeping id and position; a single "null" output without a match; otherwise exactly one output per matching entry, in order, carrying that entry's token |
| IndexerPredict.LeftOuterJoin | core/src/main/java/com/alibaba/alink/operator/batch/dataproc/HugeMultiIndexerStringPredictBatchOp.java:178-197 | every joined tuple keeps the id and position of some flattened tuple |
| IndexerPredict.LeftOuterJoinConcat | core/src/main/java/com/alibaba/alink/operator/batch/dataproc/HugeMultiIndexerStringPredictBatchOp.java:178-197 | the join distributes over concatenation of the flattened tuples |
| IndexerPredict.AtMostOneMatch | core/src/main/java/com/alibaba/alink/operator/batch/dataproc/HugeMultiIndexerStringPredictBatchOp.java:180 | with unique (position, token index) keys a tuple matches at most one entry |
| IndexerPredict.LabelMeaning | core/src/main/java/com/alibaba/alink/operator/batch/dataproc/HugeMultiIndexerStringPredictBatchOp.java:187-194 | a key with no entry resolves to "null"; with unique keys, a key with an entry resolves to that entry's token |
| IndexerPredict.JoinOneUnique | core/src/main/java/com/alibaba/alink/operator/batch/dataproc/HugeMultiIndexerStringPredictBatchOp.java:178-194 | with unique keys one flattened tuple joins to exactly one resolved tuple |
| IndexerPredict.JoinUnique | core/src/main/java/com/alibaba/alink/operator/batch/dataproc/HugeMultiIndexerStringPredictBatchOp.java:178-197 | with unique keys the join is one-to-one and order-preserving: output i is flattened tuple i resolved |
| IndexerPredict.NullFieldIsUnmatched | core/src/main/java/com/alibaba/alink/operator/batch/dataproc/HugeMultiIndexerStringPredictBatchOp.java:168-169 | a null field (-1) resolves to "null" when no model entry uses token index -1 |
| IndexerPredict.RepeatedColumnIsNull | core/src/main/java/com/alibaba/alink/operator/batch/dataproc/HugeMultiIndexerStringPredictBatchOp.java:114-118 | a selected column repeating an earlier one resolves to "null" whatever its value |
| IndexerPredict.Scattered | core/src/main/java/com/alibaba/alink/operator/batch/dataproc/HugeMultiIndexerStringPredictBatchOp.java:209-214 | the assembled row has arity k |
| IndexerPredict.LastTokenAt | core/src/main/java/com/alibaba/alink/operator/batch/dataproc/HugeMultiIndexerStringPredictBatchOp.java:211-213 | none if and only if no tuple has position p; otherwise the token of the last tuple at p |
| IndexerPredict.ScatteredAt | core/src/main/java/com/alibaba/alink/operator/batch/dataproc/HugeMultiIndexerStringPredictBatchOp.java:209-214 | field p of the assembled row is the token of the last tuple at p, or null if none |
| IndexerPredict.Reduce | core/src/main/java/com/alibaba/alink/operator/batch/dataproc/HugeMultiIndexerStringPredictBatchOp.java:206-216 | a fresh row equal to `Scattered(values, k)`, and the id of the last tuple (none for an empty group) |
| IndexerPredict.ScatteredOrderFree | core/src/main/java/com/alibaba/alink/operator/batch/dataproc/HugeMultiIndexerStringPredictBatchOp.java:200-214 | when a group's positions are distinct, every order of the group assembles the same row |
| IndexerPredict.ScatteredOnePerPosition | core/src/main/java/com/alibaba/alink/operator/batch/dataproc/HugeMultiIndexerStringPredictBatchOp.java:209-214 | a group with one tuple per position 0..k-1 in order assembles exactly those tokens |
| IndexerPredict.GroupOf | core/src/main/java/com/alibaba/alink/operator/batch/dataproc/HugeMultiIndexerStringPredictBatchOp.java:200-201 | the group of an id holds exactly the tuples with that id |
| IndexerPredict.GroupOfConcat | core/src/main/java/com/alibaba/alink/operator/batch/dataproc/HugeMultiIndexerStringPredictBatchOp.java:200-201 | grouping distributes over concatenation |
| IndexerPredict.GroupOfAll | core/src/main/java/com/alibaba/alink/operator/batch/dataproc/HugeMultiIndexerStringPredictBatchOp.java:200-201 | tuples that all carry the id form their own group unchanged |
| IndexerPredict.GroupOfNone | core/src/main/java/com/alibaba/alink/operator/batch/dataproc/HugeMultiIndexerStringPredictBatchOp.java:200-201 | tuples none of which carries the id contribute nothing to its group |
| IndexerPredict.Aggregated | core/src/main/java/com/alibaba/alink/operator/batch/dataproc/HugeMultiIndexerStringPredictBatchOp.java:200-219 | the group-reduce: one row per id present in the join output, each of arity k |
| IndexerPredict.AggregatedAt | core/src/main/java/com/alibaba/alink/operator/batch/dataproc/HugeMultiIndexerStringPredictBatchOp.java:200-216 | field p of the row for an id holds the token of that id's last tuple at p, or stays null |
| IndexerPredict.Recombined | core/src/main/java/com/alibaba/alink/operator/batch/dataproc/HugeMultiIndexerStringPredictBatchOp.java:221-231 | the final inner join: at most one output per record, each `resultRow` of a record and the row assembled for its id |
| IndexerPredict.RecombinedAll | core/src/main/java/com/alibaba/alink/operator/batch/dataproc/HugeMultiIndexerStringPredictBatchOp.java:221-231 | when every record's id has an assembled row, the final join yields one output per record, in order |
| IndexerPredict.NoneRecombined | core/src/main/java/com/alibaba/alink/operator/batch/dataproc/HugeMultiIndexerStringPredictBatchOp.java:221-231 | with no assembled row the final join yields nothing |
| IndexerPredict.JoinedIdFrom | core/src/main/java/com/alibaba/alink/operator/batch/dataproc/HugeMultiIndexerStringPredictBatchOp.java:157-197 | every joined tuple carries the id of some record |
| IndexerPredict.JoinedRecordIds | core/src/main/java/com/alibaba/alink/operator/batch/dataproc/HugeMultiIndexerStringPredictBatchOp.java:157-197 | the tuples joined from one record all carry that record's id |
| IndexerPredict.JoinedSplit | core/src/main/java/com/alibaba/alink/operator/batch/dataproc/HugeMultiIndexerStringPredictBatchOp.java:157-197 | the join output of a data set is that of its first record followed by that of the rest |
| IndexerPredict.JoinedPositions | core/src/main/java/com/alibaba/alink/operator/batch/dataproc/HugeMultiIndexerStringPredictBatchOp.java:157-197 | every joined tuple has a position below k |
| IndexerPredict.GroupOfRecord | core/src/main/java/com/alibaba/alink/operator/batch/dataproc/HugeMultiIndexerStringPredictBatchOp.java:157-201 | with unique ids, the group of record j's id is exactly record j's joined tuples |
| IndexerPredict.GroupOfRest | core/src/main/java/com/alibaba/alink/operator/batch/dataproc/HugeMultiIndexerStringPredictBatchOp.java:157-201 | with unique ids, no tuple joined from the other records lands in the first record's group |
| IndexerPredict.RecordRow | core/src/main/java/com/alibaba/alink/operator/batch/dataproc/HugeMultiIndexerStringPredictBatchOp.java:157-216 | with unique keys, one record's tuples assemble into its expected row: each selected field's token, or "null" |
| IndexerPredict.AssembledRow | core/src/main/java/com/alibaba/alink/operator/batch/dataproc/HugeMultiIndexerStringPredictBatchOp.java:157-216 | with k > 0, unique ids and unique keys, every record's id has a group, and it assembles into the record's expected row |
| IndexerPredict.ExpectedOutputs | core/src/main/java/com/alibaba/alink/operator/batch/dataproc/HugeMultiIndexerStringPredictBatchOp.java:221-231 | one expected output per record |
| IndexerPredict.RecombinedExpected | core/src/main/java/com/alibaba/alink/operator/batch/dataproc/HugeMultiIndexerStringPredictBatchOp.java:221-231 | recombining records with their expected rows gives the expected outputs, in record order |
| IndexerPredict.Predict | core/src/main/java/com/alibaba/alink/operator/batch/dataproc/HugeMultiIndexerStringPredictBatchOp.java:129-236 | the operator: "Invalid model." unless there is exactly one meta text; otherwise it fails if and only if a selected column is not a training column, naming that column; on success at most one output per record. `PredictRecords`, `InvalidModelFails` and `NoSelectedColumns` state its result |
| IndexerPredict.PredictRecords | core/src/main/java/com/alibaba/alink/operator/batch/dataproc/HugeMultiIndexerStringPredictBatchOp.java:129-236 | end to end: with a valid model, unique ids, k > 0 and unique model keys, each record yields exactly one output, in order, whose selected column p holds the token of the entry for (p, field value), or "null" |
| IndexerPredict.PredictExample | core/src/main/java/com/alibaba/alink/operator/batch/dataproc/HugeMultiIndexerStringPredictBatchOp.java:129-236 | a worked instance: a model with tokens "a" (index 0) and "b" (index 1) for one column, and records holding 0, 1, 7 and null, produce "a", "b", "null" and "null"; it meets every precondition of `PredictRecords` |
| IndexerPredict.NoSelectedColumns | core/src/main/java/com/alibaba/alink/operator/batch/dataproc/HugeMultiIndexerStringPredictBatchOp.java:157-231 | with no selected column, every record is dropped by the final join |
| IndexerPredict.InvalidModelFails | core/src/main/java/com/alibaba/alink/operator/batch/dataproc/HugeMultiIndexerStringPredictBatchOp.java:92-95 | a model without exactly one meta row fails the whole operator with "Invalid model." |

## Left out

- Flink execution machinery is not modelled: `zipWithUniqueId`, the broadcast set, parallel scheduling of the joins and the group-by, `.name`/`.returns` type information and the `Collector`. Data sets are sequences, and ids are given and assumed unique (`UniqueIds`). The group-by's arbitrary hand-over order is covered only by `ScatteredOrderFree`, for groups with distinct positions.
- `OutputColsHelper` (`getResultRow`, `getResultSchema`) is not part of this model. The placement of output and kept columns is the uninterpreted parameter `resultRow`. Reserved (kept) columns are therefore not modelled.
- `Params.fromJson` and the `SELECTED_COLS` lookup on the meta text are a JSON library. They are the parameter `trainColsOf`, which maps the meta text to the training column names.
- `TableUtil` is not part of this model. `FindColIndex` stands in for `findColIndex`, and its contract does not say which of several equal names it picks. `findColIndicesWithAssertAndHint` is the input `selectedColIdx`, and its own failure on an unknown data column is not modelled.
- `HandleInvalid` is parsed but never used by the code, so no skip or error behaviour exists to model.
- Java cast failures (`ClassCastException` from `(Long)`/`(String)`) are not modelled. The `Readable` precondition and the typed `ModelRow` stand for well-typed inputs.
- `Arrays.deepToString` formatting of a non-null field is the parameter `format` of `RowUtil.RowToString`. Only its "null" for a null field is modelled.
- A null `Row` argument to `remove` or `merge` (a null dereference in Java) is not modelled: the parameters are non-null rows.
- RowUtil.Merge: does not model Java `int` overflow of `n1 + n2` (and `n1 + 1` in `MergeTail`/`MergeHead`), because arities are unbounded here.
- IndexerPredict.PredictRecords: assumes model entries with unique (position, token index) keys. With duplicate keys Flink emits one output per matching entry; `JoinOne` models that, but the end-to-end statement does not.
- Column names are compared by exact string equality in `FindColIndex` and `ColumnPositions`. `TableUtil.findColIndex` is not part of this model, so any other comparison rule it may apply (for example, ignoring case) is not captured.
- Long ids and token indices are unbounded integers. Only the `intValue()` truncation at the column comparison is modelled.
- `RedisSinkParams` is a parameter interface with no logic, and is not modelled.
- `linkFrom`'s reading of parameters is reduced to `OutputSchema`, for the default output names and the STRING types.
