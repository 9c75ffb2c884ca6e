# A verified model of highlight's ClickHouse query layer

This project models the core of `backend/clickhouse/query.go` in Dafny. That file is where the highlight backend turns
dashboard and search requests into ClickHouse queries, and turns the rows that come back into API results. The model
covers the logic that runs in process. Database I/O is replaced by inputs: the rows a query returns, the parsed SQL
statement, and so on.

Modules, one per file:

- `Common` (common.dfy): `Option` / `Result`, and the `strings` / `strconv` helpers the Go code relies on (prefix
  and suffix tests, `Contains`, lower-casing of ASCII letters only, trimming, splitting, replacing, integer formatting) and Go's
  truncating integer division. Also the metric aggregators
  and the per-resource table configuration (`model.TableConfig`: table name, key-to-column map, attribute column,
  body column).
- `Builder` (builder.dfy): the go-sqlbuilder `SelectBuilder` that the query code appends to. It is a class whose
  fields are the selected columns, the table, the list of WHERE predicates, the ordering, the limit and DISTINCT.
  Predicates are a datatype with an evaluator over rows, not SQL text.
- `Resolver` (resolver.dfy):
  - `getAttributeFilterCol`, the attribute lookup expression;
  - `getFnStr` / `getLimitFnStr`, the aggregate function text;
  - the history state column that `saveMetricHistory` chooses;
  - `formatColumn`.
- `Bucketing` (bucketing.dfy): the metrics query that `ReadMetrics` assembles:
  - the bucket count and bucket expressions of `getBucketing`;
  - the metric input of each expression;
  - the `g<i>` group aliases and their non-empty filters;
  - the top-N limit;
  - `applyBlockFilter`.
- `Assembly` (assembly.dfy): the result loop of `ReadMetrics`. Scanned rows become the bucket list, and nil buckets
  are interpolated for skipped and trailing indices. The loop is a method proved against a fold over the rows.
- `Decoder` (decoder.dfy): the row decoding of `readMetricsSql`. Each cell is classified by its kind and by its
  column's `_series` / `_group` suffix. The series map is shared by all rows.
- `Pagination` (pagination.dfy): keyset pagination:
  - `getSortOrders` and `useSamplingTable`;
  - the predicates and ordering of `makeSelectBuilder`, as a plan and as a method filling a `SelectBuilder`;
  - the window plan of `readObjects`.
- `Matcher` (matcher.dfy): the in-memory filter matcher: `matchesQuery`, `matchFilter`, `getChildValue`, `repr`
  and the `toString(...)` key unwrapping. Reflection over the row is an explicit field datatype. A Go panic is an
  explicit outcome.
- `Rewriter` (rewriter.dfy): `transformSql` and `GetTables` over a small ClickHouse AST. Each node carries an id,
  and the `priorVisit` / `ignoreList` maps keyed by node pointers are sets of ids. Also the guard against the
  project-id setting in `readMetricsSql`.
- `Keys` (keys.dfy): the in-memory merges at the end of `AllKeys` and `KeyValueSuggestionsAggregated`.

Where the documented behaviour and the code differ, the model follows the code:

- An unanchored wildcard `er%or` matches `eror`: the `%` may match nothing (`Matcher.WildcardMayBeEmpty`).
- Only a body value is passed through `QuoteMeta` before `%` becomes `.*`. On other fields the value is used as a
  pattern unescaped. A pattern that does not compile is a non-match there, not an error.
- The regular-expression operator never negates: `shouldMatch` is always true. A pattern that does not compile
  imposes nothing.
- Not-equal removes the first `-` anywhere in the value, not only a leading one (`Matcher.NotEqualDropsFirstDash`).
- NOT uses its first child and ignores the others. Without a child it panics.
- After the known-column mapping and a direct field, a dotted path is tried before the attribute column.

## Model

| member | source | states |
|---|---|---|
| Assembly.ToUint64 | backend/clickhouse/query.go:2001 | `uint64(x)` for a 64-bit `x`: the result is below 2^64 and equals `x` whenever `x` is already in range |
| Assembly.ToInt64 | backend/clickhouse/query.go:2033 | `int(bucketId)`: a 64-bit signed value that converts back to the same uint64 |
| Assembly.EmptyGroups | backend/clickhouse/query.go:1975 | the group keys before any scan: one empty string per group-by column |
| Assembly.EdgesTileRange | backend/clickhouse/query.go:2010-2011 | for min <= max and a positive count, bucket edges start at min, end at max and never decrease |
| Assembly.NilBuckets | backend/clickhouse/query.go:2007-2017 | one nil-valued bucket per expression for index i, in expression order, carrying that expression's aggregator and column, the groups and the edges of i and i+1 |
| Assembly.RowBuckets | backend/clickhouse/query.go:2020-2031 | one bucket per expression for the row's index, the k-th carrying the row's k-th value, the row's groups and edges |
| Assembly.Step | backend/clickhouse/query.go:1994-2034 | one iteration of the row loop: the scan comes first, so every row, even one skipped at or past the count, marks the result non-empty and replaces the shared sample factor, min, max and groups; a skipped row adds no bucket and keeps lastBucketId; a kept row sets lastBucketId to its own index and only appends to the buckets |
| Assembly.Fold | backend/clickhouse/query.go:1992-2034 | the loop state after the rows in order: a row was read exactly when the list is not empty; with no rows the state is the initial one; otherwise the shared groups and sample factor are those of the last row read |
| Assembly.Assemble | backend/clickhouse/query.go:1992-2058 | the result reports the bucket count as a uint64 and the last row's sample factor (0 with no rows), and its buckets begin with the loop's buckets; the trailing buckets are described by BucketsCoverEveryIndex, NoRowsAssemble and CappedWindowWithoutRows |
| Assembly.AppendNil | backend/clickhouse/query.go:2007-2017 | the inner loop over expressions appends exactly the nil buckets of one index |
| Assembly.AppendGaps | backend/clickhouse/query.go:2006-2018 | the interpolation loop appends exactly the nil buckets of every index in [from, to), index-major |
| Assembly.AppendRow | backend/clickhouse/query.go:2020-2031 | the loop over expressions appends exactly the row's buckets |
| Assembly.ReadMetricsBuckets | backend/clickhouse/query.go:1992-2058 | the result loop returns the fold of one step per row (skip at or past the count, else gap buckets then the row's buckets), then trailing nil buckets up to the count, over the date range when bucketing by timestamp and no row was read; the bucket count is `uint64(count)` |
| Assembly.GapIdsInRange | backend/clickhouse/query.go:2006-2009 | every interpolated bucket's index lies in [lastBucketId+1, bucketId) |
| Assembly.GapCovers | backend/clickhouse/query.go:2006-2018 | a gap holds a bucket for each of its indices and each expression |
| Assembly.GapLength | backend/clickhouse/query.go:2006-2018 | a gap from `first` to `stop` holds (stop - first) buckets per expression |
| Assembly.GapValuesNil | backend/clickhouse/query.go:2012-2015 | every interpolated bucket has a nil value and the closing row's groups |
| Assembly.StepKeepsCovering | backend/clickhouse/query.go:1994-2034 | one row keeps the loop invariant: last is -1 or an index below the count, every bucket is below the count, every index up to last has a bucket for every expression |
| Assembly.FoldCovering | backend/clickhouse/query.go:1994-2034 | the invariant holds after any sequence of rows, in any order |
| Assembly.BucketsCoverEveryIndex | backend/clickhouse/query.go:1992-2058 | whatever the row order, no emitted index reaches the count and every index below the count has a bucket for every expression |
| Assembly.FoldLastIsRowIndex | backend/clickhouse/query.go:2033 | lastBucketId is -1 or the index of some row read |
| Assembly.StepLengthAscending | backend/clickhouse/query.go:2006-2033 | a kept row past lastBucketId adds one bucket per expression for each index from lastBucketId+1 up to its own |
| Assembly.FoldLengthAscending | backend/clickhouse/query.go:1994-2034 | with strictly ascending row indices, exactly (lastBucketId+1) buckets per expression have been emitted |
| Assembly.AscendingRowsGiveExactCount | backend/clickhouse/query.go:1992-2055 | with strictly ascending row indices the result has exactly count buckets per expression |
| Assembly.SkippedRowsEmitNothing | backend/clickhouse/query.go:1994-2003 | a row at or past the count emits nothing and leaves lastBucketId alone, but still sets hasRows and the shared min, max and groups |
| Assembly.FoldAllSkipped | backend/clickhouse/query.go:1994-2003 | after only skipped rows nothing is emitted, lastBucketId is -1, hasRows says whether any row was read, and min, max and groups are the last row's |
| Assembly.NoRowsSpanDateRange | backend/clickhouse/query.go:2036-2055 | with no rows and timestamp bucketing the result is count nil buckets per expression over the date range, with empty group keys |
| Assembly.SkippedRowsDefeatDateRange | backend/clickhouse/query.go:1995-2040 | when every row read was skipped, the trailing buckets use the last skipped row's min, max and groups, not the date range |
| Assembly.ZeroCountEmitsNothing | backend/clickhouse/query.go:2001-2004 | with a zero count every row is skipped and no bucket is emitted, so the edge formula never divides by zero |
| Assembly.NoRowsAssemble | backend/clickhouse/query.go:2036-2055 | without rows and with timestamp bucketing the result is exactly the nil buckets of every index from 0 to the count over the date range, with empty groups |
| Assembly.GapAt | backend/clickhouse/query.go:2006-2018 | in a gap, the bucket of index i for expression k sits after the buckets of the earlier indices and is the k-th nil bucket of index i |
| Assembly.NoRowsBucketAt | backend/clickhouse/query.go:2036-2055 | without rows the result holds count buckets per expression, and bucket i*|exprs|+k is expression k's nil bucket for index i over the date range |
| Assembly.WindowEdge | backend/clickhouse/query.go:2010-2011 | when the range is exactly count windows of width w, the edge of index i is start + i*w |
| Assembly.CappedWindowBucketing | backend/clickhouse/query.go:1686-1691 | a window that divides the range more than MaxBuckets times is capped at MaxBuckets buckets, and the start moves to end - MaxBuckets*w |
| Assembly.CappedWindowWithoutRows | backend/clickhouse/query.go:2036-2055 | getBucketing (query.go:1686-1691) composed with the result loop: with timestamp bucketing, a capped window and no rows, the result has MaxBuckets nil buckets per expression, and bucket i of expression k is exactly one window wide, from (end - MaxBuckets*w) + i*w to the next window edge, with empty groups |
| Assembly.SharedLastIndexLeavesGroupGaps | backend/clickhouse/query.go:1992-2033 | lastBucketId is shared by all groups: for rows (0,a) (0,b) (1,a) (2,a) (2,b), group b gets no bucket 1 |
| Assembly.GapTakesClosingRowGroup | backend/clickhouse/query.go:2012 | gap buckets take the groups of the row that closes the gap: rows (0,a) and (3,b) fill indices 1 and 2 under b |
| Bucketing.EffectiveBucketCount | backend/clickhouse/query.go:1673-1693 | without a window the count is 1 for no bucketing, the requested count, or 48 by default, capped at 240 unless NoBucketMax and floored at 1, and the start is unchanged; with a window a capped count is exactly 240 and is the only case that moves the start, to end - 240 windows |
| Bucketing.WindowTilesRange | backend/clickhouse/query.go:1686-1691 | with a positive window over a forward range the count is non-negative, its windows fit in the effective range, and unless capped less than one window is left over |
| Bucketing.ShortRangeHasNoBuckets | backend/clickhouse/query.go:1686-1691 | a windowed count is not floored: a range shorter than one window gives zero buckets |
| Bucketing.GetBucketing | backend/clickhouse/query.go:1672-1724 | count and start as above; with no or timestamp bucketing the bucketed value is toFloat64(Timestamp) and the bounds are the (effective) start and end; with a field, its mapped column as a float, else its attribute through toFloat64OrNull (then listed as an attribute field), bounded by its MIN and MAX over the result |
| Bucketing.BucketIndexInRange | backend/clickhouse/query.go:1717 | the bucket index intDiv((v - min) * n, max - min) of a value strictly below the maximum lies in [0, n) |
| Bucketing.BucketIndex | backend/clickhouse/query.go:1717 | the bucket index `intDiv((v - min) * n, max - min)` is never negative for a value at or above the minimum; BucketIndexInRange bounds it below n strictly inside the range and MaximumFallsPastLastBucket shows it is n at the maximum |
| Bucketing.MaximumFallsPastLastBucket | backend/clickhouse/query.go:1717 | the index of the range's maximum is n, one past the last bucket, so the result loop skips those rows |
| Bucketing.MaximumDroppedExample | backend/clickhouse/query.go:1717 | bucketing [0, 10] into 2 puts the value 10 in the non-existent bucket 2 |
| Bucketing.ClosedBucketIndex | backend/clickhouse/query.go:1717 | the intended index over the closed range: always in [0, n), the maximum in the last bucket |
| Bucketing.ClosedIndexAgreesBelowMaximum | backend/clickhouse/query.go:1717 | the intended index agrees with the query's everywhere below the maximum |
| Bucketing.MetricInput | backend/clickhouse/query.go:1819-1847 | the per-expression input is the literal 1.0 exactly for a count or an empty column; a distinct count reads the mapped column or the attribute; a distinct-key count reads the trace-key attribute and needs it as a field; an unmapped column is an attribute field |
| Bucketing.ValueAggregatorsReadNumbers | backend/clickhouse/query.go:1826-1834 | for min, max, sum, average and the percentiles the input is a float conversion or the table's metric column |
| Bucketing.IndexedNamesDistinct | backend/clickhouse/query.go:1846 | aliases built from distinct indices (metric_input<i>, g<i>) are distinct |
| Bucketing.MetricInputItems | backend/clickhouse/query.go:1819-1847 | the loop selects, for expression i in order, its input under the alias metric_input<i>, and collects the attribute fields of all expressions in order |
| Bucketing.MetricFieldsStep | backend/clickhouse/query.go:1819-1847 | one more expression appends its own attribute fields |
| Bucketing.GroupColumn | backend/clickhouse/query.go:1851-1857 | a group key looked up without case folding: its mapped column as text, else its attribute as text, which is then an attribute field |
| Bucketing.GroupAliasesAt | backend/clickhouse/query.go:1859-1860 | the i-th group alias is g<i> |
| Bucketing.GroupAliasesDistinct | backend/clickhouse/query.go:1859-1860 | group aliases are pairwise distinct |
| Bucketing.NonEmptyPredsAt | backend/clickhouse/query.go:1864 | the i-th group filter is `g<i> != ''` |
| Bucketing.NonEmptyPredsKeepGroupedRows | backend/clickhouse/query.go:1864 | the group filters keep exactly the rows with a non-empty value for every group key |
| Bucketing.AddGroupColumns | backend/clickhouse/query.go:1849-1865 | the loop selects each group key's column under g<i> in order, collects their attribute fields, and adds to the builder exactly one non-empty filter per alias, changing nothing else |
| Bucketing.GroupColumnsStep | backend/clickhouse/query.go:1849-1865 | one more group key appends its item and its fields |
| Bucketing.GroupSelectAt | backend/clickhouse/query.go:1849-1862 | group item i selects the column of key i under g<i> |
| Bucketing.LimitCount | backend/clickhouse/query.go:1867-1873 | the top-N count is 10 unless given, the given value when at least 1, and never below 1 |
| Bucketing.UseLimit | backend/clickhouse/query.go:1874 | ranking applies exactly for a limit aggregator with at least one group-by key and a limit other than NoLimit; UseLimitExactlyUnlessNoLimit shows that a zero or negative limit still ranks |
| Bucketing.UseLimitExactlyUnlessNoLimit | backend/clickhouse/query.go:1867-1874 | for a grouped query with a limit aggregator, ranking applies exactly when the limit is not NoLimit: a zero or negative limit still ranks |
| Bucketing.LimitColumn | backend/clickhouse/query.go:1876-1886 | the ranking column: its mapped column (exact key), else its attribute as a number, then an attribute field; an absent column is the empty key |
| Bucketing.PartConds | backend/clickhouse/query.go:1385-1391 | one `partition = p AND max_block_number > n` disjunct per recorded block, in order |
| Bucketing.BlockConds | backend/clickhouse/query.go:1396-1402 | one `_partition_id = p AND _block_number > n` disjunct per recorded block, with every `-` removed from the partition |
| Bucketing.BlockFilter | backend/clickhouse/query.go:1376-1404 | nothing without block information; otherwise two conjuncts, the first restricting _part to active parts of the table with newer blocks |
| Bucketing.BlockCondsSelectNewBlocks | backend/clickhouse/query.go:1396-1403 | a row passes the block conjunct exactly when some recorded partition, dashes removed, is its partition id and its block is newer than the recorded one |
| Bucketing.BlockCondSelects | backend/clickhouse/query.go:1397-1400 | one disjunct holds exactly when the partition matches and the block is newer |
| Bucketing.ApplyBlockFilter | backend/clickhouse/query.go:1376-1404 | applyBlockFilter adds exactly the block filter's conjuncts when a saved state has block information, and changes nothing else |
| Bucketing.EffectiveConfig | backend/clickhouse/query.go:1772-1784 | with a sample ratio the sampling table with its SAMPLE clause is read, else the primary table; a distinct-key count clears the default filter |
| Bucketing.MetricInputSelect | backend/clickhouse/query.go:1819-1847 | one metric_input<i> item per expression, in order |
| Bucketing.ValueFns | backend/clickhouse/query.go:1913-1915 | one column per expression, in order: the text of `getFnStr` for expression i over `metric_input<i>` (sampling always on, the state form when saving), used as it is, followed by ` as metric_value<i>` |
| Bucketing.UnknownAggregatorLeavesBareAlias | backend/clickhouse/query.go:1914 | an aggregator `getFnStr` does not know gives the column ` as metric_value<i>`, with no function text and no `null` |
| Bucketing.ValueColumnsDistinctAliases | backend/clickhouse/query.go:1913-1915 | after their function texts, two value columns carry different aliases |
| Bucketing.OuterColumns | backend/clickhouse/query.go:1895-1903 | GROUP BY and ORDER BY lead with the bucket index, add limit_metric or limit_rank only under the top-N limit, and end with the group aliases |
| Bucketing.ReadMetricsQuery | backend/clickhouse/query.go:1762-1943 | a request without raw SQL fails exactly when it has no expressions |
| Bucketing.MetricsQueryShape | backend/clickhouse/query.go:1786-1943 | project scoping is the first conjunct and the group filters the last; GROUP BY and ORDER BY lead with the bucket index and end with the aliases; the ranking metric and the rank cut-off (at least 1, with limit_rank ordered) appear together, exactly when the top-N limit applies; one value column per expression |
| Decoder.Emit | backend/clickhouse/query.go:1650-1659 | a row emits exactly one bucket per column present in the shared series map, no more and no fewer |
| Decoder.DecodeRows | backend/clickhouse/query.go:1573-1660 | one bucket map per scanned row, and the series map only ever holds indices of selected columns |
| Decoder.ReadMetricsSql | backend/clickhouse/query.go:1573-1660 | the Go row loop, with the series map created once before it, emits per row what the functional decoder emits |
| Decoder.ReadRow | backend/clickhouse/query.go:1579-1648 | the column loop of one row leaves the bucket id, bucket value, groups and series map the column-by-column classification gives |
| Decoder.ReadCell | backend/clickhouse/query.go:1586-1647 | the type switch on one cell: `_series` times, bools and parsable strings and every non-group number record a series value, NULL records nil, strings/bools and `_group` times and numbers add a group key, any other time sets the bucket id and value, anything else changes nothing |
| Decoder.ScanCell | backend/clickhouse/query.go:1586-1647 | one cell adds at most one group text; ScanCellBucket and ScanRowResults state which cells set the bucket fields and the series value |
| Decoder.ScanRow | backend/clickhouse/query.go:1579-1648 | a row yields at most one group text per column; ScanRowKeys, ScanRowResults, ScanRowGroups and ScanRowBucket state its series map, groups and bucket fields exactly |
| Decoder.ScanRowKeys | backend/clickhouse/query.go:1573-1647 | scanning a row never removes a column from the series map and adds only columns of that row |
| Decoder.ScanRowResults | backend/clickhouse/query.go:1598-1646 | after a row, a column whose cell records a value holds that value; every other column keeps exactly what earlier rows left (a failed float parse adds nothing) |
| Decoder.ScanRowGroups | backend/clickhouse/query.go:1581-1643 | a row's group list is the texts of its group cells in column order (RFC3339 times, `true`/`false`, plain numbers, raw strings) |
| Decoder.ScanRowBucket | backend/clickhouse/query.go:1579-1604 | a row's bucket id and value come from its last plain time column, the id through the uint64 conversion; a row with none gets id 0 and a nil value |
| Decoder.ScanCellBucket | backend/clickhouse/query.go:1597-1605 | only a time cell in a column with neither suffix touches the bucket id and value |
| Decoder.EmittedColumnsNeverShrink | backend/clickhouse/query.go:1573 | because the series map outlives each row, every column that emitted a bucket in a row emits one in every later row |
| Decoder.LastRowEmitsResults | backend/clickhouse/query.go:1650 | the buckets of the last row are exactly the columns of the final series map |
| Decoder.FailedParseRepeatsPreviousValue | backend/clickhouse/query.go:1607-1659 | a `count_series` string column reading "5" then "n/a" emits, in the second row, the value 5 again with metric type `count` |
| Keys.MatchingDefaults | backend/clickhouse/query.go:978-980 | a reserved key is kept exactly when there is no query or its lower-cased name contains the lower-cased query |
| Keys.DefaultWeights | backend/clickhouse/query.go:982-986 | every matching reserved key enters the merge once, in order, with weight 1 |
| Keys.Grouped | backend/clickhouse/query.go:988-990 | the grouping has one entry per distinct key name of the merged list |
| Keys.Insert | backend/clickhouse/query.go:1004-1006 | inserting into a list ordered by decreasing weight keeps it ordered and adds exactly the one entry |
| Keys.InsertDistinct | backend/clickhouse/query.go:1004-1006 | inserting an entry with a new name into a list of distinct names keeps the names distinct |
| Keys.SortDescending | backend/clickhouse/query.go:1004-1006 | the sort returns the same entries, as many as before, ordered by decreasing weight |
| Keys.SortDistinct | backend/clickhouse/query.go:1004-1006 | sorting entries with distinct names keeps them distinct |
| Keys.Kept | backend/clickhouse/query.go:1008-1010 | the truncation keeps a prefix of at most 25 entries, and all of them when there are fewer |
| Keys.TopNames | backend/clickhouse/query.go:1004-1014 | the first 25 names of a ranking of the groups are the heaviest keys: min(25, number of keys) distinct names, heaviest first, none left out heavier than one kept |
| Keys.KeptNamesDistinct | backend/clickhouse/query.go:1008-1014 | the returned names are distinct and each is a key of the merged list |
| Keys.KeptNamesOrdered | backend/clickhouse/query.go:1004-1014 | the returned names come in order of decreasing summed weight |
| Keys.LeftOutIsLighter | backend/clickhouse/query.go:1008-1010 | a key cut off by the limit weighs no more than any returned key |
| Keys.MergeKeys | backend/clickhouse/query.go:969-1014 | the merge of the store's weighted keys and the matching reserved keys at weight 1 returns the heaviest keys by summed weight, at most 25, each once, heaviest first |
| Keys.Aggregate | backend/clickhouse/query.go:993-1002 | the range over the grouping yields one entry per grouped name, each carrying that name's sum, names distinct |
| Keys.AggregatedRanks | backend/clickhouse/query.go:993-1006 | the aggregated entries, once sorted, rank every key of the merged list by its total, each once |
| Keys.ValuesFor | backend/clickhouse/query.go:866-870 | the values collected for a key never outnumber the rows |
| Keys.CollectValues | backend/clickhouse/query.go:851-872 | each key present maps to its rows' suggestions in row order; a key absent has no rows |
| Keys.RegroupSuggestions | backend/clickhouse/query.go:851-881 | one entry per requested key, in the requested order, each listing exactly that key's values in row order (none for a key no row has) |
| Keys.ValuesForExactly | backend/clickhouse/query.go:866-870 | a suggestion is listed under a key exactly when some row with that key carries it |
| Keys.ValuesForPartition | backend/clickhouse/query.go:866-870 | each row is counted once: the rows listed under a key and the rows of other keys together are all the rows |
| Matcher.ChildValueLoop | backend/clickhouse/query.go:1104-1118 | the Go loop over the dot-separated parts returns what the recursive walk returns: not found at an invalid value, a panic on a field lookup in a non-struct, otherwise `repr` of the value reached |
| Matcher.Repr | backend/clickhouse/query.go:2134-2143 | `repr` follows pointers to what they point at, prints a bool as true or false and a string as itself, and prints an invalid value as `<invalid Value>` |
| Matcher.GetChildValue | backend/clickhouse/query.go:1104-1118 | a key without a dot never panics (PlainKeyIsDirectField gives its value); a dotted key can (StringPartPanics) or stop at a nil pointer (NilPointerEndsPath) |
| Matcher.PlainKeyIsDirectField | backend/clickhouse/query.go:1104-1118 | a key without a dot resolves to the row field of that name, through one pointer, and is not found when the field is missing or a nil pointer |
| Matcher.NilPointerEndsPath | backend/clickhouse/query.go:1105-1112 | a nil pointer part-way along a dotted path ends the walk as not found |
| Matcher.StringPartPanics | backend/clickhouse/query.go:1109 | stepping into a string field part-way along a dotted path panics |
| Matcher.WordRun | backend/clickhouse/query.go:1124 | the run of `\w` characters at a position is maximal: all of it is word characters and it stops at a non-word character or the end |
| Matcher.FirstWrapped | backend/clickhouse/query.go:1124-1131 | finds the leftmost `toString(\w+)` match, or reports that there is none anywhere after the start |
| Matcher.UnwrapPlainKey | backend/clickhouse/query.go:1128-1131 | a key without `toString(` is used as it is |
| Matcher.UnwrapWrappedKey | backend/clickhouse/query.go:1128-1131 | `toString(name)` with a word-character name unwraps to `name` |
| Matcher.TokensAreMaximalRuns | backend/clickhouse/query.go:1121-1142 | a value is a body term exactly when it occurs in the body as a non-empty maximal run of `[0-9A-Za-z_:*]` characters |
| Matcher.TokensAreRuns | backend/clickhouse/query.go:1138-1142 | every non-empty piece of the split body is a maximal run of token characters |
| Matcher.RunsAreTokens | backend/clickhouse/query.go:1138-1142 | every maximal run of token characters in the body is one of the split pieces |
| Matcher.SurroundedWildcardIsContains | backend/clickhouse/query.go:1154-1163 | on the body, the quoted pattern `%w%` matches exactly the bodies that contain `w` |
| Matcher.WildcardMayBeEmpty | backend/clickhouse/query.go:1155 | the wildcard may match nothing: `er%or` matches `eror` |
| Matcher.FieldParts | backend/clickhouse/query.go:1188 | SplitN on `_` gives one part exactly when the key has no `_`, two otherwise |
| Matcher.SliceKeyWithoutUnderscore | backend/clickhouse/query.go:1186-1196 | without `_` in the key, the slice scan panics at an entry whose type is the whole key, and yields "" when no entry has that type |
| Matcher.SliceKeyWithUnderscore | backend/clickhouse/query.go:1186-1196 | with `_`, the scan yields the value of the first entry whose type and name are the key's two parts, or "" when there is none |
| Matcher.CheckValuesIsForall | backend/clickhouse/query.go:1201-1224 | the loop that returns false at the first failing value accepts exactly when every value passes |
| Matcher.ResolveRowValue | backend/clickhouse/query.go:1171-1199 | a key of the known-column map never makes the filter invalid; a direct field that is not mapped gives `repr` of that field; the filter is invalid only for a key that is neither mapped nor a field, that no dotted path reaches, with no attribute column; a dot-free mapped key onto a dot-free column never panics |
| Matcher.ValuePasses | backend/clickhouse/query.go:1201-1222 | a regexp value that does not compile lets the row value through; a `%` value whose pattern does not compile rejects it; a plain value without `%` accepts exactly the equal row value; not-equal on a value without `-` rejects exactly the equal row value |
| Matcher.MatchFilter | backend/clickhouse/query.go:1126-1224 | a body filter always yields a match verdict; the leaf panics exactly when resolving a non-body key panics, and is invalid exactly when a non-body key resolves to nothing |
| Matcher.LeafNeedsEveryValue | backend/clickhouse/query.go:1171-1224 | a non-body leaf whose key resolves matches exactly when every value accepts the row value (regexp: must match if it compiles; `%`: the unquoted pattern must compile and match; not-equal: differs from the value minus its first `-`; else equal) |
| Matcher.BodyLeafNeedsEveryValue | backend/clickhouse/query.go:1132-1169 | a body leaf matches exactly when every value accepts the body (regexp if it compiles; the quoted wildcard; else a body term) |
| Matcher.NotEqualDropsFirstDash | backend/clickhouse/query.go:1216-1219 | not-equal `a-b` rejects the row value `ab` and accepts `a-b` |
| Matcher.SingleIsSingletonList | backend/clickhouse/query.go:1233 | evaluating one child is `matchesQuery` on the one-element list holding it |
| Matcher.AndNeedsEveryChild | backend/clickhouse/query.go:1231-1236 | when no child panics, AND matches exactly when every child matches |
| Matcher.AllChildrenFrom | backend/clickhouse/query.go:1232-1236 | the AND loop from child `j` on continues exactly when every later child matches, and fails otherwise |
| Matcher.OrNeedsSomeChild | backend/clickhouse/query.go:1237-1247 | when no child panics, OR matches exactly when some child matches |
| Matcher.AnyChildFrom | backend/clickhouse/query.go:1239-1247 | the OR loop from child `j` on continues exactly when some later child matches, and fails otherwise |
| Matcher.NotNegatesFirstChild | backend/clickhouse/query.go:1248-1249 | NOT returns the negation of its first child, ignoring the rest, and panics without a child |
| Matcher.FirstStopDecides | backend/clickhouse/query.go:1229-1266 | the first filter that ends the list decides its result, whatever follows it |
| Matcher.ListIsConjunction | backend/clickhouse/query.go:1228-1266 | when no filter panics or ends the list as a match, a list matches exactly when every filter does |
| Matcher.InvalidLeafEndsList | backend/clickhouse/query.go:1251-1259 | a leaf whose key resolves to nothing makes its list a non-match under OR and a match otherwise, ignoring the rest of the list; under NOT it therefore makes the NOT false |
| Matcher.MatchesQuery | backend/clickhouse/query.go:1227-1267 | the empty list matches; a list whose filters all let it go on matches; a panic comes from some filter that panics, and a non-match from some filter that ends the list as a non-match |
| Pagination.SortKeyColumn | backend/clickhouse/query.go:2151-2163 | the sort key (timestamp by default) is a mapped column exactly when the table maps it, else a lookup of that key in the attribute map |
| Pagination.SortOrders | backend/clickhouse/query.go:2145-2176 | forward and backward share the sort key; backward is forward's opposite direction; forward is ascending exactly when the page or the sort asks for ascending |
| Pagination.BackwardReversesForward | backend/clickhouse/query.go:2165-2173 | the backward order lists rows in exactly the reverse of the forward order, UUID tie-break included |
| Pagination.OrdersAreTotal | backend/clickhouse/query.go:2172-2173 | each order is total on distinct rows: key ties fall to the UUID |
| Pagination.DefaultOrderIsTimestamp | backend/clickhouse/query.go:2151-2170 | without a sort, the key is timestamp and the order is descending unless the page asks for ascending |
| Pagination.UseSamplingTable | backend/clickhouse/query.go:2178-2181 | the sampling table is used exactly for an explicit sort whose column, lower-cased, is not `timestamp`; never without a sort |
| Pagination.TimestampSortKeepsMainTable | backend/clickhouse/query.go:2180 | a sort on "Timestamp" stays on the main table |
| Pagination.OtherSortUsesSamplingTable | backend/clickhouse/query.go:2178-2181 | a sort on `duration`, in either direction, reads the sampling table |
| Pagination.IntVals | backend/clickhouse/query.go:577 | the project ids as bound values, one per id in order |
| Pagination.ProjectScopeMeansMembership | backend/clickhouse/query.go:574-578 | whether written as `ProjectId = id` or `ProjectId IN ids`, a row is in scope exactly when its project is a requested one |
| Pagination.CursorPredsSelectSuccessors | backend/clickhouse/query.go:586-604 | the three keyset predicates select exactly the rows strictly after the cursor in (Timestamp, UUID) order, bounded by the date range's far end |
| Pagination.AtPredsSelectCursorRow | backend/clickhouse/query.go:607-613 | the At predicates select the cursor's row and nothing else |
| Pagination.CursorPreds | backend/clickhouse/query.go:584-608 | three predicates, the last a two-way OR; CursorPredsSelectSuccessors states which rows they select and KeysetPredsOnTimestamp that they are the timestamp case of KeysetPreds |
| Pagination.AtPreds | backend/clickhouse/query.go:611-617 | two predicates; AtPredsSelectCursorRow shows they select the cursor's row and nothing else |
| Pagination.RangePreds | backend/clickhouse/query.go:643-644 | two predicates; RangePredsSelectDateRange shows they keep exactly the rows inside the date range |
| Pagination.RangePredsSelectDateRange | backend/clickhouse/query.go:643-644 | without a cursor a row is kept exactly when its timestamp lies in [start, end] |
| Pagination.SelectPlan | backend/clickhouse/query.go:564-659 | a plan always starts with project scoping, and its order, when there is one, is on the request's sort key |
| Pagination.CursorPrecedence | backend/clickhouse/query.go:580-651 | After (if longer than one character) wins over At, which wins over Before: dropping the other cursors changes nothing |
| Pagination.DecodeFailureIsTheError | backend/clickhouse/query.go:580-639 | a request fails exactly when its active cursor does not decode, and then with the decoder's error |
| Pagination.PlanOrder | backend/clickhouse/query.go:580-654 | forward order after a cursor and for a plain listing unless only counting; backward before a cursor; none at a cursor |
| Pagination.KeysetFollowsSortOrder | backend/clickhouse/query.go:580-639 | for the timestamp sort key, when page and sort agree on direction, After selects only rows that follow the cursor in the forward order and Before only rows that follow it in the backward order |
| Pagination.AfterPlan | backend/clickhouse/query.go:584-611 | with a usable After cursor that decodes, the plan is project scoping, then the three keyset predicates in the page direction, then the search filters, ordered forward |
| Pagination.EvalAllConcat | backend/clickhouse/query.go:584-611 | a row passes a concatenation of predicate lists exactly when it passes both lists |
| Pagination.AfterRowPasses | backend/clickhouse/query.go:584-611 | a row of the project that follows the cursor in (Timestamp, UUID) order in the page direction, within the date bound, passes every predicate of the After plan |
| Pagination.OtherSortKeyPagesBackward | backend/clickhouse/query.go:584-611 | with `duration` ascending, the page after a cursor orders by Duration ascending, yet its predicates keep a newer row of duration 5 although the cursor's row has duration 50: the row precedes the cursor in the page's own order |
| Pagination.AscendingSortOnDescendingPage | backend/clickhouse/query.go:2165-2170 | with the sort ascending and the page direction descending, the page is ordered ascending while the After predicates keep the rows below the cursor: a row at time 0 passes and precedes the cursor at 50 |
| Pagination.KeysetPreds | backend/clickhouse/query.go:584-608 | the keyset predicates for an ordering on a physical column: three predicates bounding the column on the cursor's side, the date range on the far end, and the column or the UUID strictly |
| Pagination.KeysetPredsOnTimestamp | backend/clickhouse/query.go:584-608 | on the Timestamp column the keyset predicates are exactly those the code writes |
| Pagination.KeysetPredsSelectSuccessors | backend/clickhouse/query.go:584-608 | the keyset predicates select exactly the rows that follow the cursor in the ordering, within the date bound |
| Pagination.AlignedKeysetFollowsSortOrder | backend/clickhouse/query.go:580-639 | with the keyset built from the page's own orders, an After cursor keeps only rows that follow it in the forward order and a Before cursor only rows that follow it in the backward order, for any physical sort column and any pair of directions |
| Pagination.MakeSelectBuilder | backend/clickhouse/query.go:564-659 | returns the decoder's error, or a fresh builder over the table with the given columns, the plan's predicates in append order and its order, no limit |
| Pagination.ReadObjectsPlan | backend/clickhouse/query.go:69-156 | the windows read the sampling table when the sort needs it, the outer order is the main table's forward order; at a cursor three windows of limit/2+1, unlimited and limit/2+1 rows with no outer limit, otherwise one window and an outer limit of limit+1 |
| Pagination.AtWindowsSurroundCursor | backend/clickhouse/query.go:87-126 | around an At cursor the windows select the rows after the cursor upward (the before window has no direction), the cursor's own row, and the rows after it downward |
| Pagination.HalfWindowSize | backend/clickhouse/query.go:101 | `limit/2 + 1` is at least 1 and two windows cover limit+1 rows for a non-negative limit; Go's division truncates a negative limit (-3 gives 0) |
| Resolver.GetAttributeFilterCol | backend/clickhouse/query.go:1357-1374 | with an attributes table, the first matching value of the key, converted by `op` when given; otherwise `column[key]`, wrapped in `op` when given; the key is always a bound parameter |
| Resolver.FirstValue | backend/clickhouse/query.go:1366 | the first value stored under a key: present exactly when some pair has that key, and then one of that key's values |
| Resolver.AttributeFormsAgree | backend/clickhouse/query.go:1357-1374 | the map form and the attribute-table form of one lookup give the same converted first value whenever the key is present; when it is absent the map form converts "" and the table form gives "" |
| Resolver.GetLimitFnStr | backend/clickhouse/query.go:1269-1294 | the ranking aggregate is empty exactly for an aggregator it does not know |
| Resolver.GetFnStr | backend/clickhouse/query.go:1296-1355 | the value aggregate is empty exactly for an aggregator it does not know |
| Resolver.StateFormTakesPrecedence | backend/clickhouse/query.go:1296-1355 | when the result is saved, sampling does not change the aggregate, and the text is a `...State(` call |
| Resolver.StateFormIsStateCall | backend/clickhouse/query.go:1296-1355 | every known aggregator's saved form contains `State(` |
| Resolver.SamplingScalesOnlyCountAndSum | backend/clickhouse/query.go:1298-1304 | only count and sum depend on sampling; every other aggregate is the same with and without it |
| Resolver.LimitFnIsFinalForm | backend/clickhouse/query.go:1276-1286 | for avg and the percentiles the ranking aggregate is the shown (not saved) value aggregate itself |
| Resolver.HistoryStateColumn | backend/clickhouse/query.go:1429-1452 | the history state column is known exactly for the aggregators the switch names, and always ends in `State` |
| Resolver.StateColumn | backend/clickhouse/query.go:1431-1451 | a state column name ends in `State` |
| Resolver.HistoryColumns | backend/clickhouse/query.go:1416-1456 | the insert list starts MetricId, Timestamp, MaxBlockNumberState; the select list carries max_block_number and metric_value0 in third and fourth place; GroupByKey comes last exactly when the query is grouped; with no expressions the aggregator is count |
| Resolver.HistoryColumnsAlign | backend/clickhouse/query.go:1416-1456 | the insert and select lists have the same length exactly when the first aggregator is one the switch knows (or there is none) |
| Resolver.FormatColumn | backend/clickhouse/query.go:2063-2069 | `input AS column`, with an empty input written as null |
| Rewriter.TransformSql | backend/clickhouse/query.go:191-220 | nil SQL is refused with its message; a parse error, a statement count other than 1, and a settings clause anywhere in the statement are errors |
| Rewriter.RewriteStatement | backend/clickhouse/query.go:210-220 | a statement with a settings clause anywhere in it is refused before any select is visited |
| Rewriter.CheckedSql | backend/clickhouse/query.go:1531-1538 | the rewritten query is accepted exactly when the rewrite succeeds and its printed text does not name the project-id setting, so accepted SQL never names it |
| Rewriter.ProcessSelect | backend/clickhouse/query.go:225-510 | a refused FROM is an error; a select not over a resource table comes back unchanged; a resource select with a project count other than 1 is an error; on success every node of the result is marked visited |
| Rewriter.Transform | backend/clickhouse/query.go:225-510 | the select visitor keeps each node's kind: a select comes back a select and any other node stays a non-select; EverySelectVisited and TransformSkipsPlainTrees state the rest |
| Rewriter.FromCheck | backend/clickhouse/query.go:231-262 | no FROM means no resource table; a resource table is found only in a plain table FROM, exactly when it is a table identifier naming one of the resource tables; an error comes only from a FROM that is a join or not a table expression |
| Rewriter.SampleFactored | backend/clickhouse/query.go:354-359 | a function name is either kept or prefixed with `any(_sample_factor) * `, and it is prefixed exactly when the table name contains `sample` and the name contains `sum` or `count`, case folded |
| Rewriter.ScopeWhere | backend/clickhouse/query.go:474-505 | the scoped WHERE is always an AND; an original WHERE is kept, in parentheses, as its left operand; the time range is added exactly when there is no original or it does not name Timestamp |
| Rewriter.AllNodes | backend/clickhouse/query.go:225-229 | the visiting order ends at the node itself, after all its descendants (children before parents) |
| Rewriter.ColumnIdent | backend/clickhouse/query.go:297-313 | an identifier already visited, `*`, ignored or naming an alias keeps its name and, like every other, keeps its identity |
| Rewriter.ReplaceColumns | backend/clickhouse/query.go:296-315 | the column pass keeps a select a select; ColumnsRenameEachIdentifier, ColumnsAtNode and ColumnsSkipVisited state what it renames |
| Rewriter.ColumnsRenameEachIdentifier | backend/clickhouse/query.go:296-315 | the column pass renames identifiers one by one, in visiting order, and nothing else: the k-th identifier of the output is the k-th of the input under the rule (kept; the mapped column; or `attr['name']`) |
| Rewriter.ColumnsAtNode | backend/clickhouse/query.go:297-313 | at one node, the column pass rewrites the children in place and renames the node's own identifiers under the rule |
| Rewriter.ColumnsSkipVisited | backend/clickhouse/query.go:297-300 | a tree whose nodes were all visited comes out of the column pass unchanged |
| Rewriter.FunctionNode | backend/clickhouse/query.go:318-363 | the function pass on one node fails exactly when the node is a `$time_interval` call not yet visited with no argument list, not one argument, or an argument that is not a string literal |
| Rewriter.ReplaceFunctions | backend/clickhouse/query.go:317-363 | the function pass never hands back a fresh-id counter below the one it was given and keeps a select a select; FunctionsFailExactly and FunctionsLeaveNoPlaceholder state the rest |
| Rewriter.FunctionsFailExactly | backend/clickhouse/query.go:317-363 | the function pass over a select fails exactly when some not-yet-visited `$time_interval` call in it is malformed |
| Rewriter.FunctionsLeaveNoPlaceholder | backend/clickhouse/query.go:324-352 | after a successful function pass no `$time_interval` call is left outside the visited nodes |
| Rewriter.FunctionsSkipVisited | backend/clickhouse/query.go:318-321 | a tree whose nodes were all visited comes out of the function pass unchanged |
| Rewriter.EveryTableRenamed | backend/clickhouse/query.go:365-375 | after the table pass every table identifier not yet visited names the configured table |
| Rewriter.ReplaceTables | backend/clickhouse/query.go:365-375 | the table pass keeps a select a select; EveryTableRenamed and TablesSkipVisited state what it renames |
| Rewriter.TablesSkipVisited | backend/clickhouse/query.go:366-369 | a tree whose nodes were all visited comes out of the table pass unchanged |
| Rewriter.VisitedTreeUntouched | backend/clickhouse/query.go:265-390 | over visited nodes the ignore pass collects nothing, the column, function and table passes change nothing and no `Timestamp` counts for the WHERE check |
| Rewriter.ScopeOfVisited | backend/clickhouse/query.go:269-290 | over visited nodes the ignore pass collects no ids and no aliases, and no identifier counts as a `Timestamp` mention |
| Rewriter.EverySelectVisited | backend/clickhouse/query.go:392-396 | after the visitor, the visited set has only grown and every select of the result, with everything under it (the filters it added included), is marked visited |
| Rewriter.ProjectColumn | backend/clickhouse/query.go:417-420 | the project column is `ProjectID` exactly for sessions and errors, `ProjectId` otherwise |
| Rewriter.ScopeWhereConjuncts | backend/clickhouse/query.go:474-505 | the scoped WHERE keeps every conjunct of the original first, then the project filter, then `Timestamp >= start` and `Timestamp <= end` exactly when there was no WHERE or it does not name `Timestamp` |
| Rewriter.ResourceSelectScoped | backend/clickhouse/query.go:398-505 | a resource select is rewritten only with exactly one project id, and then its WHERE has that project's filter among its conjuncts |
| Rewriter.TransformSkipsPlainTrees | backend/clickhouse/query.go:225-229 | the select visitor leaves a tree without selects, and the visited set, as they are |
| Rewriter.FlatResourceQueryScoped | backend/clickhouse/query.go:191-522 | end to end, a query with one select over a resource table is rewritten only with exactly one project id, and its WHERE then carries that project's filter |
| Rewriter.GetTables | backend/clickhouse/query.go:533-562 | a parse error or a statement count other than 1 is an error; otherwise the resource-table names reached in visiting order, de-duplicated |
| Rewriter.GetTablesReport | backend/clickhouse/query.go:545-561 | GetTables reports resource tables only, each once, in order of first occurrence, and exactly the resource tables the statement names |
| Rewriter.ResourceNamesExactly | backend/clickhouse/query.go:547-553 | a name is collected exactly when some table identifier of the statement names that resource table |
| Rewriter.ResourceNames | backend/clickhouse/query.go:524-531 | only names of the six resource tables are collected |
| Rewriter.Uniq | backend/clickhouse/query.go:561 | de-duplication keeps exactly the values of its input |
| Rewriter.UniqKeepsFirstOccurrences | backend/clickhouse/query.go:561 | de-duplication keeps each value once, in the order of first occurrence |

## Left out

- Store I/O is not modelled. This covers `Query` / `Exec`, row iteration and `Scan`, `clickhouse.Context` settings,
  tracing spans, `getSamplingStats`, the inserts of `saveMetricHistory`, and the query-and-scan bodies of
  `AllKeys`, `KeyValueSuggestionsAggregated` and `readObjects`. These are external effects; the rows they return
  are inputs to the model, and a scan error is not modelled.
- SQL parsing and printing (`sqlparser`) and go-sqlbuilder rendering are foreign libraries. Parsing and printing are
  function parameters (`parse`, `render`). The builder is kept as structure (`Builder.SelectBuilder`), and the SQL
  text of its predicates is not produced.
- Collaborators whose code is not part of this model are parameters, uninterpreted:
  - `decodeCursor` (`Pagination.CursorDecoder`, whose error is passed through);
  - `parser.AssignSearchFilters` (`Pagination.SearchFilters`);
  - `model.GetAttributesColumn` (`TableConfig.attributesColumn`);
  - `getConnection`.
- `addAttributes`, `addAttributesParser`, `getAttributeFields` and `makeLogLevel` are not part of this model.
  - In the rewriter, `addAttributesParser` is taken to leave the select as it is.
  - The `fields` list of attribute keys that the column pass collects for it is not kept.
- The regular-expression engine (`regexp.Compile`, `MatchString`, `Match`) is a parameter, `Matcher.Regexp`. Only
  the QuoteMeta'd `%` wildcard on the body column is matched concretely, with `.` not matching a newline.
- Floating point is modelled as exact reals. This covers float64 values, summation in `lo.SumBy`, the bucket edge
  arithmetic, the sample factor, and `float64(int)` conversions; rounding is not modelled.
  - `strconv.ParseFloat`, `strconv.FormatFloat` and `time.Format(RFC3339)` are parameters (`Decoder.Formats`).
- Reflection (`reflect.New` on driver scan types, `FieldByName`, `Kind`) is replaced by explicit datatypes:
  - `Decoder.Cell`, a scanned cell after pointer unwrapping;
  - `Matcher.FieldValue`, a row field.
- `expandJSON`, JSON marshalling, and the `time.Now()` defaults of the date range are not modelled. Dates are
  inputs in Unix seconds.
- Go map iteration order is unspecified and is not modelled:
  - `Decoder.Emit` returns a row's buckets as a map keyed by column index, not as an ordered list;
  - `Keys.Aggregate` takes the groups in an arbitrary order.
- Keys.SortDescending: `sort.Slice` is not stable, so this is one ordering by decreasing weight, and equal weights
  may come out in another order in Go. `Keys.MergeKeys` therefore promises only the heaviest-keys property, not a
  particular order among ties.
- Integer division by zero is excluded by preconditions rather than modelled as a panic: a zero `BucketWindow`
  in `Bucketing.EffectiveBucketCount`, `Bucketing.GetBucketing` and `Bucketing.ReadMetricsQuery`.
- `input.Params == nil` in `transformSql` (a nil dereference when the date range is read) is not modelled: the
  date range is always present in `Rewriter.SqlInput`.
- `input.ProjectIDs[0]` in `readMetricsSql` is not modelled, so an empty project list after a rewrite of a
  non-resource query is not covered; it only sets the connection's setting.
- The rewriter works on values, not on pointers: update in place, and pointer aliasing between AST nodes, are
  not modelled.
  - A node's identity is its id, and new nodes get fresh ids.
  - Identifier quoting (`QuoteType`) and the exact printing of aliases are left to the printer.
- Nil and empty value lists for a key without rows in `KeyValueSuggestionsAggregated` are both the empty sequence.
- The `Type` of the keys returned by `AllKeys` is not modelled: the merge returns names only, as the aggregated
  `QueryKey`s carry only their `Name`.
- The `_sample_factor` read from the sampling table, and the sample ratio chosen for `ReadMetrics`, are inputs.
- The history timestamp expression of `saveMetricHistory` is kept as a placeholder column name.
- Common.ToLower: `strings.ToLower` maps every rune through `unicode.ToLower`, but the model folds only the ASCII
  letters `A`-`Z` and leaves every other character unchanged. The members below inherit this gap; they agree
  with the Go code on every input whose upper-case letters are all ASCII.
- GetBucketing: the bucket-by key is folded by the ASCII-only `Common.ToLower` before the `KeysToColumns` lookup
  (query.go:1701), so a key such as `SERVİCE_NAME` (with U+0130) finds the mapped column in Go but falls through to
  the attribute lookup, and adds an attribute field, in the model.
- MetricInput: the two `KeysToColumns` lookups (query.go:1821 and 1828) use the ASCII-only `Common.ToLower`; a key
  with a non-ASCII capital that Go folds onto a mapped key reads the attribute map in the model.
- MatchingDefaults: the containment test (query.go:979) folds case with the ASCII-only `Common.ToLower`; the query
  made of U+212A (KELVIN SIGN) matches every reserved key containing `k` in Go and none in the model.
- UseSamplingTable: the test against `timestamp` (query.go:2180) uses the ASCII-only `Common.ToLower`; the sort
  column `TİMESTAMP` (with U+0130) stays on the main table in Go and goes to the sampling table in the model.

## Findings

| source | as written | input that shows it | evidently intended | confidence | as-written member | corrected member |
|---|---|---|---|---|---|---|
| backend/clickhouse/query.go:1717 | the bucket index is `intDiv((v - min) * n, max - min)`, and a value equal to the range's maximum gets index `n` | a field bucketed over [0, 10] into 2 buckets: the value 10 gets index 2, and the result loop skips it (index ≥ bucket count, line 2001), so rows at the maximum are dropped | the maximum falls in the last bucket, `n - 1` | medium; not executed | Bucketing.MaximumFallsPastLastBucket, Bucketing.MaximumDroppedExample | Bucketing.ClosedBucketIndex, Bucketing.ClosedIndexAgreesBelowMaximum |
| backend/clickhouse/query.go:584-611 | the After and Before predicates compare `(Timestamp, UUID)` with the cursor, whatever the sort column; `getSortOrders` (lines 2151-2163) orders the page by the requested sort column | a page sorted by `duration` ascending after a cursor whose row has duration 50: a newer row of duration 5 passes the predicates and comes before the cursor's row in the page's order | the keyset compares the sort column the page is ordered by | low; not executed | Pagination.OtherSortKeyPagesBackward | Pagination.KeysetPreds, Pagination.AlignedKeysetFollowsSortOrder |
| backend/clickhouse/query.go:2167 | the order is ascending when either the page direction or the sort direction is ascending, while the After predicates (lines 591-608) follow the page direction alone | sort ascending, page direction descending, an After cursor at time 50: the predicates keep the rows below 50 and the page lists them from the oldest, so a row at time 0 passes and precedes the cursor | the predicates and the order follow the same direction | low; not executed | Pagination.AscendingSortOnDescendingPage | Pagination.KeysetPreds, Pagination.AlignedKeysetFollowsSortOrder |

The corrected keyset, `Pagination.KeysetPreds`, builds its predicates from the page's own ordering. It covers sort
keys that map to a physical column. A sort key read from the attribute map (`attributes[key]`) is not covered, because the
model keeps that column as an expression, not as a value of the row. `Pagination.KeysetFollowsSortOrder` states the code's
keyset property where the code is right: the timestamp sort key, with the page and the sort agreeing on the direction.
`Pagination.SelectPlan` and `Pagination.MakeSelectBuilder` keep the code's predicates. A cursor carries only a timestamp
and a UUID, so the corrected keyset also needs the sort key of the cursor's row, which the cursor decoder does not return.

The result loop keeps one `lastBucketId` for all groups (line 2033). With a grouped query, a group missing at some index
gets no nil bucket there once another group has reached that index, and the interpolated buckets carry the groups of
the row that closes the gap (`Assembly.SharedLastIndexLeavesGroupGaps`, `Assembly.GapTakesClosingRowGroup`). The model
keeps this behaviour as written. It is not listed as a finding: the code does not say whether interpolation was meant
per group, and a missing bucket is still a well-formed result.

The bucket index is computed by ClickHouse. The rest of the model therefore takes each row's index as input. The
corrected index differs from the query's only at the maximum.
