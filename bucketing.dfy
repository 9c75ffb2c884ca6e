/** The metrics query ReadMetrics assembles before it reads any row: the
    bucket count and bucket expressions (getBucketing), the per-expression
    metric inputs, the group-by aliases, the top-N limit and the saved-state
    block filter (applyBlockFilter). */
module Bucketing {
  import opened Common
  import opened Builder
  import opened Resolver
  import Pagination

  const MaxBuckets := 240
  const DefaultBuckets := 48
  /** A limit this large means "no limit". */
  const NoLimit := 1_000_000_000_000
  const DefaultLimitCount := 10
  /** The outermost query's row cap. */
  const RowCap := 10000

  const BucketIndexAlias := "__highlight_bucket_index"
  const MinAlias := "__highlight_min"
  const MaxAlias := "__highlight_max"

  /** What buckets are laid over: nothing (one bucket), time, or the
      numeric value of a field. */
  datatype BucketBy = ByNone | ByTimestamp | ByField(name: string)

  // ---------------------------------------------------------------------
  // bucket count (getBucketing, first half)

  /** (bucket count, effective start). Without a window the count is the
      requested one (48 by default, 1 when nothing is bucketed), capped and
      floored; with a window it is the number of whole windows in the range,
      and a capped count pulls the start forward so that the windows still
      end at the range's end. Instants are in seconds. */
  function EffectiveBucketCount(bucketBy: BucketBy, bucketCount: Option<int>, window: Option<int>,
                                noBucketMax: bool, start: int, end: int): (r: (int, int))
    requires window.Some? ==> window.value != 0
    ensures window.None? ==> 1 <= r.0 && r.1 == start
    ensures window.None? && bucketBy == ByNone ==> r.0 == 1
    ensures window.None? && bucketBy != ByNone && bucketCount.None? ==> r.0 == DefaultBuckets
    ensures !noBucketMax && (window.Some? || bucketBy != ByNone) ==> r.0 <= MaxBuckets
    ensures r.1 != start ==> window.Some? && r.0 == MaxBuckets && r.1 == end - MaxBuckets * window.value
  {
    if window.None? then
      var n0 := if bucketBy == ByNone then 1 else if bucketCount.Some? then bucketCount.value else DefaultBuckets;
      var n1 := if n0 > MaxBuckets && !noBucketMax then MaxBuckets else n0;
      (if n1 < 1 then 1 else n1, start)
    else
      var w := window.value;
      var n := GoDiv(end - start, w);
      if n > MaxBuckets && !noBucketMax then (MaxBuckets, end - MaxBuckets * w) else (n, start)
  }

  /** With a positive window over a forward range, the buckets tile the
      effective range: they fit in it, and unless the count was capped less
      than one window is left over. */
  lemma {:induction false} WindowTilesRange(bucketBy: BucketBy, bucketCount: Option<int>, w: int,
                                            noBucketMax: bool, start: int, end: int)
    requires w > 0 && start <= end
    ensures var (n, s) := EffectiveBucketCount(bucketBy, bucketCount, Some(w), noBucketMax, start, end);
      && 0 <= n && n * w <= end - s
      && (s == start ==> end - s < (n + 1) * w)
  {
    var d := end - start;
    var q := d / w;
    assert GoDiv(d, w) == q;
    DivBounds(d, w);
    assert EffectiveBucketCount(bucketBy, bucketCount, Some(w), noBucketMax, start, end)
      == if q > MaxBuckets && !noBucketMax then (MaxBuckets, end - MaxBuckets * w) else (q, start);
  }

  lemma DivBounds(d: int, w: int)
    requires d >= 0 && w > 0
    ensures 0 <= d / w && (d / w) * w <= d < (d / w + 1) * w
  {
  }

  /** A window count is not floored: a range shorter than one window yields
      no buckets at all. */
  lemma ShortRangeHasNoBuckets(bucketBy: BucketBy, bucketCount: Option<int>, w: int, start: int, end: int)
    requires w > 0 && start <= end < start + w
    ensures EffectiveBucketCount(bucketBy, bucketCount, Some(w), false, start, end).0 == 0
  {
  }

  // ---------------------------------------------------------------------
  // bucket expressions (getBucketing, second half)

  /** A bound of the bucketed range: a fixed instant, or the minimum or
      maximum of an expression over the whole result (`MIN(e) OVER ()`). */
  datatype Bound = Instant(seconds: int) | WindowMin(e: SqlExpr) | WindowMax(e: SqlExpr)

  datatype BucketingInfo = BucketingInfo(
    count: int, start: int, value: SqlExpr, min: Bound, max: Bound, attributeFields: seq<string>)

  /** getBucketing. `config` is the table being read (possibly the sampling
      table), `primary` the unsampled table whose attribute layout the
      attribute lookups use. */
  function GetBucketing(config: TableConfig, primary: TableConfig, bucketBy: BucketBy, bucketCount: Option<int>,
                        window: Option<int>, noBucketMax: bool, start: int, end: int): (b: BucketingInfo)
    requires window.Some? ==> window.value != 0
    ensures (b.count, b.start) == EffectiveBucketCount(bucketBy, bucketCount, window, noBucketMax, start, end)
    ensures !bucketBy.ByField? ==>
      b.value == Call("toFloat64", Column("Timestamp")) && b.min == Instant(b.start) && b.max == Instant(end)
    ensures bucketBy.ByField? ==> b.min == WindowMin(b.value) && b.max == WindowMax(b.value)
    ensures bucketBy.ByField? && ToLower(bucketBy.name) in config.keysToColumns ==>
      b.value == Call("toFloat64", Column(config.keysToColumns[ToLower(bucketBy.name)]))
    ensures bucketBy.ByField? && ToLower(bucketBy.name) !in config.keysToColumns ==>
      b.value == GetAttributeFilterCol(primary, bucketBy.name, "toFloat64OrNull")
    ensures b.attributeFields == (if bucketBy.ByField? && ToLower(bucketBy.name) !in config.keysToColumns
                                  then [bucketBy.name] else [])
  {
    var (n, s) := EffectiveBucketCount(bucketBy, bucketCount, window, noBucketMax, start, end);
    match bucketBy
    case ByField(name) =>
      var key := ToLower(name);
      var (e, fields) :=
        if key in config.keysToColumns then (Call("toFloat64", Column(config.keysToColumns[key])), [])
        else (GetAttributeFilterCol(primary, name, "toFloat64OrNull"), [name]);
      BucketingInfo(n, s, e, WindowMin(e), WindowMax(e), fields)
    case _ =>
      BucketingInfo(n, s, Call("toFloat64", Column("Timestamp")), Instant(s), Instant(end), [])
  }

  /** `intDiv((v - min) * n, (max - min))`, the bucket a value falls in, on
      a range whose values are whole numbers. */
  function BucketIndex(v: int, lo: int, hi: int, n: nat): (r: int)
    requires lo < hi && lo <= v
    ensures r >= 0
  {
    MulNonNegative(v - lo, n);
    ((v - lo) * n) / (hi - lo)
  }

  /** Every value strictly inside the range falls in one of the n buckets. */
  lemma {:induction false} BucketIndexInRange(v: int, lo: int, hi: int, n: nat)
    requires lo <= v < hi
    ensures 0 <= BucketIndex(v, lo, hi, n) && (n >= 1 ==> BucketIndex(v, lo, hi, n) < n)
  {
    var a, b := (v - lo) * n, hi - lo;
    assert 0 <= a by { MulNonNegative(v - lo, n); }
    if n >= 1 {
      assert a < b * n by { MulStrict(v - lo, b, n); }
      QuotientBelow(a, b, n);
    }
  }

  /** The range's maximum itself falls one past the last bucket, which the
      result loop then skips (Assembly.SkippedRowsEmitNothing): the rows
      holding the largest value are dropped. */
  lemma {:induction false} MaximumFallsPastLastBucket(lo: int, hi: int, n: nat)
    requires lo < hi
    ensures BucketIndex(hi, lo, hi, n) == n
  {
    var b := hi - lo;
    assert b * n == n * b;
    MulDivCancel(n, b);
  }

  /** A field bucketed over [0, 10] into two buckets puts the value 10 in
      bucket 2, which does not exist. */
  lemma MaximumDroppedExample()
    ensures BucketIndex(10, 0, 10, 2) == 2
  {
    MaximumFallsPastLastBucket(0, 10, 2);
  }

  /** The intended index: the range's maximum belongs to the last bucket. */
  function ClosedBucketIndex(v: int, lo: int, hi: int, n: nat): (r: int)
    requires lo < hi && lo <= v <= hi && n >= 1
    ensures 0 <= r < n
  {
    if v == hi then n - 1
    else
      BucketIndexInRange(v, lo, hi, n);
      BucketIndex(v, lo, hi, n)
  }

  /** The closed index agrees with the query's index everywhere except at
      the maximum. */
  lemma ClosedIndexAgreesBelowMaximum(v: int, lo: int, hi: int, n: nat)
    requires lo <= v < hi && n >= 1
    ensures ClosedBucketIndex(v, lo, hi, n) == BucketIndex(v, lo, hi, n)
  {
  }

  lemma MulNonNegative(a: int, b: int)
    requires a >= 0 && b >= 0
    ensures a * b >= 0
  {
  }

  lemma MulStrict(a: int, b: int, n: int)
    requires 0 <= a < b && n >= 1
    ensures a * n < b * n
  {
  }

  lemma QuotientBelow(a: int, b: int, n: int)
    requires 0 <= a < b * n && b > 0
    ensures a / b < n
  {
  }

  lemma MulDivCancel(n: int, b: int)
    requires b > 0
    ensures (b * n) / b == n
  {
    var q, r := (b * n) / b, (b * n) % b;
    assert b * n == q * b + r && 0 <= r < b;
    assert (n - q) * b == r;
    if n - q >= 1 {
      assert false;
    } else if n - q <= -1 {
      assert false;
    }
  }

  // ---------------------------------------------------------------------
  // metric inputs

  datatype Expression = Expression(aggregator: Aggregator, column: string)

  datatype SelectItem = SelectItem(expr: SqlExpr, alias: string)

  /** The column an expression reads: its mapped column, else (also when the
      key maps to the empty name) an attribute lookup. */
  predicate MappedColumn(config: TableConfig, column: string) {
    ToLower(column) in config.keysToColumns && config.keysToColumns[ToLower(column)] != ""
  }

  /** metric_input<i>: what each row contributes to expression i, and the
      attribute fields the lookup needs (query.go:1819-1847). */
  function MetricInput(config: TableConfig, primary: TableConfig, e: Expression, traceKey: string): (r: (SqlExpr, seq<string>))
    ensures r.0 == Literal("1.0") <==> e.aggregator == Count || e.column == ""
    ensures e.aggregator == CountDistinct && e.column != "" ==>
      r.0 == (if MappedColumn(config, e.column) then Column(config.keysToColumns[ToLower(e.column)])
              else GetAttributeFilterCol(primary, e.column, ""))
    ensures e.aggregator == CountDistinctKey && e.column != "" ==>
      r.0 == GetAttributeFilterCol(primary, traceKey, "")
    ensures e.column in r.1 <== !MappedColumn(config, e.column)
    ensures (traceKey in r.1) <== e.aggregator == CountDistinctKey
    ensures |r.1| <= 2
  {
    var key := ToLower(e.column);
    var mapped := MappedColumn(config, e.column);
    var col := if mapped then Column(config.keysToColumns[key]) else GetAttributeFilterCol(primary, e.column, "");
    var fields := if mapped then [] else [e.column];
    var numeric :=
      if e.aggregator == CountDistinct || e.aggregator == CountDistinctKey then col
      else if key in config.keysToColumns then Call("toFloat64", Column(config.keysToColumns[key]))
      else if primary.metricColumn.Some? then Column(primary.metricColumn.value)
      else Call("toFloat64OrNull", col);
    var (expr, fields') :=
      if e.aggregator == CountDistinctKey then (GetAttributeFilterCol(primary, traceKey, ""), fields + [traceKey])
      else (numeric, fields);
    (if e.aggregator == Count || e.column == "" then Literal("1.0") else expr, fields')
  }

  /** For the value aggregators (min, max, sum, average, percentiles) the
      input is always numeric: a float conversion or the table's metric
      column. */
  lemma ValueAggregatorsReadNumbers(config: TableConfig, primary: TableConfig, e: Expression, traceKey: string)
    requires e.column != "" && IsKnown(e.aggregator)
    requires e.aggregator !in {Count, CountDistinct, CountDistinctKey}
    ensures var x := MetricInput(config, primary, e, traceKey).0;
      || (x.Call? && (x.fn == "toFloat64" || x.fn == "toFloat64OrNull"))
      || (primary.metricColumn.Some? && x == Column(primary.metricColumn.value))
  {
  }

  function MetricInputAlias(i: nat): string { "metric_input" + NatToString(i) }

  function MetricValueAlias(i: nat): string { "metric_value" + NatToString(i) }

  function GroupAlias(i: nat): string { "g" + NatToString(i) }

  /** Names built from distinct indices are distinct. */
  lemma IndexedNamesDistinct(prefix: string, i: nat, j: nat)
    requires i != j
    ensures prefix + NatToString(i) != prefix + NatToString(j)
  {
    if prefix + NatToString(i) == prefix + NatToString(j) {
      assert NatToString(i) == (prefix + NatToString(i))[|prefix|..];
      assert NatToString(j) == (prefix + NatToString(j))[|prefix|..];
      NatToStringInjective(i, j);
    }
  }

  /** The select items for the expressions, in order, and the attribute
      fields their lookups need. */
  method MetricInputItems(config: TableConfig, primary: TableConfig, exprs: seq<Expression>, traceKey: string)
    returns (items: seq<SelectItem>, fields: seq<string>)
    ensures |items| == |exprs|
    ensures forall i :: 0 <= i < |exprs| ==>
      items[i] == SelectItem(MetricInput(config, primary, exprs[i], traceKey).0, MetricInputAlias(i))
    ensures fields == MetricFields(config, primary, exprs, traceKey)
  {
    items, fields := [], [];
    var i := 0;
    while i < |exprs|
      invariant 0 <= i <= |exprs|
      invariant |items| == i
      invariant forall k :: 0 <= k < i ==>
        items[k] == SelectItem(MetricInput(config, primary, exprs[k], traceKey).0, MetricInputAlias(k))
      invariant fields == MetricFields(config, primary, exprs[..i], traceKey)
    {
      var input := MetricInput(config, primary, exprs[i], traceKey);
      MetricFieldsStep(config, primary, exprs, traceKey, i);
      var item := SelectItem(input.0, MetricInputAlias(i));
      assert forall k :: 0 <= k < i ==> (items + [item])[k] == items[k];
      items := items + [item];
      fields := fields + input.1;
      i := i + 1;
    }
    assert exprs[..i] == exprs;
  }

  function MetricFields(config: TableConfig, primary: TableConfig, exprs: seq<Expression>, traceKey: string): seq<string> {
    if exprs == [] then []
    else MetricFields(config, primary, exprs[..|exprs| - 1], traceKey)
         + MetricInput(config, primary, exprs[|exprs| - 1], traceKey).1
  }

  lemma MetricFieldsStep(config: TableConfig, primary: TableConfig, exprs: seq<Expression>, traceKey: string, i: nat)
    requires i < |exprs|
    ensures MetricFields(config, primary, exprs[..i + 1], traceKey)
         == MetricFields(config, primary, exprs[..i], traceKey) + MetricInput(config, primary, exprs[i], traceKey).1
  {
    assert exprs[..i + 1][..i] == exprs[..i];
  }

  // ---------------------------------------------------------------------
  // group-by columns

  /** A group key: the mapped column (looked up as given, without case
      folding) as text, else the attribute as text. */
  function GroupColumn(config: TableConfig, primary: TableConfig, group: string): (r: (SqlExpr, seq<string>))
    ensures group in config.keysToColumns ==> r == (Call("toString", Column(config.keysToColumns[group])), [])
    ensures group !in config.keysToColumns ==> r == (GetAttributeFilterCol(primary, group, "toString"), [group])
  {
    if group in config.keysToColumns then (Call("toString", Column(config.keysToColumns[group])), [])
    else (GetAttributeFilterCol(primary, group, "toString"), [group])
  }

  function GroupAliases(n: nat): (r: seq<string>)
    ensures |r| == n
  {
    if n == 0 then [] else GroupAliases(n - 1) + [GroupAlias(n - 1)]
  }

  /** Alias i is g<i>. */
  lemma {:induction false} GroupAliasesAt(n: nat)
    ensures forall i :: 0 <= i < n ==> GroupAliases(n)[i] == GroupAlias(i)
  {
    if n > 0 {
      GroupAliasesAt(n - 1);
    }
  }

  /** `alias != ''` for every group alias. */
  function NonEmptyPreds(aliases: seq<string>): (r: seq<Pred>)
    ensures |r| == |aliases|
  {
    if aliases == [] then [] else [Compare(aliases[0], Ne, StrVal(""))] + NonEmptyPreds(aliases[1..])
  }

  lemma {:induction false} NonEmptyPredsAt(aliases: seq<string>)
    ensures forall i :: 0 <= i < |aliases| ==> NonEmptyPreds(aliases)[i] == Compare(aliases[i], Ne, StrVal(""))
  {
    if aliases != [] {
      NonEmptyPredsAt(aliases[1..]);
    }
  }

  lemma {:induction false} NonEmptyPredsAppend(aliases: seq<string>, a: string)
    ensures NonEmptyPreds(aliases + [a]) == NonEmptyPreds(aliases) + [Compare(a, Ne, StrVal(""))]
  {
    if aliases != [] {
      assert (aliases + [a])[1..] == aliases[1..] + [a];
      NonEmptyPredsAppend(aliases[1..], a);
    }
  }

  /** The group filters keep exactly the rows that have a non-empty value
      for every group key. */
  lemma NonEmptyPredsKeepGroupedRows(aliases: seq<string>, row: Row, parts: seq<Row>)
    ensures EvalAll(NonEmptyPreds(aliases), row, parts) <==>
      forall i :: 0 <= i < |aliases| ==> aliases[i] in row && row[aliases[i]] != StrVal("")
  {
    var ps := NonEmptyPreds(aliases);
    NonEmptyPredsAt(aliases);
    assert forall i :: 0 <= i < |aliases| ==> (Eval(ps[i], row, parts) <==> aliases[i] in row && row[aliases[i]] != StrVal(""));
  }

  /** The group aliases are pairwise distinct. */
  lemma GroupAliasesDistinct(n: nat, i: nat, j: nat)
    requires i < n && j < n && i != j
    ensures GroupAliases(n)[i] != GroupAliases(n)[j]
  {
    GroupAliasesAt(n);
    IndexedNamesDistinct("g", i, j);
  }

  /** Adds one select item per group key, aliased g0, g1, …, and a filter
      that the key is non-empty (query.go:1849-1865). */
  method AddGroupColumns(sb: SelectBuilder, config: TableConfig, primary: TableConfig, groupBy: seq<string>)
    returns (items: seq<SelectItem>, aliases: seq<string>, fields: seq<string>)
    modifies sb
    ensures aliases == GroupAliases(|groupBy|)
    ensures fields == GroupFields(config, primary, groupBy)
    ensures items == GroupSelect(config, primary, groupBy)
    ensures sb.wheres == old(sb.wheres) + NonEmptyPreds(aliases)
    ensures sb.columns == old(sb.columns) && sb.table == old(sb.table) && sb.orderBy == old(sb.orderBy)
    ensures sb.limit == old(sb.limit) && sb.distinct == old(sb.distinct)
  {
    items, aliases, fields := [], [], [];
    var i := 0;
    while i < |groupBy|
      invariant 0 <= i <= |groupBy|
      invariant aliases == GroupAliases(i)
      invariant fields == GroupFields(config, primary, groupBy[..i])
      invariant items == GroupSelect(config, primary, groupBy[..i])
      invariant sb.wheres == old(sb.wheres) + NonEmptyPreds(aliases)
      invariant sb.columns == old(sb.columns) && sb.table == old(sb.table) && sb.orderBy == old(sb.orderBy)
      invariant sb.limit == old(sb.limit) && sb.distinct == old(sb.distinct)
    {
      var (col, f) := GroupColumn(config, primary, groupBy[i]);
      var alias := GroupAlias(i);
      GroupColumnsStep(config, primary, groupBy, i);
      fields := fields + f;
      items := items + [SelectItem(col, alias)];
      NonEmptyPredsAppend(aliases, alias);
      aliases := aliases + [alias];
      sb.Where(Compare(alias, Ne, StrVal("")));
      i := i + 1;
    }
    assert groupBy[..i] == groupBy;
  }

  /** One more group key adds its item and its fields at the end. */
  lemma GroupColumnsStep(config: TableConfig, primary: TableConfig, groupBy: seq<string>, i: nat)
    requires i < |groupBy|
    ensures GroupSelect(config, primary, groupBy[..i + 1])
      == GroupSelect(config, primary, groupBy[..i]) + [SelectItem(GroupColumn(config, primary, groupBy[i]).0, GroupAlias(i))]
    ensures GroupFields(config, primary, groupBy[..i + 1])
      == GroupFields(config, primary, groupBy[..i]) + GroupColumn(config, primary, groupBy[i]).1
  {
    assert groupBy[..i + 1][..i] == groupBy[..i];
  }

  function GroupFields(config: TableConfig, primary: TableConfig, groupBy: seq<string>): seq<string> {
    if groupBy == [] then []
    else GroupFields(config, primary, groupBy[..|groupBy| - 1]) + GroupColumn(config, primary, groupBy[|groupBy| - 1]).1
  }

  // ---------------------------------------------------------------------
  // top-N limit

  /** The number of groups kept: 10 unless given, never below 1. */
  function LimitCount(limit: Option<int>): (r: int)
    ensures r >= 1
    ensures limit.None? ==> r == DefaultLimitCount
    ensures limit.Some? && limit.value >= 1 ==> r == limit.value
  {
    var n := if limit.Some? then limit.value else DefaultLimitCount;
    if n < 1 then 1 else n
  }

  /** Only grouped queries with a limit aggregator are cut to the top N,
      and NoLimit switches that off. */
  predicate UseLimit(limitAggregator: Option<Aggregator>, groupCount: nat, limit: Option<int>) {
    limitAggregator.Some? && groupCount > 0 && LimitCount(limit) != NoLimit
  }

  /** A zero or negative limit still ranks (it becomes 1); only NoLimit
      itself turns ranking off. */
  lemma UseLimitExactlyUnlessNoLimit(a: Aggregator, groupCount: nat, limit: Option<int>)
    requires groupCount > 0
    ensures UseLimit(Some(a), groupCount, limit) <==> limit != Some(NoLimit)
  {
  }

  /** The per-group ranking metric: the limit aggregator over the limit
      column, partitioned by the group aliases. */
  datatype LimitMetric = LimitMetric(aggregator: Aggregator, column: SqlExpr, partitionBy: seq<string>)

  /** The limit column: its mapped column, else the attribute as a number
      (query.go:1876-1886). */
  function LimitColumn(config: TableConfig, primary: TableConfig, limitColumn: Option<string>): (r: (SqlExpr, seq<string>))
    ensures var col := if limitColumn.Some? then limitColumn.value else "";
      && (col in config.keysToColumns ==> r == (Column(config.keysToColumns[col]), []))
      && (col !in config.keysToColumns ==> r == (GetAttributeFilterCol(primary, col, "toFloat64OrNull"), [col]))
  {
    var col := if limitColumn.Some? then limitColumn.value else "";
    if col in config.keysToColumns then (Column(config.keysToColumns[col]), [])
    else (GetAttributeFilterCol(primary, col, "toFloat64OrNull"), [col])
  }

  // ---------------------------------------------------------------------
  // saved-state block filter (applyBlockFilter)

  datatype BlockInfo = BlockInfo(partition: string, lastBlockNumber: int)

  function PartConds(infos: seq<BlockInfo>): (r: seq<Pred>)
    ensures |r| == |infos|
    ensures forall i :: 0 <= i < |infos| ==> r[i] == AllOf([
      Compare("partition", Eq, StrVal(infos[i].partition)),
      Compare("max_block_number", Gt, IntVal(infos[i].lastBlockNumber))])
  {
    if infos == [] then []
    else [AllOf([Compare("partition", Eq, StrVal(infos[0].partition)),
                 Compare("max_block_number", Gt, IntVal(infos[0].lastBlockNumber))])] + PartConds(infos[1..])
  }

  function BlockConds(infos: seq<BlockInfo>): (r: seq<Pred>)
    ensures |r| == |infos|
    ensures forall i :: 0 <= i < |infos| ==> r[i] == AllOf([
      Compare("_partition_id", Eq, StrVal(RemoveAll(infos[i].partition, '-'))),
      Compare("_block_number", Gt, IntVal(infos[i].lastBlockNumber))])
  {
    if infos == [] then []
    else [AllOf([Compare("_partition_id", Eq, StrVal(RemoveAll(infos[0].partition, '-'))),
                 Compare("_block_number", Gt, IntVal(infos[0].lastBlockNumber))])] + BlockConds(infos[1..])
  }

  /** The two conjuncts added for a saved state with block information:
      the row's part is an active part of `table` that has blocks past a
      recorded one, and the row's own block is past the one recorded for
      its partition. Nothing is added otherwise. */
  function BlockFilter(table: string, infos: seq<BlockInfo>): (r: seq<Pred>)
    ensures infos == [] ==> r == []
    ensures infos != [] ==> |r| == 2 && r[0] == InActiveParts(table, AnyOf(PartConds(infos)))
  {
    if infos == [] then [] else [InActiveParts(table, AnyOf(PartConds(infos))), AnyOf(BlockConds(infos))]
  }

  /** A row passes the block conjunct exactly when some recorded partition,
      with its dashes removed, is the row's partition id and the row's block
      is newer than the one recorded for it. */
  lemma BlockCondsSelectNewBlocks(infos: seq<BlockInfo>, row: Row, parts: seq<Row>, pid: string, block: int)
    requires "_partition_id" in row && row["_partition_id"] == StrVal(pid)
    requires "_block_number" in row && row["_block_number"] == IntVal(block)
    ensures Eval(AnyOf(BlockConds(infos)), row, parts) <==>
      exists i :: 0 <= i < |infos| && RemoveAll(infos[i].partition, '-') == pid && block > infos[i].lastBlockNumber
  {
    var cs := BlockConds(infos);
    forall i | 0 <= i < |infos|
      ensures Eval(cs[i], row, parts) <==> RemoveAll(infos[i].partition, '-') == pid && block > infos[i].lastBlockNumber
    {
      BlockCondSelects(cs[i], infos[i], row, parts, pid, block);
    }
  }

  lemma BlockCondSelects(c: Pred, info: BlockInfo, row: Row, parts: seq<Row>, pid: string, block: int)
    requires c == AllOf([Compare("_partition_id", Eq, StrVal(RemoveAll(info.partition, '-'))),
                         Compare("_block_number", Gt, IntVal(info.lastBlockNumber))])
    requires "_partition_id" in row && row["_partition_id"] == StrVal(pid)
    requires "_block_number" in row && row["_block_number"] == IntVal(block)
    ensures Eval(c, row, parts) <==> RemoveAll(info.partition, '-') == pid && block > info.lastBlockNumber
  {
    assert Eval(c, row, parts) <==> Eval(c.conjuncts[0], row, parts) && Eval(c.conjuncts[1], row, parts);
  }

  /** applyBlockFilter on a builder. */
  method ApplyBlockFilter(sb: SelectBuilder, table: string, saved: Option<seq<BlockInfo>>)
    modifies sb
    ensures sb.wheres == old(sb.wheres) + (if saved.Some? then BlockFilter(table, saved.value) else [])
    ensures sb.columns == old(sb.columns) && sb.table == old(sb.table) && sb.orderBy == old(sb.orderBy)
    ensures sb.limit == old(sb.limit) && sb.distinct == old(sb.distinct)
  {
    if saved.Some? && |saved.value| > 0 {
      sb.Where(InActiveParts(table, AnyOf(PartConds(saved.value))));
      sb.Where(AnyOf(BlockConds(saved.value)));
    }
  }

  // ---------------------------------------------------------------------
  // the whole metrics query

  datatype SavedState = SavedState(metricId: string, blocks: seq<BlockInfo>)

  /** The part of ReadMetricsInput the query depends on. `sampleRatio` is
      the rendered sample ratio when the sampling table is read (the ratio
      comes from the store's row estimates); dates are in seconds. */
  datatype MetricsInput = MetricsInput(
    primary: TableConfig,
    sampling: TableConfig,
    sampleRatio: Option<string>,
    projectIDs: seq<int>,
    params: Pagination.QueryInput,
    groupBy: seq<string>,
    bucketBy: BucketBy,
    bucketCount: Option<int>,
    bucketWindow: Option<int>,
    noBucketMax: bool,
    limit: Option<int>,
    limitAggregator: Option<Aggregator>,
    limitColumn: Option<string>,
    saved: Option<SavedState>,
    expressions: seq<Expression>)

  /** The query ReadMetrics sends, structurally: the inner query's table,
      WHERE conjuncts and select items; the outer query's value functions,
      GROUP BY and ORDER BY columns; the rank cut-off when the top-N limit
      applies. The final LIMIT is always RowCap. */
  datatype MetricsQuery = MetricsQuery(
    config: TableConfig,
    bucketing: BucketingInfo,
    wheres: seq<Pred>,
    metricInputs: seq<SelectItem>,
    groupItems: seq<SelectItem>,
    groupAliases: seq<string>,
    limitMetric: Option<LimitMetric>,
    valueFns: seq<string>,
    groupByCols: seq<string>,
    orderByCols: seq<string>,
    rankLimit: Option<int>,
    attributeFields: seq<string>)

  /** The table read: the sampling table (with its SAMPLE clause) when a
      ratio applies, else the primary table; a distinct-key count drops the
      table's default filter. */
  function EffectiveConfig(input: MetricsInput): (c: TableConfig)
    ensures input.sampleRatio.Some? ==> c.tableName == input.sampling.tableName + " SAMPLE " + input.sampleRatio.value
    ensures input.sampleRatio.None? ==> c.tableName == input.primary.tableName
    ensures (exists i :: 0 <= i < |input.expressions| && input.expressions[i].aggregator == CountDistinctKey)
            ==> c.defaultFilter == ""
  {
    var base := if input.sampleRatio.Some? then
        input.sampling.(tableName := input.sampling.tableName + " SAMPLE " + input.sampleRatio.value)
      else input.primary;
    if exists i :: 0 <= i < |input.expressions| && input.expressions[i].aggregator == CountDistinctKey
    then base.(defaultFilter := "") else base
  }

  function CountOnlyPage(): Pagination.Page {
    Pagination.Page(None, None, None, None, true, None)
  }

  /** The metric_input<i> select items, one per expression in order. */
  function MetricInputSelect(config: TableConfig, primary: TableConfig, exprs: seq<Expression>, traceKey: string): (r: seq<SelectItem>)
    ensures |r| == |exprs|
    ensures forall i :: 0 <= i < |exprs| ==>
      r[i] == SelectItem(MetricInput(config, primary, exprs[i], traceKey).0, MetricInputAlias(i))
  {
    seq(|exprs|, i requires 0 <= i < |exprs| =>
      SelectItem(MetricInput(config, primary, exprs[i], traceKey).0, MetricInputAlias(i)))
  }

  /** The g<i> select items, one per group key in order. */
  function GroupSelect(config: TableConfig, primary: TableConfig, groupBy: seq<string>): (r: seq<SelectItem>)
    ensures |r| == |groupBy|
  {
    if groupBy == [] then []
    else
      var n := |groupBy| - 1;
      GroupSelect(config, primary, groupBy[..n]) + [SelectItem(GroupColumn(config, primary, groupBy[n]).0, GroupAlias(n))]
  }

  /** Item i selects the column of group key i under the alias g<i>. */
  lemma {:induction false} GroupSelectAt(config: TableConfig, primary: TableConfig, groupBy: seq<string>)
    ensures forall i :: 0 <= i < |groupBy| ==>
      GroupSelect(config, primary, groupBy)[i] == SelectItem(GroupColumn(config, primary, groupBy[i]).0, GroupAlias(i))
  {
    if groupBy != [] {
      var n := |groupBy| - 1;
      GroupSelectAt(config, primary, groupBy[..n]);
      assert forall i :: 0 <= i < n ==> groupBy[..n][i] == groupBy[i];
    }
  }

  /** `fn(metric_input<i>) as metric_value<i>` for each expression, in the
      state form when a saved state is being written. The function text is
      used as it is: there is no `null` in place of an empty one. */
  function ValueFns(exprs: seq<Expression>, useState: bool): (r: seq<string>)
    ensures |r| == |exprs|
    ensures forall i :: 0 <= i < |exprs| ==>
      var fn := GetFnStr(exprs[i].aggregator, MetricInputAlias(i), true, useState);
      |fn| <= |r[i]| && r[i][..|fn|] == fn && r[i][|fn|..] == " as " + MetricValueAlias(i)
  {
    seq(|exprs|, i requires 0 <= i < |exprs| =>
      GetFnStr(exprs[i].aggregator, MetricInputAlias(i), true, useState) + " as " + MetricValueAlias(i))
  }

  /** An aggregator that getFnStr does not know leaves only the alias:
      the column is ` as metric_value<i>`. */
  lemma UnknownAggregatorLeavesBareAlias(exprs: seq<Expression>, useState: bool, i: nat)
    requires i < |exprs| && !IsKnown(exprs[i].aggregator)
    ensures ValueFns(exprs, useState)[i] == " as " + MetricValueAlias(i)
  {
    var fn := GetFnStr(exprs[i].aggregator, MetricInputAlias(i), true, useState);
    assert fn == "";
    assert ValueFns(exprs, useState)[i] == ValueFns(exprs, useState)[i][|fn|..];
  }

  /** Two value columns end in different aliases. */
  lemma ValueColumnsDistinctAliases(exprs: seq<Expression>, useState: bool, i: nat, j: nat)
    requires i < |exprs| && j < |exprs| && i != j
    ensures var r := ValueFns(exprs, useState);
      var fi := GetFnStr(exprs[i].aggregator, MetricInputAlias(i), true, useState);
      var fj := GetFnStr(exprs[j].aggregator, MetricInputAlias(j), true, useState);
      r[i][|fi|..] != r[j][|fj|..]
  {
    IndexedNamesDistinct("metric_value", i, j);
    var a, b := MetricValueAlias(i), MetricValueAlias(j);
    assert (" as " + a)[4..] == a && (" as " + b)[4..] == b;
  }

  /** GROUP BY / ORDER BY columns: the bucket index, then `extra` when the
      top-N limit applies, then the group aliases. */
  function OuterColumns(extra: string, useLimit: bool, aliases: seq<string>): (r: seq<string>)
    ensures |r| == 1 + (if useLimit then 1 else 0) + |aliases|
    ensures r[0] == BucketIndexAlias && r[|r| - |aliases|..] == aliases
    ensures useLimit ==> r[1] == extra
  {
    [BucketIndexAlias] + (if useLimit then [extra] else []) + aliases
  }

  /** ReadMetrics up to sending the query (query.go:1760-1990), for a
      request without raw SQL. */
  function ReadMetricsQuery(input: MetricsInput, search: Pagination.SearchFilters, traceKey: string): (r: Result<MetricsQuery>)
    requires input.bucketWindow.Some? ==> input.bucketWindow.value != 0
    ensures r.Err? <==> input.expressions == []
  {
    if input.expressions == [] then Err("no expressions provided")
    else
      var config := EffectiveConfig(input);
      var plan := Pagination.SelectPlan(config, input.projectIDs, input.params, CountOnlyPage(),
                                        _ => Err("no cursor"), search);
      var b := GetBucketing(config, input.primary, input.bucketBy, input.bucketCount, input.bucketWindow,
                            input.noBucketMax, input.params.startDate, input.params.endDate);
      var aliases := GroupAliases(|input.groupBy|);
      var useLimit := UseLimit(input.limitAggregator, |input.groupBy|, input.limit);
      var limitCol := LimitColumn(config, input.primary, input.limitColumn);
      var blocks := if input.saved.Some? then BlockFilter(input.primary.tableName, input.saved.value.blocks) else [];
      var fields := b.attributeFields + MetricFields(config, input.primary, input.expressions, traceKey)
        + GroupFields(config, input.primary, input.groupBy) + (if useLimit then limitCol.1 else []);
      Ok(MetricsQuery(
        config, b, plan.value.wheres + blocks + NonEmptyPreds(aliases),
        MetricInputSelect(config, input.primary, input.expressions, traceKey),
        GroupSelect(config, input.primary, input.groupBy), aliases,
        if useLimit then Some(LimitMetric(input.limitAggregator.value, limitCol.0, aliases)) else None,
        ValueFns(input.expressions, input.saved.Some?),
        OuterColumns("limit_metric", useLimit, aliases), OuterColumns("limit_rank", useLimit, aliases),
        if useLimit then Some(LimitCount(input.limit)) else None, fields))
  }

  /** The shape of every metrics query: project scoping first and one group
      filter per alias last; GROUP BY and ORDER BY both lead with the bucket
      index and end with the group aliases; the ranking column and the rank
      cut-off appear together, exactly when the top-N limit applies; one
      value column per expression. */
  lemma {:induction false} MetricsQueryShape(input: MetricsInput, search: Pagination.SearchFilters, traceKey: string)
    requires input.bucketWindow.Some? ==> input.bucketWindow.value != 0
    requires input.expressions != []
    ensures var q := ReadMetricsQuery(input, search, traceKey).value;
      var k := |input.groupBy|;
      && q.wheres[0] == Pagination.ProjectScope(input.projectIDs)
      && |q.wheres| >= k && q.wheres[|q.wheres| - k..] == NonEmptyPreds(q.groupAliases)
      && |q.groupByCols| == |q.orderByCols| && q.groupByCols[0] == q.orderByCols[0] == BucketIndexAlias
      && q.groupByCols[|q.groupByCols| - k..] == q.orderByCols[|q.orderByCols| - k..] == q.groupAliases
      && (q.rankLimit.Some? <==> q.limitMetric.Some?)
      && (q.rankLimit.Some? <==> UseLimit(input.limitAggregator, k, input.limit))
      && (q.rankLimit.Some? ==> q.rankLimit.value >= 1 && "limit_rank" in q.orderByCols)
      && |q.valueFns| == |q.metricInputs| == |input.expressions|
  {
    var q := ReadMetricsQuery(input, search, traceKey).value;
    var config := EffectiveConfig(input);
    var plan := Pagination.SelectPlan(config, input.projectIDs, input.params, CountOnlyPage(), _ => Err("no cursor"), search);
    var k := |input.groupBy|;
    var aliases := GroupAliases(k);
    var blocks := if input.saved.Some? then BlockFilter(input.primary.tableName, input.saved.value.blocks) else [];
    assert q.wheres == plan.value.wheres + blocks + NonEmptyPreds(aliases);
    assert q.wheres[|q.wheres| - k..] == NonEmptyPreds(aliases);
  }
}
