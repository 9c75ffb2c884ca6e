/** Attribute/column resolution and the small pure mappings of query.go:
    the attribute lookup expression (getAttributeFilterCol), the aggregate
    function text (getFnStr, getLimitFnStr), the history state column
    chosen by saveMetricHistory, and formatColumn. */
module Resolver {
  import opened Common

  /** The column expressions that getAttributeFilterCol builds. A `Param`
      is a value bound through the select builder (`fromSb.Var(v)`); its
      placeholder text is the builder's business. */
  datatype SqlExpr =
    | Column(name: string)
    | Param(value: string)
    | Literal(text: string)
    | Call(fn: string, arg: SqlExpr)
    /** `column[key]` on an inline attribute map */
    | MapGet(column: string, key: SqlExpr)
    /** `(arrayMap((k, v) -> transform(v), arrayFilter((k, v) -> k = key, column)))[1]`;
        an empty transform stands for the bare `v` */
    | FirstMatching(transform: string, key: SqlExpr, column: string)

  /** getAttributeFilterCol (query.go:1357-1374). `op` is the conversion
      function to wrap the value in, or "" for none. */
  function GetAttributeFilterCol(config: TableConfig, valueUnescaped: string, op: string): (column: SqlExpr)
    ensures config.attributesTable != "" ==>
      column == FirstMatching(op, Param(valueUnescaped), config.attributesColumn(valueUnescaped))
    ensures config.attributesTable == "" && op == "" ==>
      column == MapGet(config.attributesColumn(valueUnescaped), Param(valueUnescaped))
    ensures config.attributesTable == "" && op != "" ==>
      column == Call(op, MapGet(config.attributesColumn(valueUnescaped), Param(valueUnescaped)))
  {
    var attributesColumn := config.attributesColumn(valueUnescaped);
    var value := Param(valueUnescaped);
    if config.attributesTable != "" then
      FirstMatching(op, value, attributesColumn)
    else if op != "" then
      Call(op, MapGet(attributesColumn, value))
    else
      MapGet(attributesColumn, value)
  }

  // ---------------------------------------------------------------------
  // What an attribute lookup evaluates to on one stored row.

  /** The attributes of one stored row: for each attribute column, its
      key/value pairs in storage order. */
  type AttributeRow = map<string, seq<(string, string)>>

  /** The first value stored under `key`, if any. */
  function FirstValue(pairs: seq<(string, string)>, key: string): (r: Option<string>)
    ensures r.Some? <==> exists i :: 0 <= i < |pairs| && pairs[i].0 == key
    ensures r.Some? ==> exists i :: 0 <= i < |pairs| && pairs[i] == (key, r.value)
  {
    if pairs == [] then None
    else if pairs[0].0 == key then Some(pairs[0].1)
    else FirstValue(pairs[1..], key)
  }

  /** The value of a lookup expression on `row`. `apply(fn, v)` is the
      store's conversion function `fn` applied to `v` (the store's own
      semantics, not modelled). A missing map key reads as the empty string
      and indexing an empty array as the column default, here also "". */
  function EvalLookup(e: SqlExpr, row: AttributeRow, apply: (string, string) -> string): Option<string>
  {
    match e
    case MapGet(col, Param(k)) =>
      var pairs := if col in row then row[col] else [];
      var v := FirstValue(pairs, k);
      Some(if v.Some? then v.value else "")
    case Call(fn, inner) =>
      var v := EvalLookup(inner, row, apply);
      if v.Some? then Some(apply(fn, v.value)) else None
    case FirstMatching(t, Param(k), col) =>
      var pairs := if col in row then row[col] else [];
      var v := FirstValue(pairs, k);
      if v.None? then Some("")
      else Some(if t == "" then v.value else apply(t, v.value))
    case _ => None
  }

  /** The inline-map form and the attribute-table form of the same lookup
      agree whenever the key is present: both give the conversion of the
      first value stored under the key. When it is absent, the map form
      converts the empty string while the array form yields the default. */
  lemma AttributeFormsAgree(config: TableConfig, key: string, op: string, row: AttributeRow,
                            apply: (string, string) -> string)
    requires forall k :: apply("", k) == k
    ensures var col := config.attributesColumn(key);
            var pairs := if col in row then row[col] else [];
            var inline := EvalLookup(GetAttributeFilterCol(config.(attributesTable := ""), key, op), row, apply);
            var table := EvalLookup(GetAttributeFilterCol(config.(attributesTable := "attributes"), key, op), row, apply);
            && inline.Some? && table.Some?
            && (FirstValue(pairs, key).Some? ==>
                  inline == table == Some(apply(op, FirstValue(pairs, key).value)))
            && (FirstValue(pairs, key).None? ==> inline == Some(apply(op, "")) && table == Some(""))
  {
  }

  // ---------------------------------------------------------------------
  // Aggregate function text

  predicate IsKnown(a: Aggregator) { !a.OtherAggregator? }

  /** The quantile level each percentile aggregator computes. */
  function QuantileLevel(a: Aggregator): string
    requires a.P50? || a.P90? || a.P95? || a.P99?
  {
    match a
    case P50 => ".5"
    case P90 => ".9"
    case P95 => ".95"
    case P99 => ".99"
  }

  /** getLimitFnStr (query.go:1269-1294): the window aggregate used to rank
      groups for a top-N limit. Unknown aggregators give "". */
  function GetLimitFnStr(aggregator: Aggregator, column: string): (r: string)
    ensures r == "" <==> !IsKnown(aggregator)
  {
    match aggregator
    case Count => "count()"
    case CountDistinctKey => "count(distinct " + column + ")"
    case CountDistinct => "count(distinct " + column + ")"
    case Min => "min(" + column + ")"
    case Avg => "avg(" + column + ")"
    case P50 => "quantile(" + QuantileLevel(aggregator) + ")(" + column + ")"
    case P90 => "quantile(" + QuantileLevel(aggregator) + ")(" + column + ")"
    case P95 => "quantile(" + QuantileLevel(aggregator) + ")(" + column + ")"
    case P99 => "quantile(" + QuantileLevel(aggregator) + ")(" + column + ")"
    case Max => "max(" + column + ")"
    case Sum => "sum(" + column + ")"
    case OtherAggregator(_) => ""
  }

  /** getFnStr (query.go:1296-1355): the aggregate over a metric input
      column. The mergeable `State` form is chosen first when the result is
      persisted; otherwise count and sum are scaled by the sample factor
      when sampling. Unknown aggregators give "". */
  function GetFnStr(aggregator: Aggregator, column: string, useSampling: bool, useState: bool): (r: string)
    ensures r == "" <==> !IsKnown(aggregator)
  {
    match aggregator
    case Count =>
      if useState then StateCall("count", ")")
      else if useSampling then "round(count() * any(_sample_factor))"
      else "round(count() * 1.0)"
    case CountDistinctKey =>
      if useState then StateCall("uniq", "toString(" + column + "))")
      else "round(count(distinct " + column + ") * 1.0)"
    case CountDistinct =>
      if useState then StateCall("uniq", "toString(" + column + "))")
      else "round(count(distinct " + column + ") * 1.0)"
    case Min =>
      if useState then StateCall("min", "toFloat64(" + column + "))") else "toFloat64(min(" + column + "))"
    case Avg =>
      if useState then StateCall("avg", "toFloat64(" + column + "))") else "avg(" + column + ")"
    case P50 =>
      if useState then StateCall("quantile", ".5)(toFloat64(" + column + "))") else "quantile(.5)(" + column + ")"
    case P90 =>
      if useState then StateCall("quantile", ".9)(toFloat64(" + column + "))") else "quantile(.9)(" + column + ")"
    case P95 =>
      if useState then StateCall("quantile", ".95)(toFloat64(" + column + "))") else "quantile(.95)(" + column + ")"
    case P99 =>
      if useState then StateCall("quantile", ".99)(toFloat64(" + column + "))") else "quantile(.99)(" + column + ")"
    case Max =>
      if useState then StateCall("max", "toFloat64(" + column + "))") else "toFloat64(max(" + column + "))"
    case Sum =>
      if useState then StateCall("sum", "toFloat64(" + column + "))")
      else if useSampling then "sum(" + column + ") * any(_sample_factor)"
      else "sum(" + column + ") * 1.0"
    case OtherAggregator(_) => ""
  }

  /** State forms take precedence: once the result is persisted, sampling
      does not change the aggregate, and the text is a `...State(` call. */
  lemma StateFormTakesPrecedence(a: Aggregator, column: string, useSampling: bool)
    requires IsKnown(a)
    ensures GetFnStr(a, column, useSampling, true) == GetFnStr(a, column, !useSampling, true)
    ensures Contains(GetFnStr(a, column, useSampling, true), "State(")
  {
    StateFormIsStateCall(a, column, useSampling);
  }

  lemma StateFormIsStateCall(a: Aggregator, column: string, useSampling: bool)
    requires IsKnown(a)
    ensures Contains(GetFnStr(a, column, useSampling, true), "State(")
  {
    match a {
      case Count => ContainsMiddle("count", "State(", ")");
      case CountDistinctKey => ContainsMiddle("uniq", "State(", "toString(" + column + "))");
      case CountDistinct => ContainsMiddle("uniq", "State(", "toString(" + column + "))");
      case Min => ContainsMiddle("min", "State(", "toFloat64(" + column + "))");
      case Avg => ContainsMiddle("avg", "State(", "toFloat64(" + column + "))");
      case Max => ContainsMiddle("max", "State(", "toFloat64(" + column + "))");
      case Sum => ContainsMiddle("sum", "State(", "toFloat64(" + column + "))");
      case P50 => ContainsMiddle("quantile", "State(", ".5)(toFloat64(" + column + "))");
      case P90 => ContainsMiddle("quantile", "State(", ".9)(toFloat64(" + column + "))");
      case P95 => ContainsMiddle("quantile", "State(", ".95)(toFloat64(" + column + "))");
      case P99 => ContainsMiddle("quantile", "State(", ".99)(toFloat64(" + column + "))");
    }
  }

  /** The mergeable partial-aggregate form `fnState(rest`. */
  function StateCall(fn: string, rest: string): string {
    fn + "State(" + rest
  }

  /** Only count and sum are scaled by the sample factor. */
  lemma SamplingScalesOnlyCountAndSum(a: Aggregator, column: string, useState: bool)
    requires a != Count && a != Sum
    ensures GetFnStr(a, column, true, useState) == GetFnStr(a, column, false, useState)
  {
  }

  /** The limit aggregate of avg and the percentiles is the final (not
      state) aggregate itself, so groups are ranked by the value shown. */
  lemma LimitFnIsFinalForm(a: Aggregator, column: string, useSampling: bool)
    requires a == Avg || a == P50 || a == P90 || a == P95 || a == P99
    ensures GetLimitFnStr(a, column) == GetFnStr(a, column, useSampling, false)
  {
  }

  // ---------------------------------------------------------------------
  // saveMetricHistory: which state column the history row fills

  /** The history-table state column for the first expression's aggregator
      (query.go:1429-1452); `None` for an aggregator it does not know. */
  function HistoryStateColumn(a: Aggregator): (r: Option<string>)
    ensures r.None? <==> !IsKnown(a)
    ensures r.Some? ==> HasSuffix(r.value, "State")
  {
    match a
    case Count => Some(StateColumn("Count"))
    case CountDistinct => Some(StateColumn("Uniq"))
    case CountDistinctKey => Some(StateColumn("Uniq"))
    case Min => Some(StateColumn("Min"))
    case Avg => Some(StateColumn("Avg"))
    case Max => Some(StateColumn("Max"))
    case Sum => Some(StateColumn("Sum"))
    case P50 => Some(StateColumn("P50"))
    case P90 => Some(StateColumn("P90"))
    case P95 => Some(StateColumn("P95"))
    case P99 => Some(StateColumn("P99"))
    case OtherAggregator(_) => None
  }

  /** The aggregate-state column for a ClickHouse combinator: `CountState`,
      `UniqState`, … */
  function StateColumn(combinator: string): (r: string)
    ensures HasSuffix(r, "State")
  {
    var r := combinator + "State";
    assert r[|r| - |"State"|..] == "State";
    r
  }

  /** The column lists of the history INSERT ... SELECT (query.go:1416-1456):
      `aggregators` are the request's expressions' aggregators in order. */
  function HistoryColumns(aggregators: seq<Aggregator>, metricId: string, hasGroupBy: bool): (r: (seq<string>, seq<string>))
    ensures |r.0| >= 3 && r.0[..3] == ["MetricId", "Timestamp", "MaxBlockNumberState"]
    ensures |r.1| >= 4 && r.1[2..4] == ["max_block_number", "metric_value0"]
    ensures hasGroupBy <==> (r.0[|r.0| - 1] == "GroupByKey")
  {
    var aggregator := if |aggregators| > 0 then aggregators[0] else Count;
    var state := HistoryStateColumn(aggregator);
    var insertCols := ["MetricId", "Timestamp", "MaxBlockNumberState"]
      + (if state.Some? then [state.value] else []);
    var selectCols := ["'" + metricId + "'", "timestamp", "max_block_number", "metric_value0"];
    if hasGroupBy then (insertCols + ["GroupByKey"], selectCols + ["g0"])
    else (insertCols, selectCols)
  }

  /** The INSERT lists line up (same number of columns) exactly when the
      first aggregator is one the history table has a state column for;
      with no expressions the aggregator defaults to count. */
  lemma HistoryColumnsAlign(aggregators: seq<Aggregator>, metricId: string, hasGroupBy: bool)
    ensures var r := HistoryColumns(aggregators, metricId, hasGroupBy);
            (|r.0| == |r.1|) <==> (|aggregators| == 0 || IsKnown(aggregators[0]))
  {
  }

  // ---------------------------------------------------------------------

  /** formatColumn (query.go:2063-2069): `input AS column`, with an empty
      input selected as null. */
  function FormatColumn(input: string, column: string): (r: string)
    ensures HasSuffix(r, " AS " + column)
    ensures IsPrefix(if input == "" then "null" else input, r)
    ensures |r| == |if input == "" then "null" else input| + 4 + |column|
  {
    (if input == "" then "null" else input) + " AS " + column
  }
}
