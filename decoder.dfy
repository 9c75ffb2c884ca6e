/** Decoding the rows of a raw-SQL metrics query (`readMetricsSql`). Each
    scanned cell is classified by its kind and by the `_series` / `_group`
    suffix of its column name: it becomes a series value, a group key, or
    the row's bucket id. The map of series values is created once, before
    the row loop, so a column keeps its last recorded value in later rows. */
module Decoder {
  import opened Common
  import Assembly

  const GroupSuffix := "_group"
  const SeriesSuffix := "_series"

  /** A scanned cell after nested pointers are unwrapped. */
  datatype Cell =
    | TimeCell(unix: int)
    | StringCell(s: string)
    | BoolCell(b: bool)
    | FloatCell(f: real)
    | IntCell(i: int)
    | UintCell(u: nat)
    /** a pointer that is still nil after unwrapping (a SQL NULL) */
    | NilCell
    /** any other kind: a struct that is not a time, a slice, a map */
    | OtherCell

  /** The library conversions the decoder relies on: strconv.ParseFloat,
      time.Format(time.RFC3339) on a Unix time, and
      strconv.FormatFloat(_, 'f', -1, 64). */
  datatype Formats = Formats(parseFloat: string -> Option<real>, formatTime: int -> string, formatFloat: real -> string)

  /** One emitted bucket. */
  datatype SqlBucket = SqlBucket(bucketId: nat, bucketValue: Option<real>, group: seq<string>,
                                 metricType: string, value: Option<real>)

  /** The per-row variables and the series map shared by all rows. */
  datatype RowState = RowState(bucketId: nat, bucketValue: Option<real>, groups: seq<string>,
                               results: map<nat, Option<real>>)

  function FormatBool(b: bool): string {
    if b then "true" else "false"
  }

  /** The metric type of a column: its name without `_series`, then without `_group`. */
  function MetricType(name: string): string {
    TrimSuffix(TrimSuffix(name, SeriesSuffix), GroupSuffix)
  }

  // ---------------------------------------------------------------------
  // the decoder as functions

  /** The state after column `idx` of a row: the cell records a series
      value, or adds a group key, or sets the bucket time, or does nothing. */
  function ScanCell(st: RowState, idx: nat, name: string, c: Cell, f: Formats): (r: RowState)
    ensures |r.groups| <= |st.groups| + 1
  {
    if RecordsValue(name, c, f) then st.(results := st.results[idx := CellValue(c, f)])
    else if IsGroupCell(name, c) then st.(groups := st.groups + [GroupText(c, f)])
    else if IsBucketCell(name, c) then st.(bucketId := Assembly.ToUint64(c.unix), bucketValue := Some(c.unix as real))
    else st
  }

  /** The state after the first `n` columns of a row, starting from the
      series map left by the previous rows. */
  function ScanRow(results: map<nat, Option<real>>, names: seq<string>, cells: seq<Cell>, f: Formats, n: nat): (r: RowState)
    requires |cells| == |names| && n <= |names|
    ensures |r.groups| <= n
  {
    if n == 0 then RowState(0, None, [], results)
    else ScanCell(ScanRow(results, names, cells, f, n - 1), n - 1, names[n - 1], cells[n - 1], f)
  }

  predicate KeysBelow(results: map<nat, Option<real>>, n: nat) {
    forall k :: k in results ==> k < n
  }

  /** One bucket per recorded series column, keyed by the column index: Go
      ranges over a map here, so the order of the buckets is unspecified. */
  function Emit(st: RowState, names: seq<string>): (r: map<nat, SqlBucket>)
    requires KeysBelow(st.results, |names|)
    ensures r.Keys == st.results.Keys
  {
    map k | k in st.results :: SqlBucket(st.bucketId, st.bucketValue, st.groups, MetricType(names[k]), st.results[k])
  }

  predicate WellShaped(rows: seq<seq<Cell>>, names: seq<string>) {
    forall r :: 0 <= r < |rows| ==> |rows[r]| == |names|
  }

  /** The series map after `rows` and the buckets each row emitted. */
  function DecodeRows(rows: seq<seq<Cell>>, names: seq<string>, f: Formats): (r: (map<nat, Option<real>>, seq<map<nat, SqlBucket>>))
    requires WellShaped(rows, names)
    ensures |r.1| == |rows|
    ensures KeysBelow(r.0, |names|)
  {
    if rows == [] then (map[], [])
    else
      var (results, out) := DecodeRows(rows[..|rows| - 1], names, f);
      var st := ScanRow(results, names, rows[|rows| - 1], f, |names|);
      ScanRowKeys(results, names, rows[|rows| - 1], f, |names|);
      (st.results, out + [Emit(st, names)])
  }

  // ---------------------------------------------------------------------
  // the decoder as the Go loop

  method ReadMetricsSql(names: seq<string>, rows: seq<seq<Cell>>, f: Formats) returns (out: seq<map<nat, SqlBucket>>)
    requires WellShaped(rows, names)
    ensures out == DecodeRows(rows, names, f).1
  {
    var results: map<nat, Option<real>> := map[];
    out := [];
    var r := 0;
    while r < |rows|
      invariant 0 <= r <= |rows|
      invariant (results, out) == DecodeRows(rows[..r], names, f)
    {
      var st := ReadRow(results, names, rows[r], f);
      DecodeRowsStep(rows, names, f, r);
      results := st.results;
      out := out + [Emit(st, names)];
      r := r + 1;
    }
    assert rows[..r] == rows;
  }

  lemma DecodeRowsStep(rows: seq<seq<Cell>>, names: seq<string>, f: Formats, r: nat)
    requires WellShaped(rows, names) && r < |rows|
    ensures WellShaped(rows[..r], names) && WellShaped(rows[..r + 1], names)
    ensures var previous := DecodeRows(rows[..r], names, f);
      var st := ScanRow(previous.0, names, rows[r], f, |names|);
      KeysBelow(st.results, |names|)
      && DecodeRows(rows[..r + 1], names, f) == (st.results, previous.1 + [Emit(st, names)])
  {
    var pre := rows[..r + 1];
    assert pre[..r] == rows[..r];
    assert pre[r] == rows[r];
    ScanRowKeys(DecodeRows(rows[..r], names, f).0, names, rows[r], f, |names|);
  }

  /** The body of the row loop: one pass over the columns of a row. */
  method ReadRow(previous: map<nat, Option<real>>, names: seq<string>, cells: seq<Cell>, f: Formats) returns (st: RowState)
    requires |cells| == |names|
    ensures st == ScanRow(previous, names, cells, f, |names|)
  {
    st := RowState(0, None, [], previous);
    var idx := 0;
    while idx < |names|
      invariant 0 <= idx <= |names|
      invariant st == ScanRow(previous, names, cells, f, idx)
    {
      st := ReadCell(st, idx, names[idx], cells[idx], f);
      idx := idx + 1;
    }
  }

  /** The type switch on one scanned cell. */
  method ReadCell(before: RowState, idx: nat, name: string, cell: Cell, f: Formats) returns (st: RowState)
    ensures st == ScanCell(before, idx, name, cell, f)
  {
    var bucketId, bucketValue, groups, results := before.bucketId, before.bucketValue, before.groups, before.results;
    var isSeries := HasSuffix(name, SeriesSuffix);
    var isGroup := HasSuffix(name, GroupSuffix);
    match cell {
      case TimeCell(t) =>
        if isSeries {
          results := results[idx := Some(t as real)];
        } else if isGroup {
          groups := groups + [f.formatTime(t)];
        } else {
          bucketId := Assembly.ToUint64(t);
          bucketValue := Some(t as real);
        }
      case StringCell(s) =>
        if isSeries {
          var parsed := f.parseFloat(s);
          if parsed.Some? {
            results := results[idx := Some(parsed.value)];
          }
        } else {
          groups := groups + [s];
        }
      case BoolCell(b) =>
        if isSeries {
          results := results[idx := Some(if b then 1.0 else 0.0)];
        } else {
          groups := groups + [FormatBool(b)];
        }
      case FloatCell(x) =>
        if isGroup {
          groups := groups + [f.formatFloat(x)];
        } else {
          results := results[idx := Some(x)];
        }
      case IntCell(i) =>
        if isGroup {
          groups := groups + [IntToString(i)];
        } else {
          results := results[idx := Some(i as real)];
        }
      case UintCell(u) =>
        if isGroup {
          groups := groups + [NatToString(u)];
        } else {
          results := results[idx := Some(u as real)];
        }
      case NilCell =>
        results := results[idx := None];
      case OtherCell =>
    }
    st := RowState(bucketId, bucketValue, groups, results);
  }

  // ---------------------------------------------------------------------
  // the classification, cell by cell

  /** The cell records a series value for its column. */
  predicate RecordsValue(name: string, c: Cell, f: Formats) {
    match c
    case TimeCell(_) => HasSuffix(name, SeriesSuffix)
    case StringCell(s) => HasSuffix(name, SeriesSuffix) && f.parseFloat(s).Some?
    case BoolCell(_) => HasSuffix(name, SeriesSuffix)
    case FloatCell(_) => !HasSuffix(name, GroupSuffix)
    case IntCell(_) => !HasSuffix(name, GroupSuffix)
    case UintCell(_) => !HasSuffix(name, GroupSuffix)
    case NilCell => true
    case OtherCell => false
  }

  /** The value it records: NULL records a nil value. */
  function CellValue(c: Cell, f: Formats): Option<real> {
    match c
    case TimeCell(t) => Some(t as real)
    case StringCell(s) => f.parseFloat(s)
    case BoolCell(b) => Some(if b then 1.0 else 0.0)
    case FloatCell(x) => Some(x)
    case IntCell(i) => Some(i as real)
    case UintCell(u) => Some(u as real)
    case NilCell => None
    case OtherCell => None
  }

  /** The cell is one of the row's group keys. */
  predicate IsGroupCell(name: string, c: Cell) {
    match c
    case TimeCell(_) => !HasSuffix(name, SeriesSuffix) && HasSuffix(name, GroupSuffix)
    case StringCell(_) => !HasSuffix(name, SeriesSuffix)
    case BoolCell(_) => !HasSuffix(name, SeriesSuffix)
    case FloatCell(_) => HasSuffix(name, GroupSuffix)
    case IntCell(_) => HasSuffix(name, GroupSuffix)
    case UintCell(_) => HasSuffix(name, GroupSuffix)
    case _ => false
  }

  function GroupText(c: Cell, f: Formats): string {
    match c
    case TimeCell(t) => f.formatTime(t)
    case StringCell(s) => s
    case BoolCell(b) => FormatBool(b)
    case FloatCell(x) => f.formatFloat(x)
    case IntCell(i) => IntToString(i)
    case UintCell(u) => NatToString(u)
    case _ => ""
  }

  /** The cell is the row's bucket time. */
  predicate IsBucketCell(name: string, c: Cell) {
    c.TimeCell? && !HasSuffix(name, SeriesSuffix) && !HasSuffix(name, GroupSuffix)
  }

  /** The group keys of the first `n` cells, in column order. */
  function GroupTexts(names: seq<string>, cells: seq<Cell>, f: Formats, n: nat): seq<string>
    requires |cells| == |names| && n <= |names|
  {
    if n == 0 then []
    else GroupTexts(names, cells, f, n - 1)
         + (if IsGroupCell(names[n - 1], cells[n - 1]) then [GroupText(cells[n - 1], f)] else [])
  }

  /** The last bucket time among the first `n` cells. */
  function LastBucketTime(names: seq<string>, cells: seq<Cell>, n: nat): Option<int>
    requires |cells| == |names| && n <= |names|
  {
    if n == 0 then None
    else if IsBucketCell(names[n - 1], cells[n - 1]) then Some(cells[n - 1].unix)
    else LastBucketTime(names, cells, n - 1)
  }

  /** The series map only gains columns of the row. */
  lemma {:induction false} ScanRowKeys(results: map<nat, Option<real>>, names: seq<string>, cells: seq<Cell>, f: Formats, n: nat)
    requires |cells| == |names| && n <= |names|
    ensures results.Keys <= ScanRow(results, names, cells, f, n).results.Keys
    ensures forall k :: k in ScanRow(results, names, cells, f, n).results ==> k in results || k < n
  {
    if n > 0 {
      ScanRowKeys(results, names, cells, f, n - 1);
    }
  }

  /** After a row, a column holds the value its cell recorded, and otherwise
      whatever an earlier row left there. */
  lemma {:induction false} ScanRowResults(results: map<nat, Option<real>>, names: seq<string>, cells: seq<Cell>, f: Formats,
                                          n: nat, k: nat)
    requires |cells| == |names| && n <= |names|
    ensures var res := ScanRow(results, names, cells, f, n).results;
      if k < n && RecordsValue(names[k], cells[k], f) then k in res && res[k] == CellValue(cells[k], f)
      else (k in res <==> k in results) && (k in results ==> res[k] == results[k])
  {
    if n > 0 {
      ScanRowResults(results, names, cells, f, n - 1, k);
    }
  }

  /** The row's groups are its group cells' texts, in column order. */
  lemma {:induction false} ScanRowGroups(results: map<nat, Option<real>>, names: seq<string>, cells: seq<Cell>, f: Formats, n: nat)
    requires |cells| == |names| && n <= |names|
    ensures ScanRow(results, names, cells, f, n).groups == GroupTexts(names, cells, f, n)
  {
    if n > 0 {
      ScanRowGroups(results, names, cells, f, n - 1);
    }
  }

  /** The bucket id and value a row gets from its bucket time, if any. */
  function BucketFields(t: Option<int>): (nat, Option<real>) {
    match t
    case None => (0, None)
    case Some(u) => (Assembly.ToUint64(u), Some(u as real))
  }

  /** The row's bucket id and value come from its last plain time column; a
      row without one gets id 0 and no value. */
  lemma {:induction false} ScanRowBucket(results: map<nat, Option<real>>, names: seq<string>, cells: seq<Cell>, f: Formats, n: nat)
    requires |cells| == |names| && n <= |names|
    ensures var st := ScanRow(results, names, cells, f, n);
      (st.bucketId, st.bucketValue) == BucketFields(LastBucketTime(names, cells, n))
  {
    if n > 0 {
      ScanRowBucket(results, names, cells, f, n - 1);
      ScanRowBucketStep(results, names, cells, f, n);
    }
  }

  lemma ScanRowBucketStep(results: map<nat, Option<real>>, names: seq<string>, cells: seq<Cell>, f: Formats, n: nat)
    requires |cells| == |names| && 0 < n <= |names|
    ensures var prev := ScanRow(results, names, cells, f, n - 1);
      var cur := ScanRow(results, names, cells, f, n);
      (cur.bucketId, cur.bucketValue)
        == if IsBucketCell(names[n - 1], cells[n - 1]) then BucketFields(Some(cells[n - 1].unix)) else (prev.bucketId, prev.bucketValue)
  {
    var prev := ScanRow(results, names, cells, f, n - 1);
    var after := ScanCell(prev, n - 1, names[n - 1], cells[n - 1], f);
    ScanCellBucket(prev, n - 1, names[n - 1], cells[n - 1], f);
    assert ScanRow(results, names, cells, f, n).bucketId == after.bucketId;
    assert ScanRow(results, names, cells, f, n).bucketValue == after.bucketValue;
  }

  /** Only a plain time column touches the bucket id and value. */
  lemma ScanCellBucket(st: RowState, idx: nat, name: string, c: Cell, f: Formats)
    ensures var after := ScanCell(st, idx, name, c, f);
      (after.bucketId, after.bucketValue)
        == if IsBucketCell(name, c) then BucketFields(Some(c.unix)) else (st.bucketId, st.bucketValue)
  {
  }

  /** A column that emitted a bucket keeps emitting one in every later row. */
  lemma {:induction false} EmittedColumnsNeverShrink(rows: seq<seq<Cell>>, names: seq<string>, f: Formats, i: nat, j: nat)
    requires WellShaped(rows, names) && i <= j < |rows|
    ensures DecodeRows(rows, names, f).1[i].Keys <= DecodeRows(rows, names, f).1[j].Keys
    decreases |rows|
  {
    var init := rows[..|rows| - 1];
    var (results, out) := DecodeRows(init, names, f);
    ScanRowKeys(results, names, rows[|rows| - 1], f, |names|);
    if j < |rows| - 1 {
      EmittedColumnsNeverShrink(init, names, f, i, j);
    } else if i < j {
      EmittedColumnsNeverShrink(init, names, f, i, j - 1);
      assert out[j - 1].Keys == results.Keys by {
        LastRowEmitsResults(init, names, f);
      }
    }
  }

  /** The last row emits one bucket per column of the series map. */
  lemma LastRowEmitsResults(rows: seq<seq<Cell>>, names: seq<string>, f: Formats)
    requires WellShaped(rows, names) && rows != []
    ensures DecodeRows(rows, names, f).1[|rows| - 1].Keys == DecodeRows(rows, names, f).0.Keys
  {
  }

  /** A series string that fails to parse in the second row repeats the
      value the first row recorded, instead of emitting nothing. */
  lemma FailedParseRepeatsPreviousValue(f: Formats)
    requires f.parseFloat("5") == Some(5.0) && f.parseFloat("n/a") == None
    ensures var out := DecodeRows([[StringCell("5")], [StringCell("n/a")]], ["count_series"], f).1;
      0 in out[1] && out[1][0].value == Some(5.0) && out[1][0].metricType == "count"
  {
    var names := ["count_series"];
    assert HasSuffix(names[0], SeriesSuffix);
    var rows := [[StringCell("5")], [StringCell("n/a")]];
    assert rows[..1] == [[StringCell("5")]];
    assert rows[..1][..0] == [];
    var first := DecodeRows(rows[..1], names, f);
    assert ScanRow(map[], names, rows[0], f, 1) == RowState(0, None, [], map[0 := Some(5.0)]);
    assert first.0 == map[0 := Some(5.0)];
    assert ScanRow(first.0, names, rows[1], f, 1) == RowState(0, None, [], map[0 := Some(5.0)]);
    assert MetricType("count_series") == "count" by {
      assert "count_series"[..5] == "count";
      assert !HasSuffix("count", GroupSuffix);
    }
  }
}
