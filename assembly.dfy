/** The result loop of ReadMetrics (query.go:1941-2058): ordered rows of
    (bucket index, sample factor, min, max, values, groups) become the list
    of metric buckets, with nil-valued buckets interpolated for every index
    the rows skip and for every index after the last row. */
module Assembly {
  import opened Common
  import Bucketing

  const Two63 := 0x8000_0000_0000_0000
  const Two64 := 0x1_0000_0000_0000_0000

  /** Go's int is 64 bits wide. */
  predicate InInt64(x: int) { -Two63 <= x < Two63 }

  /** uint64(x) for an int64 x. */
  function ToUint64(x: int): (u: nat)
    ensures u < Two64
    ensures 0 <= x < Two64 ==> u == x
  {
    if 0 <= x < Two64 then x else x % Two64
  }

  /** int(u) for a uint64 u: values from 2^63 up read as negative. */
  function ToInt64(u: nat): (x: int)
    requires u < Two64
    ensures InInt64(x)
    ensures ToUint64(x) == u
  {
    if u < Two63 then u else u - Two64
  }

  /** One scanned row. The bucket index is a uint64; `values` holds one
      (possibly null) result per expression, `groups` one key per group. */
  datatype ResultRow = ResultRow(
    bucketId: nat, sampleFactor: real, min: real, max: real, values: seq<Option<real>>, groups: seq<string>)

  predicate ValidRow(r: ResultRow, exprCount: nat, groupCount: nat) {
    r.bucketId < Two64 && |r.values| == exprCount && |r.groups| == groupCount
  }

  predicate ValidRows(rows: seq<ResultRow>, exprCount: nat, groupCount: nat) {
    forall i :: 0 <= i < |rows| ==> ValidRow(rows[i], exprCount, groupCount)
  }

  datatype MetricBucket = MetricBucket(
    bucketId: nat, bucketMin: real, bucketMax: real, group: seq<string>,
    aggregator: Aggregator, column: string, value: Option<real>)

  datatype MetricsBuckets = MetricsBuckets(buckets: seq<MetricBucket>, sampleFactor: real, bucketCount: nat)

  /** The lower edge of bucket i: `i * (max - min) / count + min`. The count
      is never zero where a bucket is emitted (ZeroCountEmitsNothing). */
  function Edge(i: int, lo: real, hi: real, count: int): real {
    if count == 0 then lo else (i as real) * (hi - lo) / (count as real) + lo
  }

  /** On a forward range the edges start at min, end at max and never
      decrease. */
  lemma EdgesTileRange(i: int, lo: real, hi: real, count: int)
    requires lo <= hi && count > 0
    ensures Edge(0, lo, hi, count) == lo && Edge(count, lo, hi, count) == hi
    ensures Edge(i, lo, hi, count) <= Edge(i + 1, lo, hi, count)
  {
    var w := (hi - lo) / (count as real);
    assert w >= 0.0;
    assert Edge(i, lo, hi, count) == (i as real) * w + lo;
    assert Edge(i + 1, lo, hi, count) == (i as real) * w + w + lo;
  }

  /** The loop's variables: the buckets so far, the last bucket index
      emitted, whether any row was read, and the values of the last scanned
      row, which the scan leaves in shared variables. */
  datatype LoopState = LoopState(
    buckets: seq<MetricBucket>, last: int, hasRows: bool,
    sampleFactor: real, min: real, max: real, groups: seq<string>)

  function EmptyGroups(n: nat): (g: seq<string>)
    ensures |g| == n && forall i :: 0 <= i < n ==> g[i] == ""
  {
    seq(n, _ => "")
  }

  function Init(groupCount: nat): LoopState {
    LoopState([], -1, false, 0.0, 0.0, 0.0, EmptyGroups(groupCount))
  }

  /** The nil-valued buckets for index i, one per expression. */
  function NilBuckets(i: int, exprs: seq<Bucketing.Expression>, groups: seq<string>, lo: real, hi: real, count: int)
    : (r: seq<MetricBucket>)
    ensures |r| == |exprs|
    ensures forall k :: 0 <= k < |exprs| ==> r[k] == MetricBucket(
      ToUint64(i), Edge(i, lo, hi, count), Edge(i + 1, lo, hi, count), groups,
      exprs[k].aggregator, exprs[k].column, None)
  {
    seq(|exprs|, k requires 0 <= k < |exprs| => MetricBucket(
      ToUint64(i), Edge(i, lo, hi, count), Edge(i + 1, lo, hi, count), groups,
      exprs[k].aggregator, exprs[k].column, None))
  }

  /** Nil buckets for every index from `from` up to, not including, `to`,
      index-major. */
  function GapBuckets(first: int, stop: int, exprs: seq<Bucketing.Expression>, groups: seq<string>,
                      lo: real, hi: real, count: int): seq<MetricBucket>
    decreases stop - first
  {
    if stop <= first then []
    else GapBuckets(first, stop - 1, exprs, groups, lo, hi, count) + NilBuckets(stop - 1, exprs, groups, lo, hi, count)
  }

  /** The row's own buckets, one per expression, carrying its values. */
  function RowBuckets(row: ResultRow, exprs: seq<Bucketing.Expression>, count: int): (r: seq<MetricBucket>)
    requires |row.values| == |exprs|
    ensures |r| == |exprs|
    ensures forall k :: 0 <= k < |exprs| ==> r[k] == MetricBucket(
      row.bucketId, Edge(row.bucketId, row.min, row.max, count), Edge(row.bucketId + 1, row.min, row.max, count),
      row.groups, exprs[k].aggregator, exprs[k].column, row.values[k])
  {
    seq(|exprs|, k requires 0 <= k < |exprs| => MetricBucket(
      row.bucketId, Edge(row.bucketId, row.min, row.max, count), Edge(row.bucketId + 1, row.min, row.max, count),
      row.groups, exprs[k].aggregator, exprs[k].column, row.values[k]))
  }

  /** Whether the loop skips a row: its index is not below uint64(count). */
  predicate Skipped(row: ResultRow, count: int) {
    row.bucketId >= ToUint64(count)
  }

  /** One iteration of the row loop. The scan happens first, so even a
      skipped row marks the result non-empty and replaces the shared
      min/max/groups; a kept row closes the gap since the last index with
      nil buckets carrying its own groups and min/max. */
  function Step(st: LoopState, row: ResultRow, exprs: seq<Bucketing.Expression>, count: int): (r: LoopState)
    requires ValidRow(row, |exprs|, |row.groups|)
    ensures r.hasRows && r.sampleFactor == row.sampleFactor && r.min == row.min && r.max == row.max
    ensures r.groups == row.groups
    ensures Skipped(row, count) ==> r.buckets == st.buckets && r.last == st.last
    ensures !Skipped(row, count) ==> r.last == ToInt64(row.bucketId) && st.buckets <= r.buckets
  {
    var scanned := st.(hasRows := true, sampleFactor := row.sampleFactor, min := row.min, max := row.max,
                       groups := row.groups);
    if Skipped(row, count) then scanned
    else
      var id := ToInt64(row.bucketId);
      scanned.(buckets := st.buckets + GapBuckets(st.last + 1, id, exprs, row.groups, row.min, row.max, count)
                                     + RowBuckets(row, exprs, count),
               last := id)
  }

  /** The loop state after the given rows, in order. */
  function Fold(rows: seq<ResultRow>, exprs: seq<Bucketing.Expression>, groupCount: nat, count: int): (r: LoopState)
    requires ValidRows(rows, |exprs|, groupCount)
    ensures r.hasRows <==> rows != []
    ensures rows == [] ==> r == Init(groupCount)
    ensures rows != [] ==> r.groups == rows[|rows| - 1].groups && r.sampleFactor == rows[|rows| - 1].sampleFactor
  {
    if rows == [] then Init(groupCount)
    else Step(Fold(rows[..|rows| - 1], exprs, groupCount, count), rows[|rows| - 1], exprs, count)
  }

  /** The whole result: the rows' buckets, then nil buckets from the last
      index to the end. With timestamp bucketing and no row read at all, the
      trailing buckets span the (effective) date range. */
  function Assemble(rows: seq<ResultRow>, exprs: seq<Bucketing.Expression>, groupCount: nat, count: int,
                    bucketBy: Bucketing.BucketBy, start: int, end: int): (r: MetricsBuckets)
    requires ValidRows(rows, |exprs|, groupCount)
    ensures r.bucketCount == ToUint64(count)
    ensures r.sampleFactor == if rows == [] then 0.0 else rows[|rows| - 1].sampleFactor
    ensures Fold(rows, exprs, groupCount, count).buckets <= r.buckets
  {
    var st := Fold(rows, exprs, groupCount, count);
    var (lo, hi) := if bucketBy == Bucketing.ByTimestamp && !st.hasRows then (start as real, end as real)
                    else (st.min, st.max);
    MetricsBuckets(st.buckets + GapBuckets(st.last + 1, count, exprs, st.groups, lo, hi, count),
                   st.sampleFactor, ToUint64(count))
  }

  // ---------------------------------------------------------------------
  // the loop itself

  /** Appends the nil buckets for index i, one expression at a time. */
  method AppendNil(buckets: seq<MetricBucket>, i: int, exprs: seq<Bucketing.Expression>, groups: seq<string>,
                   lo: real, hi: real, count: int) returns (bs: seq<MetricBucket>)
    ensures bs == buckets + NilBuckets(i, exprs, groups, lo, hi, count)
  {
    bs := buckets;
    var k := 0;
    while k < |exprs|
      invariant 0 <= k <= |exprs|
      invariant bs == buckets + NilBuckets(i, exprs, groups, lo, hi, count)[..k]
    {
      bs := bs + [MetricBucket(ToUint64(i), Edge(i, lo, hi, count), Edge(i + 1, lo, hi, count), groups,
                               exprs[k].aggregator, exprs[k].column, None)];
      k := k + 1;
    }
  }

  /** Appends the nil buckets for every index in [from, to). */
  method AppendGaps(buckets: seq<MetricBucket>, first: int, stop: int, exprs: seq<Bucketing.Expression>,
                    groups: seq<string>, lo: real, hi: real, count: int) returns (bs: seq<MetricBucket>)
    ensures bs == buckets + GapBuckets(first, stop, exprs, groups, lo, hi, count)
  {
    bs := buckets;
    if stop <= first {
      return;
    }
    var i := first;
    while i < stop
      invariant first <= i <= stop
      invariant bs == buckets + GapBuckets(first, i, exprs, groups, lo, hi, count)
    {
      bs := AppendNil(bs, i, exprs, groups, lo, hi, count);
      i := i + 1;
    }
  }

  /** Appends a kept row's buckets, one expression at a time. */
  method AppendRow(buckets: seq<MetricBucket>, row: ResultRow, exprs: seq<Bucketing.Expression>, count: int)
    returns (bs: seq<MetricBucket>)
    requires |row.values| == |exprs|
    ensures bs == buckets + RowBuckets(row, exprs, count)
  {
    bs := buckets;
    var k := 0;
    while k < |exprs|
      invariant 0 <= k <= |exprs|
      invariant bs == buckets + RowBuckets(row, exprs, count)[..k]
    {
      bs := bs + [MetricBucket(row.bucketId, Edge(row.bucketId, row.min, row.max, count),
                               Edge(row.bucketId + 1, row.min, row.max, count), row.groups,
                               exprs[k].aggregator, exprs[k].column, row.values[k])];
      k := k + 1;
    }
  }

  /** The result loop of ReadMetrics over already-scanned rows. */
  method ReadMetricsBuckets(rows: seq<ResultRow>, exprs: seq<Bucketing.Expression>, groupCount: nat, count: int,
                            bucketBy: Bucketing.BucketBy, start: int, end: int) returns (m: MetricsBuckets)
    requires ValidRows(rows, |exprs|, groupCount)
    ensures m == Assemble(rows, exprs, groupCount, count, bucketBy, start, end)
  {
    var buckets: seq<MetricBucket> := [];
    var last := -1;
    var hasRows := false;
    var sampleFactor, lo, hi := 0.0, 0.0, 0.0;
    var groups := EmptyGroups(groupCount);
    var n := 0;
    while n < |rows|
      invariant 0 <= n <= |rows|
      invariant LoopState(buckets, last, hasRows, sampleFactor, lo, hi, groups) == Fold(rows[..n], exprs, groupCount, count)
    {
      var row := rows[n];
      assert rows[..n + 1][..n] == rows[..n];
      hasRows := true;
      sampleFactor, lo, hi, groups := row.sampleFactor, row.min, row.max, row.groups;
      if row.bucketId < ToUint64(count) {
        var id := ToInt64(row.bucketId);
        buckets := AppendGaps(buckets, last + 1, id, exprs, groups, lo, hi, count);
        buckets := AppendRow(buckets, row, exprs, count);
        last := id;
      }
      n := n + 1;
    }
    assert rows[..n] == rows;
    if bucketBy == Bucketing.ByTimestamp && !hasRows {
      lo, hi := start as real, end as real;
    }
    buckets := AppendGaps(buckets, last + 1, count, exprs, groups, lo, hi, count);
    m := MetricsBuckets(buckets, sampleFactor, ToUint64(count));
  }

  // ---------------------------------------------------------------------
  // what the loop guarantees

  /** `bs` holds a bucket for index `id` of expression `e`. */
  predicate Has(bs: seq<MetricBucket>, id: nat, e: Bucketing.Expression) {
    exists j :: 0 <= j < |bs| && bs[j].bucketId == id && bs[j].aggregator == e.aggregator && bs[j].column == e.column
  }

  lemma HasAppend(a: seq<MetricBucket>, b: seq<MetricBucket>, id: nat, e: Bucketing.Expression)
    ensures Has(a, id, e) ==> Has(a + b, id, e)
    ensures Has(b, id, e) ==> Has(a + b, id, e)
  {
    if Has(a, id, e) {
      var j :| 0 <= j < |a| && a[j].bucketId == id && a[j].aggregator == e.aggregator && a[j].column == e.column;
      assert (a + b)[j] == a[j];
    }
    if Has(b, id, e) {
      var j :| 0 <= j < |b| && b[j].bucketId == id && b[j].aggregator == e.aggregator && b[j].column == e.column;
      assert (a + b)[|a| + j] == b[j];
    }
  }

  /** Every bucket of `bs` has an index in [from, to). */
  predicate IdsWithin(bs: seq<MetricBucket>, first: int, stop: int) {
    forall j :: 0 <= j < |bs| ==> first <= bs[j].bucketId < stop
  }

  /** Every bucket of a gap lies in the gap. */
  lemma {:induction false} GapIdsInRange(first: int, stop: int, exprs: seq<Bucketing.Expression>, groups: seq<string>,
                                         lo: real, hi: real, count: int)
    requires 0 <= first && stop <= Two64
    ensures IdsWithin(GapBuckets(first, stop, exprs, groups, lo, hi, count), first, stop)
    decreases stop - first
  {
    if first < stop {
      GapIdsInRange(first, stop - 1, exprs, groups, lo, hi, count);
      var prefix: seq<MetricBucket> := GapBuckets(first, stop - 1, exprs, groups, lo, hi, count);
      var last: seq<MetricBucket> := NilBuckets(stop - 1, exprs, groups, lo, hi, count);
      assert GapBuckets(first, stop, exprs, groups, lo, hi, count) == prefix + last;
      forall j | 0 <= j < |prefix + last|
        ensures first <= (prefix + last)[j].bucketId < stop
      {
        if j >= |prefix| {
          assert (prefix + last)[j] == last[j - |prefix|];
          assert ToUint64(stop - 1) == stop - 1;
          assert last[j - |prefix|].bucketId == stop - 1;
        } else {
          assert (prefix + last)[j] == prefix[j];
        }
      }
    }
  }

  /** A gap splits at any index in between. */
  lemma {:induction false} GapSplit(first: int, mid: int, stop: int, exprs: seq<Bucketing.Expression>, groups: seq<string>,
                                    lo: real, hi: real, count: int)
    requires first <= mid <= stop
    ensures GapBuckets(first, stop, exprs, groups, lo, hi, count)
         == GapBuckets(first, mid, exprs, groups, lo, hi, count) + GapBuckets(mid, stop, exprs, groups, lo, hi, count)
    decreases stop - mid
  {
    if mid < stop {
      GapSplit(first, mid, stop - 1, exprs, groups, lo, hi, count);
      var last := NilBuckets(stop - 1, exprs, groups, lo, hi, count);
      assert GapBuckets(first, mid, exprs, groups, lo, hi, count) + GapBuckets(mid, stop - 1, exprs, groups, lo, hi, count) + last
          == GapBuckets(first, mid, exprs, groups, lo, hi, count) + (GapBuckets(mid, stop - 1, exprs, groups, lo, hi, count) + last);
    }
  }

  /** A gap holds a bucket for each of its indices and each expression. */
  lemma GapCovers(first: int, stop: int, exprs: seq<Bucketing.Expression>, groups: seq<string>,
                  lo: real, hi: real, count: int, i: int, k: int)
    requires 0 <= first <= i < stop <= Two64 && 0 <= k < |exprs|
    ensures Has(GapBuckets(first, stop, exprs, groups, lo, hi, count), i, exprs[k])
  {
    var before := GapBuckets(first, i, exprs, groups, lo, hi, count);
    var own := GapBuckets(i, i + 1, exprs, groups, lo, hi, count);
    var after := GapBuckets(i + 1, stop, exprs, groups, lo, hi, count);
    GapSplit(first, i, stop, exprs, groups, lo, hi, count);
    GapSplit(i, i + 1, stop, exprs, groups, lo, hi, count);
    assert GapBuckets(i, i, exprs, groups, lo, hi, count) == [];
    assert own == NilBuckets(i, exprs, groups, lo, hi, count);
    assert own[k].bucketId == i;
    assert Has(own, i, exprs[k]);
    HasAppend(own, after, i, exprs[k]);
    HasAppend(before, own + after, i, exprs[k]);
  }

  lemma {:induction false} GapLength(first: int, stop: int, exprs: seq<Bucketing.Expression>, groups: seq<string>,
                                     lo: real, hi: real, count: int)
    requires first <= stop
    ensures |GapBuckets(first, stop, exprs, groups, lo, hi, count)| == (stop - first) * |exprs|
    decreases stop - first
  {
    if first < stop {
      GapLength(first, stop - 1, exprs, groups, lo, hi, count);
      assert (stop - 1 - first) * |exprs| + |exprs| == (stop - first) * |exprs|;
    }
  }

  /** Every bucket of `bs` is nil and carries `groups`. */
  predicate AllNil(bs: seq<MetricBucket>, groups: seq<string>) {
    forall j :: 0 <= j < |bs| ==> bs[j].value == None && bs[j].group == groups
  }

  lemma {:induction false} GapValuesNil(first: int, stop: int, exprs: seq<Bucketing.Expression>, groups: seq<string>,
                                        lo: real, hi: real, count: int)
    ensures AllNil(GapBuckets(first, stop, exprs, groups, lo, hi, count), groups)
    decreases stop - first
  {
    if first < stop {
      GapValuesNil(first, stop - 1, exprs, groups, lo, hi, count);
      var prefix: seq<MetricBucket> := GapBuckets(first, stop - 1, exprs, groups, lo, hi, count);
      var last: seq<MetricBucket> := NilBuckets(stop - 1, exprs, groups, lo, hi, count);
      forall j | 0 <= j < |prefix + last|
        ensures (prefix + last)[j].value == None && (prefix + last)[j].group == groups
      {
        if j >= |prefix| {
          assert (prefix + last)[j] == last[j - |prefix|];
        }
      }
    }
  }

  /** What holds of the loop state for a count that fits a bucket list:
      `last` is -1 or a real index, every bucket so far is below the count,
      and every index up to `last` has a bucket for every expression. */
  predicate Covering(st: LoopState, exprs: seq<Bucketing.Expression>, count: int) {
    && -1 <= st.last < count
    && (forall j :: 0 <= j < |st.buckets| ==> st.buckets[j].bucketId < count)
    && (forall i, k :: 0 <= i <= st.last && 0 <= k < |exprs| ==> Has(st.buckets, i, exprs[k]))
  }

  lemma StepKeepsCovering(st: LoopState, row: ResultRow, exprs: seq<Bucketing.Expression>, count: int)
    requires ValidRow(row, |exprs|, |row.groups|) && 0 <= count < Two63
    requires Covering(st, exprs, count)
    ensures Covering(Step(st, row, exprs, count), exprs, count)
  {
    if !Skipped(row, count) {
      var id := ToInt64(row.bucketId);
      assert id == row.bucketId;
      var gap := GapBuckets(st.last + 1, id, exprs, row.groups, row.min, row.max, count);
      var own := RowBuckets(row, exprs, count);
      var next := Step(st, row, exprs, count);
      assert next.buckets == st.buckets + gap + own;
      GapIdsInRange(st.last + 1, id, exprs, row.groups, row.min, row.max, count);
      forall i, k | 0 <= i <= id && 0 <= k < |exprs|
        ensures Has(next.buckets, i, exprs[k])
      {
        if i <= st.last {
          HasAppend(st.buckets, gap, i, exprs[k]);
          HasAppend(st.buckets + gap, own, i, exprs[k]);
        } else if i < id {
          GapCovers(st.last + 1, id, exprs, row.groups, row.min, row.max, count, i, k);
          HasAppend(st.buckets, gap, i, exprs[k]);
          HasAppend(st.buckets + gap, own, i, exprs[k]);
        } else {
          assert own[k].bucketId == i;
          assert Has(own, i, exprs[k]);
          HasAppend(st.buckets + gap, own, i, exprs[k]);
        }
      }
      forall i, k | 0 <= i <= next.last && 0 <= k < |exprs|
        ensures Has(next.buckets, i, exprs[k])
      {
      }
    }
  }

  lemma {:induction false} FoldCovering(rows: seq<ResultRow>, exprs: seq<Bucketing.Expression>, groupCount: nat, count: int)
    requires ValidRows(rows, |exprs|, groupCount) && 0 <= count < Two63
    ensures Covering(Fold(rows, exprs, groupCount, count), exprs, count)
  {
    if rows != [] {
      FoldCovering(rows[..|rows| - 1], exprs, groupCount, count);
      StepKeepsCovering(Fold(rows[..|rows| - 1], exprs, groupCount, count), rows[|rows| - 1], exprs, count);
    }
  }

  /** Whatever the order of the rows, for a non-negative count the result
      lists only indices below the count and holds a bucket for every index
      below it and every expression. */
  lemma {:induction false} BucketsCoverEveryIndex(rows: seq<ResultRow>, exprs: seq<Bucketing.Expression>, groupCount: nat,
                                                  count: int, bucketBy: Bucketing.BucketBy, start: int, end: int)
    requires ValidRows(rows, |exprs|, groupCount) && 0 <= count < Two63
    ensures
      var m := Assemble(rows, exprs, groupCount, count, bucketBy, start, end);
      && m.bucketCount == count
      && (forall j :: 0 <= j < |m.buckets| ==> m.buckets[j].bucketId < count)
      && (forall i, k :: 0 <= i < count && 0 <= k < |exprs| ==> Has(m.buckets, i, exprs[k]))
  {
    var st := Fold(rows, exprs, groupCount, count);
    FoldCovering(rows, exprs, groupCount, count);
    var (lo, hi) := if bucketBy == Bucketing.ByTimestamp && !st.hasRows then (start as real, end as real)
                    else (st.min, st.max);
    var tail := GapBuckets(st.last + 1, count, exprs, st.groups, lo, hi, count);
    var m := Assemble(rows, exprs, groupCount, count, bucketBy, start, end);
    assert m.buckets == st.buckets + tail;
    GapIdsInRange(st.last + 1, count, exprs, st.groups, lo, hi, count);
    forall i, k | 0 <= i < count && 0 <= k < |exprs|
      ensures Has(m.buckets, i, exprs[k])
    {
      if i <= st.last {
        HasAppend(st.buckets, tail, i, exprs[k]);
      } else {
        GapCovers(st.last + 1, count, exprs, st.groups, lo, hi, count, i, k);
        HasAppend(st.buckets, tail, i, exprs[k]);
      }
    }
  }

  predicate StrictlyAscending(rows: seq<ResultRow>) {
    forall a, b :: 0 <= a < b < |rows| ==> rows[a].bucketId < rows[b].bucketId
  }

  /** The loop's `last` is -1 or the index of one of the rows read. */
  lemma {:induction false} FoldLastIsRowIndex(rows: seq<ResultRow>, exprs: seq<Bucketing.Expression>, groupCount: nat, count: int)
    requires ValidRows(rows, |exprs|, groupCount) && 0 <= count < Two63
    ensures
      var st := Fold(rows, exprs, groupCount, count);
      st.last == -1 || exists j :: 0 <= j < |rows| && st.last == rows[j].bucketId
  {
    if rows != [] {
      var init := rows[..|rows| - 1];
      FoldLastIsRowIndex(init, exprs, groupCount, count);
      var prev := Fold(init, exprs, groupCount, count);
      if prev.last != -1 && Skipped(rows[|rows| - 1], count) {
        var j :| 0 <= j < |init| && prev.last == init[j].bucketId;
        assert rows[j] == init[j];
      }
    }
  }

  /** With strictly ascending indices the loop has emitted exactly one
      bucket per expression for each index up to `last`. */
  lemma {:induction false} FoldLengthAscending(rows: seq<ResultRow>, exprs: seq<Bucketing.Expression>, groupCount: nat, count: int)
    requires ValidRows(rows, |exprs|, groupCount) && 0 <= count < Two63 && StrictlyAscending(rows)
    ensures
      var st := Fold(rows, exprs, groupCount, count);
      |st.buckets| == (st.last + 1) * |exprs|
  {
    if rows != [] {
      var init := rows[..|rows| - 1];
      var row := rows[|rows| - 1];
      FoldLengthAscending(init, exprs, groupCount, count);
      var prev := Fold(init, exprs, groupCount, count);
      FoldLastIsRowIndex(init, exprs, groupCount, count);
      if prev.last != -1 {
        var j :| 0 <= j < |init| && prev.last == init[j].bucketId;
        assert rows[j] == init[j];
      }
      StepLengthAscending(prev, row, exprs, count);
    }
  }

  /** A kept row whose index is past `last` adds one bucket per expression
      for each index from `last + 1` up to its own. */
  lemma StepLengthAscending(prev: LoopState, row: ResultRow, exprs: seq<Bucketing.Expression>, count: int)
    requires ValidRow(row, |exprs|, |row.groups|) && 0 <= count < Two63
    requires -1 <= prev.last < row.bucketId && |prev.buckets| == (prev.last + 1) * |exprs|
    ensures var st := Step(prev, row, exprs, count); |st.buckets| == (st.last + 1) * |exprs|
  {
    if !Skipped(row, count) {
      var id := ToInt64(row.bucketId);
      assert id == row.bucketId;
      GapLength(prev.last + 1, id, exprs, row.groups, row.min, row.max, count);
      BlockLengthsAdd(prev.last, id, |exprs|);
    }
  }

  lemma BlockLengthsAdd(last: int, id: int, e: int)
    ensures (last + 1) * e + (id - last - 1) * e + e == (id + 1) * e
  {
  }

  /** With strictly ascending indices and a non-negative count, the result
      has exactly count buckets per expression. */
  lemma {:induction false} AscendingRowsGiveExactCount(rows: seq<ResultRow>, exprs: seq<Bucketing.Expression>, groupCount: nat,
                                                       count: int, bucketBy: Bucketing.BucketBy, start: int, end: int)
    requires ValidRows(rows, |exprs|, groupCount) && 0 <= count < Two63 && StrictlyAscending(rows)
    ensures |Assemble(rows, exprs, groupCount, count, bucketBy, start, end).buckets| == count * |exprs|
  {
    var st := Fold(rows, exprs, groupCount, count);
    FoldLengthAscending(rows, exprs, groupCount, count);
    FoldCovering(rows, exprs, groupCount, count);
    var (lo, hi) := if bucketBy == Bucketing.ByTimestamp && !st.hasRows then (start as real, end as real)
                    else (st.min, st.max);
    GapLength(st.last + 1, count, exprs, st.groups, lo, hi, count);
    var e := |exprs|;
    assert (st.last + 1) * e + (count - st.last - 1) * e == count * e;
  }

  /** Rows at or past the count change nothing but the scanned values. */
  lemma SkippedRowsEmitNothing(st: LoopState, row: ResultRow, exprs: seq<Bucketing.Expression>, count: int)
    requires ValidRow(row, |exprs|, |row.groups|) && Skipped(row, count)
    ensures
      var next := Step(st, row, exprs, count);
      next.buckets == st.buckets && next.last == st.last && next.hasRows
      && next.min == row.min && next.max == row.max && next.groups == row.groups
  {
  }

  predicate AllSkipped(rows: seq<ResultRow>, count: int) {
    forall j :: 0 <= j < |rows| ==> Skipped(rows[j], count)
  }

  lemma {:induction false} FoldAllSkipped(rows: seq<ResultRow>, exprs: seq<Bucketing.Expression>, groupCount: nat, count: int)
    requires ValidRows(rows, |exprs|, groupCount) && AllSkipped(rows, count)
    ensures
      var st := Fold(rows, exprs, groupCount, count);
      && st.buckets == [] && st.last == -1 && st.hasRows == (rows != [])
      && (rows != [] ==> st.min == rows[|rows| - 1].min && st.max == rows[|rows| - 1].max)
      && (rows != [] ==> st.groups == rows[|rows| - 1].groups)
  {
    if rows != [] {
      FoldAllSkipped(rows[..|rows| - 1], exprs, groupCount, count);
    }
  }

  /** With no rows at all and timestamp bucketing, the result is count nil
      buckets per expression spread over the date range, with empty group
      keys. */
  lemma NoRowsSpanDateRange(exprs: seq<Bucketing.Expression>, groupCount: nat, count: int, start: int, end: int)
    requires count >= 0
    ensures
      var m := Assemble([], exprs, groupCount, count, Bucketing.ByTimestamp, start, end);
      && m.buckets == GapBuckets(0, count, exprs, EmptyGroups(groupCount), start as real, end as real, count)
      && |m.buckets| == count * |exprs|
      && (forall j :: 0 <= j < |m.buckets| ==> m.buckets[j].value == None && m.buckets[j].group == EmptyGroups(groupCount))
  {
    GapLength(0, count, exprs, EmptyGroups(groupCount), start as real, end as real, count);
    GapValuesNil(0, count, exprs, EmptyGroups(groupCount), start as real, end as real, count);
  }

  /** A gap around index i is the gap before it, i's own buckets and the
      gap after it. */
  lemma GapAround(first: int, stop: int, exprs: seq<Bucketing.Expression>, groups: seq<string>,
                  lo: real, hi: real, count: int, i: int)
    requires first <= i < stop
    ensures GapBuckets(first, stop, exprs, groups, lo, hi, count)
         == GapBuckets(first, i, exprs, groups, lo, hi, count) + NilBuckets(i, exprs, groups, lo, hi, count)
            + GapBuckets(i + 1, stop, exprs, groups, lo, hi, count)
  {
    GapSplit(first, i, stop, exprs, groups, lo, hi, count);
    GapSplit(i, i + 1, stop, exprs, groups, lo, hi, count);
    assert GapBuckets(i, i, exprs, groups, lo, hi, count) == [];
    assert GapBuckets(i, i + 1, exprs, groups, lo, hi, count) == NilBuckets(i, exprs, groups, lo, hi, count);
  }

  lemma IndexInMiddle<T>(a: seq<T>, m: seq<T>, c: seq<T>, k: int)
    requires 0 <= k < |m|
    ensures |a| + k < |a + m + c| && (a + m + c)[|a| + k] == m[k]
  {
  }

  /** The k-th bucket of index i in a gap. */
  lemma GapAt(first: int, stop: int, exprs: seq<Bucketing.Expression>, groups: seq<string>,
              lo: real, hi: real, count: int, i: int, k: int)
    requires first <= i < stop && 0 <= k < |exprs|
    ensures var g := GapBuckets(first, stop, exprs, groups, lo, hi, count);
      var before := GapBuckets(first, i, exprs, groups, lo, hi, count);
      |before| + k < |g| && g[|before| + k] == NilBuckets(i, exprs, groups, lo, hi, count)[k]
  {
    GapAround(first, stop, exprs, groups, lo, hi, count, i);
    IndexInMiddle(GapBuckets(first, i, exprs, groups, lo, hi, count), NilBuckets(i, exprs, groups, lo, hi, count),
                  GapBuckets(i + 1, stop, exprs, groups, lo, hi, count), k);
  }

  /** The edges of a range `count` windows of width w long are whole
      windows apart. */
  lemma WindowEdge(i: int, w: int, start: int, end: int, count: int)
    requires count > 0 && start + count * w == end
    ensures Edge(i, start as real, end as real, count) == (start + i * w) as real
  {
    assert end as real - start as real == (count as real) * (w as real);
    assert (i as real) * ((count as real) * (w as real)) / (count as real) == (i as real) * (w as real);
  }

  /** With timestamp bucketing, a window whose count is capped, and no row
      read, every expression gets MaxBuckets nil buckets: bucket i of each
      expression is exactly one window wide, and the last one ends at the
      range's end (the start getBucketing moved is the one the fallback
      reads). */
  lemma CappedWindowWithoutRows(config: TableConfig, primary: TableConfig, bucketCount: Option<int>,
                                exprs: seq<Bucketing.Expression>, groupCount: nat, w: int, start: int, end: int,
                                i: int, k: int)
    requires w > 0 && GoDiv(end - start, w) > Bucketing.MaxBuckets
    requires 0 <= i < Bucketing.MaxBuckets && 0 <= k < |exprs|
    ensures
      var b := Bucketing.GetBucketing(config, primary, Bucketing.ByTimestamp, bucketCount, Some(w), false, start, end);
      var m := Assemble([], exprs, groupCount, b.count, Bucketing.ByTimestamp, b.start, end);
      && b.count == Bucketing.MaxBuckets && b.start == end - Bucketing.MaxBuckets * w
      && |m.buckets| == Bucketing.MaxBuckets * |exprs|
      && i * |exprs| + k < |m.buckets|
      && m.buckets[i * |exprs| + k] == MetricBucket(
           i, (b.start + i * w) as real, (b.start + (i + 1) * w) as real, EmptyGroups(groupCount),
           exprs[k].aggregator, exprs[k].column, None)
  {
    var n := Bucketing.MaxBuckets;
    var b := Bucketing.GetBucketing(config, primary, Bucketing.ByTimestamp, bucketCount, Some(w), false, start, end);
    CappedWindowBucketing(config, primary, bucketCount, w, start, end);
    var s := b.start;
    NoRowsBucketAt(exprs, groupCount, n, s, end, i, k);
    WindowEdge(i, w, s, end, n);
    WindowEdge(i + 1, w, s, end, n);
    var nil := NilBuckets(i, exprs, EmptyGroups(groupCount), s as real, end as real, n);
    assert nil[k] == MetricBucket(ToUint64(i), Edge(i, s as real, end as real, n), Edge(i + 1, s as real, end as real, n),
                                  EmptyGroups(groupCount), exprs[k].aggregator, exprs[k].column, None);
  }

  /** getBucketing over a window that holds more than MaxBuckets windows. */
  lemma CappedWindowBucketing(config: TableConfig, primary: TableConfig, bucketCount: Option<int>,
                              w: int, start: int, end: int)
    requires w > 0 && GoDiv(end - start, w) > Bucketing.MaxBuckets
    ensures
      var b := Bucketing.GetBucketing(config, primary, Bucketing.ByTimestamp, bucketCount, Some(w), false, start, end);
      b.count == Bucketing.MaxBuckets && b.start == end - Bucketing.MaxBuckets * w
  {
  }

  /** Without rows, the result is the date range's gap alone. */
  lemma NoRowsAssemble(exprs: seq<Bucketing.Expression>, groupCount: nat, count: int, start: int, end: int)
    ensures Assemble([], exprs, groupCount, count, Bucketing.ByTimestamp, start, end).buckets
         == GapBuckets(0, count, exprs, EmptyGroups(groupCount), start as real, end as real, count)
  {
    assert Fold([], exprs, groupCount, count) == Init(groupCount);
  }

  /** Without rows, the k-th bucket of index i spans the date range's i-th
      part. */
  lemma NoRowsBucketAt(exprs: seq<Bucketing.Expression>, groupCount: nat, count: int, start: int, end: int,
                       i: int, k: int)
    requires 0 <= i < count && 0 <= k < |exprs|
    ensures
      var bs := Assemble([], exprs, groupCount, count, Bucketing.ByTimestamp, start, end).buckets;
      && |bs| == count * |exprs|
      && i * |exprs| + k < |bs|
      && bs[i * |exprs| + k] == NilBuckets(i, exprs, EmptyGroups(groupCount), start as real, end as real, count)[k]
  {
    NoRowsAssemble(exprs, groupCount, count, start, end);
    GapFromZeroAt(exprs, EmptyGroups(groupCount), start as real, end as real, count, i, k);
  }

  /** The k-th bucket of index i in the gap from index 0. */
  lemma GapFromZeroAt(exprs: seq<Bucketing.Expression>, groups: seq<string>, lo: real, hi: real, count: int, i: int, k: int)
    requires 0 <= i < count && 0 <= k < |exprs|
    ensures var g := GapBuckets(0, count, exprs, groups, lo, hi, count);
      && |g| == count * |exprs| && i * |exprs| + k < |g| && g[i * |exprs| + k] == NilBuckets(i, exprs, groups, lo, hi, count)[k]
  {
    GapLength(0, count, exprs, groups, lo, hi, count);
    GapLength(0, i, exprs, groups, lo, hi, count);
    GapAt(0, count, exprs, groups, lo, hi, count, i, k);
    assert (i - 0) * |exprs| == i * |exprs|;
  }

  /** The date-range fallback needs zero rows read: when every row read was
      skipped, the interpolated buckets take the last skipped row's min, max
      and groups instead. */
  lemma SkippedRowsDefeatDateRange(rows: seq<ResultRow>, exprs: seq<Bucketing.Expression>, groupCount: nat,
                                   count: int, start: int, end: int)
    requires ValidRows(rows, |exprs|, groupCount) && AllSkipped(rows, count) && rows != []
    ensures
      var r := rows[|rows| - 1];
      Assemble(rows, exprs, groupCount, count, Bucketing.ByTimestamp, start, end).buckets
      == GapBuckets(0, count, exprs, r.groups, r.min, r.max, count)
  {
    FoldAllSkipped(rows, exprs, groupCount, count);
  }

  /** A zero count emits no bucket at all (every row is skipped), so the
      edge formula never divides by zero. */
  lemma ZeroCountEmitsNothing(rows: seq<ResultRow>, exprs: seq<Bucketing.Expression>, groupCount: nat,
                              bucketBy: Bucketing.BucketBy, start: int, end: int)
    requires ValidRows(rows, |exprs|, groupCount)
    ensures Assemble(rows, exprs, groupCount, 0, bucketBy, start, end).buckets == []
  {
    FoldAllSkipped(rows, exprs, groupCount, 0);
  }

  // ---------------------------------------------------------------------
  // the shared `last` index across groups

  function Row1(id: nat, group: string): ResultRow {
    ResultRow(id, 1.0, 0.0, 3.0, [Some(1.0)], [group])
  }

  function SharedRows(): seq<ResultRow> {
    [Row1(0, "a"), Row1(0, "b"), Row1(1, "a"), Row1(2, "a"), Row1(2, "b")]
  }

  /** After the first three rows of SharedRows: buckets 0 (a), 0 (b), 1 (a). */
  lemma SharedFirstRows(e: Bucketing.Expression)
    ensures var s := Fold(SharedRows()[..3], [e], 1, 3);
      && s.last == 1 && |s.buckets| == 3
      && s.buckets[0].bucketId == 0 && s.buckets[1].bucketId == 0
      && s.buckets[2].bucketId == 1 && s.buckets[2].group == ["a"]
  {
    var rows := SharedRows();
    var exprs := [e];
    var s1 := Step(Init(1), rows[0], exprs, 3);
    var s2 := Step(s1, rows[1], exprs, 3);
    assert rows[..1] == [rows[0]] && rows[..2] == [rows[0], rows[1]] && rows[..3] == [rows[0], rows[1], rows[2]];
    assert rows[..2][..1] == rows[..1] && rows[..3][..2] == rows[..2];
    assert Fold(rows[..1], exprs, 1, 3) == s1;
    assert Fold(rows[..2], exprs, 1, 3) == s2;
    assert s1.last == 0 && s2.last == 0;
    assert GapBuckets(1, 0, exprs, ["b"], 0.0, 3.0, 3) == [];
    assert GapBuckets(1, 1, exprs, ["a"], 0.0, 3.0, 3) == [];
  }

  /** With groups, rows arrive per (index, group). Because the last index is
      shared by all groups, a group missing from an index is not
      interpolated: below, group "b" has no bucket 1. */
  lemma SharedLastIndexLeavesGroupGaps(e: Bucketing.Expression)
    ensures
      var rows := [Row1(0, "a"), Row1(0, "b"), Row1(1, "a"), Row1(2, "a"), Row1(2, "b")];
      var m := Assemble(rows, [e], 1, 3, Bucketing.ByTimestamp, 0, 3);
      forall j :: 0 <= j < |m.buckets| ==> !(m.buckets[j].bucketId == 1 && m.buckets[j].group == ["b"])
  {
    var rows := SharedRows();
    var exprs := [e];
    SharedFirstRows(e);
    var s3 := Fold(rows[..3], exprs, 1, 3);
    var s4 := Step(s3, rows[3], exprs, 3);
    var s5 := Step(s4, rows[4], exprs, 3);
    assert rows[..4][..3] == rows[..3] && rows[..5][..4] == rows[..4];
    assert Fold(rows[..4], exprs, 1, 3) == s4;
    assert rows[..5] == rows;
    assert GapBuckets(2, 2, exprs, ["a"], 0.0, 3.0, 3) == [];
    assert GapBuckets(3, 2, exprs, ["b"], 0.0, 3.0, 3) == [];
    assert GapBuckets(3, 3, exprs, ["b"], 0.0, 3.0, 3) == [];
    var bs := s5.buckets;
    assert |bs| == 5;
    assert bs[0].bucketId == 0 && bs[1].bucketId == 0 && bs[2].bucketId == 1 && bs[3].bucketId == 2 && bs[4].bucketId == 2;
    assert bs[2].group == ["a"];
  }

  /** Interpolated buckets take the groups of the row that closes the gap:
      rows for index 0 (group "a") and 3 (group "b") leave indices 1 and 2
      to be filled under "b". */
  lemma GapTakesClosingRowGroup(e: Bucketing.Expression)
    ensures
      var m := Assemble([Row1(0, "a"), Row1(3, "b")], [e], 1, 4, Bucketing.ByTimestamp, 0, 4);
      && |m.buckets| == 4
      && m.buckets[1].bucketId == 1 && m.buckets[1].group == ["b"] && m.buckets[1].value == None
      && m.buckets[2].bucketId == 2 && m.buckets[2].group == ["b"] && m.buckets[2].value == None
  {
    var rows := [Row1(0, "a"), Row1(3, "b")];
    var exprs := [e];
    var s1 := Step(Init(1), rows[0], exprs, 4);
    assert rows[..1] == [rows[0]];
    assert Fold(rows[..1], exprs, 1, 4) == s1;
    assert GapBuckets(0, 0, exprs, ["a"], 0.0, 3.0, 4) == [];
    assert s1.last == 0;
    var g := GapBuckets(1, 3, exprs, ["b"], 0.0, 3.0, 4);
    assert GapBuckets(1, 1, exprs, ["b"], 0.0, 3.0, 4) == [];
    assert g == NilBuckets(1, exprs, ["b"], 0.0, 3.0, 4) + NilBuckets(2, exprs, ["b"], 0.0, 3.0, 4);
    assert GapBuckets(4, 4, exprs, ["b"], 0.0, 3.0, 4) == [];
  }
}
