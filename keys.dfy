/** The in-memory half of the key suggestions: `AllKeys` merges the keys the
    store returned with the reserved default keys, adds up their weights and
    keeps the heaviest; `KeyValueSuggestionsAggregated` regroups value rows
    under the keys that were asked for. */
module Keys {
  import opened Common

  /** At most this many keys are returned by AllKeys. */
  const KeyLimit := 25

  /** A key with its weight (the store's share of the key, or 1 for a
      reserved default key). */
  datatype Weighted = Weighted(name: string, count: real)

  // ---------------------------------------------------------------------
  // AllKeys

  /** The reserved keys the query matches: all of them without a query,
      otherwise those containing the query, ignoring case. */
  function MatchingDefaults(defaults: seq<string>, query: Option<string>): (r: seq<string>)
    ensures forall k :: k in r <==> k in defaults && (query.None? || Contains(ToLower(k), ToLower(query.value)))
  {
    if defaults == [] then []
    else
      var rest := MatchingDefaults(defaults[1..], query);
      var k := defaults[0];
      assert forall x :: x in defaults <==> x == k || x in defaults[1..];
      if query.None? || Contains(ToLower(k), ToLower(query.value)) then [k] + rest else rest
  }

  /** Each matching reserved key weighs 1. */
  function DefaultWeights(names: seq<string>): (r: seq<Weighted>)
    ensures |r| == |names| && forall i :: 0 <= i < |r| ==> r[i] == Weighted(names[i], 1.0)
  {
    if names == [] then [] else [Weighted(names[0], 1.0)] + DefaultWeights(names[1..])
  }

  function Names(ks: seq<Weighted>): set<string> {
    set k | k in ks :: k.name
  }

  /** The summed weight of `name` over `ks`. */
  function Total(ks: seq<Weighted>, name: string): real {
    if ks == [] then 0.0
    else Total(ks[..|ks| - 1], name) + (if ks[|ks| - 1].name == name then ks[|ks| - 1].count else 0.0)
  }

  /** lo.GroupBy by name followed by lo.SumBy of the weights. */
  function Grouped(ks: seq<Weighted>): (g: map<string, real>)
    ensures g.Keys == Names(ks)
  {
    map n | n in Names(ks) :: Total(ks, n)
  }

  predicate DistinctNames(ws: seq<Weighted>) {
    forall i, j :: 0 <= i < j < |ws| ==> ws[i].name != ws[j].name
  }

  predicate Descending(ws: seq<Weighted>) {
    forall i, j :: 0 <= i < j < |ws| ==> ws[i].count >= ws[j].count
  }

  /** Insert into a sequence sorted by decreasing weight. */
  function Insert(ws: seq<Weighted>, w: Weighted): (r: seq<Weighted>)
    requires Descending(ws)
    ensures |r| == |ws| + 1 && Descending(r)
    ensures forall x :: x in r <==> x in ws || x == w
  {
    if ws == [] then [w]
    else if ws[0].count <= w.count then
      var r := [w] + ws;
      assert forall i :: 1 <= i < |r| ==> r[i] == ws[i - 1] && r[i] in ws;
      r
    else
      var rest := Insert(ws[1..], w);
      assert forall x :: x in ws <==> x == ws[0] || x in ws[1..];
      var r := [ws[0]] + rest;
      assert forall i :: 1 <= i < |r| ==> r[i] == rest[i - 1] && r[i] in rest;
      r
  }

  /** Prepending an entry whose name is new keeps the names distinct. */
  lemma ConsDistinct(w: Weighted, ws: seq<Weighted>)
    requires DistinctNames(ws) && forall x :: x in ws ==> x.name != w.name
    ensures DistinctNames([w] + ws)
  {
    var r := [w] + ws;
    forall i, j | 0 <= i < j < |r|
      ensures r[i].name != r[j].name
    {
      assert r[j] == ws[j - 1] && r[j] in ws;
      if i > 0 {
        assert r[i] == ws[i - 1];
      }
    }
  }

  lemma {:induction false} InsertDistinct(ws: seq<Weighted>, w: Weighted)
    requires Descending(ws) && DistinctNames(ws)
    requires forall x :: x in ws ==> x.name != w.name
    ensures DistinctNames(Insert(ws, w))
    decreases |ws|
  {
    if ws == [] {
    } else if ws[0].count <= w.count {
      ConsDistinct(w, ws);
    } else {
      var tail := ws[1..];
      assert DistinctNames(tail) by {
        forall i, j | 0 <= i < j < |tail| ensures tail[i].name != tail[j].name {
          assert tail[i] == ws[i + 1] && tail[j] == ws[j + 1];
        }
      }
      assert forall x :: x in tail ==> x in ws;
      InsertDistinct(tail, w);
      forall x | x in Insert(tail, w)
        ensures x.name != ws[0].name
      {
        if x != w {
          var k :| 0 <= k < |tail| && tail[k] == x;
          assert ws[k + 1] == x;
        }
      }
      ConsDistinct(ws[0], Insert(tail, w));
    }
  }

  /** sort.Slice by decreasing weight. The library sort is not stable, so
      only the order of the weights is promised; this is one such order. */
  function SortDescending(ws: seq<Weighted>): (r: seq<Weighted>)
    ensures |r| == |ws| && Descending(r)
    ensures forall x :: x in r <==> x in ws
  {
    if ws == [] then []
    else
      var init := ws[..|ws| - 1];
      assert ws == init + [ws[|ws| - 1]];
      Insert(SortDescending(init), ws[|ws| - 1])
  }

  lemma {:induction false} SortDistinct(ws: seq<Weighted>)
    requires DistinctNames(ws)
    ensures DistinctNames(SortDescending(ws))
    decreases |ws|
  {
    if ws != [] {
      var init := ws[..|ws| - 1];
      var last := ws[|ws| - 1];
      assert ws == init + [last];
      assert DistinctNames(init) by {
        forall i, j | 0 <= i < j < |init| ensures init[i].name != init[j].name {
          assert init[i] == ws[i] && init[j] == ws[j];
        }
      }
      SortDistinct(init);
      forall x | x in SortDescending(init)
        ensures x.name != last.name
      {
        var k :| 0 <= k < |init| && init[k] == x;
        assert ws[k] == x;
      }
      InsertDistinct(SortDescending(init), last);
    }
  }

  function NamesOf(ws: seq<Weighted>): (r: seq<string>)
    ensures |r| == |ws| && forall i :: 0 <= i < |r| ==> r[i] == ws[i].name
  {
    if ws == [] then [] else [ws[0].name] + NamesOf(ws[1..])
  }

  /** `ranked` holds one entry per name of `all`, carrying its total, in
      decreasing order of the totals. */
  predicate RanksGroups(ranked: seq<Weighted>, all: seq<Weighted>) {
    && |ranked| == |Names(all)|
    && DistinctNames(ranked)
    && Descending(ranked)
    && (forall w :: w in ranked ==> w.name in Names(all) && w.count == Total(all, w.name))
    && (forall n :: n in Names(all) ==> exists w :: w in ranked && w.name == n)
  }

  /** `names` are the heaviest keys of `all`: as many as there are, up to
      `KeyLimit`, each once, heaviest first, and no key left out is heavier
      than one kept. */
  predicate HeaviestKeys(names: seq<string>, all: seq<Weighted>) {
    && |names| == (if |Names(all)| < KeyLimit then |Names(all)| else KeyLimit)
    && (forall i, j :: 0 <= i < j < |names| ==> names[i] != names[j])
    && (forall n :: n in names ==> n in Names(all))
    && (forall i, j :: 0 <= i < j < |names| ==> Total(all, names[i]) >= Total(all, names[j]))
    && (forall n, m :: n in names && m in Names(all) && m !in names ==> Total(all, n) >= Total(all, m))
  }

  function Kept(ranked: seq<Weighted>): (r: seq<Weighted>)
    ensures |r| <= KeyLimit && r <= ranked
    ensures |r| == (if |ranked| < KeyLimit then |ranked| else KeyLimit)
  {
    if |ranked| > KeyLimit then ranked[..KeyLimit] else ranked
  }

  /** The first `KeyLimit` names of a ranking are the heaviest keys. */
  lemma TopNames(ranked: seq<Weighted>, all: seq<Weighted>)
    requires RanksGroups(ranked, all)
    ensures HeaviestKeys(NamesOf(Kept(ranked)), all)
  {
    var names := NamesOf(Kept(ranked));
    KeptNamesDistinct(ranked, all);
    KeptNamesOrdered(ranked, all);
    forall n, m | n in names && m in Names(all) && m !in names
      ensures Total(all, n) >= Total(all, m)
    {
      LeftOutIsLighter(ranked, all, n, m);
    }
  }

  lemma KeptNamesDistinct(ranked: seq<Weighted>, all: seq<Weighted>)
    requires RanksGroups(ranked, all)
    ensures var names := NamesOf(Kept(ranked));
      && (forall i, j :: 0 <= i < j < |names| ==> names[i] != names[j])
      && (forall n :: n in names ==> n in Names(all))
  {
    var names := NamesOf(Kept(ranked));
    assert forall i :: 0 <= i < |names| ==> names[i] == ranked[i].name;
    forall n | n in names
      ensures n in Names(all)
    {
      var i :| 0 <= i < |names| && names[i] == n;
      assert ranked[i] in ranked;
    }
  }

  lemma KeptNamesOrdered(ranked: seq<Weighted>, all: seq<Weighted>)
    requires RanksGroups(ranked, all)
    ensures var names := NamesOf(Kept(ranked));
      forall i, j :: 0 <= i < j < |names| ==> Total(all, names[i]) >= Total(all, names[j])
  {
    var names := NamesOf(Kept(ranked));
    forall i, j | 0 <= i < j < |names|
      ensures Total(all, names[i]) >= Total(all, names[j])
    {
      assert names[i] == ranked[i].name && names[j] == ranked[j].name;
      assert ranked[i] in ranked && ranked[j] in ranked;
      assert ranked[i].count >= ranked[j].count;
    }
  }

  /** A name cut off by the limit weighs no more than one that was kept. */
  lemma LeftOutIsLighter(ranked: seq<Weighted>, all: seq<Weighted>, n: string, m: string)
    requires RanksGroups(ranked, all)
    requires n in NamesOf(Kept(ranked)) && m in Names(all) && m !in NamesOf(Kept(ranked))
    ensures Total(all, n) >= Total(all, m)
  {
    var kept := Kept(ranked);
    var names := NamesOf(kept);
    var i :| 0 <= i < |names| && names[i] == n;
    var w :| w in ranked && w.name == m;
    var j :| 0 <= j < |ranked| && ranked[j] == w;
    if j < |kept| {
      assert false;
    }
    assert names[i] == ranked[i].name;
    assert ranked[i] in ranked;
  }

  /** The merge at the end of AllKeys: the store's weighted keys and the
      matching reserved keys (weight 1) are summed by name, ordered by
      decreasing total, cut to 25 and returned by name. The store's rows
      and the reserved key lists are the inputs. */
  method MergeKeys(stored: seq<Weighted>, defaults: seq<string>, query: Option<string>)
    returns (names: seq<string>)
    ensures HeaviestKeys(names, stored + DefaultWeights(MatchingDefaults(defaults, query)))
  {
    var all := stored + DefaultWeights(MatchingDefaults(defaults, query));
    var aggregated := Aggregate(Grouped(all));
    var sorted := SortDescending(aggregated);
    AggregatedRanks(aggregated, all);
    TopNames(sorted, all);
    names := NamesOf(Kept(sorted));
  }

  /** The range over the grouping map: one entry per name, carrying the
      name's sum. */
  method Aggregate(grouped: map<string, real>) returns (aggregated: seq<Weighted>)
    ensures forall w :: w in aggregated ==> w.name in grouped && w.count == grouped[w.name]
    ensures forall n :: n in grouped ==> exists w :: w in aggregated && w.name == n
    ensures DistinctNames(aggregated)
    ensures |aggregated| == |grouped.Keys|
  {
    var remaining := grouped.Keys;
    aggregated := [];
    while remaining != {}
      invariant remaining <= grouped.Keys
      invariant forall w :: w in aggregated ==> w.name in grouped && w.name !in remaining && w.count == grouped[w.name]
      invariant forall n :: n in grouped && n !in remaining ==> exists w :: w in aggregated && w.name == n
      invariant DistinctNames(aggregated)
      invariant |aggregated| + |remaining| == |grouped.Keys|
      decreases |remaining|
    {
      // Go ranges over the grouping map, whose order is unspecified
      var k :| k in remaining;
      var w := Weighted(k, grouped[k]);
      assert forall x :: x in aggregated ==> x.name != k;
      aggregated := aggregated + [w];
      remaining := remaining - {k};
    }
  }

  /** One entry per group, carrying the group's total, sorted, ranks the
      groups. */
  lemma AggregatedRanks(aggregated: seq<Weighted>, all: seq<Weighted>)
    requires forall w :: w in aggregated ==> w.name in Grouped(all) && w.count == Grouped(all)[w.name]
    requires forall n :: n in Grouped(all) ==> exists w :: w in aggregated && w.name == n
    requires DistinctNames(aggregated)
    requires |aggregated| == |Grouped(all).Keys|
    ensures RanksGroups(SortDescending(aggregated), all)
  {
    var sorted := SortDescending(aggregated);
    SortDistinct(aggregated);
    forall n | n in Names(all)
      ensures exists w :: w in sorted && w.name == n
    {
      var w :| w in aggregated && w.name == n;
      assert w in sorted;
    }
  }

  // ---------------------------------------------------------------------
  // KeyValueSuggestionsAggregated

  /** One row of the suggestion query: a key, one of its values and the
      value's count and rank. */
  datatype SuggestionRow = SuggestionRow(key: string, value: string, keyCount: nat, valueCount: nat, rank: nat)

  datatype ValueSuggestion = ValueSuggestion(value: string, count: nat, rank: nat)

  datatype KeyValueSuggestion = KeyValueSuggestion(key: string, values: seq<ValueSuggestion>)

  function Suggestion(r: SuggestionRow): ValueSuggestion {
    ValueSuggestion(r.value, r.valueCount, r.rank)
  }

  /** The suggestions of the rows for `key`, in row order. */
  function ValuesFor(rows: seq<SuggestionRow>, key: string): (vs: seq<ValueSuggestion>)
    ensures |vs| <= |rows|
  {
    if rows == [] then []
    else
      var last := rows[|rows| - 1];
      ValuesFor(rows[..|rows| - 1], key) + (if last.key == key then [Suggestion(last)] else [])
  }

  /** One more row adds its suggestion under its own key only. */
  lemma ValuesForStep(rows: seq<SuggestionRow>, i: nat)
    requires i < |rows|
    ensures forall k :: ValuesFor(rows[..i + 1], k) == ValuesFor(rows[..i], k) + (if rows[i].key == k then [Suggestion(rows[i])] else [])
  {
    assert rows[..i + 1][..i] == rows[..i];
  }

  /** The first half of the regrouping: each row's value is appended to the
      list of its key, so every key maps to its rows' values in row order. */
  method CollectValues(rows: seq<SuggestionRow>) returns (byKey: map<string, seq<ValueSuggestion>>)
    ensures forall k :: k in byKey ==> byKey[k] == ValuesFor(rows, k)
    ensures forall k :: k !in byKey ==> ValuesFor(rows, k) == []
  {
    byKey := map[];
    var i := 0;
    while i < |rows|
      invariant i <= |rows|
      invariant forall k :: k in byKey ==> byKey[k] == ValuesFor(rows[..i], k)
      invariant forall k :: k !in byKey ==> ValuesFor(rows[..i], k) == []
    {
      var r := rows[i];
      var before := if r.key in byKey then byKey[r.key] else [];
      ValuesForStep(rows, i);
      byKey := byKey[r.key := before + [Suggestion(r)]];
      i := i + 1;
    }
    assert rows[..i] == rows;
  }

  /** The regrouping at the end of KeyValueSuggestionsAggregated: one entry
      per requested key, in the requested order, listing that key's values
      in row order, and no values for a key no row has. */
  method RegroupSuggestions(keys: seq<string>, rows: seq<SuggestionRow>) returns (out: seq<KeyValueSuggestion>)
    ensures |out| == |keys|
    ensures forall i :: 0 <= i < |keys| ==> out[i] == KeyValueSuggestion(keys[i], ValuesFor(rows, keys[i]))
  {
    var byKey := CollectValues(rows);
    out := [];
    var j := 0;
    while j < |keys|
      invariant j <= |keys| && |out| == j
      invariant forall m :: 0 <= m < j ==> out[m] == KeyValueSuggestion(keys[m], ValuesFor(rows, keys[m]))
    {
      var values := if keys[j] in byKey then byKey[keys[j]] else [];
      out := out + [KeyValueSuggestion(keys[j], values)];
      j := j + 1;
    }
  }

  /** The values listed under a key are exactly the suggestions of the rows
      with that key: every such row is listed, and nothing else is. */
  lemma {:induction false} ValuesForExactly(rows: seq<SuggestionRow>, key: string)
    ensures forall v :: v in ValuesFor(rows, key) <==>
      exists i :: 0 <= i < |rows| && rows[i].key == key && Suggestion(rows[i]) == v
    decreases |rows|
  {
    if rows != [] {
      var init := rows[..|rows| - 1];
      ValuesForExactly(init, key);
      forall v
        ensures v in ValuesFor(rows, key) <==>
          exists i :: 0 <= i < |rows| && rows[i].key == key && Suggestion(rows[i]) == v
      {
        if v in ValuesFor(rows, key) && v !in ValuesFor(init, key) {
          assert rows[|rows| - 1].key == key && Suggestion(rows[|rows| - 1]) == v;
        }
        if v in ValuesFor(init, key) {
          var i :| 0 <= i < |init| && init[i].key == key && Suggestion(init[i]) == v;
          assert rows[i] == init[i];
        }
        if exists i :: 0 <= i < |rows| && rows[i].key == key && Suggestion(rows[i]) == v {
          var i :| 0 <= i < |rows| && rows[i].key == key && Suggestion(rows[i]) == v;
          if i < |init| {
            assert init[i] == rows[i];
          }
        }
      }
    }
  }

  /** Every row is counted once under its key: the values under a key and
      under all other keys together account for all the rows. */
  lemma {:induction false} ValuesForPartition(rows: seq<SuggestionRow>, key: string)
    ensures |ValuesFor(rows, key)| + |OtherRows(rows, key)| == |rows|
    decreases |rows|
  {
    if rows != [] {
      ValuesForPartition(rows[..|rows| - 1], key);
    }
  }

  /** The rows whose key is not `key`. */
  function OtherRows(rows: seq<SuggestionRow>, key: string): seq<SuggestionRow> {
    if rows == [] then []
    else
      var last := rows[|rows| - 1];
      OtherRows(rows[..|rows| - 1], key) + (if last.key == key then [] else [last])
  }
}
