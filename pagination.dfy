/** Keyset pagination over the resource tables: the sort orders, the
    predicates a page request turns into (makeSelectBuilder) and the
    windowed query readObjects wraps around them. */
module Pagination {
  import opened Common
  import opened Builder

  datatype Sort = Sort(column: string, direction: Dir)

  /** The part of modelInputs.QueryInput the builders read; dates are
      instants in whole units of the store's clock. */
  datatype QueryInput = QueryInput(sort: Option<Sort>, startDate: int, endDate: int, query: string)

  /** A page request. `direction` is None when the caller leaves it unset;
      the code only ever asks whether it is ascending. */
  datatype Page = Page(
    after: Option<string>,
    before: Option<string>,
    at: Option<string>,
    direction: Option<Dir>,
    countOnly: bool,
    limit: Option<int>)

  /** A decoded cursor: the row's timestamp and id. */
  datatype Cursor = Cursor(timestamp: int, uuid: int)

  predicate IsAsc(d: Option<Dir>) { d == Some(Asc) }

  /** A cursor of one character or fewer is treated as absent. */
  predicate Usable(c: Option<string>) { c.Some? && |c.value| > 1 }

  // ---------------------------------------------------------------------
  // getSortOrders

  /** The sort key the request names, as a column of `config`: a mapped
      column when the key is known, else a lookup in the attribute map. */
  function SortKeyColumn(config: TableConfig, params: QueryInput): (c: SortColumn)
    ensures c.KnownColumn? <==> SortKeyName(params) in config.keysToColumns
    ensures c.KnownColumn? ==> c.name == config.keysToColumns[SortKeyName(params)]
    ensures c.AttributeColumn? ==> c.key == SortKeyName(params)
  {
    var name := SortKeyName(params);
    if name in config.keysToColumns then KnownColumn(config.keysToColumns[name])
    else AttributeColumn(config.attributesColumn(name), name)
  }

  function SortKeyName(params: QueryInput): string {
    if params.sort.Some? then params.sort.value.column else "timestamp"
  }

  function SortDir(params: QueryInput): Dir {
    if params.sort.Some? then params.sort.value.direction else Desc
  }

  /** (forward, backward). Forward is ascending when either the page or the
      sort asks for ascending; backward is its mirror on the same key. */
  function SortOrders(pageDir: Option<Dir>, config: TableConfig, params: QueryInput): (r: (Ordering, Ordering))
    ensures r.0.column == r.1.column == SortKeyColumn(config, params)
    ensures r.1.dir == r.0.dir.Flip()
    ensures r.0.dir == Asc <==> IsAsc(pageDir) || SortDir(params) == Asc
  {
    var column := SortKeyColumn(config, params);
    var forward := if IsAsc(pageDir) || SortDir(params) == Asc then Asc else Desc;
    (Ordering(column, forward), Ordering(column, forward.Flip()))
  }

  /** Backward order lists rows in exactly the reverse of forward order. */
  lemma BackwardReversesForward(pageDir: Option<Dir>, config: TableConfig, params: QueryInput, a: SortKey, b: SortKey)
    ensures var (fwd, bwd) := SortOrders(pageDir, config, params);
      Precedes(bwd, a, b) <==> Precedes(fwd, b, a)
  {
  }

  /** Each order is total on distinct rows: ties on the key fall to the id. */
  lemma OrdersAreTotal(o: Ordering, a: SortKey, b: SortKey)
    requires a != b
    ensures Precedes(o, a, b) != Precedes(o, b, a)
  {
  }

  /** Without an explicit sort the order is newest first, unless the page
      asks for ascending. */
  lemma DefaultOrderIsTimestamp(pageDir: Option<Dir>, config: TableConfig, params: QueryInput)
    requires params.sort.None?
    ensures var (fwd, _) := SortOrders(pageDir, config, params);
      && (fwd.column.KnownColumn? <==> "timestamp" in config.keysToColumns)
      && (fwd.dir == Asc <==> IsAsc(pageDir))
  {
  }

  // ---------------------------------------------------------------------
  // useSamplingTable

  /** A sort on anything but the timestamp reads the sampling table. */
  function UseSamplingTable(params: QueryInput): (r: bool)
    ensures params.sort.None? ==> !r
    ensures r <==> params.sort.Some? && ToLower(params.sort.value.column) != "timestamp"
  {
    params.sort.Some? && ToLower(params.sort.value.column) != "timestamp"
  }

  /** The comparison ignores case: a sort on "Timestamp" stays on the main
      table. */
  lemma TimestampSortKeepsMainTable(params: QueryInput, d: Dir)
    requires params.sort == Some(Sort("Timestamp", d))
    ensures !UseSamplingTable(params)
  {
    TimestampLowered();
  }

  /** A sort on another column, here `duration`, reads the sampling table,
      whatever its direction. */
  lemma OtherSortUsesSamplingTable(params: QueryInput, d: Dir)
    requires params.sort == Some(Sort("duration", d))
    ensures UseSamplingTable(params)
  {
    assert ToLower("duration")[0] == 'd';
  }

  // ---------------------------------------------------------------------
  // makeSelectBuilder

  function IntVals(ids: seq<int>): (vs: seq<Value>)
    ensures |vs| == |ids|
    ensures forall i :: 0 <= i < |ids| ==> vs[i] == IntVal(ids[i])
  {
    if ids == [] then [] else [IntVal(ids[0])] + IntVals(ids[1..])
  }

  /** `ProjectId = id` for one project, `ProjectId IN ids` otherwise. */
  function ProjectScope(projectIDs: seq<int>): Pred {
    if |projectIDs| == 1 then Compare("ProjectId", Eq, IntVal(projectIDs[0]))
    else In("ProjectId", IntVals(projectIDs))
  }

  /** Whichever form is used, a row is in scope exactly when its project is
      one of the requested ones. */
  lemma ProjectScopeMeansMembership(projectIDs: seq<int>, row: Row, parts: seq<Row>, p: int)
    requires "ProjectId" in row && row["ProjectId"] == IntVal(p)
    ensures Eval(ProjectScope(projectIDs), row, parts) <==> p in projectIDs
  {
    var vs := IntVals(projectIDs);
    if |projectIDs| != 1 {
      if p in projectIDs {
        var i :| 0 <= i < |projectIDs| && projectIDs[i] == p;
        assert vs[i] == IntVal(p);
      }
      if IntVal(p) in vs {
        var i :| 0 <= i < |vs| && vs[i] == IntVal(p);
        assert projectIDs[i] == p;
      }
    }
  }

  /** The keyset condition past a cursor. `upward` selects the rows after it
      in ascending (Timestamp, UUID) order up to the end date; otherwise the
      rows after it in descending order down to the start date. */
  function CursorPreds(c: Cursor, upward: bool, params: QueryInput): (ps: seq<Pred>)
    ensures |ps| == 3 && ps[2].AnyOf? && |ps[2].disjuncts| == 2
  {
    if upward then
      [ Compare("Timestamp", Ge, IntVal(c.timestamp)),
        Compare("Timestamp", Le, IntVal(params.endDate)),
        AnyOf([Compare("Timestamp", Gt, IntVal(c.timestamp)), Compare("UUID", Gt, IntVal(c.uuid))]) ]
    else
      [ Compare("Timestamp", Le, IntVal(c.timestamp)),
        Compare("Timestamp", Ge, IntVal(params.startDate)),
        AnyOf([Compare("Timestamp", Lt, IntVal(c.timestamp)), Compare("UUID", Lt, IntVal(c.uuid))]) ]
  }

  function AtPreds(c: Cursor): (ps: seq<Pred>)
    ensures |ps| == 2
  {
    [Compare("Timestamp", Eq, IntVal(c.timestamp)), Compare("UUID", Eq, IntVal(c.uuid))]
  }

  function RangePreds(params: QueryInput): (ps: seq<Pred>)
    ensures |ps| == 2
  {
    [Compare("Timestamp", Le, IntVal(params.endDate)), Compare("Timestamp", Ge, IntVal(params.startDate))]
  }

  /** A row as the store holds it: a timestamp and an id at least. */
  predicate HasKey(row: Row, t: int, u: int) {
    "Timestamp" in row && row["Timestamp"] == IntVal(t) && "UUID" in row && row["UUID"] == IntVal(u)
  }

  function OrderOf(upward: bool): Ordering {
    Ordering(KnownColumn("Timestamp"), if upward then Asc else Desc)
  }

  /** The three keyset predicates select exactly the rows that come strictly
      after the cursor in (Timestamp, UUID) order, within the date range's
      far end. */
  lemma CursorPredsSelectSuccessors(c: Cursor, upward: bool, params: QueryInput, row: Row, parts: seq<Row>, t: int, u: int)
    requires HasKey(row, t, u)
    ensures EvalAll(CursorPreds(c, upward, params), row, parts) <==>
      && Precedes(OrderOf(upward), SortKey(c.timestamp, c.uuid), SortKey(t, u))
      && (if upward then t <= params.endDate else t >= params.startDate)
  {
    var ps := CursorPreds(c, upward, params);
    var ors := ps[2].disjuncts;
    assert Eval(ps[2], row, parts) <==> Eval(ors[0], row, parts) || Eval(ors[1], row, parts);
    assert EvalAll(ps, row, parts) <==> Eval(ps[0], row, parts) && Eval(ps[1], row, parts) && Eval(ps[2], row, parts);
  }

  /** Without a cursor, the rows kept are those inside the date range. */
  lemma RangePredsSelectDateRange(params: QueryInput, row: Row, parts: seq<Row>, t: int, u: int)
    requires HasKey(row, t, u)
    ensures EvalAll(RangePreds(params), row, parts) <==> params.startDate <= t <= params.endDate
  {
    var ps := RangePreds(params);
    assert EvalAll(ps, row, parts) <==> Eval(ps[0], row, parts) && Eval(ps[1], row, parts);
  }

  /** At selects the cursor's own row and nothing else. */
  lemma AtPredsSelectCursorRow(c: Cursor, row: Row, parts: seq<Row>, t: int, u: int)
    requires HasKey(row, t, u)
    ensures EvalAll(AtPreds(c), row, parts) <==> t == c.timestamp && u == c.uuid
  {
    var ps := AtPreds(c);
    assert EvalAll(ps, row, parts) <==> Eval(ps[0], row, parts) && Eval(ps[1], row, parts);
  }

  /** What a builder holds once makeSelectBuilder is done with it. */
  datatype Plan = Plan(wheres: seq<Pred>, order: Option<Ordering>)

  /** The search filters parser.AssignSearchFilters adds for the query text;
      that parser is not part of this model. */
  type SearchFilters = (string, TableConfig) -> seq<Pred>

  /** The cursor decoder (decodeCursor), whose error is passed through. */
  type CursorDecoder = string -> Result<Cursor>

  /** makeSelectBuilder's predicates and ordering: After, then At, then
      Before, then the plain date range; a cursor that does not decode is
      the request's error. */
  function SelectPlan(config: TableConfig, projectIDs: seq<int>, params: QueryInput, page: Page,
                      decode: CursorDecoder, search: SearchFilters): (r: Result<Plan>)
    ensures r.Ok? ==> |r.value.wheres| >= 1 && r.value.wheres[0] == ProjectScope(projectIDs)
    ensures r.Ok? && r.value.order.Some? ==> r.value.order.value.column == SortKeyColumn(config, params)
  {
    var (fwd, bwd) := SortOrders(page.direction, config, params);
    var scope := [ProjectScope(projectIDs)];
    var filters := search(params.query, config);
    if Usable(page.after) then
      var c :- decode(page.after.value);
      Ok(Plan(scope + CursorPreds(c, IsAsc(page.direction), params) + filters, Some(fwd)))
    else if Usable(page.at) then
      var c :- decode(page.at.value);
      Ok(Plan(scope + AtPreds(c) + filters, None))
    else if Usable(page.before) then
      var c :- decode(page.before.value);
      Ok(Plan(scope + CursorPreds(c, !IsAsc(page.direction), params) + filters, Some(bwd)))
    else
      Ok(Plan(scope + RangePreds(params) + filters, if page.countOnly then None else Some(fwd)))
  }

  /** The cursor that decides the request: the first usable one of After,
      At, Before. */
  function ActiveCursor(page: Page): Option<string> {
    if Usable(page.after) then page.after
    else if Usable(page.at) then page.at
    else if Usable(page.before) then page.before
    else None
  }

  /** Only the active cursor matters: the others, and any unusable one, can
      be dropped without changing the plan. */
  lemma CursorPrecedence(config: TableConfig, projectIDs: seq<int>, params: QueryInput, page: Page,
                         decode: CursorDecoder, search: SearchFilters)
    ensures Usable(page.after) ==>
      SelectPlan(config, projectIDs, params, page, decode, search)
      == SelectPlan(config, projectIDs, params, page.(at := None, before := None), decode, search)
    ensures !Usable(page.after) && Usable(page.at) ==>
      SelectPlan(config, projectIDs, params, page, decode, search)
      == SelectPlan(config, projectIDs, params, page.(after := None, before := None), decode, search)
    ensures !Usable(page.after) && !Usable(page.at) ==>
      SelectPlan(config, projectIDs, params, page, decode, search)
      == SelectPlan(config, projectIDs, params, page.(after := None, at := None), decode, search)
  {
  }

  /** A request fails exactly when its active cursor does not decode, and
      then with the decoder's error. */
  lemma DecodeFailureIsTheError(config: TableConfig, projectIDs: seq<int>, params: QueryInput, page: Page,
                                decode: CursorDecoder, search: SearchFilters)
    ensures var r := SelectPlan(config, projectIDs, params, page, decode, search);
      && (r.Err? <==> ActiveCursor(page).Some? && decode(ActiveCursor(page).value).Err?)
      && (r.Err? ==> r.msg == decode(ActiveCursor(page).value).msg)
  {
  }

  /** The order each kind of request is sorted by: forward after a cursor
      and for a plain listing, backward before a cursor, none at a cursor
      or when only counting. */
  lemma PlanOrder(config: TableConfig, projectIDs: seq<int>, params: QueryInput, page: Page,
                  decode: CursorDecoder, search: SearchFilters)
    requires SelectPlan(config, projectIDs, params, page, decode, search).Ok?
    ensures var o := SelectPlan(config, projectIDs, params, page, decode, search).value.order;
      var (fwd, bwd) := SortOrders(page.direction, config, params);
      && (Usable(page.after) ==> o == Some(fwd))
      && (!Usable(page.after) && Usable(page.at) ==> o == None)
      && (!Usable(page.after) && !Usable(page.at) && Usable(page.before) ==> o == Some(bwd))
      && (ActiveCursor(page).None? ==> (o == None <==> page.countOnly))
  {
  }

  /** The page and the sort agree on direction: never an ascending sort on a
      page that is not itself ascending. */
  predicate DirectionsAgree(page: Page, params: QueryInput) {
    SortDir(params) == Asc ==> IsAsc(page.direction)
  }

  /** With the default timestamp key and agreeing directions, the rows an
      After cursor selects (beyond scope and search filters) are exactly the
      rows that follow it in the forward order, and the rows a Before cursor
      selects are exactly those that follow it in the backward order. */
  lemma KeysetFollowsSortOrder(config: TableConfig, projectIDs: seq<int>, params: QueryInput, page: Page,
                               decode: CursorDecoder, search: SearchFilters,
                               c: Cursor, row: Row, parts: seq<Row>, t: int, u: int)
    requires SortKeyColumn(config, params) == KnownColumn("Timestamp")
    requires DirectionsAgree(page, params)
    requires HasKey(row, t, u)
    ensures var (fwd, bwd) := SortOrders(page.direction, config, params);
      && (EvalAll(CursorPreds(c, IsAsc(page.direction), params), row, parts) ==>
            Precedes(fwd, SortKey(c.timestamp, c.uuid), SortKey(t, u)))
      && (EvalAll(CursorPreds(c, !IsAsc(page.direction), params), row, parts) ==>
            Precedes(bwd, SortKey(c.timestamp, c.uuid), SortKey(t, u)))
  {
    CursorPredsSelectSuccessors(c, IsAsc(page.direction), params, row, parts, t, u);
    CursorPredsSelectSuccessors(c, !IsAsc(page.direction), params, row, parts, t, u);
  }

  /** The plan of a request whose After cursor decodes. */
  lemma AfterPlan(config: TableConfig, projectIDs: seq<int>, params: QueryInput, page: Page,
                  decode: CursorDecoder, search: SearchFilters, c: Cursor)
    requires Usable(page.after) && decode(page.after.value) == Ok(c)
    ensures SelectPlan(config, projectIDs, params, page, decode, search)
         == Ok(Plan([ProjectScope(projectIDs)] + CursorPreds(c, IsAsc(page.direction), params) + search(params.query, config),
                    Some(SortOrders(page.direction, config, params).0)))
  {
  }

  lemma {:induction false} EvalAllConcat(a: seq<Pred>, b: seq<Pred>, row: Row, parts: seq<Row>)
    ensures EvalAll(a + b, row, parts) <==> EvalAll(a, row, parts) && EvalAll(b, row, parts)
  {
    if EvalAll(a, row, parts) && EvalAll(b, row, parts) {
      forall i | 0 <= i < |a + b|
        ensures Eval((a + b)[i], row, parts)
      {
        if i >= |a| {
          assert (a + b)[i] == b[i - |a|];
        }
      }
    }
    if EvalAll(a + b, row, parts) {
      forall i | 0 <= i < |a|
        ensures Eval(a[i], row, parts)
      {
        assert (a + b)[i] == a[i];
      }
      forall i | 0 <= i < |b|
        ensures Eval(b[i], row, parts)
      {
        assert (a + b)[|a| + i] == b[i];
      }
    }
  }

  /** A row in project 7 that an After cursor's predicates select passes
      the whole plan of a request without search filters. */
  lemma AfterRowPasses(config: TableConfig, params: QueryInput, page: Page, decode: CursorDecoder,
                       c: Cursor, row: Row, t: int, u: int)
    requires Usable(page.after) && decode(page.after.value) == Ok(c)
    requires HasKey(row, t, u) && "ProjectId" in row && row["ProjectId"] == IntVal(7)
    requires Precedes(OrderOf(IsAsc(page.direction)), SortKey(c.timestamp, c.uuid), SortKey(t, u))
    requires if IsAsc(page.direction) then t <= params.endDate else t >= params.startDate
    ensures var plan := SelectPlan(config, [7], params, page, decode, (q: string, tc: TableConfig) => []);
      plan.Ok? && EvalAll(plan.value.wheres, row, [])
  {
    var search := (q: string, tc: TableConfig) => [];
    AfterPlan(config, [7], params, page, decode, search, c);
    var ps := CursorPreds(c, IsAsc(page.direction), params);
    CursorPredsSelectSuccessors(c, IsAsc(page.direction), params, row, [], t, u);
    ProjectScopeMeansMembership([7], row, [], 7);
    EvalAllConcat([ProjectScope([7])], ps, row, []);
    EvalAllConcat([ProjectScope([7])] + ps, [], row, []);
  }

  /** A sort on another key orders the page by that key, while the cursor
      still compares (Timestamp, UUID): with `duration` ascending, the page
      after a cursor whose row has duration 50 returns a newer row of
      duration 5, which comes before the cursor's row in the page's own
      order. */
  lemma OtherSortKeyPagesBackward(config: TableConfig, decode: CursorDecoder)
    requires "duration" in config.keysToColumns && config.keysToColumns["duration"] == "Duration"
    requires decode("c1") == Ok(Cursor(10, 1))
    ensures
      var params := QueryInput(Some(Sort("duration", Asc)), 0, 100, "");
      var page := Page(Some("c1"), None, None, Some(Asc), false, None);
      var plan := SelectPlan(config, [7], params, page, decode, (q: string, tc: TableConfig) => []);
      var row := map["ProjectId" := IntVal(7), "Timestamp" := IntVal(20), "UUID" := IntVal(2), "Duration" := IntVal(5)];
      && plan.Ok? && plan.value.order == Some(Ordering(KnownColumn("Duration"), Asc))
      && EvalAll(plan.value.wheres, row, [])
      && Precedes(plan.value.order.value, SortKey(5, 2), SortKey(50, 1))
  {
    var params := QueryInput(Some(Sort("duration", Asc)), 0, 100, "");
    var page := Page(Some("c1"), None, None, Some(Asc), false, None);
    var row := map["ProjectId" := IntVal(7), "Timestamp" := IntVal(20), "UUID" := IntVal(2), "Duration" := IntVal(5)];
    AfterPlan(config, [7], params, page, decode, (q: string, tc: TableConfig) => [], Cursor(10, 1));
    AfterRowPasses(config, params, page, decode, Cursor(10, 1), row, 20, 2);
  }

  /** An ascending sort on a page that is not ascending orders the page
      ascending while an After cursor selects the rows below it: the page
      after a cursor at time 50 starts from the oldest row of the range
      instead of the rows next to the cursor. */
  lemma AscendingSortOnDescendingPage(config: TableConfig, decode: CursorDecoder)
    requires "timestamp" in config.keysToColumns && config.keysToColumns["timestamp"] == "Timestamp"
    requires decode("c1") == Ok(Cursor(50, 1))
    ensures
      var params := QueryInput(Some(Sort("timestamp", Asc)), 0, 100, "");
      var page := Page(Some("c1"), None, None, Some(Desc), false, None);
      var plan := SelectPlan(config, [7], params, page, decode, (q: string, tc: TableConfig) => []);
      var row := map["ProjectId" := IntVal(7), "Timestamp" := IntVal(0), "UUID" := IntVal(2)];
      && plan.Ok? && plan.value.order == Some(Ordering(KnownColumn("Timestamp"), Asc))
      && EvalAll(plan.value.wheres, row, [])
      && Precedes(plan.value.order.value, SortKey(0, 2), SortKey(50, 1))
  {
    var params := QueryInput(Some(Sort("timestamp", Asc)), 0, 100, "");
    var page := Page(Some("c1"), None, None, Some(Desc), false, None);
    var row := map["ProjectId" := IntVal(7), "Timestamp" := IntVal(0), "UUID" := IntVal(2)];
    AfterPlan(config, [7], params, page, decode, (q: string, tc: TableConfig) => [], Cursor(50, 1));
    AfterRowPasses(config, params, page, decode, Cursor(50, 1), row, 0, 2);
  }

  /** The keyset condition past a cursor for an ordering on the physical
      column `column`: the rows that follow (key, uuid) in the ordering's
      own direction, within the date range's far end in that direction. */
  function KeysetPreds(o: Ordering, column: string, key: int, uuid: int, params: QueryInput): (ps: seq<Pred>)
    ensures |ps| == 3
  {
    if o.dir == Asc then
      [ Compare(column, Ge, IntVal(key)),
        Compare("Timestamp", Le, IntVal(params.endDate)),
        AnyOf([Compare(column, Gt, IntVal(key)), Compare("UUID", Gt, IntVal(uuid))]) ]
    else
      [ Compare(column, Le, IntVal(key)),
        Compare("Timestamp", Ge, IntVal(params.startDate)),
        AnyOf([Compare(column, Lt, IntVal(key)), Compare("UUID", Lt, IntVal(uuid))]) ]
  }

  /** On the timestamp column, with the direction taken from the ordering,
      these are exactly the predicates the code writes. */
  lemma KeysetPredsOnTimestamp(col: SortColumn, c: Cursor, upward: bool, params: QueryInput)
    ensures KeysetPreds(Ordering(col, if upward then Asc else Desc), "Timestamp", c.timestamp, c.uuid, params)
         == CursorPreds(c, upward, params)
  {
  }

  /** The keyset condition selects exactly the rows that follow the cursor
      in the ordering, within the date bound. */
  lemma KeysetPredsSelectSuccessors(o: Ordering, column: string, key: int, uuid: int, params: QueryInput,
                                    row: Row, parts: seq<Row>, k: int, t: int, u: int)
    requires column in row && row[column] == IntVal(k)
    requires "Timestamp" in row && row["Timestamp"] == IntVal(t) && "UUID" in row && row["UUID"] == IntVal(u)
    ensures EvalAll(KeysetPreds(o, column, key, uuid, params), row, parts) <==>
      && Precedes(o, SortKey(key, uuid), SortKey(k, u))
      && (if o.dir == Asc then t <= params.endDate else t >= params.startDate)
  {
    var ps := KeysetPreds(o, column, key, uuid, params);
    var ors := ps[2].disjuncts;
    assert Eval(ps[2], row, parts) <==> Eval(ors[0], row, parts) || Eval(ors[1], row, parts);
    assert EvalAll(ps, row, parts) <==> Eval(ps[0], row, parts) && Eval(ps[1], row, parts) && Eval(ps[2], row, parts);
  }

  /** With the keyset condition built from the page's own orders, an After
      cursor selects only rows that follow it in the forward order and a
      Before cursor only rows that follow it in the backward order, for
      every sort key on a physical column and every pair of directions. */
  lemma AlignedKeysetFollowsSortOrder(config: TableConfig, params: QueryInput, page: Page, column: string,
                                      key: int, uuid: int, row: Row, parts: seq<Row>, k: int, t: int, u: int)
    requires SortKeyColumn(config, params) == KnownColumn(column)
    requires column in row && row[column] == IntVal(k)
    requires "Timestamp" in row && row["Timestamp"] == IntVal(t) && "UUID" in row && row["UUID"] == IntVal(u)
    ensures var (fwd, bwd) := SortOrders(page.direction, config, params);
      && (EvalAll(KeysetPreds(fwd, column, key, uuid, params), row, parts) ==>
            Precedes(fwd, SortKey(key, uuid), SortKey(k, u)))
      && (EvalAll(KeysetPreds(bwd, column, key, uuid, params), row, parts) ==>
            Precedes(bwd, SortKey(key, uuid), SortKey(k, u)))
  {
    var (fwd, bwd) := SortOrders(page.direction, config, params);
    KeysetPredsSelectSuccessors(fwd, column, key, uuid, params, row, parts, k, t, u);
    KeysetPredsSelectSuccessors(bwd, column, key, uuid, params, row, parts, k, t, u);
  }

  /** makeSelectBuilder: a fresh builder over `config`'s table holding the
      plan's predicates, in the order the code appends them. */
  method MakeSelectBuilder(config: TableConfig, selectCols: seq<string>, projectIDs: seq<int>, params: QueryInput,
                           page: Page, decode: CursorDecoder, search: SearchFilters)
    returns (r: Result<SelectBuilder>)
    ensures var plan := SelectPlan(config, projectIDs, params, page, decode, search);
      plan.Err? ==> r.Err? && r.msg == plan.msg
    ensures var plan := SelectPlan(config, projectIDs, params, page, decode, search);
      plan.Ok? ==>
        && r.Ok? && fresh(r.value)
        && r.value.columns == selectCols && r.value.table == config.tableName
        && r.value.wheres == plan.value.wheres && r.value.orderBy == plan.value.order
        && r.value.limit == None && !r.value.distinct
  {
    ghost var plan := SelectPlan(config, projectIDs, params, page, decode, search);
    var (fwd, bwd) := SortOrders(page.direction, config, params);
    var scope := [ProjectScope(projectIDs)];
    var filters := search(params.query, config);
    var sb := new SelectBuilder();
    sb.Select(selectCols);
    sb.From(config.tableName);
    sb.Where(ProjectScope(projectIDs));
    assert sb.wheres == scope;
    if Usable(page.after) {
      var d := decode(page.after.value);
      if d.Err? {
        assert plan == Err(d.msg);
        return Err(d.msg);
      }
      var ps := CursorPreds(d.value, IsAsc(page.direction), params);
      assert plan == Ok(Plan(scope + ps + filters, Some(fwd)));
      sb.WhereAll(ps);
      sb.OrderBy(fwd);
    } else if Usable(page.at) {
      var d := decode(page.at.value);
      if d.Err? {
        assert plan == Err(d.msg);
        return Err(d.msg);
      }
      assert plan == Ok(Plan(scope + AtPreds(d.value) + filters, None));
      sb.WhereAll(AtPreds(d.value));
    } else if Usable(page.before) {
      var d := decode(page.before.value);
      if d.Err? {
        assert plan == Err(d.msg);
        return Err(d.msg);
      }
      var ps := CursorPreds(d.value, !IsAsc(page.direction), params);
      assert plan == Ok(Plan(scope + ps + filters, Some(bwd)));
      sb.WhereAll(ps);
      sb.OrderBy(bwd);
    } else {
      assert plan == Ok(Plan(scope + RangePreds(params) + filters, if page.countOnly then None else Some(fwd)));
      sb.WhereAll(RangePreds(params));
      if !page.countOnly { sb.OrderBy(fwd); }
    }
    sb.WhereAll(filters);
    return Ok(sb);
  }

  // ---------------------------------------------------------------------
  // readObjects

  /** One inner query of readObjects: the id pairs it selects (DISTINCT) and
      its limit. */
  datatype Window = Window(plan: Plan, limit: Option<int>)

  /** The outer query selects config's columns for the rows whose
      (Timestamp, UUID) fall in the union of the windows, in forward order. */
  datatype ReadPlan = ReadPlan(innerTable: string, windows: seq<Window>, order: Ordering, outerLimit: Option<int>)

  /** readObjects' query shape. The windows read the sampling table when
      the sort needs it; the outer order is taken from the main table's
      configuration and the page's direction. Around an At cursor the
      windows are built from fresh page requests that carry no direction. */
  function ReadObjectsPlan(config: TableConfig, samplingConfig: TableConfig, projectID: int, params: QueryInput,
                           page: Page, defaultLimit: int, decode: CursorDecoder, search: SearchFilters): (r: Result<ReadPlan>)
    ensures r.Ok? ==> r.value.order == SortOrders(page.direction, config, params).0
    ensures r.Ok? ==> r.value.innerTable == (if UseSamplingTable(params) then samplingConfig else config).tableName
    ensures Usable(page.at) && r.Ok? ==>
      var half := GoDiv(if page.limit.Some? then page.limit.value else defaultLimit, 2) + 1;
      && |r.value.windows| == 3 && r.value.outerLimit == None
      && r.value.windows[0].limit == Some(half) && r.value.windows[1].limit == None && r.value.windows[2].limit == Some(half)
    ensures !Usable(page.at) && r.Ok? ==>
      var n := (if page.limit.Some? then page.limit.value else defaultLimit) + 1;
      && |r.value.windows| == 1 && r.value.outerLimit == Some(n) && r.value.windows[0].limit == Some(n)
  {
    var limit := if page.limit.Some? then page.limit.value else defaultLimit;
    var inner := if UseSamplingTable(params) then samplingConfig else config;
    var (fwd, _) := SortOrders(page.direction, config, params);
    if Usable(page.at) then
      var empty := Page(None, None, None, None, false, None);
      var before :- SelectPlan(inner, [projectID], params, empty.(before := page.at), decode, search);
      var at :- SelectPlan(inner, [projectID], params, empty.(at := page.at), decode, search);
      var after :- SelectPlan(inner, [projectID], params, empty.(after := page.at), decode, search);
      var half := GoDiv(limit, 2) + 1;
      Ok(ReadPlan(inner.tableName, [Window(before, Some(half)), Window(at, None), Window(after, Some(half))], fwd, None))
    else
      var plan :- SelectPlan(inner, [projectID], params, page, decode, search);
      Ok(ReadPlan(inner.tableName, [Window(plan, Some(limit + 1))], fwd, Some(limit + 1)))
  }

  /** Around an At cursor the three windows select, respectively, the rows
      after the cursor in ascending (Timestamp, UUID) order (the before
      window is built without a direction, so it looks upward), the cursor's
      own row, and the rows after it in descending order. */
  lemma AtWindowsSurroundCursor(config: TableConfig, samplingConfig: TableConfig, projectID: int, params: QueryInput,
                                page: Page, defaultLimit: int, decode: CursorDecoder, search: SearchFilters)
    requires Usable(page.at) && decode(page.at.value).Ok?
    ensures var r := ReadObjectsPlan(config, samplingConfig, projectID, params, page, defaultLimit, decode, search);
      var c := decode(page.at.value).value;
      var filters := search(params.query, config);
      && r.Ok?
      && r.value.windows[0].plan.wheres[1..4] == CursorPreds(c, true, params)
      && r.value.windows[1].plan.wheres[1..3] == AtPreds(c)
      && r.value.windows[2].plan.wheres[1..4] == CursorPreds(c, false, params)
  {
    var inner := if UseSamplingTable(params) then samplingConfig else config;
    var c := decode(page.at.value).value;
    var scope := [ProjectScope([projectID])];
    var f := search(params.query, inner);
    assert (scope + CursorPreds(c, true, params) + f)[1..4] == CursorPreds(c, true, params);
    assert (scope + AtPreds(c) + f)[1..3] == AtPreds(c);
    assert (scope + CursorPreds(c, false, params) + f)[1..4] == CursorPreds(c, false, params);
  }

  /** A window of `limit/2 + 1` rows on each side is never empty for a
      non-negative limit, and truncation (not flooring) applies to negative
      limits. */
  lemma HalfWindowSize(limit: int)
    ensures limit >= 0 ==> GoDiv(limit, 2) + 1 >= 1 && 2 * (GoDiv(limit, 2) + 1) >= limit + 1
    ensures GoDiv(-3, 2) + 1 == 0
  {
  }
}
