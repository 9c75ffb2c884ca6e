/** The raw-SQL rewriter (`transformSql`, `GetTables`): a parsed ClickHouse
    statement is checked and, select by select, rewritten so that a query
    over a resource table reads the configured table, maps keys to columns
    and is scoped to one project and the requested time range. The parsed
    tree is a value here; a node's identity is its id, and the Go maps keyed
    by node pointers (`priorVisit`, `ignoreList`) are sets of ids. */
module Rewriter {
  import opened Common

  /** An identifier node. */
  datatype Id = Id(id: nat, name: string)

  datatype Expr =
    | Ident(x: Id)
    | Literal(id: nat, isString: bool, text: string)
    | ColumnExpr(id: nat, inner: Expr)
    /** `hasParams` is false when the call has no parameter list (and then
        `params` is empty) */
    | FunctionExpr(id: nat, name: Id, hasParams: bool, params: seq<Expr>)
    | IntervalExpr(id: nat, inner: Expr, unit: Id)
    | BinaryOp(id: nat, left: Expr, op: string, right: Expr)
    | ParamList(id: nat, items: seq<Expr>)
    | AliasExpr(id: nat, inner: Expr, alias: Id)
    | SelectItem(id: nat, inner: Expr, itemAlias: Option<Id>)
    | TableIdentifier(id: nat, database: Option<Id>, table: Id)
    /** a FROM of one table expression; `tableExpr` is `None` when it has none */
    | JoinTable(id: nat, tableExpr: Option<Expr>)
    | Join(id: nat, left: Expr, right: Expr)
    | Select(id: nat, items: seq<Expr>, from: Option<Expr>, where: Option<Expr>, rest: seq<Expr>)
    | Settings(id: nat)
    /** every other kind of node, by its children */
    | Node(id: nat, children: seq<Expr>)

  function OptSeq<T>(o: Option<T>): (r: seq<T>)
    ensures |r| == if o.Some? then 1 else 0
  {
    if o.Some? then [o.value] else []
  }

  // ---------------------------------------------------------------------
  // a generic view of a node: its children, its identifier slots

  function Size(e: Expr): nat
    decreases e
  {
    match e
    case Ident(_) => 1
    case Literal(_, _, _) => 1
    case ColumnExpr(_, inner) => 1 + Size(inner)
    case FunctionExpr(_, _, _, ps) => 1 + SizeSeq(ps)
    case IntervalExpr(_, inner, _) => 1 + Size(inner)
    case BinaryOp(_, l, _, r) => 1 + Size(l) + Size(r)
    case ParamList(_, items) => 1 + SizeSeq(items)
    case AliasExpr(_, inner, _) => 1 + Size(inner)
    case SelectItem(_, inner, _) => 1 + Size(inner)
    case TableIdentifier(_, _, _) => 1
    case JoinTable(_, t) => 1 + (if t.Some? then Size(t.value) else 0)
    case Join(_, l, r) => 1 + Size(l) + Size(r)
    case Select(_, items, from, where, rest) =>
      1 + SizeSeq(items) + (if from.Some? then Size(from.value) else 0)
        + (if where.Some? then Size(where.value) else 0) + SizeSeq(rest)
    case Settings(_) => 1
    case Node(_, ch) => 1 + SizeSeq(ch)
  }

  function SizeSeq(s: seq<Expr>): nat
    decreases s
  {
    if s == [] then 0 else Size(s[0]) + SizeSeq(s[1..])
  }

  lemma {:induction false} SizeSeqAppend(a: seq<Expr>, b: seq<Expr>)
    ensures SizeSeq(a + b) == SizeSeq(a) + SizeSeq(b)
  {
    if a == [] {
      assert a + b == b;
    } else {
      assert (a + b)[0] == a[0];
      assert (a + b)[1..] == a[1..] + b;
      SizeSeqAppend(a[1..], b);
    }
  }

  lemma {:induction false} SizeSeqElement(s: seq<Expr>, i: nat)
    requires i < |s|
    ensures Size(s[i]) <= SizeSeq(s)
  {
    if i > 0 {
      SizeSeqElement(s[1..], i - 1);
    }
  }

  /** The node's children, in the order the visitors walk them. */
  function Kids(e: Expr): (r: seq<Expr>)
    ensures forall i :: 0 <= i < |r| ==> Size(r[i]) < Size(e)
  {
    var r := match e
      case ColumnExpr(_, inner) => [inner]
      case FunctionExpr(_, _, _, params) => params
      case IntervalExpr(_, inner, _) => [inner]
      case BinaryOp(_, l, _, r) => [l, r]
      case ParamList(_, items) => items
      case AliasExpr(_, inner, _) => [inner]
      case SelectItem(_, inner, _) => [inner]
      case JoinTable(_, t) => OptSeq(t)
      case Join(_, l, r) => [l, r]
      case Select(_, items, from, where, rest) => items + OptSeq(from) + OptSeq(where) + rest
      case Node(_, ch) => ch
      case _ => [];
    KidsSmaller(e, r);
    r
  }

  lemma KidsSmaller(e: Expr, r: seq<Expr>)
    requires r == match e
      case ColumnExpr(_, inner) => [inner]
      case FunctionExpr(_, _, _, params) => params
      case IntervalExpr(_, inner, _) => [inner]
      case BinaryOp(_, l, _, r) => [l, r]
      case ParamList(_, items) => items
      case AliasExpr(_, inner, _) => [inner]
      case SelectItem(_, inner, _) => [inner]
      case JoinTable(_, t) => OptSeq(t)
      case Join(_, l, r) => [l, r]
      case Select(_, items, from, where, rest) => items + OptSeq(from) + OptSeq(where) + rest
      case Node(_, ch) => ch
      case _ => []
    ensures forall i :: 0 <= i < |r| ==> Size(r[i]) < Size(e)
  {
    var s := match e
      case FunctionExpr(_, _, _, params) => params
      case ParamList(_, items) => items
      case Node(_, ch) => ch
      case Select(_, items, from, where, rest) => items + OptSeq(from) + OptSeq(where) + rest
      case _ => [];
    if e.Select? {
      SizeSeqAppend(e.items + OptSeq(e.from) + OptSeq(e.where), e.rest);
      SizeSeqAppend(e.items + OptSeq(e.from), OptSeq(e.where));
      SizeSeqAppend(e.items, OptSeq(e.from));
      if e.from.Some? {
        assert OptSeq(e.from)[1..] == [];
      }
      if e.where.Some? {
        assert OptSeq(e.where)[1..] == [];
      }
    }
    if e.FunctionExpr? || e.ParamList? || e.Node? || e.Select? {
      forall i | 0 <= i < |r|
        ensures Size(r[i]) < Size(e)
      {
        SizeSeqElement(s, i);
      }
    }
  }

  /** The node with its children replaced, everything else kept. */
  function Rebuild(e: Expr, kids: seq<Expr>): (r: Expr)
    requires |kids| == |Kids(e)|
    ensures Kids(r) == kids && Slots(r) == Slots(e) && NodeId(r) == NodeId(e)
    ensures r.Select? == e.Select? && r.FunctionExpr? == e.FunctionExpr?
    ensures r.TableIdentifier? == e.TableIdentifier? && r.Literal? == e.Literal? && r.ColumnExpr? == e.ColumnExpr?
    ensures kids == Kids(e) ==> r == e
  {
    match e
    case ColumnExpr(id, _) => ColumnExpr(id, kids[0])
    case FunctionExpr(id, n, h, _) => FunctionExpr(id, n, h, kids)
    case IntervalExpr(id, _, u) => IntervalExpr(id, kids[0], u)
    case BinaryOp(id, _, op, _) => BinaryOp(id, kids[0], op, kids[1])
    case ParamList(id, _) => ParamList(id, kids)
    case AliasExpr(id, _, a) => AliasExpr(id, kids[0], a)
    case SelectItem(id, _, a) => SelectItem(id, kids[0], a)
    case JoinTable(id, t) => JoinTable(id, if t.Some? then Some(kids[0]) else None)
    case Join(id, _, _) => Join(id, kids[0], kids[1])
    case Select(id, items, from, where, rest) => RebuildSelect(e, kids)
    case Node(id, _) => Node(id, kids)
    case _ => e
  }

  function RebuildSelect(e: Expr, kids: seq<Expr>): (r: Expr)
    requires e.Select? && |kids| == |e.items| + |OptSeq(e.from)| + |OptSeq(e.where)| + |e.rest|
    ensures r.Select? && r.id == e.id && r.items + OptSeq(r.from) + OptSeq(r.where) + r.rest == kids
    ensures kids == e.items + OptSeq(e.from) + OptSeq(e.where) + e.rest ==> r == e
  {
    var a := |e.items|;
    var b := a + |OptSeq(e.from)|;
    var c := b + |OptSeq(e.where)|;
    var r := Select(e.id, kids[..a], if e.from.Some? then Some(kids[a]) else None,
                    if e.where.Some? then Some(kids[b]) else None, kids[c..]);
    assert e.items == (e.items + OptSeq(e.from) + OptSeq(e.where) + e.rest)[..a];
    assert OptSeq(r.from) == kids[a..b];
    assert OptSeq(r.where) == kids[b..c];
    assert kids == kids[..a] + kids[a..b] + kids[b..c] + kids[c..];
    r
  }

  /** The identifier nodes directly under the node. */
  function Slots(e: Expr): seq<Id> {
    match e
    case Ident(x) => [x]
    case FunctionExpr(_, n, _, _) => [n]
    case IntervalExpr(_, _, u) => [u]
    case AliasExpr(_, _, a) => [a]
    case SelectItem(_, _, a) => OptSeq(a)
    case TableIdentifier(_, db, t) => OptSeq(db) + [t]
    case _ => []
  }

  function WithSlots(e: Expr, slots: seq<Id>): (r: Expr)
    requires |slots| == |Slots(e)|
    ensures Slots(r) == slots && Kids(r) == Kids(e)
    ensures NodeId(r) == if e.Ident? then slots[0].id else NodeId(e)
    ensures r.Select? == e.Select? && r.FunctionExpr? == e.FunctionExpr?
    ensures r.TableIdentifier? == e.TableIdentifier? && r.Literal? == e.Literal?
    ensures slots == Slots(e) ==> r == e
  {
    match e
    case Ident(_) => Ident(slots[0])
    case FunctionExpr(id, _, h, params) => FunctionExpr(id, slots[0], h, params)
    case IntervalExpr(id, inner, _) => IntervalExpr(id, inner, slots[0])
    case AliasExpr(id, inner, _) => AliasExpr(id, inner, slots[0])
    case SelectItem(id, inner, a) => SelectItem(id, inner, if a.Some? then Some(slots[0]) else None)
    case TableIdentifier(id, db, _) =>
      if db.Some? then TableIdentifier(id, Some(slots[0]), slots[1]) else TableIdentifier(id, None, slots[0])
    case _ => e
  }

  /** The node's own identity (an identifier expression is its identifier). */
  function NodeId(e: Expr): nat {
    if e.Ident? then e.x.id else e.id
  }

  /** The identities of the node and of the identifier nodes directly under it. */
  function NodeIds(e: Expr): set<nat> {
    {NodeId(e)} + set x | x in Slots(e) :: x.id
  }

  function Flatten<T>(ss: seq<seq<T>>): (r: seq<T>)
    decreases |ss|
  {
    if ss == [] then [] else Flatten(ss[..|ss| - 1]) + ss[|ss| - 1]
  }

  lemma {:induction false} FlattenMember<T>(ss: seq<seq<T>>, i: nat, x: T)
    requires i < |ss| && x in ss[i]
    ensures x in Flatten(ss)
    decreases |ss|
  {
    if i < |ss| - 1 {
      FlattenMember(ss[..|ss| - 1], i, x);
    }
  }

  lemma {:induction false} FlattenMemberInv<T>(ss: seq<seq<T>>, x: T)
    requires x in Flatten(ss)
    ensures exists i :: 0 <= i < |ss| && x in ss[i]
    decreases |ss|
  {
    if x !in ss[|ss| - 1] {
      FlattenMemberInv(ss[..|ss| - 1], x);
      var i :| 0 <= i < |ss| - 1 && x in ss[..|ss| - 1][i];
      assert x in ss[i];
    }
  }

  /** Every node of the tree, children before parents, left to right: the
      order in which the visitors reach them. */
  function AllNodes(e: Expr): (r: seq<Expr>)
    ensures |r| > 0 && r[|r| - 1] == e
    decreases Size(e)
  {
    var ks := Kids(e);
    Flatten(seq(|ks|, i requires 0 <= i < |ks| => AllNodes(ks[i]))) + [e]
  }

  /** The identities of every node of the tree, identifier nodes included. */
  function AllIds(e: Expr): set<nat>
    decreases Size(e)
  {
    var ks := Kids(e);
    NodeIds(e) + set k, i | 0 <= k < |ks| && i in AllIds(ks[k]) :: i
  }

  /** The identifiers of a child are among the tree's. */
  lemma KidIdsWithin(e: Expr, i: nat)
    requires i < |Kids(e)|
    ensures AllIds(Kids(e)[i]) <= AllIds(e)
  {
  }

  lemma {:induction false} NodesWithin(e: Expr, n: Expr)
    requires n in AllNodes(e)
    ensures AllIds(n) <= AllIds(e)
    decreases Size(e)
  {
    var ks := Kids(e);
    var parts := seq(|ks|, i requires 0 <= i < |ks| => AllNodes(ks[i]));
    if n != e {
      assert n in Flatten(parts);
      FlattenMemberInv(parts, n);
      var k :| 0 <= k < |parts| && n in parts[k];
      NodesWithin(ks[k], n);
    }
  }

  // ---------------------------------------------------------------------
  // the passes over one select

  /** What the column pass needs: the visited nodes, the ignored identifier
      nodes and the alias names. */
  datatype ColumnScope = ColumnScope(skip: set<nat>, ignore: set<nat>, aliases: set<string>)

  /** The identifier nodes the ignore pass sets aside under one node: a
      select item's alias, a function's name, an alias expression's alias,
      a table identifier's table name and an interval's unit. */
  function IgnoredBy(n: Expr): set<nat> {
    match n
    case SelectItem(_, _, a) => if a.Some? then {a.value.id} else {}
    case FunctionExpr(_, name, _, _) => {name.id}
    case AliasExpr(_, _, a) => {a.id}
    case TableIdentifier(_, _, t) => {t.id}
    case IntervalExpr(_, _, u) => {u.id}
    case _ => {}
  }

  function AliasesOf(n: Expr): set<string> {
    match n
    case SelectItem(_, _, a) => if a.Some? then {a.value.name} else {}
    case AliasExpr(_, _, a) => {a.name}
    case _ => {}
  }

  /** The ignore pass over a select: every node not yet visited contributes. */
  function Scope(s: Expr, skip: set<nat>): (c: ColumnScope)
    ensures c.skip == skip
  {
    var ns := AllNodes(s);
    ColumnScope(skip,
      set n, i | n in ns && NodeId(n) !in skip && i in IgnoredBy(n) :: i,
      set n, a | n in ns && NodeId(n) !in skip && a in AliasesOf(n) :: a)
  }

  /** The column pass on one identifier: a key the table maps becomes its
      column, any other key a lookup in its attribute map. */
  function ColumnIdent(x: Id, c: ColumnScope, config: TableConfig): (r: Id)
    ensures r.id == x.id
    ensures x.id in c.skip || x.name == "*" || x.id in c.ignore || x.name in c.aliases ==> r == x
  {
    if x.id in c.skip || x.name == "*" || x.id in c.ignore || x.name in c.aliases then x
    else if x.name in config.keysToColumns then Id(x.id, config.keysToColumns[x.name])
    else Id(x.id, config.attributesColumn(x.name) + "['" + x.name + "']")
  }

  function ReplaceColumns(e: Expr, c: ColumnScope, config: TableConfig): (r: Expr)
    ensures r.Select? == e.Select?
    decreases Size(e)
  {
    var ks := Kids(e);
    var r := Rebuild(e, seq(|ks|, i requires 0 <= i < |ks| => ReplaceColumns(ks[i], c, config)));
    var xs := Slots(r);
    WithSlots(r, seq(|xs|, i requires 0 <= i < |xs| => ColumnIdent(xs[i], c, config)))
  }

  /** The prior-visit guard: a tree whose every node has been visited comes
      out of the column pass unchanged. */
  lemma {:induction false} ColumnsSkipVisited(e: Expr, c: ColumnScope, config: TableConfig)
    requires AllIds(e) <= c.skip
    ensures ReplaceColumns(e, c, config) == e
    decreases Size(e)
  {
    var ks := Kids(e);
    var kids := seq(|ks|, i requires 0 <= i < |ks| => ReplaceColumns(ks[i], c, config));
    forall i | 0 <= i < |ks|
      ensures kids[i] == ks[i]
    {
      KidIdsWithin(e, i);
      ColumnsSkipVisited(ks[i], c, config);
    }
    assert kids == ks;
    var xs := Slots(e);
    var ys := seq(|xs|, i requires 0 <= i < |xs| => ColumnIdent(xs[i], c, config));
    forall i | 0 <= i < |xs|
      ensures ys[i] == xs[i]
    {
      assert xs[i].id in NodeIds(e);
    }
    assert ys == xs;
  }

  /** The name the function pass gives a function on a sampling table:
      sums and counts are scaled by the sample factor. */
  function SampleFactored(fn: string, config: TableConfig): (r: string)
    ensures r == fn || r == "any(_sample_factor) * " + fn
    ensures r != fn <==>
      Contains(ToLower(config.tableName), "sample") && (Contains(ToLower(fn), "sum") || Contains(ToLower(fn), "count"))
  {
    var lower := ToLower(fn);
    if Contains(ToLower(config.tableName), "sample") && (Contains(lower, "sum") || Contains(lower, "count"))
    then "any(_sample_factor) * " + fn
    else fn
  }

  const TimeInterval := "$time_interval"

  /** The one argument `$time_interval` accepts: a string literal. */
  predicate StringArgument(a: Expr) {
    a.ColumnExpr? && a.inner.Literal? && a.inner.isString
  }

  /** A `$time_interval` call the function pass rejects. */
  predicate MalformedInterval(n: Expr) {
    n.FunctionExpr? && n.name.name == TimeInterval &&
    (!n.hasParams || |n.params| != 1 || !StringArgument(n.params[0]))
  }

  /** The function pass on one node whose children it has already passed
      over; new nodes are numbered from `next`. */
  function FunctionNode(n: Expr, skip: set<nat>, config: TableConfig, next: nat): (r: Result<(Expr, nat)>)
    ensures r.Err? <==> NodeId(n) !in skip && MalformedInterval(n)
    ensures r.Ok? ==> r.value.1 >= next && r.value.0.Select? == n.Select?
  {
    if !n.FunctionExpr? || NodeId(n) in skip then Ok((n, next))
    else if n.name.name == TimeInterval then
      if !n.hasParams then Result<(Expr, nat)>.Err("$time_interval called with empty argument list")
      else if |n.params| != 1 then
        Result<(Expr, nat)>.Err("Expecting 1 argument for $time_interval, found " + NatToString(|n.params|))
      else if !StringArgument(n.params[0]) then
        Result<(Expr, nat)>.Err("Expecting $time_interval argument to be a string literal.")
      else
        var args := [ColumnExpr(next, Ident(Id(next + 1, "Timestamp"))),
                     IntervalExpr(next + 2, n.params[0].inner, Id(next + 3, ""))];
        Ok((FunctionExpr(n.id, Id(n.name.id, "toStartOfInterval"), true, args), next + 4))
    else
      Ok((FunctionExpr(n.id, Id(n.name.id, SampleFactored(n.name.name, config)), n.hasParams, n.params), next))
  }

  function ReplaceFunctions(e: Expr, skip: set<nat>, config: TableConfig, next: nat): (r: Result<(Expr, nat)>)
    ensures r.Ok? ==> r.value.1 >= next && r.value.0.Select? == e.Select?
    decreases Size(e), 1
  {
    var p :- FunctionsKids(e, skip, config, 0, [], next);
    FunctionNode(Rebuild(e, p.0), skip, config, p.1)
  }

  function FunctionsKids(e: Expr, skip: set<nat>, config: TableConfig, i: nat, done: seq<Expr>, next: nat)
    : (r: Result<(seq<Expr>, nat)>)
    requires i <= |Kids(e)| && |done| == i
    ensures r.Ok? ==> |r.value.0| == |Kids(e)| && r.value.1 >= next
    decreases Size(e), 0, |Kids(e)| - i
  {
    if i == |Kids(e)| then Ok((done, next))
    else
      var p :- ReplaceFunctions(Kids(e)[i], skip, config, next);
      FunctionsKids(e, skip, config, i + 1, done + [p.0], p.1)
  }

  /** The table pass: every table identifier not yet visited names the
      configured table. */
  function ReplaceTables(e: Expr, skip: set<nat>, table: string): (r: Expr)
    ensures r.Select? == e.Select?
    decreases Size(e)
  {
    var ks := Kids(e);
    var r := Rebuild(e, seq(|ks|, i requires 0 <= i < |ks| => ReplaceTables(ks[i], skip, table)));
    if r.TableIdentifier? && NodeId(r) !in skip then r.(table := Id(r.table.id, table)) else r
  }

  /** Some identifier of the tree not yet visited is named `Timestamp`. */
  predicate MentionsTimestamp(w: Expr, skip: set<nat>) {
    exists n, x :: n in AllNodes(w) && x in Slots(n) && x.id !in skip && x.name == "Timestamp"
  }

  // ---------------------------------------------------------------------
  // project and time scoping

  const ProjectIdSetting := "SQL_highlight_project_id"

  /** The tables a raw SQL query may read, and that the rewriter redirects. */
  const ResourceTables: set<string> := {"sessions", "errors", "logs", "traces", "events", "metrics"}

  /** Sessions and errors spell their project column differently. */
  function ProjectColumn(table: string): (col: string)
    ensures col == "ProjectID" <==> table == "sessions" || table == "errors"
    ensures col == "ProjectID" || col == "ProjectId"
  {
    if table == "sessions" || table == "errors" then "ProjectID" else "ProjectId"
  }

  /** `col = pid`, numbered from `n` (three nodes). */
  function ProjectFilter(col: string, pid: int, n: nat): Expr {
    BinaryOp(n, Ident(Id(n + 1, col)), "=", Literal(n + 2, false, IntToString(pid)))
  }

  /** `Timestamp op toDateTime(unix)`, numbered from `n` (five nodes). */
  function DateBound(op: string, unix: int, n: nat): Expr {
    BinaryOp(n, Ident(Id(n + 1, "Timestamp")), op,
      FunctionExpr(n + 2, Id(n + 3, "toDateTime"), true, [Literal(n + 4, false, IntToString(unix))]))
  }

  /** `Timestamp >= toDateTime(start) AND Timestamp <= toDateTime(end)`,
      numbered from `n` (eleven nodes). */
  function TimeRange(start: int, end: int, n: nat): Expr {
    BinaryOp(n, DateBound(">=", start, n + 1), "AND", DateBound("<=", end, n + 6))
  }

  /** Nodes the scoping of one WHERE clause numbers. */
  const ScopingNodes := 17

  /** The WHERE clause of a resource select after scoping: without one, the
      project and time filters; with one, the original in parentheses and
      the project filter, plus the time filter unless the original already
      names `Timestamp`. */
  function ScopeWhere(where: Option<Expr>, skip: set<nat>, col: string, pid: int, start: int, end: int, n: nat): (r: Expr)
    ensures r.BinaryOp? && r.op == "AND"
    ensures where.Some? ==> r.left == ParamList(n + 15, [where.value])
    ensures where.None? || !MentionsTimestamp(where.value, skip) ==> TimeRange(start, end, n + 3) in Kids(r) + Kids(r.right)
  {
    var project := ProjectFilter(col, pid, n);
    var time := TimeRange(start, end, n + 3);
    match where
    case None => BinaryOp(n + 14, project, "AND", time)
    case Some(w) =>
      var added := if MentionsTimestamp(w, skip) then project else BinaryOp(n + 14, project, "AND", time);
      BinaryOp(n + 16, ParamList(n + 15, [w]), "AND", added)
  }

  // ---------------------------------------------------------------------
  // the select visitor

  /** The request fields the rewriter reads: the SQL text, the project ids
      and the date range in Unix seconds. */
  datatype SqlInput = SqlInput(sql: Option<string>, projectIds: seq<int>, startUnix: int, endUnix: int)

  /** The visitor's state: the nodes already visited and the next id free
      for a new node. */
  datatype Visit = Visit(skip: set<nat>, next: nat)

  /** Whether a select reads a resource table, or why its FROM is refused. */
  function FromCheck(s: Expr, skip: set<nat>): (r: Result<bool>)
    requires s.Select?
    ensures s.from.None? ==> r == Ok(false)
    ensures r == Ok(true) ==> s.from.Some? && s.from.value.JoinTable? && s.from.value.tableExpr.Some?
    ensures s.from.Some? && s.from.value.JoinTable? && s.from.value.tableExpr.Some? ==>
      (r == Ok(true) <==> s.from.value.tableExpr.value.TableIdentifier? && s.from.value.tableExpr.value.table.name in ResourceTables)
    ensures r.Err? ==> s.from.Some? && !(s.from.value.JoinTable? && s.from.value.tableExpr.Some?)
  {
    match s.from
    case None => Ok(false)
    case Some(f) =>
      if f.Join? then
        if exists n :: n in AllNodes(f) && n.TableIdentifier? && NodeId(n) !in skip && n.table.name in ResourceTables
        then Err("Resource tables cannot be used in JOIN expression")
        else Ok(false)
      else if f.JoinTable? && f.tableExpr.Some? then
        Ok(f.tableExpr.value.TableIdentifier? && f.tableExpr.value.table.name in ResourceTables)
      else Err("Expected FROM expression to be JoinTableExpr")
  }

  /** The select visitor on one select whose sub-selects it has already
      visited: a resource select goes through the passes and is scoped;
      every select ends up visited. */
  function ProcessSelect(s: Expr, v: Visit, config: TableConfig, input: SqlInput): (r: Result<(Expr, Visit)>)
    requires s.Select?
    ensures r.Ok? ==> r.value.0.Select? && r.value.1.skip == v.skip + AllIds(r.value.0)
    ensures FromCheck(s, v.skip).Err? ==> r.Err?
    ensures FromCheck(s, v.skip) == Ok(false) ==> r == Ok((s, Visit(v.skip + AllIds(s), v.next)))
    ensures FromCheck(s, v.skip) == Ok(true) && |input.projectIds| != 1 ==> r.Err?
  {
    var resource :- FromCheck(s, v.skip);
    if !resource then Ok((s, Visit(v.skip + AllIds(s), v.next)))
    else
      var s1 := ReplaceColumns(s, Scope(s, v.skip), config);
      var p :- ReplaceFunctions(s1, v.skip, config, v.next);
      var s3 := ReplaceTables(p.0, v.skip, config.tableName);
      if |input.projectIds| != 1 then
        Err("SQL queries must use 1 project id, " + NatToString(|input.projectIds|) + " found")
      else
        var w := ScopeWhere(s3.where, v.skip, ProjectColumn(config.tableName), input.projectIds[0],
                            input.startUnix, input.endUnix, p.1);
        var s4 := s3.(where := Some(w));
        Ok((s4, Visit(v.skip + AllIds(s4), p.1 + ScopingNodes)))
  }

  /** The select visitor over a tree, children before parents. */
  function Transform(e: Expr, v: Visit, config: TableConfig, input: SqlInput): (r: Result<(Expr, Visit)>)
    ensures r.Ok? ==> r.value.0.Select? == e.Select?
    decreases Size(e), 1
  {
    var p :- TransformKids(e, v, config, input, 0, []);
    var r := Rebuild(e, p.0);
    if r.Select? then ProcessSelect(r, p.1, config, input) else Ok((r, p.1))
  }

  function TransformKids(e: Expr, v: Visit, config: TableConfig, input: SqlInput, i: nat, done: seq<Expr>)
    : (r: Result<(seq<Expr>, Visit)>)
    requires i <= |Kids(e)| && |done| == i
    ensures r.Ok? ==> |r.value.0| == |Kids(e)|
    decreases Size(e), 0, |Kids(e)| - i
  {
    if i == |Kids(e)| then Ok((done, v))
    else
      var p :- Transform(Kids(e)[i], v, config, input);
      TransformKids(e, p.1, config, input, i + 1, done + [p.0])
  }

  /** The largest id in the tree. */
  function MaxId(e: Expr): (m: nat)
    ensures forall i :: i in AllIds(e) ==> i <= m
    decreases Size(e), 1
  {
    var ks := Kids(e);
    var own := MaxSlot(Slots(e), NodeId(e));
    var m := MaxKids(ks, 0, own, Size(e));
    assert forall i :: i in NodeIds(e) ==> i <= m;
    assert forall k, i :: 0 <= k < |ks| && i in AllIds(ks[k]) ==> i <= MaxId(ks[k]) <= m;
    m
  }

  function MaxSlot(xs: seq<Id>, m: nat): (r: nat)
    ensures r >= m && forall x :: x in xs ==> x.id <= r
  {
    if xs == [] then m else MaxSlot(xs[1..], if xs[0].id > m then xs[0].id else m)
  }

  /** The largest of `m` and the ids of the children from the k-th on;
      `bound` is the parent's size, which every child's is below. */
  function MaxKids(ks: seq<Expr>, k: nat, m: nat, ghost bound: nat): (r: nat)
    requires k <= |ks| && forall j :: 0 <= j < |ks| ==> Size(ks[j]) < bound
    ensures r >= m && forall j :: k <= j < |ks| ==> MaxId(ks[j]) <= r
    decreases bound, 0, |ks| - k
  {
    if k == |ks| then m
    else
      var here := MaxId(ks[k]);
      MaxKids(ks, k + 1, if here > m then here else m, bound)
  }

  predicate HasSettings(e: Expr) {
    exists n :: n in AllNodes(e) && n.Settings?
  }

  /** transformSql: the statement the query text parses to, rewritten.
      Parsing is a parameter; the printed SQL is `render` of the result. */
  function TransformSql(config: TableConfig, input: SqlInput, parse: string -> Result<seq<Expr>>): (r: Result<Expr>)
    ensures input.sql.None? ==> r == Err("Sql input cannot be nil")
    ensures input.sql.Some? && parse(input.sql.value).Err? ==> r.Err?
    ensures input.sql.Some? && parse(input.sql.value).Ok? && |parse(input.sql.value).value| != 1 ==> r.Err?
    ensures input.sql.Some? && parse(input.sql.value).Ok? && |parse(input.sql.value).value| == 1
              && HasSettings(parse(input.sql.value).value[0])
            ==> r == Err("SQL statement cannot include a settings clause.")
  {
    if input.sql.None? then Err("Sql input cannot be nil")
    else
      var stmts :- parse(input.sql.value);
      if |stmts| != 1 then Err("Expected 1 SQL statement, found " + NatToString(|stmts|))
      else RewriteStatement(stmts[0], config, input)
  }

  /** transformSql once the text has parsed to one statement. */
  function RewriteStatement(stmt: Expr, config: TableConfig, input: SqlInput): (r: Result<Expr>)
    ensures HasSettings(stmt) ==> r == Err("SQL statement cannot include a settings clause.")
  {
    if HasSettings(stmt) then Err("SQL statement cannot include a settings clause.")
    else
      var p :- Transform(stmt, Visit({}, MaxId(stmt) + 1), config, input);
      Ok(p.0)
  }

  /** The guard readMetricsSql puts on the printed query: a query that
      names the project-id setting is refused, so the setting the server
      sets for the caller's project cannot be overridden. */
  function CheckedSql(config: TableConfig, input: SqlInput, parse: string -> Result<seq<Expr>>,
                      render: Expr -> string): (r: Result<string>)
    ensures r.Ok? ==> !Contains(r.value, ProjectIdSetting)
    ensures r.Ok? <==> TransformSql(config, input, parse).Ok?
                       && !Contains(render(TransformSql(config, input, parse).value), ProjectIdSetting)
  {
    var e :- TransformSql(config, input, parse);
    var sql := render(e);
    if Contains(sql, ProjectIdSetting) then Err("User cannot modify project id setting in query") else Ok(sql)
  }

  // ---------------------------------------------------------------------
  // the prior-visit guard

  lemma {:induction false} NodeIdsWithin(e: Expr, n: Expr)
    requires n in AllNodes(e)
    ensures NodeIds(n) <= AllIds(e)
  {
    NodesWithin(e, n);
  }

  lemma {:induction false} TablesSkipVisited(e: Expr, skip: set<nat>, table: string)
    requires AllIds(e) <= skip
    ensures ReplaceTables(e, skip, table) == e
    decreases Size(e)
  {
    var ks := Kids(e);
    var kids := seq(|ks|, i requires 0 <= i < |ks| => ReplaceTables(ks[i], skip, table));
    forall i | 0 <= i < |ks|
      ensures kids[i] == ks[i]
    {
      KidIdsWithin(e, i);
      TablesSkipVisited(ks[i], skip, table);
    }
    assert kids == ks;
  }

  lemma {:induction false} FunctionsSkipVisited(e: Expr, skip: set<nat>, config: TableConfig, next: nat)
    requires AllIds(e) <= skip
    ensures ReplaceFunctions(e, skip, config, next) == Ok((e, next))
    decreases Size(e)
  {
    var ks := Kids(e);
    forall j | 0 <= j < |ks|
      ensures ReplaceFunctions(ks[j], skip, config, next) == Ok((ks[j], next))
    {
      KidIdsWithin(e, j);
      FunctionsSkipVisited(ks[j], skip, config, next);
    }
    FunctionsKidsUnchanged(e, skip, config, 0, [], next);
  }

  /** Children that each come back unchanged leave the list unchanged. */
  lemma {:induction false} FunctionsKidsUnchanged(e: Expr, skip: set<nat>, config: TableConfig, i: nat,
                                                  done: seq<Expr>, next: nat)
    requires i <= |Kids(e)| && done == Kids(e)[..i]
    requires forall j :: i <= j < |Kids(e)| ==> ReplaceFunctions(Kids(e)[j], skip, config, next) == Ok((Kids(e)[j], next))
    ensures FunctionsKids(e, skip, config, i, done, next) == Ok((Kids(e), next))
    decreases |Kids(e)| - i
  {
    if i < |Kids(e)| {
      FunctionsKidsSame(e, skip, config, i, next);
      FunctionsKidsUnchanged(e, skip, config, i + 1, Kids(e)[..i + 1], next);
    } else {
      assert done == Kids(e);
    }
  }

  lemma FunctionsKidsSame(e: Expr, skip: set<nat>, config: TableConfig, i: nat, next: nat)
    requires i < |Kids(e)|
    requires ReplaceFunctions(Kids(e)[i], skip, config, next) == Ok((Kids(e)[i], next))
    ensures FunctionsKids(e, skip, config, i, Kids(e)[..i], next) == FunctionsKids(e, skip, config, i + 1, Kids(e)[..i + 1], next)
  {
    var ks := Kids(e);
    FunctionsKidsStep(e, skip, config, i, ks[..i], next);
    assert ks[..i] + [ks[i]] == ks[..i + 1];
  }

  /** One child through the function pass: the walk goes on from the
      next child with the rewritten one appended. */
  lemma FunctionsKidsStep(e: Expr, skip: set<nat>, config: TableConfig, i: nat, done: seq<Expr>, next: nat)
    requires i < |Kids(e)| && |done| == i
    requires ReplaceFunctions(Kids(e)[i], skip, config, next).Ok?
    ensures var p := ReplaceFunctions(Kids(e)[i], skip, config, next).value;
      FunctionsKids(e, skip, config, i, done, next) == FunctionsKids(e, skip, config, i + 1, done + [p.0], p.1)
  {
  }

  lemma FunctionsKidsFails(e: Expr, skip: set<nat>, config: TableConfig, i: nat, done: seq<Expr>, next: nat)
    requires i < |Kids(e)| && |done| == i
    requires ReplaceFunctions(Kids(e)[i], skip, config, next).Err?
    ensures FunctionsKids(e, skip, config, i, done, next).Err?
  {
  }

  /** A select's passes leave alone every part of it the visitor has already
      been through: the ignore pass collects nothing there, the column,
      function and table passes change nothing there, and no `Timestamp`
      there counts for the WHERE check. */
  lemma VisitedTreeUntouched(e: Expr, skip: set<nat>, config: TableConfig, next: nat)
    requires AllIds(e) <= skip
    ensures Scope(e, skip) == ColumnScope(skip, {}, {})
    ensures ReplaceColumns(e, Scope(e, skip), config) == e
    ensures ReplaceFunctions(e, skip, config, next) == Ok((e, next))
    ensures ReplaceTables(e, skip, config.tableName) == e
    ensures !MentionsTimestamp(e, skip)
  {
    ScopeOfVisited(e, skip);
    ColumnsSkipVisited(e, Scope(e, skip), config);
    FunctionsSkipVisited(e, skip, config, next);
    TablesSkipVisited(e, skip, config.tableName);
  }

  /** Over visited nodes the ignore pass collects no ids and no aliases, and
      no identifier counts as a `Timestamp` mention. */
  lemma ScopeOfVisited(e: Expr, skip: set<nat>)
    requires AllIds(e) <= skip
    ensures Scope(e, skip) == ColumnScope(skip, {}, {})
    ensures !MentionsTimestamp(e, skip)
  {
    forall n | n in AllNodes(e)
      ensures NodeId(n) in skip && forall x :: x in Slots(n) ==> x.id in skip
    {
      NodeIdsWithin(e, n);
    }
  }

  /** After the select visitor has run over a tree, every select in the
      result, with everything under it (filters it added included), is
      marked visited, and nothing was unmarked: a select that an enclosing
      select's passes reach again is left as it is. */
  lemma {:induction false} EverySelectVisited(e: Expr, v: Visit, config: TableConfig, input: SqlInput)
    requires Transform(e, v, config, input).Ok?
    ensures v.skip <= Transform(e, v, config, input).value.1.skip
    ensures SelectsVisited(Transform(e, v, config, input).value.0, Transform(e, v, config, input).value.1.skip)
    decreases Size(e), 1
  {
    var p := TransformKids(e, v, config, input, 0, []).value;
    KidsVisited(e, v, config, input, 0, []);
    var r := Rebuild(e, p.0);
    var (out, w) := Transform(e, v, config, input).value;
    if r.Select? {
      forall n | n in AllNodes(out) && n.Select?
        ensures AllIds(n) <= w.skip
      {
        NodesWithin(out, n);
      }
    } else {
      assert out == r && w == p.1;
      SelectsVisitedFromKids(r, w.skip);
    }
  }

  /** Every select in the tree, with everything under it, is marked visited. */
  predicate SelectsVisited(t: Expr, skip: set<nat>) {
    forall n :: n in AllNodes(t) && n.Select? ==> AllIds(n) <= skip
  }

  /** A node that is not a select inherits the property from its children. */
  lemma SelectsVisitedFromKids(r: Expr, skip: set<nat>)
    requires !r.Select?
    requires forall j :: 0 <= j < |Kids(r)| ==> SelectsVisited(Kids(r)[j], skip)
    ensures SelectsVisited(r, skip)
  {
    var ks := Kids(r);
    var parts := seq(|ks|, i requires 0 <= i < |ks| => AllNodes(ks[i]));
    forall n | n in AllNodes(r) && n.Select?
      ensures AllIds(n) <= skip
    {
      assert n != r;
      assert n in Flatten(parts);
      FlattenMemberInv(parts, n);
    }
  }

  lemma {:induction false} KidsVisited(e: Expr, v: Visit, config: TableConfig, input: SqlInput, i: nat, done: seq<Expr>)
    requires i <= |Kids(e)| && |done| == i
    requires TransformKids(e, v, config, input, i, done).Ok?
    requires forall j :: 0 <= j < i ==> SelectsVisited(done[j], v.skip)
    ensures v.skip <= TransformKids(e, v, config, input, i, done).value.1.skip
    ensures var (kids, w) := TransformKids(e, v, config, input, i, done).value;
      forall j :: 0 <= j < |kids| ==> SelectsVisited(kids[j], w.skip)
    decreases Size(e), 0, |Kids(e)| - i
  {
    if i < |Kids(e)| {
      var p := Transform(Kids(e)[i], v, config, input).value;
      EverySelectVisited(Kids(e)[i], v, config, input);
      var more := done + [p.0];
      assert TransformKids(e, v, config, input, i, done) == TransformKids(e, p.1, config, input, i + 1, more);
      forall j | 0 <= j < i + 1
        ensures SelectsVisited(more[j], p.1.skip)
      {
        if j < i {
          assert more[j] == done[j];
          SelectsVisitedGrows(done[j], v.skip, p.1.skip);
        }
      }
      KidsVisited(e, p.1, config, input, i + 1, more);
    }
  }

  lemma SelectsVisitedGrows(t: Expr, skip: set<nat>, larger: set<nat>)
    requires SelectsVisited(t, skip) && skip <= larger
    ensures SelectsVisited(t, larger)
  {
  }

  // ---------------------------------------------------------------------
  // what the scoping adds

  /** The operands of a conjunction, looking through `AND` and through a
      parenthesised single expression. */
  function Conjuncts(e: Expr): (r: seq<Expr>)
    ensures |r| >= 1
    decreases Size(e)
  {
    if e.BinaryOp? && e.op == "AND" then Conjuncts(e.left) + Conjuncts(e.right)
    else if e.ParamList? && |e.items| == 1 then
      SizeSeqElement(e.items, 0);
      Conjuncts(e.items[0])
    else [e]
  }

  predicate IsProjectFilter(c: Expr, col: string, pid: int) {
    c.BinaryOp? && c.op == "=" && c.left.Ident? && c.left.x.name == col &&
    c.right.Literal? && c.right.text == IntToString(pid)
  }

  predicate IsDateBound(c: Expr, op: string, unix: int) {
    c.BinaryOp? && c.op == op && c.left.Ident? && c.left.x.name == "Timestamp" &&
    c.right.FunctionExpr? && c.right.name.name == "toDateTime" && |c.right.params| == 1 &&
    c.right.params[0].Literal? && c.right.params[0].text == IntToString(unix)
  }

  /** The scoped WHERE clause is a conjunction that keeps every conjunct of
      the original, adds the project filter, and adds the two time bounds
      unless the original already names `Timestamp`. */
  lemma ScopeWhereConjuncts(where: Option<Expr>, skip: set<nat>, col: string, pid: int, start: int, end: int, n: nat)
    ensures var cs := Conjuncts(ScopeWhere(where, skip, col, pid, start, end, n));
      var k := if where.Some? then |Conjuncts(where.value)| else 0;
      |cs| > k && IsProjectFilter(cs[k], col, pid) &&
      (where.Some? ==> cs[..k] == Conjuncts(where.value)) &&
      (where.None? || !MentionsTimestamp(where.value, skip) <==> |cs| == k + 3) &&
      (|cs| == k + 3 ==> IsDateBound(cs[k + 1], ">=", start) && IsDateBound(cs[k + 2], "<=", end))
  {
    var project := ProjectFilter(col, pid, n);
    var time := TimeRange(start, end, n + 3);
    assert Conjuncts(project) == [project];
    assert Conjuncts(time) == [DateBound(">=", start, n + 4), DateBound("<=", end, n + 9)];
    if where.Some? {
      var w := where.value;
      assert Conjuncts(ParamList(n + 15, [w])) == Conjuncts(w);
    }
  }

  /** A resource select comes out with the project filter among the
      conjuncts of its WHERE clause. */
  lemma ResourceSelectScoped(s: Expr, v: Visit, config: TableConfig, input: SqlInput)
    requires s.Select? && FromCheck(s, v.skip) == Ok(true)
    requires ProcessSelect(s, v, config, input).Ok?
    ensures |input.projectIds| == 1
    ensures var out := ProcessSelect(s, v, config, input).value.0;
      out.where.Some? &&
      exists c :: c in Conjuncts(out.where.value) &&
        IsProjectFilter(c, ProjectColumn(config.tableName), input.projectIds[0])
  {
    var s1 := ReplaceColumns(s, Scope(s, v.skip), config);
    var p := ReplaceFunctions(s1, v.skip, config, v.next).value;
    var s3 := ReplaceTables(p.0, v.skip, config.tableName);
    ScopeWhereConjuncts(s3.where, v.skip, ProjectColumn(config.tableName), input.projectIds[0],
                        input.startUnix, input.endUnix, p.1);
  }

  // ---------------------------------------------------------------------
  // what the table and function passes leave behind

  /** After the table pass every table identifier not yet visited names the
      configured table. */
  lemma {:induction false} EveryTableRenamed(e: Expr, skip: set<nat>, table: string)
    ensures forall n :: n in AllNodes(ReplaceTables(e, skip, table)) && n.TableIdentifier? && NodeId(n) !in skip
                ==> n.table.name == table
    decreases Size(e)
  {
    var out := ReplaceTables(e, skip, table);
    forall n | n in AllNodes(out) && n.TableIdentifier? && NodeId(n) !in skip
      ensures n.table.name == table
    {
      if n != out {
        var j := TablesNodeFromKid(e, skip, table, n);
        EveryTableRenamed(Kids(e)[j], skip, table);
      }
    }
  }

  /** A node of the table pass's output other than its root comes from the
      output of one of the children. */
  lemma TablesNodeFromKid(e: Expr, skip: set<nat>, table: string, n: Expr) returns (j: nat)
    requires n in AllNodes(ReplaceTables(e, skip, table)) && n != ReplaceTables(e, skip, table)
    ensures j < |Kids(e)| && n in AllNodes(ReplaceTables(Kids(e)[j], skip, table))
  {
    var out := ReplaceTables(e, skip, table);
    var ks := Kids(e);
    var kids := seq(|ks|, i requires 0 <= i < |ks| => ReplaceTables(ks[i], skip, table));
    assert Kids(out) == kids;
    var parts := seq(|kids|, i requires 0 <= i < |kids| => AllNodes(kids[i]));
    assert n in Flatten(parts);
    FlattenMemberInv(parts, n);
    j :| 0 <= j < |parts| && n in parts[j];
  }

  /** No `$time_interval` call outside the visited nodes. */
  predicate NoPlaceholder(e: Expr, skip: set<nat>) {
    forall n :: n in AllNodes(e) && n.FunctionExpr? && NodeId(n) !in skip ==> n.name.name != TimeInterval
  }

  predicate SomeMalformed(e: Expr, skip: set<nat>) {
    exists n :: n in AllNodes(e) && NodeId(n) !in skip && MalformedInterval(n)
  }

  lemma SampleFactoredKeepsPlaceholder(fn: string, config: TableConfig)
    ensures SampleFactored(fn, config) == TimeInterval ==> fn == TimeInterval
  {
  }

  /** The function pass on a child keeps what its parent's check looks at. */
  predicate KeepsShape(k: Expr, out: Expr) {
    StringArgument(out) == StringArgument(k) && out.Literal? == k.Literal? && (k.Literal? ==> out == k)
  }

  predicate MalformedInKids(e: Expr, skip: set<nat>, i: nat) {
    exists j, n :: i <= j < |Kids(e)| && n in AllNodes(Kids(e)[j]) && NodeId(n) !in skip && MalformedInterval(n)
  }

  /** The function pass fails exactly when some `$time_interval` call not
      yet visited has no argument list, not one argument, or an argument
      that is not a string literal. */
  lemma {:induction false} FunctionsFailExactly(e: Expr, skip: set<nat>, config: TableConfig, next: nat)
    ensures ReplaceFunctions(e, skip, config, next).Err? <==> SomeMalformed(e, skip)
    ensures ReplaceFunctions(e, skip, config, next).Ok? ==>
              KeepsShape(e, ReplaceFunctions(e, skip, config, next).value.0)
    decreases Size(e), 1
  {
    var ks := Kids(e);
    var q := FunctionsKids(e, skip, config, 0, [], next);
    FunctionsKidsExactly(e, skip, config, 0, [], next);
    if q.Err? {
      var parts := seq(|ks|, i requires 0 <= i < |ks| => AllNodes(ks[i]));
      assert AllNodes(e) == Flatten(parts) + [e];
      assert ReplaceFunctions(e, skip, config, next).Err?;
      var j, n :| 0 <= j < |ks| && n in AllNodes(ks[j]) && NodeId(n) !in skip && MalformedInterval(n);
      FlattenMember(parts, j, n);
    } else {
      FunctionsAtNode(e, skip, config, next);
    }
  }

  /** When the children pass, the function pass fails exactly when the node
      itself is a malformed `$time_interval` call. */
  lemma FunctionsAtNode(e: Expr, skip: set<nat>, config: TableConfig, next: nat)
    requires FunctionsKids(e, skip, config, 0, [], next).Ok?
    requires !MalformedInKids(e, skip, 0)
    requires forall j :: 0 <= j < |Kids(e)| ==> KeepsShape(Kids(e)[j], FunctionsKids(e, skip, config, 0, [], next).value.0[j])
    ensures ReplaceFunctions(e, skip, config, next).Err? <==> SomeMalformed(e, skip)
    ensures ReplaceFunctions(e, skip, config, next).Ok? ==>
              KeepsShape(e, ReplaceFunctions(e, skip, config, next).value.0)
  {
    var ks := Kids(e);
    var q := FunctionsKids(e, skip, config, 0, [], next);
    var parts := seq(|ks|, i requires 0 <= i < |ks| => AllNodes(ks[i]));
    assert AllNodes(e) == Flatten(parts) + [e];
    var kids := q.value.0;
    var r := Rebuild(e, kids);
    assert ReplaceFunctions(e, skip, config, next) == FunctionNode(r, skip, config, q.value.1);
    FunctionNodeShape(e, kids, skip, config, q.value.1);
    forall n | n in AllNodes(e) && n != e
      ensures !(NodeId(n) !in skip && MalformedInterval(n))
    {
      FlattenMemberInv(parts, n);
    }
    assert SomeMalformed(e, skip) <==> NodeId(e) !in skip && MalformedInterval(e);
    var out := FunctionNode(r, skip, config, q.value.1);
    assert out.Err? <==> SomeMalformed(e, skip);
    assert out.Ok? ==> KeepsShape(e, out.value.0);
  }

  lemma {:induction false} FunctionsKidsExactly(e: Expr, skip: set<nat>, config: TableConfig, i: nat,
                                               done: seq<Expr>, next: nat)
    requires i <= |Kids(e)| && |done| == i
    requires forall j :: 0 <= j < i ==> KeepsShape(Kids(e)[j], done[j])
    ensures FunctionsKids(e, skip, config, i, done, next).Err? <==> MalformedInKids(e, skip, i)
    ensures FunctionsKids(e, skip, config, i, done, next).Ok? ==>
              forall j :: 0 <= j < |Kids(e)| ==> KeepsShape(Kids(e)[j], FunctionsKids(e, skip, config, i, done, next).value.0[j])
    decreases Size(e), 0, |Kids(e)| - i
  {
    if i < |Kids(e)| {
      var k := Kids(e)[i];
      FunctionsFailExactly(k, skip, config, next);
      var p := ReplaceFunctions(k, skip, config, next);
      MalformedInKidsStep(e, skip, i);
      if p.Ok? {
        FunctionsKidsStep(e, skip, config, i, done, next);
        KeepsShapeAppend(e, done, p.value.0);
        FunctionsKidsExactly(e, skip, config, i + 1, done + [p.value.0], p.value.1);
      } else {
        FunctionsKidsFails(e, skip, config, i, done, next);
      }
    }
  }

  lemma KeepsShapeAppend(e: Expr, done: seq<Expr>, x: Expr)
    requires |done| < |Kids(e)|
    requires forall j :: 0 <= j < |done| ==> KeepsShape(Kids(e)[j], done[j])
    requires KeepsShape(Kids(e)[|done|], x)
    ensures forall j :: 0 <= j < |done| + 1 ==> KeepsShape(Kids(e)[j], (done + [x])[j])
  {
    var more := done + [x];
    assert forall j :: 0 <= j < |done| ==> more[j] == done[j];
    assert more[|done|] == x;
  }

  lemma MalformedInKidsStep(e: Expr, skip: set<nat>, i: nat)
    requires i < |Kids(e)|
    ensures MalformedInKids(e, skip, i) <==> SomeMalformed(Kids(e)[i], skip) || MalformedInKids(e, skip, i + 1)
  {
    if MalformedInKids(e, skip, i) {
      var j, n :| i <= j < |Kids(e)| && n in AllNodes(Kids(e)[j]) && NodeId(n) !in skip && MalformedInterval(n);
      if j == i {
        assert SomeMalformed(Kids(e)[i], skip);
      } else {
        assert MalformedInKids(e, skip, i + 1);
      }
    }
  }

  lemma FunctionNodeShape(e: Expr, kids: seq<Expr>, skip: set<nat>, config: TableConfig, next: nat)
    requires |kids| == |Kids(e)| && forall j :: 0 <= j < |kids| ==> KeepsShape(Kids(e)[j], kids[j])
    ensures MalformedInterval(Rebuild(e, kids)) == MalformedInterval(e)
    ensures NodeId(Rebuild(e, kids)) == NodeId(e)
    ensures FunctionNode(Rebuild(e, kids), skip, config, next).Ok? ==>
              KeepsShape(e, FunctionNode(Rebuild(e, kids), skip, config, next).value.0)
  {
    var r := Rebuild(e, kids);
    if e.FunctionExpr? {
      assert r.params == kids && r.name == e.name && r.hasParams == e.hasParams;
      if |kids| == 1 {
        assert KeepsShape(e.params[0], kids[0]);
      }
    } else if e.ColumnExpr? {
      assert r.inner == kids[0];
      assert KeepsShape(e.inner, kids[0]);
      assert FunctionNode(r, skip, config, next) == Ok((r, next));
    } else if e.Literal? {
      assert kids == Kids(e);
    }
  }

  /** A successful function pass leaves no `$time_interval` call outside
      the visited nodes. */
  lemma {:induction false} FunctionsLeaveNoPlaceholder(e: Expr, skip: set<nat>, config: TableConfig, next: nat)
    requires ReplaceFunctions(e, skip, config, next).Ok?
    ensures NoPlaceholder(ReplaceFunctions(e, skip, config, next).value.0, skip)
    decreases Size(e), 1
  {
    var q := FunctionsKids(e, skip, config, 0, [], next);
    assert q.Ok?;
    KidsLeaveNoPlaceholder(e, skip, config, 0, [], next);
    var r := Rebuild(e, q.value.0);
    assert ReplaceFunctions(e, skip, config, next) == FunctionNode(r, skip, config, q.value.1);
    NodeLeavesNoPlaceholder(r, skip, config, q.value.1);
  }

  lemma {:induction false} KidsLeaveNoPlaceholder(e: Expr, skip: set<nat>, config: TableConfig, i: nat,
                                                 done: seq<Expr>, next: nat)
    requires i <= |Kids(e)| && |done| == i
    requires forall j :: 0 <= j < i ==> NoPlaceholder(done[j], skip)
    requires FunctionsKids(e, skip, config, i, done, next).Ok?
    ensures var kids := FunctionsKids(e, skip, config, i, done, next).value.0;
      forall j :: 0 <= j < |kids| ==> NoPlaceholder(kids[j], skip)
    decreases Size(e), 0, |Kids(e)| - i
  {
    if i < |Kids(e)| {
      var k := Kids(e)[i];
      var p := ReplaceFunctions(k, skip, config, next);
      assert p.Ok?;
      FunctionsLeaveNoPlaceholder(k, skip, config, next);
      var more := done + [p.value.0];
      assert FunctionsKids(e, skip, config, i, done, next) == FunctionsKids(e, skip, config, i + 1, more, p.value.1);
      CleanAppend(done, p.value.0, skip);
      KidsLeaveNoPlaceholder(e, skip, config, i + 1, more, p.value.1);
    }
  }

  lemma CleanAppend(done: seq<Expr>, x: Expr, skip: set<nat>)
    requires forall j :: 0 <= j < |done| ==> NoPlaceholder(done[j], skip)
    requires NoPlaceholder(x, skip)
    ensures forall j :: 0 <= j < |done| + 1 ==> NoPlaceholder((done + [x])[j], skip)
  {
    var more := done + [x];
    assert forall j :: 0 <= j < |done| ==> more[j] == done[j];
    assert more[|done|] == x;
  }

  /** A node whose children are clean and which is not itself a
      `$time_interval` call outside the visited nodes is clean. */
  lemma CleanFromKids(o: Expr, skip: set<nat>)
    requires forall j :: 0 <= j < |Kids(o)| ==> NoPlaceholder(Kids(o)[j], skip)
    requires o.FunctionExpr? && NodeId(o) !in skip ==> o.name.name != TimeInterval
    ensures NoPlaceholder(o, skip)
  {
    var ks := Kids(o);
    var parts := seq(|ks|, i requires 0 <= i < |ks| => AllNodes(ks[i]));
    forall n | n in AllNodes(o) && n.FunctionExpr? && NodeId(n) !in skip
      ensures n.name.name != TimeInterval
    {
      if n != o {
        FlattenMemberInv(parts, n);
      }
    }
  }

  /** A node over one leaf is clean unless it is a placeholder itself. */
  lemma CleanOverLeaf(o: Expr, skip: set<nat>)
    requires |Kids(o)| == 1 && Kids(Kids(o)[0]) == [] && !Kids(o)[0].FunctionExpr? && !o.FunctionExpr?
    ensures NoPlaceholder(o, skip)
  {
    CleanFromKids(Kids(o)[0], skip);
    CleanFromKids(o, skip);
  }

  /** The function pass on one node keeps its children clean and does not
      leave the node itself a `$time_interval` call. */
  lemma NodeLeavesNoPlaceholder(r: Expr, skip: set<nat>, config: TableConfig, next: nat)
    requires forall j :: 0 <= j < |Kids(r)| ==> NoPlaceholder(Kids(r)[j], skip)
    requires FunctionNode(r, skip, config, next).Ok?
    ensures NoPlaceholder(FunctionNode(r, skip, config, next).value.0, skip)
  {
    var o := FunctionNode(r, skip, config, next).value.0;
    if !r.FunctionExpr? || NodeId(r) in skip || r.name.name != TimeInterval {
      if r.FunctionExpr? {
        SampleFactoredKeepsPlaceholder(r.name.name, config);
      }
      assert Kids(o) == Kids(r);
      CleanFromKids(o, skip);
    } else {
      var ks := Kids(o);
      assert o.name.name == "toStartOfInterval";
      CleanOverLeaf(ks[0], skip);
      CleanOverLeaf(ks[1], skip);
      CleanFromKids(o, skip);
    }
  }

  // ---------------------------------------------------------------------
  // the column pass, identifier by identifier

  /** Every identifier of the tree, in visiting order. */
  function Idents(e: Expr): seq<Id>
    decreases Size(e), 1
  {
    Flatten(KidIdents(e)) + Slots(e)
  }

  /** The identifiers of each child, child by child. */
  function KidIdents(e: Expr): seq<seq<Id>>
    decreases Size(e), 0
  {
    var ks := Kids(e);
    seq(|ks|, i requires 0 <= i < |ks| => Idents(ks[i]))
  }

  predicate Renamed(before: seq<Id>, after: seq<Id>, c: ColumnScope, config: TableConfig) {
    |after| == |before| && forall i :: 0 <= i < |before| ==> after[i] == ColumnIdent(before[i], c, config)
  }

  lemma RenamedConcat(a: seq<Id>, b: seq<Id>, a2: seq<Id>, b2: seq<Id>, c: ColumnScope, config: TableConfig)
    requires Renamed(a, a2, c, config) && Renamed(b, b2, c, config)
    ensures Renamed(a + b, a2 + b2, c, config)
  {
    forall i | 0 <= i < |a + b|
      ensures (a2 + b2)[i] == ColumnIdent((a + b)[i], c, config)
    {
      if i >= |a| {
        assert (a + b)[i] == b[i - |a|] && (a2 + b2)[i] == b2[i - |a|];
      }
    }
  }

  lemma {:induction false} FlattenRenamed(ss: seq<seq<Id>>, tt: seq<seq<Id>>, c: ColumnScope, config: TableConfig)
    requires |ss| == |tt| && forall i :: 0 <= i < |ss| ==> Renamed(ss[i], tt[i], c, config)
    ensures Renamed(Flatten(ss), Flatten(tt), c, config)
    decreases |ss|
  {
    if ss != [] {
      var n := |ss| - 1;
      FlattenRenamed(ss[..n], tt[..n], c, config);
      RenamedConcat(Flatten(ss[..n]), ss[n], Flatten(tt[..n]), tt[n], c, config);
    }
  }

  /** The column pass changes identifiers one by one and nothing else about
      their order: the k-th identifier of the result is the k-th of the
      input under the rule (left as it is when visited, `*`, ignored or an
      alias; otherwise its column, or a lookup in its attribute map). */
  lemma {:induction false} ColumnsRenameEachIdentifier(e: Expr, c: ColumnScope, config: TableConfig)
    ensures Renamed(Idents(e), Idents(ReplaceColumns(e, c, config)), c, config)
    decreases Size(e)
  {
    var ks := Kids(e);
    forall i | 0 <= i < |ks|
      ensures Renamed(Idents(ks[i]), Idents(ReplaceColumns(ks[i], c, config)), c, config)
    {
      ColumnsRenameEachIdentifier(ks[i], c, config);
    }
    RenamedFromKids(e, c, config);
  }

  /** A node's identifiers are renamed once its children's are. */
  lemma RenamedFromKids(e: Expr, c: ColumnScope, config: TableConfig)
    requires forall i :: 0 <= i < |Kids(e)| ==>
      Renamed(Idents(Kids(e)[i]), Idents(ReplaceColumns(Kids(e)[i], c, config)), c, config)
    ensures Renamed(Idents(e), Idents(ReplaceColumns(e, c, config)), c, config)
  {
    var out := ReplaceColumns(e, c, config);
    ColumnsAtNode(e, c, config);
    var ss, tt := KidIdents(e), KidIdents(out);
    forall i | 0 <= i < |ss|
      ensures Renamed(ss[i], tt[i], c, config)
    {
      assert ss[i] == Idents(Kids(e)[i]);
      assert tt[i] == Idents(ReplaceColumns(Kids(e)[i], c, config));
    }
    FlattenRenamed(ss, tt, c, config);
    RenamedConcat(Flatten(ss), Slots(e), Flatten(tt), Slots(out), c, config);
  }

  /** One node of the column pass: its children are rewritten in place and
      its own identifier slots are renamed. */
  lemma ColumnsAtNode(e: Expr, c: ColumnScope, config: TableConfig)
    ensures var out := ReplaceColumns(e, c, config);
      && |Kids(out)| == |Kids(e)|
      && (forall i :: 0 <= i < |Kids(e)| ==> Kids(out)[i] == ReplaceColumns(Kids(e)[i], c, config))
      && Renamed(Slots(e), Slots(out), c, config)
  {
    var ks := Kids(e);
    var kids := seq(|ks|, i requires 0 <= i < |ks| => ReplaceColumns(ks[i], c, config));
    assert Kids(ReplaceColumns(e, c, config)) == kids;
  }

  // ---------------------------------------------------------------------
  // GetTables

  /** The resource-table names the visitor appends, in visiting order. */
  function ResourceNames(ns: seq<Expr>): (r: seq<string>)
    ensures forall t :: t in r ==> t in ResourceTables
  {
    if ns == [] then []
    else
      var n := ns[|ns| - 1];
      ResourceNames(ns[..|ns| - 1]) +
      (if n.TableIdentifier? && n.table.name in ResourceTables then [n.table.name] else [])
  }

  /** lo.Uniq: the first occurrence of each value, in order. */
  function Uniq(s: seq<string>): (u: seq<string>)
    ensures forall x :: x in u <==> x in s
  {
    if s == [] then []
    else
      var u := Uniq(s[..|s| - 1]);
      var x := s[|s| - 1];
      assert s == s[..|s| - 1] + [x];
      if x in u then u else u + [x]
  }

  /** The index of the first occurrence of `x` in `s`. */
  function FirstIndex(s: seq<string>, x: string): (i: nat)
    requires x in s
    ensures i < |s| && s[i] == x && x !in s[..i]
  {
    if s[0] == x then 0
    else
      assert x in s[1..];
      var i := FirstIndex(s[1..], x);
      assert s[..i + 1] == [s[0]] + s[1..][..i];
      i + 1
  }

  lemma FirstIndexExtend(s: seq<string>, y: string, x: string)
    requires x in s
    ensures FirstIndex(s + [y], x) == FirstIndex(s, x)
  {
    var i := FirstIndex(s, x);
    assert (s + [y])[..i] == s[..i];
    assert (s + [y])[i] == x;
  }

  predicate Distinct(u: seq<string>) {
    forall i, j :: 0 <= i < j < |u| ==> u[i] != u[j]
  }

  /** The values of `u` appear in the order of their first occurrence in `s`. */
  predicate FirstOccurrenceOrder(s: seq<string>, u: seq<string>)
    requires forall x :: x in u ==> x in s
  {
    forall i, j :: 0 <= i < j < |u| ==> FirstIndex(s, u[i]) < FirstIndex(s, u[j])
  }

  /** lo.Uniq keeps each value once, and in the order of first occurrence. */
  lemma {:induction false} UniqKeepsFirstOccurrences(s: seq<string>)
    ensures Distinct(Uniq(s)) && FirstOccurrenceOrder(s, Uniq(s))
    decreases |s|
  {
    if s != [] {
      var p := s[..|s| - 1];
      var x := s[|s| - 1];
      assert s == p + [x];
      UniqKeepsFirstOccurrences(p);
      var u := Uniq(p);
      assert Uniq(s) == if x in u then u else u + [x];
      if x in u {
        UniqOrderExtend(p, x, u, u);
      } else {
        assert FirstIndex(s, x) == |p| by {
          assert s[..|p|] == p;
        }
        UniqOrderExtend(p, x, u, u + [x]);
      }
    }
  }

  lemma UniqOrderExtend(p: seq<string>, x: string, u: seq<string>, v: seq<string>)
    requires (forall y :: y in u <==> y in p) && Distinct(u) && FirstOccurrenceOrder(p, u)
    requires x in u ==> v == u
    requires x !in u ==> v == u + [x] && FirstIndex(p + [x], x) == |p|
    ensures Distinct(v) && FirstOccurrenceOrder(p + [x], v)
  {
    var s := p + [x];
    forall i, j | 0 <= i < j < |v|
      ensures v[i] != v[j] && FirstIndex(s, v[i]) < FirstIndex(s, v[j])
    {
      assert v[i] == u[i];
      FirstIndexExtend(p, x, u[i]);
      if j < |u| {
        assert v[j] == u[j];
        FirstIndexExtend(p, x, u[j]);
      }
    }
  }

  /** GetTables: the resource tables a query reads, each once, in the order
      they are first reached. Parsing is a parameter. */
  method GetTables(sql: string, parse: string -> Result<seq<Expr>>) returns (r: Result<seq<string>>)
    ensures parse(sql).Err? ==> r.Err?
    ensures parse(sql).Ok? && |parse(sql).value| != 1 ==> r.Err?
    ensures parse(sql).Ok? && |parse(sql).value| == 1 ==>
              r == Ok(Uniq(ResourceNames(AllNodes(parse(sql).value[0]))))
  {
    var stmts := parse(sql);
    if stmts.Err? {
      return Err(stmts.msg);
    }
    if |stmts.value| != 1 {
      return Err("Expected 1 SQL statement, found " + NatToString(|stmts.value|));
    }
    var nodes := AllNodes(stmts.value[0]);
    var tables: seq<string> := [];
    var k := 0;
    while k < |nodes|
      invariant k <= |nodes|
      invariant tables == ResourceNames(nodes[..k])
    {
      var n := nodes[k];
      if n.TableIdentifier? && n.table.name in ResourceTables {
        tables := tables + [n.table.name];
      }
      assert nodes[..k + 1][..k] == nodes[..k];
      k := k + 1;
    }
    assert nodes[..k] == nodes;
    return Ok(Uniq(tables));
  }

  /** What GetTables reports: resource tables only, each once, exactly the
      resource tables the query names. */
  lemma GetTablesReport(stmt: Expr)
    ensures var u := Uniq(ResourceNames(AllNodes(stmt)));
      (forall t :: t in u ==> t in ResourceTables) &&
      Distinct(u) && FirstOccurrenceOrder(ResourceNames(AllNodes(stmt)), u) &&
      (forall t :: t in u <==> exists n :: n in AllNodes(stmt) && n.TableIdentifier? && n.table.name == t &&
                                             t in ResourceTables)
  {
    UniqKeepsFirstOccurrences(ResourceNames(AllNodes(stmt)));
    ResourceNamesExactly(AllNodes(stmt));
  }

  lemma {:induction false} ResourceNamesExactly(ns: seq<Expr>)
    ensures forall t :: t in ResourceNames(ns) <==>
              exists n :: n in ns && n.TableIdentifier? && n.table.name == t && t in ResourceTables
    decreases |ns|
  {
    if ns != [] {
      var p := ns[..|ns| - 1];
      ResourceNamesExactly(p);
      assert ns == p + [ns[|ns| - 1]];
      forall t | exists n :: n in ns && n.TableIdentifier? && n.table.name == t && t in ResourceTables
        ensures t in ResourceNames(ns)
      {
        var n :| n in ns && n.TableIdentifier? && n.table.name == t && t in ResourceTables;
        if n != ns[|ns| - 1] {
          assert n in p;
        }
      }
    }
  }

  // ---------------------------------------------------------------------
  // end to end

  lemma {:induction false} SizeWithin(e: Expr, n: Expr)
    requires n in AllNodes(e)
    ensures Size(n) <= Size(e)
    decreases Size(e)
  {
    var ks := Kids(e);
    var parts := seq(|ks|, i requires 0 <= i < |ks| => AllNodes(ks[i]));
    if n != e {
      FlattenMemberInv(parts, n);
      var k :| 0 <= k < |parts| && n in parts[k];
      SizeWithin(ks[k], n);
    }
  }

  predicate NoSelect(e: Expr) {
    forall n :: n in AllNodes(e) ==> !n.Select?
  }

  /** The select visitor leaves a tree without selects as it is. */
  lemma {:induction false} TransformSkipsPlainTrees(e: Expr, v: Visit, config: TableConfig, input: SqlInput)
    requires NoSelect(e)
    ensures Transform(e, v, config, input) == Ok((e, v))
    decreases Size(e), 1
  {
    PlainKids(e);
    TransformKidsSkipPlainTrees(e, v, config, input, 0, []);
  }

  /** The children of a node are plain when the node is the only select. */
  lemma PlainKids(e: Expr)
    requires forall n :: n in AllNodes(e) && n.Select? ==> n == e
    ensures forall j :: 0 <= j < |Kids(e)| ==> NoSelect(Kids(e)[j])
  {
    var ks := Kids(e);
    var parts := seq(|ks|, i requires 0 <= i < |ks| => AllNodes(ks[i]));
    assert AllNodes(e) == Flatten(parts) + [e];
    forall j, n | 0 <= j < |ks| && n in AllNodes(ks[j])
      ensures n != e
    {
      SizeWithin(ks[j], n);
    }
    forall j, n | 0 <= j < |ks| && n in AllNodes(ks[j])
      ensures n in AllNodes(e)
    {
      FlattenMember(parts, j, n);
    }
  }

  lemma {:induction false} TransformKidsSkipPlainTrees(e: Expr, v: Visit, config: TableConfig, input: SqlInput,
                                                       i: nat, done: seq<Expr>)
    requires i <= |Kids(e)| && done == Kids(e)[..i]
    requires forall j :: i <= j < |Kids(e)| ==> NoSelect(Kids(e)[j])
    ensures TransformKids(e, v, config, input, i, done) == Ok((Kids(e), v))
    decreases Size(e), 0, |Kids(e)| - i
  {
    var ks := Kids(e);
    if i < |ks| {
      TransformSkipsPlainTrees(ks[i], v, config, input);
      assert done + [ks[i]] == ks[..i + 1];
      TransformKidsSkipPlainTrees(e, v, config, input, i + 1, done + [ks[i]]);
    } else {
      assert done == ks;
    }
  }

  /** A query with no sub-select that reads a resource table is rewritten
      only if the request names exactly one project, and then its WHERE
      clause has that project's filter among its conjuncts. */
  lemma FlatResourceQueryScoped(config: TableConfig, input: SqlInput, parse: string -> Result<seq<Expr>>, stmt: Expr)
    requires input.sql.Some? && parse(input.sql.value) == Ok([stmt])
    requires stmt.Select? && (forall n :: n in AllNodes(stmt) && n.Select? ==> n == stmt)
    requires FromCheck(stmt, {}) == Ok(true)
    requires TransformSql(config, input, parse).Ok?
    ensures |input.projectIds| == 1
    ensures var out := TransformSql(config, input, parse).value;
      out.Select? && out.where.Some? &&
      exists c :: c in Conjuncts(out.where.value) &&
        IsProjectFilter(c, ProjectColumn(config.tableName), input.projectIds[0])
  {
    assert TransformSql(config, input, parse) == RewriteStatement(stmt, config, input);
    FlatStatementScoped(stmt, config, input);
  }

  lemma FlatStatementScoped(stmt: Expr, config: TableConfig, input: SqlInput)
    requires stmt.Select? && (forall n :: n in AllNodes(stmt) && n.Select? ==> n == stmt)
    requires FromCheck(stmt, {}) == Ok(true)
    requires RewriteStatement(stmt, config, input).Ok?
    ensures |input.projectIds| == 1
    ensures var out := RewriteStatement(stmt, config, input).value;
      out.Select? && out.where.Some? &&
      exists c :: c in Conjuncts(out.where.value) &&
        IsProjectFilter(c, ProjectColumn(config.tableName), input.projectIds[0])
  {
    var v := Visit({}, MaxId(stmt) + 1);
    OnlySelectProcessed(stmt, v, config, input);
    ResourceSelectScoped(stmt, v, config, input);
  }

  lemma OnlySelectProcessed(stmt: Expr, v: Visit, config: TableConfig, input: SqlInput)
    requires stmt.Select? && (forall n :: n in AllNodes(stmt) && n.Select? ==> n == stmt)
    ensures Transform(stmt, v, config, input) == ProcessSelect(stmt, v, config, input)
  {
    PlainKids(stmt);
    TransformKidsSkipPlainTrees(stmt, v, config, input, 0, []);
    assert Rebuild(stmt, Kids(stmt)) == stmt;
  }
}
