/** The select builder the query code appends to (go-sqlbuilder's
    SelectBuilder), kept as structure rather than SQL text: WHERE
    predicates, an ordering, a limit. Rendering to text is not modelled. */
module Builder {
  import opened Common

  datatype Value = IntVal(i: int) | StrVal(s: string)

  datatype CmpOp = Eq | Ne | Gt | Ge | Lt | Le

  /** One WHERE predicate. */
  datatype Pred =
    | Compare(column: string, op: CmpOp, value: Value)
    | In(column: string, values: seq<Value>)
    | AnyOf(disjuncts: seq<Pred>)
    | AllOf(conjuncts: seq<Pred>)
    /** `_part IN (SELECT name FROM system.parts WHERE table = t AND active AND cond)` */
    | InActiveParts(table: string, cond: Pred)

  /** A stored row, by column name. */
  type Row = map<string, Value>

  function CompareValues(a: Value, op: CmpOp, b: Value): bool {
    match (a, b)
    case (IntVal(x), IntVal(y)) =>
      (match op
       case Eq => x == y
       case Ne => x != y
       case Gt => x > y
       case Ge => x >= y
       case Lt => x < y
       case Le => x <= y)
    case (StrVal(x), StrVal(y)) =>
      (op == Eq && x == y) || (op == Ne && x != y)
    case _ => op == Ne
  }

  /** Whether `row` satisfies `p`; `parts` is the content of system.parts
      (one row per data part), consulted by `InActiveParts` only. */
  function Eval(p: Pred, row: Row, parts: seq<Row>): bool
    decreases p
  {
    match p
    case Compare(c, op, v) => c in row && CompareValues(row[c], op, v)
    case In(c, vs) => c in row && row[c] in vs
    case AnyOf(ps) => exists i :: 0 <= i < |ps| && Eval(ps[i], row, parts)
    case AllOf(ps) => forall i :: 0 <= i < |ps| ==> Eval(ps[i], row, parts)
    case InActiveParts(t, cond) =>
      "_part" in row &&
      exists j :: 0 <= j < |parts| && IsActivePartOf(parts[j], t, row["_part"]) && Eval(cond, parts[j], [])
  }

  predicate IsActivePartOf(part: Row, table: string, name: Value) {
    && "name" in part && part["name"] == name
    && "table" in part && part["table"] == StrVal(table)
    && "active" in part && part["active"] == IntVal(1)
  }

  /** A builder's WHERE clauses are a conjunction. */
  predicate EvalAll(ps: seq<Pred>, row: Row, parts: seq<Row>) {
    forall i :: 0 <= i < |ps| ==> Eval(ps[i], row, parts)
  }

  datatype Dir = Asc | Desc {
    function Flip(): Dir { if this == Asc then Desc else Asc }
  }

  /** The primary sort key: a physical column, or an attribute-map lookup
      `column[key]` with the key bound as a parameter. */
  datatype SortColumn = KnownColumn(name: string) | AttributeColumn(column: string, key: string)

  /** `column dir, UUID dir`: every ordering breaks ties on the row id in the
      same direction as the primary key. */
  datatype Ordering = Ordering(column: SortColumn, dir: Dir)

  /** A row's position in an ordering: its sort-key value and its id. */
  datatype SortKey = SortKey(key: int, uuid: int)

  /** `a` comes strictly before `b` under `o`. */
  predicate Precedes(o: Ordering, a: SortKey, b: SortKey) {
    if o.dir == Asc then a.key < b.key || (a.key == b.key && a.uuid < b.uuid)
    else a.key > b.key || (a.key == b.key && a.uuid > b.uuid)
  }

  class SelectBuilder {
    var columns: seq<string>
    var table: string
    var wheres: seq<Pred>
    var orderBy: Option<Ordering>
    var limit: Option<int>
    var distinct: bool

    constructor ()
      ensures columns == [] && table == "" && wheres == []
      ensures orderBy == None && limit == None && !distinct
    {
      columns, table, wheres := [], "", [];
      orderBy, limit, distinct := None, None, false;
    }

    method Select(cols: seq<string>)
      modifies this
      ensures columns == cols
      ensures table == old(table) && wheres == old(wheres) && orderBy == old(orderBy)
      ensures limit == old(limit) && distinct == old(distinct)
    {
      columns := cols;
    }

    method From(t: string)
      modifies this
      ensures table == t
      ensures columns == old(columns) && wheres == old(wheres) && orderBy == old(orderBy)
      ensures limit == old(limit) && distinct == old(distinct)
    {
      table := t;
    }

    /** Appends one conjunct. */
    method Where(p: Pred)
      modifies this
      ensures wheres == old(wheres) + [p]
      ensures columns == old(columns) && table == old(table) && orderBy == old(orderBy)
      ensures limit == old(limit) && distinct == old(distinct)
    {
      wheres := wheres + [p];
    }

    /** Appends each predicate in turn, as a chain of `Where` calls does. */
    method WhereAll(ps: seq<Pred>)
      modifies this
      ensures wheres == old(wheres) + ps
      ensures columns == old(columns) && table == old(table) && orderBy == old(orderBy)
      ensures limit == old(limit) && distinct == old(distinct)
    {
      var i := 0;
      while i < |ps|
        invariant 0 <= i <= |ps|
        invariant wheres == old(wheres) + ps[..i]
        invariant columns == old(columns) && table == old(table) && orderBy == old(orderBy)
        invariant limit == old(limit) && distinct == old(distinct)
      {
        wheres := wheres + [ps[i]];
        i := i + 1;
      }
      assert ps[..i] == ps;
    }

    method OrderBy(o: Ordering)
      modifies this
      ensures orderBy == Some(o)
      ensures columns == old(columns) && table == old(table) && wheres == old(wheres)
      ensures limit == old(limit) && distinct == old(distinct)
    {
      orderBy := Some(o);
    }

    method Limit(n: int)
      modifies this
      ensures limit == Some(n)
      ensures columns == old(columns) && table == old(table) && wheres == old(wheres)
      ensures orderBy == old(orderBy) && distinct == old(distinct)
    {
      limit := Some(n);
    }

    method Distinct()
      modifies this
      ensures distinct
      ensures columns == old(columns) && table == old(table) && wheres == old(wheres)
      ensures orderBy == old(orderBy) && limit == old(limit)
    {
      distinct := true;
    }
  }
}
