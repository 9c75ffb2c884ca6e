/** The in-memory filter matcher: `matchesQuery` evaluates a filter tree
    (AND / OR / NOT / leaf comparisons) against a decoded row, and
    `matchFilter` resolves a leaf's key to a row value and compares it with
    the leaf's values. Reflection over the row is replaced by an explicit
    field datatype, and a Go panic by an explicit outcome. The regular
    expression engine is a parameter; the `%` wildcard on the body column
    is matched concretely. */
module Matcher {
  import opened Common

  /** The result of Go code that may panic. */
  datatype Run<T> = Returns(value: T) | Panics

  /** One entry `{Type, Name, Value}` of an attribute slice. */
  datatype Attribute = Attribute(typ: string, name: string, value: string)

  /** A field of a decoded row: what reflection sees of it. Kinds other than
      string and bool carry the name of their type, which is all that
      reflect.Value.String shows of them. */
  datatype FieldValue =
    | StrField(s: string)
    | BoolField(b: bool)
    /** a pointer; `None` is nil */
    | PtrField(typeName: string, target: Option<FieldValue>)
    | StructField(typeName: string, fields: map<string, FieldValue>)
    | MapField(typeName: string, entries: map<string, string>)
    | SliceField(typeName: string, items: seq<Attribute>)
    /** numbers, times and the other kinds */
    | OtherField(typeName: string)

  /** The row's top-level fields by name. */
  type Row = map<string, FieldValue>

  /** The regular expression engine: whether a pattern compiles, and whether
      a compiled pattern matches somewhere in a text. */
  datatype Regexp = Regexp(compiles: string -> bool, matches: (string, string) -> bool)

  datatype Op = And | Or | Not | RegExp | NotEqual | Compare(name: string)

  /** A filter node: operator nodes use `children`, leaves `key`, `column`
      and `values`. */
  datatype Filter = Filter(key: string, column: string, op: Op, values: seq<string>, children: seq<Filter>)

  // ---------------------------------------------------------------------
  // reflection

  function TypeName(v: FieldValue): string {
    match v
    case StrField(_) => "string"
    case BoolField(_) => "bool"
    case PtrField(t, _) => t
    case StructField(t, _) => t
    case MapField(t, _) => t
    case SliceField(t, _) => t
    case OtherField(t) => t
  }

  /** reflect.Value.String; `None` is the invalid (zero) Value. */
  function GoString(v: Option<FieldValue>): string {
    match v
    case None => "<invalid Value>"
    case Some(StrField(s)) => s
    case Some(x) => "<" + TypeName(x) + " Value>"
  }

  function FormatBool(b: bool): string {
    if b then "true" else "false"
  }

  /** `repr`: follows pointers, prints bools, and is String() otherwise. */
  function Repr(v: Option<FieldValue>): (r: string)
    ensures v.Some? && v.value.PtrField? ==> r == Repr(v.value.target)
    ensures v.Some? && v.value.BoolField? ==> r == FormatBool(v.value.b)
    ensures v.Some? && v.value.StrField? ==> r == v.value.s
    ensures v.None? ==> r == "<invalid Value>"
    decreases v
  {
    match v
    case Some(PtrField(_, t)) => Repr(t)
    case Some(BoolField(b)) => FormatBool(b)
    case _ => GoString(v)
  }

  /** reflect.Value.FieldByName, which panics on anything but a struct. */
  function FieldByName(v: FieldValue, name: string): Run<Option<FieldValue>> {
    match v
    case StructField(_, fields) => Returns(if name in fields then Some(fields[name]) else None)
    case _ => Panics
  }

  /** One pointer dereference, as `getChildValue` does after each step. */
  function Deref(v: Option<FieldValue>): Option<FieldValue> {
    match v
    case Some(PtrField(_, t)) => t
    case _ => v
  }

  function Field(row: Row, name: string): Option<FieldValue> {
    if name in row then Some(row[name]) else None
  }

  function RowValue(row: Row): FieldValue {
    StructField("row", row)
  }

  // ---------------------------------------------------------------------
  // getChildValue

  /** The walk along the dot-separated `parts`; `None` is "not found". */
  function ChildValue(v: Option<FieldValue>, parts: seq<string>): Run<Option<string>>
    decreases |parts|
  {
    if parts == [] then Returns(if v.Some? then Some(Repr(v)) else None)
    else if v.None? then Returns(None)
    else
      match FieldByName(v.value, parts[0])
      case Panics => Panics
      case Returns(w) => ChildValue(Deref(w), parts[1..])
  }

  function GetChildValue(row: Row, key: string): (r: Run<Option<string>>)
    ensures '.' !in key ==> r.Returns?
  {
    if '.' !in key then
      SplitWithoutSeparator(key, '.');
      assert [key][1..] == [];
      var w := FieldByName(RowValue(row), key);
      assert w.Returns?;
      assert ChildValue(Some(RowValue(row)), [key]) == ChildValue(Deref(w.value), []);
      ChildValue(Some(RowValue(row)), SplitOn(key, '.'))
    else ChildValue(Some(RowValue(row)), SplitOn(key, '.'))
  }

  /** The Go loop of `getChildValue`. */
  method ChildValueLoop(value: FieldValue, key: string) returns (r: Run<Option<string>>)
    ensures r == ChildValue(Some(value), SplitOn(key, '.'))
  {
    var parts := SplitOn(key, '.');
    var cur := Some(value);
    var i := 0;
    while i < |parts|
      invariant 0 <= i <= |parts|
      invariant ChildValue(Some(value), parts) == ChildValue(cur, parts[i..])
    {
      if cur.None? {
        return Returns(None);
      }
      var next := FieldByName(cur.value, parts[i]);
      if next.Panics? {
        return Panics;
      }
      assert parts[i..][1..] == parts[i + 1..];
      cur := Deref(next.value);
      i := i + 1;
    }
    r := Returns(if cur.Some? then Some(Repr(cur)) else None);
  }

  lemma {:induction false} SplitWithoutSeparator(s: string, sep: char)
    requires sep !in s
    ensures SplitOn(s, sep) == [s]
  {
    if s != [] {
      SplitWithoutSeparator(s[1..], sep);
      assert [s[0]] + s[1..] == s;
    }
  }

  /** A key without a dot looks up the row's field of that name, through one
      pointer. */
  lemma PlainKeyIsDirectField(row: Row, key: string)
    requires '.' !in key
    ensures GetChildValue(row, key) ==
      Returns(if key in row && Deref(Some(row[key])).Some? then Some(Repr(Deref(Some(row[key])))) else None)
  {
    SplitWithoutSeparator(key, '.');
    assert [key][1..] == [];
    var w := FieldByName(RowValue(row), key);
    assert w == Returns(Field(row, key));
    assert GetChildValue(row, key) == ChildValue(Deref(Field(row, key)), []);
  }

  /** A nil pointer part-way along a path ends the walk as "not found"; a
      non-struct part-way along it panics. */
  lemma NilPointerEndsPath(row: Row, a: string, b: string)
    requires '.' !in a && '.' !in b && a in row && row[a].PtrField? && row[a].target == None
    ensures GetChildValue(row, a + "." + b) == Returns(None)
  {
    SplitTwo(a, b, '.');
    assert a + "." + b == a + ['.'] + b;
    assert [a, b][1..] == [b];
    assert GetChildValue(row, a + "." + b) == ChildValue(Deref(Field(row, a)), [b]);
  }

  lemma StringPartPanics(row: Row, a: string, b: string)
    requires '.' !in a && '.' !in b && a in row && row[a].StrField?
    ensures GetChildValue(row, a + "." + b) == Panics
  {
    SplitTwo(a, b, '.');
    assert a + "." + b == a + ['.'] + b;
    assert [a, b][1..] == [b];
    assert GetChildValue(row, a + "." + b) == ChildValue(Deref(Field(row, a)), [b]);
    assert Deref(Field(row, a)) == Some(row[a]);
  }

  lemma {:induction false} SplitTwo(a: string, b: string, sep: char)
    requires sep !in a && sep !in b
    ensures SplitOn(a + [sep] + b, sep) == [a, b]
  {
    if a == [] {
      assert a + [sep] + b == [sep] + b;
      assert ([sep] + b)[1..] == b;
      SplitWithoutSeparator(b, sep);
    } else {
      SplitTwo(a[1..], b, sep);
      assert (a + [sep] + b)[1..] == a[1..] + [sep] + b;
      assert [a[0]] + a[1..] == a;
    }
  }

  // ---------------------------------------------------------------------
  // `toString(x)` key unwrapping

  /** `\w` */
  predicate WordChar(c: char) {
    'a' <= c <= 'z' || 'A' <= c <= 'Z' || '0' <= c <= '9' || c == '_'
  }

  /** The length of the run of word characters starting at `j`. */
  function WordRun(s: string, j: nat): (w: nat)
    requires j <= |s|
    ensures j + w <= |s|
    ensures forall k :: j <= k < j + w ==> WordChar(s[k])
    ensures j + w == |s| || !WordChar(s[j + w])
    decreases |s| - j
  {
    if j < |s| && WordChar(s[j]) then 1 + WordRun(s, j + 1) else 0
  }

  const Wrapper := "toString("

  /** `toString\((\w+)\)` matches at `i`. */
  predicate WrappedAt(key: string, i: nat) {
    && OccursAt(key, Wrapper, i)
    && var j := i + |Wrapper|;
       var w := WordRun(key, j);
       w >= 1 && j + w < |key| && key[j + w] == ')'
  }

  /** The leftmost match at or after `i`. */
  function FirstWrapped(key: string, i: nat): (r: Option<nat>)
    ensures r.Some? ==> i <= r.value && WrappedAt(key, r.value)
    ensures r.None? ==> forall k :: i <= k <= |key| ==> !WrappedAt(key, k)
    decreases |key| + 1 - i
  {
    if i > |key| then None
    else if WrappedAt(key, i) then Some(i)
    else FirstWrapped(key, i + 1)
  }

  /** The key with a `toString(...)` wrapper removed: the first submatch. */
  function UnwrapKey(key: string): string {
    match FirstWrapped(key, 0)
    case None => key
    case Some(i) => key[i + |Wrapper|..i + |Wrapper| + WordRun(key, i + |Wrapper|)]
  }

  lemma UnwrapPlainKey(key: string)
    requires !Contains(key, Wrapper)
    ensures UnwrapKey(key) == key
  {
  }

  lemma UnwrapWrappedKey(name: string)
    requires name != [] && forall k :: 0 <= k < |name| ==> WordChar(name[k])
    ensures UnwrapKey(Wrapper + name + ")") == name
  {
    var key := Wrapper + name + ")";
    assert key[..|Wrapper|] == Wrapper;
    assert OccursAt(key, Wrapper, 0);
    WordRunOver(key, |Wrapper|, |Wrapper| + |name|);
    assert key[|Wrapper|..|Wrapper| + |name|] == name;
  }

  /** A run that ends at a non-word character has exactly that length. */
  lemma {:induction false} WordRunOver(s: string, j: nat, e: nat)
    requires j <= e < |s| && !WordChar(s[e]) && forall k :: j <= k < e ==> WordChar(s[k])
    ensures WordRun(s, j) == e - j
    decreases e - j
  {
    if j < e {
      WordRunOver(s, j + 1, e);
    }
  }

  // ---------------------------------------------------------------------
  // body tokens

  /** The characters a body token is made of: `[\w:*]`. */
  predicate TokenChar(c: char) {
    WordChar(c) || c == ':' || c == '*'
  }

  /** The length of the run of token characters at the start of `s`. */
  function RunLength(s: string): (w: nat)
    ensures w <= |s|
    ensures forall k :: 0 <= k < w ==> TokenChar(s[k])
    ensures w == |s| || !TokenChar(s[w])
  {
    if s == [] || !TokenChar(s[0]) then 0 else 1 + RunLength(s[1..])
  }

  /** The non-empty pieces of the body split on non-token characters. */
  function Tokens(s: string): seq<string>
    decreases |s|
  {
    if s == [] then []
    else if !TokenChar(s[0]) then Tokens(s[1..])
    else [s[..RunLength(s)]] + Tokens(s[RunLength(s)..])
  }

  /** `t` is a whole token of `s` at `i`: non-empty, made of token
      characters, and bounded by non-token characters or the ends. */
  predicate IsTokenAt(s: string, t: string, i: int) {
    && OccursAt(s, t, i)
    && t != []
    && (forall k :: 0 <= k < |t| ==> TokenChar(t[k]))
    && (i == 0 || !TokenChar(s[i - 1]))
    && (i + |t| == |s| || !TokenChar(s[i + |t|]))
  }

  /** A whole token of `s[d..]` is a whole token of `s`, and back, when a
      token character does not join them at `d`. */
  lemma TokenShift(s: string, d: nat, t: string, j: int)
    requires d <= j && d <= |s|
    requires d == j && d > 0 ==> !TokenChar(s[d - 1])
    ensures IsTokenAt(s, t, j) <==> IsTokenAt(s[d..], t, j - d)
  {
    if j + |t| <= |s| {
      assert s[d..][j - d..j - d + |t|] == s[j..j + |t|];
    }
  }

  lemma {:induction false} TokensAreRuns(s: string, t: string)
    requires t in Tokens(s)
    ensures exists i :: IsTokenAt(s, t, i)
    decreases |s|
  {
    if !TokenChar(s[0]) {
      TokensAreRuns(s[1..], t);
      var i :| IsTokenAt(s[1..], t, i);
      TokenShift(s, 1, t, i + 1);
    } else {
      var w := RunLength(s);
      if t == s[..w] {
        assert OccursAt(s, t, 0);
        assert IsTokenAt(s, t, 0);
      } else {
        TokensAreRuns(s[w..], t);
        var i :| IsTokenAt(s[w..], t, i);
        assert i != 0;
        TokenShift(s, w, t, w + i);
      }
    }
  }

  lemma {:induction false} RunsAreTokens(s: string, t: string, i: int)
    requires IsTokenAt(s, t, i)
    ensures t in Tokens(s)
    decreases |s|
  {
    if !TokenChar(s[0]) {
      assert i != 0;
      TokenShift(s, 1, t, i);
      RunsAreTokens(s[1..], t, i - 1);
    } else {
      var w := RunLength(s);
      if i == 0 {
        assert |t| == w;
        assert t == s[..w];
      } else if i <= w {
        assert false;
      } else {
        TokenShift(s, w, t, i);
        RunsAreTokens(s[w..], t, i - w);
      }
    }
  }

  /** The body's tokens are exactly its maximal runs of token characters. */
  lemma TokensAreMaximalRuns(s: string, t: string)
    ensures t in Tokens(s) <==> exists i :: IsTokenAt(s, t, i)
  {
    if t in Tokens(s) {
      TokensAreRuns(s, t);
    }
    if exists i :: IsTokenAt(s, t, i) {
      var i :| IsTokenAt(s, t, i);
      RunsAreTokens(s, t, i);
    }
  }

  // ---------------------------------------------------------------------
  // the `%` wildcard on the body: QuoteMeta, then `%` becomes `.*`

  predicate NoNewline(s: string) {
    forall k :: 0 <= k < |s| ==> s[k] != '\n'
  }

  /** The pieces match `s` from its start, each gap free of newlines (`.`
      does not match a newline). */
  predicate GlobFrom(pieces: seq<string>, s: string)
    requires |pieces| >= 1
    decreases |pieces|
  {
    && IsPrefix(pieces[0], s)
    && (|pieces| == 1 ||
        exists k :: |pieces[0]| <= k <= |s| && NoNewline(s[|pieces[0]|..k]) && GlobFrom(pieces[1..], s[k..]))
  }

  /** The unanchored match of the wildcard pattern `v` in `s`. */
  predicate Glob(v: string, s: string) {
    exists i :: 0 <= i <= |s| && GlobFrom(SplitOn(v, '%'), s[i..])
  }

  /** `%w%` matches exactly the texts that contain `w`. */
  lemma SurroundedWildcardIsContains(w: string, s: string)
    requires '%' !in w
    ensures Glob("%" + w + "%", s) <==> Contains(s, w)
  {
    SurroundedPieces(w);
    if Glob("%" + w + "%", s) {
      SurroundedMatchContains(w, s);
    }
    if Contains(s, w) {
      ContainsMatchesSurrounded(w, s);
    }
  }

  lemma SurroundedPieces(w: string)
    requires '%' !in w
    ensures SplitOn("%" + w + "%", '%') == ["", w, ""]
  {
    var v := "%" + w + "%";
    assert v[1..] == w + ['%'] + [];
    SplitTwo(w, [], '%');
  }

  lemma SurroundedMatchContains(w: string, s: string)
    requires SplitOn("%" + w + "%", '%') == ["", w, ""]
    requires Glob("%" + w + "%", s)
    ensures Contains(s, w)
  {
    var pieces := ["", w, ""];
    var i :| 0 <= i <= |s| && GlobFrom(pieces, s[i..]);
    var k :| 0 <= k <= |s[i..]| && NoNewline(s[i..][0..k]) && GlobFrom(pieces[1..], s[i..][k..]);
    assert pieces[1..] == [w, ""];
    assert IsPrefix(w, s[i..][k..]);
    assert s[i + k..i + k + |w|] == s[i..][k..][..|w|];
    assert OccursAt(s, w, i + k);
  }

  lemma ContainsMatchesSurrounded(w: string, s: string)
    requires SplitOn("%" + w + "%", '%') == ["", w, ""]
    requires Contains(s, w)
    ensures Glob("%" + w + "%", s)
  {
    var pieces := ["", w, ""];
    var j :| 0 <= j <= |s| && OccursAt(s, w, j);
    var t := s[j..];
    assert IsPrefix(w, t);
    assert NoNewline(t[|w|..|w|]);
    assert [w, ""][1..] == [""];
    assert GlobFrom([""], t[|w|..]);
    assert GlobFrom([w, ""], t);
    assert t[0..] == t;
    assert NoNewline(t[0..0]);
    assert pieces[1..] == [w, ""];
    assert GlobFrom(pieces, t);
  }

  /** `er%or` matches `eror`: the wildcard may match nothing. */
  lemma WildcardMayBeEmpty()
    ensures Glob("er%or", "eror")
  {
    SplitTwo("er", "or", '%');
    assert "er" + ['%'] + "or" == "er%or";
    assert "eror"[0..] == "eror";
    assert "eror"[2..] == "or";
    assert NoNewline("eror"[2..2]);
    assert GlobFrom(["or"], "eror"[2..]);
    assert GlobFrom(["er", "or"], "eror"[0..]);
  }

  // ---------------------------------------------------------------------
  // resolving a leaf's key to the row value

  /** strings.SplitN(key, "_", 2) */
  function FieldParts(key: string): (r: seq<string>)
    ensures 1 <= |r| <= 2
    ensures |r| == 1 <==> '_' !in key
  {
    if '_' !in key then [key]
    else
      var i := FirstIndex(key, '_');
      [key[..i], key[i + 1..]]
  }

  function FirstIndex(s: string, c: char): (i: nat)
    requires c in s
    ensures i < |s| && s[i] == c && c !in s[..i]
  {
    if s[0] == c then 0 else 1 + FirstIndex(s[1..], c)
  }

  /** The scan of an attribute slice for the entry whose type and name are
      the two parts of the key. The name part is only read once an entry's
      type equals the first part, and a key without `_` has no name part:
      reading it panics. */
  function SliceLookup(items: seq<Attribute>, parts: seq<string>, i: nat): Run<string>
    requires 1 <= |parts| && i <= |items|
    decreases |items| - i
  {
    if i == |items| then Returns("")
    else if items[i].typ == parts[0] then
      if |parts| < 2 then Panics
      else if items[i].name == parts[1] then Returns(items[i].value)
      else SliceLookup(items, parts, i + 1)
    else SliceLookup(items, parts, i + 1)
  }

  /** The value of `key` in the attribute column: a map lookup (a missing
      key is the invalid Value), or the slice scan, or "" for other kinds. */
  function AttributeValue(column: Option<FieldValue>, key: string): Run<string> {
    match column
    case Some(MapField(_, entries)) => Returns(if key in entries then entries[key] else GoString(None))
    case Some(SliceField(_, items)) => SliceLookup(items, FieldParts(key), 0)
    case _ => Returns("")
  }

  /** The row value a non-body leaf compares with, in resolution order:
      the known-column mapping, a direct field, a dotted path, the attribute
      column. `None` is the "invalid filter" case. */
  function ResolveRowValue(row: Row, config: TableConfig, key: string): (r: Run<Option<string>>)
    ensures key in config.keysToColumns ==> r != Returns(None)
    ensures key !in config.keysToColumns && key in row ==> r == Returns(Some(Repr(Some(row[key]))))
    ensures r == Returns(None) ==>
      key !in config.keysToColumns && key !in row && config.attributesColumn("") == ""
    ensures '.' !in key && key in config.keysToColumns && '.' !in config.keysToColumns[key] ==> r.Returns?
  {
    if key in config.keysToColumns then
      var chKey := config.keysToColumns[key];
      match GetChildValue(row, chKey)
      case Panics => Panics
      case Returns(Some(v)) => Returns(Some(v))
      case Returns(None) => Returns(Some(Repr(Field(row, chKey))))
    else if key in row then Returns(Some(Repr(Some(row[key]))))
    else
      match GetChildValue(row, key)
      case Panics => Panics
      case Returns(Some(v)) => Returns(Some(v))
      case Returns(None) =>
        var col := config.attributesColumn("");
        if col == "" then Returns(None)
        else
          match AttributeValue(Field(row, col), key)
          case Panics => Panics
          case Returns(v) => Returns(Some(v))
  }

  // ---------------------------------------------------------------------
  // comparing values

  /** Whether one filter value accepts the row value. */
  function ValuePasses(op: Op, v: string, rowValue: string, rx: Regexp): (b: bool)
    ensures op == RegExp && !rx.compiles(v) ==> b
    ensures op != RegExp && '%' in v && !rx.compiles(ReplaceChar(v, '%', ".*")) ==> !b
    ensures op != RegExp && op != NotEqual && '%' !in v ==> (b <==> rowValue == v)
    ensures op == NotEqual && '%' !in v && '-' !in v ==> (b <==> rowValue != v)
  {
    if op == RegExp then rx.compiles(v) ==> rx.matches(v, rowValue)
    else if '%' in v then
      var pattern := ReplaceChar(v, '%', ".*");
      rx.compiles(pattern) && rx.matches(pattern, rowValue)
    else if op == NotEqual then rowValue != RemoveFirst(v, '-')
    else v == rowValue
  }

  /** Whether one filter value accepts the body. */
  predicate BodyValuePasses(op: Op, v: string, body: string, rx: Regexp) {
    if op == RegExp then rx.compiles(v) ==> rx.matches(v, body)
    else if '%' in v then Glob(v, body)
    else v in Tokens(body)
  }

  /** The loop over a leaf's values, returning false at the first value
      that fails. */
  function CheckValues(values: seq<string>, passes: string -> bool): bool {
    if values == [] then true
    else if !passes(values[0]) then false
    else CheckValues(values[1..], passes)
  }

  lemma {:induction false} CheckValuesIsForall(values: seq<string>, passes: string -> bool)
    ensures CheckValues(values, passes) <==> forall i :: 0 <= i < |values| ==> passes(values[i])
  {
    if values != [] {
      CheckValuesIsForall(values[1..], passes);
      if forall i :: 1 <= i < |values| ==> passes(values[i]) {
        assert forall i :: 0 <= i < |values| - 1 ==> passes(values[1..][i]);
      }
      if CheckValues(values, passes) {
        forall i | 0 <= i < |values|
          ensures passes(values[i])
        {
          if i > 0 {
            assert values[i] == values[1..][i - 1];
          }
        }
      }
    }
  }

  /** A leaf's outcome. */
  datatype Verdict = Matched(ok: bool) | InvalidFilter(msg: string) | Crashed

  predicate IsBodyFilter(config: TableConfig, f: Filter) {
    config.bodyColumn != "" && f.column == "" && UnwrapKey(f.key) == config.bodyColumn
  }

  /** `matchFilter` */
  function MatchFilter(row: Row, config: TableConfig, rx: Regexp, f: Filter): (r: Verdict)
    ensures IsBodyFilter(config, f) ==> r.Matched?
    ensures r.Crashed? <==> !IsBodyFilter(config, f) && ResolveRowValue(row, config, UnwrapKey(f.key)).Panics?
    ensures r.InvalidFilter? <==> !IsBodyFilter(config, f) && ResolveRowValue(row, config, UnwrapKey(f.key)) == Returns(None)
  {
    var key := UnwrapKey(f.key);
    if IsBodyFilter(config, f) then
      var body := GoString(Field(row, config.bodyColumn));
      Matched(CheckValues(f.values, v => BodyValuePasses(f.op, v, body, rx)))
    else
      match ResolveRowValue(row, config, key)
      case Panics => Crashed
      case Returns(None) => InvalidFilter("invalid filter " + key)
      case Returns(Some(rowValue)) => Matched(CheckValues(f.values, v => ValuePasses(f.op, v, rowValue, rx)))
  }

  // ---------------------------------------------------------------------
  // evaluating the tree

  /** What one filter of a list does: let the list go on, end it with a
      result, or panic. */
  datatype Step = Continue | Stop(result: bool) | Crash

  /** `matchesQuery(row, config, Filters{f}, op)` */
  function Single(row: Row, config: TableConfig, rx: Regexp, f: Filter, op: Op): Run<bool>
    decreases f, 2
  {
    match Eval(row, config, rx, f, op)
    case Continue => Returns(true)
    case Stop(b) => Returns(b)
    case Crash => Panics
  }

  /** One iteration of `matchesQuery`'s loop: `op` is the operator of the
      enclosing node, which decides what an invalid leaf means. */
  function Eval(row: Row, config: TableConfig, rx: Regexp, f: Filter, op: Op): Step
    decreases f, 1
  {
    match f.op
    case And => AllChildren(row, config, rx, f, 0)
    case Or => AnyChild(row, config, rx, f, 0)
    case Not =>
      if f.children == [] then Crash
      else
        (match Single(row, config, rx, f.children[0], Not)
         case Returns(b) => Stop(!b)
         case Panics => Crash)
    case _ =>
      match MatchFilter(row, config, rx, f)
      case Crashed => Crash
      case InvalidFilter(_) => if op == Or then Stop(false) else Stop(true)
      case Matched(m) => if m then Continue else Stop(false)
  }

  function AllChildren(row: Row, config: TableConfig, rx: Regexp, f: Filter, j: nat): Step
    requires j <= |f.children|
    decreases f, 0, |f.children| - j
  {
    if j == |f.children| then Continue
    else
      match Single(row, config, rx, f.children[j], And)
      case Panics => Crash
      case Returns(b) => if b then AllChildren(row, config, rx, f, j + 1) else Stop(false)
  }

  function AnyChild(row: Row, config: TableConfig, rx: Regexp, f: Filter, j: nat): Step
    requires j <= |f.children|
    decreases f, 0, |f.children| - j
  {
    if j == |f.children| then Stop(false)
    else
      match Single(row, config, rx, f.children[j], Or)
      case Panics => Crash
      case Returns(b) => if b then Continue else AnyChild(row, config, rx, f, j + 1)
  }

  /** `matchesQuery`: the filters of a list are a conjunction, except that a
      filter which ends the list decides it alone. */
  function MatchesQuery(row: Row, config: TableConfig, rx: Regexp, filters: seq<Filter>, op: Op): (r: Run<bool>)
    ensures filters == [] ==> r == Returns(true)
    ensures (forall i :: 0 <= i < |filters| ==> Eval(row, config, rx, filters[i], op).Continue?) ==> r == Returns(true)
    ensures r.Panics? ==> exists i :: 0 <= i < |filters| && Eval(row, config, rx, filters[i], op).Crash?
    ensures r == Returns(false) ==> exists i :: 0 <= i < |filters| && Eval(row, config, rx, filters[i], op) == Stop(false)
    decreases |filters|
  {
    if filters == [] then Returns(true)
    else
      match Eval(row, config, rx, filters[0], op)
      case Continue => MatchesQuery(row, config, rx, filters[1..], op)
      case Stop(b) => Returns(b)
      case Crash => Panics
  }

  // ---------------------------------------------------------------------
  // what the evaluation guarantees

  /** A singleton list is the filter itself: the recursive calls of
      `matchesQuery` on `Filters{child}` are `Single`. */
  lemma SingleIsSingletonList(row: Row, config: TableConfig, rx: Regexp, f: Filter, op: Op)
    ensures Single(row, config, rx, f, op) == MatchesQuery(row, config, rx, [f], op)
  {
    assert [f][1..] == [];
  }

  lemma {:induction false} AllChildrenFrom(row: Row, config: TableConfig, rx: Regexp, f: Filter, j: nat)
    requires j <= |f.children|
    requires forall k :: j <= k < |f.children| ==> Single(row, config, rx, f.children[k], And).Returns?
    ensures AllChildren(row, config, rx, f, j) ==
      if forall k :: j <= k < |f.children| ==> Single(row, config, rx, f.children[k], And).value then Continue
      else Stop(false)
    decreases |f.children| - j
  {
    if j < |f.children| {
      AllChildrenFrom(row, config, rx, f, j + 1);
    }
  }

  /** AND matches exactly when every child matches. */
  lemma AndNeedsEveryChild(row: Row, config: TableConfig, rx: Regexp, f: Filter, op: Op)
    requires f.op == And
    requires forall k :: 0 <= k < |f.children| ==> Single(row, config, rx, f.children[k], And).Returns?
    ensures Single(row, config, rx, f, op) ==
      Returns(forall k :: 0 <= k < |f.children| ==> Single(row, config, rx, f.children[k], And).value)
  {
    AllChildrenFrom(row, config, rx, f, 0);
  }

  lemma {:induction false} AnyChildFrom(row: Row, config: TableConfig, rx: Regexp, f: Filter, j: nat)
    requires j <= |f.children|
    requires forall k :: j <= k < |f.children| ==> Single(row, config, rx, f.children[k], Or).Returns?
    ensures AnyChild(row, config, rx, f, j) ==
      if exists k :: j <= k < |f.children| && Single(row, config, rx, f.children[k], Or).value then Continue
      else Stop(false)
    decreases |f.children| - j
  {
    if j < |f.children| {
      AnyChildFrom(row, config, rx, f, j + 1);
    }
  }

  /** OR matches exactly when some child matches. */
  lemma OrNeedsSomeChild(row: Row, config: TableConfig, rx: Regexp, f: Filter, op: Op)
    requires f.op == Or
    requires forall k :: 0 <= k < |f.children| ==> Single(row, config, rx, f.children[k], Or).Returns?
    ensures Single(row, config, rx, f, op) ==
      Returns(exists k :: 0 <= k < |f.children| && Single(row, config, rx, f.children[k], Or).value)
  {
    AnyChildFrom(row, config, rx, f, 0);
  }

  /** NOT negates its first child and ignores the others; without a child
      it panics (index out of range). */
  lemma NotNegatesFirstChild(row: Row, config: TableConfig, rx: Regexp, f: Filter, op: Op)
    requires f.op == Not
    ensures f.children == [] ==> Single(row, config, rx, f, op) == Panics
    ensures f.children != [] && Single(row, config, rx, f.children[0], Not).Returns? ==>
      Single(row, config, rx, f, op) == Returns(!Single(row, config, rx, f.children[0], Not).value)
  {
  }

  /** A filter that stops the list decides it, whatever follows. */
  lemma {:induction false} FirstStopDecides(row: Row, config: TableConfig, rx: Regexp, filters: seq<Filter>, op: Op, k: nat, b: bool)
    requires k < |filters|
    requires forall i :: 0 <= i < k ==> Eval(row, config, rx, filters[i], op) == Continue
    requires Eval(row, config, rx, filters[k], op) == Stop(b)
    ensures MatchesQuery(row, config, rx, filters, op) == Returns(b)
  {
    if k > 0 {
      FirstStopDecides(row, config, rx, filters[1..], op, k - 1, b);
    }
  }

  /** Without a filter that panics or ends the list as a match, a list is
      the conjunction of its filters. */
  lemma {:induction false} ListIsConjunction(row: Row, config: TableConfig, rx: Regexp, filters: seq<Filter>, op: Op)
    requires forall i :: 0 <= i < |filters| ==>
      Eval(row, config, rx, filters[i], op) in {Continue, Stop(false)}
    ensures MatchesQuery(row, config, rx, filters, op) ==
      Returns(forall i :: 0 <= i < |filters| ==> Eval(row, config, rx, filters[i], op) == Continue)
  {
    if filters != [] {
      ListIsConjunction(row, config, rx, filters[1..], op);
      assert forall i :: 1 <= i < |filters| ==> filters[i] == filters[1..][i - 1];
    }
  }

  /** A leaf whose key resolves to nothing is a non-match under OR and a
      match otherwise, and as a match it ends the list: later filters of
      the same list are not looked at. */
  lemma InvalidLeafEndsList(row: Row, config: TableConfig, rx: Regexp, leaf: Filter, rest: seq<Filter>, op: Op)
    requires leaf.op !in {And, Or, Not} && MatchFilter(row, config, rx, leaf).InvalidFilter?
    ensures MatchesQuery(row, config, rx, [leaf] + rest, op) == Returns(op != Or)
    ensures Single(row, config, rx, Filter("", "", Not, [], [leaf]), op) == Returns(false)
  {
    FirstStopDecides(row, config, rx, [leaf] + rest, op, 0, op != Or);
    assert Eval(row, config, rx, leaf, Not) == Stop(true);
    assert Single(row, config, rx, leaf, Not) == Returns(true);
    var not := Filter("", "", Not, [], [leaf]);
    assert not.children[0] == leaf;
    assert Eval(row, config, rx, not, op) == Stop(false);
  }

  /** A leaf whose key resolves matches exactly when every value accepts
      the row value. */
  lemma LeafNeedsEveryValue(row: Row, config: TableConfig, rx: Regexp, f: Filter, rowValue: string)
    requires !IsBodyFilter(config, f)
    requires ResolveRowValue(row, config, UnwrapKey(f.key)) == Returns(Some(rowValue))
    ensures MatchFilter(row, config, rx, f) ==
      Matched(forall i :: 0 <= i < |f.values| ==> ValuePasses(f.op, f.values[i], rowValue, rx))
  {
    CheckValuesIsForall(f.values, v => ValuePasses(f.op, v, rowValue, rx));
  }

  /** A body leaf matches exactly when every value accepts the body. */
  lemma BodyLeafNeedsEveryValue(row: Row, config: TableConfig, rx: Regexp, f: Filter)
    requires IsBodyFilter(config, f)
    ensures MatchFilter(row, config, rx, f) == Matched(forall i :: 0 <= i < |f.values| ==>
      BodyValuePasses(f.op, f.values[i], GoString(Field(row, config.bodyColumn)), rx))
  {
    var body := GoString(Field(row, config.bodyColumn));
    CheckValuesIsForall(f.values, v => BodyValuePasses(f.op, v, body, rx));
  }

  /** Without `_` in the key, the slice scan panics on the first entry whose
      type is the whole key, and finds nothing when there is none. */
  lemma {:induction false} SliceKeyWithoutUnderscore(items: seq<Attribute>, key: string, j: nat)
    requires '_' !in key && j <= |items|
    ensures SliceLookup(items, FieldParts(key), j) ==
      if exists i :: j <= i < |items| && items[i].typ == key then Panics else Returns("")
    decreases |items| - j
  {
    if j < |items| {
      SliceKeyWithoutUnderscore(items, key, j + 1);
    }
  }

  /** With `_` in the key, the scan returns the value of the first entry
      whose type and name are the key's two parts, or "" when none is. */
  lemma {:induction false} SliceKeyWithUnderscore(items: seq<Attribute>, parts: seq<string>, j: nat)
    requires |parts| == 2 && j <= |items|
    ensures var r := SliceLookup(items, parts, j);
      if exists i :: j <= i < |items| && items[i].typ == parts[0] && items[i].name == parts[1] then
        exists i :: j <= i < |items| && items[i].typ == parts[0] && items[i].name == parts[1]
          && r == Returns(items[i].value)
          && forall e :: j <= e < i ==> !(items[e].typ == parts[0] && items[e].name == parts[1])
      else r == Returns("")
    decreases |items| - j
  {
    if j < |items| {
      SliceKeyWithUnderscore(items, parts, j + 1);
    }
  }

  /** Not-equal drops the first `-` of the value only: `a-b` excludes rows
      whose value is `ab`. */
  lemma NotEqualDropsFirstDash(rx: Regexp)
    ensures !ValuePasses(NotEqual, "a-b", "ab", rx)
    ensures ValuePasses(NotEqual, "a-b", "a-b", rx)
  {
    assert RemoveFirst("a-b", '-') == "ab" by {
      assert "a-b"[1..] == "-b";
      assert RemoveFirst("-b", '-') == "b";
    }
  }
}
