/** Shared vocabulary of the ClickHouse query layer: failure-compatible
    wrappers, the string operations the Go code takes from `strings`, the
    metric aggregators and the per-resource table configuration. */
module Common {

  datatype Option<+T> = None | Some(value: T)

  /** An error return: the Go functions return `(value, error)`. */
  datatype Result<+T> = Ok(value: T) | Err(msg: string) {
    predicate IsFailure() { Err? }
    function PropagateFailure<U>(): Result<U>
      requires Err?
    {
      Err(msg)
    }
    function Extract(): T
      requires Ok?
    {
      value
    }
  }

  // ---------------------------------------------------------------------
  // strings

  predicate IsPrefix(p: string, s: string) {
    |p| <= |s| && s[..|p|] == p
  }

  /** strings.HasSuffix */
  predicate HasSuffix(s: string, suffix: string) {
    |suffix| <= |s| && s[|s| - |suffix|..] == suffix
  }

  /** `sub` occurs in `s` starting at index `i`. */
  predicate OccursAt(s: string, sub: string, i: int) {
    0 <= i && i + |sub| <= |s| && s[i..i + |sub|] == sub
  }

  /** strings.Contains: `sub` occurs somewhere in `s`. */
  predicate Contains(s: string, sub: string) {
    exists i :: 0 <= i <= |s| && OccursAt(s, sub, i)
  }

  lemma ContainsMiddle(a: string, sub: string, b: string)
    ensures Contains(a + sub + b, sub)
  {
    assert OccursAt(a + sub + b, sub, |a|);
  }

  /** strings.TrimSuffix */
  function TrimSuffix(s: string, suffix: string): (r: string)
    ensures HasSuffix(s, suffix) ==> r + suffix == s
    ensures !HasSuffix(s, suffix) ==> r == s
  {
    if HasSuffix(s, suffix) then s[..|s| - |suffix|] else s
  }

  function LowerChar(c: char): char {
    if 'A' <= c <= 'Z' then (c as int + 32) as char else c
  }

  /** strings.ToLower, on the ASCII letters. */
  function ToLower(s: string): (r: string)
    ensures |r| == |s|
    ensures forall i :: 0 <= i < |s| ==> r[i] == LowerChar(s[i])
  {
    if s == [] then [] else [LowerChar(s[0])] + ToLower(s[1..])
  }

  /** A string without upper-case letters is its own lower-case form. */
  lemma {:induction false} ToLowerKeepsLower(s: string)
    requires forall i :: 0 <= i < |s| ==> !('A' <= s[i] <= 'Z')
    ensures ToLower(s) == s
  {
    if s != [] {
      ToLowerKeepsLower(s[1..]);
    }
  }

  lemma TimestampLowered()
    ensures ToLower("Timestamp") == "timestamp"
  {
    var tail := "imestamp";
    assert "Timestamp"[1..] == tail;
    ToLowerKeepsLower(tail);
  }

  /** strings.ReplaceAll(s, string(c), "") */
  function RemoveAll(s: string, c: char): (r: string)
    ensures c !in r
    ensures |r| <= |s|
  {
    if s == [] then []
    else if s[0] == c then RemoveAll(s[1..], c)
    else [s[0]] + RemoveAll(s[1..], c)
  }

  /** strings.Replace(s, string(c), "", 1): drop the first occurrence only. */
  function RemoveFirst(s: string, c: char): (r: string)
    ensures c !in s ==> r == s
    ensures c in s ==> |r| == |s| - 1
  {
    if s == [] then []
    else if s[0] == c then s[1..]
    else [s[0]] + RemoveFirst(s[1..], c)
  }

  /** strings.ReplaceAll(s, string(c), rep) */
  function ReplaceChar(s: string, c: char, rep: string): (r: string)
    ensures c !in s ==> r == s
  {
    if s == [] then []
    else (if s[0] == c then rep else [s[0]]) + ReplaceChar(s[1..], c, rep)
  }

  /** strings.Split(s, string(sep)), which always yields at least one piece. */
  function SplitOn(s: string, sep: char): (parts: seq<string>)
    ensures |parts| >= 1
    ensures forall i :: 0 <= i < |parts| ==> sep !in parts[i]
  {
    if s == [] then [""]
    else if s[0] == sep then [""] + SplitOn(s[1..], sep)
    else
      var rest := SplitOn(s[1..], sep);
      [[s[0]] + rest[0]] + rest[1..]
  }

  /** Decimal rendering of an integer (strconv.Itoa / FormatInt(_, 10)). */
  function DigitChar(d: nat): char
    requires d < 10
  {
    ('0' as int + d) as char
  }

  function NatToString(n: nat): (r: string)
    ensures |r| >= 1
    decreases n
  {
    if n < 10 then [DigitChar(n)] else NatToString(n / 10) + [DigitChar(n % 10)]
  }

  function IntToString(i: int): (r: string)
    ensures |r| >= 1
    ensures (r[0] == '-') <==> i < 0
  {
    if i < 0 then "-" + NatToString(-i)
    else
      var s := NatToString(i);
      assert '0' <= s[0] <= '9' by { NatFirstDigit(i); }
      s
  }

  lemma NatFirstDigit(n: nat)
    ensures '0' <= NatToString(n)[0] <= '9'
  {
    if n >= 10 { NatFirstDigit(n / 10); }
  }

  /** Distinct numbers render differently, so names built from indices
      never collide. */
  lemma {:induction false} NatToStringInjective(a: nat, b: nat)
    requires NatToString(a) == NatToString(b)
    ensures a == b
    decreases a + b
  {
    var sa, sb := NatToString(a), NatToString(b);
    if a < 10 && b < 10 {
      assert sa[0] == sb[0];
    } else if a >= 10 && b >= 10 {
      var pa, pb := NatToString(a / 10), NatToString(b / 10);
      assert sa == pa + [DigitChar(a % 10)] && sb == pb + [DigitChar(b % 10)];
      assert sa[|sa| - 1] == DigitChar(a % 10) && sb[|sb| - 1] == DigitChar(b % 10);
      assert pa == sa[..|sa| - 1] && pb == sb[..|sb| - 1];
      NatToStringInjective(a / 10, b / 10);
    }
  }

  function Abs(x: int): nat { if x < 0 then -x else x }

  /** Go's `/` on integers truncates toward zero (Dafny's is Euclidean). */
  function GoDiv(a: int, b: int): (q: int)
    requires b != 0
    ensures a >= 0 && b > 0 ==> q == a / b
    ensures a < 0 && b > 0 ==> q <= 0
  {
    if (a >= 0) == (b > 0) then Abs(a) / Abs(b) else -(Abs(a) / Abs(b))
  }

  // ---------------------------------------------------------------------
  // metric aggregators (modelInputs.MetricAggregator)

  datatype Aggregator =
    | Count | CountDistinctKey | CountDistinct | Min | Avg
    | P50 | P90 | P95 | P99 | Max | Sum
    | OtherAggregator(name: string)

  // ---------------------------------------------------------------------
  // table configuration (model.TableConfig), immutable per request

  /** `attributesColumn(key)` stands for model.GetAttributesColumn applied to
      this table's attribute column mappings: the attribute-map column that
      holds `key`. That registry is not part of this model. */
  datatype TableConfig = TableConfig(
    tableName: string,
    keysToColumns: map<string, string>,
    attributesColumn: string -> string,
    attributesTable: string,
    bodyColumn: string,
    severityColumn: string,
    metricColumn: Option<string>,
    defaultFilter: string,
    selectColumns: seq<string>)
}
