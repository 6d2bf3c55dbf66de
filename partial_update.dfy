/** The partial-update helper the models call before an UPDATE
    (`sqlForPartialUpdate`): from a payload it builds the SET clause, one
    `"column"=$i` item per property with the property renamed through a
    JS-to-SQL map, and the list of values to bind. Only what its callers
    rely on is modelled, together with what Postgres then does with the
    clause: it assigns each named column the value bound at that
    placeholder. */
module PartialUpdate {
  import opened Results
  import opened Js

  /** An update payload: property names and their string values, in key
      order. */
  type Payload = seq<(string, string)>

  /** One `"column"=$index` item of the SET clause (placeholders count from 1). */
  datatype SetItem = SetItem(column: string, index: nat)

  /** What the helper returns: the SET items and the values to bind. */
  datatype Update = Update(setCols: seq<SetItem>, values: seq<string>)

  /** The column a payload property writes: `jsToSql[key] || key`. */
  function Column(jsToSql: Object, key: string): (c: string)
    ensures !Truthy(Prop(jsToSql, key)) ==> c == key
    ensures forall s :: Prop(jsToSql, key) == Str(s) && s != "" ==> c == s
  {
    var v := Prop(jsToSql, key);
    if Truthy(v) then Display(v) else key
  }

  /** The payload with its property names renamed to columns. */
  function Renamed(data: Payload, jsToSql: Object): (r: seq<(string, string)>)
    ensures |r| == |data|
    ensures forall i :: 0 <= i < |data| ==> r[i] == (Column(jsToSql, data[i].0), data[i].1)
  {
    if data == [] then []
    else
      var rest := Renamed(data[1..], jsToSql);
      assert forall i :: 1 <= i < |data| ==> data[1..][i - 1] == data[i];
      [(Column(jsToSql, data[0].0), data[0].1)] + rest
  }

  /** The helper itself: an empty payload is refused with "No data";
      otherwise the i-th property (from 0) becomes `"column"=$(i+1)` and its
      value the i-th value to bind. */
  function Build(data: Payload, jsToSql: Object): (r: Result<Update>)
    ensures r.Err? <==> data == []
    ensures r.Err? ==> r.error == BadRequest("No data")
    ensures r.Ok? ==> |r.value.setCols| == |r.value.values| == |data|
    ensures r.Ok? ==> forall i :: 0 <= i < |data| ==>
      r.value.setCols[i] == SetItem(Column(jsToSql, data[i].0), i + 1) && r.value.values[i] == data[i].1
  {
    if data == [] then Err(BadRequest("No data"))
    else
      Ok(Update(seq(|data|, i requires 0 <= i < |data| => SetItem(Column(jsToSql, data[i].0), i + 1)),
                seq(|data|, i requires 0 <= i < |data| => data[i].1)))
  }

  /** The placeholder the callers use for the row selector: `$(values.length+1)`. */
  function SelectorIndex(u: Update): nat {
    |u.values| + 1
  }

  /** The parameter list the callers pass: `[...values, key]`. */
  function Bind(u: Update, key: string): seq<string> {
    u.values + [key]
  }

  /** Every placeholder of the SET clause has a bound parameter. */
  predicate Bound(u: Update, params: seq<string>) {
    forall i :: 0 <= i < |u.setCols| ==> 1 <= u.setCols[i].index <= |params|
  }

  /** The column assignments Postgres performs: each SET item reads the
      parameter its placeholder names. */
  function Assignments(u: Update, params: seq<string>): (r: seq<(string, string)>)
    requires Bound(u, params)
    ensures |r| == |u.setCols|
    ensures forall i :: 0 <= i < |r| ==> r[i] == (u.setCols[i].column, params[u.setCols[i].index - 1])
  {
    seq(|u.setCols|, i requires 0 <= i < |u.setCols| => (u.setCols[i].column, params[u.setCols[i].index - 1]))
  }

  /** What `Build` produces for a non-empty payload: item i is the renamed
      i-th property at placeholder i + 1, and value i is its value. */
  ghost predicate Shaped(u: Update, data: Payload, jsToSql: Object) {
    && |u.setCols| == |u.values| == |data|
    && forall i :: 0 <= i < |data| ==>
         u.setCols[i] == SetItem(Column(jsToSql, data[i].0), i + 1) && u.values[i] == data[i].1
  }

  lemma ShapedBound(u: Update, data: Payload, jsToSql: Object, key: string)
    requires Shaped(u, data, jsToSql)
    ensures Bound(u, Bind(u, key))
    ensures Bind(u, key)[SelectorIndex(u) - 1] == key
    ensures forall i :: 0 <= i < |u.setCols| ==> u.setCols[i].index != SelectorIndex(u)
  {
    assert forall i :: 0 <= i < |u.setCols| ==> u.setCols[i].index == i + 1;
  }

  lemma ShapedAssignments(u: Update, data: Payload, jsToSql: Object, key: string)
    requires Shaped(u, data, jsToSql) && Bound(u, Bind(u, key))
    ensures Assignments(u, Bind(u, key)) == Renamed(data, jsToSql)
  {
    var params := Bind(u, key);
    var a := Assignments(u, params);
    var n := Renamed(data, jsToSql);
    forall i | 0 <= i < |a| ensures a[i] == n[i] {
      assert u.setCols[i] == SetItem(Column(jsToSql, data[i].0), i + 1);
      assert params[i] == u.values[i] == data[i].1;
    }
  }

  /** The binding the callers set up is consistent: the selector placeholder
      reads the key, no SET item reads it, and the columns receive exactly
      the payload's values under their renamed names. */
  lemma BindingFacts(data: Payload, jsToSql: Object, key: string)
    requires data != []
    ensures Build(data, jsToSql).Ok?
    ensures var u := Build(data, jsToSql).value;
      Bound(u, Bind(u, key)) &&
      Bind(u, key)[SelectorIndex(u) - 1] == key &&
      (forall i :: 0 <= i < |u.setCols| ==> u.setCols[i].index != SelectorIndex(u)) &&
      Assignments(u, Bind(u, key)) == Renamed(data, jsToSql)
  {
    var u := Build(data, jsToSql).value;
    assert Shaped(u, data, jsToSql);
    ShapedBound(u, data, jsToSql, key);
    ShapedAssignments(u, data, jsToSql, key);
  }

  // ------------------------------------------------ applying the assignments

  /** The value a partial update names for column `c`, if any. */
  function Lookup(assigns: seq<(string, string)>, c: string): (r: Option<string>)
    ensures r.None? <==> forall i :: 0 <= i < |assigns| ==> assigns[i].0 != c
    ensures r.Some? ==> exists i :: 0 <= i < |assigns| && assigns[i] == (c, r.value)
  {
    if assigns == [] then None
    else if assigns[0].0 == c then Some(assigns[0].1)
    else
      assert forall i :: 1 <= i < |assigns| ==> assigns[1..][i - 1] == assigns[i];
      Lookup(assigns[1..], c)
  }

  /** No column is assigned twice (Postgres refuses that). */
  predicate DistinctColumns(assigns: seq<(string, string)>) {
    forall i, j :: 0 <= i < j < |assigns| ==> assigns[i].0 != assigns[j].0
  }

  /** The value a text column holds once assigned the parameter `v`. */
  function Text(c: string, v: string): Value {
    Str(v)
  }

  /** `setCol` writes exactly one column of those in `cols` as seen by
      `getCol`, and only that one; the column then holds `converted(c, v)`,
      the parameter converted to the column's type. */
  ghost predicate SetsColumn<R(!new)>(setCol: (R, string, string) -> R, getCol: (R, string) -> Value,
                                     converted: (string, string) -> Value, cols: set<string>) {
    forall r: R, c: string, d: string, v: string :: c in cols ==>
      getCol(setCol(r, c, v), d) == if d == c then converted(c, v) else getCol(r, d)
  }

  /** `setCol` never touches `key`. */
  ghost predicate Keeps<R(!new), K(!new)>(setCol: (R, string, string) -> R, key: R -> K) {
    forall r: R, c: string, v: string :: key(setCol(r, c, v)) == key(r)
  }

  /** The row after the assignments, in SET order. */
  function ApplyAll<R>(row: R, assigns: seq<(string, string)>, setCol: (R, string, string) -> R): R
    decreases |assigns|
  {
    if assigns == [] then row else ApplyAll(setCol(row, assigns[0].0, assigns[0].1), assigns[1..], setCol)
  }

  /** Only the supplied columns change, each to its supplied value. */
  lemma {:induction false} ApplyAllGet<R(!new)>(row: R, assigns: seq<(string, string)>, setCol: (R, string, string) -> R,
                                               getCol: (R, string) -> Value, converted: (string, string) -> Value,
                                               cols: set<string>, d: string)
    requires SetsColumn(setCol, getCol, converted, cols)
    requires DistinctColumns(assigns) && forall i :: 0 <= i < |assigns| ==> assigns[i].0 in cols
    ensures getCol(ApplyAll(row, assigns, setCol), d) ==
      match Lookup(assigns, d) case Some(v) => converted(d, v) case None => getCol(row, d)
    decreases |assigns|
  {
    if assigns != [] {
      var next := setCol(row, assigns[0].0, assigns[0].1);
      var rest := assigns[1..];
      assert DistinctColumns(rest) by {
        forall i, j | 0 <= i < j < |rest| ensures rest[i].0 != rest[j].0 {
          assert rest[i] == assigns[i + 1] && rest[j] == assigns[j + 1];
        }
      }
      assert forall i :: 0 <= i < |rest| ==> rest[i] == assigns[i + 1];
      ApplyAllGet(next, rest, setCol, getCol, converted, cols, d);
      if assigns[0].0 == d {
        assert Lookup(rest, d).None? by {
          forall i | 0 <= i < |rest| ensures rest[i].0 != d {
            assert rest[i] == assigns[i + 1];
          }
        }
      }
    }
  }

  lemma {:induction false} ApplyAllKeeps<R(!new), K(!new)>(row: R, assigns: seq<(string, string)>, setCol: (R, string, string) -> R, key: R -> K)
    requires Keeps(setCol, key)
    ensures key(ApplyAll(row, assigns, setCol)) == key(row)
    decreases |assigns|
  {
    if assigns != [] {
      ApplyAllKeeps(setCol(row, assigns[0].0, assigns[0].1), assigns[1..], setCol, key);
    }
  }

  /** What Postgres makes of the SET clause before it looks at any row, for
      a table whose updatable columns are `cols`: a column the table
      does not have, or one assigned twice, is a database error. */
  function CheckColumns(assigns: seq<(string, string)>, cols: set<string>): (r: Option<Error>)
    ensures r.None? <==> DistinctColumns(assigns) && forall i :: 0 <= i < |assigns| ==> assigns[i].0 in cols
    ensures r.Some? ==> r.value.ServerError?
  {
    if exists i :: 0 <= i < |assigns| && assigns[i].0 !in cols then Some(ServerError("column does not exist"))
    else if !DistinctColumns(assigns) then Some(ServerError("multiple assignments to same column"))
    else None
  }
}
