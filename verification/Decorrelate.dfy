/** Correlated aggregate subqueries answered from one grouped pass over the inner rows. */
module Decorrelate {
  import opened Collections
  import opened Values
  import opened Expressions
  import opened Aggregates
  import opened GroupBy
  import opened KeyRendering

  /** SELECT agg(operand) FROM aliases WHERE filter, without grouping, limits or compounds. */
  datatype AggQuery = AggQuery(aliases: set<string>, agg: Aggregate, operand: Option<Expr>, filter: Expr)

  datatype Keys = Keys(inner: Ref, outer: Ref)

  predicate BelongsTo(ref: Ref, aliases: set<string>) {
    ref.tbl != "" && ref.tbl in aliases
  }

  /** correlatedAggSpec: the filter must equate one inner column with one that is not inner. */
  function Spec(q: AggQuery): (keys: Option<Keys>)
    ensures keys.Some? ==> BelongsTo(keys.value.inner, q.aliases) && !BelongsTo(keys.value.outer, q.aliases)
  {
    if q.filter.Binary? && q.filter.op == Eq && q.filter.left.ColumnRef? && q.filter.right.ColumnRef? then
      var l := Ref(q.filter.left.table, q.filter.left.column);
      var r := Ref(q.filter.right.table, q.filter.right.column);
      if BelongsTo(l, q.aliases) == BelongsTo(r, q.aliases) then None
      else if BelongsTo(l, q.aliases) then Some(Keys(l, r))
      else Some(Keys(r, l))
    else None
  }

  // ---- the subquery itself ----

  function Under(env: Env, outer: Option<Row>): Env {
    env.(outer := outer)
  }

  function ValueOf(env: Env, ref: Ref, row: Row): Value {
    OrNull(EvalColumnRef(env, ref.tbl, ref.col, Some(row)))
  }

  function Matching(env: Env, filter: Expr, rows: seq<Row>): (kept: seq<Row>)
    ensures |kept| <= |rows|
  {
    if rows == [] then []
    else
      var n := |rows| - 1;
      var v := Eval(env, filter, Some(rows[n]));
      Matching(env, filter, rows[..n]) + (if v.Ok? && ToBool(v.value) then [rows[n]] else [])
  }

  /** The subquery evaluated afresh for one outer row. */
  function Correlated(env: Env, q: AggQuery, rows: Rows, outerRow: Row): Value {
    var inside := Under(env, Some(outerRow));
    CollectedValue(env.lib, q.agg, OperandOf(inside, q.operand), Matching(inside, q.filter, rows))
  }

  // ---- conditions ----

  /** The outer row has no part in the reference: the inner row answers it, or the outer row does not
      have the names the lookup goes on to where an inner row lacks the column. */
  predicate ReadsInner(ref: Ref, row: Row, outerRow: Row) {
    if ref.tbl == "" then Bare(ref.col) in row || Bare(ref.col) !in outerRow
    else Qual(ref.tbl, ref.col) !in outerRow && (Qual(ref.tbl, ref.col) in row || Bare(ref.col) !in outerRow)
  }

  /** The column is not found by a name of its own in the outer row nor further out. */
  predicate Unknown(env: Env, key: Key, outerRow: Row) {
    key !in outerRow && (env.outer.Some? ==> key !in env.outer.value)
  }

  /** The inner row has no part in the reference: the outer row answers it, or neither row does where
      an outer row lacks the column. */
  predicate ReadsOuter(env: Env, ref: Ref, row: Row, outerRow: Row) {
    var bare, qual := Bare(ref.col), Qual(ref.tbl, ref.col);
    if ref.tbl == "" then
      bare !in row &&
      if bare in outerRow then env.currentTime(ref.col).None?
      else env.currentTime(ref.col).Some? || (Unknown(env, bare, outerRow) && !IsRowIDColumn(ref.col))
    else
      && (env.outer.Some? ==> qual !in env.outer.value)
      && (qual in outerRow
          || (qual !in row && (env.outer.Some? ==> bare !in env.outer.value)
              && (bare in outerRow || (bare !in row && !IsRowIDColumn(ref.col)))))
  }

  lemma InnerLookup(env: Env, ref: Ref, row: Row, outerRow: Row)
    requires ReadsInner(ref, row, outerRow)
    ensures EvalColumnRef(Under(env, None), ref.tbl, ref.col, Some(row))
         == EvalColumnRef(Under(env, Some(outerRow)), ref.tbl, ref.col, Some(row))
  {
  }

  lemma OuterLookup(env: Env, ref: Ref, row: Row, outerRow: Row)
    requires ReadsOuter(env, ref, row, outerRow)
    ensures EvalColumnRef(Under(env, Some(outerRow)), ref.tbl, ref.col, Some(row))
         == EvalColumnRef(env, ref.tbl, ref.col, Some(outerRow))
  {
  }

  ghost predicate OperandReadsInner(operand: Option<Expr>, row: Row, outerRow: Row) {
    operand.Some? ==>
      !HasSubquery(operand.value) && forall ref <- TableRefs(operand.value) :: ReadsInner(ref, row, outerRow)
  }

  /** The aggregate reads only inner columns and each side of the equality is what its alias says. */
  ghost predicate Separated(env: Env, q: AggQuery, keys: Keys, rows: seq<Row>, outerRow: Row) {
    forall row <- rows ::
      && ReadsInner(keys.inner, row, outerRow)
      && ReadsOuter(env, keys.outer, row, outerRow)
      && OperandReadsInner(q.operand, row, outerRow)
  }

  /** On the inner key `k` and the outer key `o`, looking up agrees with comparing. */
  predicate KeyAgrees(lib: Library, k: Value, o: Value) {
    if k == Null then Render(lib, o) != "<nil>" else RendersLikeCompare(lib, k, o)
  }

  ghost predicate KeysAgree(lib: Library, keyOf: Row -> Value, rows: seq<Row>, o: Value) {
    forall row <- rows :: KeyAgrees(lib, keyOf(row), o)
  }

  // ---- the rows a lookup answers for ----

  function InnerKey(env: Env, keys: Keys): Row -> Value {
    row => ValueOf(Under(env, None), keys.inner, row)
  }

  function Rendered(lib: Library, keyOf: Row -> Value): Row -> string {
    row => Render(lib, keyOf(row))
  }

  function EqualRows(lib: Library, keyOf: Row -> Value, rows: seq<Row>, o: Value): (kept: seq<Row>)
    ensures |kept| <= |rows|
  {
    if rows == [] then []
    else
      var n := |rows| - 1;
      var k := keyOf(rows[n]);
      EqualRows(lib, keyOf, rows[..n], o)
        + (if k != Null && o != Null && Compare(lib, k, o) == 0 then [rows[n]] else [])
  }

  /** The filter keeps the rows whose inner key equals the outer one. */
  lemma {:induction false} MatchingIsEqual(env: Env, q: AggQuery, keys: Keys, rows: seq<Row>, outerRow: Row)
    requires Spec(q) == Some(keys) && Separated(env, q, keys, rows, outerRow)
    ensures Matching(Under(env, Some(outerRow)), q.filter, rows)
         == EqualRows(env.lib, InnerKey(env, keys), rows, ValueOf(env, keys.outer, outerRow))
  {
    if rows != [] {
      var n := |rows| - 1;
      MatchingIsEqual(env, q, keys, rows[..n], outerRow);
      var row, inside := rows[n], Under(env, Some(outerRow));
      assert row in rows;
      InnerLookup(env, keys.inner, row, outerRow);
      OuterLookup(env, keys.outer, row, outerRow);
      var k, o := InnerKey(env, keys)(row), ValueOf(env, keys.outer, outerRow);
      CompareZeroSymmetric(env.lib, k, o);
      KeyFilter(env, q, keys, row, outerRow, k, o);
    }
  }

  lemma KeyFilter(env: Env, q: AggQuery, keys: Keys, row: Row, outerRow: Row, k: Value, o: Value)
    requires Spec(q) == Some(keys)
    requires EvalColumnRef(Under(env, Some(outerRow)), keys.inner.tbl, keys.inner.col, Some(row)) == Ok(k)
    requires EvalColumnRef(Under(env, Some(outerRow)), keys.outer.tbl, keys.outer.col, Some(row)) == Ok(o)
    ensures var v := Eval(Under(env, Some(outerRow)), q.filter, Some(row));
      v.Ok? && (ToBool(v.value) <==> k != Null && o != Null && Compare(env.lib, k, o) == 0)
  {
    CompareZeroSymmetric(env.lib, k, o);
  }

  lemma {:induction false} EqualMembers(lib: Library, keyOf: Row -> Value, rows: seq<Row>, o: Value, row: Row)
    requires o != Null
    ensures row in EqualRows(lib, keyOf, rows, o)
       <==> row in rows && keyOf(row) != Null && Compare(lib, keyOf(row), o) == 0
  {
    if rows != [] {
      var n := |rows| - 1;
      EqualMembers(lib, keyOf, rows[..n], o, row);
      assert row in rows <==> row in rows[..n] || row == rows[n] by {
        assert rows == rows[..n] + [rows[n]];
      }
    }
  }

  lemma LookupMembers(lib: Library, keyOf: Row -> Value, rows: seq<Row>, o: Value, row: Row)
    requires o != Null
    ensures row in GroupRows(Rendered(lib, keyOf), rows, Render(lib, o))
       <==> row in rows && Render(lib, keyOf(row)) == Render(lib, o)
    ensures row in EqualRows(lib, keyOf, rows, o)
       <==> row in rows && keyOf(row) != Null && Compare(lib, keyOf(row), o) == 0
  {
    GroupMembers(Rendered(lib, keyOf), rows, Render(lib, o), row);
    EqualMembers(lib, keyOf, rows, o, row);
  }

  lemma {:induction false} LookupRowsAgree(lib: Library, keyOf: Row -> Value, rows: seq<Row>, o: Value)
    requires o != Null && KeysAgree(lib, keyOf, rows, o)
    ensures GroupRows(Rendered(lib, keyOf), rows, Render(lib, o)) == EqualRows(lib, keyOf, rows, o)
  {
    if rows != [] {
      var n := |rows| - 1;
      assert forall row <- rows[..n] :: row in rows;
      LookupRowsAgree(lib, keyOf, rows[..n], o);
      assert rows[n] in rows && KeyAgrees(lib, keyOf(rows[n]), o);
    }
  }

  /** Without NULL inner keys, the group found under the rendered outer key is the rows equal to
      it exactly when rendering agrees with comparison on every inner key. */
  lemma LookupRowsIff(lib: Library, keyOf: Row -> Value, rows: seq<Row>, o: Value)
    requires o != Null && forall row <- rows :: keyOf(row) != Null
    ensures GroupRows(Rendered(lib, keyOf), rows, Render(lib, o)) == EqualRows(lib, keyOf, rows, o)
       <==> KeysAgree(lib, keyOf, rows, o)
  {
    if KeysAgree(lib, keyOf, rows, o) {
      LookupRowsAgree(lib, keyOf, rows, o);
    } else {
      var row :| row in rows && !KeyAgrees(lib, keyOf(row), o);
      LookupMembers(lib, keyOf, rows, o, row);
    }
  }

  // ---- the cache ----

  datatype Cache = Cache(values: map<string, Value>, defaultValue: Value)

  function Default(agg: Aggregate): Value {
    if agg.name.Count? then Int(0) else Null
  }

  /** An empty group gives the default. */
  lemma EmptyIsDefault(lib: Library, agg: Aggregate, arg: Row -> Value)
    ensures CollectedValue(lib, agg, arg, []) == Default(agg)
  {
    assert Elements<Value>([]) == {};
    assert Renderings(lib, []) == {};
  }

  /** The cache holds, under every rendered key of a group whose first row's key is not NULL,
      the aggregate of the group. */
  ghost predicate Describes(lib: Library, agg: Aggregate, arg: Row -> Value, keyOf: Row -> Value, rows: Rows,
      cache: Cache)
  {
    && cache.defaultValue == Default(agg)
    && forall key: string ::
      var group := GroupRows(Rendered(lib, keyOf), rows, key);
      if group != [] && keyOf(group[0]) != Null
      then key in cache.values && cache.values[key] == RunningValue(lib, agg, arg, group)
      else key !in cache.values
  }

  function Lookup(lib: Library, cache: Cache, o: Value): Value {
    if o == Null then cache.defaultValue
    else if Render(lib, o) in cache.values then cache.values[Render(lib, o)]
    else cache.defaultValue
  }

  /** The lookup gives the aggregate of the rows equal to the outer key, also when the key is
      NULL or matches nothing. */
  lemma LookupMeans(lib: Library, agg: Aggregate, arg: Row -> Value, keyOf: Row -> Value, rows: Rows, cache: Cache,
      o: Value)
    requires Describes(lib, agg, arg, keyOf, rows, cache)
    requires o != Null ==> KeysAgree(lib, keyOf, rows, o)
    ensures Lookup(lib, cache, o) == RunningValue(lib, agg, arg, EqualRows(lib, keyOf, rows, o))
  {
    EmptyIsDefault(lib, agg, arg);
    FormsAgreeIff(lib, agg, arg, []);
    if o == Null {
      NothingEqualsNull(lib, keyOf, rows);
    } else {
      LookupRowsAgree(lib, keyOf, rows, o);
      var group := GroupRows(Rendered(lib, keyOf), rows, Render(lib, o));
      if group != [] {
        LookupMembers(lib, keyOf, rows, o, group[0]);
      }
    }
  }

  lemma {:induction false} NothingEqualsNull(lib: Library, keyOf: Row -> Value, rows: seq<Row>)
    ensures EqualRows(lib, keyOf, rows, Null) == []
  {
    if rows != [] {
      NothingEqualsNull(lib, keyOf, rows[..|rows| - 1]);
    }
  }

  // ---- same operand inside and outside ----

  lemma OperandSame(env: Env, operand: Option<Expr>, row: Row, outerRow: Row)
    requires OperandReadsInner(operand, row, outerRow)
    ensures OperandOf(Under(env, None), operand)(row) == OperandOf(Under(env, Some(outerRow)), operand)(row)
  {
    if operand.Some? {
      forall ref <- TableRefs(operand.value)
        ensures EvalColumnRef(Under(env, None), ref.tbl, ref.col, Some(row))
             == EvalColumnRef(Under(env, Some(outerRow)), ref.tbl, ref.col, Some(row))
      {
        InnerLookup(env, ref, row, outerRow);
      }
      Coincidence(Under(env, None), Under(env, Some(outerRow)), operand.value, Some(row), Some(row));
    }
  }

  lemma {:induction false} ArgumentsSame(f: Row -> Value, g: Row -> Value, rows: seq<Row>)
    requires forall row <- rows :: f(row) == g(row)
    ensures Arguments(f, rows) == Arguments(g, rows)
  {
    if rows != [] {
      var n := |rows| - 1;
      assert forall row <- rows[..n] :: row in rows;
      ArgumentsSame(f, g, rows[..n]);
      assert rows[n] in rows;
    }
  }

  /** Under the stated conditions the lookup is the subquery evaluated afresh. */
  lemma LookupIsCorrelated(env: Env, q: AggQuery, keys: Keys, rows: Rows, outerRow: Row, cache: Cache)
    requires Spec(q) == Some(keys) && FaithfulFor(env, q, keys, rows, outerRow)
    requires Describes(env.lib, q.agg, OperandOf(Under(env, None), q.operand), InnerKey(env, keys), rows, cache)
    ensures Lookup(env.lib, cache, ValueOf(env, keys.outer, outerRow)) == Correlated(env, q, rows, outerRow)
  {
    var o, keyOf := ValueOf(env, keys.outer, outerRow), InnerKey(env, keys);
    var f, g := OperandOf(Under(env, None), q.operand), OperandOf(Under(env, Some(outerRow)), q.operand);
    var matched: Rows := EqualRows(env.lib, keyOf, rows, o);
    LookupMeans(env.lib, q.agg, f, keyOf, rows, cache, o);
    MatchingIsEqual(env, q, keys, rows, outerRow);
    forall row <- matched
      ensures f(row) == g(row)
    {
      if o == Null {
        NothingEqualsNull(env.lib, keyOf, rows);
      } else {
        LookupMembers(env.lib, keyOf, rows, o, row);
        OperandSame(env, q.operand, row, outerRow);
      }
    }
    ArgumentsSame(f, g, matched);
    FormsAgreeIff(env.lib, q.agg, g, matched);
  }

  // ---- the executor ----

  lemma InnerGroups(env: Env, keys: Keys, rows: seq<Row>)
    ensures var byKey := GroupKey(Under(env, None), [ColumnRef(keys.inner.tbl, keys.inner.col)]);
      && KeyOrder(byKey, rows) == KeyOrder(Rendered(env.lib, InnerKey(env, keys)), rows)
      && forall key :: GroupRows(byKey, rows, key) == GroupRows(Rendered(env.lib, InnerKey(env, keys)), rows, key)
  {
    SameGroups(GroupKey(Under(env, None), [ColumnRef(keys.inner.tbl, keys.inner.col)]),
               Rendered(env.lib, InnerKey(env, keys)), rows);
  }

  ghost function FirstKey(lib: Library, keyOf: Row -> Value, rows: seq<Row>, key: string): Value {
    var group := GroupRows(Rendered(lib, keyOf), rows, key);
    if group == [] then Null else keyOf(group[0])
  }

  ghost function GroupValue(lib: Library, agg: Aggregate, arg: Row -> Value, keyOf: Row -> Value, rows: Rows,
      key: string): Value
  {
    RunningValue(lib, agg, arg, GroupRows(Rendered(lib, keyOf), rows, key))
  }

  /** A group's key is the rendered key of its first row. */
  lemma GroupsOfResult(lib: Library, keyOf: Row -> Value, rows: seq<Row>)
    ensures forall key <- KeyOrder(Rendered(lib, keyOf), rows) ::
      GroupRows(Rendered(lib, keyOf), rows, key) != [] && Render(lib, FirstKey(lib, keyOf, rows, key)) == key
  {
    var byKey := Rendered(lib, keyOf);
    forall key <- KeyOrder(byKey, rows)
      ensures GroupRows(byKey, rows, key) != [] && Render(lib, FirstKey(lib, keyOf, rows, key)) == key
    {
      var group := GroupRows(byKey, rows, key);
      assert group != [];
      GroupHasKey(byKey, rows, key);
      assert group[0] in group;
    }
  }

  /** buildCorrelatedAggCache: one GROUP BY of the inner rows by the inner key. */
  method BuildCache(env: Env, q: AggQuery, keys: Keys, rows: Rows) returns (cache: Cache)
    ensures Describes(env.lib, q.agg, OperandOf(Under(env, None), q.operand), InnerKey(env, keys), rows, cache)
  {
    var alone := Under(env, None);
    var inner := ColumnRef(keys.inner.tbl, keys.inner.col);
    var columns := [PlainColumn(alone, inner), AggregateColumn(alone, q.agg, q.operand)];
    var byKey := GroupKey(alone, [inner]);
    InnerGroups(env, keys, rows);
    var result := ExecuteGroupByAccum(env.lib, columns, byKey, rows);
    ghost var keyOf, arg := InnerKey(env, keys), OperandOf(alone, q.operand);
    ghost var first := key => FirstKey(env.lib, keyOf, rows, key);
    ghost var value := key => GroupValue(env.lib, q.agg, arg, keyOf, rows, key);
    GroupsOfResult(env.lib, keyOf, rows);
    ResultEntries(env, q, keys, rows, result);
    var values := Collect(env.lib, result, KeyOrder(byKey, rows), first, value);
    cache := Cache(values, Default(q.agg));
    CollectedDescribes(env.lib, q.agg, arg, keyOf, rows, cache);
  }

  ghost function Entry(env: Env, q: AggQuery, keys: Keys, rows: Rows, key: string): seq<Value> {
    [FirstKey(env.lib, InnerKey(env, keys), rows, key),
     GroupValue(env.lib, q.agg, OperandOf(Under(env, None), q.operand), InnerKey(env, keys), rows, key)]
  }

  /** Each result row is the first key and the aggregate of its group. */
  lemma ResultEntries(env: Env, q: AggQuery, keys: Keys, rows: Rows, result: seq<seq<Value>>)
    requires var alone, inner := Under(env, None), ColumnRef(keys.inner.tbl, keys.inner.col);
      result == RunningResult(env.lib, [PlainColumn(alone, inner), AggregateColumn(alone, q.agg, q.operand)],
                              GroupKey(alone, [inner]), rows)
    ensures var order := KeyOrder(Rendered(env.lib, InnerKey(env, keys)), rows);
      && |result| == |order|
      && forall i :: 0 <= i < |order| ==> result[i] == Entry(env, q, keys, rows, order[i])
  {
    InnerGroups(env, keys, rows);
  }

  lemma CollectedDescribes(lib: Library, agg: Aggregate, arg: Row -> Value, keyOf: Row -> Value, rows: Rows,
      cache: Cache)
    requires cache.defaultValue == Default(agg)
    requires forall key: string ::
      key in cache.values <==> key in KeyOrder(Rendered(lib, keyOf), rows) && FirstKey(lib, keyOf, rows, key) != Null
    requires forall key: string :: key in cache.values ==>
      cache.values[key] == GroupValue(lib, agg, arg, keyOf, rows, key)
    ensures Describes(lib, agg, arg, keyOf, rows, cache)
  {
  }

  /** The loop over the grouped result: rows with a NULL key are dropped. */
  method Collect(lib: Library, result: seq<seq<Value>>, ghost keys: seq<string>, ghost first: string -> Value,
      ghost value: string -> Value)
    returns (values: map<string, Value>)
    requires |result| == |keys|
    requires forall i :: 0 <= i < |keys| ==>
      result[i] == [first(keys[i]), value(keys[i])] && Render(lib, first(keys[i])) == keys[i]
    ensures forall key: string :: key in values <==> key in keys && first(key) != Null
    ensures forall key: string :: key in values ==> values[key] == value(key)
  {
    values := map[];
    for i := 0 to |result|
      invariant forall key: string :: key in values <==> key in keys[..i] && first(key) != Null
      invariant forall key: string :: key in values ==> values[key] == value(key)
    {
      var row := result[i];
      assert keys[..i + 1] == keys[..i] + [keys[i]];
      if row[0] != Null {
        values := values[Render(lib, row[0]) := row[1]];
      }
    }
    assert keys[..|keys|] == keys;
  }

  class Executor {
    const env: Env
    const queries: seq<AggQuery>
    const tables: seq<Rows>
    var cache: map<nat, Cache>

    constructor (env: Env, queries: seq<AggQuery>, tables: seq<Rows>)
      requires |queries| == |tables|
      ensures this.env == env && this.queries == queries && this.tables == tables && Valid()
    {
      this.env, this.queries, this.tables, cache := env, queries, tables, map[];
    }

    ghost predicate Valid()
      reads this
    {
      && |queries| == |tables|
      && forall id :: id in cache ==> id < |queries| && Spec(queries[id]).Some? && Built(id, cache[id])
    }

    ghost predicate Built(id: nat, cached: Cache)
      requires id < |queries| == |tables| && Spec(queries[id]).Some?
    {
      var q := queries[id];
      Describes(env.lib, q.agg, OperandOf(Under(env, None), q.operand),
                InnerKey(env, Spec(q).value), tables[id], cached)
    }

    /** evalDecorrelatedAggSubquery. */
    method Eval(id: nat, outerRow: Row) returns (result: Option<Value>)
      requires Valid() && id < |queries|
      modifies this`cache
      ensures Valid()
      ensures result.Some? <==> Spec(queries[id]).Some?
      ensures result.Some? && Faithful(id, outerRow)
        ==> result.value == Correlated(env, queries[id], tables[id], outerRow)
    {
      var q := queries[id];
      var spec := Spec(q);
      if spec.None? {
        return None;
      }
      var o := ValueOf(env, spec.value.outer, outerRow);
      if id !in cache {
        var built := BuildCache(env, q, spec.value, tables[id]);
        cache := cache[id := built];
      }
      if Faithful(id, outerRow) {
        LookupIsCorrelated(env, q, spec.value, tables[id], outerRow, cache[id]);
      }
      result := Some(Lookup(env.lib, cache[id], o));
    }

    /** The columns are what they seem, keys render as they compare, and a COUNT(DISTINCT) meets
        no two values that render alike. */
    ghost predicate Faithful(id: nat, outerRow: Row)
      requires id < |queries| == |tables|
    {
      Spec(queries[id]).Some? && FaithfulFor(env, queries[id], Spec(queries[id]).value, tables[id], outerRow)
    }
  }

  ghost predicate FaithfulFor(env: Env, q: AggQuery, keys: Keys, rows: Rows, outerRow: Row) {
    var o := ValueOf(env, keys.outer, outerRow);
    && Separated(env, q, keys, rows, outerRow)
    && (o != Null ==> KeysAgree(env.lib, InnerKey(env, keys), rows, o))
    && (CountsDistinct(q.agg) ==> RendersApart(env.lib,
          Arguments(OperandOf(Under(env, None), q.operand), EqualRows(env.lib, InnerKey(env, keys), rows, o))))
  }

}
