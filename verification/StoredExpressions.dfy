/** Expressions that are persisted with a schema, or evaluated once for a whole statement. */
module StoredExpressions {
  import opened Values
  import opened Expressions

  const SCALARS: set<string> := {
    "LOWER", "UPPER", "LENGTH", "ABS", "COALESCE", "NULLIF", "IFNULL", "NVL", "TYPEOF", "SUBSTR", "SUBSTRING",
    "TRIM", "REPLACE", "PRINTF", "HEX", "UNHEX", "ZEROBLOB", "INSTR", "GLOB", "ROUND", "MAX", "MIN", "CONCAT",
    "PERCENT_DIFF", "ARRAY_LENGTH"
  }

  const JSON_SCALARS: set<string> := {
    "JSON", "JSONB", "JSON_VALID", "JSONB_VALID", "JSON_TYPE", "JSON_EXTRACT", "JSONB_EXTRACT", "JSON_SET",
    "JSONB_SET", "JSON_INSERT", "JSONB_INSERT", "JSON_REPLACE", "JSONB_REPLACE", "JSON_REMOVE", "JSONB_REMOVE",
    "JSON_ARRAY", "JSONB_ARRAY", "JSON_OBJECT", "JSONB_OBJECT", "JSON_QUOTE", "JSONB_QUOTE", "TO_JSONB",
    "JSONB_TYPEOF", "JSONB_ARRAY_LENGTH", "JSONB_STRIP_NULLS", "JSONB_PRETTY", "JSONB_BUILD_OBJECT",
    "JSONB_BUILD_ARRAY"
  }

  /** The allowlist of ValidateDeterministicExpr, less the one-argument MIN and MAX, which are
      aggregates. */
  function Deterministic(): Allowed {
    (name, argCount) => (name in SCALARS || name in JSON_SCALARS) && !((name == "MIN" || name == "MAX") && argCount < 2)
  }

  /** ValidateDeterministicExpr accepts the expression. */
  predicate Validated(e: Expr) {
    Stable(Deterministic(), e)
  }

  /** ValidateIndexColumns accepts it for a table with these columns. */
  predicate ColumnsExist(e: Expr, columns: set<string>) {
    forall ref <- TableRefs(e) :: ref.col != "*" && (IsRowIDColumn(ref.col) || ref.col in columns)
  }

  /** The clock answers some names, none of them an alias of the row id. */
  predicate ClockSparesRowID(env: Env) {
    env.currentTime("rowid").None? && env.currentTime("oid").None? && env.currentTime("_rowid_").None?
  }

  /** An evaluator without an outer query. */
  predicate Stateless(env: Env) {
    env.outer.None? && ClockSparesRowID(env)
  }

  /** A reference depends on the clock exactly when it is unqualified, names a clock keyword and
      the row has no such column. */
  lemma ReadsClockIff(env: Env, ref: Ref, row: Row, clock: string -> Option<Value>)
    requires env.outer.None?
    requires forall name :: env.currentTime(name).Some? <==> clock(name).Some?
    requires forall name :: clock(name).Some? ==> clock(name) != env.currentTime(name)
    ensures
      var now, then' := EvalColumnRef(env, ref.tbl, ref.col, Some(row)),
        EvalColumnRef(env.(currentTime := clock), ref.tbl, ref.col, Some(row));
      now != then' <==> ref.tbl == "" && Bare(ref.col) !in row && clock(ref.col).Some?
  {
  }

  /** What a column that the row lacks is read as. */
  function ClockValue(env: Env, name: string): Value {
    if env.currentTime(name).Some? then env.currentTime(name).value else Null
  }

  /** The row has the column, or the two clocks answer its name alike. A row lacks a nullable column
      that its INSERT omitted. */
  predicate ClocksAgreeOn(e1: Env, e2: Env, row: Row, c: string) {
    Bare(c) in row || ClockValue(e1, c) == ClockValue(e2, c)
  }

  /** A stored expression that passed both validators has one value, whatever executor evaluates it, at
      whatever time, unless the row lacks a column whose name is a clock keyword. */
  lemma StoredValueIsFixed(e1: Env, e2: Env, e: Expr, columns: set<string>, row: Row)
    requires Validated(e) && ColumnsExist(e, columns)
    requires forall c <- columns :: ClocksAgreeOn(e1, e2, row, c)
    requires SameFunctions(Deterministic(), e1, e2) && Stateless(e1) && Stateless(e2)
    ensures Eval(e1, e, Some(row)) == Eval(e2, e, Some(row))
  {
    forall ref <- TableRefs(e)
      ensures EvalColumnRef(e1, ref.tbl, ref.col, Some(row)) == EvalColumnRef(e2, ref.tbl, ref.col, Some(row))
    {
      assert ref.col in columns ==> ClocksAgreeOn(e1, e2, row, ref.col);
    }
    StableCoincidence(Deterministic(), e1, e2, e, Some(row), Some(row));
  }

  ghost predicate HasOneValue(e1: Env, e2: Env, columns: set<string>, row: Row, e: Expr) {
    Validated(e) && ColumnsExist(e, columns) ==> Eval(e1, e, Some(row)) == Eval(e2, e, Some(row))
  }

  /** All expressions that pass both validators have one value on the row exactly when the row has every
      column that the two clocks answer differently. */
  lemma StoredValuesFixedIff(e1: Env, e2: Env, columns: set<string>, row: Row)
    requires "*" !in columns
    requires SameFunctions(Deterministic(), e1, e2) && Stateless(e1) && Stateless(e2)
    ensures (forall e :: HasOneValue(e1, e2, columns, row, e)) <==> forall c <- columns :: ClocksAgreeOn(e1, e2, row, c)
  {
    if forall c <- columns :: ClocksAgreeOn(e1, e2, row, c) {
      forall e
        ensures HasOneValue(e1, e2, columns, row, e)
      {
        if Validated(e) && ColumnsExist(e, columns) {
          StoredValueIsFixed(e1, e2, e, columns, row);
        }
      }
    } else {
      var c :| c in columns && !ClocksAgreeOn(e1, e2, row, c);
      var e := ColumnRef("", c);
      assert TableRefs(e) == [Ref("", c)];
      assert Validated(e) && ColumnsExist(e, columns);
      OmittedReadsClock(e1, e2, c, row);
      assert !HasOneValue(e1, e2, columns, row, e);
    }
  }

  lemma OmittedReadsClock(e1: Env, e2: Env, c: string, row: Row)
    requires Stateless(e1) && Stateless(e2) && !ClocksAgreeOn(e1, e2, row, c)
    ensures Eval(e1, ColumnRef("", c), Some(row)) != Eval(e2, ColumnRef("", c), Some(row))
  {
  }

  /** arrayExpressionIsConstant. */
  predicate IsConstant(e: Expr) {
    ColumnNames(e) == [] && Validated(e)
  }

  /** A constant array operand may be evaluated once for a scan: every row, and no row at all, gives
      it the same value, whatever happens to the outer row and the clock meanwhile. */
  lemma ConstantOperandIsFixed(e1: Env, e2: Env, e: Expr, r1: Option<Row>, r2: Option<Row>)
    requires IsConstant(e) && SameFunctions(Deterministic(), e1, e2)
    ensures Eval(e1, e, r1) == Eval(e2, e, r2)
  {
    assert |ColumnNames(e)| == |TableRefs(e)| + (if HasSubquery(e) then 1 else 0);
    StableCoincidence(Deterministic(), e1, e2, e, r1, r2);
  }

  /** ValidateDeterministicExpr alone does not fix the value: it accepts a clock keyword, which it
      takes for a column. */
  lemma ClockPassesAsColumn(env: Env, clock: string -> Option<Value>)
    requires env.outer.None? && clock("current_date").Some? && env.currentTime("current_date").Some?
    requires clock("current_date") != env.currentTime("current_date")
    ensures var e := ColumnRef("", "current_date");
      && Validated(e)
      && Eval(env, e, Some(map[])) != Eval(env.(currentTime := clock), e, Some(map[]))
      && !ColumnsExist(e, {})
  {
    var e := ColumnRef("", "current_date");
    assert TableRefs(e) == [Ref("", "current_date")];
    assert Ref("", "current_date") in TableRefs(e);
  }

  /** ValidateIndexColumns does not fix it either when the table has a column of that name: a row that
      omits it reads the clock. */
  lemma OmittedColumnReadsClock(env: Env, clock: string -> Option<Value>)
    requires env.outer.None? && clock("current_date") != env.currentTime("current_date")
    requires clock("current_date").Some? && env.currentTime("current_date").Some?
    ensures var e, row: Row := ColumnRef("", "current_date"), map[Bare("id") := Int(1)];
      && Validated(e) && ColumnsExist(e, {"id", "current_date"})
      && Eval(env, e, Some(row)) != Eval(env.(currentTime := clock), e, Some(row))
  {
    assert TableRefs(ColumnRef("", "current_date")) == [Ref("", "current_date")];
  }
}
