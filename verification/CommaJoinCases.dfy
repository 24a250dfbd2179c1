/** Comma joins whose conjuncts the planner applies where they read something else than on the full row. */
module CommaJoinCases {
  import opened Collections
  import opened Values
  import opened Expressions
  import opened CommaJoinSpec
  import opened CommaJoinUnits
  import opened CommaJoinPlan
  import opened CommaJoinRefs
  import opened CommaJoin

  // ---- what stays visible ----

  /** With no column name shared between tables nothing is hidden by `Visible`. */
  lemma NothingShared(tables: seq<Table>, t: Tuple, order: seq<nat>)
    requires WellFormed(tables)
    requires forall i, j :: 0 <= i < j < |tables| ==> Names(tables[i]) !! Names(tables[j])
    ensures Visible(tables, Merged(tables, t, order)) == Merged(tables, t, order)
  {
    forall k: Key
      ensures Pinned(tables, k)
    {
      forall i, j | 0 <= i < j < |tables|
        ensures !(k.col in Names(tables[i]) && k.col in Names(tables[j]))
      {
        assert Names(tables[i]) !! Names(tables[j]);
      }
    }
  }

  /** Why references must be steady: an unqualified column that two tables share reads
      whichever table was merged last, so a join order is visible to WHERE. */
  lemma SharedNameSeesJoinOrder(env: Env, v: Value, w: Value)
    requires v != w
    ensures
      var l, r := AddTableAlias(map["a" := v], "t1"), AddTableAlias(map["a" := w], "t2");
      Eval(env, ColumnRef("", "a"), Some(l + r)) == Ok(w) && Eval(env, ColumnRef("", "a"), Some(r + l)) == Ok(v)
  {
    var l, r := AddTableAlias(map["a" := v], "t1"), AddTableAlias(map["a" := w], "t2");
    assert Bare("a") in l && Bare("a") in r;
  }

  /** The conditions under which a row-id alias that no table declares is looked up as a row id. */
  ghost predicate RowIDAliased(env: Env, tables: seq<Table>, i: nat, p: nat, j: nat, q: nat, name: string) {
    && WellFormed(tables) && env.outer == None && IsRowIDColumn(name)
    && i < |tables| && j < |tables| && i != j && p < |tables[i].rows| && q < |tables[j].rows|
    && name !in tables[i].rows[p] && name !in tables[j].rows[q]
    && ROW_ID in tables[i].rows[p] && ROW_ID in tables[j].rows[q]
  }

  /** A qualified `rowid` or `oid` reads the row id of the table merged last, whatever its qualifier. */
  lemma RowIDAliasReadsLast(env: Env, tables: seq<Table>, i: nat, p: nat, j: nat, q: nat, name: string)
    requires RowIDAliased(env, tables, i, p, j, q, name)
    ensures var row := Merged(tables, map[i := p, j := q], [i, j]);
      && Read(env, Ref(tables[i].alias, name), row) == tables[j].rows[q][ROW_ID]
      && Read(env, Ref(tables[j].alias, name), row) == tables[j].rows[q][ROW_ID]
  {
    IntruderReads(env, tables, i, Ref(tables[i].alias, name), p, j, q);
    RowIDOfSecond(env, tables, i, p, j, q, name);
  }

  lemma RowIDOfSecond(env: Env, tables: seq<Table>, i: nat, p: nat, j: nat, q: nat, name: string)
    requires RowIDAliased(env, tables, i, p, j, q, name)
    ensures Read(env, Ref(tables[j].alias, name), Merged(tables, map[i := p, j := q], [i, j]))
         == tables[j].rows[q][ROW_ID]
  {
    PairMerged(tables, i, p, j, q);
    SecondRowID(env, tables[i].rows[p], tables[i].alias, tables[j].rows[q], tables[j].alias, name);
  }

  lemma SecondRowID(env: Env, left: Record, l: string, right: Record, r: string, name: string)
    requires env.outer == None && IsRowIDColumn(name) && l != r && r != ""
    requires name !in left && name !in right && ROW_ID in right
    ensures Read(env, Ref(r, name), AddTableAlias(left, l) + AddTableAlias(right, r)) == right[ROW_ID]
  {
    PairFinds(left, l, right, r, name);
    PairFinds(left, l, right, r, ROW_ID);
    ReadIs(env, Ref(r, name), AddTableAlias(left, l) + AddTableAlias(right, r));
  }

  // ---- a conjunct pushed to one table ----

  /** A WHERE that is pushed to one table as a whole is answered exactly when it holds on every row of that
      table alone as on the full row. */
  lemma PushedAnswersIff(env: Env, tables: seq<Table>, condition: Option<Expr>, u: Unit, rows: seq<Row>, c: Expr,
      i: nat)
    requires WellFormed(tables) && Identified(tables) && Planned(env, tables, condition, u, rows)
    requires Conjuncts(condition) == [c] && i < |tables| && PushesTo(tables, c, i)
    ensures AnswersWhere(env, tables, condition, rows) <==> AlwaysAsFull(env, tables, c, i)
  {
    PlanAnswersIff(env, tables, condition, u, rows);
    OneUse(tables, u.uses, c, i);
    FaithfulIff(env, tables, c, i);
  }

  lemma FaithfulIff(env: Env, tables: seq<Table>, c: Expr, i: nat)
    ensures SameAnswers(env, tables, Range(|tables|), [Use(c, [i])], UsesAt([c], FromOrder(|tables|)))
       <==> AlwaysAsFull(env, tables, c, i)
  {
    forall t
      ensures AllHoldAt(env, tables, [Use(c, [i])], t) <==> Holds(env, c, Part(tables, t, i))
      ensures AllHoldAt(env, tables, UsesAt([c], FromOrder(|tables|)), t)
         <==> Holds(env, c, Merged(tables, t, FromOrder(|tables|)))
    {
      OneUseHolds(env, tables, c, [i], t);
      OneUseHolds(env, tables, c, FromOrder(|tables|), t);
      MergedOne(tables, t, i);
    }
    if SameAnswers(env, tables, Range(|tables|), [Use(c, [i])], UsesAt([c], FromOrder(|tables|))) {
      forall t | TupleOver(tables, Range(|tables|), t)
        ensures SameAsFull(env, tables, c, i, t)
      {
      }
    } else {
      var t :| TupleOver(tables, Range(|tables|), t) && !(AllHoldAt(env, tables, [Use(c, [i])], t)
        <==> AllHoldAt(env, tables, UsesAt([c], FromOrder(|tables|)), t));
      assert !SameAsFull(env, tables, c, i, t);
    }
  }

  lemma OneUseHolds(env: Env, tables: seq<Table>, c: Expr, place: seq<nat>, t: Tuple)
    ensures [Use(c, place)] == UsesAt([c], place)
    ensures AllHoldAt(env, tables, [Use(c, place)], t) <==> Holds(env, c, Merged(tables, t, place))
  {
    assert HoldsAt(env, tables, Use(c, place), t) <==> Holds(env, c, Merged(tables, t, place));
  }

  ghost predicate AlwaysAsFull(env: Env, tables: seq<Table>, c: Expr, i: nat) {
    forall t :: TupleOver(tables, Range(|tables|), t) ==> SameAsFull(env, tables, c, i, t)
  }

  ghost predicate SameAsFull(env: Env, tables: seq<Table>, c: Expr, i: nat, t: Tuple) {
    Holds(env, c, Part(tables, t, i)) <==> Holds(env, c, Merged(tables, t, FromOrder(|tables|)))
  }

  lemma OneUse(tables: seq<Table>, uses: seq<Use>, c: Expr, i: nat)
    requires multiset(ClausesOf(uses)) == multiset([c]) && AllMayApply(tables, uses)
    requires i < |tables| && PushesTo(tables, c, i)
    ensures uses == [Use(c, [i])]
  {
    assert |ClausesOf(uses)| == |multiset(ClausesOf(uses))| == 1;
    assert uses[0] in uses;
    UseIsConjunct(uses, [c], uses[0]);
    var j: nat :| j < |tables| && PushesTo(tables, c, j) && uses[0].place == [j];
    PushesToOne(tables, c, i, j);
  }

  lemma PushesToOne(tables: seq<Table>, c: Expr, i: nat, j: nat)
    requires i < |tables| && j < |tables| && PushesTo(tables, c, i) && PushesTo(tables, c, j)
    ensures i == j
  {
    var name :| name in ColumnNames(c) && Declares(tables, i, name);
  }

  /** Two tables with one row each: t1(a) holds x under row id p, t2(b) holds v under row id q. */
  function TwoTables(x: Value, p: Value, v: Value, q: Value): seq<Table> {
    [Table("t1", {"a"}, {ROW_ID}, [map["a" := x, ROW_ID := p]]),
     Table("t2", {"b"}, {ROW_ID}, [map["b" := v, ROW_ID := q]])]
  }

  /** t1.a = t2._rowid_ */
  const HIDDEN_EQUALITY := Binary(Eq, ColumnRef("t1", "a"), ColumnRef("t2", ROW_ID))

  lemma TwoTablesRead(env: Env, x: Value, p: Value, v: Value, q: Value)
    requires env.outer == None
    ensures
      var t1, t2 := AddTableAlias(map["a" := x, ROW_ID := p], "t1"), AddTableAlias(map["b" := v, ROW_ID := q], "t2");
      && EvalColumnRef(env, "t1", "a", Some(t1)) == Ok(x) == EvalColumnRef(env, "t1", "a", Some(t1 + t2))
      && EvalColumnRef(env, "t2", ROW_ID, Some(t1)) == Ok(p)
      && EvalColumnRef(env, "t2", ROW_ID, Some(t1 + t2)) == Ok(q)
  {
    var left, right: Record := map["a" := x, ROW_ID := p], map["b" := v, ROW_ID := q];
    PairFinds(left, "t1", right, "t2", "a");
    PairFinds(left, "t1", right, "t2", ROW_ID);
    var t1 := AddTableAlias(left, "t1");
    assert Bare(ROW_ID) in t1 && Qual("t1", "a") in t1 && Qual("t2", ROW_ID) !in t1;
  }

  lemma EqualityHolds(env: Env, l: Ref, r: Ref, row: Row, a: Value, b: Value)
    requires EvalColumnRef(env, l.tbl, l.col, Some(row)) == Ok(a)
    requires EvalColumnRef(env, r.tbl, r.col, Some(row)) == Ok(b)
    requires a != Null && b != Null
    ensures Holds(env, Binary(Eq, ColumnRef(l.tbl, l.col), ColumnRef(r.tbl, r.col)), row)
       <==> Compare(env.lib, a, b) == 0
  {
    assert Eval(env, ColumnRef(l.tbl, l.col), Some(row)) == Ok(a);
    assert Eval(env, ColumnRef(r.tbl, r.col), Some(row)) == Ok(b);
    assert BinaryValue(env.lib, Eq, a, b) == Ok(Bool(Compare(env.lib, a, b) == 0));
  }

  /** FROM t1, t2 WHERE t1.a = t2._rowid_: the conjunct is pushed to t1, whose rows answer t2._rowid_ with
      their own row id, so no plan answers it where that and t2's row id are told apart by t1.a. */
  lemma HiddenColumnPushed(env: Env, x: Value, p: Value, v: Value, q: Value, u: Unit, rows: seq<Row>)
    requires env.outer == None && x != Null && p != Null && q != Null
    requires Compare(env.lib, x, q) == 0 <==> Compare(env.lib, x, p) != 0
    requires Planned(env, TwoTables(x, p, v, q), Some(HIDDEN_EQUALITY), u, rows)
    ensures PushesTo(TwoTables(x, p, v, q), HIDDEN_EQUALITY, 0)
    ensures !AnswersWhere(env, TwoTables(x, p, v, q), Some(HIDDEN_EQUALITY), rows)
  {
    HiddenIsPushed(x, p, v, q);
    HiddenDiffers(env, x, p, v, q);
    PushedAnswersIff(env, TwoTables(x, p, v, q), Some(HIDDEN_EQUALITY), u, rows, HIDDEN_EQUALITY, 0);
  }

  lemma HiddenDiffers(env: Env, x: Value, p: Value, v: Value, q: Value)
    requires env.outer == None && x != Null && p != Null && q != Null
    requires Compare(env.lib, x, q) == 0 <==> Compare(env.lib, x, p) != 0
    ensures !AlwaysAsFull(env, TwoTables(x, p, v, q), HIDDEN_EQUALITY, 0)
  {
    BothRows(x, p, v, q);
    HiddenHolds(env, x, p, v, q);
    var t1, t2 := AddTableAlias(map["a" := x, ROW_ID := p], "t1"), AddTableAlias(map["b" := v, ROW_ID := q], "t2");
    NotAlways(env, TwoTables(x, p, v, q), HIDDEN_EQUALITY, 0, map[0 := 0, 1 := 0], t1, t1 + t2);
  }

  lemma NotAlways(env: Env, tables: seq<Table>, c: Expr, i: nat, t: Tuple, part: Row, full: Row)
    requires TupleOver(tables, Range(|tables|), t)
    requires Part(tables, t, i) == part && Merged(tables, t, FromOrder(|tables|)) == full
    requires Holds(env, c, part) != Holds(env, c, full)
    ensures !AlwaysAsFull(env, tables, c, i)
  {
    assert !SameAsFull(env, tables, c, i, t);
  }

  lemma HiddenHolds(env: Env, x: Value, p: Value, v: Value, q: Value)
    requires env.outer == None && x != Null && p != Null && q != Null
    ensures
      var t1, t2 := AddTableAlias(map["a" := x, ROW_ID := p], "t1"), AddTableAlias(map["b" := v, ROW_ID := q], "t2");
      && (Holds(env, HIDDEN_EQUALITY, t1) <==> Compare(env.lib, x, p) == 0)
      && (Holds(env, HIDDEN_EQUALITY, t1 + t2) <==> Compare(env.lib, x, q) == 0)
  {
    var t1, t2 := AddTableAlias(map["a" := x, ROW_ID := p], "t1"), AddTableAlias(map["b" := v, ROW_ID := q], "t2");
    TwoTablesRead(env, x, p, v, q);
    EqualityHolds(env, Ref("t1", "a"), Ref("t2", ROW_ID), t1, x, p);
    EqualityHolds(env, Ref("t1", "a"), Ref("t2", ROW_ID), t1 + t2, x, q);
  }

  lemma TwoInOrder()
    ensures FromOrder(2) == [0, 1] && Elements<nat>([0, 1]) == Range(2)
  {
    FromOrderNext(2);
    assert FromOrder(2) == [0, 1];
  }

  lemma BothRows(x: Value, p: Value, v: Value, q: Value)
    ensures var tables, t := TwoTables(x, p, v, q), map[0 := 0, 1 := 0];
      var t1, t2 := AddTableAlias(map["a" := x, ROW_ID := p], "t1"), AddTableAlias(map["b" := v, ROW_ID := q], "t2");
      && TupleOver(tables, Range(2), t)
      && Part(tables, t, 0) == t1 && Merged(tables, t, FromOrder(2)) == t1 + t2
  {
    TwoInOrder();
    PairMerged(TwoTables(x, p, v, q), 0, 0, 1, 0);
  }

  lemma HiddenIsPushed(x: Value, p: Value, v: Value, q: Value)
    ensures WellFormed(TwoTables(x, p, v, q)) && Identified(TwoTables(x, p, v, q))
    ensures PushesTo(TwoTables(x, p, v, q), HIDDEN_EQUALITY, 0) && Conjuncts(Some(HIDDEN_EQUALITY)) == [HIDDEN_EQUALITY]
  {
    var tables := TwoTables(x, p, v, q);
    assert TableRefs(HIDDEN_EQUALITY) == [Ref("t1", "a"), Ref("t2", ROW_ID)];
    assert ColumnNames(HIDDEN_EQUALITY) == ["a", ROW_ID];
    assert "a" in ColumnNames(HIDDEN_EQUALITY) && Declares(tables, 0, "a");
  }

  /** Row ids that no table declares may be compared with each other: such an equality is pushed nowhere. */
  lemma RowIDsResolve(env: Env, tables: seq<Table>, i: nat, j: nat)
    requires WellFormed(tables) && Identified(tables) && i < |tables| && j < |tables|
    requires forall k :: 0 <= k < |tables| ==> ROW_ID !in tables[k].cols
    ensures Resolved(env, tables, Binary(Eq, ColumnRef(tables[i].alias, ROW_ID), ColumnRef(tables[j].alias, ROW_ID)))
  {
    var l, r := Ref(tables[i].alias, ROW_ID), Ref(tables[j].alias, ROW_ID);
    var c := Binary(Eq, ColumnRef(l.tbl, l.col), ColumnRef(r.tbl, r.col));
    assert TableRefs(c) == [l, r];
    assert !HasSubquery(ColumnRef(l.tbl, l.col)) && !HasSubquery(ColumnRef(r.tbl, r.col)) && !HasSubquery(c);
    assert NamesOf([l, r]) == [ROW_ID, ROW_ID];
    assert OwnIDs(tables[i].rows) && OwnIDs(tables[j].rows);
    PlainIsSteady(env, tables, i, l);
    PlainIsSteady(env, tables, j, r);
    assert Home(tables, i, l) && Home(tables, j, r);
    assert forall k: nat :: k < |tables| ==> !PushesTo(tables, c, k);
  }

  // ---- a conjunct on a missing column ----

  function NullTest(alias: string, c: string): Expr {
    IsNull(ColumnRef(alias, c), false)
  }

  lemma NullTestReady(tables: seq<Table>, i: nat, c: string, place: seq<nat>)
    requires WellFormed(tables) && i < |tables| && i in place
    ensures Ready(tables, Elements(place), NullTest(tables[i].alias, c))
  {
    var column := ColumnRef(tables[i].alias, c);
    assert TableRefs(column) == [Ref(tables[i].alias, c)];
    assert TableRefs(IsNull(column, false)) == TableRefs(column);
    assert i in Elements(place);
  }

  lemma NullTestHolds(env: Env, alias: string, c: string, row: Row)
    ensures Holds(env, NullTest(alias, c), row) <==> Read(env, Ref(alias, c), row) == Null
  {
    assert Eval(env, ColumnRef(alias, c), Some(row)) == EvalColumnRef(env, alias, c, Some(row));
  }

  /** None of the picked rows in `order` has the column. */
  ghost predicate Lacking(tables: seq<Table>, t: Tuple, order: seq<nat>, c: string) {
    forall m | m in order && Picks(tables, t, m) :: c !in tables[m].rows[t[m]]
  }

  lemma LackingReadsNull(env: Env, tables: seq<Table>, t: Tuple, order: seq<nat>, alias: string, c: string)
    requires env.outer == None && alias != "" && !IsRowIDColumn(c) && Lacking(tables, t, order, c)
    ensures Read(env, Ref(alias, c), Merged(tables, t, order)) == Null
  {
    MergedEntry(tables, t, order, Qual(alias, c));
    MergedEntry(tables, t, order, Bare(c));
    ReadIs(env, Ref(alias, c), Merged(tables, t, order));
  }

  /** Some picked row in `order` has the column, those that have it not as NULL. */
  ghost predicate Filling(tables: seq<Table>, t: Tuple, order: seq<nat>, c: string) {
    && (exists m :: m in order && SuppliedBy(tables, t, m, Bare(c)))
    && forall m | m in order && SuppliedBy(tables, t, m, Bare(c)) :: tables[m].rows[t[m]][c] != Null
  }

  lemma FillingReads(env: Env, tables: seq<Table>, t: Tuple, order: seq<nat>, alias: string, c: string)
    requires env.outer == None && alias != "" && Filling(tables, t, order, c)
    ensures Read(env, Ref(alias, c), Merged(tables, t, order)) != Null
  {
    var row := Merged(tables, t, order);
    MergedEntry(tables, t, order, Qual(alias, c));
    MergedEntry(tables, t, order, Bare(c));
    ReadIs(env, Ref(alias, c), row);
    if Qual(alias, c) in row {
      var m :| m in order && SuppliedBy(tables, t, m, Qual(alias, c)) && row[Qual(alias, c)] == tables[m].rows[t[m]][c];
      assert SuppliedBy(tables, t, m, Bare(c));
    }
  }

  /** Table `i`, of that alias, is merged in `place` from rows that all lack the column; a row merged
      elsewhere has it. */
  ghost predicate Missing(tables: seq<Table>, t: Tuple, i: nat, alias: string, c: string, place: seq<nat>) {
    && WellFormed(tables) && Identified(tables) && TupleOver(tables, Range(|tables|), t)
    && i < |tables| && alias == tables[i].alias && i in place && !IsRowIDColumn(c)
    && Lacking(tables, t, place, c) && Filling(tables, t, FromOrder(|tables|), c)
  }

  ghost predicate OthersHold(env: Env, tables: seq<Table>, uses: seq<Use>, use: Use, t: Tuple) {
    forall other <- uses :: other == use || HoldsAt(env, tables, other, t)
  }

  /** A plan that applies `IS NULL` to a column that the rows merged so far lack, while a table merged later has
      the name, does not answer WHERE: it keeps a row that the cross product rejects. The readiness test lets it,
      as soon as the column's own table is seen. */
  lemma MissingColumnAppliedEarly(env: Env, tables: seq<Table>, condition: Option<Expr>, u: Unit, rows: seq<Row>,
      t: Tuple, i: nat, alias: string, c: string, place: seq<nat>)
    requires Missing(tables, t, i, alias, c, place) && env.outer == None
    requires Planned(env, tables, condition, u, rows) && Use(NullTest(alias, c), place) in u.uses
    requires OthersHold(env, tables, u.uses, Use(NullTest(alias, c), place), t)
    ensures Ready(tables, Elements(place), NullTest(alias, c))
    ensures AllHoldAt(env, tables, u.uses, t) && !AnswersWhere(env, tables, condition, rows)
  {
    var test := NullTest(alias, c);
    EarlyAndLate(env, tables, t, i, c, place);
    UseIsConjunct(u.uses, Conjuncts(condition), Use(test, place));
    KeptWrongly(env, tables, condition, u, rows, t, test);
  }

  lemma EarlyAndLate(env: Env, tables: seq<Table>, t: Tuple, i: nat, c: string, place: seq<nat>)
    requires WellFormed(tables) && env.outer == None && !IsRowIDColumn(c) && i < |tables| && i in place
    requires Lacking(tables, t, place, c) && Filling(tables, t, FromOrder(|tables|), c)
    ensures var test := NullTest(tables[i].alias, c);
      && Ready(tables, Elements(place), test)
      && HoldsAt(env, tables, Use(test, place), t) && !Holds(env, test, Merged(tables, t, FromOrder(|tables|)))
  {
    var test, order := NullTest(tables[i].alias, c), FromOrder(|tables|);
    NullTestReady(tables, i, c, place);
    LackingReadsNull(env, tables, t, place, tables[i].alias, c);
    FillingReads(env, tables, t, order, tables[i].alias, c);
    NullTestHolds(env, tables[i].alias, c, Merged(tables, t, place));
    NullTestHolds(env, tables[i].alias, c, Merged(tables, t, order));
  }

  /** A plan that keeps a tuple whose full row a conjunct rejects does not answer WHERE. */
  lemma KeptWrongly(env: Env, tables: seq<Table>, condition: Option<Expr>, u: Unit, rows: seq<Row>, t: Tuple, c: Expr)
    requires WellFormed(tables) && Identified(tables) && Planned(env, tables, condition, u, rows)
    requires TupleOver(tables, Range(|tables|), t) && AllHoldAt(env, tables, u.uses, t)
    requires c in Conjuncts(condition) && !Holds(env, c, Merged(tables, t, FromOrder(|tables|)))
    ensures !HoldsAll(env, Conjuncts(condition), Merged(tables, t, FromOrder(|tables|)))
    ensures !AnswersWhere(env, tables, condition, rows)
  {
    UsesHold(env, tables, Conjuncts(condition), FromOrder(|tables|), t);
    PlanAnswersIff(env, tables, condition, u, rows);
  }

  // ---- three tables on which it happens ----

  /** t1(id, b) without b, t3(k) and t2(b), one row each. */
  function ThreeTables(v: Value): seq<Table> {
    [Table("t1", {"id", "b"}, {ROW_ID}, [map["id" := Int(1), ROW_ID := Int(1)]]),
     Table("t3", {"k"}, {ROW_ID}, [map["k" := Int(1), ROW_ID := Int(1)]]),
     Table("t2", {"b"}, {ROW_ID}, [map["b" := v, ROW_ID := Int(1)]])]
  }

  /** t1.id = t3.k */
  const KEY_EQUALITY := Binary(Eq, ColumnRef("t1", "id"), ColumnRef("t3", "k"))

  /** t1.b IS NULL AND t1.id = t3.k */
  const MISSING_CONDITION := Some(Binary(And, NullTest("t1", "b"), KEY_EQUALITY))

  /** FROM t1, t3, t2 WHERE t1.b IS NULL AND t1.id = t3.k: a plan that applies the first conjunct to t1 or t1
      and t3, before t2 is joined, does not answer WHERE. */
  lemma MissingColumnCase(env: Env, v: Value, u: Unit, rows: seq<Row>, place: seq<nat>)
    requires env.outer == None && v != Null
    requires Planned(env, ThreeTables(v), MISSING_CONDITION, u, rows)
    requires Use(NullTest("t1", "b"), place) in u.uses && 0 in place && 2 !in place
    ensures !AnswersWhere(env, ThreeTables(v), MISSING_CONDITION, rows)
  {
    ThreePicks(v, place);
    KeyUsesHold(env, v, u.uses, Use(NullTest("t1", "b"), place));
    MissingColumnAppliedEarly(env, ThreeTables(v), MISSING_CONDITION, u, rows, map[0 := 0, 1 := 0, 2 := 0], 0, "t1",
      "b", place);
  }

  lemma KeyUsesHold(env: Env, v: Value, uses: seq<Use>, use: Use)
    requires env.outer == None && AllMayApply(ThreeTables(v), uses)
    requires multiset(ClausesOf(uses)) == multiset(Conjuncts(MISSING_CONDITION))
    requires use in uses && use.clause == NullTest("t1", "b")
    ensures OthersHold(env, ThreeTables(v), uses, use, map[0 := 0, 1 := 0, 2 := 0])
  {
    assert Conjuncts(MISSING_CONDITION) == [NullTest("t1", "b"), KEY_EQUALITY];
    forall other | other in uses && other != use
      ensures HoldsAt(env, ThreeTables(v), other, map[0 := 0, 1 := 0, 2 := 0])
    {
      OtherUse(uses, NullTest("t1", "b"), KEY_EQUALITY, use, other);
      KeyUseHolds(env, v, other);
    }
  }

  lemma OtherUse(uses: seq<Use>, a: Expr, b: Expr, use: Use, other: Use)
    requires multiset(ClausesOf(uses)) == multiset([a, b]) && a != b
    requires use in uses && other in uses && use.clause == a
    ensures other == use || other.clause == b
  {
    UseIsConjunct(uses, [a, b], other);
    var clauses := ClausesOf(uses);
    assert |clauses| == |multiset(clauses)| == 2;
    assert clauses == [clauses[0], clauses[1]];
    assert multiset(clauses)[a] == 1;
  }

  lemma ThreeFormed(v: Value)
    ensures WellFormed(ThreeTables(v)) && Identified(ThreeTables(v))
  {
    var tables := ThreeTables(v);
    forall i | 0 <= i < 3
      ensures |tables[i].rows| == 1 && tables[i].rows[0].Keys <= Names(tables[i]) && ROW_ID in tables[i].rows[0]
    {
    }
  }

  lemma ThreePicks(v: Value, place: seq<nat>)
    requires v != Null && 0 in place && 2 !in place
    ensures Missing(ThreeTables(v), map[0 := 0, 1 := 0, 2 := 0], 0, "t1", "b", place)
  {
    var t: Tuple := map[0 := 0, 1 := 0, 2 := 0];
    ThreeFormed(v);
    ThreeFilling(v, place);
    assert t.Keys == Range(3);
  }

  lemma ThreeFilling(v: Value, place: seq<nat>)
    requires v != Null && 2 !in place
    ensures var tables, t := ThreeTables(v), map[0 := 0, 1 := 0, 2 := 0];
      Lacking(tables, t, place, "b") && Filling(tables, t, FromOrder(3), "b")
  {
    var tables, t: Tuple := ThreeTables(v), map[0 := 0, 1 := 0, 2 := 0];
    forall m: nat | Picks(tables, t, m)
      ensures "b" in tables[m].rows[t[m]] <==> m == 2
      ensures m == 2 ==> tables[m].rows[t[m]]["b"] == v
    {
    }
    assert FromOrder(3)[2] == 2 && 2 in FromOrder(3);
    assert SuppliedBy(tables, t, 2, Bare("b"));
  }

  lemma KeyUseHolds(env: Env, v: Value, use: Use)
    requires env.outer == None && use.clause == KEY_EQUALITY && MayApply(ThreeTables(v), use)
    ensures HoldsAt(env, ThreeTables(v), use, map[0 := 0, 1 := 0, 2 := 0])
  {
    var tables, t: Tuple := ThreeTables(v), map[0 := 0, 1 := 0, 2 := 0];
    var row := Merged(tables, t, use.place);
    KeyUsePlace(v, use);
    KeyReads(env, v, use.place);
    EqualityHolds(env, Ref("t1", "id"), Ref("t3", "k"), row, Int(1), Int(1));
  }

  lemma KeyUsePlace(v: Value, use: Use)
    requires use.clause == KEY_EQUALITY && MayApply(ThreeTables(v), use)
    ensures 0 in use.place && 1 in use.place
  {
    var tables := ThreeTables(v);
    assert TableRefs(KEY_EQUALITY) == [Ref("t1", "id"), Ref("t3", "k")];
    assert ColumnNames(KEY_EQUALITY) == ["id", "k"];
    assert "id" in ColumnNames(KEY_EQUALITY) && "k" in ColumnNames(KEY_EQUALITY);
    assert Declares(tables, 0, "id") && Declares(tables, 1, "k");
    assert forall i: nat :: i < 3 ==> !PushesTo(tables, KEY_EQUALITY, i);
    if Ready(tables, Elements(use.place), KEY_EQUALITY) {
      assert RefReady(tables, Elements(use.place), Ref("t1", "id"));
      assert RefReady(tables, Elements(use.place), Ref("t3", "k"));
    } else {
      assert 0 in Elements(use.place) && 1 in Elements(use.place);
    }
  }

  lemma KeyReads(env: Env, v: Value, place: seq<nat>)
    requires env.outer == None && 0 in place && 1 in place
    ensures var row := Merged(ThreeTables(v), map[0 := 0, 1 := 0, 2 := 0], place);
      EvalColumnRef(env, "t1", "id", Some(row)) == Ok(Int(1)) == EvalColumnRef(env, "t3", "k", Some(row))
  {
    var tables, t: Tuple := ThreeTables(v), map[0 := 0, 1 := 0, 2 := 0];
    QualifiedEntry(tables, 0, "id", t, place);
    QualifiedEntry(tables, 1, "k", t, place);
  }
}
