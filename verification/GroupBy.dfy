/** GROUP BY in one pass with running accumulators, and by collecting the rows of each group. */
module GroupBy {
  import opened Collections
  import opened Values
  import opened Expressions
  import opened Aggregates
  import opened GroupKeys

  /** A SELECT column as a function of a row: an expression without aggregates, or a direct
      aggregate call with the value of its argument. */
  datatype Column =
    | Plain(eval: Row -> Result<Value>)
    | Agg(agg: Aggregate, arg: Row -> Value)

  /** `val, _ := e.evalExpr(...)`: a failing expression counts as NULL. */
  function OrNull(r: Result<Value>): Value {
    match r
    case Ok(v) => v
    case Err(_) => Null
  }

  function PlainColumn(env: Env, e: Expr): Column {
    Plain(row => Eval(env, e, Some(row)))
  }

  /** The argument of an aggregate; without arguments it reads NULL from every row. */
  function OperandOf(env: Env, operand: Option<Expr>): Row -> Value {
    row => if operand.None? then Null else OrNull(Eval(env, operand.value, Some(row)))
  }

  function AggregateColumn(env: Env, agg: Aggregate, operand: Option<Expr>): Column {
    Agg(agg, OperandOf(env, operand))
  }

  /** buildGroupKey. */
  function GroupKey(env: Env, groupBy: seq<Expr>): Row -> string {
    row => Join(seq(|groupBy|, i requires 0 <= i < |groupBy| =>
      Render(env.lib, OrNull(Eval(env, groupBy[i], Some(row))))))
  }

  // ---- groups ----

  /** The group keys in order of first occurrence. */
  function KeyOrder(keyOf: Row -> string, rows: seq<Row>): (keys: seq<string>)
    ensures NoDup(keys)
  {
    if rows == [] then []
    else
      var n := |rows| - 1;
      var keys := KeyOrder(keyOf, rows[..n]);
      if keyOf(rows[n]) in keys then keys else keys + [keyOf(rows[n])]
  }

  function GroupRows(keyOf: Row -> string, rows: seq<Row>, key: string): (group: seq<Row>)
    ensures |group| <= |rows|
    ensures group != [] <==> key in KeyOrder(keyOf, rows)
  {
    if rows == [] then []
    else
      var n := |rows| - 1;
      GroupRows(keyOf, rows[..n], key) + (if keyOf(rows[n]) == key then [rows[n]] else [])
  }

  lemma GroupsNext(keyOf: Row -> string, rows: seq<Row>, i: nat, key: string)
    requires i < |rows|
    ensures GroupRows(keyOf, rows[..i + 1], key)
         == GroupRows(keyOf, rows[..i], key) + (if keyOf(rows[i]) == key then [rows[i]] else [])
    ensures var keys := KeyOrder(keyOf, rows[..i]);
      KeyOrder(keyOf, rows[..i + 1]) == if keyOf(rows[i]) in keys then keys else keys + [keyOf(rows[i])]
  {
    assert rows[..i + 1][..i] == rows[..i];
  }

  /** Grouping depends on the keys of the rows only. */
  lemma {:induction false} SameGroups(f: Row -> string, g: Row -> string, rows: seq<Row>)
    requires forall row <- rows :: f(row) == g(row)
    ensures KeyOrder(f, rows) == KeyOrder(g, rows)
    ensures forall key :: GroupRows(f, rows, key) == GroupRows(g, rows, key)
  {
    if rows != [] {
      var n := |rows| - 1;
      assert forall row <- rows[..n] :: row in rows;
      SameGroups(f, g, rows[..n]);
      assert rows[n] in rows;
    }
  }

  lemma {:induction false} GroupMembers(keyOf: Row -> string, rows: seq<Row>, key: string, row: Row)
    ensures row in GroupRows(keyOf, rows, key) <==> row in rows && keyOf(row) == key
  {
    if rows != [] {
      var n := |rows| - 1;
      GroupMembers(keyOf, rows[..n], key, row);
      assert row in rows <==> row in rows[..n] || row == rows[n] by {
        assert rows == rows[..n] + [rows[n]];
      }
    }
  }

  lemma {:induction false} GroupHasKey(keyOf: Row -> string, rows: seq<Row>, key: string)
    ensures forall row <- GroupRows(keyOf, rows, key) :: keyOf(row) == key && row in rows
  {
    if rows != [] {
      GroupHasKey(keyOf, rows[..|rows| - 1], key);
    }
  }

  /** The groups partition the rows. */
  lemma {:induction false} GroupsPartition(keyOf: Row -> string, rows: seq<Row>, row: Row)
    ensures multiset(rows)[row] == multiset(GroupRows(keyOf, rows, keyOf(row)))[row]
    ensures forall key :: key != keyOf(row) ==> row !in GroupRows(keyOf, rows, key)
  {
    if rows != [] {
      var n := |rows| - 1;
      GroupsPartition(keyOf, rows[..n], row);
      assert rows == rows[..n] + [rows[n]];
    }
  }

  // ---- result rows ----

  function RunningRow(lib: Library, columns: seq<Column>, group: Rows): seq<Value>
    requires group != []
  {
    seq(|columns|, i requires 0 <= i < |columns| => RunningCell(lib, columns[i], group))
  }

  function RunningCell(lib: Library, column: Column, group: Rows): Value
    requires group != []
  {
    match column
    case Plain(eval) => OrNull(eval(group[0]))
    case Agg(agg, arg) => RunningValue(lib, agg, arg, group)
  }

  function CollectedRow(lib: Library, columns: seq<Column>, group: Rows): seq<Value>
    requires group != []
  {
    seq(|columns|, i requires 0 <= i < |columns| => CollectedCell(lib, columns[i], group))
  }

  function CollectedCell(lib: Library, column: Column, group: Rows): Value
    requires group != []
  {
    match column
    case Plain(eval) => OrNull(eval(group[0]))
    case Agg(agg, arg) => CollectedValue(lib, agg, arg, group)
  }

  predicate CellFails(column: Column, group: Rows)
    requires group != []
  {
    column.Plain? && column.eval(group[0]).Err?
  }

  ghost predicate RowFails(columns: seq<Column>, group: Rows)
    requires group != []
  {
    exists c <- columns :: CellFails(c, group)
  }

  /** No COUNT(DISTINCT) column meets two different values of the group that render alike. */
  ghost predicate RendersFaithfully(lib: Library, columns: seq<Column>, group: Rows) {
    forall c <- columns :: c.Agg? && CountsDistinct(c.agg)
      ==> RendersApart(lib, Arguments(c.arg, group))
  }

  /** Both paths produce the same values for a group exactly when its rendering is faithful. */
  lemma GroupAgreesIff(lib: Library, columns: seq<Column>, group: Rows)
    requires group != []
    ensures RunningRow(lib, columns, group) == CollectedRow(lib, columns, group)
       <==> RendersFaithfully(lib, columns, group)
  {
    forall c <- columns
      ensures RunningCell(lib, c, group) == CollectedCell(lib, c, group)
         <==> (c.Agg? && CountsDistinct(c.agg) ==> RendersApart(lib, Arguments(c.arg, group)))
    {
      if c.Agg? {
        FormsAgreeIff(lib, c.agg, c.arg, group);
      }
    }
    var fast, slow := RunningRow(lib, columns, group), CollectedRow(lib, columns, group);
    if fast == slow {
      forall c <- columns
        ensures RunningCell(lib, c, group) == CollectedCell(lib, c, group)
      {
        var i :| 0 <= i < |columns| && columns[i] == c;
        assert fast[i] == slow[i];
      }
    }
  }

  function RunningResult(lib: Library, columns: seq<Column>, keyOf: Row -> string, rows: Rows): seq<seq<Value>> {
    var keys := KeyOrder(keyOf, rows);
    seq(|keys|, i requires 0 <= i < |keys| => RunningRow(lib, columns, GroupRows(keyOf, rows, keys[i])))
  }

  /** The slow path's rows when it visits the groups in `order`. */
  function CollectedResult(lib: Library, columns: seq<Column>, keyOf: Row -> string, rows: Rows,
      order: seq<string>): seq<seq<Value>>
    requires forall key <- order :: key in KeyOrder(keyOf, rows)
  {
    seq(|order|, i requires 0 <= i < |order| => CollectedRow(lib, columns, GroupRows(keyOf, rows, order[i])))
  }

  /** No group has two different values that render alike in a COUNT(DISTINCT) column. */
  ghost predicate AllRenderFaithfully(lib: Library, columns: seq<Column>, keyOf: Row -> string, rows: Rows) {
    forall key <- KeyOrder(keyOf, rows) :: RendersFaithfully(lib, columns, GroupRows(keyOf, rows, key))
  }

  /** A plain column fails on the first row of some group. */
  ghost predicate SomeRowFails(columns: seq<Column>, keyOf: Row -> string, rows: Rows) {
    exists key <- KeyOrder(keyOf, rows) :: RowFails(columns, GroupRows(keyOf, rows, key))
  }

  /** What the slow path may return: an error exactly when a plain column fails, otherwise the groups' rows in
      the order in which a Go map yields the groups. */
  ghost predicate Collected(lib: Library, columns: seq<Column>, keyOf: Row -> string, rows: Rows,
      slow: Result<seq<seq<Value>>>, order: seq<string>)
  {
    && (slow.Err? <==> SomeRowFails(columns, keyOf, rows))
    && (slow.Ok? ==> NoDup(order) && forall key :: key in order <==> key in KeyOrder(keyOf, rows))
    && (slow.Ok? ==> slow.value == CollectedResult(lib, columns, keyOf, rows, order))
  }

  /** The fast path, which never fails, has the slow path's outcome exactly when no plain column fails on the
      first row of a group, where the fast path writes NULL, and every group renders faithfully. */
  lemma PathsAgreeIff(lib: Library, columns: seq<Column>, keyOf: Row -> string, rows: Rows,
      slow: Result<seq<seq<Value>>>, order: seq<string>)
    requires Collected(lib, columns, keyOf, rows, slow, order)
    ensures slow.Ok? && multiset(RunningResult(lib, columns, keyOf, rows)) == multiset(slow.value)
       <==> !SomeRowFails(columns, keyOf, rows) && AllRenderFaithfully(lib, columns, keyOf, rows)
  {
    if slow.Ok? {
      RowsAgreeIff(lib, columns, keyOf, rows, order);
    }
  }

  function Failing(error: string): Column {
    Plain(_ => Err(error))
  }

  /** A failing plain column over one row: the fast path returns a NULL, the slow path the failure. */
  lemma FailingColumnDiffers(lib: Library, keyOf: Row -> string, row: Row, error: string,
      slow: Result<seq<seq<Value>>>, order: seq<string>)
    requires Collected(lib, [Failing(error)], keyOf, [row], slow, order)
    ensures RunningResult(lib, [Failing(error)], keyOf, [row]) == [[Null]]
    ensures AllRenderFaithfully(lib, [Failing(error)], keyOf, [row]) && slow.Err?
  {
    var columns := [Failing(error)];
    assert [row][..0] == [];
    assert KeyOrder(keyOf, [row]) == [keyOf(row)] && GroupRows(keyOf, [row], keyOf(row)) == [row];
    assert RunningRow(lib, columns, [row]) == [Null];
    assert columns[0] in columns && CellFails(columns[0], [row]);
    assert RowFails(columns, GroupRows(keyOf, [row], keyOf(row)));
    assert keyOf(row) in KeyOrder(keyOf, [row]);
    assert SomeRowFails(columns, keyOf, [row]);
  }

  /** Where the slow path does not fail, the fast path returns its rows, whatever order a Go map yields the
      groups in, exactly when every group renders faithfully: counts that are too small never make up for
      one another. */
  lemma RowsAgreeIff(lib: Library, columns: seq<Column>, keyOf: Row -> string, rows: Rows, order: seq<string>)
    requires NoDup(order) && forall key :: key in order <==> key in KeyOrder(keyOf, rows)
    ensures multiset(RunningResult(lib, columns, keyOf, rows))
         == multiset(CollectedResult(lib, columns, keyOf, rows, order))
       <==> AllRenderFaithfully(lib, columns, keyOf, rows)
  {
    var keys := KeyOrder(keyOf, rows);
    var fast := key => if key in keys then RunningRow(lib, columns, GroupRows(keyOf, rows, key)) else [];
    var slow := key => if key in keys then CollectedRow(lib, columns, GroupRows(keyOf, rows, key)) else [];
    assert RunningResult(lib, columns, keyOf, rows) == MapSeq(keys, fast);
    assert CollectedResult(lib, columns, keyOf, rows, order) == MapSeq(order, slow);
    SameMultiset(keys, order);
    MultisetOfMap(keys, order, slow);
    if AllRenderFaithfully(lib, columns, keyOf, rows) {
      forall key <- keys
        ensures fast(key) == slow(key)
      {
        GroupAgreesIff(lib, columns, GroupRows(keyOf, rows, key));
      }
      assert MapSeq(keys, fast) == MapSeq(keys, slow);
    } else {
      var key, i := UnfaithfulCell(lib, columns, keyOf, rows);
      forall k <- keys
        ensures CellCount(i, fast(k)) <= CellCount(i, slow(k))
      {
        CountsShrink(lib, columns, GroupRows(keyOf, rows, k), i);
      }
      CountsShrink(lib, columns, GroupRows(keyOf, rows, key), i);
      TotalsDiffer(keys, fast, slow, i, key);
    }
  }

  lemma UnfaithfulCell(lib: Library, columns: seq<Column>, keyOf: Row -> string, rows: Rows)
    returns (key: string, i: nat)
    requires !AllRenderFaithfully(lib, columns, keyOf, rows)
    ensures key in KeyOrder(keyOf, rows) && i < |columns|
    ensures columns[i].Agg? && CountsDistinct(columns[i].agg)
    ensures !RendersApart(lib, Arguments(columns[i].arg, GroupRows(keyOf, rows, key)))
  {
    key :| key in KeyOrder(keyOf, rows) && !RendersFaithfully(lib, columns, GroupRows(keyOf, rows, key));
    i :| 0 <= i < |columns| && columns[i].Agg? && CountsDistinct(columns[i].agg)
      && !RendersApart(lib, Arguments(columns[i].arg, GroupRows(keyOf, rows, key)));
  }

  /** The count in cell `i`. */
  function CellCount(i: nat, row: seq<Value>): int {
    if i < |row| && row[i].Int? then row[i].i else 0
  }

  /** COUNT(DISTINCT) by renderings never counts more than by values, and counts less exactly when two
      values render alike. */
  lemma CountsShrink(lib: Library, columns: seq<Column>, group: Rows, i: nat)
    requires group != [] && i < |columns| && columns[i].Agg? && CountsDistinct(columns[i].agg)
    ensures CellCount(i, RunningRow(lib, columns, group)) <= CellCount(i, CollectedRow(lib, columns, group))
    ensures CellCount(i, RunningRow(lib, columns, group)) == CellCount(i, CollectedRow(lib, columns, group))
       <==> RendersApart(lib, Arguments(columns[i].arg, group))
  {
    RenderingsCountIff(lib, Arguments(columns[i].arg, group));
  }

  lemma TotalsDiffer(keys: seq<string>, fast: string -> seq<Value>, slow: string -> seq<Value>, i: nat, key: string)
    requires key in keys && CellCount(i, fast(key)) < CellCount(i, slow(key))
    requires forall k <- keys :: CellCount(i, fast(k)) <= CellCount(i, slow(k))
    ensures multiset(MapSeq(keys, fast)) != multiset(MapSeq(keys, slow))
  {
    var count := row => CellCount(i, row);
    TotalLess(keys, k => CellCount(i, fast(k)), k => CellCount(i, slow(k)), key);
    TotalOfMap(keys, fast, count, k => CellCount(i, fast(k)));
    TotalOfMap(keys, slow, count, k => CellCount(i, slow(k)));
    if multiset(MapSeq(keys, fast)) == multiset(MapSeq(keys, slow)) {
      TotalOfMultiset(MapSeq(keys, fast), MapSeq(keys, slow), count);
    }
  }

  // ---- accumulators ----

  /** The fields of a running accumulator. */
  datatype Totals = Totals(
    count: nat, sumI: Int64, sumF: real, allInt: bool, hasVal: bool, extreme: Value, seen: set<string>)

  const NOTHING := Totals(0, 0, 0.0, true, false, Null, {})

  /** feedAggAccum: the effect of one row whose argument is `v`. */
  function Step(lib: Library, agg: Aggregate, t: Totals, v: Value): Totals {
    if agg.name.Count? && agg.star then t.(count := t.count + 1)
    else if v == Null then t
    else match agg.name
      case Count => if Repeats(lib, agg, t, v) then t else Noted(lib, agg, t, v).(count := t.count + 1)
      case Sum => if Repeats(lib, agg, t, v) then t else Added(lib, Noted(lib, agg, t, v), v)
      case Avg => t.(sumF := lib.add(t.sumF, ToFloat(lib, v)), count := t.count + 1, hasVal := true)
      case _ => if t.extreme == Null || Beats(lib, agg.name, v, t.extreme) then t.(extreme := v) else t
  }

  predicate Repeats(lib: Library, agg: Aggregate, t: Totals, v: Value) {
    agg.distinct && Render(lib, v) in t.seen
  }

  function Noted(lib: Library, agg: Aggregate, t: Totals, v: Value): Totals {
    if agg.distinct then t.(seen := t.seen + {Render(lib, v)}) else t
  }

  function Added(lib: Library, t: Totals, v: Value): Totals {
    if IsIntVal(v) then t.(sumI := AddInt(lib, t.sumI, v), hasVal := true)
    else t.(sumF := lib.add(t.sumF, ToFloat(lib, v)), allInt := false, hasVal := true)
  }

  /** The totals after the rows of a group, one at a time. */
  function Fold(lib: Library, agg: Aggregate, arg: Row -> Value, rows: seq<Row>): Totals {
    if rows == [] then NOTHING
    else
      var n := |rows| - 1;
      Step(lib, agg, Fold(lib, agg, arg, rows[..n]), arg(rows[n]))
  }

  /** finalizeAggAccum. */
  function Final(lib: Library, agg: Aggregate, t: Totals): Value
    requires t.count < TWO_63
  {
    match agg.name
    case Count => Int(t.count)
    case Sum =>
      if !t.hasVal then Null
      else if t.allInt then Int(t.sumI)
      else Real(lib.add(t.sumF, lib.intToFloat(t.sumI)))
    case Avg => if !t.hasVal || t.count == 0 then Null else Real(lib.div(t.sumF, lib.intToFloat(t.count)))
    case _ => t.extreme
  }

  /** What the totals say about the rows and non-NULL arguments they have been fed. */
  ghost predicate Summarizes(lib: Library, agg: Aggregate, t: Totals, rowCount: nat, vs: seq<Value>) {
    match agg.name
    case Count =>
      if agg.star then t.count == rowCount
      else t.count == |Kept(lib, agg, vs)| && (agg.distinct ==> t.seen == Renderings(lib, vs))
    case Sum =>
      && SumTracks(lib, Kept(lib, agg, vs), t.sumI, t.sumF, t.allInt, t.hasVal)
      && (agg.distinct ==> t.seen == Renderings(lib, vs))
    case Avg => t.sumF == AsFloats(lib, vs) && t.count == |vs| && t.hasVal == (vs != [])
    case _ => t.extreme == Extreme(lib, agg.name, vs)
  }

  lemma CountStep(lib: Library, agg: Aggregate, t: Totals, rowCount: nat, vs: seq<Value>, v: Value)
    requires agg.name.Count? && v != Null && Summarizes(lib, agg, t, rowCount, vs)
    ensures Summarizes(lib, agg, Step(lib, agg, t, v), rowCount + 1, vs + [v])
  {
    KeptNext(lib, agg, vs, v);
  }

  lemma SumStep(lib: Library, agg: Aggregate, t: Totals, rowCount: nat, vs: seq<Value>, v: Value)
    requires agg.name.Sum? && v != Null && Summarizes(lib, agg, t, rowCount, vs)
    ensures Summarizes(lib, agg, Step(lib, agg, t, v), rowCount + 1, vs + [v])
  {
    KeptNext(lib, agg, vs, v);
    if !Repeats(lib, agg, t, v) {
      SumTracksNext(lib, Kept(lib, agg, vs), t.sumI, t.sumF, t.allInt, t.hasVal, v);
    }
  }

  lemma AvgStep(lib: Library, agg: Aggregate, t: Totals, rowCount: nat, vs: seq<Value>, v: Value)
    requires agg.name.Avg? && v != Null && Summarizes(lib, agg, t, rowCount, vs)
    ensures Summarizes(lib, agg, Step(lib, agg, t, v), rowCount + 1, vs + [v])
  {
    TotalsNext(lib, vs, v);
  }

  lemma ExtremeStep(lib: Library, agg: Aggregate, t: Totals, rowCount: nat, vs: seq<Value>, v: Value)
    requires (agg.name.Min? || agg.name.Max?) && v != Null && Summarizes(lib, agg, t, rowCount, vs)
    ensures Summarizes(lib, agg, Step(lib, agg, t, v), rowCount + 1, vs + [v])
  {
    ExtremeNext(lib, agg.name, vs, v);
  }

  lemma StepSummarizes(lib: Library, agg: Aggregate, t: Totals, rowCount: nat, vs: seq<Value>, v: Value)
    requires v != Null && Summarizes(lib, agg, t, rowCount, vs)
    ensures Summarizes(lib, agg, Step(lib, agg, t, v), rowCount + 1, vs + [v])
  {
    match agg.name
    case Count => CountStep(lib, agg, t, rowCount, vs, v);
    case Sum => SumStep(lib, agg, t, rowCount, vs, v);
    case Avg => AvgStep(lib, agg, t, rowCount, vs, v);
    case _ => ExtremeStep(lib, agg, t, rowCount, vs, v);
  }

  /** Invariant of the one-pass path: an accumulator summarizes the rows of its group so far. */
  lemma {:induction false} FoldSummarizes(lib: Library, agg: Aggregate, arg: Row -> Value, rows: seq<Row>)
    ensures Summarizes(lib, agg, Fold(lib, agg, arg, rows), |rows|, Arguments(arg, rows))
  {
    if rows == [] {
      assert Renderings(lib, []) == {};
    } else {
      var n := |rows| - 1;
      FoldSummarizes(lib, agg, arg, rows[..n]);
      var t, vs, v := Fold(lib, agg, arg, rows[..n]), Arguments(arg, rows[..n]), arg(rows[n]);
      if v != Null {
        StepSummarizes(lib, agg, t, n, vs, v);
      } else {
        assert Arguments(arg, rows) == vs;
      }
    }
  }

  lemma {:induction false} FoldCounts(lib: Library, agg: Aggregate, arg: Row -> Value, rows: seq<Row>)
    ensures Fold(lib, agg, arg, rows).count <= |rows|
  {
    if rows != [] {
      FoldCounts(lib, agg, arg, rows[..|rows| - 1]);
    }
  }

  /** A finished accumulator holds the meaning of its aggregate on the rows it was fed. */
  lemma FoldMeans(lib: Library, agg: Aggregate, arg: Row -> Value, rows: Rows)
    ensures Fold(lib, agg, arg, rows).count < TWO_63
    ensures Final(lib, agg, Fold(lib, agg, arg, rows)) == RunningValue(lib, agg, arg, rows)
  {
    FoldSummarizes(lib, agg, arg, rows);
    FoldCounts(lib, agg, arg, rows);
  }

  class Accumulator {
    var count: nat
    var sumI: Int64
    var sumF: real
    var allInt: bool
    var hasVal: bool
    var extreme: Value
    var seen: set<string>

    constructor ()
      ensures Contents() == NOTHING
    {
      count, sumI, sumF, allInt, hasVal, extreme, seen := 0, 0, 0.0, true, false, Null, {};
    }

    function Contents(): Totals
      reads this
    {
      Totals(count, sumI, sumF, allInt, hasVal, extreme, seen)
    }

    method Feed(lib: Library, agg: Aggregate, arg: Row -> Value, row: Row)
      modifies this
      ensures Contents() == Step(lib, agg, old(Contents()), arg(row))
    {
      if agg.name.Count? && agg.star {
        count := count + 1;
        return;
      }
      var v := arg(row);
      if v == Null {
        return;
      }
      match agg.name {
        case Count =>
          if agg.distinct {
            var k := Render(lib, v);
            if k in seen {
              return;
            }
            seen := seen + {k};
          }
          count := count + 1;
        case Sum =>
          if agg.distinct {
            var k := Render(lib, v);
            if k in seen {
              return;
            }
            seen := seen + {k};
          }
          if IsIntVal(v) {
            sumI := AddInt(lib, sumI, v);
          } else {
            allInt := false;
            sumF := lib.add(sumF, ToFloat(lib, v));
          }
          hasVal := true;
        case Avg =>
          sumF := lib.add(sumF, ToFloat(lib, v));
          count := count + 1;
          hasVal := true;
        case Min =>
          if extreme == Null || Compare(lib, v, extreme) < 0 {
            extreme := v;
          }
        case Max =>
          if extreme == Null || Compare(lib, v, extreme) > 0 {
            extreme := v;
          }
      }
    }
  }

  // A group's first row and its accumulators, one for each aggregate column.
  datatype GroupState = GroupState(firstRow: Row, accums: seq<Accumulator>)

  /** The aggregate columns with their positions, in SELECT order. */
  datatype AggColumn = AggColumn(index: nat, agg: Aggregate, arg: Row -> Value)

  ghost predicate Lists(columns: seq<Column>, upTo: nat, aggs: seq<AggColumn>)
    requires upTo <= |columns|
  {
    && (forall a <- aggs :: a.index < upTo && columns[a.index] == Agg(a.agg, a.arg))
    && forall i :: 0 <= i < upTo && columns[i].Agg? ==> AggColumn(i, columns[i].agg, columns[i].arg) in aggs
  }

  method AggColumns(columns: seq<Column>) returns (aggs: seq<AggColumn>)
    ensures Lists(columns, |columns|, aggs)
  {
    aggs := [];
    for i := 0 to |columns|
      invariant Lists(columns, i, aggs)
    {
      if columns[i].Agg? {
        aggs := aggs + [AggColumn(i, columns[i].agg, columns[i].arg)];
      }
    }
  }

  /** One step, or the whole fold, of every aggregate column. */
  ghost function StepAll(lib: Library, aggs: seq<AggColumn>, totals: seq<Totals>, row: Row): seq<Totals>
    requires |totals| == |aggs|
  {
    seq(|aggs|, j requires 0 <= j < |aggs| => Step(lib, aggs[j].agg, totals[j], aggs[j].arg(row)))
  }

  ghost function FoldAll(lib: Library, aggs: seq<AggColumn>, rows: seq<Row>): (totals: seq<Totals>)
    ensures |totals| == |aggs|
  {
    seq(|aggs|, j requires 0 <= j < |aggs| => Fold(lib, aggs[j].agg, aggs[j].arg, rows))
  }

  lemma FoldAllNext(lib: Library, aggs: seq<AggColumn>, rows: seq<Row>, row: Row)
    ensures FoldAll(lib, aggs, rows + [row]) == StepAll(lib, aggs, FoldAll(lib, aggs, rows), row)
  {
    assert (rows + [row])[..|rows|] == rows;
  }

  ghost predicate Hold(accums: seq<Accumulator>, totals: seq<Totals>)
    reads accums
  {
    && NoDup(accums)
    && |accums| == |totals|
    && forall j :: 0 <= j < |accums| ==> accums[j].Contents() == totals[j]
  }

  method NewAccums(n: nat) returns (accums: seq<Accumulator>)
    ensures forall a <- accums :: fresh(a)
    ensures Hold(accums, Zeros(n))
  {
    accums := [];
    for j := 0 to n
      invariant forall a <- accums :: fresh(a)
      invariant Hold(accums, Zeros(j))
    {
      var a := new Accumulator();
      accums := accums + [a];
    }
  }

  /** Feeds one row to every accumulator of its group. */
  method FeedAll(lib: Library, aggs: seq<AggColumn>, accums: seq<Accumulator>, row: Row, ghost totals: seq<Totals>)
    requires Hold(accums, totals) && |totals| == |aggs|
    modifies accums
    ensures Hold(accums, StepAll(lib, aggs, totals, row))
  {
    ghost var next := StepAll(lib, aggs, totals, row);
    for j := 0 to |aggs|
      invariant forall k :: 0 <= k < j ==> accums[k].Contents() == next[k]
      invariant forall k :: j <= k < |accums| ==> accums[k].Contents() == totals[k]
    {
      assert next[j] == Step(lib, aggs[j].agg, accums[j].Contents(), aggs[j].arg(row));
      accums[j].Feed(lib, aggs[j].agg, aggs[j].arg, row);
    }
  }

  ghost predicate Disjoint(a: seq<Accumulator>, b: seq<Accumulator>) {
    forall x <- a :: x !in b
  }

  /** No two groups share an accumulator. */
  ghost predicate Separate(states: map<string, GroupState>) {
    forall k1, k2 :: k1 in states && k2 in states && k1 != k2 ==> Disjoint(states[k1].accums, states[k2].accums)
  }

  ghost predicate Within(states: map<string, GroupState>, repr: set<Accumulator>) {
    forall k :: k in states ==> forall a <- states[k].accums :: a in repr
  }

  /** What every group's accumulators hold. */
  ghost predicate AllHold(states: map<string, GroupState>, totals: map<string, seq<Totals>>, repr: set<Accumulator>)
    reads repr
  {
    && states.Keys == totals.Keys
    && Separate(states)
    && Within(states, repr)
    && forall k :: k in states ==> Hold(states[k].accums, totals[k])
  }

  method FeedGroup(lib: Library, aggs: seq<AggColumn>, states: map<string, GroupState>, key: string, row: Row,
      ghost totals: map<string, seq<Totals>>, ghost repr: set<Accumulator>)
    requires AllHold(states, totals, repr) && key in states && |totals[key]| == |aggs|
    modifies repr
    ensures AllHold(states, totals[key := StepAll(lib, aggs, totals[key], row)], repr)
  {
    FeedAll(lib, aggs, states[key].accums, row, totals[key]);
    forall k | k in states && k != key
      ensures Hold(states[k].accums, totals[k])
    {
      var accums := states[k].accums;
      assert Disjoint(accums, states[key].accums);
      forall j | 0 <= j < |accums|
        ensures accums[j].Contents() == totals[k][j]
      {
        assert accums[j] in accums && old(accums[j].Contents()) == totals[k][j];
      }
    }
  }

  /** The rows of every group met so far, with the first of them and the folds over them. */
  ghost predicate Groups(lib: Library, aggs: seq<AggColumn>, keyOf: Row -> string, rows: seq<Row>,
      states: map<string, GroupState>, totals: map<string, seq<Totals>>)
  {
    && states.Keys == totals.Keys
    && (forall key :: key in states <==> key in KeyOrder(keyOf, rows))
    && forall key :: key in states ==>
      IsGroup(lib, aggs, GroupRows(keyOf, rows, key), states[key].firstRow, totals[key])
  }

  ghost predicate IsGroup(lib: Library, aggs: seq<AggColumn>, group: seq<Row>, first: Row, totals: seq<Totals>) {
    group != [] && first == group[0] && totals == FoldAll(lib, aggs, group)
  }

  ghost function Zeros(n: nat): seq<Totals> {
    seq(n, _ => NOTHING)
  }

  lemma GroupStarts(lib: Library, aggs: seq<AggColumn>, row: Row)
    ensures IsGroup(lib, aggs, [row], row, StepAll(lib, aggs, Zeros(|aggs|), row))
  {
    FoldAllNext(lib, aggs, [], row);
    assert [] + [row] == [row];
    assert FoldAll(lib, aggs, []) == Zeros(|aggs|);
  }

  lemma GroupGrows(lib: Library, aggs: seq<AggColumn>, group: seq<Row>, first: Row, totals: seq<Totals>, row: Row)
    requires IsGroup(lib, aggs, group, first, totals)
    ensures IsGroup(lib, aggs, group + [row], first, StepAll(lib, aggs, totals, row))
  {
    FoldAllNext(lib, aggs, group, row);
  }

  lemma GroupsStep(lib: Library, aggs: seq<AggColumn>, keyOf: Row -> string, rows: seq<Row>, i: nat,
      before: map<string, GroupState>, was: map<string, seq<Totals>>,
      after: map<string, GroupState>, is_: map<string, seq<Totals>>, start: seq<Totals>)
    requires i < |rows| && Groups(lib, aggs, keyOf, rows[..i], before, was)
    requires after.Keys == is_.Keys == before.Keys + {keyOf(rows[i])}
    requires forall k :: k in before ==> after[k] == before[k]
    requires forall k :: k in before && k != keyOf(rows[i]) ==> is_[k] == was[k]
    requires |start| == |aggs| && is_[keyOf(rows[i])] == StepAll(lib, aggs, start, rows[i])
    requires if keyOf(rows[i]) in before then start == was[keyOf(rows[i])]
      else start == Zeros(|aggs|) && after[keyOf(rows[i])].firstRow == rows[i]
    ensures Groups(lib, aggs, keyOf, rows[..i + 1], after, is_)
  {
    var key := keyOf(rows[i]);
    forall k | k in after
      ensures IsGroup(lib, aggs, GroupRows(keyOf, rows[..i + 1], k), after[k].firstRow, is_[k])
    {
      GroupsNext(keyOf, rows, i, k);
      var group := GroupRows(keyOf, rows[..i], k);
      if k != key {
        assert group + [] == group;
      } else if k in before {
        GroupGrows(lib, aggs, group, before[k].firstRow, was[k], rows[i]);
      } else {
        GroupStarts(lib, aggs, rows[i]);
        assert group == [] && [] + [rows[i]] == [rows[i]];
      }
    }
    forall k
      ensures k in after <==> k in KeyOrder(keyOf, rows[..i + 1])
    {
      GroupsNext(keyOf, rows, i, k);
    }
  }

  /** Finds or opens the row's group and feeds it the row. */
  method AddRow(lib: Library, aggs: seq<AggColumn>, keyOf: Row -> string, rows: Rows, i: nat,
      states: map<string, GroupState>, ghost totals: map<string, seq<Totals>>, ghost repr: set<Accumulator>)
    returns (states_: map<string, GroupState>, ghost totals_: map<string, seq<Totals>>, ghost repr_: set<Accumulator>)
    requires i < |rows|
    requires Groups(lib, aggs, keyOf, rows[..i], states, totals)
    requires AllHold(states, totals, repr)
    modifies repr
    ensures Groups(lib, aggs, keyOf, rows[..i + 1], states_, totals_)
    ensures AllHold(states_, totals_, repr_) && fresh(repr_ - repr)
  {
    var key := keyOf(rows[i]);
    states_, totals_, repr_ := states, totals, repr;
    if key !in states {
      var accums := NewAccums(|aggs|);
      states_, totals_, repr_ := Open(states, totals, repr, key, rows[i], accums, |aggs|);
    } else {
      assert IsGroup(lib, aggs, GroupRows(keyOf, rows[..i], key), states[key].firstRow, totals[key]);
    }
    ghost var start := totals_[key];
    FeedGroup(lib, aggs, states_, key, rows[i], totals_, repr_);
    totals_ := totals_[key := StepAll(lib, aggs, start, rows[i])];
    GroupsStep(lib, aggs, keyOf, rows, i, states, totals, states_, totals_, start);
  }

  /** The fast path over all rows: the groups in order of first occurrence, each with the values
      its rows give it. */
  method ExecuteGroupByAccum(lib: Library, columns: seq<Column>, keyOf: Row -> string, rows: Rows)
    returns (result: seq<seq<Value>>)
    ensures result == RunningResult(lib, columns, keyOf, rows)
  {
    var aggs := AggColumns(columns);
    var states: map<string, GroupState> := map[];
    var keyOrder: seq<string> := [];
    ghost var totals: map<string, seq<Totals>> := map[];
    ghost var repr: set<Accumulator> := {};
    for i := 0 to |rows|
      invariant keyOrder == KeyOrder(keyOf, rows[..i])
      invariant Groups(lib, aggs, keyOf, rows[..i], states, totals)
      invariant AllHold(states, totals, repr)
      invariant fresh(repr)
    {
      GroupsNext(keyOf, rows, i, keyOf(rows[i]));
      if keyOf(rows[i]) !in states {
        keyOrder := keyOrder + [keyOf(rows[i])];
      }
      states, totals, repr := AddRow(lib, aggs, keyOf, rows, i, states, totals, repr);
    }
    assert rows[..|rows|] == rows;
    result := Finish(lib, columns, aggs, keyOf, rows, keyOrder, states, totals, repr);
  }

  /** A new group with untouched accumulators. */
  method Open(states: map<string, GroupState>, ghost totals: map<string, seq<Totals>>, ghost repr: set<Accumulator>,
      key: string, row: Row, accums: seq<Accumulator>, n: nat)
    returns (opened_: map<string, GroupState>, ghost totals_: map<string, seq<Totals>>, ghost repr_: set<Accumulator>)
    requires AllHold(states, totals, repr) && key !in states
    requires Hold(accums, Zeros(n)) && forall a <- accums :: a !in repr
    ensures opened_ == states[key := GroupState(row, accums)] && totals_ == totals[key := Zeros(n)]
    ensures repr_ == repr + Elements(accums) && AllHold(opened_, totals_, repr_)
  {
    opened_, totals_, repr_ :=
      states[key := GroupState(row, accums)], totals[key := Zeros(n)], repr + Elements(accums);
    forall k1, k2 | k1 in opened_ && k2 in opened_ && k1 != k2
      ensures Disjoint(opened_[k1].accums, opened_[k2].accums)
    {
      assert k1 in states ==> forall a <- states[k1].accums :: a in repr;
      assert k2 in states ==> forall a <- states[k2].accums :: a in repr;
    }
  }

  /** One SELECT row of a finished group. */
  method FinishGroup(lib: Library, columns: seq<Column>, aggs: seq<AggColumn>, state: GroupState, ghost group: Rows)
    returns (values: seq<Value>)
    requires Lists(columns, |columns|, aggs)
    requires group != [] && state.firstRow == group[0] && Hold(state.accums, FoldAll(lib, aggs, group))
    ensures values == RunningRow(lib, columns, group)
  {
    values := [];
    for i := 0 to |columns|
      invariant values == RunningRow(lib, columns, group)[..i]
    {
      var v: Value;
      match columns[i] {
        case Plain(eval) => v := OrNull(eval(state.firstRow));
        case Agg(agg, arg) => v := FinishCell(lib, columns, aggs, state, i, group);
      }
      values := values + [v];
    }
  }

  method FinishCell(lib: Library, columns: seq<Column>, aggs: seq<AggColumn>, state: GroupState, i: nat,
      ghost group: Rows)
    returns (v: Value)
    requires Lists(columns, |columns|, aggs) && i < |columns| && columns[i].Agg?
    requires Hold(state.accums, FoldAll(lib, aggs, group))
    ensures v == RunningValue(lib, columns[i].agg, columns[i].arg, group)
  {
    assert AggColumn(i, columns[i].agg, columns[i].arg) in aggs;
    var j := 0;
    while aggs[j].index != i
      invariant j < |aggs|
      invariant exists k :: j <= k < |aggs| && aggs[k].index == i
      decreases |aggs| - j
    {
      j := j + 1;
    }
    assert aggs[j] in aggs;
    FoldMeans(lib, aggs[j].agg, aggs[j].arg, group);
    v := Final(lib, aggs[j].agg, state.accums[j].Contents());
  }

  method Finish(lib: Library, columns: seq<Column>, aggs: seq<AggColumn>, keyOf: Row -> string, ghost rows: Rows,
      keyOrder: seq<string>, states: map<string, GroupState>, ghost totals: map<string, seq<Totals>>,
      ghost repr: set<Accumulator>)
    returns (result: seq<seq<Value>>)
    requires Lists(columns, |columns|, aggs)
    requires keyOrder == KeyOrder(keyOf, rows)
    requires Groups(lib, aggs, keyOf, rows, states, totals)
    requires AllHold(states, totals, repr)
    ensures result == RunningResult(lib, columns, keyOf, rows)
  {
    result := [];
    for i := 0 to |keyOrder|
      invariant result == RunningResult(lib, columns, keyOf, rows)[..i]
    {
      var key := keyOrder[i];
      ghost var group := GroupRows(keyOf, rows, key);
      assert IsGroup(lib, aggs, group, states[key].firstRow, totals[key]);
      var values := FinishGroup(lib, columns, aggs, states[key], group);
      result := result + [values];
    }
  }

  // ---- the slow path ----

  ghost predicate Grouping(keyOf: Row -> string, rows: seq<Row>, groups: map<string, seq<Row>>) {
    && (forall key :: key in groups <==> key in KeyOrder(keyOf, rows))
    && forall key :: key in groups ==> groups[key] == GroupRows(keyOf, rows, key)
  }

  lemma GroupingNext(keyOf: Row -> string, rows: seq<Row>, i: nat, groups: map<string, seq<Row>>, row: Row, key: string)
    requires i < |rows| && row == rows[i] && key == keyOf(row) && Grouping(keyOf, rows[..i], groups)
    ensures Grouping(keyOf, rows[..i + 1], groups[key := (if key in groups then groups[key] else []) + [row]])
  {
    var groups' := groups[key := (if key in groups then groups[key] else []) + [row]];
    forall k
      ensures k in groups' <==> k in KeyOrder(keyOf, rows[..i + 1])
      ensures k in groups' ==> groups'[k] == GroupRows(keyOf, rows[..i + 1], k)
    {
      GroupsNext(keyOf, rows, i, k);
      assert GroupRows(keyOf, rows[..i], k) + [] == GroupRows(keyOf, rows[..i], k);
    }
  }

  method CollectGroups(keyOf: Row -> string, rows: Rows) returns (groups: map<string, seq<Row>>)
    ensures forall key :: key in groups <==> key in KeyOrder(keyOf, rows)
    ensures forall key :: key in groups ==> groups[key] == GroupRows(keyOf, rows, key)
  {
    groups := map[];
    for i := 0 to |rows|
      invariant Grouping(keyOf, rows[..i], groups)
    {
      var key := keyOf(rows[i]);
      GroupingNext(keyOf, rows, i, groups, rows[i], key);
      groups := groups[key := (if key in groups then groups[key] else []) + [rows[i]]];
    }
    assert rows[..|rows|] == rows;
  }

  method CollectRow(lib: Library, columns: seq<Column>, group: Rows) returns (result: Result<seq<Value>>)
    requires group != []
    ensures result.Ok? <==> !RowFails(columns, group)
    ensures result.Ok? ==> result.value == CollectedRow(lib, columns, group)
  {
    var values: seq<Value> := [];
    for i := 0 to |columns|
      invariant values == CollectedRow(lib, columns, group)[..i]
      invariant forall k :: 0 <= k < i ==> !CellFails(columns[k], group)
    {
      var v: Value;
      match columns[i] {
        case Plain(eval) =>
          assert columns[i] in columns;
          var r := eval(group[0]);
          if r.Err? {
            assert CellFails(columns[i], group);
            return Err(r.error);
          }
          v := r.value;
        case Agg(agg, arg) => v := EvalAggregate(lib, agg, arg, group);
      }
      values := values + [v];
    }
    result := Ok(values);
  }

  lemma CollectedNext(lib: Library, columns: seq<Column>, keyOf: Row -> string, rows: Rows, order: seq<string>,
      key: string)
    requires key in KeyOrder(keyOf, rows) && forall k <- order :: k in KeyOrder(keyOf, rows)
    ensures CollectedResult(lib, columns, keyOf, rows, order + [key])
         == CollectedResult(lib, columns, keyOf, rows, order)
           + [CollectedRow(lib, columns, GroupRows(keyOf, rows, key))]
  {
  }

  /** The slow path. Go yields the groups in any `order`; it stops at the first failing row. */
  method ExecuteGroupByCollect(lib: Library, columns: seq<Column>, keyOf: Row -> string, rows: Rows)
    returns (result: Result<seq<seq<Value>>>, ghost order: seq<string>)
    ensures Collected(lib, columns, keyOf, rows, result, order)
  {
    var groups := CollectGroups(keyOf, rows);
    var pending := groups.Keys;
    var values: seq<seq<Value>> := [];
    order := [];
    while pending != {}
      invariant pending <= groups.Keys && NoDup(order)
      invariant forall key :: key in order <==> key in groups && key !in pending
      invariant forall key <- order :: key in KeyOrder(keyOf, rows) && !RowFails(columns, groups[key])
      invariant values == CollectedResult(lib, columns, keyOf, rows, order)
      decreases pending
    {
      var key :| key in pending;
      var row := CollectRow(lib, columns, groups[key]);
      if row.Err? {
        assert key in KeyOrder(keyOf, rows) && RowFails(columns, GroupRows(keyOf, rows, key));
        return Err(row.error), order;
      }
      CollectedNext(lib, columns, keyOf, rows, order, key);
      pending := pending - {key};
      order := order + [key];
      values := values + [row.value];
    }
    result := Ok(values);
  }
}
