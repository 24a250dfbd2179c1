/** The planner for comma-separated FROM lists: push, pre-join, order, join, filter. */
module CommaJoin {
  import opened Collections
  import opened Values
  import opened Expressions
  import opened CommaJoinSpec
  import opened CommaJoinUnits
  import opened CommaJoinPlan
  import opened CommaJoinRefs
  import opened CommaJoinCounts

  lemma {:induction false} SelectConcat(env: Env, clauses: seq<Expr>, a: seq<Row>, b: seq<Row>)
    ensures Select(env, clauses, a + b) == Select(env, clauses, a) + Select(env, clauses, b)
  {
    if a == [] {
      assert a + b == b;
    } else {
      SelectConcat(env, clauses, a[1..], b);
      assert (a + b)[1..] == a[1..] + b;
    }
  }

  lemma {:induction false} CrossRowsConcat(ls: seq<Row>, l: Row, rs: seq<Row>)
    ensures CrossRows(ls + [l], rs) == CrossRows(ls, rs) + MergeEach(l, rs)
  {
    if ls == [] {
      assert CrossRows([l], rs) == MergeEach(l, rs) + CrossRows([], rs);
    } else {
      CrossRowsConcat(ls[1..], l, rs);
      assert (ls + [l])[1..] == ls[1..] + [l];
    }
  }

  lemma {:induction false} SelectNothing(env: Env, rows: seq<Row>)
    ensures Select(env, [], rows) == rows
  {
    if rows != [] {
      SelectNothing(env, rows[1..]);
    }
  }

  ghost predicate SomeFails(env: Env, clauses: seq<Expr>, rows: seq<Row>) {
    exists row <- rows :: !NoneFails(env, clauses, row)
  }

  /** The WHERE loop of the planner: keep the rows on which the joined conjuncts hold. */
  method FilterRows(env: Env, clauses: seq<Expr>, rows: seq<Row>) returns (res: Result<seq<Row>>)
    requires clauses != []
    ensures res.Ok? ==> res.value == Select(env, clauses, rows)
    ensures res.Err? ==> SomeFails(env, clauses, rows)
  {
    var pred := CombineAnd(clauses);
    var filtered := [];
    for k := 0 to |rows|
      invariant filtered == Select(env, clauses, rows[..k])
    {
      var val := Eval(env, pred, Some(rows[k]));
      CombineAndMeaning(env, clauses, rows[k]);
      if val.Err? {
        assert rows[k] in rows;
        return Err(val.error);
      }
      assert rows[..k + 1] == rows[..k] + [rows[k]];
      SelectConcat(env, clauses, rows[..k], [rows[k]]);
      if ToBool(val.value) {
        filtered := filtered + [rows[k]];
      }
    }
    assert rows[..|rows|] == rows;
    return Ok(filtered);
  }

  /** The inner loop of inlineJoin: one left row with every right row. */
  method JoinRow(env: Env, left: Row, right: seq<Row>, clauses: seq<Expr>) returns (res: Result<seq<Row>>)
    ensures res.Ok? ==> res.value == Select(env, clauses, MergeEach(left, right))
    ensures res.Err? ==> SomeFails(env, clauses, MergeEach(left, right))
  {
    var out := [];
    for j := 0 to |right|
      invariant out == Select(env, clauses, MergeEach(left, right)[..j])
    {
      var m := left + right[j];
      ghost var pairs := MergeEach(left, right);
      assert pairs[j] == m && pairs[..j + 1] == pairs[..j] + [m];
      SelectConcat(env, clauses, pairs[..j], [m]);
      if clauses != [] {
        var val := Eval(env, CombineAnd(clauses), Some(m));
        CombineAndMeaning(env, clauses, m);
        if val.Err? {
          assert m in pairs;
          return Err(val.error);
        }
        if !ToBool(val.value) {
          continue;
        }
      }
      out := out + [m];
    }
    assert MergeEach(left, right)[..|right|] == MergeEach(left, right);
    return Ok(out);
  }

  /** inlineJoin: every pair of rows, merged, kept when the conjuncts hold. */
  method InlineJoin(env: Env, left: seq<Row>, right: seq<Row>, clauses: seq<Expr>) returns (res: Result<seq<Row>>)
    ensures res.Ok? ==> res.value == Select(env, clauses, CrossRows(left, right))
    ensures res.Err? ==> SomeFails(env, clauses, CrossRows(left, right))
  {
    var out := [];
    for i := 0 to |left|
      invariant out == Select(env, clauses, CrossRows(left[..i], right))
    {
      assert left[..i + 1] == left[..i] + [left[i]];
      CrossRowsConcat(left[..i], left[i], right);
      SelectConcat(env, clauses, CrossRows(left[..i], right), MergeEach(left[i], right));
      var joined := JoinRow(env, left[i], right, clauses);
      if joined.Err? {
        FailsInCross(env, clauses, left, i, right);
        return joined;
      }
      out := out + joined.value;
    }
    assert left[..|left|] == left;
    return Ok(out);
  }

  lemma FailsInCross(env: Env, clauses: seq<Expr>, left: seq<Row>, i: nat, right: seq<Row>)
    requires i < |left| && SomeFails(env, clauses, MergeEach(left[i], right))
    ensures SomeFails(env, clauses, CrossRows(left, right))
  {
    var row :| row in MergeEach(left[i], right) && !NoneFails(env, clauses, row);
    var j :| 0 <= j < |right| && left[i] + right[j] == row;
    CrossRowsMember(left, right, i, j);
  }

  lemma {:induction false} CrossRowsMember(ls: seq<Row>, rs: seq<Row>, i: nat, j: nat)
    requires i < |ls| && j < |rs|
    ensures ls[i] + rs[j] in CrossRows(ls, rs)
  {
    if i == 0 {
      assert MergeEach(ls[0], rs)[j] == ls[0] + rs[j];
    } else {
      CrossRowsMember(ls[1..], rs, i - 1, j);
    }
  }

  // ---- conjuncts whose tables have all been seen ----

  /** applyWhenSeen: splits the pending conjuncts, losing and duplicating none. */
  method ApplyWhenSeen(tables: seq<Table>, seen: set<nat>, pending: seq<Expr>)
    returns (applicable: seq<Expr>, still: seq<Expr>)
    ensures multiset(applicable) + multiset(still) == multiset(pending)
    ensures forall c <- applicable :: c in pending && Ready(tables, seen, c)
    ensures forall c <- still :: c in pending && !Ready(tables, seen, c)
    ensures forall c <- pending :: c in applicable || c in still
  {
    applicable, still := [], [];
    for k := 0 to |pending|
      invariant multiset(applicable) + multiset(still) == multiset(pending[..k])
      invariant forall c <- applicable :: c in pending && Ready(tables, seen, c)
      invariant forall c <- still :: c in pending && !Ready(tables, seen, c)
      invariant forall c <- pending[..k] :: c in applicable || c in still
    {
      var clause := pending[k];
      var refs := TableRefs(clause);
      var ok := true;
      for r := 0 to |refs|
        invariant ok
        invariant forall q :: 0 <= q < r ==> RefReady(tables, seen, refs[q])
      {
        if !RefReady(tables, seen, refs[r]) {
          ok := false;
          break;
        }
      }
      assert ok == Ready(tables, seen, clause);
      assert pending[..k + 1] == pending[..k] + [clause];
      if ok {
        applicable := applicable + [clause];
      } else {
        still := still + [clause];
      }
    }
    assert pending[..|pending|] == pending;
  }

  /** The conjunct belongs to one table. */
  ghost predicate Pushed(tables: seq<Table>, c: Expr) {
    exists i: nat :: i < |tables| && PushesTo(tables, c, i)
  }

  ghost predicate CrossOf(tables: seq<Table>, all: seq<Expr>, pending: seq<Expr>) {
    forall c <- pending :: c in all && !Pushed(tables, c)
  }

  /** The unit builds the rows, and applied every conjunct where the planner may. */
  ghost predicate Makes(env: Env, tables: seq<Table>, u: Unit, rows: seq<Row>) {
    Builds(env, tables, u, rows) && AllMayApply(tables, u.uses)
  }

  ghost predicate AllMayApply(tables: seq<Table>, uses: seq<Use>) {
    forall use <- uses :: MayApply(tables, use)
  }

  ghost predicate FailsOn(env: Env, tables: seq<Table>, use: Use, t: Tuple) {
    && MayApply(tables, use) && TupleOver(tables, Elements(use.place), t)
    && Eval(env, use.clause, Some(Merged(tables, t, use.place))).Err?
  }

  /** A conjunct fails on some merged row the planner may apply it to. */
  ghost predicate SomeUseFails(env: Env, tables: seq<Table>, all: seq<Expr>) {
    exists use: Use, t: Tuple :: use.clause in all && FailsOn(env, tables, use, t)
  }

  lemma FailureIsUse(env: Env, tables: seq<Table>, all: seq<Expr>, u: Unit, rows: seq<Row>, clauses: seq<Expr>)
    requires Builds(env, tables, u, rows) && SomeFails(env, clauses, rows)
    requires forall c <- clauses :: c in all && MayApply(tables, Use(c, u.order))
    ensures SomeUseFails(env, tables, all)
  {
    var row :| row in rows && !NoneFails(env, clauses, row);
    var k :| 0 <= k < |rows| && rows[k] == row;
    var c :| c in clauses && Eval(env, c, Some(row)).Err?;
    assert u.tuples[k] in u.tuples && Member(env, tables, u.order, u.uses, u.tuples[k]);
    assert FailsOn(env, tables, Use(c, u.order), u.tuples[k]);
  }

  lemma FilteredMakes(env: Env, tables: seq<Table>, u: Unit, rows: seq<Row>, clauses: seq<Expr>)
    requires Makes(env, tables, u, rows)
    requires forall c <- clauses :: MayApply(tables, Use(c, u.order))
    ensures Makes(env, tables, Filtered(env, tables, u, clauses), Select(env, clauses, rows))
  {
    FilterUnit(env, tables, u, rows, clauses);
    var uses := UsesAt(clauses, u.order);
    forall use <- u.uses + uses
      ensures MayApply(tables, use)
    {
      if use !in u.uses {
        assert use.clause in clauses;
      }
    }
  }

  lemma JoinedMakes(env: Env, tables: seq<Table>, u1: Unit, ls: seq<Row>, u2: Unit, rs: seq<Row>)
    requires Makes(env, tables, u1, ls) && Makes(env, tables, u2, rs)
    requires Disjoint(Elements(u1.order), Elements(u2.order))
    ensures Makes(env, tables, Joined(u1, u2), CrossRows(ls, rs))
    ensures Elements(Joined(u1, u2).order) == Elements(u1.order) + Elements(u2.order)
    ensures Applied(Joined(u1, u2)) == Applied(u1) + Applied(u2)
  {
    JoinUnits(env, tables, u1, ls, u2, rs);
    assert forall use <- u1.uses + u2.uses :: use in u1.uses || use in u2.uses;
  }

  /** Joins the rows of two units under the conjuncts that have become applicable. */
  method JoinSeen(env: Env, tables: seq<Table>, ghost all: seq<Expr>, left: seq<Row>, ghost lu: Unit, right: seq<Row>,
      ghost ru: Unit, seen: set<nat>, pending: seq<Expr>)
    returns (res: Result<seq<Row>>, still: seq<Expr>, ghost u: Unit)
    requires Makes(env, tables, lu, left) && Makes(env, tables, ru, right)
    requires Disjoint(Elements(lu.order), Elements(ru.order)) && seen == Elements(lu.order) + Elements(ru.order)
    requires CrossOf(tables, all, pending)
    ensures res.Ok? ==> Makes(env, tables, u, res.value)
    ensures u.order == lu.order + ru.order && Elements(u.order) == seen
    ensures Accounts(Applied(u), still, Applied(lu) + Applied(ru) + multiset(pending))
    ensures CrossOf(tables, all, still)
    ensures res.Err? ==> SomeUseFails(env, tables, all)
  {
    var applicable;
    applicable, still := ApplyWhenSeen(tables, seen, pending);
    JoinedMakes(env, tables, lu, left, ru, right);
    ghost var joined := Joined(lu, ru);
    forall c | c in applicable
      ensures c in all && MayApply(tables, Use(c, joined.order))
    {
      assert !Pushed(tables, c);
    }
    FilteredMakes(env, tables, joined, CrossRows(left, right), applicable);
    FilterUnit(env, tables, joined, CrossRows(left, right), applicable);
    u := Filtered(env, tables, joined, applicable);
    res := InlineJoin(env, left, right, applicable);
    if res.Err? {
      FailureIsUse(env, tables, all, joined, CrossRows(left, right), applicable);
    }
    assert Applied(joined) + multiset(applicable) + multiset(still)
        == Applied(joined) + (multiset(applicable) + multiset(still));
  }

  ghost predicate PushedInto(tables: seq<Table>, all: seq<Expr>, i: nat, filters: seq<Expr>) {
    i < |tables| && forall c <- filters :: c in all && PushesTo(tables, c, i)
  }

  /** Loads one table and filters it with the conjuncts pushed to it. */
  method LoadFiltered(env: Env, tables: seq<Table>, ghost all: seq<Expr>, i: nat, filters: seq<Expr>)
    returns (res: Result<seq<Row>>, ghost u: Unit)
    requires PushedInto(tables, all, i, filters)
    ensures res.Ok? ==> Makes(env, tables, u, res.value)
    ensures u.order == [i] && Applied(u) == multiset(filters)
    ensures res.Err? ==> SomeUseFails(env, tables, all)
  {
    var rows := AliasedRows(tables[i]);
    TableBuilds(env, tables, i);
    u := TableUnit(tables, i);
    if filters == [] {
      assert ClausesOf([]) == [];
      return Ok(rows), u;
    }
    FilteredMakes(env, tables, u, rows, filters);
    FilterUnit(env, tables, u, rows, filters);
    res := FilterRows(env, filters, rows);
    if res.Err? {
      FailureIsUse(env, tables, all, u, rows, filters);
    }
    u := Filtered(env, tables, u, filters);
    assert ClausesOf([] + UsesAt(filters, [i])) == filters;
  }

  lemma SomeUnseen(comp: seq<nat>, seen: set<nat>)
    requires NoDup(comp) && |seen| < |comp|
    ensures exists i <- comp :: i !in seen
  {
    NoDupCardinality(comp, Elements(comp));
    if forall i <- comp :: i in seen {
      SubsetSize(Elements(comp), seen);
    }
  }

  /** Joins the tables of one component among themselves. */
  method PreJoin(env: Env, tables: seq<Table>, ghost all: seq<Expr>, comp: seq<nat>, edges: seq<Edge>,
      pending: seq<Expr>)
    returns (res: Result<seq<Row>>, seen: set<nat>, still: seq<Expr>, ghost u: Unit)
    requires comp != [] && NoDup(comp)
    requires forall i <- comp :: i < |tables|
    requires CrossOf(tables, all, pending)
    ensures res.Ok? ==> Makes(env, tables, u, res.value) && Elements(u.order) == seen == Elements(comp)
    ensures res.Ok? ==> Accounts(Applied(u), still, multiset(pending))
    ensures CrossOf(tables, all, still)
    ensures res.Err? ==> SomeUseFails(env, tables, all)
  {
    var seed := PickSeed(comp, edges);
    var rows := AliasedRows(tables[seed]);
    seen, still := {seed}, pending;
    TableBuilds(env, tables, seed);
    u := TableUnit(tables, seed);
    assert ClausesOf([]) == [] && Elements([seed]) == {seed};
    NoDupCardinality(comp, Elements(comp));
    while |seen| < |comp|
      invariant Makes(env, tables, u, rows) && Elements(u.order) == seen <= Elements(comp)
      invariant Accounts(Applied(u), still, multiset(pending) + multiset{})
      invariant CrossOf(tables, all, still)
      decreases |comp| - |seen|
    {
      SomeUnseen(comp, seen);
      var next := NextInComponent(comp, seen, edges);
      var nextRows := AliasedRows(tables[next]);
      ghost var one := TableUnit(tables, next);
      TableBuilds(env, tables, next);
      assert ClausesOf([]) == [] && Elements([next]) == {next};
      seen := seen + {next};
      ghost var before, left := u, still;
      res, still, u := JoinSeen(env, tables, all, rows, before, nextRows, one, seen, still);
      if res.Err? {
        return;
      }
      AccountsNext(Applied(before), left, multiset(pending), multiset{}, Applied(one), Applied(u), still);
      rows := res.value;
    }
    SubsetSize(seen, Elements(comp));
    res := Ok(rows);
  }

  /** WHERE as a list of conjuncts; a missing WHERE has none. */
  function Conjuncts(condition: Option<Expr>): seq<Expr> {
    if condition.Some? then SplitAnd(condition.value) else []
  }

  /** The rows a WHERE clause accepts. */
  ghost function Accepted(env: Env, condition: Option<Expr>, rows: seq<Row>): seq<Row> {
    Select(env, if condition.Some? then [condition.value] else [], rows)
  }

  lemma {:induction false} AcceptedByConjuncts(env: Env, condition: Option<Expr>, rows: seq<Row>)
    ensures Accepted(env, condition, rows) == Select(env, Conjuncts(condition), rows)
  {
    if rows != [] {
      AcceptedByConjuncts(env, condition, rows[1..]);
      if condition.Some? {
        SplitAndMeaning(env, condition.value, rows[0]);
        assert HoldsAll(env, [condition.value], rows[0]) <==> Holds(env, condition.value, rows[0]) by {
          assert [condition.value][0] == condition.value;
        }
      }
    }
  }

  /** What the pre-joined units hold: disjoint sets of tables without pushed conjuncts. */
  ghost predicate Prepared(env: Env, tables: seq<Table>, tableFilters: seq<seq<Expr>>,
      units: seq<Unit>, rows: seq<seq<Row>>, seens: seq<set<nat>>)
  {
    && |units| == |rows| == |seens|
    && |tableFilters| == |tables|
    && (forall v :: 0 <= v < |units| ==>
         && Makes(env, tables, units[v], rows[v])
         && Elements(units[v].order) == seens[v]
         && (forall i <- seens[v] :: i < |tables| && tableFilters[i] == []))
    && Apart(seens)
  }

  ghost predicate Apart(seens: seq<set<nat>>) {
    forall v, w, i :: 0 <= v < |seens| && 0 <= w < |seens| && i in seens[v] && i in seens[w] ==> v == w
  }

  ghost function AllApplied(units: seq<Unit>): multiset<Expr> {
    if units == [] then multiset{} else AllApplied(units[..|units| - 1]) + Applied(units[|units| - 1])
  }

  lemma AllAppliedNext(units: seq<Unit>, v: nat)
    requires v < |units|
    ensures AllApplied(units[..v + 1]) == AllApplied(units[..v]) + Applied(units[v])
    ensures AllApplied(units[..|units|]) == AllApplied(units)
  {
    assert units[..v + 1][..v] == units[..v];
    assert units[..|units|] == units;
  }

  ghost predicate InSome(seens: seq<set<nat>>, v: nat, i: nat) {
    exists w :: v <= w < |seens| && i in seens[w]
  }

  /** The seen sets are those of different components before `k`. */
  ghost predicate From(comps: seq<seq<nat>>, from: seq<nat>, seens: seq<set<nat>>, k: nat)
    requires k <= |comps|
  {
    && |from| == |seens|
    && (forall v :: 0 <= v < |from| ==> from[v] < k && seens[v] == Elements(comps[from[v]]))
    && forall v, w :: 0 <= v < w < |from| ==> from[v] != from[w]
  }

  lemma ApartPush(comps: seq<seq<nat>>, from: seq<nat>, seens: seq<set<nat>>, k: nat)
    requires forall k, m, i | 0 <= k < |comps| && 0 <= m < |comps| && i in comps[k] && i in comps[m] :: k == m
    requires k < |comps| && From(comps, from, seens, k) && Apart(seens)
    ensures var seens' := seens + [Elements(comps[k])];
      From(comps, from + [k], seens', k + 1) && Apart(seens')
  {
    forall v, i | 0 <= v < |seens| && i in seens[v]
      ensures i !in comps[k]
    {
      assert i in comps[from[v]];
    }
  }

  /** Pre-joins every component of at least two tables. */
  method PreJoinAll(env: Env, tables: seq<Table>, ghost all: seq<Expr>, tableFilters: seq<seq<Expr>>,
      comps: seq<seq<nat>>, edges: seq<Edge>, crossFilters: seq<Expr>)
    returns (res: Result<seq<seq<Row>>>, seens: seq<set<nat>>, preJoined: set<nat>, remaining: seq<Expr>,
      ghost units: seq<Unit>)
    requires |tableFilters| == |tables| && CrossOf(tables, all, crossFilters)
    requires forall k | 0 <= k < |comps| ::
      NoDup(comps[k]) && forall i <- comps[k] :: i < |tables| && tableFilters[i] == []
    requires forall k, m, i | 0 <= k < |comps| && 0 <= m < |comps| && i in comps[k] && i in comps[m] :: k == m
    ensures res.Ok? ==> Prepared(env, tables, tableFilters, units, res.value, seens)
    ensures res.Ok? ==> forall i: nat :: i in preJoined <==> InSome(seens, 0, i)
    ensures CrossOf(tables, all, remaining)
    ensures res.Ok? ==> Accounts(AllApplied(units), remaining, multiset(crossFilters))
    ensures res.Err? ==> SomeUseFails(env, tables, all)
  {
    var virtuals: seq<seq<Row>> := [];
    seens, preJoined, remaining, units := [], {}, crossFilters, [];
    ghost var from: seq<nat> := [];
    for k := 0 to |comps|
      invariant Prepared(env, tables, tableFilters, units, virtuals, seens)
      invariant From(comps, from, seens, k)
      invariant forall i: nat :: i in preJoined <==> InSome(seens, 0, i)
      invariant CrossOf(tables, all, remaining)
      invariant Accounts(AllApplied(units), remaining, multiset(crossFilters))
    {
      if |comps[k]| < 2 {
        continue;
      }
      var joined, seen, still;
      ghost var u;
      joined, seen, still, u := PreJoin(env, tables, all, comps[k], edges, remaining);
      if joined.Err? {
        return Err(joined.error), seens, preJoined, remaining, units;
      }
      assert (units + [u])[..|units|] == units;
      AccountsBoth(AllApplied(units), remaining, multiset(crossFilters), Applied(u), still);
      ApartPush(comps, from, seens, k);
      forall i: nat
        ensures i in preJoined + seen <==> InSome(seens + [seen], 0, i)
      {
        SeenPush(seens, seen, i);
      }
      virtuals, seens, units, from := virtuals + [joined.value], seens + [seen], units + [u], from + [k];
      preJoined, remaining := preJoined + seen, still;
    }
    res := Ok(virtuals);
  }

  lemma SeenPush(seens: seq<set<nat>>, seen: set<nat>, i: nat)
    ensures InSome(seens + [seen], 0, i) <==> InSome(seens, 0, i) || i in seen
  {
    if i in seen {
      assert (seens + [seen])[|seens|] == seen;
    }
    if InSome(seens, 0, i) {
      var w :| 0 <= w < |seens| && i in seens[w];
      assert (seens + [seen])[w] == seens[w];
    }
  }

  ghost predicate AllPushed(tables: seq<Table>, all: seq<Expr>, tableFilters: seq<seq<Expr>>)
    requires |tableFilters| == |tables|
  {
    forall i | 0 <= i < |tables| :: PushedInto(tables, all, i, tableFilters[i])
  }

  /** Loads and joins the tables outside the pre-joined units in the chosen order. */
  method JoinOrdered(env: Env, tables: seq<Table>, ghost all: seq<Expr>, tableFilters: seq<seq<Expr>>, order: seq<nat>,
      pending: seq<Expr>)
    returns (res: Result<seq<Row>>, seen: set<nat>, remaining: seq<Expr>, ghost u: Unit)
    requires |tableFilters| == |tables| && CrossOf(tables, all, pending)
    requires order != [] && NoDup(order)
    requires forall k | 0 <= k < |order| :: order[k] < |tables|
    requires AllPushed(tables, all, tableFilters)
    ensures res.Ok? ==> Makes(env, tables, u, res.value) && u.order == order && seen == Elements(order)
    ensures res.Ok? ==> Accounts(Applied(u), remaining, multiset(pending) + FiltersOf(tableFilters, order))
    ensures CrossOf(tables, all, remaining)
    ensures res.Err? ==> SomeUseFails(env, tables, all)
  {
    var first := order[0];
    remaining := pending;
    seen := {first};
    res, u := LoadFiltered(env, tables, all, first, tableFilters[first]);
    if res.Err? {
      return;
    }
    var rows := res.value;
    assert order[..1] == [first];
    OrderNext(order, 0);
    AccountsFirst(tableFilters, order, pending);
    for k := 1 to |order|
      invariant Makes(env, tables, u, rows) && u.order == order[..k] && seen == Elements(order[..k])
      invariant Accounts(Applied(u), remaining, multiset(pending) + FiltersOf(tableFilters, order[..k]))
      invariant CrossOf(tables, all, remaining)
    {
      var idx := order[k];
      var right;
      ghost var one;
      right, one := LoadFiltered(env, tables, all, idx, tableFilters[idx]);
      if right.Err? {
        return right, seen, remaining, u;
      }
      OrderNext(order, k);
      assert Elements([idx]) == {idx} && order[..k + 1] == order[..k] + [idx];
      seen := seen + {idx};
      ghost var before, left := u, remaining;
      res, remaining, u := JoinSeen(env, tables, all, rows, before, right.value, one, seen, remaining);
      if res.Err? {
        return;
      }
      AccountsOrdered(tableFilters, order, k, pending, Applied(before), left, Applied(u), remaining);
      rows := res.value;
    }
    assert order[..|order|] == order;
    FiltersNext(tableFilters, order, 0);
    res := Ok(rows);
  }

  ghost predicate Gathered(seen: set<nat>, seen0: set<nat>, seens: seq<set<nat>>, v: nat)
    requires v <= |seens|
  {
    forall i: nat :: i in seen <==> i in seen0 || InSome(seens[..v], 0, i)
  }

  lemma GatheredNext(seen: set<nat>, seen0: set<nat>, seens: seq<set<nat>>, v: nat)
    requires v < |seens| && Apart(seens) && Gathered(seen, seen0, seens, v)
    requires forall i <- seen0 :: !InSome(seens, 0, i)
    ensures Disjoint(seen, seens[v]) && Gathered(seen + seens[v], seen0, seens, v + 1)
  {
    assert seens[..v + 1] == seens[..v] + [seens[v]];
    forall i: nat
      ensures i in seen + seens[v] <==> i in seen0 || InSome(seens[..v + 1], 0, i)
    {
      SeenPush(seens[..v], seens[v], i);
    }
    forall i | i in seen
      ensures i !in seens[v]
    {
      if i in seens[v] {
        assert InSome(seens, 0, i);
      }
    }
  }

  /** Joins the pre-joined units to the rows built so far. */
  method IntegrateVirtuals(env: Env, tables: seq<Table>, ghost all: seq<Expr>, ghost tableFilters: seq<seq<Expr>>,
      rows0: seq<Row>, ghost u0: Unit, virtuals: seq<seq<Row>>, seens: seq<set<nat>>, ghost units: seq<Unit>,
      seen0: set<nat>, pending: seq<Expr>)
    returns (res: Result<seq<Row>>, seen: set<nat>, remaining: seq<Expr>, ghost u: Unit)
    requires Makes(env, tables, u0, rows0) && Elements(u0.order) == seen0
    requires Prepared(env, tables, tableFilters, units, virtuals, seens)
    requires forall i <- seen0 :: !InSome(seens, 0, i)
    requires CrossOf(tables, all, pending)
    ensures res.Ok? ==> Makes(env, tables, u, res.value) && Elements(u.order) == seen
    ensures res.Ok? ==> forall i :: i in seen <==> i in seen0 || InSome(seens, 0, i)
    ensures res.Ok? ==> Accounts(Applied(u), remaining, Applied(u0) + multiset(pending) + AllApplied(units))
    ensures CrossOf(tables, all, remaining)
    ensures res.Err? ==> SomeUseFails(env, tables, all)
  {
    var rows := rows0;
    seen, remaining, u := seen0, pending, u0;
    for v := 0 to |virtuals|
      invariant Makes(env, tables, u, rows) && Elements(u.order) == seen
      invariant Gathered(seen, seen0, seens, v)
      invariant Accounts(Applied(u), remaining, Applied(u0) + multiset(pending) + AllApplied(units[..v]))
      invariant CrossOf(tables, all, remaining)
    {
      GatheredNext(seen, seen0, seens, v);
      seen := seen + seens[v];
      ghost var before, left := u, remaining;
      res, remaining, u := JoinSeen(env, tables, all, rows, before, virtuals[v], units[v], seen, remaining);
      if res.Err? {
        return;
      }
      AllAppliedNext(units, v);
      AccountsNext(Applied(before), left, Applied(u0) + multiset(pending), AllApplied(units[..v]), Applied(units[v]),
        Applied(u), remaining);
      rows := res.value;
    }
    assert units[..|units|] == units && seens[..|seens|] == seens;
    res := Ok(rows);
  }

  /** Filters by the conjuncts that never became applicable. */
  method FilterRemaining(env: Env, tables: seq<Table>, ghost all: seq<Expr>, rows: seq<Row>, ghost u0: Unit,
      remaining: seq<Expr>)
    returns (res: Result<seq<Row>>, ghost u: Unit)
    requires Makes(env, tables, u0, rows) && Elements(u0.order) == Range(|tables|)
    requires CrossOf(tables, all, remaining)
    ensures res.Ok? ==> Makes(env, tables, u, res.value) && u.order == u0.order
    ensures Applied(u) == Applied(u0) + multiset(remaining)
    ensures res.Err? ==> SomeUseFails(env, tables, all)
  {
    if remaining == [] {
      return Ok(rows), u0;
    }
    forall c | c in remaining
      ensures c in all && MayApply(tables, Use(c, u0.order))
    {
      assert !Pushed(tables, c);
    }
    FilteredMakes(env, tables, u0, rows, remaining);
    FilterUnit(env, tables, u0, rows, remaining);
    u := Filtered(env, tables, u0, remaining);
    res := FilterRows(env, remaining, rows);
    if res.Err? {
      FailureIsUse(env, tables, all, u0, rows, remaining);
    }
  }

  /** Joins the tables that were not pre-joined, if any, in greedy order. */
  method JoinGreedy(env: Env, tables: seq<Table>, ghost all: seq<Expr>, tableFilters: seq<seq<Expr>>,
      edges: seq<Edge>, preJoined: set<nat>, pending: seq<Expr>)
    returns (res: Result<seq<Row>>, seen: set<nat>, remaining: seq<Expr>, ghost u: Unit)
    requires |tableFilters| == |tables| && CrossOf(tables, all, pending)
    requires forall i <- preJoined :: i < |tables| && tableFilters[i] == []
    requires AllPushed(tables, all, tableFilters)
    ensures res.Ok? ==> Makes(env, tables, u, res.value) && Elements(u.order) == seen
    ensures res.Ok? ==> forall i: nat :: i in seen <==> i < |tables| && i !in preJoined
    ensures res.Ok? ==> Accounts(Applied(u), remaining, multiset(pending) + Pooled(tableFilters))
    ensures CrossOf(tables, all, remaining)
    ensures res.Err? ==> SomeUseFails(env, tables, all)
  {
    var order := GreedyOrder(tableFilters, edges, preJoined);
    FiltersOfAll(tableFilters, order);
    if order == [] {
      EmptyUnit(env, tables);
      assert ClausesOf([]) == [] && Elements<nat>([]) == {};
      return Ok([map[]]), {}, pending, NOTHING;
    }
    assert forall k | 0 <= k < |order| :: order[k] in order;
    res, seen, remaining, u := JoinOrdered(env, tables, all, tableFilters, order, pending);
  }

  /** Joins the remaining tables and the pre-joined units; then every table is seen and every conjunct
      is applied once or remains. */
  method JoinEverything(env: Env, tables: seq<Table>, ghost all: seq<Expr>, tableFilters: seq<seq<Expr>>,
      edges: seq<Edge>, preJoined: set<nat>, virtuals: seq<seq<Row>>, seens: seq<set<nat>>, ghost units: seq<Unit>,
      pending: seq<Expr>)
    returns (res: Result<seq<Row>>, remaining: seq<Expr>, ghost u: Unit)
    requires Prepared(env, tables, tableFilters, units, virtuals, seens)
    requires forall i: nat :: i in preJoined <==> InSome(seens, 0, i)
    requires AllPushed(tables, all, tableFilters) && CrossOf(tables, all, pending)
    ensures res.Ok? ==> Makes(env, tables, u, res.value) && Elements(u.order) == Range(|tables|)
    ensures res.Ok? ==> Accounts(Applied(u), remaining, multiset(pending) + Pooled(tableFilters) + AllApplied(units))
    ensures CrossOf(tables, all, remaining)
    ensures res.Err? ==> SomeUseFails(env, tables, all)
  {
    var seen;
    res, seen, remaining, u := JoinGreedy(env, tables, all, tableFilters, edges, preJoined, pending);
    if res.Err? {
      return;
    }
    ghost var base, left := u, remaining;
    res, seen, remaining, u :=
      IntegrateVirtuals(env, tables, all, tableFilters, res.value, base, virtuals, seens, units, seen, remaining);
  }

  // ---- the whole plan ----

  /** The plan joined every table and applied every conjunct exactly once, where it may; and `rows` are
      the merges of exactly the tuples on which every conjunct held where it was applied. */
  ghost predicate Planned(env: Env, tables: seq<Table>, condition: Option<Expr>, u: Unit, rows: seq<Row>) {
    && Makes(env, tables, u, rows)
    && Elements(u.order) == Range(|tables|)
    && Applied(u) == multiset(Conjuncts(condition))
  }

  /** The rows are, as a multiset and up to unqualified names that several tables share, those of the
      cross product in FROM order that WHERE accepts. */
  ghost predicate AnswersWhere(env: Env, tables: seq<Table>, condition: Option<Expr>, rows: seq<Row>) {
    multiset(VisibleAll(tables, rows))
    == multiset(VisibleAll(tables, Accepted(env, condition, CrossProduct(tables, |tables|))))
  }

  /** On every tuple all conjuncts hold where they were applied exactly when they hold on the full row. */
  ghost predicate AppliedFaithfully(env: Env, tables: seq<Table>, condition: Option<Expr>, u: Unit) {
    SameAnswers(env, tables, Range(|tables|), u.uses, UsesAt(Conjuncts(condition), FromOrder(|tables|)))
  }

  lemma WhereUnit(env: Env, tables: seq<Table>, condition: Option<Expr>) returns (u: Unit)
    ensures Builds(env, tables, u, Accepted(env, condition, CrossProduct(tables, |tables|)))
    ensures Elements(u.order) == Range(|tables|)
    ensures u.uses == UsesAt(Conjuncts(condition), FromOrder(|tables|))
  {
    var n, clauses := |tables|, Conjuncts(condition);
    var whole := CrossProductUnit(env, tables, n);
    FilterUnit(env, tables, whole, CrossProduct(tables, n), clauses);
    AcceptedByConjuncts(env, condition, CrossProduct(tables, n));
    FromOrderNext(n);
    u := Filtered(env, tables, whole, clauses);
    assert [] + UsesAt(clauses, FromOrder(n)) == UsesAt(clauses, FromOrder(n));
  }

  /** Where stored rows have row ids of their own, a plan answers WHERE if and only if it applied the
      conjuncts faithfully; where they do not, still if. */
  lemma PlanAnswersIff(env: Env, tables: seq<Table>, condition: Option<Expr>, u: Unit, rows: seq<Row>)
    requires WellFormed(tables) && Planned(env, tables, condition, u, rows)
    ensures AppliedFaithfully(env, tables, condition, u) ==> AnswersWhere(env, tables, condition, rows)
    ensures Identified(tables) && AnswersWhere(env, tables, condition, rows)
      ==> AppliedFaithfully(env, tables, condition, u)
  {
    var whole := WhereUnit(env, tables, condition);
    var accepted := Accepted(env, condition, CrossProduct(tables, |tables|));
    if AppliedFaithfully(env, tables, condition, u) {
      UnitsAgree(env, tables, u, rows, whole, accepted);
    }
    if Identified(tables) {
      UnitsAgreeIff(env, tables, u, rows, whole, accepted);
    }
  }

  ghost predicate AllResolved(env: Env, tables: seq<Table>, condition: Option<Expr>) {
    forall c <- Conjuncts(condition) :: Resolved(env, tables, c)
  }

  /** A conjunct that is resolved holds where it is applied exactly when it holds on the full row. */
  lemma ResolvedUse(env: Env, tables: seq<Table>, use: Use, t: Tuple)
    requires WellFormed(tables) && Resolved(env, tables, use.clause) && MayApply(tables, use)
    requires Elements(use.place) <= Range(|tables|) && TupleOver(tables, Range(|tables|), t)
    ensures HoldsAt(env, tables, use, t) <==> Holds(env, use.clause, Merged(tables, t, FromOrder(|tables|)))
  {
    var part := Restrict(t, Elements(use.place));
    FromOrderNext(|tables|);
    AppliedIsCovered(env, tables, use);
    PartOfTuple(tables, use.place, t, Range(|tables|));
    EvalLocal(env, tables, use.clause, Elements(use.place), part, use.place, t, FromOrder(|tables|));
  }

  lemma PartOfTuple(tables: seq<Table>, place: seq<nat>, t: Tuple, seen: set<nat>)
    requires TupleOver(tables, seen, t) && Elements(place) <= seen
    ensures var part := Restrict(t, Elements(place));
      && TupleOver(tables, Elements(place), part)
      && Merged(tables, t, place) == Merged(tables, part, place)
      && forall i <- Elements(place) :: i in part && i in t && part[i] == t[i]
  {
    var part := Restrict(t, Elements(place));
    assert part.Keys == Elements(place);
    forall i <- part
      ensures Picks(tables, part, i)
    {
      assert Picks(tables, t, i);
    }
    forall k | 0 <= k < |place|
      ensures place[k] in part
    {
      assert place[k] in Elements(place);
    }
    MergedLocal(tables, t, part, place);
  }

  /** Resolved conjuncts are applied faithfully by every plan. */
  lemma ResolvedIsFaithful(env: Env, tables: seq<Table>, condition: Option<Expr>, u: Unit, rows: seq<Row>)
    requires WellFormed(tables) && Planned(env, tables, condition, u, rows) && AllResolved(env, tables, condition)
    ensures AppliedFaithfully(env, tables, condition, u)
  {
    var clauses, order := Conjuncts(condition), FromOrder(|tables|);
    forall t | TupleOver(tables, Range(|tables|), t)
      ensures AllHoldAt(env, tables, u.uses, t) <==> AllHoldAt(env, tables, UsesAt(clauses, order), t)
    {
      UsesHold(env, tables, clauses, order, t);
      forall use <- u.uses
        ensures use.clause in clauses
        ensures HoldsAt(env, tables, use, t) <==> Holds(env, use.clause, Merged(tables, t, order))
      {
        UseIsConjunct(u.uses, clauses, use);
        ResolvedUse(env, tables, use, t);
      }
      forall c <- clauses
        ensures exists use <- u.uses :: use.clause == c
      {
        ConjunctIsUsed(u.uses, clauses, c);
      }
    }
  }

  lemma UseIsConjunct(uses: seq<Use>, clauses: seq<Expr>, use: Use)
    requires multiset(ClausesOf(uses)) == multiset(clauses) && use in uses
    ensures use.clause in clauses
  {
    var k :| 0 <= k < |uses| && uses[k] == use;
    assert ClausesOf(uses)[k] == use.clause;
    assert use.clause in multiset(ClausesOf(uses));
  }

  lemma ConjunctIsUsed(uses: seq<Use>, clauses: seq<Expr>, c: Expr)
    requires multiset(ClausesOf(uses)) == multiset(clauses) && c in clauses
    ensures exists use <- uses :: use.clause == c
  {
    assert c in multiset(clauses);
    assert c in multiset(ClausesOf(uses));
    var k :| 0 <= k < |uses| && ClausesOf(uses)[k] == c;
    assert uses[k] in uses;
  }

  /** No conjunct fails on a partial row that settles what it reads. */
  ghost predicate ErrorFree(env: Env, tables: seq<Table>, clauses: seq<Expr>) {
    forall c, t, order | c in clauses :: FailsNot(env, tables, c, t, order)
  }

  ghost predicate FailsNot(env: Env, tables: seq<Table>, c: Expr, t: Tuple, order: seq<nat>) {
    TupleOver(tables, Elements(order), t) && Covered(env, tables, c, Elements(order)) ==>
      Eval(env, c, Some(Merged(tables, t, order))).Ok?
  }

  lemma ResolvedFailsNot(env: Env, tables: seq<Table>, condition: Option<Expr>)
    requires WellFormed(tables) && AllResolved(env, tables, condition)
    requires ErrorFree(env, tables, Conjuncts(condition))
    ensures !SomeUseFails(env, tables, Conjuncts(condition))
  {
    forall use: Use, t: Tuple | use.clause in Conjuncts(condition)
      ensures !FailsOn(env, tables, use, t)
    {
      if MayApply(tables, use) {
        AppliedIsCovered(env, tables, use);
        assert FailsNot(env, tables, use.clause, t, use.place);
      }
    }
  }

  /** The whole plan, for any tables and any WHERE: it fails only if some conjunct does where it may be
      applied, and otherwise joins every table and applies every conjunct once. Its rows answer WHERE
      exactly when the conjuncts were applied faithfully, as resolved ones always are. */
  method PlanCommaJoin(env: Env, tables: seq<Table>, condition: Option<Expr>)
    returns (res: Result<seq<Row>>, ghost u: Unit)
    requires WellFormed(tables) && |tables| > 1
    ensures res.Ok? ==> Planned(env, tables, condition, u, res.value)
    ensures res.Err? ==> SomeUseFails(env, tables, Conjuncts(condition))
    ensures res.Ok? && Identified(tables) ==>
      (AnswersWhere(env, tables, condition, res.value) <==> AppliedFaithfully(env, tables, condition, u))
    ensures res.Ok? && AllResolved(env, tables, condition) ==> AnswersWhere(env, tables, condition, res.value)
    ensures AllResolved(env, tables, condition) && ErrorFree(env, tables, Conjuncts(condition)) ==> res.Ok?
  {
    if AllResolved(env, tables, condition) && ErrorFree(env, tables, Conjuncts(condition)) {
      ResolvedFailsNot(env, tables, condition);
    }
    res, u := RunPlan(env, tables, Conjuncts(condition));
    if res.Ok? {
      PlanAnswersIff(env, tables, condition, u, res.value);
      if AllResolved(env, tables, condition) {
        ResolvedIsFaithful(env, tables, condition, u, res.value);
      }
    }
  }

  /** Classify, pre-join, order, join, filter. */
  method RunPlan(env: Env, tables: seq<Table>, all: seq<Expr>) returns (res: Result<seq<Row>>, ghost u: Unit)
    ensures res.Ok? ==>
      Makes(env, tables, u, res.value) && Elements(u.order) == Range(|tables|) && Applied(u) == multiset(all)
    ensures res.Err? ==> SomeUseFails(env, tables, all)
  {
    var n := |tables|;
    var tableFilters, crossFilters := Classify(tables, all);
    var edges := CrossEdges(tables, crossFilters);
    var crossOnly := CrossOnly(n, tableFilters, edges);
    var comps := Components(n, crossOnly, edges);
    var virtuals, seens, preJoined, remaining;
    ghost var units;
    virtuals, seens, preJoined, remaining, units :=
      PreJoinAll(env, tables, all, tableFilters, comps, edges, crossFilters);
    if virtuals.Err? {
      return Err(virtuals.error), NOTHING;
    }
    res, remaining, u :=
      JoinEverything(env, tables, all, tableFilters, edges, preJoined, virtuals.value, seens, units, remaining);
    if res.Err? {
      return;
    }
    res, u := FilterRemaining(env, tables, all, res.value, u, remaining);
  }
}
