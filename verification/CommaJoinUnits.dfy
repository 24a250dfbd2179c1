/** Joined sets of rows, each matched with the tuples of stored rows it was built from. A unit knows
    in which order its tables were merged, and which conjuncts it has applied on which merged rows;
    joining and filtering units keeps them exact. */
module CommaJoinUnits {
  import opened Collections
  import opened Values
  import opened Expressions
  import opened CommaJoinSpec

  // ---- tuples behind CrossRows and Select ----

  function PairEach(a: Tuple, bs: seq<Tuple>): seq<Tuple> {
    seq(|bs|, k requires 0 <= k < |bs| => a + bs[k])
  }

  function CrossTuples(xs: seq<Tuple>, ys: seq<Tuple>): seq<Tuple> {
    if xs == [] then [] else PairEach(xs[0], ys) + CrossTuples(xs[1..], ys)
  }

  /** The tuples whose rows, merged in `order`, satisfy the conjuncts. */
  ghost function SelectTuples(env: Env, tables: seq<Table>, clauses: seq<Expr>, order: seq<nat>, ts: seq<Tuple>)
    : seq<Tuple>
  {
    if ts == [] then []
    else
      (if HoldsAll(env, clauses, Merged(tables, ts[0], order)) then [ts[0]] else [])
      + SelectTuples(env, tables, clauses, order, ts[1..])
  }

  ghost predicate AllOver(tables: seq<Table>, seen: set<nat>, ts: seq<Tuple>) {
    forall t <- ts :: TupleOver(tables, seen, t)
  }

  /** The rows are the tuples' stored rows merged in `order`. */
  ghost predicate Rep(tables: seq<Table>, rows: seq<Row>, order: seq<nat>, ts: seq<Tuple>) {
    |rows| == |ts| && forall k :: 0 <= k < |ts| ==> rows[k] == Merged(tables, ts[k], order)
  }

  lemma SplitSum(a: Tuple, b: Tuple, a': Tuple, b': Tuple)
    requires a.Keys == a'.Keys && b.Keys == b'.Keys
    requires forall i <- a :: i !in b
    requires a + b == a' + b'
    ensures a == a' && b == b'
  {
    forall i | i in a
      ensures a[i] == a'[i]
    {
      assert (a + b)[i] == a[i] && (a' + b')[i] == a'[i];
    }
    forall i | i in b
      ensures b[i] == b'[i]
    {
      assert (a + b)[i] == b[i] && (a' + b')[i] == b'[i];
    }
  }

  lemma SumOver(tables: seq<Table>, s1: set<nat>, s2: set<nat>, a: Tuple, b: Tuple)
    requires TupleOver(tables, s1, a) && TupleOver(tables, s2, b)
    ensures TupleOver(tables, s1 + s2, a + b)
  {
  }

  ghost predicate Disjoint(s1: set<nat>, s2: set<nat>) {
    forall i <- s1 :: i !in s2
  }

  lemma {:induction false} CrossMembers(xs: seq<Tuple>, ys: seq<Tuple>, t: Tuple)
    ensures t in CrossTuples(xs, ys) <==> exists a, b :: a in xs && b in ys && t == a + b
  {
    if xs != [] {
      CrossMembers(xs[1..], ys, t);
      if t in PairEach(xs[0], ys) {
        var k :| 0 <= k < |ys| && t == xs[0] + ys[k];
      }
      if a, b :| a in xs && b in ys && t == a + b {
        if a == xs[0] {
          var k :| 0 <= k < |ys| && ys[k] == b;
          assert PairEach(xs[0], ys)[k] == t;
        } else {
          assert a in xs[1..];
        }
      }
    }
  }

  lemma PairNoDup(tables: seq<Table>, s1: set<nat>, x: Tuple, s2: set<nat>, ys: seq<Tuple>)
    requires TupleOver(tables, s1, x) && AllOver(tables, s2, ys) && Disjoint(s1, s2)
    requires NoDup(ys)
    ensures NoDup(PairEach(x, ys))
  {
    forall i, j | 0 <= i < j < |ys|
      ensures PairEach(x, ys)[i] != PairEach(x, ys)[j]
    {
      assert ys[i] in ys && ys[j] in ys;
      if x + ys[i] == x + ys[j] {
        SplitSum(x, ys[i], x, ys[j]);
      }
    }
  }

  lemma {:induction false} CrossNoDup(tables: seq<Table>, s1: set<nat>, xs: seq<Tuple>, s2: set<nat>, ys: seq<Tuple>)
    requires AllOver(tables, s1, xs) && AllOver(tables, s2, ys)
    requires Disjoint(s1, s2)
    requires NoDup(xs) && NoDup(ys)
    ensures NoDup(CrossTuples(xs, ys))
  {
    if xs != [] {
      var x := xs[0];
      assert x in xs;
      CrossNoDup(tables, s1, xs[1..], s2, ys);
      PairNoDup(tables, s1, x, s2, ys);
      forall t | t in PairEach(x, ys)
        ensures t !in CrossTuples(xs[1..], ys)
      {
        var k :| 0 <= k < |ys| && t == x + ys[k];
        CrossMembers(xs[1..], ys, t);
        if a, b :| a in xs[1..] && b in ys && t == a + b {
          assert ys[k] in ys && a in xs;
          SplitSum(x, ys[k], a, b);
        }
      }
      NoDupConcat(PairEach(x, ys), CrossTuples(xs[1..], ys));
    }
  }

  lemma MergedSum(tables: seq<Table>, o1: seq<nat>, x: Tuple, o2: seq<nat>, y: Tuple)
    requires TupleOver(tables, Elements(o1), x) && TupleOver(tables, Elements(o2), y)
    requires Disjoint(Elements(o1), Elements(o2))
    ensures Merged(tables, x + y, o1 + o2) == Merged(tables, x, o1) + Merged(tables, y, o2)
  {
    MergedConcat(tables, x + y, o1, o2);
    forall k | 0 <= k < |o1|
      ensures o1[k] in x && o1[k] !in y
    {
      assert o1[k] in Elements(o1);
    }
    forall k | 0 <= k < |o2|
      ensures o2[k] in y
    {
      assert o2[k] in Elements(o2);
    }
    MergedLocal(tables, x + y, x, o1);
    MergedLocal(tables, x + y, y, o2);
  }

  lemma {:induction false} CrossRep(tables: seq<Table>, o1: seq<nat>, xs: seq<Tuple>, ls: seq<Row>, o2: seq<nat>,
      ys: seq<Tuple>, rs: seq<Row>)
    requires AllOver(tables, Elements(o1), xs) && AllOver(tables, Elements(o2), ys)
    requires Disjoint(Elements(o1), Elements(o2))
    requires Rep(tables, ls, o1, xs) && Rep(tables, rs, o2, ys)
    ensures Rep(tables, CrossRows(ls, rs), o1 + o2, CrossTuples(xs, ys))
  {
    if xs != [] {
      CrossRep(tables, o1, xs[1..], ls[1..], o2, ys, rs);
      forall k | 0 <= k < |ys|
        ensures Merged(tables, xs[0] + ys[k], o1 + o2) == ls[0] + rs[k]
      {
        assert xs[0] in xs && ys[k] in ys;
        MergedSum(tables, o1, xs[0], o2, ys[k]);
      }
      RepConcat(tables, o1 + o2, MergeEach(ls[0], rs), PairEach(xs[0], ys),
        CrossRows(ls[1..], rs), CrossTuples(xs[1..], ys));
    }
  }

  lemma RepConcat(tables: seq<Table>, order: seq<nat>, r1: seq<Row>, t1: seq<Tuple>, r2: seq<Row>, t2: seq<Tuple>)
    requires Rep(tables, r1, order, t1) && Rep(tables, r2, order, t2)
    ensures Rep(tables, r1 + r2, order, t1 + t2)
  {
  }

  /** Filtering rows filters the tuples behind them. */
  lemma {:induction false} SelectRep(env: Env, tables: seq<Table>, clauses: seq<Expr>, rows: seq<Row>, order: seq<nat>,
      ts: seq<Tuple>)
    requires Rep(tables, rows, order, ts)
    ensures Rep(tables, Select(env, clauses, rows), order, SelectTuples(env, tables, clauses, order, ts))
  {
    if ts != [] {
      SelectRep(env, tables, clauses, rows[1..], order, ts[1..]);
    }
  }

  lemma {:induction false} SelectMembers(env: Env, tables: seq<Table>, clauses: seq<Expr>, order: seq<nat>,
      ts: seq<Tuple>, t: Tuple)
    ensures t in SelectTuples(env, tables, clauses, order, ts)
       <==> t in ts && HoldsAll(env, clauses, Merged(tables, t, order))
  {
    if ts != [] {
      SelectMembers(env, tables, clauses, order, ts[1..], t);
      assert ts == [ts[0]] + ts[1..];
    }
  }

  lemma {:induction false} SelectNoDup(env: Env, tables: seq<Table>, clauses: seq<Expr>, order: seq<nat>,
      ts: seq<Tuple>)
    requires NoDup(ts)
    ensures NoDup(SelectTuples(env, tables, clauses, order, ts))
  {
    if ts != [] {
      SelectNoDup(env, tables, clauses, order, ts[1..]);
      SelectMembers(env, tables, clauses, order, ts[1..], ts[0]);
      NoDupConcat([ts[0]], SelectTuples(env, tables, clauses, order, ts[1..]));
    }
  }

  // ---- units ----

  /** A conjunct and the order in which the rows it was applied to had been merged. */
  datatype Use = Use(clause: Expr, place: seq<nat>)

  datatype Unit = Unit(tuples: seq<Tuple>, order: seq<nat>, uses: seq<Use>)

  function UsesAt(clauses: seq<Expr>, place: seq<nat>): seq<Use> {
    seq(|clauses|, k requires 0 <= k < |clauses| => Use(clauses[k], place))
  }

  function ClausesOf(uses: seq<Use>): seq<Expr> {
    seq(|uses|, k requires 0 <= k < |uses| => uses[k].clause)
  }

  /** The conjuncts a unit has applied, each as often as it was. */
  function Applied(u: Unit): multiset<Expr> {
    multiset(ClausesOf(u.uses))
  }

  ghost predicate HoldsAt(env: Env, tables: seq<Table>, use: Use, t: Tuple) {
    Holds(env, use.clause, Merged(tables, t, use.place))
  }

  ghost predicate AllHoldAt(env: Env, tables: seq<Table>, uses: seq<Use>, t: Tuple) {
    forall use <- uses :: HoldsAt(env, tables, use, t)
  }

  ghost predicate Member(env: Env, tables: seq<Table>, order: seq<nat>, uses: seq<Use>, t: Tuple) {
    TupleOver(tables, Elements(order), t) && AllHoldAt(env, tables, uses, t)
  }

  /** Every conjunct was applied to rows of the unit's tables. */
  ghost predicate PlacedIn(order: seq<nat>, uses: seq<Use>) {
    forall use <- uses :: Elements(use.place) <= Elements(order)
  }

  /** `rows` are the merges, in the unit's order, of exactly the tuples over its tables on which every
      applied conjunct holds where it was applied, each tuple once. */
  ghost predicate Builds(env: Env, tables: seq<Table>, u: Unit, rows: seq<Row>) {
    && NoDup(u.order)
    && Rep(tables, rows, u.order, u.tuples)
    && NoDup(u.tuples)
    && PlacedIn(u.order, u.uses)
    && (forall t :: t in u.tuples <==> Member(env, tables, u.order, u.uses, t))
  }

  lemma MembersOver(env: Env, tables: seq<Table>, u: Unit, rows: seq<Row>)
    requires Builds(env, tables, u, rows)
    ensures AllOver(tables, Elements(u.order), u.tuples)
  {
    forall t <- u.tuples
      ensures TupleOver(tables, Elements(u.order), t)
    {
      assert Member(env, tables, u.order, u.uses, t);
    }
  }

  const NOTHING := Unit([map[]], [], [])

  lemma EmptyUnit(env: Env, tables: seq<Table>)
    ensures Builds(env, tables, NOTHING, [map[]])
  {
    assert Elements<nat>([]) == {};
    forall t
      ensures t in NOTHING.tuples <==> Member(env, tables, [], [], t)
    {
      assert t.Keys == {} <==> t == map[];
    }
  }

  function TableTuples(tables: seq<Table>, i: nat): seq<Tuple>
    requires i < |tables|
  {
    seq(|tables[i].rows|, k requires 0 <= k < |tables[i].rows| => map[i := k])
  }

  function TableUnit(tables: seq<Table>, i: nat): Unit
    requires i < |tables|
  {
    Unit(TableTuples(tables, i), [i], [])
  }

  /** Loading one table. */
  lemma TableBuilds(env: Env, tables: seq<Table>, i: nat)
    requires i < |tables|
    ensures Builds(env, tables, TableUnit(tables, i), AliasedRows(tables[i]))
  {
    var ts := TableTuples(tables, i);
    assert Elements([i]) == {i};
    forall k | 0 <= k < |ts|
      ensures AliasedRows(tables[i])[k] == Merged(tables, ts[k], [i])
    {
      MergedOne(tables, ts[k], i);
    }
    forall j, k | 0 <= j < k < |ts|
      ensures ts[j] != ts[k]
    {
      assert ts[j][i] == j && ts[k][i] == k;
    }
    forall t
      ensures t in ts <==> Member(env, tables, [i], [], t)
    {
      if Member(env, tables, [i], [], t) {
        assert i in t.Keys && Picks(tables, t, i);
        assert t == map[i := t[i]];
        assert ts[t[i]] == t;
      }
    }
  }

  function Restrict(t: Tuple, s: set<nat>): Tuple {
    map i | i in t && i in s :: t[i]
  }

  /** A conjunct holds on a tuple where it was applied if it does on the part it was applied to. */
  lemma Narrow(env: Env, tables: seq<Table>, order: seq<nat>, uses: seq<Use>, whole: Tuple, part: Tuple)
    requires PlacedIn(order, uses)
    requires forall i <- Elements(order) :: i in whole && i in part && whole[i] == part[i]
    ensures AllHoldAt(env, tables, uses, whole) <==> AllHoldAt(env, tables, uses, part)
  {
    forall use <- uses
      ensures HoldsAt(env, tables, use, whole) == HoldsAt(env, tables, use, part)
    {
      forall k | 0 <= k < |use.place|
        ensures use.place[k] in Elements(order)
      {
        assert use.place[k] in Elements(use.place);
      }
      MergedLocal(tables, whole, part, use.place);
    }
  }

  lemma ElementsConcat<T>(a: seq<T>, b: seq<T>)
    ensures Elements(a + b) == Elements(a) + Elements(b)
  {
  }

  lemma SumMember(env: Env, tables: seq<Table>, u1: Unit, t1: Tuple, u2: Unit, t2: Tuple)
    requires PlacedIn(u1.order, u1.uses) && PlacedIn(u2.order, u2.uses)
    requires Disjoint(Elements(u1.order), Elements(u2.order))
    requires TupleOver(tables, Elements(u1.order), t1) && TupleOver(tables, Elements(u2.order), t2)
    ensures Member(env, tables, u1.order + u2.order, u1.uses + u2.uses, t1 + t2)
       <==> Member(env, tables, u1.order, u1.uses, t1) && Member(env, tables, u2.order, u2.uses, t2)
  {
    ElementsConcat(u1.order, u2.order);
    SumOver(tables, Elements(u1.order), Elements(u2.order), t1, t2);
    Narrow(env, tables, u1.order, u1.uses, t1 + t2, t1);
    Narrow(env, tables, u2.order, u2.uses, t1 + t2, t2);
    AllHoldConcat(env, tables, u1.uses, u2.uses, t1 + t2);
  }

  lemma AllHoldConcat(env: Env, tables: seq<Table>, a: seq<Use>, b: seq<Use>, t: Tuple)
    ensures AllHoldAt(env, tables, a + b, t) <==> AllHoldAt(env, tables, a, t) && AllHoldAt(env, tables, b, t)
  {
    assert forall use :: use in a + b <==> use in a || use in b;
  }

  lemma CrossSound(env: Env, tables: seq<Table>, u1: Unit, ls: seq<Row>, u2: Unit, rs: seq<Row>, t: Tuple)
    requires Builds(env, tables, u1, ls) && Builds(env, tables, u2, rs)
    requires Disjoint(Elements(u1.order), Elements(u2.order))
    requires t in CrossTuples(u1.tuples, u2.tuples)
    ensures Member(env, tables, u1.order + u2.order, u1.uses + u2.uses, t)
  {
    CrossMembers(u1.tuples, u2.tuples, t);
    var a, b :| a in u1.tuples && b in u2.tuples && t == a + b;
    SumMember(env, tables, u1, a, u2, b);
  }

  lemma CrossComplete(env: Env, tables: seq<Table>, u1: Unit, ls: seq<Row>, u2: Unit, rs: seq<Row>, t: Tuple)
    requires Builds(env, tables, u1, ls) && Builds(env, tables, u2, rs)
    requires Disjoint(Elements(u1.order), Elements(u2.order))
    requires Member(env, tables, u1.order + u2.order, u1.uses + u2.uses, t)
    ensures t in CrossTuples(u1.tuples, u2.tuples)
  {
    ElementsConcat(u1.order, u2.order);
    var a, b := Restrict(t, Elements(u1.order)), Restrict(t, Elements(u2.order));
    assert a + b == t;
    SumMember(env, tables, u1, a, u2, b);
    assert a in u1.tuples && b in u2.tuples;
    CrossMembers(u1.tuples, u2.tuples, t);
  }

  function Joined(u1: Unit, u2: Unit): Unit {
    Unit(CrossTuples(u1.tuples, u2.tuples), u1.order + u2.order, u1.uses + u2.uses)
  }

  /** Cross-joining two units over disjoint tables gives a unit. */
  lemma JoinUnits(env: Env, tables: seq<Table>, u1: Unit, ls: seq<Row>, u2: Unit, rs: seq<Row>)
    requires Builds(env, tables, u1, ls) && Builds(env, tables, u2, rs)
    requires Disjoint(Elements(u1.order), Elements(u2.order))
    ensures Builds(env, tables, Joined(u1, u2), CrossRows(ls, rs))
    ensures Elements(Joined(u1, u2).order) == Elements(u1.order) + Elements(u2.order)
    ensures Applied(Joined(u1, u2)) == Applied(u1) + Applied(u2)
  {
    var s1, s2 := Elements(u1.order), Elements(u2.order);
    MembersOver(env, tables, u1, ls);
    MembersOver(env, tables, u2, rs);
    CrossRep(tables, u1.order, u1.tuples, ls, u2.order, u2.tuples, rs);
    CrossNoDup(tables, s1, u1.tuples, s2, u2.tuples);
    ElementsConcat(u1.order, u2.order);
    OrderNoDup(u1.order, u2.order);
    assert ClausesOf(u1.uses + u2.uses) == ClausesOf(u1.uses) + ClausesOf(u2.uses);
    PlacedJoin(u1, u2);
    forall t
      ensures t in CrossTuples(u1.tuples, u2.tuples)
         <==> Member(env, tables, u1.order + u2.order, u1.uses + u2.uses, t)
    {
      if t in CrossTuples(u1.tuples, u2.tuples) {
        CrossSound(env, tables, u1, ls, u2, rs, t);
      } else if Member(env, tables, u1.order + u2.order, u1.uses + u2.uses, t) {
        CrossComplete(env, tables, u1, ls, u2, rs, t);
      }
    }
  }

  lemma OrderNoDup(a: seq<nat>, b: seq<nat>)
    requires NoDup(a) && NoDup(b) && Disjoint(Elements(a), Elements(b))
    ensures NoDup(a + b)
  {
    forall i <- a
      ensures i !in b
    {
      assert i in Elements(a);
    }
    NoDupConcat(a, b);
  }

  lemma PlacedJoin(u1: Unit, u2: Unit)
    requires PlacedIn(u1.order, u1.uses) && PlacedIn(u2.order, u2.uses)
    ensures PlacedIn(u1.order + u2.order, u1.uses + u2.uses)
  {
    ElementsConcat(u1.order, u2.order);
    forall use <- u1.uses + u2.uses
      ensures Elements(use.place) <= Elements(u1.order + u2.order)
    {
      assert use in u1.uses || use in u2.uses;
    }
  }

  ghost function Filtered(env: Env, tables: seq<Table>, u: Unit, clauses: seq<Expr>): Unit {
    Unit(SelectTuples(env, tables, clauses, u.order, u.tuples), u.order, u.uses + UsesAt(clauses, u.order))
  }

  lemma UsesHold(env: Env, tables: seq<Table>, clauses: seq<Expr>, place: seq<nat>, t: Tuple)
    ensures AllHoldAt(env, tables, UsesAt(clauses, place), t) <==> HoldsAll(env, clauses, Merged(tables, t, place))
  {
    var uses := UsesAt(clauses, place);
    if AllHoldAt(env, tables, uses, t) {
      forall k | 0 <= k < |clauses|
        ensures Holds(env, clauses[k], Merged(tables, t, place))
      {
        assert uses[k] in uses && HoldsAt(env, tables, uses[k], t);
      }
    }
  }

  /** Filtering a unit by conjuncts gives a unit that has applied them on its rows. */
  lemma FilterUnit(env: Env, tables: seq<Table>, u: Unit, rows: seq<Row>, clauses: seq<Expr>)
    requires Builds(env, tables, u, rows)
    ensures Builds(env, tables, Filtered(env, tables, u, clauses), Select(env, clauses, rows))
    ensures Applied(Filtered(env, tables, u, clauses)) == Applied(u) + multiset(clauses)
  {
    var uses := UsesAt(clauses, u.order);
    SelectRep(env, tables, clauses, rows, u.order, u.tuples);
    SelectNoDup(env, tables, clauses, u.order, u.tuples);
    assert ClausesOf(u.uses + uses) == ClausesOf(u.uses) + clauses;
    assert forall use <- u.uses + uses :: use in u.uses || use in uses;
    forall t
      ensures t in Filtered(env, tables, u, clauses).tuples <==> Member(env, tables, u.order, u.uses + uses, t)
    {
      SelectMembers(env, tables, clauses, u.order, u.tuples, t);
      AllHoldConcat(env, tables, u.uses, uses, t);
      UsesHold(env, tables, clauses, u.order, t);
    }
  }

  // ---- comparing units over the same tables ----

  /** On every tuple of these tables the two lists of uses agree. */
  ghost predicate SameAnswers(env: Env, tables: seq<Table>, seen: set<nat>, a: seq<Use>, b: seq<Use>) {
    forall t :: TupleOver(tables, seen, t) ==> (AllHoldAt(env, tables, a, t) <==> AllHoldAt(env, tables, b, t))
  }

  lemma VisibleByTuple(tables: seq<Table>, rows: seq<Row>, order: seq<nat>, other: seq<nat>, ts: seq<Tuple>,
      f: Tuple -> Row)
    requires WellFormed(tables) && Rep(tables, rows, order, ts) && forall i: nat :: i in order <==> i in other
    requires forall t <- ts :: f(t) == Visible(tables, Merged(tables, t, other))
    ensures VisibleAll(tables, rows) == MapSeq(ts, f)
  {
    forall k | 0 <= k < |rows|
      ensures Visible(tables, rows[k]) == f(ts[k])
    {
      assert ts[k] in ts;
      SameVisible(tables, ts[k], order, other);
    }
  }

  /** Two units over the same tables whose conjuncts agree on every tuple show the same rows. */
  lemma UnitsAgree(env: Env, tables: seq<Table>, u1: Unit, r1: seq<Row>, u2: Unit, r2: seq<Row>)
    requires WellFormed(tables)
    requires Builds(env, tables, u1, r1) && Builds(env, tables, u2, r2)
    requires Elements(u1.order) == Elements(u2.order)
    requires SameAnswers(env, tables, Elements(u1.order), u1.uses, u2.uses)
    ensures multiset(VisibleAll(tables, r1)) == multiset(VisibleAll(tables, r2))
  {
    var f := (t: Tuple) => Visible(tables, Merged(tables, t, u2.order));
    SameElements(u1.order, u2.order);
    forall t
      ensures t in u1.tuples <==> t in u2.tuples
    {
      assert t in u1.tuples <==> Member(env, tables, u1.order, u1.uses, t);
      assert t in u2.tuples <==> Member(env, tables, u2.order, u2.uses, t);
    }
    VisibleByTuple(tables, r1, u1.order, u2.order, u1.tuples, f);
    VisibleByTuple(tables, r2, u2.order, u2.order, u2.tuples, f);
    SameMultiset(u1.tuples, u2.tuples);
    MultisetOfMap(u1.tuples, u2.tuples, f);
  }

  lemma SameElements(a: seq<nat>, b: seq<nat>)
    requires Elements(a) == Elements(b)
    ensures forall i: nat :: i in a <==> i in b
  {
    assert forall i: nat :: i in a <==> i in Elements(a);
    assert forall i: nat :: i in b <==> i in Elements(b);
  }

  /** And where stored rows have row ids of their own, only such units do. */
  lemma UnitsAgreeIff(env: Env, tables: seq<Table>, u1: Unit, r1: seq<Row>, u2: Unit, r2: seq<Row>)
    requires WellFormed(tables) && Identified(tables)
    requires Builds(env, tables, u1, r1) && Builds(env, tables, u2, r2)
    requires Elements(u1.order) == Elements(u2.order)
    ensures multiset(VisibleAll(tables, r1)) == multiset(VisibleAll(tables, r2))
       <==> SameAnswers(env, tables, Elements(u1.order), u1.uses, u2.uses)
  {
    if SameAnswers(env, tables, Elements(u1.order), u1.uses, u2.uses) {
      UnitsAgree(env, tables, u1, r1, u2, r2);
    }
    if multiset(VisibleAll(tables, r1)) == multiset(VisibleAll(tables, r2)) {
      OnlyThen(env, tables, u1, r1, u2, r2);
    }
  }

  lemma OnlyThen(env: Env, tables: seq<Table>, u1: Unit, r1: seq<Row>, u2: Unit, r2: seq<Row>)
    requires WellFormed(tables) && Identified(tables)
    requires Builds(env, tables, u1, r1) && Builds(env, tables, u2, r2)
    requires Elements(u1.order) == Elements(u2.order)
    requires multiset(VisibleAll(tables, r1)) == multiset(VisibleAll(tables, r2))
    ensures SameAnswers(env, tables, Elements(u1.order), u1.uses, u2.uses)
  {
    forall t | TupleOver(tables, Elements(u1.order), t)
      ensures AllHoldAt(env, tables, u1.uses, t) <==> AllHoldAt(env, tables, u2.uses, t)
    {
      if AllHoldAt(env, tables, u1.uses, t) {
        ShownInBoth(env, tables, u1, r1, u2, r2, t);
      } else if AllHoldAt(env, tables, u2.uses, t) {
        ShownInBoth(env, tables, u2, r2, u1, r1, t);
      }
    }
  }

  /** A tuple of one unit is one of any unit that shows the same rows. */
  lemma ShownInBoth(env: Env, tables: seq<Table>, u1: Unit, r1: seq<Row>, u2: Unit, r2: seq<Row>, t: Tuple)
    requires WellFormed(tables) && Identified(tables)
    requires Builds(env, tables, u1, r1) && Builds(env, tables, u2, r2)
    requires Elements(u1.order) == Elements(u2.order)
    requires multiset(VisibleAll(tables, r1)) == multiset(VisibleAll(tables, r2))
    requires Member(env, tables, u1.order, u1.uses, t)
    ensures Member(env, tables, u2.order, u2.uses, t)
  {
    SameElements(u1.order, u2.order);
    assert t in u1.tuples;
    var k :| 0 <= k < |u1.tuples| && u1.tuples[k] == t;
    var shown := VisibleAll(tables, r1)[k];
    assert shown in multiset(VisibleAll(tables, r1));
    assert shown in multiset(VisibleAll(tables, r2));
    var m :| 0 <= m < |r2| && VisibleAll(tables, r2)[m] == shown;
    var t' := u2.tuples[m];
    assert t' in u2.tuples && Member(env, tables, u2.order, u2.uses, t');
    VisibleTellsTuple(tables, t, t', Elements(u1.order), u1.order, u2.order);
  }

  /** The cross product in FROM order is the unit that has merged every table and applied nothing. */
  lemma {:induction false} CrossProductUnit(env: Env, tables: seq<Table>, n: nat) returns (u: Unit)
    requires n <= |tables|
    ensures u.order == FromOrder(n) && u.uses == []
    ensures Builds(env, tables, u, CrossProduct(tables, n))
  {
    if n == 0 {
      EmptyUnit(env, tables);
      u := NOTHING;
    } else {
      var prev := CrossProductUnit(env, tables, n - 1);
      var one := TableUnit(tables, n - 1);
      TableBuilds(env, tables, n - 1);
      FromOrderNext(n - 1);
      JoinUnits(env, tables, prev, CrossProduct(tables, n - 1), one, AliasedRows(tables[n - 1]));
      u := Joined(prev, one);
    }
  }

  lemma FromOrderNext(n: nat)
    ensures FromOrder(n + 1) == FromOrder(n) + [n]
    ensures Elements(FromOrder(n)) == Range(n)
    ensures Disjoint(Elements(FromOrder(n)), Elements([n]))
  {
    var order := FromOrder(n);
    forall i: nat
      ensures i in Elements(order) <==> i in Range(n)
    {
      if i < n {
        assert order[i] == i;
      }
    }
  }
}
