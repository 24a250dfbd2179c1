/** Meaning of a comma-separated FROM list: the rows of the cross product, taken in FROM
    order, that WHERE accepts; and the facts about partial rows the planner relies on. */
module CommaJoinSpec {
  import opened Values
  import opened Expressions

  /** One FROM entry: its alias, the columns its schema declares, further keys its stored
      rows carry (a hidden _rowid_), and the stored rows. */
  datatype Table = Table(alias: string, cols: set<string>, hidden: set<string>, rows: seq<map<string, Value>>)

  function Names(t: Table): set<string> {
    t.cols + t.hidden
  }

  /** Distinct aliases, and every stored row has columns of its table only. A row may lack a column:
      storage keeps no key for one that was omitted from the INSERT. */
  ghost predicate WellFormed(tables: seq<Table>) {
    && (forall i, j :: 0 <= i < j < |tables| ==> tables[i].alias != tables[j].alias)
    && (forall i :: 0 <= i < |tables| ==> tables[i].alias != "")
    && (forall i, k :: 0 <= i < |tables| && 0 <= k < |tables[i].rows| ==> tables[i].rows[k].Keys <= Names(tables[i]))
  }

  /** addTableAlias: every column under its own name and under the qualified one. */
  function AddTableAlias(row: map<string, Value>, alias: string): Row {
    map k | k in AliasKeys(row.Keys, alias) :: row[k.col]
  }

  function AliasKeys(cols: set<string>, alias: string): (keys: set<Key>)
    ensures forall k :: k in keys <==> k.col in cols && (k.Qual? ==> k.tbl == alias)
  {
    (set c | c in cols :: Bare(c)) + (set c | c in cols :: Qual(alias, c))
  }

  function AliasedRows(t: Table): seq<Row> {
    seq(|t.rows|, k requires 0 <= k < |t.rows| => AddTableAlias(t.rows[k], t.alias))
  }

  // ---- the reference meaning ----

  function MergeEach(l: Row, rs: seq<Row>): seq<Row> {
    seq(|rs|, k requires 0 <= k < |rs| => l + rs[k])
  }

  function CrossRows(ls: seq<Row>, rs: seq<Row>): seq<Row> {
    if ls == [] then [] else MergeEach(ls[0], rs) + CrossRows(ls[1..], rs)
  }

  /** The cross product of the first `n` tables. */
  function CrossProduct(tables: seq<Table>, n: nat): seq<Row>
    requires n <= |tables|
  {
    if n == 0 then [map[]] else CrossRows(CrossProduct(tables, n - 1), AliasedRows(tables[n - 1]))
  }

  ghost function Select(env: Env, clauses: seq<Expr>, rows: seq<Row>): seq<Row> {
    if rows == [] then []
    else (if HoldsAll(env, clauses, rows[0]) then [rows[0]] else []) + Select(env, clauses, rows[1..])
  }

  /** No two tables have this column. */
  ghost predicate Unambiguous(tables: seq<Table>, c: string) {
    forall i, j :: 0 <= i < j < |tables| ==> !(c in Names(tables[i]) && c in Names(tables[j]))
  }

  /** The part of a joined row that does not depend on the order tables were merged in:
      every qualified column and every column only one table has. */
  ghost function Visible(tables: seq<Table>, row: Row): Row {
    map k | k in row && Pinned(tables, k) :: row[k]
  }

  ghost function VisibleAll(tables: seq<Table>, rows: seq<Row>): seq<Row> {
    seq(|rows|, k requires 0 <= k < |rows| => Visible(tables, rows[k]))
  }

  // ---- tuples: which stored row each table contributes ----

  type Tuple = map<nat, nat>

  predicate Picks(tables: seq<Table>, t: Tuple, i: nat) {
    i in t && i < |tables| && t[i] < |tables[i].rows|
  }

  ghost predicate TupleOver(tables: seq<Table>, seen: set<nat>, t: Tuple) {
    t.Keys == seen && forall i <- t :: Picks(tables, t, i)
  }

  /** The stored row that `t` picks, under its alias. */
  function Part(tables: seq<Table>, t: Tuple, i: nat): Row {
    if Picks(tables, t, i) then AddTableAlias(tables[i].rows[t[i]], tables[i].alias) else map[]
  }

  /** The stored rows that `t` picks, merged in this order: a key that several have is the last one's. */
  function Merged(tables: seq<Table>, t: Tuple, order: seq<nat>): Row {
    if order == [] then map[] else Merged(tables, t, order[..|order| - 1]) + Part(tables, t, order[|order| - 1])
  }

  /** The tables in FROM order. */
  function FromOrder(n: nat): (order: seq<nat>)
    ensures |order| == n
  {
    seq(n, i requires 0 <= i < n => i)
  }

  lemma MergedLast(tables: seq<Table>, t: Tuple, order: seq<nat>, i: nat)
    ensures Merged(tables, t, order + [i]) == Merged(tables, t, order) + Part(tables, t, i)
  {
    assert (order + [i])[..|order|] == order;
  }

  lemma MergedOne(tables: seq<Table>, t: Tuple, i: nat)
    ensures Merged(tables, t, [i]) == Part(tables, t, i)
  {
    assert [i][..0] == [];
    assert Merged(tables, t, []) + Part(tables, t, i) == Part(tables, t, i);
  }

  lemma MergeAssociative(a: Row, b: Row, c: Row)
    ensures (a + b) + c == a + (b + c)
  {
  }

  lemma {:induction false} MergedConcat(tables: seq<Table>, t: Tuple, a: seq<nat>, b: seq<nat>)
    ensures Merged(tables, t, a + b) == Merged(tables, t, a) + Merged(tables, t, b)
  {
    if b == [] {
      assert a + b == a;
      assert Merged(tables, t, a) + map[] == Merged(tables, t, a);
    } else {
      var front, last := b[..|b| - 1], b[|b| - 1];
      MergedConcat(tables, t, a, front);
      assert a + b == (a + front) + [last] && b == front + [last];
      MergedLast(tables, t, a + front, last);
      MergedLast(tables, t, front, last);
      MergeAssociative(Merged(tables, t, a), Merged(tables, t, front), Part(tables, t, last));
    }
  }

  ghost predicate Agree(t: Tuple, t': Tuple, order: seq<nat>) {
    forall k :: 0 <= k < |order| ==> order[k] in t && order[k] in t' && t[order[k]] == t'[order[k]]
  }

  /** A merged row depends on the rows its tables contribute only. */
  lemma {:induction false} MergedLocal(tables: seq<Table>, t: Tuple, t': Tuple, order: seq<nat>)
    requires Agree(t, t', order)
    ensures Merged(tables, t, order) == Merged(tables, t', order)
  {
    if order != [] {
      var n := |order| - 1;
      assert order[n] in t && t[order[n]] == t'[order[n]];
      MergedLocal(tables, t, t', order[..n]);
    }
  }

  // ---- who supplies a key ----

  /** The stored row puts key `k` into a joined row. */
  predicate Supplies(table: Table, stored: map<string, Value>, k: Key) {
    k.col in stored && (k.Qual? ==> k.tbl == table.alias)
  }

  ghost predicate SuppliedBy(tables: seq<Table>, t: Tuple, i: nat, k: Key) {
    Picks(tables, t, i) && Supplies(tables[i], tables[i].rows[t[i]], k)
  }

  /** A merged row has exactly the keys some picked row supplies, each with a supplier's value. */
  lemma {:induction false} MergedEntry(tables: seq<Table>, t: Tuple, order: seq<nat>, k: Key)
    ensures k in Merged(tables, t, order) <==> exists i <- order :: SuppliedBy(tables, t, i, k)
    ensures k in Merged(tables, t, order) ==>
      exists i <- order :: SuppliedBy(tables, t, i, k) && Merged(tables, t, order)[k] == tables[i].rows[t[i]][k.col]
  {
    if order != [] {
      var front, last := order[..|order| - 1], order[|order| - 1];
      MergedEntry(tables, t, front, k);
      assert order == front + [last];
      assert k in Part(tables, t, last) <==> SuppliedBy(tables, t, last, k);
    }
  }

  /** At most one table supplies the key, so merge order cannot matter for it. */
  ghost predicate Pinned(tables: seq<Table>, k: Key) {
    k.Qual? || Unambiguous(tables, k.col)
  }

  /** Whatever rows they are from, a pinned key has one supplier. */
  lemma PinnedOwner(tables: seq<Table>, k: Key, t: Tuple, i: nat, j: nat)
    requires WellFormed(tables) && Pinned(tables, k) && SuppliedBy(tables, t, i, k) && SuppliedBy(tables, t, j, k)
    ensures i == j
  {
    assert k.col in Names(tables[i]) && k.col in Names(tables[j]);
  }

  lemma SameEntry(tables: seq<Table>, t: Tuple, a: seq<nat>, b: seq<nat>, k: Key)
    requires WellFormed(tables) && Pinned(tables, k) && forall i: nat :: i in a <==> i in b
    ensures k in Merged(tables, t, a) <==> k in Merged(tables, t, b)
    ensures k in Merged(tables, t, a) ==> Merged(tables, t, a)[k] == Merged(tables, t, b)[k]
  {
    MergedEntry(tables, t, a, k);
    MergedEntry(tables, t, b, k);
    if k in Merged(tables, t, a) {
      var i :| i in a && SuppliedBy(tables, t, i, k) && Merged(tables, t, a)[k] == tables[i].rows[t[i]][k.col];
      assert i in b;
      var j :| j in b && SuppliedBy(tables, t, j, k) && Merged(tables, t, b)[k] == tables[j].rows[t[j]][k.col];
      PinnedOwner(tables, k, t, i, j);
    }
  }

  /** Two merges of the same stored rows look alike. */
  lemma SameVisible(tables: seq<Table>, t: Tuple, a: seq<nat>, b: seq<nat>)
    requires WellFormed(tables) && forall i: nat :: i in a <==> i in b
    ensures Visible(tables, Merged(tables, t, a)) == Visible(tables, Merged(tables, t, b))
  {
    forall k | Pinned(tables, k)
      ensures k in Merged(tables, t, a) <==> k in Merged(tables, t, b)
      ensures k in Merged(tables, t, a) ==> Merged(tables, t, a)[k] == Merged(tables, t, b)[k]
    {
      SameEntry(tables, t, a, b, k);
    }
  }

  // ---- stored rows tell themselves ----

  const ROW_ID := "_rowid_"

  /** Every stored row has a row id of its own in its table, as INSERT gives it. */
  ghost predicate Identified(tables: seq<Table>) {
    forall i :: 0 <= i < |tables| ==> OwnIDs(tables[i].rows)
  }

  ghost predicate OwnIDs(rows: seq<map<string, Value>>) {
    && (forall r <- rows :: ROW_ID in r)
    && forall p, q :: 0 <= p < q < |rows| ==> rows[p][ROW_ID] != rows[q][ROW_ID]
  }

  lemma PickedRowID(tables: seq<Table>, t: Tuple, order: seq<nat>, i: nat)
    requires WellFormed(tables) && i in order && Picks(tables, t, i) && ROW_ID in tables[i].rows[t[i]]
    ensures var k, row := Qual(tables[i].alias, ROW_ID), Visible(tables, Merged(tables, t, order));
      k in row && row[k] == tables[i].rows[t[i]][ROW_ID]
  {
    var k := Qual(tables[i].alias, ROW_ID);
    assert SuppliedBy(tables, t, i, k);
    MergedEntry(tables, t, order, k);
    var j :| j in order && SuppliedBy(tables, t, j, k)
      && Merged(tables, t, order)[k] == tables[j].rows[t[j]][k.col];
    PinnedOwner(tables, k, t, i, j);
  }

  /** Then a joined row shows which stored rows it was made from. */
  lemma VisibleTellsTuple(tables: seq<Table>, t: Tuple, t': Tuple, seen: set<nat>, a: seq<nat>, b: seq<nat>)
    requires WellFormed(tables) && Identified(tables)
    requires TupleOver(tables, seen, t) && TupleOver(tables, seen, t')
    requires forall i: nat :: i in seen ==> i in a && i in b
    requires Visible(tables, Merged(tables, t, a)) == Visible(tables, Merged(tables, t', b))
    ensures t == t'
  {
    forall i | i in seen
      ensures t[i] == t'[i]
    {
      assert Picks(tables, t, i) && Picks(tables, t', i) && OwnIDs(tables[i].rows);
      assert tables[i].rows[t[i]] in tables[i].rows && tables[i].rows[t'[i]] in tables[i].rows;
      PickedRowID(tables, t, a, i);
      PickedRowID(tables, t', b, i);
    }
  }
}
