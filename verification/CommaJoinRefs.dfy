/** What column references read from partial rows: when a reference cannot tell a partial row from the
    full one, and which conjuncts are therefore safe wherever the planner may apply them. */
module CommaJoinRefs {
  import opened Collections
  import opened Values
  import opened Expressions
  import opened CommaJoinSpec
  import opened CommaJoinUnits
  import opened CommaJoinPlan

  function Read(env: Env, ref: Ref, row: Row): Value {
    EvalColumnRef(env, ref.tbl, ref.col, Some(row)).value
  }

  // ---- one reference ----

  /** What the reference reads from its own table's row alone. */
  function Alone(env: Env, table: Table, ref: Ref, stored: Record): Value {
    Read(env, ref, AddTableAlias(stored, table.alias))
  }

  /** The lookup ends before it comes to the unqualified names of other tables. */
  predicate Settled(env: Env, ref: Ref, stored: Record) {
    ref.tbl != ""
    && (ref.col in stored || FindOuter(env, Qual(ref.tbl, ref.col)).Some? || FindOuter(env, Bare(ref.col)).Some?)
  }

  /** What another table's row answers to the reference instead: its column of that name, or its row id
      where neither row has the column and the name is a row-id alias. */
  function Intrudes(env: Env, ref: Ref, stored: Record, other: Record): Option<Value> {
    if ref.col in other then Some(other[ref.col])
    else if ref.col in stored || !IsRowIDColumn(ref.col) || ROW_ID !in other then None
    else if ref.tbl == "" && (env.currentTime(ref.col).Some? || FindOuter(env, Bare(ref.col)).Some?) then None
    else Some(other[ROW_ID])
  }

  type Record = map<string, Value>

  ghost predicate SameAnswer(env: Env, ref: Ref, stored: Record, other: Record, alone: Value) {
    var intruder := Intrudes(env, ref, stored, other);
    intruder.Some? ==> intruder.value == alone
  }

  ghost predicate SteadyRow(env: Env, tables: seq<Table>, i: nat, ref: Ref, stored: Record)
    requires i < |tables|
  {
    Settled(env, ref, stored) || forall j, other | 0 <= j < |tables| && j != i && other in tables[j].rows ::
      SameAnswer(env, ref, stored, other, Alone(env, tables[i], ref, stored))
  }

  /** On every row of table `i` the lookup is settled, or no other table's row answers differently. */
  ghost predicate Steady(env: Env, tables: seq<Table>, i: nat, ref: Ref)
    requires i < |tables|
  {
    forall stored <- tables[i].rows :: SteadyRow(env, tables, i, ref, stored)
  }

  /** A reference to table `i` by its alias, or an unqualified one. */
  predicate RefersTo(tables: seq<Table>, i: nat, ref: Ref) {
    i < |tables| && (ref.tbl == "" || ref.tbl == tables[i].alias)
  }

  ghost predicate ReadsAlone(env: Env, tables: seq<Table>, i: nat, ref: Ref, t: Tuple, order: seq<nat>) {
    TupleOver(tables, Elements(order), t) && i in order ==>
      && Picks(tables, t, i)
      && Read(env, ref, Merged(tables, t, order)) == Alone(env, tables[i], ref, tables[i].rows[t[i]])
  }

  // ---- the lookup, by what it finds ----

  function Cell(stored: Record, c: string): Option<Value> {
    if c in stored then Some(stored[c]) else None
  }

  /** What the lookup makes of what it finds in the row: under the qualified name, under the bare name,
      and as a row id. */
  function ReadFrom(env: Env, ref: Ref, qual: Option<Value>, bare: Option<Value>, rowID: Option<Value>): Value {
    var time := if ref.tbl == "" && bare.None? then env.currentTime(ref.col) else None;
    var qualified :=
      if ref.tbl == "" then None
      else FirstOf(FirstOf(FindOuter(env, Qual(ref.tbl, ref.col)), qual), FindOuter(env, Bare(ref.col)));
    var outer := if ref.tbl == "" then FindOuter(env, Bare(ref.col)) else None;
    var found := FirstOf(FirstOf(FirstOf(qualified, bare), outer), if IsRowIDColumn(ref.col) then rowID else None);
    if time.Some? then time.value else if found.Some? then found.value else Null
  }

  lemma ReadIs(env: Env, ref: Ref, row: Row)
    ensures Read(env, ref, row)
         == ReadFrom(env, ref, Find(row, Qual(ref.tbl, ref.col)), Find(row, Bare(ref.col)), Find(row, Bare(ROW_ID)))
  {
  }

  lemma AloneIs(env: Env, table: Table, ref: Ref, stored: Record)
    requires ref.tbl == "" || ref.tbl == table.alias
    ensures Alone(env, table, ref, stored)
         == ReadFrom(env, ref, Cell(stored, ref.col), Cell(stored, ref.col), Cell(stored, ROW_ID))
  {
    var row := AddTableAlias(stored, table.alias);
    ReadIs(env, ref, row);
    assert forall k: Key :: k in row <==> k.col in stored && (k.Qual? ==> k.tbl == table.alias);
  }

  /** A merged row has the column from one of these stored rows, or none of them has it. */
  ghost predicate Found(stored: Record, others: iset<Record>, c: string, found: Option<Value>) {
    if found.Some? then Cell(stored, c) == found || exists other :: other in others && Cell(other, c) == found
    else Cell(stored, c) == None && forall other :: other in others ==> Cell(other, c) == None
  }

  lemma SteadyFound(env: Env, ref: Ref, stored: Record, others: iset<Record>, bare: Option<Value>, rowID: Option<Value>)
    requires Found(stored, others, ref.col, bare) && Found(stored, others, ROW_ID, rowID)
    requires
      var alone := ReadFrom(env, ref, Cell(stored, ref.col), Cell(stored, ref.col), Cell(stored, ROW_ID));
      Settled(env, ref, stored) || forall other :: other in others ==> SameAnswer(env, ref, stored, other, alone)
    ensures ReadFrom(env, ref, Cell(stored, ref.col), bare, rowID)
         == ReadFrom(env, ref, Cell(stored, ref.col), Cell(stored, ref.col), Cell(stored, ROW_ID))
  {
    if !Settled(env, ref, stored) && bare.Some? && Cell(stored, ref.col) != bare {
      var other :| other in others && Cell(other, ref.col) == bare;
      assert Intrudes(env, ref, stored, other) == bare;
    } else if !Settled(env, ref, stored) && bare.None? && rowID.Some? && Cell(stored, ROW_ID) != rowID {
      var other :| other in others && Cell(other, ROW_ID) == rowID;
      assert Cell(other, ref.col) == None;
    }
  }

  lemma IntruderFound(env: Env, ref: Ref, stored: Record, other: Record)
    requires !Settled(env, ref, stored) && Intrudes(env, ref, stored, other).Some?
    ensures ReadFrom(env, ref, Cell(stored, ref.col), FirstOf(Cell(other, ref.col), Cell(stored, ref.col)),
              FirstOf(Cell(other, ROW_ID), Cell(stored, ROW_ID)))
         == Intrudes(env, ref, stored, other).value
  {
  }

  // ---- what merged rows have ----

  /** The other rows that went into a merged row. */
  ghost function Others(tables: seq<Table>, i: nat, t: Tuple, order: seq<nat>): iset<Record> {
    iset j: nat | j in order && j != i && Picks(tables, t, j) :: tables[j].rows[t[j]]
  }

  /** A qualified key of table `i` is in a merged row exactly when its stored row has the column. */
  lemma QualifiedEntry(tables: seq<Table>, i: nat, c: string, t: Tuple, order: seq<nat>)
    requires WellFormed(tables) && i in order && Picks(tables, t, i)
    ensures Find(Merged(tables, t, order), Qual(tables[i].alias, c)) == Cell(tables[i].rows[t[i]], c)
  {
    var k := Qual(tables[i].alias, c);
    MergedEntry(tables, t, order, k);
    if k in Merged(tables, t, order) {
      var j :| j in order && SuppliedBy(tables, t, j, k) && Merged(tables, t, order)[k] == tables[j].rows[t[j]][c];
      assert j == i;
    } else {
      assert !SuppliedBy(tables, t, i, k);
    }
  }

  /** An unqualified one is the table's own or another's. */
  lemma BareEntry(tables: seq<Table>, i: nat, c: string, t: Tuple, order: seq<nat>)
    requires i in order && Picks(tables, t, i)
    ensures Found(tables[i].rows[t[i]], Others(tables, i, t, order), c, Find(Merged(tables, t, order), Bare(c)))
  {
    var k := Bare(c);
    MergedEntry(tables, t, order, k);
    if k in Merged(tables, t, order) {
      var j :| j in order && SuppliedBy(tables, t, j, k) && Merged(tables, t, order)[k] == tables[j].rows[t[j]][c];
      assert j != i ==> tables[j].rows[t[j]] in Others(tables, i, t, order);
    } else {
      assert !SuppliedBy(tables, t, i, k);
      forall other | other in Others(tables, i, t, order)
        ensures Cell(other, c) == None
      {
        var j: nat :| j in order && j != i && Picks(tables, t, j) && tables[j].rows[t[j]] == other;
        assert !SuppliedBy(tables, t, j, k);
      }
    }
  }

  lemma OthersStored(env: Env, tables: seq<Table>, i: nat, ref: Ref, t: Tuple, order: seq<nat>)
    requires i < |tables| && Picks(tables, t, i) && Steady(env, tables, i, ref)
    ensures
      var stored := tables[i].rows[t[i]];
      Settled(env, ref, stored) || forall other :: other in Others(tables, i, t, order) ==>
        SameAnswer(env, ref, stored, other, Alone(env, tables[i], ref, stored))
  {
    assert SteadyRow(env, tables, i, ref, tables[i].rows[t[i]]);
  }

  /** A steady reference reads from every partial row what it reads from its own table's row. */
  lemma SteadyReads(env: Env, tables: seq<Table>, i: nat, ref: Ref, t: Tuple, order: seq<nat>)
    requires WellFormed(tables) && RefersTo(tables, i, ref) && Steady(env, tables, i, ref)
    requires TupleOver(tables, Elements(order), t) && i in order
    ensures ReadsAlone(env, tables, i, ref, t, order)
  {
    assert i in Elements(order);
    var stored, row := tables[i].rows[t[i]], Merged(tables, t, order);
    ReadIs(env, ref, row);
    AloneIs(env, tables[i], ref, stored);
    QualifiedEntry(tables, i, ref.col, t, order);
    BareEntry(tables, i, ref.col, t, order);
    BareEntry(tables, i, ROW_ID, t, order);
    OthersStored(env, tables, i, ref, t, order);
    SteadyFound(env, ref, stored, Others(tables, i, t, order), Find(row, Bare(ref.col)), Find(row, Bare(ROW_ID)));
  }

  lemma PairMerged(tables: seq<Table>, i: nat, p: nat, j: nat, q: nat)
    requires i < |tables| && j < |tables| && i != j && p < |tables[i].rows| && q < |tables[j].rows|
    ensures Merged(tables, map[i := p, j := q], [i, j])
         == AddTableAlias(tables[i].rows[p], tables[i].alias) + AddTableAlias(tables[j].rows[q], tables[j].alias)
    ensures TupleOver(tables, Elements([i, j]), map[i := p, j := q])
  {
    var t: Tuple := map[i := p, j := q];
    assert [i, j] == [i] + [j];
    MergedOne(tables, t, i);
    MergedLast(tables, t, [i], j);
    assert Elements([i, j]) == {i, j};
  }

  lemma PairFinds(left: Record, l: string, right: Record, r: string, c: string)
    requires l != r
    ensures var row := AddTableAlias(left, l) + AddTableAlias(right, r);
      && Find(row, Qual(l, c)) == Cell(left, c)
      && Find(row, Qual(r, c)) == Cell(right, c)
      && Find(row, Bare(c)) == FirstOf(Cell(right, c), Cell(left, c))
  {
    AliasFinds(left, l, c);
    AliasFinds(right, r, c);
    var a, b := AddTableAlias(left, l), AddTableAlias(right, r);
    assert Qual(l, c) !in b && Qual(r, c) !in a;
  }

  lemma AliasFinds(stored: Record, alias: string, c: string)
    ensures var row := AddTableAlias(stored, alias);
      && Find(row, Bare(c)) == Find(row, Qual(alias, c)) == Cell(stored, c)
      && forall tbl :: tbl != alias ==> Qual(tbl, c) !in row
  {
  }

  /** An intruding answer is what is read when the other table's row is merged second. */
  lemma IntruderReads(env: Env, tables: seq<Table>, i: nat, ref: Ref, p: nat, j: nat, q: nat)
    requires WellFormed(tables) && RefersTo(tables, i, ref) && j < |tables| && j != i
    requires p < |tables[i].rows| && q < |tables[j].rows|
    requires !Settled(env, ref, tables[i].rows[p])
    requires Intrudes(env, ref, tables[i].rows[p], tables[j].rows[q]).Some?
    ensures Read(env, ref, Merged(tables, map[i := p, j := q], [i, j]))
         == Intrudes(env, ref, tables[i].rows[p], tables[j].rows[q]).value
  {
    var stored, other := tables[i].rows[p], tables[j].rows[q];
    PairMerged(tables, i, p, j, q);
    ReadIs(env, ref, Merged(tables, map[i := p, j := q], [i, j]));
    PairFinds(stored, tables[i].alias, other, tables[j].alias, ref.col);
    PairFinds(stored, tables[i].alias, other, tables[j].alias, ROW_ID);
    IntruderFound(env, ref, stored, other);
  }

  /** A reference reads the same from every partial row that has its table, namely what it reads from that
      table's row alone, if and only if it is steady. */
  lemma SteadyIff(env: Env, tables: seq<Table>, i: nat, ref: Ref)
    requires WellFormed(tables) && RefersTo(tables, i, ref)
    ensures Steady(env, tables, i, ref) <==> forall t, order :: ReadsAlone(env, tables, i, ref, t, order)
  {
    if Steady(env, tables, i, ref) {
      forall t, order
        ensures ReadsAlone(env, tables, i, ref, t, order)
      {
        if TupleOver(tables, Elements(order), t) && i in order {
          SteadyReads(env, tables, i, ref, t, order);
        }
      }
    } else {
      var t, order := UnsteadyPair(env, tables, i, ref);
    }
  }

  lemma UnsteadyPair(env: Env, tables: seq<Table>, i: nat, ref: Ref) returns (t: Tuple, order: seq<nat>)
    requires WellFormed(tables) && RefersTo(tables, i, ref) && !Steady(env, tables, i, ref)
    ensures !ReadsAlone(env, tables, i, ref, t, order)
  {
    var p, j, q := Intruder(env, tables, i, ref);
    IntruderMisreads(env, tables, i, ref, p, j, q);
    t, order := map[i := p, j := q], [i, j];
  }

  lemma Intruder(env: Env, tables: seq<Table>, i: nat, ref: Ref) returns (p: nat, j: nat, q: nat)
    requires i < |tables| && !Steady(env, tables, i, ref)
    ensures j < |tables| && j != i && p < |tables[i].rows| && q < |tables[j].rows|
    ensures var stored := tables[i].rows[p];
      && !Settled(env, ref, stored)
      && !SameAnswer(env, ref, stored, tables[j].rows[q], Alone(env, tables[i], ref, stored))
  {
    var stored :| stored in tables[i].rows && !SteadyRow(env, tables, i, ref, stored);
    var k, other :| 0 <= k < |tables| && k != i && other in tables[k].rows
      && !SameAnswer(env, ref, stored, other, Alone(env, tables[i], ref, stored));
    j := k;
    p :| p < |tables[i].rows| && tables[i].rows[p] == stored;
    q :| q < |tables[j].rows| && tables[j].rows[q] == other;
  }

  lemma IntruderMisreads(env: Env, tables: seq<Table>, i: nat, ref: Ref, p: nat, j: nat, q: nat)
    requires WellFormed(tables) && RefersTo(tables, i, ref) && j < |tables| && j != i
    requires p < |tables[i].rows| && q < |tables[j].rows| && !Settled(env, ref, tables[i].rows[p])
    requires var stored := tables[i].rows[p];
      !SameAnswer(env, ref, stored, tables[j].rows[q], Alone(env, tables[i], ref, stored))
    ensures !ReadsAlone(env, tables, i, ref, map[i := p, j := q], [i, j])
  {
    PairMerged(tables, i, p, j, q);
    IntruderReads(env, tables, i, ref, p, j, q);
  }

  /** Every stored row of the table has the column. */
  ghost predicate Filled(table: Table, c: string) {
    forall r <- table.rows :: c in r
  }

  ghost predicate OnlyIn(tables: seq<Table>, i: nat, c: string) {
    forall j, other | 0 <= j < |tables| && j != i && other in tables[j].rows :: c !in other
  }

  /** So is a qualified reference to a column that no stored row lacks, hidden or declared; and a reference,
      qualified or not, to a column that no other table has, unless it may fall back to a row id. */
  lemma PlainIsSteady(env: Env, tables: seq<Table>, i: nat, ref: Ref)
    requires RefersTo(tables, i, ref)
    requires
      || (ref.tbl != "" && Filled(tables[i], ref.col))
      || (OnlyIn(tables, i, ref.col) && (IsRowIDColumn(ref.col) ==> Filled(tables[i], ref.col)))
    ensures Steady(env, tables, i, ref)
  {
    forall stored <- tables[i].rows
      ensures SteadyRow(env, tables, i, ref, stored)
    {
    }
  }

  // ---- references no table has a part in ----

  ghost predicate NoneHas(tables: seq<Table>, c: string) {
    forall j, other | 0 <= j < |tables| && other in tables[j].rows :: c !in other
  }

  ghost predicate NoneQualified(tables: seq<Table>, tbl: string, c: string) {
    forall j, other | 0 <= j < |tables| && other in tables[j].rows :: tables[j].alias == tbl ==> c !in other
  }

  ghost predicate NoRowID(tables: seq<Table>, c: string) {
    IsRowIDColumn(c) ==> NoneHas(tables, ROW_ID)
  }

  /** The clock or the outer row answers the reference before any table's row, or nothing does. */
  ghost predicate Fixed(env: Env, tables: seq<Table>, ref: Ref) {
    if ref.tbl == "" then
      NoneHas(tables, ref.col)
      && (env.currentTime(ref.col).Some? || FindOuter(env, Bare(ref.col)).Some? || NoRowID(tables, ref.col))
    else
      || FindOuter(env, Qual(ref.tbl, ref.col)).Some?
      || (NoneQualified(tables, ref.tbl, ref.col)
          && (FindOuter(env, Bare(ref.col)).Some? || (NoneHas(tables, ref.col) && NoRowID(tables, ref.col))))
  }

  lemma Absent(tables: seq<Table>, t: Tuple, order: seq<nat>, k: Key)
    requires if k.Bare? then NoneHas(tables, k.col) else NoneQualified(tables, k.tbl, k.col)
    ensures k !in Merged(tables, t, order)
  {
    MergedEntry(tables, t, order, k);
  }

  /** A fixed reference reads the same from all partial rows. */
  lemma FixedReads(env: Env, tables: seq<Table>, ref: Ref, t: Tuple, order: seq<nat>)
    requires Fixed(env, tables, ref)
    ensures Read(env, ref, Merged(tables, t, order)) == ReadFrom(env, ref, None, None, None)
  {
    ReadIs(env, ref, Merged(tables, t, order));
    if NoneHas(tables, ref.col) {
      Absent(tables, t, order, Bare(ref.col));
    }
    if NoneQualified(tables, ref.tbl, ref.col) {
      Absent(tables, t, order, Qual(ref.tbl, ref.col));
    }
    if NoneHas(tables, ROW_ID) {
      Absent(tables, t, order, Bare(ROW_ID));
    }
  }

  // ---- conjuncts ----

  ghost predicate Owns(env: Env, tables: seq<Table>, i: nat, ref: Ref) {
    RefersTo(tables, i, ref) && Steady(env, tables, i, ref)
  }

  ghost predicate OwnedIn(env: Env, tables: seq<Table>, ref: Ref, seen: set<nat>) {
    Fixed(env, tables, ref) || exists i <- seen :: Owns(env, tables, i, ref)
  }

  /** What the conjunct reads is settled once the tables of `seen` are joined. */
  ghost predicate Covered(env: Env, tables: seq<Table>, c: Expr, seen: set<nat>) {
    !HasSubquery(c) && forall ref <- TableRefs(c) :: OwnedIn(env, tables, ref, seen)
  }

  lemma OwnedReads(env: Env, tables: seq<Table>, ref: Ref, seen: set<nat>, t: Tuple, order: seq<nat>, t': Tuple,
      order': seq<nat>)
    requires WellFormed(tables) && OwnedIn(env, tables, ref, seen)
    requires TupleOver(tables, Elements(order), t) && TupleOver(tables, Elements(order'), t')
    requires forall i <- seen :: i in t && i in t' && t[i] == t'[i]
    ensures EvalColumnRef(env, ref.tbl, ref.col, Some(Merged(tables, t, order)))
         == EvalColumnRef(env, ref.tbl, ref.col, Some(Merged(tables, t', order')))
  {
    if Fixed(env, tables, ref) {
      FixedReads(env, tables, ref, t, order);
      FixedReads(env, tables, ref, t', order');
    } else {
      var i :| i in seen && Owns(env, tables, i, ref);
      assert i in Elements(order) && i in Elements(order');
      SteadyReads(env, tables, i, ref, t, order);
      SteadyReads(env, tables, i, ref, t', order');
    }
  }

  /** A covered conjunct cannot tell apart two partial rows that agree on those tables. */
  lemma EvalLocal(env: Env, tables: seq<Table>, c: Expr, seen: set<nat>, t: Tuple, order: seq<nat>, t': Tuple,
      order': seq<nat>)
    requires WellFormed(tables) && Covered(env, tables, c, seen)
    requires TupleOver(tables, Elements(order), t) && TupleOver(tables, Elements(order'), t')
    requires forall i <- seen :: i in t && i in t' && t[i] == t'[i]
    ensures Eval(env, c, Some(Merged(tables, t, order))) == Eval(env, c, Some(Merged(tables, t', order')))
  {
    var r, r' := Merged(tables, t, order), Merged(tables, t', order');
    forall ref | ref in TableRefs(c)
      ensures EvalColumnRef(env, ref.tbl, ref.col, Some(r)) == EvalColumnRef(env, ref.tbl, ref.col, Some(r'))
    {
      OwnedReads(env, tables, ref, seen, t, order, t', order');
    }
    Coincidence(env, env, c, Some(r), Some(r'));
  }

  // ---- where the planner may apply a conjunct ----

  /** The applicability test for one reference: a qualifier must name a seen table, an
      unqualified column must be declared by one. */
  predicate RefReady(tables: seq<Table>, seen: set<nat>, ref: Ref) {
    exists i <- seen :: i < |tables| && if ref.tbl != "" then tables[i].alias == ref.tbl else ref.col in tables[i].cols
  }

  predicate Ready(tables: seq<Table>, seen: set<nat>, clause: Expr) {
    forall ref <- TableRefs(clause) :: RefReady(tables, seen, ref)
  }

  /** A conjunct that belongs to one table is applied to its rows; another one when it is ready, or last. */
  ghost predicate MayApply(tables: seq<Table>, use: Use) {
    if exists i: nat :: i < |tables| && PushesTo(tables, use.clause, i) then
      exists i: nat :: i < |tables| && PushesTo(tables, use.clause, i) && use.place == [i]
    else Ready(tables, Elements(use.place), use.clause) || Elements(use.place) == Range(|tables|)
  }

  /** The one table the planner takes the reference for. */
  ghost predicate Home(tables: seq<Table>, i: nat, ref: Ref) {
    && i < |tables|
    && if ref.tbl != "" then tables[i].alias == ref.tbl
       else ref.col in tables[i].cols && forall j :: 0 <= j < |tables| && j != i ==> ref.col !in tables[j].cols
  }

  ghost predicate RefResolved(env: Env, tables: seq<Table>, ref: Ref) {
    Fixed(env, tables, ref) || exists i: nat :: Home(tables, i, ref) && Steady(env, tables, i, ref)
  }

  /** Every reference is fixed, or a steady one to the table the planner takes it for; and a conjunct that is
      pushed to one table names no column of another, which could only be a hidden one. */
  ghost predicate Resolved(env: Env, tables: seq<Table>, c: Expr) {
    && !HasSubquery(c)
    && (forall ref <- TableRefs(c) :: RefResolved(env, tables, ref))
    && forall i: nat, ref | ref in TableRefs(c) && i < |tables| && PushesTo(tables, c, i) ::
         Fixed(env, tables, ref) || Home(tables, i, ref)
  }

  lemma HomeIsOne(tables: seq<Table>, i: nat, j: nat, ref: Ref)
    requires WellFormed(tables) && Home(tables, i, ref)
    requires j < |tables| && if ref.tbl != "" then tables[j].alias == ref.tbl else ref.col in tables[j].cols
    ensures i == j
  {
  }

  /** A resolved conjunct pushed to a table is settled by that table's rows. */
  lemma PushedIsCovered(env: Env, tables: seq<Table>, clause: Expr, i: nat)
    requires WellFormed(tables) && i < |tables| && Resolved(env, tables, clause) && PushesTo(tables, clause, i)
    ensures Covered(env, tables, clause, {i})
  {
    forall ref | ref in TableRefs(clause)
      ensures OwnedIn(env, tables, ref, {i})
    {
      assert RefResolved(env, tables, ref);
      if !Fixed(env, tables, ref) {
        var j: nat :| Home(tables, j, ref) && Steady(env, tables, j, ref);
        HomeIsOne(tables, j, i, ref);
        assert Owns(env, tables, i, ref);
      }
    }
  }

  /** A resolved conjunct that is ready is settled by the tables seen. */
  lemma ReadyIsCovered(env: Env, tables: seq<Table>, seen: set<nat>, c: Expr)
    requires WellFormed(tables) && Resolved(env, tables, c) && Ready(tables, seen, c)
    ensures Covered(env, tables, c, seen)
  {
    forall ref | ref in TableRefs(c)
      ensures OwnedIn(env, tables, ref, seen)
    {
      assert RefResolved(env, tables, ref) && RefReady(tables, seen, ref);
      if !Fixed(env, tables, ref) {
        var j: nat :| Home(tables, j, ref) && Steady(env, tables, j, ref);
        var i :| i in seen && i < |tables|
          && (if ref.tbl != "" then tables[i].alias == ref.tbl else ref.col in tables[i].cols);
        HomeIsOne(tables, j, i, ref);
        assert Owns(env, tables, j, ref);
      }
    }
  }

  lemma ResolvedIsCovered(env: Env, tables: seq<Table>, c: Expr, seen: set<nat>)
    requires WellFormed(tables) && Resolved(env, tables, c) && seen == Range(|tables|)
    ensures Covered(env, tables, c, seen)
  {
    forall ref | ref in TableRefs(c)
      ensures OwnedIn(env, tables, ref, seen)
    {
      assert RefResolved(env, tables, ref);
      if !Fixed(env, tables, ref) {
        var j: nat :| Home(tables, j, ref) && Steady(env, tables, j, ref);
        assert j in seen && Owns(env, tables, j, ref);
      }
    }
  }

  /** Wherever the planner may apply a resolved conjunct, what it reads is settled. */
  lemma AppliedIsCovered(env: Env, tables: seq<Table>, use: Use)
    requires WellFormed(tables) && Resolved(env, tables, use.clause) && MayApply(tables, use)
    ensures Covered(env, tables, use.clause, Elements(use.place))
  {
    if i: nat :| i < |tables| && PushesTo(tables, use.clause, i) && use.place == [i] {
      PushedIsCovered(env, tables, use.clause, i);
      assert Elements([i]) == {i};
    } else if Ready(tables, Elements(use.place), use.clause) {
      ReadyIsCovered(env, tables, Elements(use.place), use.clause);
    } else {
      ResolvedIsCovered(env, tables, use.clause, Elements(use.place));
    }
  }
}
