/** WITH and WITH RECURSIVE: scoping of the materialized tables and the semi-naive fixpoint loop. */
module RecursiveCte {
  import opened Collections
  import opened Values

  const MAX_ITERATIONS := 1000

  /** A materialized row, positionally under the columns of its table. */
  type CteRow = seq<Value>

  type Tables = map<string, seq<CteRow>>

  /** A SELECT as a function of the common tables it can see. */
  type Query = Tables -> Result<seq<CteRow>>

  /** The recursive leg as a function of its working set. */
  type Leg = seq<CteRow> -> Result<seq<CteRow>>

  datatype Cte =
    | Simple(name: string, query: Query)
    | Recursive(name: string, anchor: Query, step: Query, width: nat, distinct: bool)

  /** resultToCTERows: a result row under `width` columns. */
  function Fit(row: CteRow, width: nat): CteRow {
    seq(width, i requires 0 <= i => if i < |row| then row[i] else Null)
  }

  function FitAll(rows: seq<CteRow>, width: nat): (fitted: seq<CteRow>)
    ensures |fitted| == |rows|
  {
    seq(|rows|, i requires 0 <= i < |rows| => Fit(rows[i], width))
  }

  /** cteRowKey: every rendering ends with a NUL. */
  function RowKey(lib: Library, row: CteRow): string {
    if row == [] then "" else Render(lib, row[0]) + "\0" + RowKey(lib, row[1..])
  }

  /** Within `rows`, rows with one key are one row. */
  ghost predicate KeysApart(lib: Library, rows: iset<CteRow>) {
    forall r, s :: r in rows && s in rows && RowKey(lib, r) == RowKey(lib, s) ==> r == s
  }

  predicate AllInts(row: CteRow) {
    forall v <- row :: v.Int?
  }

  /** Rows of integers have keys of their own. */
  lemma IntRowsApart(lib: Library)
    ensures KeysApart(lib, iset row | AllInts(row))
  {
    forall r, s | AllInts(r) && AllInts(s) && RowKey(lib, r) == RowKey(lib, s)
      ensures r == s
    {
      IntKeyInjective(lib, r, s);
    }
  }

  lemma {:induction false} IntKeyInjective(lib: Library, r: CteRow, s: CteRow)
    requires AllInts(r) && AllInts(s) && RowKey(lib, r) == RowKey(lib, s)
    ensures r == s
  {
    if r != [] && s != [] {
      var a, b := FormatInt(r[0].i), FormatInt(s[0].i);
      assert RowKey(lib, r) == a + "\0" + RowKey(lib, r[1..]);
      assert RowKey(lib, s) == b + "\0" + RowKey(lib, s[1..]);
      NoNul(r[0].i);
      NoNul(s[0].i);
      SplitAt('\0', a, b, RowKey(lib, r[1..]), RowKey(lib, s[1..]));
      FormatIntInjective(r[0].i, s[0].i);
      IntKeyInjective(lib, r[1..], s[1..]);
      assert r == [r[0]] + r[1..] && s == [s[0]] + s[1..];
    }
  }

  lemma NoNul(i: int)
    ensures '\0' !in FormatInt(i)
  {
    DigitsNonEmpty(if i < 0 then -i else i);
  }

  // ---- fixpoints ----

  /** The leg treats a union of working sets, rows and failures alike, as the union of what it
      makes of the parts. */
  ghost predicate Distributes(leg: Leg) {
    forall a, b :: DistributesOver(leg, a, b)
  }

  ghost predicate DistributesOver(leg: Leg, a: seq<CteRow>, b: seq<CteRow>) {
    && (leg(a + b).Ok? <==> leg(a).Ok? && leg(b).Ok?)
    && (leg(a + b).Ok? ==> Elements(leg(a + b).value) == Elements(leg(a).value) + Elements(leg(b).value))
  }

  ghost predicate Within(rows: seq<CteRow>, s: iset<CteRow>) {
    forall r <- rows :: r in s
  }

  /** The rows the leg makes of rows in `s` are in `s`. */
  ghost predicate Closed(leg: Leg, s: iset<CteRow>) {
    forall w :: Within(w, s) && leg(w).Ok? ==> Within(leg(w).value, s)
  }

  ghost function Members(rows: seq<CteRow>): iset<CteRow> {
    iset r | r in rows
  }

  /** The leg makes nothing of a single row of `rows` that is not in `s`. */
  ghost predicate Absorbed(leg: Leg, rows: seq<CteRow>, s: seq<CteRow>) {
    forall r <- rows :: leg([r]).Ok? && Within(leg([r]).value, Members(s))
  }

  lemma {:induction false} PartsOf(leg: Leg, w: seq<CteRow>, r: CteRow)
    requires Distributes(leg) && leg(w).Ok? && r in w
    ensures leg([r]).Ok? && Elements(leg([r]).value) <= Elements(leg(w).value)
  {
    var k :| 0 <= k < |w| && w[k] == r;
    assert w == (w[..k] + [r]) + w[k + 1..];
    assert DistributesOver(leg, w[..k] + [r], w[k + 1..]);
    assert DistributesOver(leg, w[..k], [r]);
  }

  /** What the leg makes of nothing, and of each row, is all it makes of a working set. */
  lemma {:induction false} WholeOf(leg: Leg, w: seq<CteRow>, s: seq<CteRow>)
    requires Distributes(leg) && leg([]).Ok? && Within(leg([]).value, Members(s)) && Absorbed(leg, w, s)
    ensures leg(w).Ok? && Within(leg(w).value, Members(s))
  {
    if w != [] {
      var n := |w| - 1;
      assert w == w[..n] + [w[n]];
      assert Absorbed(leg, w[..n], s) by {
        assert forall r <- w[..n] :: r in w;
      }
      WholeOf(leg, w[..n], s);
      assert w[n] in w;
      assert DistributesOver(leg, w[..n], [w[n]]);
      forall r <- leg(w).value
        ensures r in s
      {
        assert r in Elements(leg(w).value);
      }
    }
  }

  lemma AbsorbedIsClosed(leg: Leg, s: seq<CteRow>)
    requires Distributes(leg) && leg([]).Ok? && Within(leg([]).value, Members(s)) && Absorbed(leg, s, s)
    ensures Closed(leg, Members(s))
  {
    forall w | Within(w, Members(s)) && leg(w).Ok?
      ensures Within(leg(w).value, Members(s))
    {
      WholeOf(leg, w, s);
    }
  }

  /** Rows of a working set all of whose results are in `s` are absorbed, and so is nothing at all. */
  lemma WorkedOff(leg: Leg, w: seq<CteRow>, s: seq<CteRow>)
    requires Distributes(leg) && leg(w).Ok? && Within(leg(w).value, Members(s))
    ensures Absorbed(leg, w, s) && leg([]).Ok? && Within(leg([]).value, Members(s))
  {
    forall r <- w
      ensures leg([r]).Ok? && Within(leg([r]).value, Members(s))
    {
      PartsOf(leg, w, r);
      assert forall x <- leg([r]).value :: x in Elements(leg(w).value);
    }
    assert w + [] == w;
    assert DistributesOver(leg, w, []);
    assert forall x <- leg([]).value :: x in Elements(leg(w).value);
  }

  /** UNION ALL without a cap: rounds until one comes out empty. */
  function Rounds(leg: Leg, w: seq<CteRow>, n: nat): seq<CteRow>
    decreases n
  {
    if n == 0 || leg(w).Err? || leg(w).value == [] then []
    else leg(w).value + Rounds(leg, leg(w).value, n - 1)
  }

  /** The rounds still to come complete the rows of a UNION ALL. */
  ghost predicate RoundsLeft(leg: Leg, distinct: bool, all: seq<CteRow>, accumulated: seq<CteRow>,
      working: seq<CteRow>, n: nat)
  {
    !distinct ==> all == accumulated + Rounds(leg, working, n)
  }

  lemma RoundsStep(leg: Leg, distinct: bool, all: seq<CteRow>, accumulated: seq<CteRow>, working: seq<CteRow>,
      kept: seq<CteRow>, n: nat)
    requires RoundsLeft(leg, distinct, all, accumulated, working, n + 1)
    requires leg(working).Ok? && kept != [] && (!distinct ==> kept == leg(working).value)
    ensures RoundsLeft(leg, distinct, all, accumulated + kept, kept, n)
  {
    if !distinct {
      assert (accumulated + kept) + Rounds(leg, kept, n) == accumulated + (kept + Rounds(leg, kept, n));
    }
  }

  function Keys(lib: Library, rows: seq<CteRow>): seq<string> {
    seq(|rows|, i requires 0 <= i < |rows| => RowKey(lib, rows[i]))
  }

  function LegOf(step: Query, width: nat, tables: Tables, name: string): Leg {
    w => match step(tables[name := w])
         case Ok(rows) => Ok(FitAll(rows, width))
         case Err(e) => Err(e)
  }

  // ---- the loop ----

  lemma NoDupKeys(lib: Library, kept: seq<CteRow>, key: string, seen: set<string>, seen': set<string>, distinct: bool)
    requires distinct ==> seen' == seen + Elements(Keys(lib, kept)) && NoDup(Keys(lib, kept)) && key !in seen'
    ensures distinct ==> NoDup(Keys(lib, kept) + [key])
  {
    if distinct {
      NoDupConcat(Keys(lib, kept), [key]);
    }
  }

  /** The rows of one round that no earlier row shares its key with, for UNION; all of them for
      UNION ALL. */
  method Unseen(lib: Library, rows: seq<CteRow>, distinct: bool, seen: set<string>)
    returns (kept: seq<CteRow>, seen': set<string>)
    ensures Kept(lib, rows, distinct, seen, kept, seen')
  {
    kept, seen' := [], seen;
    for i := 0 to |rows|
      invariant Kept(lib, rows[..i], distinct, seen, kept, seen')
    {
      assert rows[..i + 1] == rows[..i] + [rows[i]];
      var key := RowKey(lib, rows[i]);
      if distinct && key in seen' {
        continue;
      }
      KeysConcat(lib, kept, [rows[i]]);
      assert Keys(lib, [rows[i]]) == [key];
      NoDupKeys(lib, kept, key, seen, seen', distinct);
      if distinct {
        seen' := seen' + {key};
      }
      kept := kept + [rows[i]];
    }
    assert rows[..|rows|] == rows;
  }

  /** What the closure of the result needs: a leg that distributes and, for UNION, a closed set
      around the anchor in which keys tell rows apart. */
  ghost predicate SideConditions(lib: Library, leg: Leg, anchor: seq<CteRow>, distinct: bool) {
    && Distributes(leg)
    && (distinct ==> exists around :: TellsApart(lib, leg, anchor, around))
  }

  ghost predicate TellsApart(lib: Library, leg: Leg, anchor: seq<CteRow>, around: iset<CteRow>) {
    Closed(leg, around) && Within(anchor, around) && KeysApart(lib, around)
  }

  /** After the anchor no key repeats, neither one of the anchor's nor another. */
  ghost predicate NoRepeats(lib: Library, anchor: seq<CteRow>, rows: seq<CteRow>)
    requires |anchor| <= |rows|
  {
    && NoDup(Keys(lib, rows[|anchor|..]))
    && forall k <- Keys(lib, rows[|anchor|..]) :: k !in Keys(lib, anchor)
  }

  /** Every set closed under the leg that holds the anchor holds the rows. */
  ghost predicate InEveryFixpoint(leg: Leg, anchor: seq<CteRow>, rows: seq<CteRow>) {
    forall t :: Closed(leg, t) && Within(anchor, t) ==> Within(rows, t)
  }

  /** The materialized rows: the anchor first; for UNION nothing repeated after it, for UNION ALL
      round after round; always part of the least fixpoint around the anchor, and under the side
      conditions all of it unless the iteration cap stopped the loop. */
  ghost predicate Solves(lib: Library, leg: Leg, anchor: seq<CteRow>, distinct: bool, cap: nat, complete: bool,
      rows: seq<CteRow>)
  {
    && anchor <= rows
    && (distinct ==> NoRepeats(lib, anchor, rows))
    && (!distinct ==> rows == anchor + Rounds(leg, anchor, cap))
    && InEveryFixpoint(leg, anchor, rows)
    && (complete && SideConditions(lib, leg, anchor, distinct) ==> Closed(leg, Members(rows)))
    && (!complete ==> |rows| >= |anchor| + cap)
  }

  /** Invariant of the loop. */
  ghost predicate Progress(lib: Library, leg: Leg, anchor: seq<CteRow>, distinct: bool, accumulated: seq<CteRow>,
      processed: seq<CteRow>, working: seq<CteRow>, seen: set<string>)
  {
    && accumulated == processed + working
    && anchor <= accumulated
    && (distinct ==> seen == Elements(Keys(lib, accumulated)) && NoRepeats(lib, anchor, accumulated))
    && InEveryFixpoint(leg, anchor, accumulated)
    && (SideConditions(lib, leg, anchor, distinct) ==> Absorbed(leg, processed, accumulated))
  }

  /** What one round keeps of the rows the leg made. */
  ghost predicate Kept(lib: Library, rows: seq<CteRow>, distinct: bool, seen: set<string>, kept: seq<CteRow>,
      seen': set<string>)
  {
    && (forall r <- kept :: r in rows)
    && (!distinct ==> kept == rows && seen' == seen)
    && (distinct ==>
      && seen' == seen + Elements(Keys(lib, kept)) && NoDup(Keys(lib, kept))
      && (forall k <- Keys(lib, kept) :: k !in seen)
      && forall r <- rows :: RowKey(lib, r) in seen')
  }

  lemma KeysConcat(lib: Library, a: seq<CteRow>, b: seq<CteRow>)
    ensures Keys(lib, a + b) == Keys(lib, a) + Keys(lib, b)
    ensures Elements(Keys(lib, a + b)) == Elements(Keys(lib, a)) + Elements(Keys(lib, b))
  {
    assert Keys(lib, a + b) == Keys(lib, a) + Keys(lib, b);
  }

  /** All rows of a round are in the accumulated rows afterwards. */
  lemma RoundIsIn(lib: Library, leg: Leg, anchor: seq<CteRow>, distinct: bool, accumulated: seq<CteRow>,
      processed: seq<CteRow>, working: seq<CteRow>, seen: set<string>, kept: seq<CteRow>, seen': set<string>)
    requires Progress(lib, leg, anchor, distinct, accumulated, processed, working, seen)
    requires leg(working).Ok? && Kept(lib, leg(working).value, distinct, seen, kept, seen')
    requires SideConditions(lib, leg, anchor, distinct)
    ensures Within(leg(working).value, Members(accumulated + kept))
  {
    var rows, all := leg(working).value, accumulated + kept;
    if distinct {
      var around :| TellsApart(lib, leg, anchor, around);
      KeysConcat(lib, accumulated, kept);
      assert Within(accumulated, around);
      assert Within(working, around) by {
        assert forall r <- working :: r in accumulated;
      }
      assert Within(rows, around);
      forall r <- rows
        ensures r in all
      {
        assert RowKey(lib, r) in Keys(lib, all);
        var k :| 0 <= k < |all| && RowKey(lib, all[k]) == RowKey(lib, r);
        assert all[k] in around && all[k] in all by {
          assert k < |accumulated| ==> all[k] in accumulated;
          assert k >= |accumulated| ==> all[k] in kept;
        }
      }
    }
  }

  lemma RoundAbsorbs(lib: Library, leg: Leg, anchor: seq<CteRow>, distinct: bool, accumulated: seq<CteRow>,
      processed: seq<CteRow>, working: seq<CteRow>, seen: set<string>, kept: seq<CteRow>, seen': set<string>)
    requires Progress(lib, leg, anchor, distinct, accumulated, processed, working, seen)
    requires leg(working).Ok? && Kept(lib, leg(working).value, distinct, seen, kept, seen')
    requires SideConditions(lib, leg, anchor, distinct)
    ensures Absorbed(leg, accumulated, accumulated + kept)
    ensures leg([]).Ok? && Within(leg([]).value, Members(accumulated + kept))
  {
    RoundIsIn(lib, leg, anchor, distinct, accumulated, processed, working, seen, kept, seen');
    WorkedOff(leg, working, accumulated + kept);
    forall r <- accumulated
      ensures leg([r]).Ok? && Within(leg([r]).value, Members(accumulated + kept))
    {
      assert r in processed || r in working;
    }
  }

  lemma ProgressStep(lib: Library, leg: Leg, anchor: seq<CteRow>, distinct: bool, accumulated: seq<CteRow>,
      processed: seq<CteRow>, working: seq<CteRow>, seen: set<string>, kept: seq<CteRow>, seen': set<string>)
    requires Progress(lib, leg, anchor, distinct, accumulated, processed, working, seen)
    requires leg(working).Ok? && Kept(lib, leg(working).value, distinct, seen, kept, seen')
    ensures Progress(lib, leg, anchor, distinct, accumulated + kept, accumulated, kept, seen')
  {
    var all := accumulated + kept;
    if distinct {
      KeysConcat(lib, accumulated, kept);
      NoRepeatsStep(lib, anchor, accumulated, kept);
    }
    forall t | Closed(leg, t) && Within(anchor, t)
      ensures Within(all, t)
    {
      assert Within(accumulated, t);
      assert Within(working, t) by {
        assert forall r <- working :: r in accumulated;
      }
      assert Within(leg(working).value, t);
    }
    if SideConditions(lib, leg, anchor, distinct) {
      RoundAbsorbs(lib, leg, anchor, distinct, accumulated, processed, working, seen, kept, seen');
    }
  }

  lemma NoRepeatsStep(lib: Library, anchor: seq<CteRow>, accumulated: seq<CteRow>, kept: seq<CteRow>)
    requires anchor <= accumulated && NoRepeats(lib, anchor, accumulated)
    requires NoDup(Keys(lib, kept)) && forall k <- Keys(lib, kept) :: k !in Keys(lib, accumulated)
    ensures NoRepeats(lib, anchor, accumulated + kept)
  {
    var rest := accumulated[|anchor|..];
    assert accumulated == anchor + rest && (accumulated + kept)[|anchor|..] == rest + kept;
    KeysConcat(lib, anchor, rest);
    KeysConcat(lib, rest, kept);
    NoDupConcat(Keys(lib, rest), Keys(lib, kept));
  }

  lemma Finished(lib: Library, leg: Leg, anchor: seq<CteRow>, distinct: bool, accumulated: seq<CteRow>,
      processed: seq<CteRow>, working: seq<CteRow>, seen: set<string>, seen': set<string>)
    requires Progress(lib, leg, anchor, distinct, accumulated, processed, working, seen)
    requires leg(working).Ok? && Kept(lib, leg(working).value, distinct, seen, [], seen')
    ensures SideConditions(lib, leg, anchor, distinct) ==> Closed(leg, Members(accumulated))
  {
    if SideConditions(lib, leg, anchor, distinct) {
      RoundAbsorbs(lib, leg, anchor, distinct, accumulated, processed, working, seen, [], seen');
      assert accumulated + [] == accumulated;
      AbsorbedIsClosed(leg, accumulated);
    }
  }

  /** What holds before round `i`: the invariant, and how much the rounds have added. */
  ghost predicate AtRound(lib: Library, leg: Leg, anchor: seq<CteRow>, distinct: bool, cap: nat, i: nat,
      accumulated: seq<CteRow>, working: seq<CteRow>, seen: set<string>)
  {
    && i <= cap && |accumulated| >= |anchor| + i
    && RoundsLeft(leg, distinct, anchor + Rounds(leg, anchor, cap), accumulated, working, cap - i)
    && exists processed :: Progress(lib, leg, anchor, distinct, accumulated, processed, working, seen)
  }

  lemma FirstRound(lib: Library, leg: Leg, anchor: seq<CteRow>, distinct: bool, cap: nat, seen: set<string>)
    requires distinct ==> seen == Elements(Keys(lib, anchor))
    ensures AtRound(lib, leg, anchor, distinct, cap, 0, anchor, anchor, seen)
  {
    assert [] + anchor == anchor && Keys(lib, anchor[|anchor|..]) == [];
    assert Progress(lib, leg, anchor, distinct, anchor, [], anchor, seen);
  }

  lemma NextRound(lib: Library, leg: Leg, anchor: seq<CteRow>, distinct: bool, cap: nat, i: nat,
      accumulated: seq<CteRow>, working: seq<CteRow>, seen: set<string>, kept: seq<CteRow>, seen': set<string>)
    requires AtRound(lib, leg, anchor, distinct, cap, i, accumulated, working, seen) && i < cap
    requires leg(working).Ok? && Kept(lib, leg(working).value, distinct, seen, kept, seen') && kept != []
    ensures AtRound(lib, leg, anchor, distinct, cap, i + 1, accumulated + kept, kept, seen')
  {
    var processed :| Progress(lib, leg, anchor, distinct, accumulated, processed, working, seen);
    ProgressStep(lib, leg, anchor, distinct, accumulated, processed, working, seen, kept, seen');
    RoundsStep(leg, distinct, anchor + Rounds(leg, anchor, cap), accumulated, working, kept, cap - i - 1);
  }

  lemma Capped(lib: Library, leg: Leg, anchor: seq<CteRow>, distinct: bool, cap: nat,
      accumulated: seq<CteRow>, working: seq<CteRow>, seen: set<string>)
    requires AtRound(lib, leg, anchor, distinct, cap, cap, accumulated, working, seen)
    ensures Solves(lib, leg, anchor, distinct, cap, false, accumulated)
  {
  }

  lemma Completed(lib: Library, leg: Leg, anchor: seq<CteRow>, distinct: bool, cap: nat, i: nat,
      accumulated: seq<CteRow>, working: seq<CteRow>, seen: set<string>, seen': set<string>)
    requires AtRound(lib, leg, anchor, distinct, cap, i, accumulated, working, seen)
    requires leg(working).Ok? && Kept(lib, leg(working).value, distinct, seen, [], seen')
    ensures Solves(lib, leg, anchor, distinct, cap, true, accumulated)
  {
    var processed :| Progress(lib, leg, anchor, distinct, accumulated, processed, working, seen);
    Finished(lib, leg, anchor, distinct, accumulated, processed, working, seen, seen');
    if !distinct {
      assert Rounds(leg, working, cap - i) == [];
    }
  }

  /** `after` is `base` with the rows of the table set: what its query answers under `base`, or a
      solution of its recursion over `base`. */
  ghost predicate Materialized(lib: Library, cte: Cte, base: Tables, after: Tables, complete: bool) {
    && cte.name in after && after == base[cte.name := after[cte.name]]
    && match cte
       case Simple(name, query) => query(base) == Ok(after[name])
       case Recursive(name, anchor, step, width, distinct) =>
         && anchor(base).Ok?
         && Solves(lib, LegOf(step, width, base, name), FitAll(anchor(base).value, width), distinct, MAX_ITERATIONS,
              complete, after[name])
  }

  ghost predicate MaterializedNext(lib: Library, cte: Cte, base: Tables, after: Tables) {
    Materialized(lib, cte, base, after, true) || Materialized(lib, cte, base, after, false)
  }

  /** The tables visible before and after each of the CTEs: each is materialized over the ones before it. */
  ghost predicate Scoped(lib: Library, ctes: seq<Cte>, trace: seq<Tables>) {
    |trace| == |ctes| + 1 && forall i :: 0 <= i < |ctes| ==> MaterializedNext(lib, ctes[i], trace[i], trace[i + 1])
  }

  lemma ScopedNext(lib: Library, ctes: seq<Cte>, trace: seq<Tables>, cte: Cte, base: Tables, after: Tables,
      complete: bool)
    requires Scoped(lib, ctes, trace) && trace[|ctes|] == base && Materialized(lib, cte, base, after, complete)
    ensures Scoped(lib, ctes + [cte], trace + [after])
  {
  }

  class Executor {
    const lib: Library
    var cteTables: Tables

    constructor (lib: Library)
      ensures this.lib == lib && cteTables == map[]
    {
      this.lib, cteTables := lib, map[];
    }

    /** The table stands for `base`, apart from what the CTE of this name was last set to. */
    ghost predicate OnlySets(name: string, base: Tables)
      reads this
    {
      cteTables == base || (name in cteTables && cteTables == base[name := cteTables[name]])
    }

    /** One round: the working set is the table, and its new rows are kept. */
    method Round(cte: Cte, working: seq<CteRow>, seen: set<string>, ghost base: Tables)
      returns (result: Result<(seq<CteRow>, set<string>)>)
      requires cte.Recursive? && OnlySets(cte.name, base)
      modifies this
      ensures OnlySets(cte.name, base)
      ensures result.Ok? ==>
        var leg := LegOf(cte.step, cte.width, base, cte.name);
        leg(working).Ok? && Kept(lib, leg(working).value, cte.distinct, seen, result.value.0, result.value.1)
    {
      cteTables := cteTables[cte.name := working];
      assert cteTables == base[cte.name := working];
      var recursive := cte.step(cteTables);
      if recursive.Err? {
        return Err(recursive.error);
      }
      var rows := FitAll(recursive.value, cte.width);
      assert LegOf(cte.step, cte.width, base, cte.name)(working) == Ok(rows);
      var kept, seen' := Unseen(lib, rows, cte.distinct, seen);
      result := Ok((kept, seen'));
    }

    /** The loop of materializeCTE: every round sees the previous round's new rows as the table. */
    method Iterate(cte: Cte, anchor: seq<CteRow>, cap: nat, ghost base: Tables)
      returns (result: Result<seq<CteRow>>, ghost complete: bool)
      requires cte.Recursive? && cteTables == base
      modifies this
      ensures OnlySets(cte.name, base)
      ensures result.Ok? ==>
        Solves(lib, LegOf(cte.step, cte.width, base, cte.name), anchor, cte.distinct, cap, complete, result.value)
    {
      complete := false;
      ghost var leg := LegOf(cte.step, cte.width, base, cte.name);
      var accumulated, working := anchor, anchor;
      var seen := if cte.distinct then Elements(Keys(lib, anchor)) else {};
      FirstRound(lib, leg, anchor, cte.distinct, cap, seen);
      for i := 0 to cap
        invariant OnlySets(cte.name, base)
        invariant AtRound(lib, leg, anchor, cte.distinct, cap, i, accumulated, working, seen)
      {
        var round := Round(cte, working, seen, base);
        if round.Err? {
          return Err(round.error), false;
        }
        var (kept, seen') := round.value;
        if kept == [] {
          Completed(lib, leg, anchor, cte.distinct, cap, i, accumulated, working, seen, seen');
          return Ok(accumulated), true;
        }
        NextRound(lib, leg, anchor, cte.distinct, cap, i, accumulated, working, seen, kept, seen');
        accumulated, working, seen := accumulated + kept, kept, seen';
      }
      Capped(lib, leg, anchor, cte.distinct, cap, accumulated, working, seen);
      result := Ok(accumulated);
    }

    /** materializeCTE. */
    method Materialize(cte: Cte) returns (result: Result<()>, ghost complete: bool)
      modifies this
      ensures result.Ok? ==> Materialized(lib, cte, old(cteTables), cteTables, complete)
    {
      complete := true;
      match cte
      case Simple(name, query) =>
        var rows := query(cteTables);
        if rows.Err? {
          return Err(rows.error), false;
        }
        cteTables := cteTables[name := rows.value];
        result := Ok(());
      case Recursive(name, anchor, _, width, _) =>
        ghost var base := cteTables;
        var anchored := anchor(cteTables);
        if anchored.Err? {
          return Err(anchored.error), false;
        }
        var rows;
        rows, complete := Iterate(cte, FitAll(anchored.value, width), MAX_ITERATIONS, base);
        if rows.Err? {
          return Err(rows.error), false;
        }
        cteTables := cteTables[name := rows.value];
        assert cteTables == base[name := rows.value];
        result := Ok(());
    }

    /** executeWith: each table is materialized under the outer ones and those before it, the main
        query sees them all, and afterwards none of them is left. */
    method ExecuteWith(ctes: seq<Cte>, main: Query) returns (result: Result<seq<CteRow>>, ghost trace: seq<Tables>)
      modifies this
      ensures cteTables == old(cteTables)
      ensures result.Ok? ==> Scoped(lib, ctes, trace) && trace[0] == old(cteTables) && main(trace[|ctes|]) == result
      ensures result.Ok? ==>
        var tables := trace[|ctes|];
        && (forall name :: name in tables <==> name in old(cteTables) || exists c <- ctes :: c.name == name)
        && forall name :: name in old(cteTables) && (forall c <- ctes :: c.name != name) ==>
          tables[name] == old(cteTables)[name]
    {
      var prev := cteTables;
      trace := [cteTables];
      for i := 0 to |ctes|
        invariant Scoped(lib, ctes[..i], trace) && trace[0] == prev && trace[i] == cteTables
        invariant forall name :: name in cteTables <==> name in prev || exists c <- ctes[..i] :: c.name == name
        invariant forall name :: name in prev && (forall c <- ctes[..i] :: c.name != name) ==>
          cteTables[name] == prev[name]
      {
        assert ctes[..i + 1] == ctes[..i] + [ctes[i]];
        ghost var before := cteTables;
        var done, complete := Materialize(ctes[i]);
        if done.Err? {
          cteTables := prev;
          return Err(done.error), [];
        }
        ScopedNext(lib, ctes[..i], trace, ctes[i], before, cteTables, complete);
        trace := trace + [cteTables];
      }
      assert ctes[..|ctes|] == ctes;
      result := main(cteTables);
      cteTables := prev;
    }
  }
}
