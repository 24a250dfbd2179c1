/** The search path over whole runs: the fields the executor keeps, in which a savepoint's path is
    found by its position, against the full copies of SessionSpec. */
module SessionPaths {
  import opened Values
  import opened SessionSpec

  /** `saves[i]` is meant to be the path of `savepoints[i]`. */
  datatype PathFields = PathFields(
    inTransaction: bool,
    savepoints: seq<string>,
    session: seq<string>,
    local: seq<string>,
    transaction: Option<seq<string>>,
    saves: seq<seq<string>>)

  function FieldsRolledBack(f: PathFields): PathFields {
    f.(inTransaction := false, savepoints := [], local := [], transaction := None,
       session := if f.transaction.Some? then f.transaction.value else f.session)
  }

  /** What each statement does to the fields. A failed COMMIT leaves the saved paths behind; BEGIN
      drops them, a SAVEPOINT that opens a transaction does not. */
  function FieldStep(f: PathFields, stmt: Statement): PathFields {
    match stmt
    case Begin => if f.inTransaction then f else PathFields(true, [], f.session, [], Some(f.session), [])
    case Commit(lsn) =>
      if !f.inTransaction then f
      else if lsn == None then FieldsRolledBack(f)
      else PathFields(false, [], f.session, [], None, [])
    case Rollback => if f.inTransaction then FieldsRolledBack(f).(saves := []) else f
    case RollbackTo(name) =>
      var at := Find(f.savepoints, name);
      if !f.inTransaction || at == None then f
      else
        var g := f.(savepoints := f.savepoints[..at.value + 1]);
        if at.value < |f.saves| then g.(local := f.saves[at.value], saves := f.saves[..at.value + 1]) else g
    case Savepoint(name) =>
      var g := if f.inTransaction then f else f.(inTransaction := true, savepoints := []);
      g.(savepoints := g.savepoints + [name], saves := g.saves + [g.local])
    case Release(name) =>
      var at := Find(f.savepoints, name);
      if !f.inTransaction || at == None then f
      else f.(savepoints := f.savepoints[..at.value],
              saves := if at.value <= |f.saves| then f.saves[..at.value] else f.saves)
    case Set(path) => f.(session := path, local := [])
    case SetLocal(path) => if f.inTransaction then f.(local := path) else f
    case _ => f
  }

  function FieldRun(f: PathFields, stmts: seq<Statement>): PathFields {
    if stmts == [] then f else FieldStep(FieldRun(f, stmts[..|stmts| - 1]), stmts[|stmts| - 1])
  }

  function PathRun(p: PathState, stmts: seq<Statement>): PathState {
    if stmts == [] then p else PathStep(PathRun(p, stmts[..|stmts| - 1]), stmts[|stmts| - 1])
  }

  function PathCopies(names: seq<string>, paths: seq<seq<string>>): (copies: seq<PathSave>)
    requires |names| == |paths|
    ensures |copies| == |names|
  {
    seq(|names|, i requires 0 <= i < |names| => PathSave(names[i], paths[i]))
  }

  lemma CopiedPathNames(names: seq<string>, paths: seq<seq<string>>)
    requires |names| == |paths|
    ensures PathNames(PathCopies(names, paths)) == names
  {
  }

  lemma PathCopiesChange(names: seq<string>, paths: seq<seq<string>>, name: string, path: seq<string>, n: nat)
    requires |names| == |paths| && n <= |names|
    ensures PathCopies(names + [name], paths + [path]) == PathCopies(names, paths) + [PathSave(name, path)]
    ensures PathCopies(names[..n], paths[..n]) == PathCopies(names, paths)[..n]
  {
  }

  /** The fields stand for the full copies: the same paths and, inside a transaction, one saved path
      for each open savepoint. */
  predicate Refines(f: PathFields, p: PathState) {
    && f.inTransaction == p.inTransaction
    && f.session == p.session && f.local == p.local && f.transaction == p.transaction
    && (f.inTransaction ==> |f.savepoints| == |f.saves| && p.saves == PathCopies(f.savepoints, f.saves))
  }

  /** The statement is a SAVEPOINT that opens a transaction while saved paths of a failed one remain. */
  predicate OpensOverStale(f: PathFields, stmt: Statement) {
    stmt.Savepoint? && !f.inTransaction && f.saves != []
  }

  /** One step keeps the refinement unless it opens a transaction over stale saved paths. */
  lemma RefinesStep(f: PathFields, p: PathState, stmt: Statement)
    requires Refines(f, p)
    ensures Refines(FieldStep(f, stmt), PathStep(p, stmt)) <==> !OpensOverStale(f, stmt)
  {
    if f.inTransaction {
      CopiedPathNames(f.savepoints, f.saves);
      match stmt
      case RollbackTo(name) =>
        var at := Find(f.savepoints, name);
        if at.Some? {
          PathCopiesChange(f.savepoints, f.saves, name, f.local, at.value + 1);
        }
      case Savepoint(name) => PathCopiesChange(f.savepoints, f.saves, name, f.local, 0);
      case Release(name) =>
        var at := Find(f.savepoints, name);
        if at.Some? {
          PathCopiesChange(f.savepoints, f.saves, name, f.local, at.value);
        }
      case _ =>
    }
  }

  ghost predicate RefinesThroughout(f: PathFields, p: PathState, stmts: seq<Statement>) {
    forall k :: 0 <= k <= |stmts| ==> Refines(FieldRun(f, stmts[..k]), PathRun(p, stmts[..k]))
  }

  ghost predicate NeverOpensOverStale(f: PathFields, stmts: seq<Statement>) {
    forall k :: 0 <= k < |stmts| ==> !OpensOverStale(FieldRun(f, stmts[..k]), stmts[k])
  }

  lemma RunNext(f: PathFields, p: PathState, stmts: seq<Statement>, k: nat)
    requires k < |stmts|
    ensures FieldRun(f, stmts[..k + 1]) == FieldStep(FieldRun(f, stmts[..k]), stmts[k])
    ensures PathRun(p, stmts[..k + 1]) == PathStep(PathRun(p, stmts[..k]), stmts[k])
  {
    assert stmts[..k + 1][..k] == stmts[..k];
  }

  /** Over every run the positions stand for full copies after each statement, if and only if no
      SAVEPOINT opens a transaction while saved paths of a failed COMMIT remain. */
  lemma {:induction false} RefinesThroughoutIff(f: PathFields, p: PathState, stmts: seq<Statement>)
    requires Refines(f, p)
    ensures RefinesThroughout(f, p, stmts) <==> NeverOpensOverStale(f, stmts)
  {
    forall k: nat | k <= |stmts| && NeverOpensOverStale(f, stmts)
      ensures Refines(FieldRun(f, stmts[..k]), PathRun(p, stmts[..k]))
    {
      RefinesUpTo(f, p, stmts, k);
    }
    forall k: nat | k < |stmts| && RefinesThroughout(f, p, stmts)
      ensures !OpensOverStale(FieldRun(f, stmts[..k]), stmts[k])
    {
      RunNext(f, p, stmts, k);
      RefinesStep(FieldRun(f, stmts[..k]), PathRun(p, stmts[..k]), stmts[k]);
      assert Refines(FieldRun(f, stmts[..k + 1]), PathRun(p, stmts[..k + 1]));
    }
  }

  lemma {:induction false} RefinesUpTo(f: PathFields, p: PathState, stmts: seq<Statement>, k: nat)
    requires Refines(f, p) && NeverOpensOverStale(f, stmts) && k <= |stmts|
    ensures Refines(FieldRun(f, stmts[..k]), PathRun(p, stmts[..k]))
  {
    if k > 0 {
      RefinesUpTo(f, p, stmts, k - 1);
      RunNext(f, p, stmts, k - 1);
      RefinesStep(FieldRun(f, stmts[..k - 1]), PathRun(p, stmts[..k - 1]), stmts[k - 1]);
    }
  }

  /** Saved paths outlive their transaction only through a COMMIT that fails. */
  lemma StaleOnlyAfterFailedCommit(f: PathFields, stmt: Statement)
    requires f.inTransaction || f.saves == []
    ensures var g := FieldStep(f, stmt);
      !g.inTransaction && g.saves != [] <==> f.inTransaction && f.saves != [] && stmt == Commit(None)
  {
  }

  /** What stale saved paths do: after the SAVEPOINT that opens over them, ROLLBACK TO it restores the
      first of them instead of the path the savepoint was made under. */
  lemma StalePathReturns(f: PathFields, p: PathState, name: string)
    requires OpensOverStale(f, Savepoint(name)) && Refines(f, p)
    ensures FieldStep(FieldStep(f, Savepoint(name)), RollbackTo(name)).local == f.saves[0]
    ensures PathStep(PathStep(p, Savepoint(name)), RollbackTo(name)).local == f.local
  {
    var f', p' := FieldStep(f, Savepoint(name)), PathStep(p, Savepoint(name));
    assert f'.savepoints == [name] && Find(f'.savepoints, name) == Some(0);
    assert p'.saves == [PathSave(name, p.local)] && PathNames(p'.saves) == [name];
  }

  // ---- what the path is ----

  /** The path in force: a SET LOCAL one if there is one, otherwise the session's. */
  function Effective(p: PathState): seq<string> {
    if p.local != [] then p.local else p.session
  }

  /** SET takes effect at once, SET LOCAL in a transaction and nowhere else. */
  lemma SetTakesEffect(p: PathState, path: seq<string>)
    requires path != []
    ensures Effective(PathStep(p, Set(path))) == path
    ensures Effective(PathStep(p, SetLocal(path))) == if p.inTransaction then path else Effective(p)
    ensures PathStep(p, SetLocal(path)).session == p.session
  {
  }

  /** The path of the last SET among the statements. */
  function LastSet(session: seq<string>, stmts: seq<Statement>): seq<string> {
    if stmts == [] then session
    else if stmts[|stmts| - 1].Set? then stmts[|stmts| - 1].path
    else LastSet(session, stmts[..|stmts| - 1])
  }

  lemma {:induction false} PathInside(p: PathState, stmts: seq<Statement>)
    requires p.inTransaction && forall k :: 0 <= k < |stmts| ==> !Ends(stmts[k])
    ensures var q := PathRun(p, stmts);
      q.inTransaction && q.transaction == p.transaction && q.session == LastSet(p.session, stmts)
  {
    if stmts != [] {
      PathInside(p, stmts[..|stmts| - 1]);
    }
  }

  /** A transaction that BEGIN opened: ROLLBACK and a failed COMMIT restore the session path of before it, a
      successful COMMIT keeps the last SET; SET LOCAL ends with it in either case. */
  lemma TransactionPath(p: PathState, stmts: seq<Statement>, lsn: nat)
    requires !p.inTransaction && forall k :: 0 <= k < |stmts| ==> !Ends(stmts[k])
    ensures
      var inside := PathRun(PathStep(p, Begin), stmts);
      && Effective(PathStep(inside, Rollback)) == Effective(PathStep(inside, Commit(None))) == p.session
      && Effective(PathStep(inside, Commit(Some(lsn)))) == LastSet(p.session, stmts)
  {
    PathInside(PathStep(p, Begin), stmts);
  }

  /** A transaction that SAVEPOINT opened records no session path, so the last SET in it outlives even a ROLLBACK. */
  lemma SavepointTransactionPath(p: PathState, name: string, stmts: seq<Statement>, lsn: nat)
    requires !p.inTransaction && p.transaction == None && forall k :: 0 <= k < |stmts| ==> !Ends(stmts[k])
    ensures
      var inside := PathRun(PathStep(p, Savepoint(name)), stmts);
      && Effective(PathStep(inside, Rollback)) == Effective(PathStep(inside, Commit(None)))
      && Effective(PathStep(inside, Rollback)) == Effective(PathStep(inside, Commit(Some(lsn))))
      && Effective(PathStep(inside, Rollback)) == LastSet(p.session, stmts)
  {
    PathInside(PathStep(p, Savepoint(name)), stmts);
  }

  ghost predicate KeepsPathSaves(p: PathState, depth: nat, stmt: Statement) {
    match stmt
    case RollbackTo(name) => var at := Find(PathNames(p.saves), name); at.Some? ==> at.value + 1 >= depth
    case Release(name) => var at := Find(PathNames(p.saves), name); at.Some? ==> at.value >= depth
    case _ => !Ends(stmt)
  }

  lemma PathStepKeeps(p: PathState, depth: nat, stmt: Statement)
    requires p.inTransaction && depth <= |p.saves| && KeepsPathSaves(p, depth, stmt)
    ensures var q := PathStep(p, stmt);
      q.inTransaction && depth <= |q.saves| && q.saves[..depth] == p.saves[..depth]
  {
  }

  /** No statement of the run undoes one of the first savepoints. */
  ghost predicate AllKeepPathSaves(p: PathState, depth: nat, stmts: seq<Statement>) {
    forall k :: 0 <= k < |stmts| ==> KeepsPathSaves(PathRun(p, stmts[..k]), depth, stmts[k])
  }

  lemma {:induction false} PathSavesKept(p: PathState, depth: nat, stmts: seq<Statement>)
    requires p.inTransaction && depth <= |p.saves| && AllKeepPathSaves(p, depth, stmts)
    ensures var q := PathRun(p, stmts);
      q.inTransaction && depth <= |q.saves| && q.saves[..depth] == p.saves[..depth]
  {
    if stmts != [] {
      var k := |stmts| - 1;
      forall j | 0 <= j < k
        ensures KeepsPathSaves(PathRun(p, stmts[..k][..j]), depth, stmts[..k][j])
      {
        assert stmts[..k][..j] == stmts[..j];
      }
      PathSavesKept(p, depth, stmts[..k]);
      assert KeepsPathSaves(PathRun(p, stmts[..k]), depth, stmts[k]);
      PathStepKeeps(PathRun(p, stmts[..k]), depth, stmts[k]);
    }
  }

  /** ROLLBACK TO restores the SET LOCAL path under which its savepoint was made. */
  lemma RollbackToRestoresPath(p: PathState, name: string, stmts: seq<Statement>)
    requires p.inTransaction
    requires var marked := PathStep(p, Savepoint(name));
      && AllKeepPathSaves(marked, |marked.saves|, stmts)
      && Find(PathNames(PathRun(marked, stmts).saves), name) == Some(|p.saves|)
    ensures PathStep(PathRun(PathStep(p, Savepoint(name)), stmts), RollbackTo(name)).local == p.local
  {
    var marked := PathStep(p, Savepoint(name));
    PathSavesKept(marked, |marked.saves|, stmts);
    SavedPathReturns(PathRun(marked, stmts), |p.saves|, marked.saves, name);
  }

  lemma SavedPathReturns(q: PathState, at: nat, saves: seq<PathSave>, name: string)
    requires q.inTransaction && at < |saves| <= |q.saves| && q.saves[..|saves|] == saves
    requires Find(PathNames(q.saves), name) == Some(at)
    ensures PathStep(q, RollbackTo(name)).local == saves[at].local
  {
    assert q.saves[..|saves|][at] == saves[at];
  }
}
