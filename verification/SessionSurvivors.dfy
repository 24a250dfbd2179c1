/** What a session's runs leave behind, by the statements alone: the writes, subscriptions and messages of
    committed transactions that no ROLLBACK TO has undone. */
module SessionSurvivors {
  import opened Values
  import opened SessionSpec

  // ---- plain meanings ----

  datatype Entry = Entry(key: string, value: string)

  /** `data` with the entries written into it, one after the other. */
  function Written(data: Data, entries: seq<Entry>): Data {
    if entries == [] then data
    else
      var n := |entries| - 1;
      Written(data, entries[..n])[entries[n].key := entries[n].value]
  }

  /** The last entry for the key. */
  ghost predicate LastFor(entries: seq<Entry>, key: string, k: int) {
    && 0 <= k < |entries| && entries[k].key == key
    && forall j :: k < j < |entries| ==> entries[j].key != key
  }

  /** A written key has the value of its last entry. */
  lemma {:induction false} WrittenLast(data: Data, entries: seq<Entry>, key: string, k: nat)
    requires LastFor(entries, key, k)
    ensures key in Written(data, entries) && Written(data, entries)[key] == entries[k].value
  {
    var n := |entries| - 1;
    if k < n {
      assert LastFor(entries[..n], key, k);
      WrittenLast(data, entries[..n], key, k);
      assert entries[n].key != key;
    }
  }

  /** Any other key has what it had. */
  lemma {:induction false} WrittenOther(data: Data, entries: seq<Entry>, key: string)
    requires forall k :: 0 <= k < |entries| ==> entries[k].key != key
    ensures key in Written(data, entries) <==> key in data
    ensures key in data ==> Written(data, entries)[key] == data[key]
  {
    if entries != [] {
      var n := |entries| - 1;
      assert entries[n].key != key;
      WrittenOther(data, entries[..n], key);
    }
  }

  lemma {:induction false} WrittenConcat(data: Data, a: seq<Entry>, b: seq<Entry>)
    ensures Written(data, a + b) == Written(Written(data, a), b)
  {
    if b == [] {
      assert a + b == a;
    } else {
      var n := |b| - 1;
      WrittenConcat(data, a, b[..n]);
      assert (a + b)[..|a| + n] == a + b[..n];
    }
  }

  /** The statement says something about the channel. */
  predicate Concerns(op: ListenOp, channel: string) {
    op == UnlistenAll || op.channel == channel
  }

  ghost predicate LastAbout(ops: seq<ListenOp>, channel: string, k: int) {
    && 0 <= k < |ops| && Concerns(ops[k], channel)
    && forall j :: k < j < |ops| ==> !Concerns(ops[j], channel)
  }

  /** After subscriptions a channel is listened to exactly when the last statement about it was a LISTEN. */
  lemma {:induction false} AppliedLast(listens: set<string>, ops: seq<ListenOp>, channel: string, k: nat)
    requires LastAbout(ops, channel, k)
    ensures channel in ApplyOps(listens, ops) <==> ops[k].Listen?
  {
    var n := |ops| - 1;
    if k < n {
      assert LastAbout(ops[..n], channel, k);
      AppliedLast(listens, ops[..n], channel, k);
      assert !Concerns(ops[n], channel);
    }
  }

  /** Without a statement about it nothing changes. */
  lemma {:induction false} AppliedOther(listens: set<string>, ops: seq<ListenOp>, channel: string)
    requires forall k :: 0 <= k < |ops| ==> !Concerns(ops[k], channel)
    ensures channel in ApplyOps(listens, ops) <==> channel in listens
  {
    if ops != [] {
      var n := |ops| - 1;
      assert !Concerns(ops[n], channel);
      AppliedOther(listens, ops[..n], channel);
    }
  }

  lemma {:induction false} AppliedConcat(listens: set<string>, a: seq<ListenOp>, b: seq<ListenOp>)
    ensures ApplyOps(listens, a + b) == ApplyOps(ApplyOps(listens, a), b)
  {
    if b == [] {
      assert a + b == a;
    } else {
      var n := |b| - 1;
      AppliedConcat(listens, a, b[..n]);
      assert (a + b)[..|a| + n] == a + b[..n];
    }
  }

  // ---- lists of statements' effects ----

  /** What a transaction has done and not undone. */
  datatype Work = Work(writes: seq<Entry>, ops: seq<ListenOp>, raised: seq<Notification>)

  const IDLE := Work([], [], [])

  datatype Mark = Mark(name: string, work: Work)

  /** The work made permanent, and that of the open transaction with its savepoints. */
  datatype History = History(done: Work, inTransaction: bool, work: Work, marks: seq<Mark>)

  function MarkNames(marks: seq<Mark>): seq<string> {
    seq(|marks|, k requires 0 <= k < |marks| => marks[k].name)
  }

  /** Both lists of work, one after the other; a message raised twice in one transaction counts once. */
  function Sum(a: Work, b: Work): Work {
    Work(a.writes + b.writes, a.ops + b.ops, a.raised + Dedup(b.raised))
  }

  /** What a statement other than those of transaction control does, if it is accepted. */
  function Effect(pid: int, stmt: Statement): Work {
    match stmt
    case Subscription(op) => if op == UnlistenAll || op.channel != "" then Work([], [op], []) else IDLE
    case Notify(channel, payload) =>
      if |payload| <= 8000 then Work([], [], [Notification(pid, channel, payload, 0)]) else IDLE
    case Write(key, value) => Work([Entry(key, value)], [], [])
    case _ => IDLE
  }

  function Also(a: Work, b: Work): Work {
    Work(a.writes + b.writes, a.ops + b.ops, a.raised + b.raised)
  }

  /** Inside a transaction work is collected; a successful COMMIT makes it permanent, a failed one and
      ROLLBACK drop it, ROLLBACK TO drops what came after the savepoint; outside it is permanent at once. */
  function Next(h: History, pid: int, stmt: Statement): History {
    match stmt
    case Begin => if h.inTransaction then h else History(h.done, true, IDLE, [])
    case Commit(lsn) =>
      if !h.inTransaction then h
      else History(if lsn.Some? then Sum(h.done, h.work) else h.done, false, IDLE, [])
    case Rollback => if h.inTransaction then History(h.done, false, IDLE, []) else h
    case RollbackTo(name) =>
      var at := Find(MarkNames(h.marks), name);
      if !h.inTransaction || at == None then h
      else h.(work := h.marks[at.value].work, marks := h.marks[..at.value + 1])
    case Savepoint(name) =>
      var started := if h.inTransaction then h else History(h.done, true, IDLE, []);
      started.(marks := started.marks + [Mark(name, started.work)])
    case Release(name) =>
      var at := Find(MarkNames(h.marks), name);
      if !h.inTransaction || at == None then h else h.(marks := h.marks[..at.value])
    case _ =>
      if h.inTransaction then h.(work := Also(h.work, Effect(pid, stmt)))
      else h.(done := Sum(h.done, Effect(pid, stmt)))
  }

  function HistoryOf(pid: int, stmts: seq<Statement>): History {
    if stmts == [] then History(IDLE, false, IDLE, [])
    else Next(HistoryOf(pid, stmts[..|stmts| - 1]), pid, stmts[|stmts| - 1])
  }

  // ---- over every run ----

  /** A session between transactions. */
  ghost predicate Settled(s: State) {
    !s.inTransaction && s.data == s.durable && s.ops == [] && s.queue == [] && s.saves == []
  }

  /** The state of a session that was `start`, after the history. */
  ghost predicate Leaves(start: State, h: History, s: State) {
    && s.inTransaction == h.inTransaction
    && s.durable == Written(start.durable, h.done.writes)
    && s.listens == ApplyOps(start.listens, h.done.ops)
    && Messages(s.published) == Messages(start.published) + Messages(h.done.raised)
    && Holds(s.durable, h.work, s.data, s.ops, s.queue)
    && SavesHold(s.durable, h.marks, s.saves)
    && (!h.inTransaction ==> h.work == IDLE && h.marks == [])
  }

  /** What the session sees and has staged is the work on top of durable data. */
  ghost predicate Holds(durable: Data, work: Work, data: Data, ops: seq<ListenOp>, queue: seq<Notification>) {
    data == Written(durable, work.writes) && ops == work.ops && queue == Dedup(work.raised)
  }

  ghost predicate SavesHold(durable: Data, marks: seq<Mark>, saves: seq<Save>) {
    && |marks| == |saves|
    && forall k :: 0 <= k < |marks| ==>
         saves[k].name == marks[k].name && Holds(durable, marks[k].work, saves[k].data, saves[k].ops, saves[k].queue)
  }

  lemma {:induction false} MessagesConcat(a: seq<Notification>, b: seq<Notification>)
    ensures Messages(a + b) == Messages(a) + Messages(b)
  {
    if b == [] {
      assert a + b == a && Messages(a) + [] == Messages(a);
    } else {
      var n := |b| - 1;
      MessagesConcat(a, b[..n]);
      assert (a + b)[..|a| + n] == a + b[..n] && (a + b)[|a| + n] == b[n];
      var message := if b[n].channel == "" then [] else [b[n].(lsn := 0)];
      MessagesGroup(Messages(a), Messages(b[..n]), message);
    }
  }

  lemma NothingDone(data: Data, listens: set<string>)
    ensures Written(data, []) == data && ApplyOps(listens, []) == listens && Dedup([]) == [] && Messages([]) == []
  {
  }

  /** Making work permanent. */
  lemma SumLeaves(start: State, done: Work, work: Work)
    ensures
      var sum := Sum(done, work);
      && Written(start.durable, sum.writes) == Written(Written(start.durable, done.writes), work.writes)
      && ApplyOps(start.listens, sum.ops) == ApplyOps(ApplyOps(start.listens, done.ops), work.ops)
      && Messages(sum.raised) == Messages(done.raised) + Messages(Dedup(work.raised))
  {
    WrittenConcat(start.durable, done.writes, work.writes);
    AppliedConcat(start.listens, done.ops, work.ops);
    MessagesConcat(done.raised, Dedup(work.raised));
  }

  lemma AlsoHolds(durable: Data, work: Work, data: Data, ops: seq<ListenOp>, queue: seq<Notification>, w: Work)
    requires Holds(durable, work, data, ops, queue)
    ensures |w.writes| <= 1 ==> Written(durable, Also(work, w).writes) == Written(data, w.writes)
    ensures w.raised == [] ==> Dedup(Also(work, w).raised) == queue
    ensures |w.raised| == 1 ==> Dedup(Also(work, w).raised) == Enqueue(queue, w.raised[0])
  {
    WrittenConcat(durable, work.writes, w.writes);
    if w.raised == [] {
      assert work.raised + [] == work.raised;
    } else if |w.raised| == 1 {
      assert w.raised == [w.raised[0]];
      assert (work.raised + w.raised)[..|work.raised|] == work.raised;
    }
  }

  lemma WorkStep(start: State, h: History, s: State, pid: int, stmt: Statement)
    requires Leaves(start, h, s) && s.inTransaction
    requires stmt.Subscription? || stmt.Notify? || stmt.Write? || stmt.Set? || stmt.SetLocal?
    ensures Leaves(start, Next(h, pid, stmt), Step(s, pid, stmt).0)
  {
    var w := Effect(pid, stmt);
    AlsoHolds(s.durable, h.work, s.data, s.ops, s.queue, w);
    NothingDone(s.data, s.listens);
    assert h.work.ops + [] == h.work.ops;
    if stmt.Write? {
      assert w.writes[..0] == [];
    }
  }

  /** Outside a transaction an effect is permanent at once. */
  lemma ImmediateStep(start: State, h: History, s: State, pid: int, stmt: Statement)
    requires Leaves(start, h, s) && !s.inTransaction
    requires stmt.Subscription? || stmt.Notify? || stmt.Write? || stmt.Set? || stmt.SetLocal?
    ensures Leaves(start, Next(h, pid, stmt), Step(s, pid, stmt).0)
  {
    NothingDone(s.durable, s.listens);
    ImmediateEffect(s, pid, stmt);
    EffectLeaves(start, h, s, Effect(pid, stmt), Step(s, pid, stmt).0);
  }

  lemma EffectLeaves(start: State, h: History, s: State, w: Work, t: State)
    requires Leaves(start, h, s) && !s.inTransaction && !t.inTransaction
    requires t.durable == t.data == Written(s.durable, w.writes) && t.listens == ApplyOps(s.listens, w.ops)
    requires Messages(t.published) == Messages(s.published) + Messages(Dedup(w.raised))
    requires t.ops == s.ops && t.queue == s.queue && t.saves == s.saves
    ensures Leaves(start, h.(done := Sum(h.done, w)), t)
  {
    SumLeaves(start, h.done, w);
    NothingDone(t.durable, t.listens);
    MessagesGroup(Messages(start.published), Messages(h.done.raised), Messages(Dedup(w.raised)));
  }

  lemma MessagesGroup<T>(a: seq<T>, b: seq<T>, c: seq<T>)
    ensures a + b + c == a + (b + c)
  {
  }

  lemma ImmediateEffect(s: State, pid: int, stmt: Statement)
    requires !s.inTransaction && s.data == s.durable
    requires stmt.Subscription? || stmt.Notify? || stmt.Write? || stmt.Set? || stmt.SetLocal?
    ensures
      var w, t := Effect(pid, stmt), Step(s, pid, stmt).0;
      && t.durable == t.data == Written(s.durable, w.writes) && t.listens == ApplyOps(s.listens, w.ops)
      && Messages(t.published) == Messages(s.published) + Messages(Dedup(w.raised))
      && t == s.(durable := t.durable, data := t.data, listens := t.listens, published := t.published,
                 lastLSN := t.lastLSN)
  {
    var w := Effect(pid, stmt);
    NothingDone(s.durable, s.listens);
    assert Messages(s.published) + [] == Messages(s.published);
    if stmt.Write? {
      assert w.writes[..0] == [];
    } else if stmt.Subscription? && w.ops != [] {
      assert w.ops[..0] == [];
    } else if stmt.Notify? && w.raised != [] {
      assert w.raised[..0] == [] && Dedup(w.raised) == w.raised;
      PublishAllMessages(s.published, s.lastLSN, w.raised, 0);
    }
  }

  lemma ControlStep(start: State, h: History, s: State, pid: int, stmt: Statement)
    requires Leaves(start, h, s)
    requires stmt.Begin? || stmt.Rollback? || stmt.RollbackTo? || stmt.Savepoint? || stmt.Release?
    ensures Leaves(start, Next(h, pid, stmt), Step(s, pid, stmt).0)
  {
    assert MarkNames(h.marks) == Names(s.saves);
    NothingDone(s.durable, s.listens);
  }

  lemma CommitStep(start: State, h: History, s: State, pid: int, lsn: Option<nat>)
    requires Leaves(start, h, s)
    ensures Leaves(start, Next(h, pid, Commit(lsn)), Step(s, pid, Commit(lsn)).0)
  {
    NothingDone(s.durable, s.listens);
    NothingDone(s.data, s.listens);
    if s.inTransaction && lsn.Some? {
      SumLeaves(start, h.done, h.work);
      PublishAllMessages(s.published, s.lastLSN, s.queue, lsn.value);
    }
  }

  /** Over every run of a session, from its statements alone: durable data is the first data overwritten by
      the writes of committed transactions that no ROLLBACK TO has undone, in order, and what the session
      sees is that overwritten by the surviving writes of the open transaction; likewise subscriptions, and
      the published messages, each once for a transaction that raised it more than once. */
  lemma {:induction false} RunLeaves(start: State, pid: int, stmts: seq<Statement>)
    requires Settled(start)
    ensures Leaves(start, HistoryOf(pid, stmts), Run(start, pid, stmts))
  {
    if stmts == [] {
      NothingDone(start.durable, start.listens);
      assert Messages(start.published) + [] == Messages(start.published);
    } else {
      var n := |stmts| - 1;
      var stmt := stmts[n];
      RunLeaves(start, pid, stmts[..n]);
      var h, s := HistoryOf(pid, stmts[..n]), Run(start, pid, stmts[..n]);
      if stmt.Commit? {
        CommitStep(start, h, s, pid, stmt.lsn);
      } else if stmt.Begin? || stmt.Rollback? || stmt.RollbackTo? || stmt.Savepoint? || stmt.Release? {
        ControlStep(start, h, s, pid, stmt);
      } else if s.inTransaction {
        WorkStep(start, h, s, pid, stmt);
      } else {
        ImmediateStep(start, h, s, pid, stmt);
      }
    }
  }

  /** In particular a successful COMMIT keeps exactly the surviving writes of its transaction. */
  lemma CommitKeepsSurvivors(start: State, pid: int, stmts: seq<Statement>, lsn: nat)
    requires Settled(start) && Run(start, pid, stmts).inTransaction
    ensures
      var before, after := Run(start, pid, stmts), Step(Run(start, pid, stmts), pid, Commit(Some(lsn))).0;
      after.durable == after.data == Written(before.durable, HistoryOf(pid, stmts).work.writes)
  {
    RunLeaves(start, pid, stmts);
    RunLeaves(start, pid, stmts + [Commit(Some(lsn))]);
    assert (stmts + [Commit(Some(lsn))])[..|stmts|] == stmts;
    SumLeaves(start, HistoryOf(pid, stmts).done, HistoryOf(pid, stmts).work);
    NothingDone(Run(start, pid, stmts + [Commit(Some(lsn))]).durable, {});
  }

  // ---- outcomes ----

  /** A savepoint is found by its name, the last of that name. */
  lemma {:induction false} FindMeans(names: seq<string>, name: string, k: nat)
    ensures Find(names, name) == Some(k) <==>
      k < |names| && names[k] == name && forall j :: k < j < |names| ==> names[j] != name
    ensures Find(names, name) == None <==> name !in names
  {
    if names != [] && names[|names| - 1] != name {
      var n := |names| - 1;
      FindMeans(names[..n], name, k);
      assert names == names[..n] + [names[n]];
    }
  }

  /** Which statements succeed. */
  predicate Succeeds(s: State, stmt: Statement) {
    match stmt
    case Begin => !s.inTransaction
    case Commit(lsn) => s.inTransaction && lsn.Some?
    case Rollback => s.inTransaction
    case RollbackTo(name) => s.inTransaction && exists save <- s.saves :: save.name == name
    case Release(name) => s.inTransaction && exists save <- s.saves :: save.name == name
    case Subscription(op) => op == UnlistenAll || op.channel != ""
    case Notify(_, payload) => |payload| <= 8000
    case _ => true
  }

  lemma StepSucceedsIff(s: State, pid: int, stmt: Statement)
    ensures Step(s, pid, stmt).1 <==> Succeeds(s, stmt)
  {
    if stmt.RollbackTo? || stmt.Release? {
      FindMeans(Names(s.saves), stmt.name, 0);
      if save :| save in s.saves && save.name == stmt.name {
        var k :| 0 <= k < |s.saves| && s.saves[k] == save;
        assert Names(s.saves)[k] == stmt.name;
      }
      if stmt.name in Names(s.saves) {
        var k :| 0 <= k < |s.saves| && Names(s.saves)[k] == stmt.name;
        assert s.saves[k] in s.saves;
      }
    }
  }
}
