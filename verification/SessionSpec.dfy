/** What a session's transaction statements mean: a savepoint keeps full copies of everything
    a ROLLBACK TO brings back. */
module SessionSpec {
  import opened Values

  datatype Notification = Notification(pid: int, channel: string, payload: string, lsn: nat)

  datatype ListenOp = Listen(channel: string) | Unlisten(channel: string) | UnlistenAll

  datatype Statement =
    | Begin
    | Commit(lsn: Option<nat>)
    | Rollback
    | RollbackTo(name: string)
    | Savepoint(name: string)
    | Release(name: string)
    | Subscription(op: ListenOp)
    | Notify(channel: string, payload: string)
    | Write(key: string, value: string)
    | Set(path: seq<string>)
    | SetLocal(path: seq<string>)

  type Data = map<string, string>

  datatype Save = Save(name: string, data: Data, ops: seq<ListenOp>, queue: seq<Notification>)

  /** `durable` is what a COMMIT has written, `data` what the session sees; `published` is the
      hub's log of notifications and `lastLSN` its cursor. */
  datatype State = State(
    inTransaction: bool,
    durable: Data,
    data: Data,
    ops: seq<ListenOp>,
    queue: seq<Notification>,
    saves: seq<Save>,
    listens: set<string>,
    published: seq<Notification>,
    lastLSN: nat)

  const MAX_PAYLOAD := 8000

  predicate SameMessage(m: Notification, n: Notification) {
    m.channel == n.channel && m.payload == n.payload
  }

  predicate Queued(queue: seq<Notification>, n: Notification) {
    exists k :: 0 <= k < |queue| && SameMessage(queue[k], n)
  }

  function Enqueue(queue: seq<Notification>, n: Notification): seq<Notification> {
    if Queued(queue, n) then queue else queue + [n]
  }

  function ApplyOp(listens: set<string>, op: ListenOp): set<string> {
    match op
    case Listen(c) => listens + {c}
    case Unlisten(c) => listens - {c}
    case UnlistenAll => {}
  }

  function ApplyOps(listens: set<string>, ops: seq<ListenOp>): set<string> {
    if ops == [] then listens else ApplyOp(ApplyOps(listens, ops[..|ops| - 1]), ops[|ops| - 1])
  }

  /** Hub.Publish: a monotonic cursor stamps every notification; the empty channel is dropped. */
  function PublishOne(log: seq<Notification>, last: nat, n: Notification): (seq<Notification>, nat) {
    if n.channel == "" then (log, last)
    else
      var lsn := if n.lsn > last + 1 then n.lsn else last + 1;
      (log + [n.(lsn := lsn)], lsn)
  }

  function PublishAll(log: seq<Notification>, last: nat, queue: seq<Notification>, lsn: nat): (seq<Notification>, nat) {
    if queue == [] then (log, last)
    else
      var k := |queue| - 1;
      var (l, c) := PublishAll(log, last, queue[..k], lsn);
      PublishOne(l, c, queue[k].(lsn := lsn))
  }

  /** The last savepoint of that name. */
  function Find(names: seq<string>, name: string): Option<nat>
    ensures Find(names, name).Some? ==> Find(names, name).value < |names|
  {
    if names == [] then None
    else if names[|names| - 1] == name then Some(|names| - 1)
    else Find(names[..|names| - 1], name)
  }

  function Names(saves: seq<Save>): seq<string> {
    seq(|saves|, k requires 0 <= k < |saves| => saves[k].name)
  }

  function Ended(s: State): State {
    s.(inTransaction := false, ops := [], queue := [], saves := [])
  }

  predicate OpAllowed(op: ListenOp) {
    op == UnlistenAll || op.channel != ""
  }

  /** One statement: the new state, and whether it succeeded. A failed statement changes
      nothing, except that a failed COMMIT ends the transaction as a rollback. */
  function Step(s: State, pid: int, stmt: Statement): (State, bool) {
    match stmt
    case Begin =>
      if s.inTransaction then (s, false)
      else (s.(inTransaction := true, ops := [], queue := [], saves := []), true)
    case Commit(lsn) =>
      if !s.inTransaction then (s, false)
      else if lsn == None then (Ended(s).(data := s.durable), false)
      else
        var (log, last) := PublishAll(s.published, s.lastLSN, s.queue, lsn.value);
        (Ended(s).(durable := s.data, listens := ApplyOps(s.listens, s.ops), published := log, lastLSN := last), true)
    case Rollback =>
      if !s.inTransaction then (s, false) else (Ended(s).(data := s.durable), true)
    case RollbackTo(name) =>
      var at := Find(Names(s.saves), name);
      if !s.inTransaction || at == None then (s, false)
      else
        var save := s.saves[at.value];
        (s.(data := save.data, ops := save.ops, queue := save.queue, saves := s.saves[..at.value + 1]), true)
    case Savepoint(name) =>
      var t := if s.inTransaction then s else s.(inTransaction := true, ops := [], queue := [], saves := []);
      (t.(saves := t.saves + [Save(name, t.data, t.ops, t.queue)]), true)
    case Release(name) =>
      var at := Find(Names(s.saves), name);
      if !s.inTransaction || at == None then (s, false) else (s.(saves := s.saves[..at.value]), true)
    case Subscription(op) =>
      if !OpAllowed(op) then (s, false)
      else if s.inTransaction then (s.(ops := s.ops + [op]), true)
      else (s.(listens := ApplyOp(s.listens, op)), true)
    case Notify(channel, payload) =>
      var n := Notification(pid, channel, payload, 0);
      if |payload| > MAX_PAYLOAD then (s, false)
      else if s.inTransaction then (s.(queue := Enqueue(s.queue, n)), true)
      else
        var (log, last) := PublishOne(s.published, s.lastLSN, n);
        (s.(published := log, lastLSN := last), true)
    case Write(key, value) =>
      if s.inTransaction then (s.(data := s.data[key := value]), true)
      else (s.(durable := s.durable[key := value], data := s.data[key := value]), true)
    case Set(_) => (s, true)
    case SetLocal(_) => (s, true)
  }

  function Run(s: State, pid: int, stmts: seq<Statement>): State {
    if stmts == [] then s
    else Step(Run(s, pid, stmts[..|stmts| - 1]), pid, stmts[|stmts| - 1]).0
  }

  // ---- the search path: SET and SET LOCAL ----

  datatype PathSave = PathSave(name: string, local: seq<string>)

  /** `transaction` is the session path BEGIN recorded; a transaction that SAVEPOINT opened
      implicitly records none. */
  datatype PathState = PathState(
    inTransaction: bool,
    session: seq<string>,
    local: seq<string>,
    transaction: Option<seq<string>>,
    saves: seq<PathSave>)

  function PathNames(saves: seq<PathSave>): seq<string> {
    seq(|saves|, k requires 0 <= k < |saves| => saves[k].name)
  }

  function PathRolledBack(p: PathState): PathState {
    PathState(false, if p.transaction.Some? then p.transaction.value else p.session, [], None, [])
  }

  function PathStep(p: PathState, stmt: Statement): PathState {
    match stmt
    case Begin => if p.inTransaction then p else PathState(true, p.session, [], Some(p.session), [])
    case Commit(lsn) =>
      if !p.inTransaction then p
      else if lsn == None then PathRolledBack(p)
      else PathState(false, p.session, [], None, [])
    case Rollback => if p.inTransaction then PathRolledBack(p) else p
    case RollbackTo(name) =>
      var at := Find(PathNames(p.saves), name);
      if !p.inTransaction || at == None then p
      else p.(local := p.saves[at.value].local, saves := p.saves[..at.value + 1])
    case Savepoint(name) =>
      var q := if p.inTransaction then p else p.(inTransaction := true, saves := []);
      q.(saves := q.saves + [PathSave(name, q.local)])
    case Release(name) =>
      var at := Find(PathNames(p.saves), name);
      if !p.inTransaction || at == None then p else p.(saves := p.saves[..at.value])
    case Set(path) => p.(session := path, local := [])
    case SetLocal(path) => if p.inTransaction then p.(local := path) else p
    case _ => p
  }

  // ---- what survives a transaction ----

  /** First occurrences, in order. */
  function Dedup(raised: seq<Notification>): seq<Notification> {
    if raised == [] then [] else Enqueue(Dedup(raised[..|raised| - 1]), raised[|raised| - 1])
  }

  datatype RawSave = RawSave(name: string, raised: seq<Notification>)

  /** Every NOTIFY of the open transaction that no ROLLBACK TO has undone, duplicates included. */
  datatype Raw = Raw(inTransaction: bool, raised: seq<Notification>, saves: seq<RawSave>)

  function RawNames(saves: seq<RawSave>): seq<string> {
    seq(|saves|, k requires 0 <= k < |saves| => saves[k].name)
  }

  function RawStep(r: Raw, pid: int, stmt: Statement): Raw {
    match stmt
    case Begin => if r.inTransaction then r else Raw(true, [], [])
    case Commit(_) => if r.inTransaction then Raw(false, [], []) else r
    case Rollback => if r.inTransaction then Raw(false, [], []) else r
    case RollbackTo(name) =>
      var at := Find(RawNames(r.saves), name);
      if !r.inTransaction || at == None then r
      else r.(raised := r.saves[at.value].raised, saves := r.saves[..at.value + 1])
    case Savepoint(name) =>
      var q := if r.inTransaction then r else Raw(true, [], []);
      q.(saves := q.saves + [RawSave(name, q.raised)])
    case Release(name) =>
      var at := Find(RawNames(r.saves), name);
      if !r.inTransaction || at == None then r else r.(saves := r.saves[..at.value])
    case Notify(channel, payload) =>
      if r.inTransaction && |payload| <= MAX_PAYLOAD then
        r.(raised := r.raised + [Notification(pid, channel, payload, 0)])
      else r
    case _ => r
  }

  function RawRun(r: Raw, pid: int, stmts: seq<Statement>): Raw {
    if stmts == [] then r
    else RawStep(RawRun(r, pid, stmts[..|stmts| - 1]), pid, stmts[|stmts| - 1])
  }

  ghost predicate Tracks(s: State, r: Raw) {
    && s.inTransaction == r.inTransaction
    && s.queue == Dedup(r.raised)
    && |s.saves| == |r.saves|
    && (forall k :: 0 <= k < |s.saves| ==>
      s.saves[k].name == r.saves[k].name && s.saves[k].queue == Dedup(r.saves[k].raised))
  }

  lemma TracksStep(s: State, r: Raw, pid: int, stmt: Statement)
    requires Tracks(s, r)
    ensures Tracks(Step(s, pid, stmt).0, RawStep(r, pid, stmt))
  {
    assert Names(s.saves) == RawNames(r.saves);
    match stmt
    case Notify(channel, payload) =>
      var n := Notification(pid, channel, payload, 0);
      assert (r.raised + [n])[..|r.raised|] == r.raised;
    case _ =>
  }

  lemma {:induction false} TracksRun(s: State, r: Raw, pid: int, stmts: seq<Statement>)
    requires Tracks(s, r)
    ensures Tracks(Run(s, pid, stmts), RawRun(r, pid, stmts))
  {
    if stmts != [] {
      var k := |stmts| - 1;
      TracksRun(s, r, pid, stmts[..k]);
      TracksStep(Run(s, pid, stmts[..k]), RawRun(r, pid, stmts[..k]), pid, stmts[k]);
    }
  }

  /** The messages of a log, without cursor values. */
  function Messages(log: seq<Notification>): seq<Notification> {
    if log == [] then []
    else
      var k := |log| - 1;
      Messages(log[..k]) + (if log[k].channel == "" then [] else [log[k].(lsn := 0)])
  }

  lemma {:induction false} PublishAllMessages(log: seq<Notification>, last: nat, queue: seq<Notification>, lsn: nat)
    ensures Messages(PublishAll(log, last, queue, lsn).0) == Messages(log) + Messages(queue)
    ensures PublishAll(log, last, queue, lsn).1 >= last
  {
    if queue == [] {
      assert Messages(log) + [] == Messages(log);
    } else {
      var k := |queue| - 1;
      PublishAllMessages(log, last, queue[..k], lsn);
      var (l, c) := PublishAll(log, last, queue[..k], lsn);
      var (l', c') := PublishOne(l, c, queue[k].(lsn := lsn));
      if queue[k].channel != "" {
        assert l'[..|l|] == l;
        assert l'[|l|].(lsn := 0) == queue[k].(lsn := 0);
      }
    }
  }

  /** Over any run, COMMIT publishes exactly the surviving notifications of the transaction:
      the first occurrence of each message, in the order they were raised. */
  lemma CommitPublishesSurvivors(s: State, r: Raw, pid: int, stmts: seq<Statement>, lsn: nat)
    requires Tracks(s, r)
    requires Run(s, pid, stmts).inTransaction
    ensures
      var before := Run(s, pid, stmts);
      var after := Step(before, pid, Commit(Some(lsn))).0;
      Messages(after.published) == Messages(before.published) + Messages(Dedup(RawRun(r, pid, stmts).raised))
  {
    TracksRun(s, r, pid, stmts);
    var before := Run(s, pid, stmts);
    PublishAllMessages(before.published, before.lastLSN, before.queue, lsn);
  }

  /** Deduplication keeps no message twice, loses none and invents none. */
  lemma {:induction false} DedupMeaning(raised: seq<Notification>)
    ensures forall i, j :: 0 <= i < j < |Dedup(raised)| ==> !SameMessage(Dedup(raised)[i], Dedup(raised)[j])
    ensures forall n :: Queued(raised, n) <==> Queued(Dedup(raised), n)
    ensures forall n <- Dedup(raised) :: n in raised
  {
    if raised != [] {
      var k := |raised| - 1;
      var front, last := raised[..k], raised[k];
      DedupMeaning(front);
      var d := Dedup(front);
      assert raised == front + [last];
      forall n
        ensures Queued(raised, n) <==> Queued(Dedup(raised), n)
      {
        QueuedAppend(front, last, n);
        QueuedAppend(d, last, n);
        if Queued(d, last) && SameMessage(last, n) {
          var j :| 0 <= j < |d| && SameMessage(d[j], last);
          assert SameMessage(d[j], n);
        }
      }
    }
  }

  /** Position `k` holds a message not raised before. */
  ghost predicate FirstAt(raised: seq<Notification>, k: int) {
    0 <= k < |raised| && !Queued(raised[..k], raised[k])
  }

  /** `at` lists the positions of the first occurrences in increasing order. */
  ghost predicate ListsFirsts(raised: seq<Notification>, at: seq<nat>) {
    && (forall i, j :: 0 <= i < j < |at| ==> at[i] < at[j])
    && forall k: int :: k in at <==> FirstAt(raised, k)
  }

  ghost predicate Selects(raised: seq<Notification>, at: seq<nat>, chosen: seq<Notification>) {
    |at| == |chosen| && forall i :: 0 <= i < |at| ==> at[i] < |raised| && chosen[i] == raised[at[i]]
  }

  lemma ListsFirstsNext(front: seq<Notification>, last: Notification, at: seq<nat>)
    requires ListsFirsts(front, at)
    ensures ListsFirsts(front + [last], if Queued(front, last) then at else at + [|front|])
  {
    var raised := front + [last];
    assert raised[..|front|] == front;
    forall k | 0 <= k < |front|
      ensures FirstAt(raised, k) <==> FirstAt(front, k)
    {
      assert raised[..k] == front[..k];
    }
    forall i | 0 <= i < |at|
      ensures at[i] < |front|
    {
      assert at[i] in at;
    }
  }

  /** Deduplication keeps the order: its result is what stands at the positions of the first
      occurrences, taken in increasing order. */
  lemma {:induction false} DedupKeepsFirsts(raised: seq<Notification>) returns (at: seq<nat>)
    ensures ListsFirsts(raised, at) && Selects(raised, at, Dedup(raised))
  {
    at := [];
    if raised != [] {
      var n := |raised| - 1;
      var front, last := raised[..n], raised[n];
      at := DedupKeepsFirsts(front);
      DedupMeaning(front);
      ListsFirstsNext(front, last, at);
      assert front + [last] == raised;
      at := if Queued(front, last) then at else at + [n];
    }
  }

  lemma QueuedAppend(queue: seq<Notification>, last: Notification, n: Notification)
    ensures Queued(queue + [last], n) <==> Queued(queue, n) || SameMessage(last, n)
  {
    if Queued(queue, n) {
      var j :| 0 <= j < |queue| && SameMessage(queue[j], n);
      assert SameMessage((queue + [last])[j], n);
    }
    if SameMessage(last, n) {
      assert SameMessage((queue + [last])[|queue|], n);
    }
  }

  /** Deduplicating a shorter run gives a prefix: that is why a saved length is enough. */
  lemma {:induction false} DedupPrefix(raised: seq<Notification>, k: nat)
    requires k <= |raised|
    ensures Dedup(raised[..k]) <= Dedup(raised)
  {
    if k == |raised| {
      assert raised[..k] == raised;
    } else {
      var n := |raised| - 1;
      DedupPrefix(raised[..n], k);
      assert raised[..n][..k] == raised[..k];
    }
  }

  // ---- isolation and undo ----

  predicate Ends(stmt: Statement) {
    stmt.Commit? || stmt == Rollback
  }

  /** Inside a transaction nothing but COMMIT touches durable data, subscriptions or the log. */
  lemma OnlyCommitIsVisible(s: State, pid: int, stmt: Statement)
    requires s.inTransaction && !(stmt.Commit? && stmt.lsn.Some?)
    ensures
      var t := Step(s, pid, stmt).0;
      t.durable == s.durable && t.listens == s.listens && t.published == s.published && t.lastLSN == s.lastLSN
    ensures Step(s, pid, stmt).0.inTransaction <==> !Ends(stmt)
  {
  }

  lemma {:induction false} OpenTransaction(s: State, pid: int, stmts: seq<Statement>)
    requires s.inTransaction && forall k :: 0 <= k < |stmts| ==> !Ends(stmts[k])
    ensures
      var t := Run(s, pid, stmts);
      && t.inTransaction
      && t.durable == s.durable && t.listens == s.listens && t.published == s.published && t.lastLSN == s.lastLSN
  {
    if stmts != [] {
      var k := |stmts| - 1;
      OpenTransaction(s, pid, stmts[..k]);
      OnlyCommitIsVisible(Run(s, pid, stmts[..k]), pid, stmts[k]);
    }
  }

  /** ROLLBACK takes back a whole transaction: the session is as it was before BEGIN. */
  lemma RollbackRestores(s: State, pid: int, stmts: seq<Statement>)
    requires !s.inTransaction && s.data == s.durable && s.ops == [] && s.queue == [] && s.saves == []
    requires forall k :: 0 <= k < |stmts| ==> !Ends(stmts[k])
    ensures Step(Run(Step(s, pid, Begin).0, pid, stmts), pid, Rollback).0 == s
  {
    OpenTransaction(Step(s, pid, Begin).0, pid, stmts);
  }

  /** The statement leaves the first `depth` savepoints alone. */
  predicate KeepsSaves(s: State, depth: nat, stmt: Statement) {
    match stmt
    case RollbackTo(name) => var at := Find(Names(s.saves), name); at.Some? ==> at.value + 1 >= depth
    case Release(name) => var at := Find(Names(s.saves), name); at.Some? ==> at.value >= depth
    case _ => !Ends(stmt)
  }

  ghost predicate KeepsSavesThroughout(s: State, pid: int, depth: nat, stmts: seq<Statement>) {
    forall k :: 0 <= k < |stmts| ==> KeepsSaves(Run(s, pid, stmts[..k]), depth, stmts[k])
  }

  lemma {:induction false} SavesKept(s: State, pid: int, depth: nat, stmts: seq<Statement>)
    requires s.inTransaction && depth <= |s.saves|
    requires KeepsSavesThroughout(s, pid, depth, stmts)
    ensures Run(s, pid, stmts).inTransaction
    ensures s.saves[..depth] <= Run(s, pid, stmts).saves
  {
    if stmts != [] {
      var k := |stmts| - 1;
      forall j | 0 <= j < k
        ensures KeepsSaves(Run(s, pid, stmts[..k][..j]), depth, stmts[..k][j])
      {
        assert stmts[..k][..j] == stmts[..j];
      }
      SavesKept(s, pid, depth, stmts[..k]);
      assert KeepsSaves(Run(s, pid, stmts[..k]), depth, stmts[k]);
    }
  }

  /** ROLLBACK TO brings back the data, staged subscriptions and staged notifications of the
      moment its savepoint was made, whatever ran since. */
  lemma RollbackToRestores(s: State, pid: int, name: string, stmts: seq<Statement>)
    requires s.inTransaction
    requires
      var marked := Step(s, pid, Savepoint(name)).0;
      && KeepsSavesThroughout(marked, pid, |marked.saves|, stmts)
      && Find(Names(Run(marked, pid, stmts).saves), name) == Some(|s.saves|)
    ensures
      var back := Step(Run(Step(s, pid, Savepoint(name)).0, pid, stmts), pid, RollbackTo(name)).0;
      back.data == s.data && back.ops == s.ops && back.queue == s.queue && back == Step(s, pid, Savepoint(name)).0
  {
    var marked := Step(s, pid, Savepoint(name)).0;
    SavesKept(marked, pid, |marked.saves|, stmts);
    OpenTransactionKept(marked, pid, |marked.saves|, stmts);
    var now := Run(marked, pid, stmts);
    assert marked.saves[..|marked.saves|] == marked.saves;
    BackAt(s, pid, name, marked, now);
  }

  lemma BackAt(s: State, pid: int, name: string, marked: State, now: State)
    requires s.inTransaction && marked == Step(s, pid, Savepoint(name)).0
    requires now.inTransaction && marked.saves <= now.saves && Find(Names(now.saves), name) == Some(|s.saves|)
    requires now.durable == s.durable && now.listens == s.listens && now.published == s.published
      && now.lastLSN == s.lastLSN
    ensures Step(now, pid, RollbackTo(name)).0 == marked
  {
    assert now.saves[..|s.saves| + 1] == marked.saves;
    assert now.saves[|s.saves|] == Save(name, s.data, s.ops, s.queue);
  }

  lemma OpenTransactionKept(s: State, pid: int, depth: nat, stmts: seq<Statement>)
    requires s.inTransaction && KeepsSavesThroughout(s, pid, depth, stmts)
    ensures
      var t := Run(s, pid, stmts);
      t.durable == s.durable && t.listens == s.listens && t.published == s.published && t.lastLSN == s.lastLSN
  {
    forall k | 0 <= k < |stmts|
      ensures !Ends(stmts[k])
    {
      assert KeepsSaves(Run(s, pid, stmts[..k]), depth, stmts[k]);
    }
    OpenTransaction(s, pid, stmts);
  }

  // ---- the hub's cursor ----

  ghost predicate Stamped(log: seq<Notification>, last: nat) {
    && (forall i, j :: 0 <= i < j < |log| ==> log[i].lsn < log[j].lsn)
    && (forall i :: 0 <= i < |log| ==> log[i].lsn <= last)
  }

  lemma {:induction false} PublishAllStamped(log: seq<Notification>, last: nat, queue: seq<Notification>, lsn: nat)
    requires Stamped(log, last)
    ensures Stamped(PublishAll(log, last, queue, lsn).0, PublishAll(log, last, queue, lsn).1)
  {
    if queue != [] {
      PublishAllStamped(log, last, queue[..|queue| - 1], lsn);
    }
  }

  /** A committed or immediate publication is the only thing that touches the hub's log. */
  lemma StepStamped(s: State, pid: int, stmt: Statement)
    requires Stamped(s.published, s.lastLSN)
    ensures Stamped(Step(s, pid, stmt).0.published, Step(s, pid, stmt).0.lastLSN)
  {
    if stmt.Commit? && stmt.lsn.Some? {
      PublishAllStamped(s.published, s.lastLSN, s.queue, stmt.lsn.value);
    }
  }

  /** Over any run the published notifications carry strictly increasing cursor values. */
  lemma {:induction false} RunStamped(s: State, pid: int, stmts: seq<Statement>)
    requires Stamped(s.published, s.lastLSN)
    ensures Stamped(Run(s, pid, stmts).published, Run(s, pid, stmts).lastLSN)
  {
    if stmts != [] {
      var k := |stmts| - 1;
      RunStamped(s, pid, stmts[..k]);
      StepStamped(Run(s, pid, stmts[..k]), pid, stmts[k]);
    }
  }
}
