/** The executor's transaction fields as they are updated in place. At a savepoint only the
    lengths of the staged lists are kept; `Model` shows the full copies they stand for. */
module Session {
  import opened Values
  import opened SessionSpec
  import opened SessionPaths
  import opened SessionSurvivors

  /** The per-database notification registry, as far as this session uses it. */
  class Hub {
    var channels: map<string, set<int>>
    var log: seq<Notification>
    var lastLSN: nat

    constructor ()
      ensures channels == map[] && log == [] && lastLSN == 0
    {
      channels, log, lastLSN := map[], [], 0;
    }

    ghost function SubscribedTo(subscriber: int): set<string>
      reads this
    {
      set c | c in channels && subscriber in channels[c]
    }

    method Subscribe(subscriber: int, channel: string)
      modifies this
      ensures log == old(log) && lastLSN == old(lastLSN)
      ensures SubscribedTo(subscriber) == old(SubscribedTo(subscriber)) + (if channel == "" then {} else {channel})
      ensures forall s | s != subscriber :: SubscribedTo(s) == old(SubscribedTo(s))
    {
      if channel == "" {
        return;
      }
      var subs := if channel in channels then channels[channel] else {};
      channels := channels[channel := subs + {subscriber}];
    }

    method Unsubscribe(subscriber: int, channel: string)
      modifies this
      ensures log == old(log) && lastLSN == old(lastLSN)
      ensures SubscribedTo(subscriber) == old(SubscribedTo(subscriber)) - {channel}
      ensures forall s | s != subscriber :: SubscribedTo(s) == old(SubscribedTo(s))
    {
      if channel !in channels {
        return;
      }
      var subs := channels[channel] - {subscriber};
      assert forall s | s != subscriber && s in channels[channel] :: s in subs;
      if subs == {} {
        channels := channels - {channel};
      } else {
        channels := channels[channel := subs];
      }
    }

    method Publish(n: Notification)
      modifies this
      ensures channels == old(channels)
      ensures (log, lastLSN) == PublishOne(old(log), old(lastLSN), n)
    {
      if n.channel == "" {
        return;
      }
      var next := lastLSN + 1;
      if n.lsn > next {
        next := n.lsn;
      }
      lastLSN := next;
      log := log + [n.(lsn := next)];
    }
  }

  datatype Snapshot = Snapshot(listenOps: nat, notifyQueue: nat)

  ghost predicate Bounded(snaps: seq<Snapshot>, ops: seq<ListenOp>, queue: seq<Notification>) {
    forall i :: 0 <= i < |snaps| ==> snaps[i].listenOps <= |ops| && snaps[i].notifyQueue <= |queue|
  }

  ghost predicate Nondecreasing(snaps: seq<Snapshot>) {
    forall i, j :: 0 <= i < j < |snaps| ==>
      snaps[i].listenOps <= snaps[j].listenOps && snaps[i].notifyQueue <= snaps[j].notifyQueue
  }

  /** The full copies that saved lengths stand for. */
  ghost function Copies(names: seq<string>, states: seq<Data>, snaps: seq<Snapshot>, ops: seq<ListenOp>,
      queue: seq<Notification>): (copies: seq<Save>)
    requires |names| == |states| == |snaps| && Bounded(snaps, ops, queue)
    ensures |copies| == |names|
  {
    seq(|names|, i requires 0 <= i < |names| =>
      Save(names[i], states[i], ops[..snaps[i].listenOps], queue[..snaps[i].notifyQueue]))
  }

  /** Appending to the staged lists changes no copy. */
  lemma CopiesGrow(names: seq<string>, states: seq<Data>, snaps: seq<Snapshot>, ops: seq<ListenOp>,
      queue: seq<Notification>, ops': seq<ListenOp>, queue': seq<Notification>)
    requires |names| == |states| == |snaps| && Bounded(snaps, ops, queue)
    requires ops <= ops' && queue <= queue'
    ensures Bounded(snaps, ops', queue')
    ensures Copies(names, states, snaps, ops', queue') == Copies(names, states, snaps, ops, queue)
  {
    forall i | 0 <= i < |names|
      ensures ops'[..snaps[i].listenOps] == ops[..snaps[i].listenOps]
      ensures queue'[..snaps[i].notifyQueue] == queue[..snaps[i].notifyQueue]
    {
    }
  }

  lemma CopiesPush(names: seq<string>, states: seq<Data>, snaps: seq<Snapshot>, ops: seq<ListenOp>,
      queue: seq<Notification>, name: string, data: Data)
    requires |names| == |states| == |snaps| && Bounded(snaps, ops, queue)
    ensures
      var snaps' := snaps + [Snapshot(|ops|, |queue|)];
      && Bounded(snaps', ops, queue)
      && Copies(names + [name], states + [data], snaps', ops, queue) ==
        Copies(names, states, snaps, ops, queue) + [Save(name, data, ops, queue)]
  {
    assert ops[..|ops|] == ops && queue[..|queue|] == queue;
  }

  lemma CopiesTake(names: seq<string>, states: seq<Data>, snaps: seq<Snapshot>, ops: seq<ListenOp>,
      queue: seq<Notification>, n: nat)
    requires |names| == |states| == |snaps| && Bounded(snaps, ops, queue) && n <= |names|
    ensures Bounded(snaps[..n], ops, queue)
    ensures Copies(names[..n], states[..n], snaps[..n], ops, queue) == Copies(names, states, snaps, ops, queue)[..n]
  {
  }

  /** Truncating to the lengths of savepoint `at` leaves the copies up to `at` as they were. */
  lemma CopiesCut(names: seq<string>, states: seq<Data>, snaps: seq<Snapshot>, ops: seq<ListenOp>,
      queue: seq<Notification>, at: nat)
    requires |names| == |states| == |snaps| && Bounded(snaps, ops, queue) && Nondecreasing(snaps) && at < |names|
    ensures
      var ops', queue' := ops[..snaps[at].listenOps], queue[..snaps[at].notifyQueue];
      && Bounded(snaps[..at + 1], ops', queue')
      && Copies(names[..at + 1], states[..at + 1], snaps[..at + 1], ops', queue') ==
        Copies(names, states, snaps, ops, queue)[..at + 1]
  {
    var ops', queue' := ops[..snaps[at].listenOps], queue[..snaps[at].notifyQueue];
    forall i | 0 <= i <= at
      ensures snaps[i].listenOps <= |ops'| && snaps[i].notifyQueue <= |queue'|
      ensures ops'[..snaps[i].listenOps] == ops[..snaps[i].listenOps]
      ensures queue'[..snaps[i].notifyQueue] == queue[..snaps[i].notifyQueue]
    {
    }
  }

  lemma CopiedNames(names: seq<string>, states: seq<Data>, snaps: seq<Snapshot>, ops: seq<ListenOp>,
      queue: seq<Notification>)
    requires |names| == |states| == |snaps| && Bounded(snaps, ops, queue)
    ensures Names(Copies(names, states, snaps, ops, queue)) == names
  {
  }

  class Executor {
    const pid: int
    const hub: Hub
    var inTransaction: bool
    var durable: Data
    var data: Data
    var savepoints: seq<string>
    var savepointStates: seq<Data>
    var notificationSaves: seq<Snapshot>
    var localSearchPathSaves: seq<seq<string>>
    var listenOps: seq<ListenOp>
    var notifyQueue: seq<Notification>
    var listens: set<string>
    var searchPath: seq<string>
    var localSearchPath: seq<string>
    var txSearchPath: Option<seq<string>>

    /** Savepoint lists stay aligned, saved lengths are nondecreasing and within bounds, and the
        hub's view of this session is the session's own. */
    ghost predicate Valid()
      reads this, hub
    {
      && |savepoints| == |savepointStates| == |notificationSaves|
      && Bounded(notificationSaves, listenOps, notifyQueue)
      && Nondecreasing(notificationSaves)
      && (!inTransaction ==>
        savepoints == [] && listenOps == [] && notifyQueue == [] && txSearchPath == None && localSearchPath == [])
      && (forall op <- listenOps :: OpAllowed(op))
      && listens == hub.SubscribedTo(pid)
    }

    /** The state with full copies at every savepoint. */
    ghost function Model(): State
      requires Valid()
      reads this, hub
    {
      State(inTransaction, durable, data, listenOps, notifyQueue,
        Copies(savepoints, savepointStates, notificationSaves, listenOps, notifyQueue),
        listens, hub.log, hub.lastLSN)
    }

    /** The saved search paths belong to the open savepoints. */
    ghost predicate Aligned()
      reads this
    {
      |localSearchPathSaves| == |savepoints|
    }

    ghost function PathModel(): PathState
      requires Aligned()
      reads this
    {
      PathState(inTransaction, searchPath, localSearchPath, txSearchPath,
        PathCopies(savepoints, localSearchPathSaves))
    }

    /** The search path as the fields hold it, whether or not the saves belong to the savepoints. */
    function Fields(): PathFields
      reads this
    {
      PathFields(inTransaction, savepoints, searchPath, localSearchPath, txSearchPath, localSearchPathSaves)
    }

    constructor (pid: int, hub: Hub)
      requires hub.SubscribedTo(pid) == {}
      ensures this.pid == pid && this.hub == hub
      ensures Valid() && Aligned()
      ensures !inTransaction && listens == {}
      ensures Fields() == PathFields(false, [], ["public"], [], None, [])
    {
      this.pid, this.hub := pid, hub;
      inTransaction := false;
      durable, data := map[], map[];
      savepoints, savepointStates, notificationSaves, localSearchPathSaves := [], [], [], [];
      listenOps, notifyQueue, listens := [], [], {};
      searchPath, localSearchPath, txSearchPath := ["public"], [], None;
    }

    method ClearNotificationState()
      modifies this`listenOps, this`notifyQueue, this`notificationSaves
      ensures listenOps == [] && notifyQueue == [] && notificationSaves == []
    {
      listenOps, notifyQueue, notificationSaves := [], [], [];
    }

    method RollbackSettingScope()
      modifies this`searchPath, this`localSearchPath, this`txSearchPath
      ensures searchPath == if old(txSearchPath).Some? then old(txSearchPath).value else old(searchPath)
      ensures localSearchPath == [] && txSearchPath == None
    {
      if txSearchPath.Some? {
        searchPath := txSearchPath.value;
      }
      localSearchPath, txSearchPath := [], None;
    }

    method FinishRollback()
      modifies this`listenOps, this`notifyQueue, this`notificationSaves, this`searchPath, this`localSearchPath,
        this`txSearchPath
      ensures listenOps == [] && notifyQueue == [] && notificationSaves == []
      ensures searchPath == if old(txSearchPath).Some? then old(txSearchPath).value else old(searchPath)
      ensures localSearchPath == [] && txSearchPath == None
    {
      ClearNotificationState();
      RollbackSettingScope();
    }

    method ApplyListenOp(op: ListenOp)
      requires listens == hub.SubscribedTo(pid) && OpAllowed(op)
      modifies this`listens, hub
      ensures listens == hub.SubscribedTo(pid) == ApplyOp(old(listens), op)
      ensures hub.log == old(hub.log) && hub.lastLSN == old(hub.lastLSN)
    {
      match op
      case Listen(channel) =>
        if channel !in listens {
          hub.Subscribe(pid, channel);
          listens := listens + {channel};
        }
      case Unlisten(channel) =>
        if channel in listens {
          hub.Unsubscribe(pid, channel);
          listens := listens - {channel};
        }
      case UnlistenAll =>
        var rest := listens;
        while rest != {}
          invariant rest == hub.SubscribedTo(pid)
          invariant hub.log == old(hub.log) && hub.lastLSN == old(hub.lastLSN)
          decreases rest
        {
          var channel :| channel in rest;
          hub.Unsubscribe(pid, channel);
          rest := rest - {channel};
        }
        listens := {};
    }

    /** Applies the staged subscription changes and releases the queued notifications. */
    method FinishCommit(lsn: nat)
      requires listens == hub.SubscribedTo(pid)
      requires forall op <- listenOps :: OpAllowed(op)
      modifies this`listens, this`listenOps, this`notifyQueue, this`notificationSaves, this`localSearchPath,
        this`txSearchPath, hub
      ensures listens == hub.SubscribedTo(pid) == ApplyOps(old(listens), old(listenOps))
      ensures (hub.log, hub.lastLSN) == PublishAll(old(hub.log), old(hub.lastLSN), old(notifyQueue), lsn)
      ensures listenOps == [] && notifyQueue == [] && notificationSaves == []
      ensures localSearchPath == [] && txSearchPath == None
    {
      for i := 0 to |listenOps|
        invariant listenOps == old(listenOps) && notifyQueue == old(notifyQueue)
        invariant listens == hub.SubscribedTo(pid) == ApplyOps(old(listens), listenOps[..i])
        invariant hub.log == old(hub.log) && hub.lastLSN == old(hub.lastLSN)
      {
        assert listenOps[..i + 1][..i] == listenOps[..i];
        ApplyListenOp(listenOps[i]);
      }
      assert listenOps[..|listenOps|] == listenOps;
      ghost var subscribed := hub.SubscribedTo(pid);
      for i := 0 to |notifyQueue|
        invariant notifyQueue == old(notifyQueue) && listens == hub.SubscribedTo(pid) == subscribed
        invariant (hub.log, hub.lastLSN) == PublishAll(old(hub.log), old(hub.lastLSN), notifyQueue[..i], lsn)
      {
        assert notifyQueue[..i + 1][..i] == notifyQueue[..i];
        hub.Publish(notifyQueue[i].(lsn := lsn));
      }
      assert notifyQueue[..|notifyQueue|] == notifyQueue;
      ClearNotificationState();
      localSearchPath, txSearchPath := [], None;
    }

    method ExecuteBegin() returns (ok: bool)
      requires Valid()
      modifies this
      ensures Valid() && (Model(), ok) == Step(old(Model()), pid, Begin)
      ensures ok || old(Aligned()) ==> Aligned()
      ensures old(Aligned()) ==> PathModel() == PathStep(old(PathModel()), Begin)
      ensures Fields() == FieldStep(old(Fields()), Begin)
    {
      if inTransaction {
        return false;
      }
      Open();
      ok := true;
    }

    /** A fresh transaction: nothing staged, nothing saved. */
    method Open()
      requires Valid() && !inTransaction
      modifies this
      ensures Valid() && Model() == old(Model()).(inTransaction := true, ops := [], queue := [], saves := [])
      ensures Aligned()
      ensures old(Aligned()) ==> PathModel() == PathStep(old(PathModel()), Begin)
      ensures Fields() == FieldStep(old(Fields()), Begin)
    {
      inTransaction := true;
      savepoints, savepointStates, localSearchPathSaves := [], [], [];
      txSearchPath, localSearchPath := Some(searchPath), [];
      ClearNotificationState();
      NothingSaved();
    }

    /** Without savepoints there are no copies. */
    lemma NothingSaved()
      requires Valid() && savepoints == []
      ensures Model().saves == []
      ensures Aligned() ==> PathModel().saves == []
    {
    }

    /** `outcome` is what storage reports: the commit's log sequence number, or a failure. */
    method ExecuteCommit(outcome: Option<nat>) returns (ok: bool)
      requires Valid()
      modifies this, hub
      ensures Valid() && (Model(), ok) == Step(old(Model()), pid, Commit(outcome))
      ensures ok ==> Aligned()
      ensures !ok ==> localSearchPathSaves == old(localSearchPathSaves)
      ensures old(Aligned()) && Aligned() ==> PathModel() == PathStep(old(PathModel()), Commit(outcome))
      ensures Fields() == FieldStep(old(Fields()), Commit(outcome))
    {
      if !inTransaction {
        return false;
      }
      if outcome == None {
        EndTransaction();
        FinishRollback();
        return false;
      }
      durable := data;
      EndTransaction();
      localSearchPathSaves := [];
      FinishCommit(outcome.value);
      ok := true;
    }

    /** Storage has ended the transaction; the session sees durable data again. */
    method EndTransaction()
      modifies this`inTransaction, this`data, this`savepoints, this`savepointStates
      ensures !inTransaction && data == durable && savepoints == [] && savepointStates == []
    {
      inTransaction := false;
      data := durable;
      savepoints, savepointStates := [], [];
    }

    method ExecuteRollback() returns (ok: bool)
      requires Valid()
      modifies this
      ensures Valid() && (Model(), ok) == Step(old(Model()), pid, Rollback)
      ensures ok || old(Aligned()) ==> Aligned()
      ensures old(Aligned()) ==> PathModel() == PathStep(old(PathModel()), Rollback)
      ensures Fields() == FieldStep(old(Fields()), Rollback)
    {
      if !inTransaction {
        return false;
      }
      EndTransaction();
      localSearchPathSaves := [];
      FinishRollback();
      ok := true;
    }

    method ExecuteSavepoint(name: string)
      requires Valid()
      modifies this
      ensures Valid() && (Model(), true) == Step(old(Model()), pid, Savepoint(name))
      ensures old(Aligned()) ==> Aligned() && PathModel() == PathStep(old(PathModel()), Savepoint(name))
      ensures localSearchPathSaves == old(localSearchPathSaves) + [old(localSearchPath)]
      ensures localSearchPath == old(localSearchPath)
      ensures Fields() == FieldStep(old(Fields()), Savepoint(name))
    {
      if !inTransaction {
        inTransaction := true;
        savepoints, savepointStates := [], [];
        ClearNotificationState();
      }
      PushSavepoint(name);
    }

    method PushSavepoint(name: string)
      requires Valid() && inTransaction
      modifies this`savepoints, this`savepointStates, this`notificationSaves, this`localSearchPathSaves
      ensures Valid()
      ensures Model() == old(Model()).(saves := old(Model()).saves + [Save(name, data, listenOps, notifyQueue)])
      ensures old(Aligned()) ==>
        && Aligned()
        && PathModel() == old(PathModel()).(saves := old(PathModel()).saves + [PathSave(name, localSearchPath)])
      ensures localSearchPathSaves == old(localSearchPathSaves) + [localSearchPath]
      ensures savepoints == old(savepoints) + [name]
    {
      CopiesPush(savepoints, savepointStates, notificationSaves, listenOps, notifyQueue, name, data);
      if Aligned() {
        PathCopiesChange(savepoints, localSearchPathSaves, name, localSearchPath, 0);
      }
      savepoints := savepoints + [name];
      savepointStates := savepointStates + [data];
      notificationSaves := notificationSaves + [Snapshot(|listenOps|, |notifyQueue|)];
      localSearchPathSaves := localSearchPathSaves + [localSearchPath];
    }

    /** The backwards search for a savepoint name. */
    method FindSavepoint(name: string) returns (at: int)
      ensures -1 <= at < |savepoints|
      ensures Find(savepoints, name) == if at == -1 then None else Some(at)
    {
      at := |savepoints| - 1;
      assert savepoints[..|savepoints|] == savepoints;
      while at >= 0
        invariant -1 <= at < |savepoints|
        invariant Find(savepoints, name) == Find(savepoints[..at + 1], name)
      {
        if savepoints[at] == name {
          return;
        }
        assert savepoints[..at + 1][..at] == savepoints[..at];
        at := at - 1;
      }
    }

    method ExecuteRelease(name: string) returns (ok: bool)
      requires Valid()
      modifies this
      ensures Valid() && (Model(), ok) == Step(old(Model()), pid, Release(name))
      ensures old(Aligned()) ==> Aligned() && PathModel() == PathStep(old(PathModel()), Release(name))
      ensures Fields() == FieldStep(old(Fields()), Release(name))
    {
      if !inTransaction {
        return false;
      }
      NamesInModels();
      var i := FindSavepoint(name);
      if i == -1 {
        return false;
      }
      Truncate(i);
      ok := true;
    }

    method Truncate(n: nat)
      requires Valid() && inTransaction && n <= |savepoints|
      modifies this`savepoints, this`savepointStates, this`notificationSaves, this`localSearchPathSaves
      ensures Valid() && Model() == old(Model()).(saves := old(Model()).saves[..n])
      ensures old(Aligned()) ==> Aligned() && PathModel() == old(PathModel()).(saves := old(PathModel()).saves[..n])
      ensures savepoints == old(savepoints)[..n]
      ensures localSearchPathSaves == if n <= |old(localSearchPathSaves)| then old(localSearchPathSaves)[..n]
        else old(localSearchPathSaves)
    {
      if Aligned() {
        PathCopiesChange(savepoints, localSearchPathSaves, "", [], n);
      }
      CopiesTake(savepoints, savepointStates, notificationSaves, listenOps, notifyQueue, n);
      savepoints := savepoints[..n];
      savepointStates := savepointStates[..n];
      if n <= |notificationSaves| {
        notificationSaves := notificationSaves[..n];
      }
      if n <= |localSearchPathSaves| {
        localSearchPathSaves := localSearchPathSaves[..n];
      }
    }

    method RollbackNotificationsTo(s: Snapshot)
      modifies this`listenOps, this`notifyQueue
      ensures listenOps == if s.listenOps <= |old(listenOps)| then old(listenOps)[..s.listenOps] else old(listenOps)
      ensures notifyQueue == if s.notifyQueue <= |old(notifyQueue)| then old(notifyQueue)[..s.notifyQueue]
        else old(notifyQueue)
    {
      if s.listenOps <= |listenOps| {
        listenOps := listenOps[..s.listenOps];
      }
      if s.notifyQueue <= |notifyQueue| {
        notifyQueue := notifyQueue[..s.notifyQueue];
      }
    }

    method RollbackToSavepoint(name: string) returns (ok: bool)
      requires Valid()
      modifies this
      ensures Valid() && (Model(), ok) == Step(old(Model()), pid, RollbackTo(name))
      ensures old(Aligned()) ==> Aligned() && PathModel() == PathStep(old(PathModel()), RollbackTo(name))
      ensures ok ==>
        var at := Find(old(savepoints), name);
        at.Some? && (at.value < |old(localSearchPathSaves)| ==> localSearchPath == old(localSearchPathSaves)[at.value])
      ensures Fields() == FieldStep(old(Fields()), RollbackTo(name))
    {
      if !inTransaction {
        return false;
      }
      NamesInModels();
      var at := FindSavepoint(name);
      if at == -1 {
        return false;
      }
      RestoreTo(at);
      ok := true;
    }

    /** The models know the savepoints by the same names. */
    lemma NamesInModels()
      requires Valid()
      ensures Names(Model().saves) == savepoints
      ensures Aligned() ==> PathNames(PathModel().saves) == savepoints
    {
      CopiedNames(savepoints, savepointStates, notificationSaves, listenOps, notifyQueue);
      if Aligned() {
        CopiedPathNames(savepoints, localSearchPathSaves);
      }
    }

    method RestoreTo(at: nat)
      requires Valid() && inTransaction && at < |savepoints|
      modifies this`data, this`listenOps, this`notifyQueue, this`savepoints, this`savepointStates,
        this`notificationSaves,
        this`localSearchPath, this`localSearchPathSaves
      ensures Valid() && Model() ==
        var s := old(Model());
        s.(data := s.saves[at].data, ops := s.saves[at].ops, queue := s.saves[at].queue, saves := s.saves[..at + 1])
      ensures old(Aligned()) ==>
        Aligned() && PathModel() ==
          old(PathModel()).(local := old(PathModel()).saves[at].local, saves := old(PathModel()).saves[..at + 1])
      ensures at < |old(localSearchPathSaves)| ==> localSearchPath == old(localSearchPathSaves)[at]
      ensures savepoints == old(savepoints)[..at + 1]
      ensures at < |old(localSearchPathSaves)| ==> localSearchPathSaves == old(localSearchPathSaves)[..at + 1]
      ensures at >= |old(localSearchPathSaves)| ==>
        localSearchPath == old(localSearchPath) && localSearchPathSaves == old(localSearchPathSaves)
    {
      if Aligned() {
        PathCopiesChange(savepoints, localSearchPathSaves, "", [], at + 1);
      }
      RestoreData(at);
      if at < |localSearchPathSaves| {
        localSearchPath := localSearchPathSaves[at];
        localSearchPathSaves := localSearchPathSaves[..at + 1];
      }
    }

    method RestoreData(at: nat)
      requires Valid() && inTransaction && at < |savepoints|
      modifies this`data, this`listenOps, this`notifyQueue, this`savepoints, this`savepointStates,
        this`notificationSaves
      ensures Valid() && Model() ==
        var s := old(Model());
        s.(data := s.saves[at].data, ops := s.saves[at].ops, queue := s.saves[at].queue, saves := s.saves[..at + 1])
      ensures savepoints == old(savepoints)[..at + 1]
    {
      CopiesCut(savepoints, savepointStates, notificationSaves, listenOps, notifyQueue, at);
      data := savepointStates[at];
      if at < |notificationSaves| {
        RollbackNotificationsTo(notificationSaves[at]);
        notificationSaves := notificationSaves[..at + 1];
      }
      savepoints := savepoints[..at + 1];
      savepointStates := savepointStates[..at + 1];
    }

    method ExecuteSubscription(op: ListenOp) returns (ok: bool)
      requires Valid()
      modifies this`listens, this`listenOps, hub
      ensures Valid() && (Model(), ok) == Step(old(Model()), pid, Subscription(op))
      ensures old(Aligned()) ==> PathModel() == PathStep(old(PathModel()), Subscription(op))
      ensures Fields() == FieldStep(old(Fields()), Subscription(op))
    {
      if op != UnlistenAll && op.channel == "" {
        return false;
      }
      ok := true;
      if inTransaction {
        CopiesGrow(savepoints, savepointStates, notificationSaves, listenOps, notifyQueue, listenOps + [op],
          notifyQueue);
        listenOps := listenOps + [op];
        return;
      }
      ApplyListenOp(op);
    }

    method ExecuteNotify(channel: string, payload: string) returns (ok: bool)
      requires Valid()
      modifies this`notifyQueue, hub
      ensures Valid() && (Model(), ok) == Step(old(Model()), pid, Notify(channel, payload))
      ensures old(Aligned()) ==> PathModel() == PathStep(old(PathModel()), Notify(channel, payload))
      ensures Fields() == FieldStep(old(Fields()), Notify(channel, payload))
    {
      if |payload| > MAX_PAYLOAD {
        return false;
      }
      var n := Notification(pid, channel, payload, 0);
      if !inTransaction {
        hub.Publish(n);
        return true;
      }
      for i := 0 to |notifyQueue|
        invariant forall j :: 0 <= j < i ==> !SameMessage(notifyQueue[j], n)
      {
        if notifyQueue[i].channel == channel && notifyQueue[i].payload == payload {
          assert SameMessage(notifyQueue[i], n);
          return true;
        }
      }
      CopiesGrow(savepoints, savepointStates, notificationSaves, listenOps, notifyQueue, listenOps, notifyQueue + [n]);
      notifyQueue := notifyQueue + [n];
      ok := true;
    }

    method ExecuteWrite(key: string, value: string)
      requires Valid()
      modifies this`durable, this`data
      ensures Valid() && (Model(), true) == Step(old(Model()), pid, Write(key, value))
      ensures old(Aligned()) ==> PathModel() == PathStep(old(PathModel()), Write(key, value))
      ensures Fields() == FieldStep(old(Fields()), Write(key, value))
    {
      data := data[key := value];
      if !inTransaction {
        durable := durable[key := value];
      }
    }

    method ExecuteSet(path: seq<string>, isLocal: bool)
      requires Valid()
      modifies this`searchPath, this`localSearchPath
      ensures Valid() && Model() == old(Model())
      ensures old(Aligned()) ==>
        PathModel() == PathStep(old(PathModel()), if isLocal then SetLocal(path) else Set(path))
      ensures isLocal && inTransaction ==> localSearchPath == path
      ensures Fields() == FieldStep(old(Fields()), if isLocal then SetLocal(path) else Set(path))
    {
      if isLocal {
        if inTransaction {
          localSearchPath := path;
        }
      } else {
        searchPath, localSearchPath := path, [];
      }
    }

    method Execute(stmt: Statement) returns (ok: bool)
      requires Valid()
      modifies this, hub
      ensures Valid() && (Model(), ok) == Step(old(Model()), pid, stmt)
      ensures old(Aligned()) && (stmt.Commit? && old(inTransaction) ==> ok) ==>
        Aligned() && PathModel() == PathStep(old(PathModel()), stmt)
      ensures Fields() == FieldStep(old(Fields()), stmt)
    {
      match stmt
      case Begin => ok := ExecuteBegin();
      case Commit(outcome) => ok := ExecuteCommit(outcome);
      case Rollback => ok := ExecuteRollback();
      case RollbackTo(name) => ok := RollbackToSavepoint(name);
      case Savepoint(name) =>
        ExecuteSavepoint(name);
        ok := true;
      case Release(name) => ok := ExecuteRelease(name);
      case Subscription(op) => ok := ExecuteSubscription(op);
      case Notify(channel, payload) => ok := ExecuteNotify(channel, payload);
      case Write(key, value) =>
        ExecuteWrite(key, value);
        ok := true;
      case Set(path) =>
        ExecuteSet(path, false);
        ok := true;
      case SetLocal(path) =>
        ExecuteSet(path, true);
        ok := true;
    }

    /** Over every run the executor with saved lengths behaves like full copies, and its saved search
        paths stand for full copies after every statement exactly when no SAVEPOINT opens a
        transaction over those of a failed one. */
    method ExecuteAll(stmts: seq<Statement>)
      requires Valid()
      modifies this, hub
      ensures Valid() && Model() == Run(old(Model()), pid, stmts)
      ensures Settled(old(Model())) ==> Leaves(old(Model()), HistoryOf(pid, stmts), Model())
      ensures Fields() == FieldRun(old(Fields()), stmts)
      ensures forall p :: Refines(old(Fields()), p) ==>
        (RefinesThroughout(old(Fields()), p, stmts) <==> NeverOpensOverStale(old(Fields()), stmts))
      ensures forall p :: Refines(old(Fields()), p) && NeverOpensOverStale(old(Fields()), stmts) ==>
        Refines(Fields(), PathRun(p, stmts))
    {
      ghost var f, start := Fields(), Model();
      for k := 0 to |stmts|
        invariant Valid() && Model() == Run(old(Model()), pid, stmts[..k])
        invariant Fields() == FieldRun(f, stmts[..k])
      {
        assert stmts[..k + 1][..k] == stmts[..k];
        var ok := Execute(stmts[k]);
      }
      assert stmts[..|stmts|] == stmts;
      if Settled(start) {
        RunLeaves(start, pid, stmts);
      }
      forall p | Refines(f, p)
        ensures RefinesThroughout(f, p, stmts) <==> NeverOpensOverStale(f, stmts)
        ensures NeverOpensOverStale(f, stmts) ==> Refines(Fields(), PathRun(p, stmts))
      {
        RefinesThroughoutIff(f, p, stmts);
        if NeverOpensOverStale(f, stmts) {
          RefinesUpTo(f, p, stmts, |stmts|);
        }
      }
    }
  }

  /** A failed COMMIT leaves the search paths saved by its transaction behind. */
  method LeaveStaleSaves(hub: Hub, pid: int, path: seq<string>) returns (e: Executor)
    requires hub.SubscribedTo(pid) == {}
    modifies hub
    ensures fresh(e) && e.hub == hub && e.Valid()
    ensures !e.inTransaction && e.savepoints == [] && e.localSearchPathSaves == [path]
  {
    e := new Executor(pid, hub);
    var ok := e.ExecuteBegin();
    e.ExecuteSet(path, true);
    e.ExecuteSavepoint("a");
    ok := e.ExecuteCommit(None);
  }

  /** Why the saved search paths need COMMIT to succeed: a SAVEPOINT outside a transaction does not
      drop the stale saves, and ROLLBACK TO then restores a path of the failed transaction. */
  method StaleSearchPath(hub: Hub, pid: int, path: seq<string>) returns (e: Executor)
    requires hub.SubscribedTo(pid) == {} && path != []
    modifies hub
    ensures e.inTransaction && e.savepoints == ["b"] && e.localSearchPath == path
  {
    e := OpenOverStale(hub, pid, path);
    var ok := e.RollbackToSavepoint("b");
  }

  /** A SAVEPOINT then opens a transaction over them. */
  method OpenOverStale(hub: Hub, pid: int, path: seq<string>) returns (e: Executor)
    requires hub.SubscribedTo(pid) == {} && path != []
    modifies hub
    ensures fresh(e) && e.hub == hub && e.Valid() && e.inTransaction && e.savepoints == ["b"]
    ensures |e.localSearchPathSaves| == 2 && e.localSearchPathSaves[0] == path
  {
    e := LeaveStaleSaves(hub, pid, path);
    e.ExecuteSavepoint("b");
  }
}
