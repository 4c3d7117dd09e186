/**
 * The provider's objects: workers whose fields are updated in place, and the pool whose two
 * dictionaries lead to them. Every critical section is shown to be the step of `PoolModel`
 * that the safety results are about.
 */
module WorkerPool {
  import opened Wrappers
  import opened DatabaseIds
  import opened PoolModel
  import opened AnalysisTasks

  class Worker {
    /** The position of this worker among all workers ever created. */
    ghost const ref: nat
    const databaseId: string
    const filePath: string
    const runAutoAnalysis: bool

    var lifecycle: Lifecycle
    var hasClient: bool
    var activeCalls: nat
    var sessions: set<string>
    var spawn: SpawnPhase
    var watched: bool
    ghost var closing: bool

    /** The tasks the event loop has run for this worker, and the one `_analysis_task` names. */
    var tasks: seq<Task>
    var analysisTask: Option<nat>
    var analyzed: bool
    var analysisError: Option<string>
    ghost var seeded: bool

    ghost function CurrentPasses(): Passes
      reads this
    {
      Passes(tasks, analysisTask, analyzed, analysisError, seeded)
    }

    ghost function View(): WorkerData
      reads this
    {
      WorkerData(databaseId, filePath, lifecycle, hasClient, activeCalls, sessions, spawn, runAutoAnalysis,
                 closing, watched, CurrentPasses())
    }

    constructor (ghost ref: nat, databaseId: string, filePath: string, runAutoAnalysis: bool)
      ensures this.ref == ref && View() == NewWorker(databaseId, filePath, runAutoAnalysis, None)
    {
      this.ref := ref;
      this.databaseId, this.filePath, this.runAutoAnalysis := databaseId, filePath, runAutoAnalysis;
      lifecycle, hasClient, activeCalls, sessions := Starting, false, 0, {};
      spawn, watched, closing := Spawning, false, false;
      tasks, analysisTask, analyzed, analysisError, seeded := [], Option.None, false, Option.None, false;
    }

    function State(): (r: Lifecycle)
      reads this
      ensures r == StateOf(View())
    {
      if Inactive(lifecycle) then lifecycle else if activeCalls > 0 then Busy else Idle
    }

    method Attach(session: Option<string>)
      modifies this`sessions
      ensures sessions == Attached(old(sessions), session)
    {
      if session.Some? {
        sessions := sessions + {session.value};
      }
    }

    /** Whether no session remains; without a session, whether there was none to begin with. */
    method Detach(session: Option<string>) returns (empty: bool)
      modifies this`sessions
      ensures sessions == Detached(old(sessions), session) && (empty <==> sessions == {})
    {
      if session.Some? {
        sessions := sessions - {session.value};
      }
      empty := |sessions| == 0;
    }

    function IsAnalyzing(): (r: bool)
      reads this
      ensures r == Analyzing(CurrentPasses())
    {
      analysisTask.Some? && analysisTask.value < |tasks| && tasks[analysisTask.value].status.Running?
    }

    /** `start_analysis`: the running task if there is one, else a new one. */
    method StartAnalysis() returns (task: nat)
      modifies this`tasks, this`analysisTask, this`analysisError
      ensures CurrentPasses() == Start(old(CurrentPasses()))
      ensures task < |tasks| && analysisTask == Some(task) && tasks[task].status.Running?
    {
      if analysisTask.Some? && analysisTask.value < |tasks| && tasks[analysisTask.value].status.Running? {
        return analysisTask.value;
      }
      analysisError := Option.None;
      tasks := tasks + [Task(Running, false, false)];
      analysisTask := Some(|tasks| - 1);
      task := |tasks| - 1;
    }

    /** What an explicit `analyze_database` does before it waits. */
    method AttachAndAnalyze(session: Option<string>)
      modifies this
      ensures View() == old(View()).(sessions := Attached(old(sessions), session),
                                     passes := Start(old(CurrentPasses())))
    {
      Attach(session);
      var _ := StartAnalysis();
    }

    /** `_ensure_analysis_started`. */
    method EnsureAnalysisStarted()
      modifies this`tasks, this`analysisTask, this`analysisError
      ensures CurrentPasses() == EnsureStarted(old(CurrentPasses()), !Inactive(lifecycle))
    {
      if !analyzed && !IsAnalyzing() && analysisError.None? && !Inactive(State()) {
        var _ := StartAnalysis();
      }
    }

    /** Publish the client; seed the analysis flag from the open result. */
    method Commit(reportsAnalyzed: bool)
      requires spawn.Spawning?
      modifies this
      ensures View() == WorkerStep(old(View()), Step.CommitSpawn(ref, reportsAnalyzed))
    {
      hasClient := true;
      lifecycle := Idle;
      spawn := Opened;
      if reportsAnalyzed && !runAutoAnalysis {
        analyzed := true;
        analysisError := Option.None;
        seeded := true;
      }
    }

    /** Start the death watcher and, if asked to, an analysis. */
    method Finish()
      requires spawn.Opened?
      modifies this
      ensures View() == WorkerStep(old(View()), FinishSpawn(ref))
    {
      spawn := Ended;
      watched := true;
      if runAutoAnalysis {
        var _ := StartAnalysis();
      }
    }

    /** `mark_analyzed`, called by task `t` once the worker has reported success. */
    method MarkAnalyzedBy(t: nat)
      requires AnalysisTasks.Enabled(CurrentPasses(), Succeed(t))
      modifies this`tasks, this`analyzed, this`analysisError
      ensures CurrentPasses() == AnalysisTasks.Apply(old(CurrentPasses()), Succeed(t), !Inactive(lifecycle))
    {
      tasks := tasks[t := tasks[t].(succeeded := true)];
      analyzed := true;
      analysisError := Option.None;
    }

    /** `record_analysis_error`, called by task `t`. */
    method RecordAnalysisErrorBy(t: nat, message: string)
      requires AnalysisTasks.Enabled(CurrentPasses(), Fail(t, message))
      modifies this`tasks, this`analysisError
      ensures CurrentPasses() == AnalysisTasks.Apply(old(CurrentPasses()), Fail(t, message), !Inactive(lifecycle))
    {
      tasks := tasks[t := tasks[t].(failed := true)];
      analysisError := Some(message);
    }

    /** The `finally` clause of `cancel_analysis`, once the task it captured has ended. */
    method ClearAnalysis(t: nat)
      requires AnalysisTasks.Enabled(CurrentPasses(), Clear(t))
      modifies this`analysisTask
      ensures CurrentPasses() == AnalysisTasks.Apply(old(CurrentPasses()), Clear(t), !Inactive(lifecycle))
    {
      if analysisTask == Some(t) {
        analysisTask := Option.None;
      }
    }

    /** The event loop ends task `t`, which has run to its end or was cancelled. */
    method EndTask(t: nat, status: TaskStatus)
      requires t < |tasks|
      modifies this`tasks
      ensures tasks == old(tasks)[t := old(tasks)[t].(status := status)]
    {
      tasks := tasks[t := tasks[t].(status := status)];
    }

    /** Whatever happens to the worker's passes between two suspensions. */
    method Handle(e: Event)
      requires AnalysisTasks.Enabled(CurrentPasses(), e)
      modifies this`tasks, this`analysisTask, this`analyzed, this`analysisError
      ensures CurrentPasses() == AnalysisTasks.Apply(old(CurrentPasses()), e, !Inactive(lifecycle))
    {
      match e
      case Ensure => EnsureAnalysisStarted();
      case Succeed(t) => MarkAnalyzedBy(t);
      case Fail(t, message) => RecordAnalysisErrorBy(t, message);
      case Return(t) => EndTask(t, Finished);
      case Cancel(t) => EndTask(t, Cancelled);
      case Clear(t) => ClearAnalysis(t);
    }

    /** The same, as a step of the worker. */
    method Act(e: Event)
      requires AnalysisTasks.Enabled(CurrentPasses(), e)
      modifies this`tasks, this`analysisTask, this`analyzed, this`analysisError
      ensures WorkerEnabled(old(View()), Analysis(ref, e)) && View() == WorkerStep(old(View()), Analysis(ref, e))
    {
      Handle(e);
    }
  }

  ghost function Views(ws: seq<Worker>): (r: seq<WorkerData>)
    reads ws
    ensures |r| == |ws| && forall i | 0 <= i < |ws| :: r[i] == ws[i].View()
  {
    seq(|ws|, i requires 0 <= i < |ws| reads ws => ws[i].View())
  }

  lemma ViewsAppend(ws: seq<Worker>, w: Worker)
    ensures Views(ws + [w]) == Views(ws) + [w.View()]
  {
  }

  class WorkerPoolProvider {
    const maxWorkers: Option<nat>
    var workers: map<string, Worker>
    var idToPath: map<string, string>
    /** Every worker ever created, in order. */
    ghost var all: seq<Worker>

    ghost predicate Tracked(w: Worker)
      reads this
    {
      w.ref < |all| && all[w.ref] == w
    }

    ghost predicate Valid()
      reads this, all
    {
      && (forall i | 0 <= i < |all| :: all[i].ref == i)
      && (forall path | path in workers :: Tracked(workers[path]) && workers[path].filePath == path)
    }

    ghost function Refs(): map<string, nat>
      reads this
    {
      map path | path in workers :: workers[path].ref
    }

    /** The pool of the step system that this object stands for. */
    ghost function Snapshot(): (p: Pool)
      requires Valid()
      reads this, all
      ensures KeysMatch(p)
    {
      Pool(Views(all), Refs(), idToPath, maxWorkers)
    }

    constructor (maxWorkers: Option<nat>)
      ensures Valid() && Snapshot() == Initial(maxWorkers)
    {
      this.maxWorkers := maxWorkers;
      workers, idToPath, all := map[], map[], [];
    }

    /** The paths among `paths` whose workers `_active_count` counts. */
    ghost function LivePaths(paths: set<string>): set<string>
      requires paths <= workers.Keys
      reads this, workers.Values
    {
      set path | path in paths && !workers[path].lifecycle.Dead?
    }

    lemma LivePathsAdd(paths: set<string>, path: string)
      requires paths <= workers.Keys && path in workers && path !in paths
      ensures |LivePaths(paths + {path})| == |LivePaths(paths)| + if workers[path].lifecycle.Dead? then 0 else 1
    {
      assert LivePaths(paths + {path})
          == if workers[path].lifecycle.Dead? then LivePaths(paths) else LivePaths(paths) + {path};
    }

    lemma LivePathsAreActive()
      requires Valid()
      ensures LivePaths(workers.Keys) == ActivePaths(Snapshot())
    {
    }

    /** `_active_count`. */
    method ActiveCount() returns (n: nat)
      requires Valid()
      ensures n == |ActivePaths(Snapshot())|
    {
      n := 0;
      var paths := workers.Keys;
      ghost var done: set<string> := {};
      while paths != {}
        invariant Split(workers.Keys, done, paths)
        invariant n == |LivePaths(done)|
        decreases paths
      {
        var path :| path in paths;
        SplitOn(workers.Keys, done, paths, path);
        LivePathsAdd(done, path);
        if workers[path].State() != Dead {
          n := n + 1;
        }
        paths, done := paths - {path}, done + {path};
      }
      assert done == workers.Keys;
      LivePathsAreActive();
    }

    method IsFull() returns (full: bool)
      requires Valid()
      ensures full == Full(Snapshot())
    {
      var active := ActiveCount();
      full := maxWorkers.Some? && active >= maxWorkers.value;
    }

    /** `_lookup_worker`. */
    method LookupWorker(database: string, canonical: string) returns (r: Result<Worker, LookupError>)
      requires Valid()
      ensures match Lookup(Snapshot(), database, canonical)
              case Ok(ref) => r.Ok? && Tracked(r.value) && r.value.ref == ref
              case Err(e) => r == Err(e)
    {
      assert Refs() == map[] <==> workers == map[] by {
        assert Refs().Keys == workers.Keys;
      }
      if workers == map[] {
        return Err(NoDatabase);
      }
      if database == "" {
        return Err(MissingDatabase);
      }
      var path := if database in idToPath then idToPath[database] else canonical;
      if path !in workers {
        return Err(NotFound);
      }
      return Ok(workers[path]);
    }

    /** `resolve_worker`. */
    method ResolveWorker(database: string, canonical: string) returns (r: Result<Worker, LookupError>)
      requires Valid()
      ensures match Resolve(Snapshot(), database, canonical)
              case Ok(ref) => r.Ok? && Tracked(r.value) && r.value.ref == ref && r.value.filePath in workers
              case Err(e) => r == Err(e)
    {
      r := LookupWorker(database, canonical);
      if r.Ok? && Inactive(r.value.State()) {
        r := if r.value.State() == Starting then Err(NotReady) else Err(NotFound);
      }
    }

    /** `del` of a path and an ID, if present: `dict.pop(key, None)` on both dictionaries. */
    method PopBoth(path: string, id: string)
      requires Valid()
      modifies this`workers, this`idToPath
      ensures Valid() && all == old(all)
      ensures Snapshot() == PopEntries(old(Snapshot()), path, id)
    {
      workers := workers - {path};
      idToPath := idToPath - {id};
      assert Refs() == Pop(old(Refs()), path);
    }

    /** Attach a session to a registered worker. */
    method AttachRegistered(w: Worker, session: Option<string>)
      requires Valid() && Tracked(w)
      modifies w`sessions
      ensures Valid() && Snapshot() == AttachTo(old(Snapshot()), w.ref, session)
    {
      ghost var p := Snapshot();
      w.Attach(session);
      assert Views(all) == p.all[w.ref := w.View()];
      assert Refs() == p.byPath;
    }

    /** Detach a session from a worker. */
    method DetachRegistered(w: Worker, session: Option<string>) returns (empty: bool)
      requires Valid() && Tracked(w)
      modifies w`sessions
      ensures Valid()
      ensures Snapshot() == DetachFrom(old(Snapshot()), w.ref, session)
      ensures empty <==> w.sessions == {}
    {
      ghost var p := Snapshot();
      empty := w.Detach(session);
      assert Views(all) == p.all[w.ref := w.View()];
      assert Refs() == p.byPath;
    }

    /** Drop the entries of a worker that some step is about to close. */
    method UnregisterWorker(w: Worker)
      requires Valid() && Tracked(w)
      modifies this`workers, this`idToPath, w`closing
      ensures Valid() && all == old(all)
      ensures Snapshot() == Unregister(old(Snapshot()), w.ref)
    {
      ghost var p := Snapshot();
      w.closing := true;
      assert Views(all) == p.all[w.ref := w.View()];
      assert Refs() == p.byPath;
      PopBoth(w.filePath, w.databaseId);
    }

    /** A worker object for a request, attached to its session. */
    static method CreateWorker(ghost ref: nat, r: OpenRequest, id: string) returns (worker: Worker)
      ensures fresh(worker) && worker.ref == ref && worker.filePath == r.canonical
      ensures worker.View() == NewWorker(id, r.canonical, r.runAutoAnalysis, r.session)
    {
      worker := new Worker(ref, id, r.canonical, r.runAutoAnalysis);
      worker.Attach(r.session);
    }

    /** Count a new worker among those ever created. */
    ghost method Track(worker: Worker)
      requires Valid() && worker.ref == |all|
      modifies this`all
      ensures Valid() && all == old(all) + [worker] && Tracked(worker)
      ensures Snapshot() == old(Snapshot()).(all := old(Snapshot()).all + [worker.View()])
    {
      ghost var p := Snapshot();
      ViewsAppend(all, worker);
      all := all + [worker];
      assert Refs() == p.byPath;
    }

    /** Enter a worker in both dictionaries. */
    method EnterWorker(worker: Worker)
      requires Valid() && Tracked(worker)
      modifies this`workers, this`idToPath
      ensures Valid() && all == old(all)
      ensures Snapshot() == old(Snapshot()).(byPath := old(Refs())[worker.filePath := worker.ref],
                                             idToPath := old(idToPath)[worker.databaseId := worker.filePath])
    {
      workers := workers[worker.filePath := worker];
      idToPath := idToPath[worker.databaseId := worker.filePath];
      assert Refs() == old(Refs())[worker.filePath := worker.ref];
    }

    /** Create a worker and enter it in both dictionaries. */
    method RegisterWorker(r: OpenRequest, id: string)
      requires Valid()
      modifies this
      ensures Valid() && old(all) <= all
      ensures Snapshot() == Register(old(Snapshot()), r, id)
    {
      ghost var p := Snapshot();
      var worker := CreateWorker(|all|, r, id);
      assert Snapshot() == p by {
        assert Views(all) == p.all && Refs() == p.byPath;
      }
      Track(worker);
      EnterWorker(worker);
    }

    /** The critical section of `spawn_worker`. */
    method SpawnWorker(r: OpenRequest) returns (status: string, ghost outcome: OpenOutcome)
      requires Valid()
      modifies this, all
      ensures Valid() && old(all) <= all
      ensures (Snapshot(), outcome) == Open(old(Snapshot()), r) && status == StatusOf(outcome)
    {
      if r.canonical in workers {
        var existing := workers[r.canonical];
        if existing.State() != Dead {
          var starting := existing.lifecycle == Starting;
          AttachRegistered(existing, r.session);
          if starting {
            return "already_opening", AlreadyOpening(existing.ref);
          }
          return "already_open", AlreadyOpen(existing.ref);
        }
        OpenOverDead(Snapshot(), r);
        UnregisterWorker(existing);
      }
      status, outcome := SpawnFresh(r);
    }

    /** The three refusals, in order. */
    method Refuse(r: OpenRequest) returns (refusal: Option<OpenOutcome>)
      requires Valid()
      ensures refusal == RefusalOf(Snapshot(), r)
    {
      var full := IsFull();
      if full {
        return Some(ResourceExhausted);
      }
      if r.customId != "" {
        if !AcceptsCustomId(r.customId) {
          return Some(InvalidArgument);
        }
        if r.customId in idToPath {
          return Some(DuplicateId);
        }
      }
      return Option.None;
    }

    /** The rest of it, once no worker is registered under the path. */
    method SpawnFresh(r: OpenRequest) returns (status: string, ghost outcome: OpenOutcome)
      requires Valid() && r.canonical !in workers
      modifies this
      ensures Valid() && old(all) <= all
      ensures (Snapshot(), outcome) == OpenNew(old(Snapshot()), r) && status == StatusOf(outcome)
    {
      var refusal := Refuse(r);
      if refusal.Some? {
        return StatusOf(refusal.value), refusal.value;
      }
      outcome := Opening(|all|);
      var id := ChooseId(r);
      RegisterWorker(r, id);
      status := "opening";
    }

    /** The caller's ID, or one made from the file name. */
    method ChooseId(r: OpenRequest) returns (id: string)
      requires Valid()
      ensures id == ChosenId(Snapshot(), r)
    {
      if r.customId != "" {
        return r.customId;
      }
      id := PickUniqueId(idToPath, NormalizeId(r.stem), r.clock);
    }

    // ---- Steps of tasks that hold on to one worker -----------------------------------------------

    /** Publish the client of a database that has opened. */
    method CommitSpawn(w: Worker, reportsAnalyzed: bool)
      requires Valid() && Tracked(w) && w.spawn.Spawning?
      modifies w
      ensures Valid() && Snapshot() == HeldStep(old(Snapshot()), Step.CommitSpawn(w.ref, reportsAnalyzed))
    {
      ghost var p := Snapshot();
      w.Commit(reportsAnalyzed);
      assert Views(all) == p.all[w.ref := w.View()];
      assert Refs() == p.byPath;
    }

    /** `_mark_failed`: the entry stays, dead, so that callers see the error. */
    method MarkFailed(w: Worker)
      requires Valid() && Tracked(w) && w.spawn.Spawning?
      modifies w
      ensures Valid() && Snapshot() == HeldStep(old(Snapshot()), FailSpawn(w.ref))
    {
      ghost var p := Snapshot();
      w.lifecycle := Dead;
      w.spawn := Ended;
      assert Views(all) == p.all[w.ref := w.View()];
      assert Refs() == p.byPath;
    }

    /** `_remove`: by then the path or the ID may belong to another worker. */
    method RemoveSpawned(w: Worker)
      requires Valid() && Tracked(w) && !w.spawn.Ended?
      modifies this, w
      ensures Valid() && all == old(all)
      ensures Snapshot() == HeldStep(old(Snapshot()), RemoveSpawn(w.ref))
    {
      ghost var p := Snapshot();
      w.spawn := Ended;
      assert Views(all) == p.all[w.ref := w.View()];
      assert Refs() == p.byPath;
      PopBoth(w.filePath, w.databaseId);
    }

    /** The end of `_background_spawn`: start the death watcher and, if asked to, an analysis. */
    method FinishSpawned(w: Worker)
      requires Valid() && Tracked(w) && w.spawn.Opened?
      modifies w
      ensures Valid() && Snapshot() == HeldStep(old(Snapshot()), FinishSpawn(w.ref))
    {
      ghost var p := Snapshot();
      w.Finish();
      assert Views(all) == p.all[w.ref := w.View()];
      assert Refs() == p.byPath;
    }

    /** The death watcher has seen the process exit. */
    method RecordDeath(w: Worker)
      requires Valid() && Tracked(w) && w.watched && w.lifecycle != Dead
      modifies w
      ensures Valid() && Snapshot() == HeldStep(old(Snapshot()), DeathWatch(w.ref))
    {
      ghost var p := Snapshot();
      w.lifecycle := Dead;
      assert Views(all) == p.all[w.ref := w.View()];
      assert Refs() == p.byPath;
    }

    /** `dispatch` is entered for a worker resolved earlier. */
    method EnterDispatch(w: Worker)
      requires Valid() && Tracked(w) && w.lifecycle != Starting
      modifies w
      ensures Valid() && Snapshot() == HeldStep(old(Snapshot()), LateCall(w.ref))
    {
      ghost var p := Snapshot();
      w.activeCalls := w.activeCalls + 1;
      assert Views(all) == p.all[w.ref := w.View()];
      assert Refs() == p.byPath;
    }

    method LeaveDispatch(w: Worker)
      requires Valid() && Tracked(w) && w.activeCalls > 0
      modifies w
      ensures Valid() && Snapshot() == HeldStep(old(Snapshot()), EndCall(w.ref))
    {
      ghost var p := Snapshot();
      w.activeCalls := w.activeCalls - 1;
      assert Views(all) == p.all[w.ref := w.View()];
      assert Refs() == p.byPath;
    }

    /** `mark_worker_dead`: the same hazard as in `RemoveSpawned`. */
    method MarkWorkerDead(w: Worker)
      requires Valid() && Tracked(w) && w.activeCalls > 0
      modifies this, w
      ensures Valid() && all == old(all)
      ensures Snapshot() == HeldStep(old(Snapshot()), MarkDead(w.ref))
    {
      UnregisterWorker(w);
    }

    /** `_close_client`, before its first suspension. */
    method BeginCloseClient(w: Worker)
      requires Valid() && Tracked(w) && w.closing
      modifies w
      ensures Valid() && Snapshot() == HeldStep(old(Snapshot()), CloseClient(w.ref))
    {
      ghost var p := Snapshot();
      w.lifecycle := Dead;
      assert Views(all) == p.all[w.ref := w.View()];
      assert Refs() == p.byPath;
    }

    /** `_close_client`, once the transport is down. */
    method FinishCloseClient(w: Worker)
      requires Valid() && Tracked(w) && w.closing && w.lifecycle == Dead
      modifies w
      ensures Valid() && Snapshot() == HeldStep(old(Snapshot()), DropClient(w.ref))
    {
      ghost var p := Snapshot();
      w.hasClient := false;
      assert Views(all) == p.all[w.ref := w.View()];
      assert Refs() == p.byPath;
    }

    /** A waiter (`_await_analysis`), a pass or a cancellation acts on the worker's analysis. */
    method HandleAnalysis(w: Worker, e: Event)
      requires Valid() && Tracked(w) && AnalysisTasks.Enabled(w.CurrentPasses(), e)
      modifies w
      ensures Valid() && Snapshot() == HeldStep(old(Snapshot()), Analysis(w.ref, e))
    {
      ghost var p := Snapshot();
      assert p.all[w.ref] == w.View();
      w.Act(e);
      assert Views(all) == p.all[w.ref := w.View()];
      assert Refs() == p.byPath;
    }

    /** The spawn task is cancelled before its first step, or while failing. */
    method AbandonSpawned(w: Worker)
      requires Valid() && Tracked(w) && w.spawn.Spawning?
      modifies w
      ensures Valid() && Snapshot() == HeldStep(old(Snapshot()), AbandonSpawn(w.ref))
    {
      ghost var p := Snapshot();
      w.spawn := Ended;
      assert Views(all) == p.all[w.ref := w.View()];
      assert Refs() == p.byPath;
    }

    /** A task that holds on to worker `w` takes its step. */
    method PerformHeld(s: Step, w: Worker)
      requires Valid() && Tracked(w) && IsWorkerStep(s) && w.ref == s.ref && PoolModel.Enabled(Snapshot(), s)
      modifies this, w
      ensures Valid() && all == old(all) && Snapshot() == HeldStep(old(Snapshot()), s)
    {
      assert Snapshot().all[w.ref] == w.View();
      match s
      case CommitSpawn(_, reportsAnalyzed) => CommitSpawn(w, reportsAnalyzed);
      case FailSpawn(_) => MarkFailed(w);
      case AbandonSpawn(_) => AbandonSpawned(w);
      case RemoveSpawn(_) => RemoveSpawned(w);
      case FinishSpawn(_) => FinishSpawned(w);
      case DeathWatch(_) => RecordDeath(w);
      case LateCall(_) => EnterDispatch(w);
      case EndCall(_) => LeaveDispatch(w);
      case MarkDead(_) => MarkWorkerDead(w);
      case CloseClient(_) => BeginCloseClient(w);
      case DropClient(_) => FinishCloseClient(w);
      case Analysis(_, e) => HandleAnalysis(w, e);
    }

    // ---- Steps of requests -------------------------------------------------------------------------

    /** `RoutingTool.run` and `RoutingTemplate._read` up to the first suspension of the call. */
    method RouteCall(database: string, canonical: string, session: Option<string>, blocked: bool)
      requires Valid()
      modifies all
      ensures Valid() && Snapshot() == Route(old(Snapshot()), database, canonical, session, blocked)
    {
      ghost var p := Snapshot();
      var found := ResolveWorker(database, canonical);
      if found.Err? {
        return;
      }
      assert found.value.View() == p.all[found.value.ref];
      if blocked && found.value.IsAnalyzing() {
        return;
      }
      RouteToWorker(found.value, session);
    }

    /** Attach the session, then enter `dispatch`. */
    method RouteToWorker(w: Worker, session: Option<string>)
      requires Valid() && Tracked(w) && w.lifecycle != Starting
      modifies w
      ensures Valid() && Snapshot() == RouteTo(old(Snapshot()), w.ref, session)
    {
      RouteInTwo(Snapshot(), w.ref, session);
      AttachRegistered(w, session);
      EnterDispatch(w);
    }

    /** The explicit `analyze_database` tool up to its first suspension. */
    method AnalyzeDatabase(database: string, canonical: string, session: Option<string>)
      requires Valid()
      modifies all
      ensures Valid() && Snapshot() == Analyze(old(Snapshot()), database, canonical, session)
    {
      var found := ResolveWorker(database, canonical);
      if found.Ok? {
        AnalyzeOnWorker(found.value, session);
      }
    }

    /** Attach the session, then `run_analysis` up to its first suspension. */
    method AnalyzeOnWorker(w: Worker, session: Option<string>)
      requires Valid() && Tracked(w)
      modifies w
      ensures Valid() && Snapshot() == AnalyzeOn(old(Snapshot()), w.ref, session)
    {
      ghost var p := Snapshot();
      w.AttachAndAnalyze(session);
      assert Views(all) == p.all[w.ref := w.View()];
      assert Refs() == p.byPath;
    }

    /** The critical section of `terminate_worker`. */
    method TerminateWorker(path: string) returns (found: bool)
      requires Valid()
      modifies this, all
      ensures Valid() && all == old(all)
      ensures Snapshot() == TerminateAt(old(Snapshot()), path) && found == (path in old(workers))
    {
      found := path in workers;
      if found {
        UnregisterWorker(workers[path]);
      }
    }

    /** `check_attached`. */
    method CheckAttached(w: Worker, session: Option<string>) returns (ok: bool)
      ensures ok <==> session.None? || w.sessions == {} || session.value in w.sessions
    {
      ok := session.None? || |w.sessions| == 0 || session.value in w.sessions;
    }

    /** `close_database` up to the first suspension. */
    method CloseDatabase(database: string, canonical: string, session: Option<string>, force: bool)
      returns (closed: bool, ghost outcome: CloseOutcome)
      requires Valid()
      modifies this, all
      ensures Valid() && all == old(all) && closed == outcome.Closed?
      ensures (Snapshot(), outcome) == Close(old(Snapshot()), database, canonical, session, force)
    {
      var found := ResolveWorker(database, canonical);
      if found.Err? {
        return false, Unresolved(found.error);
      }
      closed, outcome := CloseForSession(found.value, session, force);
    }

    /** The critical section of `close_for_session`. */
    method CloseForSession(w: Worker, session: Option<string>, force: bool)
      returns (closed: bool, ghost outcome: CloseOutcome)
      requires Valid() && Tracked(w)
      modifies this, w
      ensures Valid() && all == old(all) && closed == outcome.Closed?
      ensures (Snapshot(), outcome) == CloseOn(old(Snapshot()), w.ref, session, force)
    {
      assert Snapshot().all[w.ref] == w.View();
      if !force {
        var attached := CheckAttached(w, session);
        if !attached {
          return false, NotAttached;
        }
      }
      var empty := DetachRegistered(w, session);
      assert Snapshot().all[w.ref] == w.View();
      if force || session.None? || empty {
        UnregisterWorker(w);
        return true, Closed(w.ref);
      }
      return false, StillAttached(w.ref);
    }

    /** Note that every registered worker is about to be closed. */
    ghost method CloseAllOf(remaining: set<Worker>)
      requires Valid() && remaining == workers.Values
      modifies remaining`closing
      ensures Valid() && Views(all) == ForceClose(old(Snapshot())).all
    {
      ghost var p := Snapshot();
      RegisteredAreValues(p);
      forall w | w in remaining {
        w.closing := true;
      }
      forall i | 0 <= i < |all|
        ensures all[i].View() == ForceClose(p).all[i]
      {
        assert all[i] in remaining <==> Registered(p, i);
      }
    }

    lemma RegisteredAreValues(p: Pool)
      requires Valid() && p == Snapshot()
      ensures forall i | 0 <= i < |all| :: all[i] in workers.Values <==> Registered(p, i)
    {
      forall i | 0 <= i < |all|
        ensures all[i] in workers.Values <==> Registered(p, i)
      {
        assert p.all[i].path == all[i].filePath;
      }
    }

    /** The critical section of `_force_close_remaining`. */
    method ForceCloseRemaining()
      requires Valid()
      modifies this, all
      ensures Valid() && all == old(all)
      ensures Snapshot() == ForceClose(old(Snapshot()))
    {
      assert forall w | w in workers.Values :: w in all;
      CloseAllOf(workers.Values);
      ClearEntries();
    }

    /** `clear()` on both dictionaries. */
    method ClearEntries()
      requires Valid()
      modifies this`workers, this`idToPath
      ensures Valid() && all == old(all)
      ensures Snapshot() == old(Snapshot()).(byPath := map[], idToPath := map[])
    {
      workers, idToPath := map[], map[];
      assert Refs() == map[];
    }

    /** One turn of the loop in `detach_all`. */
    method DetachTurnOf(w: Worker, leaving: string, terminate: bool)
      requires Valid() && Tracked(w)
      modifies this`workers, this`idToPath, w
      ensures Valid() && all == old(all)
      ensures Snapshot() == DetachTurn(old(Snapshot()), w.ref, leaving, terminate)
    {
      ghost var p := Snapshot();
      assert p.all[w.ref] == w.View();
      if w.State() == Dead || leaving !in w.sessions {
        assert Snapshot().all == p.all[w.ref := w.View()];
        return;
      }
      var empty := w.Detach(Some(leaving));
      if terminate && empty {
        w.closing := true;
      }
      assert w.View() == LeftBy(p.all[w.ref], leaving, terminate);
      assert Views(all) == p.all[w.ref := w.View()];
      assert Refs() == p.byPath;
      if terminate && empty {
        PopBoth(w.filePath, w.databaseId);
      }
    }

    /** Where the loop of `detach_all` stands once the workers under `done` have had their turn. */
    ghost predicate Detaching(p: Pool, items: map<string, Worker>, done: set<string>, leaving: string, terminate: bool)
      requires KeysMatch(p)
      reads this, all
    {
      && Valid()
      && Snapshot() == DetachSome(p, done, leaving, terminate)
      && items.Keys == p.byPath.Keys
      && forall path | path in items :: Tracked(items[path]) && p.byPath[path] == items[path].ref
    }

    method DetachNext(ghost p: Pool, items: map<string, Worker>, ghost done: set<string>, path: string,
                      leaving: string, terminate: bool)
      requires KeysMatch(p) && path in items && path !in done
      requires Detaching(p, items, done, leaving, terminate)
      modifies this, all
      ensures all == old(all) && Detaching(p, items, done + {path}, leaving, terminate)
    {
      DetachMore(p, done, path, leaving, terminate);
      DetachTurnOf(items[path], leaving, terminate);
    }

    /** The critical section of `detach_all` for a real session. */
    method DetachAllFrom(leaving: string, terminate: bool)
      requires Valid()
      modifies this, all
      ensures Valid() && all == old(all)
      ensures Snapshot() == DetachAll(old(Snapshot()), leaving, terminate)
    {
      ghost var p := Snapshot();
      var items := workers;
      var paths := items.Keys;
      ghost var done: set<string> := {};
      DetachNone(p, leaving, terminate);
      while paths != {}
        invariant Split(items.Keys, done, paths) && all == old(all)
        invariant Detaching(p, items, done, leaving, terminate)
        decreases paths
      {
        var path :| path in paths;
        SplitOn(items.Keys, done, paths, path);
        DetachNext(p, items, done, path, leaving, terminate);
        paths, done := paths - {path}, done + {path};
      }
    }

    /** A client's request, or the shutdown, takes its step. */
    method PerformRequest(s: Step)
      requires Valid() && !IsWorkerStep(s)
      modifies this, all
      ensures Valid() && old(all) <= all && Snapshot() == PoolModel.Apply(old(Snapshot()), s)
    {
      match s
      case OpenDatabase(r) => var _, _ := SpawnWorker(r);
      case BeginCall(database, canonical, session, blocked) => RouteCall(database, canonical, session, blocked);
      case AnalyzeCall(database, canonical, session) => AnalyzeDatabase(database, canonical, session);
      case Terminate(path) => var _ := TerminateWorker(path);
      case ForceCloseRemaining => ForceCloseRemaining();
      case CloseDatabase(database, canonical, session, force) =>
        var _, _ := CloseDatabase(database, canonical, session, force);
      case DetachSession(leaving, terminate) => DetachAllFrom(leaving, terminate);
    }

    /**
     * The objects simulate the step system: every step that is enabled is carried out by a
     * method, for the worker `w` that the task taking it holds on to, if it does.
     */
    method Perform(s: Step, w: Worker?)
      requires Valid() && PoolModel.Enabled(Snapshot(), s)
      requires IsWorkerStep(s) ==> w != null && Tracked(w) && w.ref == s.ref
      modifies this, all
      ensures Valid() && old(all) <= all && Snapshot() == PoolModel.Apply(old(Snapshot()), s)
    {
      if IsWorkerStep(s) {
        PerformHeld(s, w);
      } else {
        PerformRequest(s);
      }
    }
  }

  predicate Split(all: set<string>, done: set<string>, paths: set<string>) {
    done + paths == all && done !! paths
  }

  lemma SplitOn(all: set<string>, done: set<string>, paths: set<string>, path: string)
    requires Split(all, done, paths) && path in paths
    ensures Split(all, done + {path}, paths - {path}) && path in all && path !in done
  {
  }
}
