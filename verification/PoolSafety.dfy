/** What every run of the pool keeps: capacity, lifecycles, sessions, and analysis passes. */
module PoolSafety {
  import opened Wrappers
  import opened DatabaseIds
  import opened PoolModel
  import AnalysisTasks

  // ---- One worker across one step ------------------------------------------------------------

  /** What holds of a worker, registered or not. */
  ghost predicate WorkerInv(w: WorkerData, registered: bool) {
    && !w.raw.Busy?
    && (w.watched ==> w.spawn.Ended?)
    && (registered ==> !w.closing && (w.spawn.Spawning? ==> w.raw.Starting?) && (w.raw.Idle? ==> w.client))
    && AnalysisTasks.Inv(w.passes)
  }

  function Stage(l: Lifecycle): nat {
    match l
    case Starting => 0
    case Idle => 1
    case Busy => 1
    case Dead => 2
  }

  /**
   * What a step may do to a worker: keep the invariant; never register it again; while it is
   * registered, only move it forward from starting to active to dead; and once it is not,
   * attach no session to it.
   */
  ghost predicate WorkerNext(w: WorkerData, registered: bool, w': WorkerData, registered': bool) {
    && WorkerInv(w', registered')
    && (registered' ==> registered && Stage(w.raw) <= Stage(w'.raw))
    && (!registered ==> w'.sessions <= w.sessions)
  }

  ghost predicate AllNext(p: Pool, q: Pool) {
    && |p.all| <= |q.all|
    && forall ref | 0 <= ref < |p.all| :: WorkerNext(p.all[ref], Registered(p, ref), q.all[ref], Registered(q, ref))
  }

  ghost predicate Workers(p: Pool) {
    && KeysMatch(p)
    && forall ref | 0 <= ref < |p.all| :: WorkerInv(p.all[ref], Registered(p, ref))
  }

  /** A change to one worker, with no new registration, takes every worker along. */
  lemma ChangeOneNext(p: Pool, q: Pool, ref: nat)
    requires Workers(p) && ref < |p.all| == |q.all|
    requires forall r | 0 <= r < |p.all| && r != ref :: q.all[r] == p.all[r]
    requires forall r | 0 <= r < |p.all| :: Registered(q, r) ==> Registered(p, r)
    requires WorkerNext(p.all[ref], Registered(p, ref), q.all[ref], Registered(q, ref))
    ensures AllNext(p, q)
  {
    forall r | 0 <= r < |p.all| ensures WorkerNext(p.all[r], Registered(p, r), q.all[r], Registered(q, r)) {
      if r != ref {
        assert WorkerInv(p.all[r], Registered(p, r));
      }
    }
  }

  lemma UpdateNext(p: Pool, ref: nat, w: WorkerData)
    requires Workers(p) && ref < |p.all| && w.path == p.all[ref].path && w.id == p.all[ref].id
    requires WorkerNext(p.all[ref], Registered(p, ref), w, Registered(p, ref))
    ensures AllNext(p, Update(p, ref, w))
  {
    ChangeOneNext(p, Update(p, ref, w), ref);
  }

  lemma UnregisterNext(p: Pool, ref: nat)
    requires Workers(p) && ref < |p.all|
    ensures AllNext(p, Unregister(p, ref)) && !Registered(Unregister(p, ref), ref)
  {
    assert WorkerInv(p.all[ref], Registered(p, ref));
    ChangeOneNext(p, Unregister(p, ref), ref);
  }

  lemma WithoutStaleNext(p: Pool, path: string)
    requires Workers(p)
    ensures AllNext(p, WithoutStale(p, path))
  {
    if path in p.byPath {
      UnregisterNext(p, p.byPath[path]);
    }
  }

  lemma RegisterNext(p: Pool, r: OpenRequest, id: string)
    requires Workers(p) && r.canonical !in p.byPath
    ensures AllNext(p, Register(p, r, id)) && Workers(Register(p, r, id))
  {
    var q := Register(p, r, id);
    assert forall ref | 0 <= ref < |p.all| :: q.all[ref] == p.all[ref];
    assert q.all[|p.all|] == NewWorker(id, r.canonical, r.runAutoAnalysis, r.session);
  }

  lemma NextWorkers(p: Pool, q: Pool)
    requires KeysMatch(q) && AllNext(p, q) && |q.all| == |p.all|
    ensures Workers(q)
  {
  }

  lemma NextTransitive(p: Pool, q: Pool, r: Pool)
    requires AllNext(p, q) && AllNext(q, r)
    ensures AllNext(p, r)
  {
    forall ref | 0 <= ref < |p.all|
      ensures WorkerNext(p.all[ref], Registered(p, ref), r.all[ref], Registered(r, ref))
    {
      assert WorkerNext(p.all[ref], Registered(p, ref), q.all[ref], Registered(q, ref));
      assert WorkerNext(q.all[ref], Registered(q, ref), r.all[ref], Registered(r, ref));
    }
  }

  lemma AttachNext(p: Pool, ref: nat, session: Option<string>)
    requires Workers(p) && ref < |p.all| && Registered(p, ref)
    ensures AllNext(p, AttachTo(p, ref, session)) && Workers(AttachTo(p, ref, session))
  {
    var w := p.all[ref].(sessions := Attached(p.all[ref].sessions, session));
    UpdateNext(p, ref, w);
    UpdateKeepsKeys(p, ref, w);
    NextWorkers(p, AttachTo(p, ref, session));
  }

  lemma OpenNewNext(p: Pool, r: OpenRequest)
    requires Workers(p) && r.canonical !in p.byPath
    ensures AllNext(p, OpenNew(p, r).0) && Workers(OpenNew(p, r).0)
  {
    RegisterNext(p, r, ChosenId(p, r));
    NothingNext(p);
  }

  lemma NothingNext(p: Pool)
    requires Workers(p)
    ensures AllNext(p, p)
  {
  }

  lemma OpenNext(p: Pool, r: OpenRequest)
    requires Workers(p)
    ensures AllNext(p, Open(p, r).0) && Workers(Open(p, r).0)
  {
    if r.canonical in p.byPath && !p.all[p.byPath[r.canonical]].raw.Dead? {
      AttachNext(p, p.byPath[r.canonical], r.session);
    } else {
      var q := WithoutStale(p, r.canonical);
      WithoutStaleKeepsKeys(p, r.canonical);
      WithoutStaleNext(p, r.canonical);
      NextWorkers(p, q);
      OpenNewNext(q, r);
      NextTransitive(p, q, OpenNew(q, r).0);
    }
  }

  lemma CloseNext(p: Pool, database: string, canonical: string, session: Option<string>, force: bool)
    requires Workers(p)
    ensures AllNext(p, Close(p, database, canonical, session, force).0)
  {
    var found := Resolve(p, database, canonical);
    if found.Ok? {
      var w := p.all[found.value];
      var w' := w.(sessions := Detached(w.sessions, session));
      var q := Update(p, found.value, w');
      UpdateNext(p, found.value, w');
      UpdateKeepsKeys(p, found.value, w');
      NextWorkers(p, q);
      UnregisterNext(q, found.value);
      NextTransitive(p, q, Unregister(q, found.value));
    }
  }

  lemma DetachAllNext(p: Pool, leaving: string, terminate: bool)
    requires Workers(p)
    ensures AllNext(p, DetachAll(p, leaving, terminate))
  {
    var q := DetachAll(p, leaving, terminate);
    forall ref | 0 <= ref < |p.all|
      ensures WorkerNext(p.all[ref], Registered(p, ref), q.all[ref], Registered(q, ref))
    {
      assert q.all[ref] == DetachOne(p, ref, p.byPath.Keys, leaving, terminate);
    }
  }

  lemma RouteNext(p: Pool, database: string, canonical: string, session: Option<string>, blocked: bool)
    requires Workers(p)
    ensures AllNext(p, Route(p, database, canonical, session, blocked))
  {
    var found := Resolve(p, database, canonical);
    if found.Ok? {
      var w := p.all[found.value];
      UpdateNext(p, found.value, w.(sessions := Attached(w.sessions, session), activeCalls := w.activeCalls + 1));
    }
  }

  lemma AnalyzeNext(p: Pool, database: string, canonical: string, session: Option<string>)
    requires Workers(p)
    ensures AllNext(p, Analyze(p, database, canonical, session))
  {
    var found := Resolve(p, database, canonical);
    if found.Ok? {
      var w := p.all[found.value];
      AnalyzedWorkerNext(w, Registered(p, found.value), session);
      UpdateNext(p, found.value,
                 w.(sessions := Attached(w.sessions, session), passes := AnalysisTasks.Start(w.passes)));
    }
  }

  lemma AnalyzedWorkerNext(w: WorkerData, registered: bool, session: Option<string>)
    requires WorkerInv(w, registered) && registered
    ensures WorkerNext(w, registered,
                       w.(sessions := Attached(w.sessions, session), passes := AnalysisTasks.Start(w.passes)),
                       registered)
  {
    AnalysisTasks.StartKeepsInv(w.passes);
  }

  lemma WorkerStepNext(w: WorkerData, registered: bool, s: Step)
    requires WorkerInv(w, registered) && IsWorkerStep(s) && WorkerEnabled(w, s)
    ensures WorkerNext(w, registered, WorkerStep(w, s), registered && !s.RemoveSpawn? && !s.MarkDead?)
    ensures s.RemoveSpawn? ==> WorkerInv(WorkerStep(w, s), registered)
  {
    if s.Analysis? {
      AnalysisTasks.ApplyKeepsInv(w.passes, s.e, !Inactive(w.raw));
    }
  }

  lemma HeldStepNext(p: Pool, s: Step)
    requires Workers(p) && IsWorkerStep(s) && Enabled(p, s)
    ensures AllNext(p, HeldStep(p, s))
  {
    var q := HeldStep(p, s);
    WorkerStepNext(p.all[s.ref], Registered(p, s.ref), s);
    ChangeOneNext(p, q, s.ref);
  }

  /** Every step takes every worker along `WorkerNext`. */
  lemma StepNext(p: Pool, s: Step)
    requires Workers(p) && Enabled(p, s)
    ensures AllNext(p, Apply(p, s)) && Workers(Apply(p, s))
  {
    ApplyKeepsKeys(p, s);
    if s.OpenDatabase? {
      OpenNext(p, s.r);
    } else {
      OtherStepNext(p, s);
      OnlyOpenCreates(p, s);
      NextWorkers(p, Apply(p, s));
    }
  }

  lemma TerminateNext(p: Pool, path: string)
    requires Workers(p)
    ensures AllNext(p, TerminateAt(p, path))
  {
    if path in p.byPath {
      UnregisterNext(p, p.byPath[path]);
    }
  }

  lemma ForceCloseNext(p: Pool)
    requires Workers(p)
    ensures AllNext(p, ForceClose(p))
  {
    forall ref | 0 <= ref < |p.all|
      ensures WorkerNext(p.all[ref], Registered(p, ref), ForceClose(p).all[ref], Registered(ForceClose(p), ref))
    {
      assert WorkerInv(p.all[ref], Registered(p, ref));
    }
  }

  lemma OtherStepNext(p: Pool, s: Step)
    requires Workers(p) && Enabled(p, s) && !s.OpenDatabase?
    ensures AllNext(p, Apply(p, s))
  {
    if IsWorkerStep(s) {
      HeldStepNext(p, s);
    } else if s.CloseDatabase? {
      CloseNext(p, s.database, s.canonical, s.session, s.force);
    } else if s.BeginCall? {
      RouteNext(p, s.database, s.canonical, s.session, s.blocked);
    } else if s.AnalyzeCall? {
      AnalyzeNext(p, s.database, s.canonical, s.session);
    } else {
      BulkStepNext(p, s);
    }
  }

  lemma OnlyOpenCreates(p: Pool, s: Step)
    requires KeysMatch(p) && Enabled(p, s) && !s.OpenDatabase?
    ensures |Apply(p, s).all| == |p.all|
  {
  }

  lemma BulkStepNext(p: Pool, s: Step)
    requires Workers(p) && (s.Terminate? || s.ForceCloseRemaining? || s.DetachSession?)
    ensures AllNext(p, Apply(p, s))
  {
    if s.Terminate? {
      TerminateNext(p, s.path);
    } else if s.DetachSession? {
      DetachAllNext(p, s.leaving, s.terminate);
    } else {
      ForceCloseNext(p);
    }
  }

  // ---- Capacity ----------------------------------------------------------------------------------

  ghost predicate WithinCapacity(p: Pool)
    requires KeysMatch(p)
  {
    p.maxWorkers.Some? ==> |ActivePaths(p)| <= p.maxWorkers.value
  }

  /** A step that creates no worker activates none either. */
  lemma NoNewActivePaths(p: Pool, q: Pool)
    requires KeysMatch(p) && KeysMatch(q) && AllNext(p, q) && Extends(p, q) && |q.all| == |p.all|
    ensures ActivePaths(q) <= ActivePaths(p)
  {
    forall path | path in ActivePaths(q) ensures path in ActivePaths(p) {
      var ref := q.byPath[path];
      assert Registered(q, ref);
      assert Registered(p, ref);
    }
  }

  lemma RegisterKeepsCapacity(p: Pool, r: OpenRequest, id: string)
    requires KeysMatch(p) && !Full(p) && r.canonical !in p.byPath
    ensures KeysMatch(Register(p, r, id)) && WithinCapacity(Register(p, r, id))
  {
    RegisterKeepsKeys(p, r, id);
    var q := Register(p, r, id);
    assert ActivePaths(q) <= ActivePaths(p) + {r.canonical};
    SubsetIsSmaller(ActivePaths(q), ActivePaths(p) + {r.canonical});
  }

  lemma StaleKeepsCapacity(p: Pool, path: string)
    requires Workers(p) && WithinCapacity(p)
    ensures KeysMatch(WithoutStale(p, path)) && WithinCapacity(WithoutStale(p, path))
  {
    WithoutStaleKeepsKeys(p, path);
    WithoutStaleNext(p, path);
    NoNewActivePaths(p, WithoutStale(p, path));
    SubsetIsSmaller(ActivePaths(WithoutStale(p, path)), ActivePaths(p));
  }

  lemma OpenKeepsCapacity(p: Pool, r: OpenRequest)
    requires Workers(p) && WithinCapacity(p)
    ensures KeysMatch(Open(p, r).0) && WithinCapacity(Open(p, r).0)
  {
    if r.canonical in p.byPath && !p.all[p.byPath[r.canonical]].raw.Dead? {
      OpenKeepsKeys(p, r);
      assert ActivePaths(Open(p, r).0) == ActivePaths(p);
    } else {
      StaleKeepsCapacity(p, r.canonical);
      var q := WithoutStale(p, r.canonical);
      if !Full(q) {
        RegisterKeepsCapacity(q, r, ChosenId(q, r));
      }
    }
  }

  lemma StepKeepsCapacity(p: Pool, s: Step)
    requires Workers(p) && WithinCapacity(p) && Enabled(p, s)
    ensures KeysMatch(Apply(p, s)) && WithinCapacity(Apply(p, s))
  {
    ApplyKeepsKeys(p, s);
    if s.OpenDatabase? {
      OpenKeepsCapacity(p, s.r);
    } else {
      OtherStepNext(p, s);
      OnlyOpenCreates(p, s);
      NoNewActivePaths(p, Apply(p, s));
      SubsetIsSmaller(ActivePaths(Apply(p, s)), ActivePaths(p));
    }
  }

  // ---- Runs ----------------------------------------------------------------------------------------

  ghost predicate Inv(p: Pool) {
    Workers(p) && WithinCapacity(p)
  }

  lemma {:induction false} RunKeepsInv(p: Pool, steps: seq<Step>)
    requires Inv(p) && Legal(p, steps)
    ensures Inv(Run(p, steps)) && AllNextRun(p, Run(p, steps)) && Extends(p, Run(p, steps))
    decreases |steps|
  {
    if steps != [] {
      StepNext(p, steps[0]);
      StepKeepsCapacity(p, steps[0]);
      ApplyKeepsKeys(p, steps[0]);
      RunKeepsInv(Apply(p, steps[0]), steps[1..]);
    }
  }

  /** Registration, lifecycle and sessions across any number of steps. */
  ghost predicate AllNextRun(p: Pool, q: Pool) {
    && |p.all| <= |q.all|
    && forall ref | 0 <= ref < |p.all| ::
         && (Registered(q, ref) ==> Registered(p, ref) && Stage(p.all[ref].raw) <= Stage(q.all[ref].raw))
         && (!Registered(p, ref) ==> q.all[ref].sessions <= p.all[ref].sessions)
  }

  /** Capacity: no run ever has more live workers registered than the limit. */
  lemma CapacityHolds(maxWorkers: nat, steps: seq<Step>)
    requires Legal(Initial(Some(maxWorkers)), steps)
    ensures |ActivePaths(Run(Initial(Some(maxWorkers)), steps))| <= maxWorkers
  {
    assert ActivePaths(Initial(Some(maxWorkers))) == {};
    RunKeepsInv(Initial(Some(maxWorkers)), steps);
  }

  /**
   * In every run a registered worker that is idle or busy has a client, and no call is refused
   * for want of one.
   */
  lemma ActiveWorkerHasClient(maxWorkers: Option<nat>, steps: seq<Step>, ref: nat)
    requires Legal(Initial(maxWorkers), steps)
    requires var p := Run(Initial(maxWorkers), steps);
             ref < |p.all| && Registered(p, ref) && !Inactive(StateOf(p.all[ref]))
    ensures Run(Initial(maxWorkers), steps).all[ref].client
  {
    assert ActivePaths(Initial(maxWorkers)) == {};
    RunKeepsInv(Initial(maxWorkers), steps);
  }

  /** Death is final: no continuation of a run revives or re-registers a worker. */
  lemma LifecycleIsForward(maxWorkers: Option<nat>, steps: seq<Step>, more: seq<Step>, ref: nat)
    requires Legal(Initial(maxWorkers), steps)
    requires var p := Run(Initial(maxWorkers), steps); Legal(p, more) && ref < |p.all|
    ensures var p := Run(Initial(maxWorkers), steps); var q := Run(p, more);
            && ref < |q.all|
            && (Registered(q, ref) ==> Registered(p, ref) && Stage(p.all[ref].raw) <= Stage(q.all[ref].raw))
  {
    assert ActivePaths(Initial(maxWorkers)) == {};
    RunKeepsInv(Initial(maxWorkers), steps);
    RunKeepsInv(Run(Initial(maxWorkers), steps), more);
  }

  /** Once a worker has left the registry, no later step attaches a session to it. */
  lemma NoAttachAfterLeaving(maxWorkers: Option<nat>, steps: seq<Step>, more: seq<Step>, ref: nat)
    requires Legal(Initial(maxWorkers), steps)
    requires var p := Run(Initial(maxWorkers), steps);
             Legal(p, more) && ref < |p.all| && !Registered(p, ref)
    ensures var p := Run(Initial(maxWorkers), steps); var q := Run(p, more);
            ref < |q.all| && !Registered(q, ref) && q.all[ref].sessions <= p.all[ref].sessions
  {
    assert ActivePaths(Initial(maxWorkers)) == {};
    RunKeepsInv(Initial(maxWorkers), steps);
    RunKeepsInv(Run(Initial(maxWorkers), steps), more);
  }

  // ---- Sessions ---------------------------------------------------------------------------------------

  /** The session on whose behalf a step closes workers, if it is an unforced close by one. */
  function ClosingSession(s: Step): Option<string> {
    if s.CloseDatabase? && !s.force then s.session
    else if s.DetachSession? then Some(s.leaving)
    else None
  }

  lemma CloseSpares(p: Pool, database: string, canonical: string, session: Option<string>, ref: nat)
    requires KeysMatch(p) && ref < |p.all| && session.Some? && Registered(p, ref)
    requires var q := Close(p, database, canonical, session, false).0; ref < |q.all| ==> !Registered(q, ref)
    ensures p.all[ref].sessions <= {session.value}
  {
  }

  /**
   * Closing for a session, unforced, unregisters a worker only when no other session is
   * attached to it at that step.
   */
  lemma CloseSparesOtherSessions(p: Pool, s: Step, ref: nat)
    requires KeysMatch(p) && Enabled(p, s) && ref < |p.all|
    requires ClosingSession(s).Some?
    requires Registered(p, ref) && (ref < |Apply(p, s).all| ==> !Registered(Apply(p, s), ref))
    ensures p.all[ref].sessions <= {ClosingSession(s).value}
  {
    if s.DetachSession? {
      var q := DetachAll(p, s.leaving, s.terminate);
      assert q.all[ref] == DetachOne(p, ref, p.byPath.Keys, s.leaving, s.terminate);
      assert p.all[ref].path in p.byPath && p.all[ref].path !in q.byPath;
    } else {
      CloseSpares(p, s.database, s.canonical, s.session, ref);
    }
  }

  /** And it always leaves the closing session detached from every live worker it stays in. */
  lemma DetachLeavesNoTrace(p: Pool, leaving: string, terminate: bool, ref: nat)
    requires KeysMatch(p) && ref < |p.all|
    requires Registered(DetachAll(p, leaving, terminate), ref) && !p.all[ref].raw.Dead?
    ensures leaving !in DetachAll(p, leaving, terminate).all[ref].sessions
    ensures terminate && p.all[ref].sessions != {} ==> DetachAll(p, leaving, terminate).all[ref].sessions != {}
  {
    var q := DetachAll(p, leaving, terminate);
    assert q.all[ref] == DetachOne(p, ref, p.byPath.Keys, leaving, terminate);
    assert Registered(p, ref);
  }

  // ---- Analysis passes -----------------------------------------------------------------------------------

  /** In every run, at most one pass of a worker is unfinished. */
  lemma AtMostOnePass(maxWorkers: Option<nat>, steps: seq<Step>, ref: nat, t: nat, u: nat)
    requires Legal(Initial(maxWorkers), steps)
    requires var p := Run(Initial(maxWorkers), steps);
             && ref < |p.all|
             && t < |p.all[ref].passes.tasks| && p.all[ref].passes.tasks[t].status.Running?
             && u < |p.all[ref].passes.tasks| && p.all[ref].passes.tasks[u].status.Running?
    ensures t == u
  {
    assert ActivePaths(Initial(maxWorkers)) == {};
    RunKeepsInv(Initial(maxWorkers), steps);
    AnalysisTasks.AtMostOneRunning(Run(Initial(maxWorkers), steps).all[ref].passes, t, u);
  }

  /**
   * In every run, when a waiter starts a pass on demand, the worker is active and was not
   * seeded as analyzed, no earlier pass succeeded, and the last one started was cancelled.
   */
  lemma OnDemandPassIsNeeded(maxWorkers: Option<nat>, steps: seq<Step>, ref: nat)
    requires Legal(Initial(maxWorkers), steps)
    requires var p := Run(Initial(maxWorkers), steps);
             && ref < |p.all|
             && Apply(p, Analysis(ref, AnalysisTasks.Ensure)) != p
    ensures var w := Run(Initial(maxWorkers), steps).all[ref];
            && !Inactive(w.raw) && !w.passes.seeded
            && (forall t | 0 <= t < |w.passes.tasks| :: !w.passes.tasks[t].succeeded)
            && (w.passes.tasks != [] ==> w.passes.tasks[|w.passes.tasks| - 1].status.Cancelled?)
  {
    assert ActivePaths(Initial(maxWorkers)) == {};
    RunKeepsInv(Initial(maxWorkers), steps);
    var p := Run(Initial(maxWorkers), steps);
    var w := p.all[ref];
    assert p.all[ref := w] == p.all;
    AnalysisTasks.EnsureStartsOnlyAfterCancel(w.passes, !Inactive(w.raw));
  }
}
