/**
 * Workers that nobody will end: they have left the registry, no step has undertaken to close
 * them, and they are not dead. Exactly the removals that create them.
 */
module PoolOrphans {
  import opened Wrappers
  import opened DatabaseIds
  import opened PoolModel
  import opened PoolMaps
  import AnalysisTasks

  /** The worker's own tasks have ended it: it was abandoned or removed while it was opening. */
  predicate GivenUp(w: WorkerData) {
    w.spawn.Ended? && !w.watched
  }

  /** The worker is live, and nothing has undertaken to end it. */
  predicate Unattended(w: WorkerData) {
    !w.raw.Dead? && !w.closing && !GivenUp(w)
  }

  /** Every such worker is registered, so that a close, a detach or the shutdown will find it. */
  ghost predicate NoOrphans(p: Pool) {
    forall ref | 0 <= ref < |p.all| && Unattended(p.all[ref]) :: Registered(p, ref)
  }

  /** What holds of every worker: it dies only once it is being closed or its opening has ended. */
  predicate Sound(w: WorkerData) {
    && (w.raw.Dead? ==> w.closing || w.spawn.Ended?)
    && (w.watched ==> w.spawn.Ended?)
  }

  ghost predicate AllSound(p: Pool) {
    KeysMatch(p) && forall ref | 0 <= ref < |p.all| :: Sound(p.all[ref])
  }

  /** The step drops the entry of a worker other than its own, and that one is still needed. */
  predicate Evicts(p: Pool, s: Step)
    requires KeysMatch(p) && Enabled(p, s)
  {
    && (s.RemoveSpawn? || s.MarkDead?)
    && var path := p.all[s.ref].path;
    && path in p.byPath && p.byPath[path] != s.ref && Unattended(p.all[p.byPath[path]])
  }

  // ---- One step ----------------------------------------------------------------------------------

  /** A worker keeps its soundness, and once attended to stays so. */
  predicate Follows(w: WorkerData, w': WorkerData) {
    Sound(w') && (Unattended(w') ==> Unattended(w))
  }

  lemma WorkerStepFollows(w: WorkerData, s: Step)
    requires Sound(w) && IsWorkerStep(s) && WorkerEnabled(w, s)
    ensures Follows(w, WorkerStep(w, s))
    ensures s.RemoveSpawn? || s.MarkDead? ==> !Unattended(WorkerStep(w, s))
  {
  }

  /** Nothing else than a held removal unregisters a worker it leaves unattended. */
  ghost predicate Gentle(p: Pool, q: Pool) {
    && KeysMatch(q) && |p.all| <= |q.all|
    && (forall ref | 0 <= ref < |p.all| ::
          Follows(p.all[ref], q.all[ref])
          && (Registered(p, ref) && Unattended(q.all[ref]) ==> Registered(q, ref)))
    && (forall ref | |p.all| <= ref < |q.all| :: Sound(q.all[ref]) && (Unattended(q.all[ref]) ==> Registered(q, ref)))
  }

  lemma GentleKeeps(p: Pool, q: Pool)
    requires AllSound(p) && NoOrphans(p) && Gentle(p, q)
    ensures AllSound(q) && NoOrphans(q)
  {
    forall ref | 0 <= ref < |q.all|
      ensures Sound(q.all[ref]) && (Unattended(q.all[ref]) ==> Registered(q, ref))
    {
      if ref < |p.all| {
        assert Follows(p.all[ref], q.all[ref]);
      }
    }
  }

  lemma UpdateGentle(p: Pool, ref: nat, w: WorkerData)
    requires AllSound(p) && ref < |p.all| && w.path == p.all[ref].path && w.id == p.all[ref].id
    requires Follows(p.all[ref], w)
    ensures Gentle(p, Update(p, ref, w))
  {
    UpdateKeepsKeys(p, ref, w);
  }

  lemma UnregisterGentle(p: Pool, ref: nat)
    requires AllSound(p) && ref < |p.all|
    requires p.all[ref].path in p.byPath ==> p.byPath[p.all[ref].path] == ref
    ensures Gentle(p, Unregister(p, ref))
  {
    UnregisterKeepsKeys(p, ref);
  }

  lemma GentleTransitive(p: Pool, q: Pool, r: Pool)
    requires Gentle(p, q) && Gentle(q, r)
    ensures Gentle(p, r)
  {
    forall ref | 0 <= ref < |p.all|
      ensures Follows(p.all[ref], r.all[ref])
      ensures Registered(p, ref) && Unattended(r.all[ref]) ==> Registered(r, ref)
    {
      assert Follows(p.all[ref], q.all[ref]) && Follows(q.all[ref], r.all[ref]);
    }
    forall ref | |p.all| <= ref < |r.all|
      ensures Sound(r.all[ref]) && (Unattended(r.all[ref]) ==> Registered(r, ref))
    {
      assert ref < |q.all| ==> Follows(q.all[ref], r.all[ref]);
    }
  }

  lemma OpenGentle(p: Pool, r: OpenRequest)
    requires AllSound(p)
    ensures Gentle(p, Open(p, r).0)
  {
    if r.canonical in p.byPath && !p.all[p.byPath[r.canonical]].raw.Dead? {
      var w := p.all[p.byPath[r.canonical]];
      UpdateGentle(p, p.byPath[r.canonical], w.(sessions := Attached(w.sessions, r.session)));
    } else {
      var q := WithoutStale(p, r.canonical);
      StaleGentle(p, r.canonical);
      OpenNewGentle(q, r);
      GentleTransitive(p, q, OpenNew(q, r).0);
    }
  }

  lemma StaleGentle(p: Pool, path: string)
    requires AllSound(p)
    ensures Gentle(p, WithoutStale(p, path)) && AllSound(WithoutStale(p, path))
  {
    WithoutStaleKeepsKeys(p, path);
    if path in p.byPath && p.all[p.byPath[path]].raw.Dead? {
      UnregisterGentle(p, p.byPath[path]);
      assert forall ref | 0 <= ref < |p.all| :: Follows(p.all[ref], WithoutStale(p, path).all[ref]);
    }
  }

  lemma OpenNewGentle(p: Pool, r: OpenRequest)
    requires AllSound(p) && (r.canonical in p.byPath ==> p.all[p.byPath[r.canonical]].raw.Dead?)
    ensures Gentle(p, OpenNew(p, r).0)
  {
    RegisterKeepsKeys(p, r, ChosenId(p, r));
  }

  lemma CloseGentle(p: Pool, database: string, canonical: string, session: Option<string>, force: bool)
    requires AllSound(p)
    ensures Gentle(p, Close(p, database, canonical, session, force).0)
  {
    var found := Resolve(p, database, canonical);
    if found.Ok? {
      var ref := found.value;
      var w := p.all[ref].(sessions := Detached(p.all[ref].sessions, session));
      var q := Update(p, ref, w);
      UpdateGentle(p, ref, w);
      UpdateKeepsKeys(p, ref, w);
      assert AllSound(q);
      UnregisterGentle(q, ref);
      GentleTransitive(p, q, Unregister(q, ref));
    }
  }

  lemma NothingGentle(p: Pool)
    requires AllSound(p)
    ensures Gentle(p, p)
  {
  }

  lemma RouteGentle(p: Pool, database: string, canonical: string, session: Option<string>, blocked: bool)
    requires AllSound(p)
    ensures Gentle(p, Route(p, database, canonical, session, blocked))
  {
    NothingGentle(p);
    var found := Resolve(p, database, canonical);
    if found.Ok? {
      var w := p.all[found.value];
      UpdateGentle(p, found.value, w.(sessions := Attached(w.sessions, session), activeCalls := w.activeCalls + 1));
    }
  }

  lemma AnalyzeGentle(p: Pool, database: string, canonical: string, session: Option<string>)
    requires AllSound(p)
    ensures Gentle(p, Analyze(p, database, canonical, session))
  {
    NothingGentle(p);
    var found := Resolve(p, database, canonical);
    if found.Ok? {
      var w := p.all[found.value];
      UpdateGentle(p, found.value,
                   w.(sessions := Attached(w.sessions, session), passes := AnalysisTasks.Start(w.passes)));
    }
  }

  lemma DetachAllGentle(p: Pool, leaving: string, terminate: bool)
    requires AllSound(p)
    ensures Gentle(p, DetachAll(p, leaving, terminate))
  {
    var q := DetachAll(p, leaving, terminate);
    DetachAllKeepsKeys(p, leaving, terminate);
    forall ref | 0 <= ref < |p.all|
      ensures Follows(p.all[ref], q.all[ref])
      ensures Registered(p, ref) && Unattended(q.all[ref]) ==> Registered(q, ref)
    {
      assert q.all[ref] == DetachOne(p, ref, p.byPath.Keys, leaving, terminate);
    }
  }

  lemma BulkGentle(p: Pool, s: Step)
    requires AllSound(p) && (s.Terminate? || s.ForceCloseRemaining?)
    ensures Gentle(p, Apply(p, s))
  {
    if s.Terminate? && s.path in p.byPath {
      UnregisterGentle(p, p.byPath[s.path]);
    }
  }

  lemma HeldGentle(p: Pool, s: Step)
    requires AllSound(p) && IsWorkerStep(s) && Enabled(p, s) && !s.RemoveSpawn? && !s.MarkDead?
    ensures Gentle(p, HeldStep(p, s))
  {
    var w := WorkerStep(p.all[s.ref], s);
    WorkerStepFollows(p.all[s.ref], s);
    UpdateGentle(p, s.ref, w);
  }

  /** Every step but a held removal is gentle. */
  lemma StepGentle(p: Pool, s: Step)
    requires AllSound(p) && Enabled(p, s) && !s.RemoveSpawn? && !s.MarkDead?
    ensures Gentle(p, Apply(p, s))
  {
    match s
    case OpenDatabase(r) => OpenGentle(p, r);
    case BeginCall(database, canonical, session, blocked) => RouteGentle(p, database, canonical, session, blocked);
    case AnalyzeCall(database, canonical, session) => AnalyzeGentle(p, database, canonical, session);
    case Terminate(_) => BulkGentle(p, s);
    case ForceCloseRemaining => BulkGentle(p, s);
    case CloseDatabase(database, canonical, session, force) => CloseGentle(p, database, canonical, session, force);
    case DetachSession(leaving, terminate) => DetachAllGentle(p, leaving, terminate);
    case _ => HeldGentle(p, s);
  }

  lemma RemovalIsSound(p: Pool, s: Step)
    requires AllSound(p) && Enabled(p, s) && (s.RemoveSpawn? || s.MarkDead?)
    ensures AllSound(HeldStep(p, s))
  {
    WorkerStepFollows(p.all[s.ref], s);
    HeldStepKeepsKeys(p, s);
  }

  lemma RemovalExact(p: Pool, s: Step)
    requires AllSound(p) && NoOrphans(p) && Enabled(p, s) && (s.RemoveSpawn? || s.MarkDead?)
    ensures NoOrphans(HeldStep(p, s)) <==> !Evicts(p, s)
  {
    var q := HeldStep(p, s);
    var path := p.all[s.ref].path;
    WorkerStepFollows(p.all[s.ref], s);
    assert forall ref | 0 <= ref < |p.all| && ref != s.ref :: q.all[ref] == p.all[ref];
    assert !Unattended(q.all[s.ref]);
    if Evicts(p, s) {
      var victim := p.byPath[path];
      assert Unattended(q.all[victim]) && !Registered(q, victim);
    } else {
      forall ref | 0 <= ref < |q.all| && Unattended(q.all[ref]) ensures Registered(q, ref) {
        assert ref != s.ref && Registered(p, ref);
      }
    }
  }

  /** One step leaves no orphan exactly when it does not evict a worker that is still needed. */
  lemma StepExactly(p: Pool, s: Step)
    requires AllSound(p) && NoOrphans(p) && Enabled(p, s)
    ensures AllSound(Apply(p, s))
    ensures NoOrphans(Apply(p, s)) <==> !Evicts(p, s)
  {
    if s.RemoveSpawn? || s.MarkDead? {
      RemovalIsSound(p, s);
      RemovalExact(p, s);
    } else {
      StepGentle(p, s);
      GentleKeeps(p, Apply(p, s));
    }
  }

  // ---- Runs ------------------------------------------------------------------------------------------

  ghost predicate NoOrphansThroughout(p: Pool, steps: seq<Step>)
    requires KeysMatch(p) && Legal(p, steps)
    decreases |steps|
  {
    NoOrphans(p) &&
    (steps == [] || (ApplyKeepsKeys(p, steps[0]); NoOrphansThroughout(Apply(p, steps[0]), steps[1..])))
  }

  ghost predicate NoEvictions(p: Pool, steps: seq<Step>)
    requires KeysMatch(p) && Legal(p, steps)
    decreases |steps|
  {
    steps == [] ||
    (!Evicts(p, steps[0]) && (ApplyKeepsKeys(p, steps[0]); NoEvictions(Apply(p, steps[0]), steps[1..])))
  }

  lemma {:induction false} RunExactly(p: Pool, steps: seq<Step>)
    requires AllSound(p) && NoOrphans(p) && Legal(p, steps)
    ensures NoOrphansThroughout(p, steps) <==> NoEvictions(p, steps)
    decreases |steps|
  {
    if steps != [] {
      ApplyKeepsKeys(p, steps[0]);
      StepExactly(p, steps[0]);
      if NoOrphans(Apply(p, steps[0])) {
        RunExactly(Apply(p, steps[0]), steps[1..]);
      }
    }
  }

  /**
   * Every worker that is live and unattended is registered in all states of exactly those runs
   * whose removals hit an unbound path, their own worker, or one that is dead or given up.
   */
  lemma OrphansExactly(maxWorkers: Option<nat>, steps: seq<Step>)
    requires Legal(Initial(maxWorkers), steps)
    ensures NoOrphansThroughout(Initial(maxWorkers), steps) <==> NoEvictions(Initial(maxWorkers), steps)
  {
    RunExactly(Initial(maxWorkers), steps);
  }

  // ---- An orphan that leaves the dictionaries inverse --------------------------------------------------

  lemma SameIdRemoval(path: string, id: string)
    ensures var q := Apply(Reopened(path, id, id), MarkDead(0));
            && q.byPath == map[] && q.idToPath == map[] && |q.all| == 2
            && q.all[1] == NewWorker(id, path, false, None)
  {
  }

  /**
   * A call is in flight when its worker dies; the path is opened again and gets the same ID; then
   * the call fails. The dictionaries stay inverse, and the new worker is an orphan.
   */
  lemma StaleRemovalOrphans(path: string, id: string) returns (steps: seq<Step>)
    requires id != "" && AcceptsCustomId(id)
    ensures Legal(Initial(None), steps)
    ensures var p := Run(Initial(None), steps);
            && MapsInverse(p) && p.byPath == map[] && |p.all| == 2
            && Unattended(p.all[1]) && !Registered(p, 1) && p.all[1].spawn.Spawning?
  {
    var dead := Alone(CallingWorker(id, path).(raw := Dead));
    steps := Serve(path, id);
    Extend(steps, Alone(CallingWorker(id, path)), DeathWatch(0), dead);
    steps := steps + [DeathWatch(0)];
    ReopenDead(path, id, id);
    Extend(steps, dead, OpenDatabase(CustomRequest(path, id)), Reopened(path, id, id));
    steps := steps + [OpenDatabase(CustomRequest(path, id))];
    SameIdRemoval(path, id);
    Extend(steps, Reopened(path, id, id), MarkDead(0), Apply(Reopened(path, id, id), MarkDead(0)));
    steps := steps + [MarkDead(0)];
  }
}
