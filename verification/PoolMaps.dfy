/**
 * The two dictionaries of the pool against each other: when path-to-worker and ID-to-path are
 * inverse, step by step and over whole runs.
 */
module PoolMaps {
  import opened Wrappers
  import opened DatabaseIds
  import opened PoolModel
  import AnalysisTasks

  /** Every registered worker is found under its ID, and every ID finds a worker that has it. */
  ghost predicate MapsInverse(p: Pool) {
    && KeysMatch(p)
    && (forall path | path in p.byPath ::
          var id := p.all[p.byPath[path]].id; id in p.idToPath && p.idToPath[id] == path)
    && (forall id | id in p.idToPath ::
          p.idToPath[id] in p.byPath && p.all[p.byPath[p.idToPath[id]]].id == id)
  }

  /** What a caller can look up before dropping a path and an ID: both bound together, or neither. */
  predicate CoherentPop(p: Pool, path: string, id: string) {
    (path in p.byPath <==> id in p.idToPath) && (path in p.byPath ==> p.idToPath[id] == path)
  }

  lemma PopExact(p: Pool, path: string, id: string)
    requires MapsInverse(p)
    ensures MapsInverse(PopEntries(p, path, id)) <==> CoherentPop(p, path, id)
  {
    var q := PopEntries(p, path, id);
    if path in p.byPath {
      var held := p.all[p.byPath[path]].id;
      assert held != id ==> held in q.idToPath && q.idToPath[held] == path;
    } else if id in p.idToPath {
      assert p.idToPath[id] in q.byPath;
    }
  }

  lemma UpdateKeepsMaps(p: Pool, ref: nat, w: WorkerData)
    requires KeysMatch(p) && ref < |p.all| && w.path == p.all[ref].path && w.id == p.all[ref].id
    ensures MapsInverse(Update(p, ref, w)) <==> MapsInverse(p)
  {
    var q := Update(p, ref, w);
    assert forall r | 0 <= r < |p.all| :: q.all[r].id == p.all[r].id && q.all[r].path == p.all[r].path;
  }

  lemma RegisteredPopIsCoherent(p: Pool, ref: nat)
    requires MapsInverse(p) && ref < |p.all| && Registered(p, ref)
    ensures CoherentPop(p, p.all[ref].path, p.all[ref].id)
  {
  }

  lemma UnregisterKeepsMaps(p: Pool, ref: nat)
    requires MapsInverse(p) && ref < |p.all| && Registered(p, ref)
    ensures MapsInverse(Unregister(p, ref))
  {
    var w := p.all[ref].(closing := true);
    UpdateKeepsMaps(p, ref, w);
    RegisteredPopIsCoherent(Update(p, ref, w), ref);
    PopExact(Update(p, ref, w), w.path, w.id);
  }

  lemma WithoutStaleKeepsMaps(p: Pool, path: string)
    requires MapsInverse(p)
    ensures MapsInverse(WithoutStale(p, path))
  {
    if path in p.byPath && p.all[p.byPath[path]].raw.Dead? {
      UnregisterKeepsMaps(p, p.byPath[path]);
    }
  }

  lemma RegisterExact(p: Pool, r: OpenRequest, id: string)
    requires MapsInverse(p) && r.canonical !in p.byPath
    ensures MapsInverse(Register(p, r, id)) <==> id !in p.idToPath
  {
    var q := Register(p, r, id);
    if id in p.idToPath {
      var path := p.idToPath[id];
      assert path in q.byPath && q.all[q.byPath[path]].id == id;
      assert q.idToPath[id] == r.canonical;
    } else {
      forall path | path in q.byPath
        ensures var k := q.all[q.byPath[path]].id; k in q.idToPath && q.idToPath[k] == path
      {
        if path != r.canonical {
          assert path in p.byPath;
        }
      }
    }
  }

  lemma DetachAllKeepsMaps(p: Pool, leaving: string, terminate: bool)
    requires MapsInverse(p)
    ensures MapsInverse(DetachAll(p, leaving, terminate))
  {
    var q := DetachAll(p, leaving, terminate);
    assert forall ref | 0 <= ref < |p.all| :: q.all[ref] == DetachOne(p, ref, p.byPath.Keys, leaving, terminate);
    var gone := EndedPaths(p, p.byPath.Keys, leaving, terminate);
    forall path | path in q.byPath
      ensures var id := q.all[q.byPath[path]].id; id in q.idToPath && q.idToPath[id] == path
    {
      var id := p.all[p.byPath[path]].id;
      assert forall other | other in gone :: p.idToPath[p.all[p.byPath[other]].id] == other;
      assert id in q.idToPath;
    }
    forall id | id in q.idToPath
      ensures q.idToPath[id] in q.byPath && q.all[q.byPath[q.idToPath[id]]].id == id
    {
      assert p.idToPath[id] !in gone;
    }
  }

  /** A custom ID was asked for, or one of the automatic candidates or their fallback is free. */
  predicate IdIsAvailable(p: Pool, r: OpenRequest)
    requires KeysMatch(p)
  {
    var base := NormalizeId(r.stem);
    r.customId != "" ||
    !(Candidates(base, LAST_SUFFIX) <= IdsInUse(p, r.canonical)
      && Fallback(base, r.clock) in IdsInUse(p, r.canonical))
  }

  lemma AvailableIdIsUnused(p: Pool, r: OpenRequest)
    requires KeysMatch(p) && Open(p, r).1.Opening?
    ensures IdIsAvailable(p, r) <==> ChosenId(WithoutStale(p, r.canonical), r) !in IdsInUse(p, r.canonical)
  {
    if r.customId == "" {
      UniqueIdExact(IdsInUse(p, r.canonical), NormalizeId(r.stem), r.clock);
    }
  }

  /** The steps that can part the two dictionaries, and the condition under which they do not. */
  ghost predicate CoherentStep(p: Pool, s: Step)
    requires KeysMatch(p) && Enabled(p, s)
  {
    if s.RemoveSpawn? || s.MarkDead? then CoherentPop(p, p.all[s.ref].path, p.all[s.ref].id)
    else if s.OpenDatabase? && Open(p, s.r).1.Opening? then IdIsAvailable(p, s.r)
    else true
  }

  lemma HeldPopExact(p: Pool, ref: nat, w: WorkerData)
    requires MapsInverse(p) && ref < |p.all| && w.path == p.all[ref].path && w.id == p.all[ref].id
    ensures MapsInverse(PopEntries(Update(p, ref, w), w.path, w.id)) <==> CoherentPop(p, w.path, w.id)
  {
    UpdateKeepsMaps(p, ref, w);
    PopExact(Update(p, ref, w), w.path, w.id);
  }

  lemma HeldStepExact(p: Pool, s: Step)
    requires MapsInverse(p) && IsWorkerStep(s) && Enabled(p, s)
    ensures MapsInverse(HeldStep(p, s)) <==> CoherentStep(p, s)
  {
    var w := WorkerStep(p.all[s.ref], s);
    UpdateKeepsMaps(p, s.ref, w);
    if s.RemoveSpawn? || s.MarkDead? {
      HeldPopExact(p, s.ref, w);
    }
  }

  lemma OpenExact(p: Pool, r: OpenRequest)
    requires MapsInverse(p)
    ensures MapsInverse(Open(p, r).0) <==> CoherentStep(p, OpenDatabase(r))
  {
    if r.canonical in p.byPath && !p.all[p.byPath[r.canonical]].raw.Dead? {
      var w := p.all[p.byPath[r.canonical]];
      UpdateKeepsMaps(p, p.byPath[r.canonical], w.(sessions := Attached(w.sessions, r.session)));
    } else {
      WithoutStaleKeepsMaps(p, r.canonical);
      FreshOpenExact(p, r, WithoutStale(p, r.canonical), ChosenId(WithoutStale(p, r.canonical), r));
      if Open(p, r).1.Opening? {
        AvailableIdIsUnused(p, r);
      }
    }
  }

  lemma FreshOpenExact(p: Pool, r: OpenRequest, q: Pool, id: string)
    requires KeysMatch(p) && MapsInverse(q) && r.canonical !in q.byPath
    requires Open(p, r).0 == q || (Open(p, r).0 == Register(q, r, id) && Open(p, r).1.Opening?)
    requires Open(p, r).1.Opening? ==> Open(p, r).0 == Register(q, r, id)
    ensures MapsInverse(Open(p, r).0) <==> (Open(p, r).1.Opening? ==> id !in q.idToPath)
  {
    RegisterExact(q, r, id);
  }

  lemma CloseKeepsMaps(p: Pool, database: string, canonical: string, session: Option<string>, force: bool)
    requires MapsInverse(p)
    ensures MapsInverse(Close(p, database, canonical, session, force).0)
  {
    var found := Resolve(p, database, canonical);
    if found.Ok? {
      var w := p.all[found.value].(sessions := Detached(p.all[found.value].sessions, session));
      UpdateKeepsMaps(p, found.value, w);
      UnregisterKeepsMaps(Update(p, found.value, w), found.value);
    }
  }

  lemma CallKeepsMaps(p: Pool, database: string, canonical: string, session: Option<string>, blocked: bool)
    requires MapsInverse(p)
    ensures MapsInverse(Route(p, database, canonical, session, blocked))
    ensures MapsInverse(Analyze(p, database, canonical, session))
  {
    RouteKeepsMaps(p, database, canonical, session, blocked);
    var found := Resolve(p, database, canonical);
    if found.Ok? {
      var w := p.all[found.value];
      UpdateKeepsMaps(p, found.value,
                      w.(sessions := Attached(w.sessions, session), passes := AnalysisTasks.Start(w.passes)));
    }
  }

  lemma RouteKeepsMaps(p: Pool, database: string, canonical: string, session: Option<string>, blocked: bool)
    requires MapsInverse(p)
    ensures MapsInverse(Route(p, database, canonical, session, blocked))
  {
    var found := Resolve(p, database, canonical);
    if found.Ok? {
      var w := p.all[found.value];
      UpdateKeepsMaps(p, found.value,
                      w.(sessions := Attached(w.sessions, session), activeCalls := w.activeCalls + 1));
    }
  }

  /** One step, exactly: the dictionaries stay inverse if and only if the step is coherent. */
  lemma StepExact(p: Pool, s: Step)
    requires MapsInverse(p) && Enabled(p, s)
    ensures MapsInverse(Apply(p, s)) <==> CoherentStep(p, s)
  {
    if IsWorkerStep(s) {
      HeldStepExact(p, s);
    } else if s.OpenDatabase? {
      OpenExact(p, s.r);
    } else if s.CloseDatabase? {
      CloseKeepsMaps(p, s.database, s.canonical, s.session, s.force);
    } else if s.BeginCall? {
      CallKeepsMaps(p, s.database, s.canonical, s.session, s.blocked);
    } else if s.AnalyzeCall? {
      CallKeepsMaps(p, s.database, s.canonical, s.session, false);
    } else if s.DetachSession? {
      DetachAllKeepsMaps(p, s.leaving, s.terminate);
    } else if s.Terminate? && s.path in p.byPath {
      UnregisterKeepsMaps(p, p.byPath[s.path]);
    }
  }

  // ---- Whole runs ------------------------------------------------------------------------------

  ghost predicate InverseThroughout(p: Pool, steps: seq<Step>)
    requires KeysMatch(p) && Legal(p, steps)
    decreases |steps|
  {
    MapsInverse(p) && (steps == [] || (ApplyKeepsKeys(p, steps[0]); InverseThroughout(Apply(p, steps[0]), steps[1..])))
  }

  ghost predicate CoherentRun(p: Pool, steps: seq<Step>)
    requires KeysMatch(p) && Legal(p, steps)
    decreases |steps|
  {
    steps == [] ||
    (CoherentStep(p, steps[0]) && (ApplyKeepsKeys(p, steps[0]); CoherentRun(Apply(p, steps[0]), steps[1..])))
  }

  lemma {:induction false} RunExact(p: Pool, steps: seq<Step>)
    requires MapsInverse(p) && Legal(p, steps)
    ensures InverseThroughout(p, steps) <==> CoherentRun(p, steps)
    ensures CoherentRun(p, steps) ==> MapsInverse(Run(p, steps))
    decreases |steps|
  {
    if steps != [] {
      ApplyKeepsKeys(p, steps[0]);
      StepExact(p, steps[0]);
      if MapsInverse(Apply(p, steps[0])) {
        RunExact(Apply(p, steps[0]), steps[1..]);
      }
    }
  }

  /** From an empty pool, the dictionaries are inverse in every state of exactly the coherent runs. */
  lemma MapsInverseExactly(maxWorkers: Option<nat>, steps: seq<Step>)
    requires Legal(Initial(maxWorkers), steps)
    ensures InverseThroughout(Initial(maxWorkers), steps) <==> CoherentRun(Initial(maxWorkers), steps)
  {
    RunExact(Initial(maxWorkers), steps);
  }

  // ---- When steps are coherent --------------------------------------------------------------------

  /** A removal hits a worker that is still registered, or one whose path and ID are both free. */
  lemma UnreboundRemovalIsCoherent(p: Pool, s: Step)
    requires MapsInverse(p) && Enabled(p, s) && (s.RemoveSpawn? || s.MarkDead?)
    requires Registered(p, s.ref) || (p.all[s.ref].path !in p.byPath && p.all[s.ref].id !in p.idToPath)
    ensures CoherentStep(p, s)
  {
    if Registered(p, s.ref) {
      RegisteredPopIsCoherent(p, s.ref);
    }
  }

  /** An ID picked automatically with fewer than 99 registered is coherent; so is any custom ID. */
  lemma OpenIsCoherent(p: Pool, r: OpenRequest)
    requires KeysMatch(p)
    requires r.customId != "" || |p.idToPath.Keys| < LAST_SUFFIX
    ensures CoherentStep(p, OpenDatabase(r))
  {
    if r.customId == "" && !IdIsAvailable(p, r) {
      var base := NormalizeId(r.stem);
      CandidateCount(base, LAST_SUFFIX);
      SubsetIsSmaller(Candidates(base, LAST_SUFFIX), p.idToPath.Keys);
      assert false;
    }
  }

  /**
   * What a run can be held to step by step: a removal hits a worker that is still registered, or
   * one whose path and ID nobody holds, and an automatic ID is picked with fewer than 99 in use.
   */
  ghost predicate CarefulStep(p: Pool, s: Step)
    requires Enabled(p, s)
  {
    && (s.RemoveSpawn? || s.MarkDead? ==>
          Registered(p, s.ref) || (p.all[s.ref].path !in p.byPath && p.all[s.ref].id !in p.idToPath))
    && (s.OpenDatabase? ==> s.r.customId != "" || |p.idToPath.Keys| < LAST_SUFFIX)
  }

  ghost predicate CarefulRun(p: Pool, steps: seq<Step>)
    requires KeysMatch(p) && Legal(p, steps)
    decreases |steps|
  {
    steps == [] ||
    (CarefulStep(p, steps[0]) && (ApplyKeepsKeys(p, steps[0]); CarefulRun(Apply(p, steps[0]), steps[1..])))
  }

  lemma {:induction false} CarefulRunStaysInverse(p: Pool, steps: seq<Step>)
    requires MapsInverse(p) && Legal(p, steps) && CarefulRun(p, steps)
    ensures InverseThroughout(p, steps)
    decreases |steps|
  {
    if steps != [] {
      var s := steps[0];
      ApplyKeepsKeys(p, s);
      if s.RemoveSpawn? || s.MarkDead? {
        UnreboundRemovalIsCoherent(p, s);
      } else if s.OpenDatabase? {
        OpenIsCoherent(p, s.r);
      }
      StepExact(p, s);
      CarefulRunStaysInverse(Apply(p, s), steps[1..]);
    }
  }

  /** In every careful run the dictionaries are inverse in every state. */
  lemma MapsInverseInCarefulRuns(maxWorkers: Option<nat>, steps: seq<Step>)
    requires Legal(Initial(maxWorkers), steps) && CarefulRun(Initial(maxWorkers), steps)
    ensures InverseThroughout(Initial(maxWorkers), steps)
  {
    CarefulRunStaysInverse(Initial(maxWorkers), steps);
  }

  // ---- The incoherent run exists --------------------------------------------------------------------

  /** A run can be continued by any step enabled where it ends. */
  lemma {:induction false} RunSnoc(p: Pool, steps: seq<Step>, s: Step)
    requires KeysMatch(p) && Legal(p, steps) && Enabled(Run(p, steps), s)
    ensures Legal(p, steps + [s]) && Run(p, steps + [s]) == Apply(Run(p, steps), s)
    decreases |steps|
  {
    if steps == [] {
      ApplyKeepsKeys(p, s);
      assert [] + [s] == [s] && [s][1..] == [];
      assert Legal(Apply(p, s), []);
    } else {
      ApplyKeepsKeys(p, steps[0]);
      RunSnoc(Apply(p, steps[0]), steps[1..], s);
      assert (steps + [s])[1..] == steps[1..] + [s];
    }
  }

  /** `steps` is a run from the empty pool that ends in `p`. */
  ghost predicate Leads(steps: seq<Step>, p: Pool) {
    Legal(Initial(None), steps) && Run(Initial(None), steps) == p
  }

  lemma Extend(steps: seq<Step>, p: Pool, s: Step, q: Pool)
    requires Leads(steps, p) && KeysMatch(p) && Enabled(p, s) && Apply(p, s) == q
    ensures Leads(steps + [s], q)
  {
    RunSnoc(Initial(None), steps, s);
  }

  /** A pool with one worker, registered under its path and ID. */
  function Alone(w: WorkerData): Pool {
    Pool([w], map[w.path := 0], map[w.id := w.path], None)
  }

  function OpenedWorker(id: string, path: string): WorkerData {
    NewWorker(id, path, false, None).(raw := Idle, client := true, spawn := Opened)
  }

  /** A worker opened under `id`, with a call in flight. */
  function CallingWorker(id: string, path: string): WorkerData {
    OpenedWorker(id, path).(spawn := Ended, watched := true, activeCalls := 1)
  }

  lemma OpenAlone(path: string, id: string)
    requires id != "" && AcceptsCustomId(id)
    ensures Leads([OpenDatabase(CustomRequest(path, id))], Alone(NewWorker(id, path, false, None)))
  {
    var s := OpenDatabase(CustomRequest(path, id));
    assert WithoutStale(Initial(None), path) == Initial(None);
    Extend([], Initial(None), s, Alone(NewWorker(id, path, false, None)));
    assert [] + [s] == [s];
  }

  lemma CommitAlone(id: string, path: string)
    ensures Apply(Alone(NewWorker(id, path, false, None)), CommitSpawn(0, false)) == Alone(OpenedWorker(id, path))
  {
  }

  lemma FinishAlone(id: string, path: string)
    ensures Apply(Alone(OpenedWorker(id, path)), FinishSpawn(0))
         == Alone(CallingWorker(id, path).(activeCalls := 0))
  {
  }

  lemma CallAlone(id: string, path: string)
    requires id != ""
    ensures Apply(Alone(CallingWorker(id, path).(activeCalls := 0)), BeginCall(id, path, None, false))
         == Alone(CallingWorker(id, path))
  {
    var p := Alone(CallingWorker(id, path).(activeCalls := 0));
    assert path in p.byPath && id in p.idToPath;
    assert Resolve(p, id, path) == Ok(0);
  }

  /** A worker opens and takes a call. */
  lemma Serve(path: string, id: string) returns (steps: seq<Step>)
    requires id != "" && AcceptsCustomId(id)
    ensures Leads(steps, Alone(CallingWorker(id, path)))
  {
    OpenAlone(path, id);
    steps := [OpenDatabase(CustomRequest(path, id))];
    CommitAlone(id, path);
    Extend(steps, Alone(NewWorker(id, path, false, None)), CommitSpawn(0, false), Alone(OpenedWorker(id, path)));
    steps := steps + [CommitSpawn(0, false)];
    FinishAlone(id, path);
    Extend(steps, Alone(OpenedWorker(id, path)), FinishSpawn(0), Alone(CallingWorker(id, path).(activeCalls := 0)));
    steps := steps + [FinishSpawn(0)];
    CallAlone(id, path);
    Extend(steps, Alone(CallingWorker(id, path).(activeCalls := 0)), BeginCall(id, path, None, false),
           Alone(CallingWorker(id, path)));
    steps := steps + [BeginCall(id, path, None, false)];
  }

  /** The pool after the path of a dead worker with a call in flight has been opened under another ID. */
  function Reopened(path: string, id: string, other: string): Pool {
    Pool([CallingWorker(id, path).(raw := Dead, closing := true), NewWorker(other, path, false, None)],
         map[path := 1], map[other := path], None)
  }

  lemma ReopenDead(path: string, id: string, other: string)
    requires other != "" && AcceptsCustomId(other)
    ensures Apply(Alone(CallingWorker(id, path).(raw := Dead)), OpenDatabase(CustomRequest(path, other)))
         == Reopened(path, id, other)
  {
    var p := Alone(CallingWorker(id, path).(raw := Dead));
    assert WithoutStale(p, path) == Pool([CallingWorker(id, path).(raw := Dead, closing := true)], map[], map[], None);
  }

  lemma StaleRemoval(path: string, id: string, other: string)
    requires id != other
    ensures var q := Apply(Reopened(path, id, other), MarkDead(0));
            (q.byPath == map[] && q.idToPath == map[other := path])
  {
  }

  /**
   * A call is in flight when its worker dies; the path is opened again under another ID; then
   * the call fails and removes "its" worker. The new worker loses its path and keeps its ID.
   */
  lemma StaleRemovalBreaksMaps(path: string, id: string, other: string) returns (steps: seq<Step>)
    requires id != other && id != "" && other != "" && AcceptsCustomId(id) && AcceptsCustomId(other)
    ensures Legal(Initial(None), steps)
    ensures var p := Run(Initial(None), steps);
            (p.byPath == map[] && p.idToPath == map[other := path] && !MapsInverse(p))
  {
    steps := Serve(path, id);
    var dead := Alone(CallingWorker(id, path).(raw := Dead));
    Extend(steps, Alone(CallingWorker(id, path)), DeathWatch(0), dead);
    steps := steps + [DeathWatch(0)];
    ReopenDead(path, id, other);
    Extend(steps, dead, OpenDatabase(CustomRequest(path, other)), Reopened(path, id, other));
    steps := steps + [OpenDatabase(CustomRequest(path, other))];
    StaleRemoval(path, id, other);
    Extend(steps, Reopened(path, id, other), MarkDead(0), Apply(Reopened(path, id, other), MarkDead(0)));
    steps := steps + [MarkDead(0)];
    var p := Run(Initial(None), steps);
    assert other in p.idToPath && p.idToPath[other] !in p.byPath;
  }
}
