/**
 * The outcome of every pool operation and the pool it leaves, stated field by field: who is
 * refused and why, who is created, who loses a session, and who leaves the registry.
 */
module PoolOutcomes {
  import opened Wrappers
  import opened DatabaseIds
  import opened PoolModel
  import AnalysisTasks

  // ---- Opening ---------------------------------------------------------------------------------

  /** A worker that is not dead is registered under the path. */
  predicate IsLiveAt(p: Pool, path: string)
    requires KeysMatch(p)
  {
    path in p.byPath && p.all[p.byPath[path]].raw != Dead
  }

  /** The limit is reached by the registered workers that are not dead. */
  predicate AtLimit(p: Pool)
    requires KeysMatch(p)
  {
    p.maxWorkers.Some? && |set path | path in p.byPath && p.all[p.byPath[path]].raw != Dead| >= p.maxWorkers.value
  }

  /** The ID is one of a registered entry, other than that of the (dead) worker under the path. */
  predicate IsTaken(p: Pool, path: string, id: string)
    requires KeysMatch(p)
  {
    id in p.idToPath && !(path in p.byPath && p.all[p.byPath[path]].id == id)
  }

  /** The pattern `^[a-z][a-z0-9_]{0,31}$`: such an ID, or one followed by a newline. */
  ghost predicate FitsPattern(id: string) {
    || IsDatabaseId(id)
    || (exists core: string :: IsDatabaseId(core) && id == core + "\n")
  }

  lemma FitsExactly(id: string)
    ensures AcceptsCustomId(id) <==> FitsPattern(id)
  {
    CustomIdExact(id);
    if EndsInNewline(id) && IsDatabaseId(id[..|id| - 1]) {
      assert id == id[..|id| - 1] + "\n";
    }
    if core: string :| IsDatabaseId(core) && id == core + "\n" {
      assert id[..|id| - 1] == core;
    }
  }

  lemma StaleLeavesLimit(p: Pool, path: string)
    requires KeysMatch(p) && !IsLiveAt(p, path)
    ensures KeysMatch(WithoutStale(p, path)) && (Full(WithoutStale(p, path)) <==> AtLimit(p))
  {
    WithoutStaleKeepsKeys(p, path);
    var q := WithoutStale(p, path);
    assert ActivePaths(q) == set k | k in p.byPath && p.all[p.byPath[k]].raw != Dead;
  }

  lemma StaleLeavesIds(p: Pool, path: string, id: string)
    requires KeysMatch(p) && !IsLiveAt(p, path)
    ensures id in WithoutStale(p, path).idToPath <==> IsTaken(p, path, id)
  {
  }

  /**
   * Which outcome an opening has. It joins a live worker under the path; otherwise it is refused
   * for the limit, the pattern or a taken ID, in this order, and for nothing else.
   */
  lemma OpenOutcomeExactly(p: Pool, r: OpenRequest)
    requires KeysMatch(p)
    ensures var outcome, live := Open(p, r).1, IsLiveAt(p, r.canonical);
            var custom, badId := r.customId != "", !FitsPattern(r.customId);
            var taken := IsTaken(p, r.canonical, r.customId);
            && (live ==> outcome == if p.all[p.byPath[r.canonical]].raw == Starting
                                    then AlreadyOpening(p.byPath[r.canonical])
                                    else AlreadyOpen(p.byPath[r.canonical]))
            && (outcome == ResourceExhausted <==> !live && AtLimit(p))
            && (outcome == InvalidArgument <==> !live && !AtLimit(p) && custom && badId)
            && (outcome == DuplicateId <==> !live && !AtLimit(p) && custom && !badId && taken)
            && (outcome == Opening(|p.all|) <==> !live && !AtLimit(p) && (custom ==> !badId && !taken))
  {
    if !IsLiveAt(p, r.canonical) {
      StaleLeavesLimit(p, r.canonical);
      StaleLeavesIds(p, r.canonical, r.customId);
      FitsExactly(r.customId);
    }
  }

  /** What the caller is told. */
  lemma OpenStatusExactly(p: Pool, r: OpenRequest)
    requires KeysMatch(p)
    ensures var status, live := StatusOf(Open(p, r).1), IsLiveAt(p, r.canonical);
            && (live && p.all[p.byPath[r.canonical]].raw == Starting ==> status == "already_opening")
            && (live && p.all[p.byPath[r.canonical]].raw != Starting ==> status == "already_open")
            && (!live && AtLimit(p) ==> status == "ResourceExhausted")
            && (!live && !AtLimit(p) && r.customId != "" && !FitsPattern(r.customId) ==> status == "InvalidArgument")
            && (!live && !AtLimit(p) && FitsPattern(r.customId) && IsTaken(p, r.canonical, r.customId) ==>
                  status == "DuplicateId")
            && (!live && !AtLimit(p) && FitsPattern(r.customId) && !IsTaken(p, r.canonical, r.customId) ==>
                  status == "opening")
            && (!live && !AtLimit(p) && r.customId == "" ==> status == "opening")
  {
    OpenOutcomeExactly(p, r);
    FitsExactly(r.customId);
  }

  /** What an opening does to the worker it joins: it attaches the session, and nothing else. */
  lemma JoiningExactly(p: Pool, r: OpenRequest)
    requires KeysMatch(p) && IsLiveAt(p, r.canonical)
    ensures var q, ref := Open(p, r).0, p.byPath[r.canonical];
            && q == p.(all := p.all[ref := p.all[ref].(sessions := q.all[ref].sessions)])
            && forall s :: s in q.all[ref].sessions <==> s in p.all[ref].sessions || r.session == Some(s)
  {
  }

  /** A refusal, like a creation, drops the dead worker under the path and touches nobody else. */
  lemma RefusalExactly(p: Pool, r: OpenRequest)
    requires KeysMatch(p)
    requires Open(p, r).1.ResourceExhausted? || Open(p, r).1.InvalidArgument? || Open(p, r).1.DuplicateId?
    ensures var q := Open(p, r).0;
            q == if r.canonical !in p.byPath then p else
                 var ref := p.byPath[r.canonical];
                 Pool(p.all[ref := p.all[ref].(closing := true)], p.byPath - {r.canonical},
                      p.idToPath - {p.all[ref].id}, p.maxWorkers)
  {
  }

  lemma CreationBase(p: Pool, r: OpenRequest)
    requires KeysMatch(p) && Open(p, r).1.Opening?
    ensures var q, id := WithoutStale(p, r.canonical), ChosenId(WithoutStale(p, r.canonical), r);
            Open(p, r) == (Register(q, r, id), Opening(|p.all|)) && !IsLiveAt(p, r.canonical)
  {
  }

  /**
   * The worker an opening creates: starting, without a client or calls, with its one session. It
   * is entered under the path, and its ID leads to the path.
   */
  lemma CreationExactly(p: Pool, r: OpenRequest)
    requires KeysMatch(p) && Open(p, r).1.Opening?
    ensures var q := Open(p, r).0;
            && |q.all| == |p.all| + 1
            && (forall ref | 0 <= ref < |p.all| ::
                  q.all[ref] == if r.canonical in p.byPath && p.byPath[r.canonical] == ref
                                then p.all[ref].(closing := true) else p.all[ref])
            && var w := q.all[|p.all|];
            && w == WorkerData(w.id, r.canonical, Starting, false, 0, w.sessions, Spawning, r.runAutoAnalysis,
                               false, false, AnalysisTasks.Passes([], None, false, None, false))
            && (forall s :: s in w.sessions <==> r.session == Some(s))
            && q.byPath == p.byPath[r.canonical := |p.all|] && q.maxWorkers == p.maxWorkers
            && w.id in q.idToPath && q.idToPath[w.id] == r.canonical
            && (forall id | id != w.id :: id in q.idToPath <==> IsTaken(p, r.canonical, id))
            && (forall id | id != w.id && IsTaken(p, r.canonical, id) :: q.idToPath[id] == p.idToPath[id])
  {
    CreationBase(p, r);
  }

  /** Its ID: the one asked for, or the one picked against the IDs of the other registered workers. */
  lemma CreatedIdExactly(p: Pool, r: OpenRequest)
    requires KeysMatch(p) && Open(p, r).1.Opening?
    ensures var q, used := Open(p, r).0, set id | id in p.idToPath && IsTaken(p, r.canonical, id);
            && |q.all| == |p.all| + 1
            && q.all[|p.all|].id == if r.customId != "" then r.customId
                                    else UniqueId(used, NormalizeId(r.stem), r.clock)
  {
    CreationBase(p, r);
    var q := WithoutStale(p, r.canonical);
    forall id ensures id in q.idToPath <==> IsTaken(p, r.canonical, id) {
      StaleLeavesIds(p, r.canonical, id);
    }
    assert q.idToPath.Keys == set id | id in p.idToPath && IsTaken(p, r.canonical, id);
  }

  // ---- Closing ---------------------------------------------------------------------------------

  /** The outcome of a close on a worker it has found. */
  lemma CloseOutcomeExactly(p: Pool, ref: nat, session: Option<string>, force: bool)
    requires KeysMatch(p) && ref < |p.all|
    ensures var outcome, sessions := CloseOn(p, ref, session, force).1, p.all[ref].sessions;
            var stranger := session.Some? && sessions != {} && session.value !in sessions;
            var last := session.Some? ==> forall s | s in sessions :: s == session.value;
            && (outcome == NotAttached <==> !force && stranger)
            && (outcome == Closed(ref) <==> force || (!stranger && last))
            && (outcome == StillAttached(ref) <==> !force && !stranger && !last)
  {
    var sessions := p.all[ref].sessions;
    assert DetachFrom(p, ref, session).all[ref].sessions == Detached(sessions, session);
    if session.Some? {
      LastSession(sessions, session.value);
    }
  }

  lemma LastSession(sessions: set<string>, s: string)
    ensures sessions - {s} == {} <==> forall t | t in sessions :: t == s
  {
    if sessions - {s} != {} {
      var t :| t in sessions - {s};
      assert t in sessions && t != s;
    } else {
      forall t | t in sessions ensures t == s {
        assert t !in sessions - {s};
      }
    }
  }

  /** What it leaves: nothing changed, one session fewer, or the worker out of the registry. */
  lemma CloseEffectExactly(p: Pool, ref: nat, session: Option<string>, force: bool)
    requires KeysMatch(p) && ref < |p.all| && Registered(p, ref)
    ensures var (q, outcome), w := CloseOn(p, ref, session, force), p.all[ref];
            && (outcome.NotAttached? ==> q == p)
            && (!outcome.NotAttached? ==>
                  && (forall s :: s in q.all[ref].sessions <==> s in w.sessions && session != Some(s))
                  && q.all == p.all[ref := w.(sessions := q.all[ref].sessions,
                                              closing := w.closing || outcome.Closed?)])
            && (outcome.StillAttached? ==> q.byPath == p.byPath && q.idToPath == p.idToPath && Registered(q, ref))
            && (outcome.Closed? ==>
                  q.byPath == p.byPath - {w.path} && q.idToPath == p.idToPath - {w.id} && !Registered(q, ref))
            && q.maxWorkers == p.maxWorkers
  {
  }

  /** `close_database` is that on the worker the text names, and nothing when it names none. */
  lemma CloseDatabaseExactly(p: Pool, database: string, canonical: string, session: Option<string>, force: bool)
    requires KeysMatch(p)
    ensures var found, closed := Resolve(p, database, canonical), Close(p, database, canonical, session, force);
            if found.Err? then closed == (p, Unresolved(found.error))
            else closed == CloseOn(p, found.value, session, force) && Registered(p, found.value)
  {
  }

  /** What `detach_all` does to one worker: the live registered ones lose the session, if they have it. */
  lemma DetachExactly(p: Pool, leaving: string, terminate: bool, ref: nat)
    requires KeysMatch(p) && ref < |p.all|
    ensures var q, w := DetachAll(p, leaving, terminate), p.all[ref];
            var touched := Registered(p, ref) && w.raw != Dead && leaving in w.sessions;
            var ended := touched && terminate && forall s | s in w.sessions :: s == leaving;
            && |q.all| == |p.all| && q.maxWorkers == p.maxWorkers
            && q.all[ref] == w.(sessions := q.all[ref].sessions, closing := w.closing || ended)
            && (forall s :: s in q.all[ref].sessions <==> s in w.sessions && !(touched && s == leaving))
            && (Registered(q, ref) <==> Registered(p, ref) && !ended)
  {
    var q, w := DetachAll(p, leaving, terminate), p.all[ref];
    assert q.all[ref] == DetachOne(p, ref, p.byPath.Keys, leaving, terminate);
    if leaving in w.sessions {
      OnlySession(w.sessions, leaving);
    }
  }

  lemma OnlySession(sessions: set<string>, s: string)
    requires s in sessions
    ensures sessions == {s} <==> forall t | t in sessions :: t == s
  {
  }

  /** No path appears, and an ID is dropped only with a worker of that ID that it ended. */
  lemma DetachDropsOnlyEnded(p: Pool, leaving: string, terminate: bool, id: string)
    requires KeysMatch(p)
    ensures var q := DetachAll(p, leaving, terminate);
            && q.byPath.Keys <= p.byPath.Keys
            && (id in q.idToPath <==>
                  id in p.idToPath &&
                  !exists ref: nat | ref < |p.all| :: Registered(p, ref) && !Registered(q, ref) && p.all[ref].id == id)
            && (id in q.idToPath ==> q.idToPath[id] == p.idToPath[id])
  {
    var q := DetachAll(p, leaving, terminate);
    var gone := EndedPaths(p, p.byPath.Keys, leaving, terminate);
    if id in p.idToPath && id !in q.idToPath {
      var path :| path in gone && p.all[p.byPath[path]].id == id;
      var ref := p.byPath[path];
      assert Registered(p, ref) && q.all[ref].path == path;
      assert !Registered(q, ref);
    }
    if ref: nat :| ref < |p.all| && Registered(p, ref) && !Registered(q, ref) && p.all[ref].id == id {
      assert q.all[ref] == DetachOne(p, ref, p.byPath.Keys, leaving, terminate);
      assert p.all[ref].path in gone;
    }
  }

  /** The shutdown leaves an empty registry, and undertakes to close exactly who was in it. */
  lemma ForceCloseExactly(p: Pool, ref: nat)
    requires KeysMatch(p) && ref < |p.all|
    ensures var q := ForceClose(p);
            && q.byPath == map[] && q.idToPath == map[] && |q.all| == |p.all| && q.maxWorkers == p.maxWorkers
            && q.all[ref] == p.all[ref].(closing := p.all[ref].closing || Registered(p, ref))
  {
  }

  /** Ending a worker by path drops its two entries and undertakes to close it. */
  lemma TerminateExactly(p: Pool, path: string)
    requires KeysMatch(p)
    ensures var q := Apply(p, Terminate(path));
            q == if path !in p.byPath then p else
                 var ref := p.byPath[path];
                 Pool(p.all[ref := p.all[ref].(closing := true)], p.byPath - {path},
                      p.idToPath - {p.all[ref].id}, p.maxWorkers)
  {
  }

  // ---- Calls -----------------------------------------------------------------------------------

  /** The pass in the worker's slot is running. */
  predicate InAnalysis(w: WorkerData) {
    w.passes.slot.Some? && w.passes.slot.value < |w.passes.tasks|
    && w.passes.tasks[w.passes.slot.value].status == AnalysisTasks.Running
  }

  /** A routed call changes nothing unless it is let through to the worker that the text names. */
  lemma RouteExactly(p: Pool, database: string, canonical: string, session: Option<string>, blocked: bool)
    requires KeysMatch(p)
    ensures var q, found := Apply(p, BeginCall(database, canonical, session, blocked)), Resolve(p, database, canonical);
            if found.Err? || (blocked && InAnalysis(p.all[found.value])) then q == p
            else
              var ref := found.value;
              && q == p.(all := p.all[ref := p.all[ref].(sessions := q.all[ref].sessions,
                                                         activeCalls := p.all[ref].activeCalls + 1)])
              && (forall s :: s in q.all[ref].sessions <==> s in p.all[ref].sessions || session == Some(s))
              && StateOf(q.all[ref]) == Busy
  {
  }

  /** An explicit analysis attaches the session and starts a pass, unless one is running. */
  lemma AnalyzeExactly(p: Pool, database: string, canonical: string, session: Option<string>)
    requires KeysMatch(p)
    ensures var q, found := Apply(p, AnalyzeCall(database, canonical, session)), Resolve(p, database, canonical);
            if found.Err? then q == p
            else
              var ref := found.value;
              && q == p.(all := p.all[ref := p.all[ref].(sessions := q.all[ref].sessions,
                                                         passes := q.all[ref].passes)])
              && (forall s :: s in q.all[ref].sessions <==> s in p.all[ref].sessions || session == Some(s))
              && InAnalysis(q.all[ref])
              && (InAnalysis(p.all[ref]) ==> q.all[ref].passes == p.all[ref].passes)
              && (!InAnalysis(p.all[ref]) ==>
                    q.all[ref].passes.tasks
                    == p.all[ref].passes.tasks + [AnalysisTasks.Task(AnalysisTasks.Running, false, false)])
  {
  }

  /** A worker shows as busy exactly while it is active and calls are in flight. */
  lemma StateExactly(w: WorkerData)
    requires w.raw != Busy
    ensures StateOf(w) == Busy <==> w.raw == Idle && w.activeCalls > 0
    ensures StateOf(w) != Busy ==> StateOf(w) == w.raw
  {
  }

  // ---- A worker's own tasks ----------------------------------------------------------------------

  /** When each of a worker's tasks can act. */
  lemma WorkerEnabledExactly(p: Pool, s: Step)
    requires IsWorkerStep(s) && s.ref < |p.all|
    ensures var w := p.all[s.ref];
            && (s.CommitSpawn? || s.FailSpawn? || s.AbandonSpawn? ==> (Enabled(p, s) <==> w.spawn == Spawning))
            && (s.RemoveSpawn? ==> (Enabled(p, s) <==> w.spawn == Spawning || w.spawn == Opened))
            && (s.FinishSpawn? ==> (Enabled(p, s) <==> w.spawn == Opened))
            && (s.DeathWatch? ==> (Enabled(p, s) <==> w.watched && w.raw != Dead))
            && (s.LateCall? ==> (Enabled(p, s) <==> w.raw != Starting))
            && (s.EndCall? || s.MarkDead? ==> (Enabled(p, s) <==> w.activeCalls > 0))
            && (s.CloseClient? ==> (Enabled(p, s) <==> w.closing))
            && (s.DropClient? ==> (Enabled(p, s) <==> w.closing && w.raw == Dead))
            && (s.Analysis? ==> (Enabled(p, s) <==> AnalysisTasks.Enabled(w.passes, s.e)))
  {
  }

  /** Each of its tasks touches that worker alone; two of them drop the entries of its path and ID. */
  lemma HeldEntriesExactly(p: Pool, s: Step)
    requires KeysMatch(p) && IsWorkerStep(s) && Enabled(p, s)
    ensures var q, w, drops := Apply(p, s), p.all[s.ref], s.RemoveSpawn? || s.MarkDead?;
            && |q.all| == |p.all| && q.all == p.all[s.ref := q.all[s.ref]] && q.maxWorkers == p.maxWorkers
            && q.byPath == (if drops then p.byPath - {w.path} else p.byPath)
            && q.idToPath == (if drops then p.idToPath - {w.id} else p.idToPath)
            && q.all[s.ref].sessions == w.sessions && q.all[s.ref].path == w.path && q.all[s.ref].id == w.id
            && q.all[s.ref].runAutoAnalysis == w.runAutoAnalysis
  {
  }

  /** What it does to the worker, field by field. */
  lemma HeldFieldsExactly(p: Pool, s: Step)
    requires KeysMatch(p) && IsWorkerStep(s) && Enabled(p, s)
    ensures |Apply(p, s).all| == |p.all|
    ensures var w, w' := p.all[s.ref], Apply(p, s).all[s.ref];
            && w'.raw == (if s.CommitSpawn? then Idle
                          else if s.FailSpawn? || s.DeathWatch? || s.CloseClient? then Dead else w.raw)
            && w'.client == (s.CommitSpawn? || (w.client && !s.DropClient?))
            && w'.activeCalls == w.activeCalls + (if s.LateCall? then 1 else 0) - (if s.EndCall? then 1 else 0)
            && w'.spawn == (if s.CommitSpawn? then Opened
                            else if s.FailSpawn? || s.AbandonSpawn? || s.RemoveSpawn? || s.FinishSpawn? then Ended
                            else w.spawn)
            && w'.closing == (w.closing || s.MarkDead?)
            && w'.watched == (w.watched || s.FinishSpawn?)
  {
  }

  /** And to its passes: what opening reports and starts, and the events of the passes themselves. */
  lemma HeldPassesExactly(p: Pool, s: Step)
    requires KeysMatch(p) && IsWorkerStep(s) && Enabled(p, s)
    ensures var w, w' := p.all[s.ref], Apply(p, s).all[s.ref];
            && (s.CommitSpawn? && s.reportsAnalyzed && !w.runAutoAnalysis ==>
                  w'.passes == w.passes.(analyzed := true, error := None, seeded := true))
            && (s.CommitSpawn? && (!s.reportsAnalyzed || w.runAutoAnalysis) ==> w'.passes == w.passes)
            && (s.FinishSpawn? && !w.runAutoAnalysis ==> w'.passes == w.passes)
            && (s.FinishSpawn? && w.runAutoAnalysis ==> InAnalysis(w'))
            && (s.FinishSpawn? && w.runAutoAnalysis && InAnalysis(w) ==> w'.passes == w.passes)
            && (s.Analysis? ==>
                  w'.passes == AnalysisTasks.Apply(w.passes, s.e, w.raw != Dead && w.raw != Starting))
            && (!s.CommitSpawn? && !s.FinishSpawn? && !s.Analysis? ==> w'.passes == w.passes)
  {
  }

  // ---- Calls over whole runs ---------------------------------------------------------------------

  /** The step puts a call in flight on this worker. */
  predicate Begins(p: Pool, s: Step, ref: nat)
    requires KeysMatch(p) && Enabled(p, s)
  {
    || (s.LateCall? && s.ref == ref)
    || (s.BeginCall? && Resolve(p, s.database, s.canonical) == Ok(ref) && !(s.blocked && InAnalysis(p.all[ref])))
  }

  ghost function CallsBegun(p: Pool, steps: seq<Step>, ref: nat): nat
    requires KeysMatch(p) && Legal(p, steps)
    decreases |steps|
  {
    if steps == [] then 0
    else
      ApplyKeepsKeys(p, steps[0]);
      (if Begins(p, steps[0], ref) then 1 else 0) + CallsBegun(Apply(p, steps[0]), steps[1..], ref)
  }

  function CallsEnded(steps: seq<Step>, ref: nat): nat {
    if steps == [] then 0 else (if steps[0] == EndCall(ref) then 1 else 0) + CallsEnded(steps[1..], ref)
  }

  lemma OpenKeepsCalls(p: Pool, r: OpenRequest, ref: nat)
    requires KeysMatch(p) && ref < |p.all|
    ensures ref < |Open(p, r).0.all| && Open(p, r).0.all[ref].activeCalls == p.all[ref].activeCalls
  {
    WithoutStaleKeepsKeys(p, r.canonical);
  }

  lemma StepBalance(p: Pool, s: Step, ref: nat)
    requires KeysMatch(p) && Enabled(p, s) && ref < |p.all|
    ensures ref < |Apply(p, s).all|
    ensures Apply(p, s).all[ref].activeCalls + (if s == EndCall(ref) then 1 else 0)
         == p.all[ref].activeCalls + if Begins(p, s, ref) then 1 else 0
  {
    if IsWorkerStep(s) {
      HeldEntriesExactly(p, s);
      HeldFieldsExactly(p, s);
    } else if s.OpenDatabase? {
      OpenKeepsCalls(p, s.r, ref);
    }
  }

  /** The calls in flight on a worker are those begun and not yet ended. */
  lemma {:induction false} CallsBalance(p: Pool, steps: seq<Step>, ref: nat)
    requires KeysMatch(p) && Legal(p, steps) && ref < |p.all|
    ensures ref < |Run(p, steps).all|
    ensures Run(p, steps).all[ref].activeCalls + CallsEnded(steps, ref)
         == p.all[ref].activeCalls + CallsBegun(p, steps, ref)
    decreases |steps|
  {
    if steps != [] {
      ApplyKeepsKeys(p, steps[0]);
      StepBalance(p, steps[0], ref);
      CallsBalance(Apply(p, steps[0]), steps[1..], ref);
    }
  }
}
