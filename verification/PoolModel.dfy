/**
 * The worker pool as a step system. Every critical section of the provider runs without a
 * suspension, so it is one step; a run is any interleaving of enabled steps.
 */
module PoolModel {
  import opened Wrappers
  import opened DatabaseIds
  import AnalysisTasks

  datatype Lifecycle = Starting | Idle | Busy | Dead

  /** How far the background open of a worker has got. */
  datatype SpawnPhase = Spawning | Opened | Ended

  /**
   * A worker object. `raw` is the stored `_state`, which is never `Busy`; `closing` says that
   * some step has unregistered this worker in order to close it, and `watched` that its death
   * watcher has been started.
   */
  datatype WorkerData = WorkerData(
    id: string,
    path: string,
    raw: Lifecycle,
    client: bool,
    activeCalls: nat,
    sessions: set<string>,
    spawn: SpawnPhase,
    runAutoAnalysis: bool,
    closing: bool,
    watched: bool,
    passes: AnalysisTasks.Passes)

  function NewWorker(id: string, path: string, runAutoAnalysis: bool, session: Option<string>): WorkerData {
    WorkerData(id, path, Starting, false, 0, Attached({}, session), Spawning, runAutoAnalysis, false, false,
               AnalysisTasks.NONE)
  }

  /** `Worker.state`. */
  function StateOf(w: WorkerData): Lifecycle {
    if Inactive(w.raw) then w.raw else if w.activeCalls > 0 then Busy else Idle
  }

  predicate Inactive(l: Lifecycle) {
    l.Dead? || l.Starting?
  }

  /** `Worker.attach`: no session means no change. */
  function Attached(sessions: set<string>, session: Option<string>): set<string> {
    if session.Some? then sessions + {session.value} else sessions
  }

  /** `Worker.detach`. */
  function Detached(sessions: set<string>, session: Option<string>): set<string> {
    if session.Some? then sessions - {session.value} else sessions
  }

  /** `Worker.is_attached`. */
  predicate IsAttached(sessions: set<string>, session: Option<string>) {
    session.Some? ==> session.value in sessions
  }

  /**
   * The pool: `all` lists every worker object ever created, `byPath` is `_workers` with the
   * position of each worker in `all`, and `idToPath` is `_id_to_path`.
   */
  datatype Pool = Pool(
    all: seq<WorkerData>,
    byPath: map<string, nat>,
    idToPath: map<string, string>,
    maxWorkers: Option<nat>)

  function Initial(maxWorkers: Option<nat>): Pool {
    Pool([], map[], map[], maxWorkers)
  }

  /** Registry entries lead to workers of their own path. This needs no hypothesis on runs. */
  ghost predicate KeysMatch(p: Pool) {
    forall path | path in p.byPath :: p.byPath[path] < |p.all| && p.all[p.byPath[path]].path == path
  }

  predicate Registered(p: Pool, ref: nat)
    requires ref < |p.all|
  {
    p.all[ref].path in p.byPath && p.byPath[p.all[ref].path] == ref
  }

  /** `_active_count` counts the workers registered under these paths. */
  function ActivePaths(p: Pool): set<string>
    requires KeysMatch(p)
  {
    set path | path in p.byPath && !p.all[p.byPath[path]].raw.Dead?
  }

  predicate Full(p: Pool)
    requires KeysMatch(p)
  {
    p.maxWorkers.Some? && |ActivePaths(p)| >= p.maxWorkers.value
  }

  /** `dict.pop(key, None)`. */
  function Pop<K, V>(m: map<K, V>, key: K): map<K, V> {
    m - {key}
  }

  /** The critical section that drops a worker's path and ID, whoever holds them by then. */
  function PopEntries(p: Pool, path: string, id: string): Pool {
    p.(byPath := Pop(p.byPath, path), idToPath := Pop(p.idToPath, id))
  }

  function Update(p: Pool, ref: nat, w: WorkerData): Pool
    requires ref < |p.all|
  {
    p.(all := p.all[ref := w])
  }

  /** Drop a worker's entries in order to close it. */
  function Unregister(p: Pool, ref: nat): Pool
    requires ref < |p.all|
  {
    PopEntries(Update(p, ref, p.all[ref].(closing := true)), p.all[ref].path, p.all[ref].id)
  }

  // ---- Looking a worker up -----------------------------------------------------------------

  datatype LookupError = NoDatabase | MissingDatabase | NotFound | NotReady

  /** `_lookup_worker`; `canonical` is the backend's canonical path for the text given. */
  function Lookup(p: Pool, database: string, canonical: string): Result<nat, LookupError> {
    if p.byPath == map[] then Err(NoDatabase)
    else if database == "" then Err(MissingDatabase)
    else
      var path := if database in p.idToPath then p.idToPath[database] else canonical;
      if path in p.byPath then Ok(p.byPath[path]) else Err(NotFound)
  }

  /** `resolve_worker`. */
  function Resolve(p: Pool, database: string, canonical: string): (r: Result<nat, LookupError>)
    requires KeysMatch(p)
    ensures r.Ok? ==> r.value < |p.all| && Registered(p, r.value) && !Inactive(p.all[r.value].raw)
  {
    var found := Lookup(p, database, canonical);
    if found.Err? then found
    else if p.all[found.value].raw.Starting? then Err(NotReady)
    else if p.all[found.value].raw.Dead? then Err(NotFound)
    else found
  }

  // ---- Opening a database ------------------------------------------------------------------

  datatype OpenRequest = OpenRequest(
    canonical: string,
    stem: string,
    customId: string,
    session: Option<string>,
    runAutoAnalysis: bool,
    clock: nat)

  /** A request for a path under an ID of the caller's, without a session or an analysis. */
  function CustomRequest(path: string, id: string): OpenRequest {
    OpenRequest(path, "", id, None, false, 0)
  }

  datatype OpenOutcome =
    | AlreadyOpen(ref: nat)
    | AlreadyOpening(ref: nat)
    | Opening(ref: nat)
    | ResourceExhausted
    | InvalidArgument
    | DuplicateId

  /** The `status` of the response, or the `error_type` of the error raised. */
  function StatusOf(o: OpenOutcome): string {
    match o
    case AlreadyOpen(_) => "already_open"
    case AlreadyOpening(_) => "already_opening"
    case Opening(_) => "opening"
    case ResourceExhausted => "ResourceExhausted"
    case InvalidArgument => "InvalidArgument"
    case DuplicateId => "DuplicateId"
  }

  function AttachTo(p: Pool, ref: nat, session: Option<string>): Pool
    requires ref < |p.all|
  {
    Update(p, ref, p.all[ref].(sessions := Attached(p.all[ref].sessions, session)))
  }

  function Register(p: Pool, r: OpenRequest, id: string): Pool {
    p.(all := p.all + [NewWorker(id, r.canonical, r.runAutoAnalysis, r.session)],
       byPath := p.byPath[r.canonical := |p.all|],
       idToPath := p.idToPath[id := r.canonical])
  }

  /** The pool once a dead worker registered under the requested path has been dropped. */
  function WithoutStale(p: Pool, path: string): Pool
    requires KeysMatch(p)
  {
    if path in p.byPath && p.all[p.byPath[path]].raw.Dead? then Unregister(p, p.byPath[path]) else p
  }

  /** The IDs in use once a dead worker under the path has been dropped. */
  function IdsInUse(p: Pool, path: string): set<string>
    requires KeysMatch(p)
  {
    WithoutStale(p, path).idToPath.Keys
  }

  function ChosenId(p: Pool, r: OpenRequest): string {
    if r.customId != "" then r.customId else UniqueId(p.idToPath.Keys, NormalizeId(r.stem), r.clock)
  }

  lemma UnregisterKeepsKeys(p: Pool, ref: nat)
    requires KeysMatch(p) && ref < |p.all|
    ensures KeysMatch(Unregister(p, ref))
  {
  }

  /** The critical section of `spawn_worker`. */
  function Open(p: Pool, r: OpenRequest): (Pool, OpenOutcome)
    requires KeysMatch(p)
  {
    if r.canonical in p.byPath && !p.all[p.byPath[r.canonical]].raw.Dead? then
      var ref := p.byPath[r.canonical];
      (AttachTo(p, ref, r.session), if p.all[ref].raw.Starting? then AlreadyOpening(ref) else AlreadyOpen(ref))
    else
      OpenNew(WithoutStale(p, r.canonical), r)
  }

  /** Why an opening is refused once no worker is registered under the path, if it is. */
  function RefusalOf(p: Pool, r: OpenRequest): Option<OpenOutcome>
    requires KeysMatch(p)
  {
    if Full(p) then Some(ResourceExhausted)
    else if r.customId != "" && !AcceptsCustomId(r.customId) then Some(InvalidArgument)
    else if r.customId != "" && r.customId in p.idToPath then Some(DuplicateId)
    else None
  }

  function OpenNew(p: Pool, r: OpenRequest): (Pool, OpenOutcome)
    requires KeysMatch(p)
  {
    var refusal := RefusalOf(p, r);
    if refusal.Some? then (p, refusal.value) else (Register(p, r, ChosenId(p, r)), Opening(|p.all|))
  }

  /** A dead worker under the path is dropped first, and the rest goes on as if it had not been there. */
  lemma OpenOverDead(p: Pool, r: OpenRequest)
    requires KeysMatch(p) && r.canonical in p.byPath && p.all[p.byPath[r.canonical]].raw.Dead?
    ensures var q := Unregister(p, p.byPath[r.canonical]);
            KeysMatch(q) && r.canonical !in q.byPath && Open(p, r) == Open(q, r)
  {
    UnregisterKeepsKeys(p, p.byPath[r.canonical]);
  }

  // ---- Closing and detaching -----------------------------------------------------------------

  datatype CloseOutcome = Unresolved(error: LookupError) | NotAttached | Closed(ref: nat) | StillAttached(ref: nat)

  /** `close_database`: resolve the worker, then the critical section of `close_for_session`. */
  function Close(p: Pool, database: string, canonical: string, session: Option<string>, force: bool)
    : (Pool, CloseOutcome)
    requires KeysMatch(p)
  {
    var found := Resolve(p, database, canonical);
    if found.Err? then (p, Unresolved(found.error)) else CloseOn(p, found.value, session, force)
  }

  function DetachFrom(p: Pool, ref: nat, session: Option<string>): Pool
    requires ref < |p.all|
  {
    Update(p, ref, p.all[ref].(sessions := Detached(p.all[ref].sessions, session)))
  }

  function CloseOn(p: Pool, ref: nat, session: Option<string>, force: bool): (Pool, CloseOutcome)
    requires ref < |p.all|
  {
    var w := p.all[ref];
    if !force && session.Some? && w.sessions != {} && !IsAttached(w.sessions, session) then (p, NotAttached)
    else
      var q := DetachFrom(p, ref, session);
      if force || session.None? || q.all[ref].sessions == {} then (Unregister(q, ref), Closed(ref))
      else (q, StillAttached(ref))
  }

  /** Whether `detach_all` ends a registered worker: it is live and has no other session. */
  predicate Ends(w: WorkerData, leaving: string, terminate: bool) {
    terminate && !w.raw.Dead? && w.sessions == {leaving}
  }

  /** What `detach_all` leaves of a registered worker. */
  function LeftBy(w: WorkerData, leaving: string, terminate: bool): WorkerData {
    if w.raw.Dead? || leaving !in w.sessions then w
    else w.(sessions := w.sessions - {leaving}, closing := w.closing || Ends(w, leaving, terminate))
  }

  function DetachOne(p: Pool, ref: nat, paths: set<string>, leaving: string, terminate: bool): WorkerData
    requires ref < |p.all|
  {
    if Registered(p, ref) && p.all[ref].path in paths then LeftBy(p.all[ref], leaving, terminate) else p.all[ref]
  }

  /** The registered paths among `paths` whose workers `detach_all` ends. */
  function EndedPaths(p: Pool, paths: set<string>, leaving: string, terminate: bool): set<string>
    requires KeysMatch(p)
  {
    set path | path in p.byPath && path in paths && Ends(p.all[p.byPath[path]], leaving, terminate)
  }

  /** The pool once `detach_all` has gone over the workers registered under `paths`. */
  function DetachSome(p: Pool, paths: set<string>, leaving: string, terminate: bool): Pool
    requires KeysMatch(p)
  {
    var gone := EndedPaths(p, paths, leaving, terminate);
    Pool(seq(|p.all|, ref requires 0 <= ref < |p.all| => DetachOne(p, ref, paths, leaving, terminate)),
         p.byPath - gone,
         p.idToPath - (set path | path in gone :: p.all[p.byPath[path]].id),
         p.maxWorkers)
  }

  /** The critical section of `detach_all` for a real session. */
  function DetachAll(p: Pool, leaving: string, terminate: bool): Pool
    requires KeysMatch(p)
  {
    DetachSome(p, p.byPath.Keys, leaving, terminate)
  }

  /** One turn of its loop. */
  function DetachTurn(p: Pool, ref: nat, leaving: string, terminate: bool): Pool
    requires ref < |p.all|
  {
    var w := p.all[ref];
    var q := Update(p, ref, LeftBy(w, leaving, terminate));
    if Ends(w, leaving, terminate) then PopEntries(q, w.path, w.id) else q
  }

  lemma DetachNone(p: Pool, leaving: string, terminate: bool)
    requires KeysMatch(p)
    ensures DetachSome(p, {}, leaving, terminate) == p
  {
  }

  lemma EndedMore(p: Pool, paths: set<string>, path: string, leaving: string, terminate: bool)
    requires KeysMatch(p) && path in p.byPath && path !in paths
    ensures var gone, w := EndedPaths(p, paths, leaving, terminate), p.all[p.byPath[path]];
            var more := EndedPaths(p, paths + {path}, leaving, terminate);
            && more == (if Ends(w, leaving, terminate) then gone + {path} else gone)
            && (set k | k in more :: p.all[p.byPath[k]].id)
            == (set k | k in gone :: p.all[p.byPath[k]].id) + if Ends(w, leaving, terminate) then {w.id} else {}
  {
  }

  lemma DetachedMore(p: Pool, paths: set<string>, path: string, leaving: string, terminate: bool)
    requires KeysMatch(p) && path in p.byPath && path !in paths
    ensures var q, ref := DetachSome(p, paths, leaving, terminate), p.byPath[path];
            && q.all[ref] == p.all[ref]
            && DetachSome(p, paths + {path}, leaving, terminate).all
            == q.all[ref := LeftBy(p.all[ref], leaving, terminate)]
  {
  }

  /** Turns over different paths do not interfere. */
  lemma DetachMore(p: Pool, paths: set<string>, path: string, leaving: string, terminate: bool)
    requires KeysMatch(p) && path in p.byPath && path !in paths
    ensures DetachSome(p, paths + {path}, leaving, terminate)
         == DetachTurn(DetachSome(p, paths, leaving, terminate), p.byPath[path], leaving, terminate)
    ensures DetachSome(p, paths, leaving, terminate).all[p.byPath[path]] == p.all[p.byPath[path]]
  {
    EndedMore(p, paths, path, leaving, terminate);
    DetachedMore(p, paths, path, leaving, terminate);
  }

  /** The critical section of `_force_close_remaining`. */
  function ForceClose(p: Pool): Pool {
    Pool(seq(|p.all|, ref requires 0 <= ref < |p.all| =>
               if Registered(p, ref) then p.all[ref].(closing := true) else p.all[ref]),
         map[], map[], p.maxWorkers)
  }

  // ---- Steps -----------------------------------------------------------------------------------

  datatype Step =
    | OpenDatabase(r: OpenRequest)
    | CommitSpawn(ref: nat, reportsAnalyzed: bool)
    | FailSpawn(ref: nat)        // _mark_failed
    | AbandonSpawn(ref: nat)     // cancelled before its first step or while failing
    | RemoveSpawn(ref: nat)      // _remove, after a cancellation
    | FinishSpawn(ref: nat)
    | DeathWatch(ref: nat)
    | BeginCall(database: string, canonical: string, session: Option<string>, blocked: bool)
    | AnalyzeCall(database: string, canonical: string, session: Option<string>)
    | LateCall(ref: nat)         // a task dispatches to a worker it was given earlier
    | EndCall(ref: nat)
    | MarkDead(ref: nat)         // mark_worker_dead, inside a failing call
    | CloseClient(ref: nat)
    | DropClient(ref: nat)
    | Terminate(path: string)
    | ForceCloseRemaining
    | CloseDatabase(database: string, canonical: string, session: Option<string>, force: bool)
    | DetachSession(leaving: string, terminate: bool)
    | Analysis(ref: nat, e: AnalysisTasks.Event)

  /** Steps of a task that holds on to one worker object, registered or not. */
  predicate IsWorkerStep(s: Step) {
    s.CommitSpawn? || s.FailSpawn? || s.AbandonSpawn? || s.RemoveSpawn? || s.FinishSpawn? || s.DeathWatch?
    || s.LateCall? || s.EndCall? || s.MarkDead? || s.CloseClient? || s.DropClient? || s.Analysis?
  }

  predicate WorkerEnabled(w: WorkerData, s: Step)
    requires IsWorkerStep(s)
  {
    match s
    case CommitSpawn(_, _) => w.spawn.Spawning?
    case FailSpawn(_) => w.spawn.Spawning?
    case AbandonSpawn(_) => w.spawn.Spawning?
    case RemoveSpawn(_) => !w.spawn.Ended?
    case FinishSpawn(_) => w.spawn.Opened?
    case DeathWatch(_) => w.watched && !w.raw.Dead?
    case LateCall(_) => !w.raw.Starting?
    case EndCall(_) => w.activeCalls > 0
    case MarkDead(_) => w.activeCalls > 0
    case CloseClient(_) => w.closing
    case DropClient(_) => w.closing && w.raw.Dead?
    case Analysis(_, e) => AnalysisTasks.Enabled(w.passes, e)
  }

  /** What such a step does to its worker's own fields. */
  function WorkerStep(w: WorkerData, s: Step): (r: WorkerData)
    requires IsWorkerStep(s) && WorkerEnabled(w, s)
    ensures r.path == w.path && r.id == w.id && r.sessions == w.sessions
  {
    match s
    case CommitSpawn(_, reportsAnalyzed) =>
      w.(client := true, raw := Idle, spawn := Opened,
         passes := if reportsAnalyzed && !w.runAutoAnalysis then AnalysisTasks.Seed(w.passes) else w.passes)
    case FailSpawn(_) => w.(raw := Dead, spawn := Ended)
    case AbandonSpawn(_) => w.(spawn := Ended)
    case RemoveSpawn(_) => w.(spawn := Ended)
    case FinishSpawn(_) =>
      w.(spawn := Ended, watched := true,
         passes := if w.runAutoAnalysis then AnalysisTasks.Start(w.passes) else w.passes)
    case DeathWatch(_) => w.(raw := Dead)
    case LateCall(_) => w.(activeCalls := w.activeCalls + 1)
    case EndCall(_) => w.(activeCalls := w.activeCalls - 1)
    case MarkDead(_) => w.(closing := true)
    case CloseClient(_) => w.(raw := Dead)
    case DropClient(_) => w.(client := false)
    case Analysis(_, e) => w.(passes := AnalysisTasks.Apply(w.passes, e, !Inactive(w.raw)))
  }

  predicate Enabled(p: Pool, s: Step) {
    IsWorkerStep(s) ==> s.ref < |p.all| && WorkerEnabled(p.all[s.ref], s)
  }

  /** A routed call: resolve, attach the session, dispatch; `blocked` while an analysis runs. */
  function Route(p: Pool, database: string, canonical: string, session: Option<string>, blocked: bool): Pool
    requires KeysMatch(p)
  {
    var found := Resolve(p, database, canonical);
    if found.Err? || (blocked && AnalysisTasks.Analyzing(p.all[found.value].passes)) then p
    else RouteTo(p, found.value, session)
  }

  function RouteTo(p: Pool, ref: nat, session: Option<string>): Pool
    requires ref < |p.all|
  {
    var w := p.all[ref];
    Update(p, ref, w.(sessions := Attached(w.sessions, session), activeCalls := w.activeCalls + 1))
  }

  /** Which is attaching and then entering `dispatch`. */
  lemma RouteInTwo(p: Pool, ref: nat, session: Option<string>)
    requires ref < |p.all| && !p.all[ref].raw.Starting?
    ensures Enabled(AttachTo(p, ref, session), LateCall(ref))
    ensures HeldStep(AttachTo(p, ref, session), LateCall(ref)) == RouteTo(p, ref, session)
  {
  }

  /** An explicit `analyze_database`: resolve, attach the session, start or join the pass. */
  function Analyze(p: Pool, database: string, canonical: string, session: Option<string>): Pool
    requires KeysMatch(p)
  {
    var found := Resolve(p, database, canonical);
    if found.Err? then p else AnalyzeOn(p, found.value, session)
  }

  function AnalyzeOn(p: Pool, ref: nat, session: Option<string>): Pool
    requires ref < |p.all|
  {
    var w := p.all[ref];
    Update(p, ref, w.(sessions := Attached(w.sessions, session), passes := AnalysisTasks.Start(w.passes)))
  }

  /** A held worker's step; two of them also drop the entries under its path and ID. */
  function HeldStep(p: Pool, s: Step): Pool
    requires IsWorkerStep(s) && Enabled(p, s)
  {
    var w := WorkerStep(p.all[s.ref], s);
    var q := Update(p, s.ref, w);
    if s.RemoveSpawn? || s.MarkDead? then PopEntries(q, w.path, w.id) else q
  }

  function TerminateAt(p: Pool, path: string): Pool
    requires KeysMatch(p)
  {
    if path in p.byPath then Unregister(p, p.byPath[path]) else p
  }

  function Apply(p: Pool, s: Step): Pool
    requires KeysMatch(p) && Enabled(p, s)
  {
    match s
    case OpenDatabase(r) => Open(p, r).0
    case BeginCall(database, canonical, session, blocked) => Route(p, database, canonical, session, blocked)
    case AnalyzeCall(database, canonical, session) => Analyze(p, database, canonical, session)
    case Terminate(path) => TerminateAt(p, path)
    case ForceCloseRemaining => ForceClose(p)
    case CloseDatabase(database, canonical, session, force) => Close(p, database, canonical, session, force).0
    case DetachSession(leaving, terminate) => DetachAll(p, leaving, terminate)
    case _ => HeldStep(p, s)
  }

  // ---- Runs --------------------------------------------------------------------------------------

  /** Worker objects are never lost and never change path or ID. */
  ghost predicate Extends(p: Pool, q: Pool) {
    && q.maxWorkers == p.maxWorkers
    && |p.all| <= |q.all|
    && forall ref | 0 <= ref < |p.all| :: q.all[ref].path == p.all[ref].path && q.all[ref].id == p.all[ref].id
  }

  lemma UpdateKeepsKeys(p: Pool, ref: nat, w: WorkerData)
    requires KeysMatch(p) && ref < |p.all| && w.path == p.all[ref].path && w.id == p.all[ref].id
    ensures KeysMatch(Update(p, ref, w)) && Extends(p, Update(p, ref, w))
  {
  }

  lemma OpenKeepsKeys(p: Pool, r: OpenRequest)
    requires KeysMatch(p)
    ensures KeysMatch(Open(p, r).0) && Extends(p, Open(p, r).0)
  {
    if r.canonical in p.byPath && !p.all[p.byPath[r.canonical]].raw.Dead? {
      var w := p.all[p.byPath[r.canonical]];
      UpdateKeepsKeys(p, p.byPath[r.canonical], w.(sessions := Attached(w.sessions, r.session)));
    } else {
      WithoutStaleKeepsKeys(p, r.canonical);
      var q := WithoutStale(p, r.canonical);
      RegisterKeepsKeys(q, r, ChosenId(q, r));
    }
  }

  lemma WithoutStaleKeepsKeys(p: Pool, path: string)
    requires KeysMatch(p)
    ensures KeysMatch(WithoutStale(p, path)) && Extends(p, WithoutStale(p, path))
  {
    if path in p.byPath {
      UnregisterKeepsKeys(p, p.byPath[path]);
    }
  }

  lemma RegisterKeepsKeys(p: Pool, r: OpenRequest, id: string)
    requires KeysMatch(p)
    ensures KeysMatch(Register(p, r, id)) && Extends(p, Register(p, r, id))
  {
  }

  lemma CloseKeepsKeys(p: Pool, database: string, canonical: string, session: Option<string>, force: bool)
    requires KeysMatch(p)
    ensures var q := Close(p, database, canonical, session, force).0; KeysMatch(q) && Extends(p, q)
  {
    var found := Resolve(p, database, canonical);
    if found.Ok? {
      var w := p.all[found.value];
      var q := Update(p, found.value, w.(sessions := Detached(w.sessions, session)));
      UpdateKeepsKeys(p, found.value, w.(sessions := Detached(w.sessions, session)));
      UnregisterKeepsKeys(q, found.value);
    }
  }

  lemma DetachAllKeepsKeys(p: Pool, leaving: string, terminate: bool)
    requires KeysMatch(p)
    ensures KeysMatch(DetachAll(p, leaving, terminate)) && Extends(p, DetachAll(p, leaving, terminate))
  {
  }

  lemma RouteKeepsKeys(p: Pool, database: string, canonical: string, session: Option<string>, blocked: bool)
    requires KeysMatch(p)
    ensures var q := Route(p, database, canonical, session, blocked); KeysMatch(q) && Extends(p, q)
  {
    var found := Resolve(p, database, canonical);
    if found.Ok? {
      var w := p.all[found.value];
      UpdateKeepsKeys(p, found.value, w.(sessions := Attached(w.sessions, session), activeCalls := w.activeCalls + 1));
    }
  }

  lemma AnalyzeKeepsKeys(p: Pool, database: string, canonical: string, session: Option<string>)
    requires KeysMatch(p)
    ensures var q := Analyze(p, database, canonical, session); KeysMatch(q) && Extends(p, q)
  {
    var found := Resolve(p, database, canonical);
    if found.Ok? {
      var w := p.all[found.value];
      UpdateKeepsKeys(p, found.value,
                      w.(sessions := Attached(w.sessions, session), passes := AnalysisTasks.Start(w.passes)));
    }
  }

  lemma HeldStepKeepsKeys(p: Pool, s: Step)
    requires KeysMatch(p) && IsWorkerStep(s) && Enabled(p, s)
    ensures KeysMatch(HeldStep(p, s)) && Extends(p, HeldStep(p, s))
  {
    UpdateKeepsKeys(p, s.ref, WorkerStep(p.all[s.ref], s));
  }

  lemma ApplyKeepsKeys(p: Pool, s: Step)
    requires KeysMatch(p) && Enabled(p, s)
    ensures KeysMatch(Apply(p, s)) && Extends(p, Apply(p, s))
  {
    match s
    case OpenDatabase(r) => OpenKeepsKeys(p, r);
    case BeginCall(database, canonical, session, blocked) => RouteKeepsKeys(p, database, canonical, session, blocked);
    case AnalyzeCall(database, canonical, session) => AnalyzeKeepsKeys(p, database, canonical, session);
    case Terminate(path) => if path in p.byPath { UnregisterKeepsKeys(p, p.byPath[path]); }
    case ForceCloseRemaining =>
    case CloseDatabase(database, canonical, session, force) => CloseKeepsKeys(p, database, canonical, session, force);
    case DetachSession(leaving, terminate) => DetachAllKeepsKeys(p, leaving, terminate);
    case _ => HeldStepKeepsKeys(p, s);
  }

  /** Every step of the run is enabled where it is taken. */
  ghost predicate Legal(p: Pool, steps: seq<Step>)
    requires KeysMatch(p)
    decreases |steps|
  {
    steps == [] ||
    (Enabled(p, steps[0]) && (ApplyKeepsKeys(p, steps[0]); Legal(Apply(p, steps[0]), steps[1..])))
  }

  /** The pool a legal run ends in. */
  ghost function Run(p: Pool, steps: seq<Step>): (q: Pool)
    requires KeysMatch(p) && Legal(p, steps)
    ensures KeysMatch(q)
    decreases |steps|
  {
    if steps == [] then p
    else
      ApplyKeepsKeys(p, steps[0]);
      Run(Apply(p, steps[0]), steps[1..])
  }
}
