# Verified model of the database supervisor

A supervisor keeps one worker process per open database and routes tool calls to them. This
project models its hardest parts in Dafny and proves what they promise. Verify it with
`dafny verify dfyconfig.toml`.

| Files | What they model |
|---|---|
| `AnalysisTasks`, `PoolModel`, `PoolSafety`, `PoolAnalysis`, `PoolMaps`, `PoolOrphans`, `PoolIds`, `PoolLookup`, `PoolOutcomes`, `PoolSessions`, `WorkerPool` | The worker pool: its critical sections as atomic steps, any interleaving of them as a run, and the classes whose methods perform the steps |
| `DatabaseIds`, `StemWords` | Database IDs and the URIs that carry them |
| `JsonSchema`, `OutputSchema`, `PayloadAgreement`, `UnionAgreement`, `SchemaShape` | The rewriting of output schemas against the rewriting of payloads |
| `PythonAst`, `SandboxRewrite`, `SandboxPolicy`, `SandboxSemantics` | The sandbox's syntax tree transformer, the programs it accepts, and a heap semantics it preserves |
| `Pagination` | Pages of lists, of lazily consumed iterables, and of text |
| `DecompileCache` | The bounded least-recently-used cache of decompiled functions |
| `FatHeader`, `FatFormat`, `MemoryRange`, `MemoryBounds` | The Mach-O fat header reader, the memory range walk and write, the bounds of the image |
| `ThreadingLint`, `LintReports` | The threading linter's stateful visitor and its reports |

## How the model is read

**Pool.** Every `async with self._lock` body is free of suspensions, and so are the unlocked
sections modelled; each is one step of `PoolModel.Apply`. `PoolModel.Legal` and `PoolModel.Run`
let any enabled step follow any other, so operating-system events (a process dies, an open fails,
a task is cancelled) are steps that may happen whenever they can. `all` lists every worker object
ever created; a task that holds on to a worker acts on its position there, registered or not.
`WorkerPool.WorkerPoolProvider.Snapshot` is the state of the step system that the objects stand
for, and each method's contract equates the new snapshot with the step's result; `Perform` carries
out any enabled step, so the runs of the step system are runs of the objects. What each step does
is stated in `PoolOutcomes` field by field, in `PoolLookup` through the registered workers and in
`PoolSessions` through the history of joining and leaving, without the step functions themselves.

**Schemas.** `JsonSchema.Valid` is the validation semantics of JSON Schema 2020-12 for the
keywords FastMCP emits: `$ref` (Core, section 8.2.3.1), `allOf`/`anyOf`/`oneOf` (Core, section
10.2.1), `properties`, `additionalProperties` and `items` (Core, section 10.3), `type`, `enum` and
`required` (Validation, sections 6.1 and 6.5.3). The hypotheses of the agreement theorems are
predicates a reader can check on a schema: `Acyclic` references, `Typed` properties, payloads
`WithoutDatabase`, `Tolerant` variants (a referenced definition is open once injected into, an
inline one as it is).

**Sandbox.** `SandboxSemantics.World` leaves what calls, operators, subscripts, truth tests and
guards do to arbitrary functions of the state; attribute reads have no side effects. `Steady` says
that the dotted prefix of an augmented assignment leads to the same object when it is read again;
`UnreboundPrefixIsSteady` reduces it to nothing on the prefix having been rebound,
`PlainProgramAgrees` to a condition on the program's text, and `AugmentedExact` shows how far the
equivalence reaches.

## Where the code and its documentation differ

The model follows the code.

- The schema rewriting says that inline variants are injected into in place; the code leaves them
  alone (`worker_provider.py:681-690`). `UnionAgreement.ClosedModelDisagrees` and
  `UnionAgreement.OneOfStartsAccepting` are two documents for which the rewritten schema and the
  payload disagree, one in each direction; `UnionAgreement.UnionExact` and
  `UnionAgreement.UnionKeepsExactly` say exactly when they do, and `UnionAgreement.ModelUnionExact`
  that unions of referenced models always agree.
- The error message for a custom ID promises `[a-z][a-z0-9_]{0,31}`; the pattern's `$` also accepts
  one final newline (`DatabaseIds.CustomIdExact`, `PoolIds.NewlineIdIsRegistered`).
- Automatic IDs are cut to 32 characters before `_unique_id` adds its suffix, so they can be longer
  than a custom ID may be (`PoolIds.SecondLongStemOverflows`; `DatabaseIds.PickedIdExact` and
  `PoolIds.RegisteredIdExact` say exactly when).
- `_unique_id` can return an ID in use once its 99 candidates are taken
  (`DatabaseIds.UniqueIdCanRepeat`; `DatabaseIds.UniqueIdExact` says exactly when).
- `mark_worker_dead` and `_remove` drop a path and an ID without asking who holds them by then
  (`PoolMaps.StaleRemovalBreaksMaps`; `PoolMaps.MapsInverseExactly` gives the exact condition, and
  `PoolMaps.MapsInverseInCarefulRuns` the runs that stay clear of it). Where the path was opened
  again under the same ID, as it usually is, the dictionaries stay inverse and the new worker is
  orphaned: it goes on opening, registered nowhere, and nothing has undertaken to end it
  (`PoolOrphans.StaleRemovalOrphans`; `PoolOrphans.OrphansExactly` gives the exact condition).
- The linter's comment says that the arguments of a bare call are still visited; the code marks
  them safe and returns (`ThreadingLint.BareCallHidesItsArguments`). No body passes because of it
  (`ThreadingLint.CleanExactly`).
- The linter says that nested definitions run on the main thread and that a dispatcher's first
  argument is safe. Decorators, bases, defaults and class bodies run where the definition stands,
  and a call inside that argument is made before the dispatch; the linter passes them
  (`ThreadingLint.ClassBodyIsMissed`, `ThreadingLint.DispatchedCallIsMissed`;
  `ThreadingLint.SafeExactly` says exactly what passing a body leaves open).
- A union of a model and a scalar keeps its wrapper in the schema and loses it in the payload
  (`UnionAgreement.MixedUnionDisagrees`; `PayloadAgreement.MixedUnionMismatch` says exactly when).
- The sandbox calls a dotted name idempotent; a right-hand side that rebinds it shows the
  difference (`SandboxSemantics.RebindingPrefixDiffers`).
- `_inplacevar_` has no entry for `@=`. On the assumption that RestrictedPython's operator table,
  which is not part of this model, names it like the others, it is rewritten and then raises
  (`SandboxSemantics.UnlistedOperatorFails`).

## Model

| member | source | states |
|---|---|---|
| `PoolSafety.CapacityHolds` | packages/re-mcp-core/src/re_mcp/worker_provider.py:1403-1501 | From an empty pool, after every legal interleaving of steps, the registered workers that are not dead never outnumber the limit |
| `PoolSafety.ActiveWorkerHasClient` | packages/re-mcp-core/src/re_mcp/worker_provider.py:1639-1646 | In every run a registered worker that is idle or busy has its client published |
| `PoolSafety.LifecycleIsForward` | packages/re-mcp-core/src/re_mcp/worker_provider.py:1607-1646 | Between any two points of a run a worker that is still registered has only moved from starting to active to dead; nothing revives or re-registers a worker |
| `PoolSafety.NoAttachAfterLeaving` | packages/re-mcp-core/src/re_mcp/worker_provider.py:1876-1884 | Once a worker has left the registry no continuation of the run attaches a session to it or registers it again |
| `PoolSafety.CloseSparesOtherSessions` | packages/re-mcp-core/src/re_mcp/worker_provider.py:1876-1884 | An unforced close by a session, or its detach from everything, unregisters a worker only if no other session is attached to it at that step |
| `PoolSafety.DetachLeavesNoTrace` | packages/re-mcp-core/src/re_mcp/worker_provider.py:2066-2076 | After a detach from everything, no live worker still registered has the session, and a worker that had sessions and stays has sessions left |
| `PoolSessions.OpeningAttaches` | packages/re-mcp-core/src/re_mcp/worker_provider.py:1437-1501 | Whatever worker an opening for a session ends up with, found or new, is registered under the path, has that session, and keeps its others; a new worker has no other |
| `PoolSessions.StepFollows` | packages/re-mcp-core/src/re_mcp/worker_provider.py:297-316 | One step: a session is attached to a worker afterwards if and only if it opened, called or analyzed it in this step, or was attached and did not close or leave it |
| `PoolSessions.AttachedExactly` | packages/re-mcp-core/src/re_mcp/worker_provider.py:1437-2076 | Over any run, a session is attached to a worker exactly when, read off the steps in order, it came after it last left |
| `PoolSessions.OpenerStaysAttached` | packages/re-mcp-core/src/re_mcp/worker_provider.py:1437-1884 | From any pool, the session that opened a worker stays attached to it in every continuation without a close or a departure of its own |
| `PoolSessions.OthersKeepTheWorker` | packages/re-mcp-core/src/re_mcp/worker_provider.py:1876-2076 | An unforced close by another session, or its departure, leaves a held worker registered and held |
| `PoolSessions.HeldWorkerStays` | packages/re-mcp-core/src/re_mcp/worker_provider.py:1437-2076 | Over any run without a departure of the holder, a forced or session-less close, a shutdown, or a removal under the worker's path, the worker stays registered and held |
| `PoolSafety.AtMostOnePass` | packages/re-mcp-core/src/re_mcp/worker_provider.py:392-411 | In every run at most one analysis task of a worker is unfinished |
| `PoolSafety.OnDemandPassIsNeeded` | packages/re-mcp-core/src/re_mcp/worker_provider.py:1230-1250 | In every run, when a pass starts on demand the worker is active and not seeded, no earlier pass succeeded, and the most recently started one, if any, was cancelled |
| `PoolSafety.StepNext` | packages/re-mcp-core/src/re_mcp/worker_provider.py:1403-2086 | Every enabled step keeps the invariant of every worker ever created, moves registered workers forward only and attaches nothing to unregistered ones |
| `PoolMaps.MapsInverseExactly` | packages/re-mcp-core/src/re_mcp/worker_provider.py:1437-1501 | In every run from the empty pool, the path and ID dictionaries are mutually inverse in all states if and only if every step is coherent: a held worker's removal finds path and ID bound together or both free, and an opening asks for a custom ID or finds an automatic candidate or the fallback free |
| `PoolMaps.MapsInverseInCarefulRuns` | packages/re-mcp-core/src/re_mcp/worker_provider.py:1394-2007 | In every run whose removals hit workers still registered, or ones whose path and ID nobody holds, and whose automatic IDs are picked with fewer than 99 in use, the dictionaries are mutually inverse in all states |
| `PoolMaps.StepExact` | packages/re-mcp-core/src/re_mcp/worker_provider.py:1437-2076 | One step: inverse dictionaries stay inverse exactly when the step is coherent |
| `PoolMaps.AvailableIdIsUnused` | packages/re-mcp-core/src/re_mcp/worker_provider.py:1481-1493 | What can be looked up before the call decides whether the ID an opening picks is unused |
| `AnalysisTasks.ApplyKeepsInv` | packages/re-mcp-core/src/re_mcp/worker_provider.py:359-429 | Every event of an analysis keeps: only the last task can be unfinished and it fills the slot; every success and failure has left its mark |
| `AnalysisTasks.EnsureStartsOnlyAfterCancel` | packages/re-mcp-core/src/re_mcp/worker_provider.py:1243-1250 | An on-demand start adds exactly one running task, and only where none succeeded or runs and the last was cancelled |
| `AnalysisTasks.EnsureStartsExactly` | packages/re-mcp-core/src/re_mcp/worker_provider.py:1243-1250 | A waiter starts a pass if and only if the worker is active, not analyzed, without a running task in the slot and without a standing error; then exactly one running task is added and fills the slot |
| `AnalysisTasks.StartExactly` | packages/re-mcp-core/src/re_mcp/worker_provider.py:392-411 | Starting joins a running task and changes nothing; otherwise it adds one, puts it in the slot and clears the error |
| `AnalysisTasks.EventExactly` | packages/re-mcp-core/src/re_mcp/worker_provider.py:359-429 | What each event does to the mark, the error, the slot and every task: a success marks and clears the error, a failure records its message, only the cleared task leaves the slot |
| `AnalysisTasks.AnalyzedExactly` | packages/re-mcp-core/src/re_mcp/worker_provider.py:359-367 | Over any events, a worker is analyzed exactly if it was or some pass succeeded |
| `PoolAnalysis.AnalyzedIsFinal` | packages/re-mcp-core/src/re_mcp/worker_provider.py:359-367 | Once a worker is marked analyzed, in no continuation of the run does a waiter start a pass on it |
| `PoolAnalysis.FailureStandsUntilRestart` | packages/re-mcp-core/src/re_mcp/worker_provider.py:413-415 | Once a pass has recorded an error, no waiter starts another on that worker in any continuation that starts none on it outright, whatever happens to other workers |
| `PoolAnalysis.ClearSparesRunning` | packages/re-mcp-core/src/re_mcp/worker_provider.py:417-429 | The clearing after a cancellation changes nothing while the slot names a running task, so a newer task is never lost |
| `PoolMaps.UnreboundRemovalIsCoherent` | packages/re-mcp-core/src/re_mcp/worker_provider.py:1600-1605 | A removal that hits a worker still registered, or one whose path and ID are free, is coherent |
| `PoolMaps.OpenIsCoherent` | packages/re-mcp-core/src/re_mcp/worker_provider.py:1394-1401 | An opening under a custom ID, or under an automatic one with fewer than 99 IDs registered, is coherent |
| `PoolMaps.StaleRemovalBreaksMaps` | packages/re-mcp-core/src/re_mcp/worker_provider.py:2002-2007 | A concrete run, for all paths and IDs: a call in flight at its worker's death removes the successor's path and leaves its ID behind |
| `PoolOrphans.OrphansExactly` | packages/re-mcp-core/src/re_mcp/worker_provider.py:1600-2007 | In every run, each worker that is live and that nothing has undertaken to end is registered in all states if and only if no removal hits a path by then bound to another such worker |
| `PoolOrphans.StepExactly` | packages/re-mcp-core/src/re_mcp/worker_provider.py:1600-2007 | One step: no worker is orphaned exactly when the step does not evict one that is still needed |
| `PoolOrphans.StaleRemovalOrphans` | packages/re-mcp-core/src/re_mcp/worker_provider.py:2002-2007 | A concrete run, for all paths and IDs: reopening a path under the same ID before a failing call removes its worker leaves the dictionaries inverse and the new worker, still opening, registered nowhere and closed by nobody |
| `PoolMaps.PopExact` | packages/re-mcp-core/src/re_mcp/worker_provider.py:1602-1605 | Dropping a path and an ID keeps inverse dictionaries inverse if and only if the two are bound together or both unbound |
| `PoolModel.DetachMore` | packages/re-mcp-core/src/re_mcp/worker_provider.py:2067-2076 | The loop over workers equals the whole step: turns on different paths do not interfere |
| `PoolModel.OpenOverDead` | packages/re-mcp-core/src/re_mcp/worker_provider.py:1468-1472 | Opening a path whose worker is dead is opening it with that worker dropped first |
| `PoolModel.ApplyKeepsKeys` | packages/re-mcp-core/src/re_mcp/worker_provider.py:1403-2086 | Every step keeps each path leading to a worker of that path, and no worker object ever changes path or ID |
| `PoolLookup.LookupById` | packages/re-mcp-core/src/re_mcp/worker_provider.py:1197-1200 | Where the dictionaries are inverse, a registered worker's ID finds it whatever the text is as a path |
| `PoolLookup.LookupExactly` | packages/re-mcp-core/src/re_mcp/worker_provider.py:1180-1207 | Where they are inverse: the worker found is the one with that ID, or, if no registered worker has it, the one under the canonical path; and each of the three errors is given exactly when its condition holds |
| `PoolLookup.ResolveExactly` | packages/re-mcp-core/src/re_mcp/worker_provider.py:1209-1228 | In addition a named worker that is opening is NotReady, a dead one NotFound, and only an idle or busy one is returned |
| `PoolLookup.RegisteredIsFoundById` | packages/re-mcp-core/src/re_mcp/worker_provider.py:1180-1228 | In every state of a coherent run, every registered worker is found under its ID, and resolved if it is active |
| `PoolLookup.PrefixedUriFindsItsWorker` | packages/re-mcp-core/src/re_mcp/worker_provider.py:211-1200 | In every such state, a resource URI prefixed with a registered worker's ID yields an ID that finds this worker, and the original URI |
| `PoolOutcomes.OpenOutcomeExactly` | packages/re-mcp-core/src/re_mcp/worker_provider.py:1437-1488 | An opening joins a live worker under the path; else it is refused if and only if the live registered workers reach the limit, then if the custom ID misses the pattern, then if another entry has it; and otherwise it creates a worker |
| `PoolOutcomes.OpenStatusExactly` | packages/re-mcp-core/src/re_mcp/worker_provider.py:1441-1528 | The status or error type of each of these cases |
| `PoolOutcomes.JoiningExactly` | packages/re-mcp-core/src/re_mcp/worker_provider.py:1441-1467 | Joining attaches the session to that worker and changes nothing else in the pool |
| `PoolOutcomes.CreationExactly` | packages/re-mcp-core/src/re_mcp/worker_provider.py:1468-1501 | The created worker field by field, its two entries, and every other worker and entry as it was, a dead one under the path excepted |
| `PoolOutcomes.CreatedIdExactly` | packages/re-mcp-core/src/re_mcp/worker_provider.py:1481-1493 | Its ID is the one asked for, or the one picked against the IDs of the other entries |
| `PoolOutcomes.RefusalExactly` | packages/re-mcp-core/src/re_mcp/worker_provider.py:1468-1488 | A refused opening changes nothing but dropping a dead worker under the path |
| `PoolOutcomes.CloseOutcomeExactly` | packages/re-mcp-core/src/re_mcp/worker_provider.py:1876-1893 | NotAttached exactly for an unforced stranger of a worker that has sessions; closed exactly when forced or when no other session remains or none is given; detached otherwise |
| `PoolOutcomes.CloseEffectExactly` | packages/re-mcp-core/src/re_mcp/worker_provider.py:1876-1884 | What each outcome leaves: nothing changed, one session fewer, or the worker out of both dictionaries |
| `PoolOutcomes.DetachExactly` | packages/re-mcp-core/src/re_mcp/worker_provider.py:2066-2076 | A departing session is taken from exactly the live registered workers that have it, and exactly those it was alone on leave the registry |
| `PoolOutcomes.RouteExactly` | packages/re-mcp-core/src/re_mcp/worker_provider.py:493-530 | A call changes nothing unless its worker is resolved and not blocked; then exactly its session is attached, one more call is in flight, and the worker is busy |
| `PoolOutcomes.AnalyzeExactly` | packages/re-mcp-core/src/re_mcp/worker_provider.py:493-510 | An explicit analysis attaches the session and leaves a running pass in the slot, a new one exactly if none ran |
| `PoolOutcomes.CallsBalance` | packages/re-mcp-core/src/re_mcp/worker_provider.py:437-453 | Conservation over any run: the calls in flight on a worker are those begun and not yet ended |
| `WorkerPool.Worker.StartAnalysis` | packages/re-mcp-core/src/re_mcp/worker_provider.py:392-411 | Joins the running task or starts the one new task, clearing the recorded error; returns a running task that fills the slot |
| `WorkerPool.Worker.EnsureAnalysisStarted` | packages/re-mcp-core/src/re_mcp/worker_provider.py:1243-1250 | Performs exactly the on-demand start of the step system |
| `WorkerPool.WorkerPoolProvider.SpawnWorker` | packages/re-mcp-core/src/re_mcp/worker_provider.py:1437-1501 | The new heap state and the status or error are those of the open step, on every branch |
| `WorkerPool.WorkerPoolProvider.ActiveCount` | packages/re-mcp-core/src/re_mcp/worker_provider.py:2084-2086 | Counts exactly the registered paths whose worker is not dead |
| `WorkerPool.WorkerPoolProvider.LookupWorker` | packages/re-mcp-core/src/re_mcp/worker_provider.py:1180-1207 | Finds the worker by ID, then by canonical path, with the three errors in order |
| `WorkerPool.WorkerPoolProvider.ResolveWorker` | packages/re-mcp-core/src/re_mcp/worker_provider.py:1209-1228 | Additionally refuses starting and dead workers, with different errors |
| `WorkerPool.WorkerPoolProvider.CloseForSession` | packages/re-mcp-core/src/re_mcp/worker_provider.py:1876-1893 | Attachment check, detach, and the decision to unregister, as one step with its outcome |
| `WorkerPool.WorkerPoolProvider.CloseDatabase` | packages/re-mcp-core/src/re_mcp/supervisor.py:133-137 | Resolving then closing is the close step, including its errors |
| `WorkerPool.WorkerPoolProvider.ForceCloseRemaining` | packages/re-mcp-core/src/re_mcp/worker_provider.py:2019-2023 | Empties both dictionaries and marks for closing exactly the workers that were registered |
| `WorkerPool.WorkerPoolProvider.DetachAllFrom` | packages/re-mcp-core/src/re_mcp/worker_provider.py:2066-2076 | The loop that mutates both dictionaries while it runs equals the one detach step |
| `WorkerPool.WorkerPoolProvider.Perform` | packages/re-mcp-core/src/re_mcp/worker_provider.py:1403-2086 | The objects simulate the step system: every enabled step is carried out by a method, and the new heap state stands for the pool the step leads to |
| `DatabaseIds.NormalizedIdIsValid` | packages/re-mcp-core/src/re_mcp/worker_provider.py:245-253 | Whatever lower-casing yields, the normalized ID matches [a-z][a-z0-9_]{0,31} |
| `DatabaseIds.NormalizeIdFixesIds` | packages/re-mcp-core/src/re_mcp/worker_provider.py:245-253 | A valid ID without doubled or final underscores is its own normal form |
| `StemWords.NormalizeIdExactly` | packages/re-mcp-core/src/re_mcp/worker_provider.py:245-253 | The ID of any stem is its maximal runs of letters and digits joined by single underscores, after db_ if that starts with a digit, db if there are none, cut at 32 characters |
| `DatabaseIds.CustomIdExact` | packages/re-mcp-core/src/re_mcp/worker_provider.py:80 | The pattern accepts the documented IDs and, beyond them, exactly those followed by one newline |
| `DatabaseIds.PickedIdExact` | packages/re-mcp-core/src/re_mcp/worker_provider.py:1394-1401 | A picked ID matches the documented pattern exactly when the base is free; or has at most 30 characters and a candidate up to 9 is free; or at most 29 and one from 10 to 99 is; or, all being taken, the fallback has at most 32 |
| `DatabaseIds.PickedIdByLength` | packages/re-mcp-core/src/re_mcp/worker_provider.py:1394-1401 | So it always does for a base of at most 26 characters, and never for one in use of 31 or 32 |
| `PoolIds.RegisteredIdExact` | packages/re-mcp-core/src/re_mcp/worker_provider.py:1481-1501 | The ID an opening registers matches the documented pattern exactly when, custom, it does not end in a newline, and, automatic, the normalized file name leaves room for the suffix that the IDs in use before the call lead to |
| `PoolIds.OpeningRegisters` | packages/re-mcp-core/src/re_mcp/worker_provider.py:1498-1501 | An opening registers its worker under that ID and the requested path |
| `PoolIds.NewlineIdIsRegistered` | packages/re-mcp-core/src/re_mcp/worker_provider.py:1481-1501 | Opening under the letter a and a newline succeeds and registers that ID |
| `PoolIds.SecondLongStemOverflows` | packages/re-mcp-core/src/re_mcp/worker_provider.py:1491-1501 | Opening two files with the same name of 31 or 32 characters registers an ID that is too long |
| `DatabaseIds.PickUniqueId` | packages/re-mcp-core/src/re_mcp/worker_provider.py:1394-1401 | The loop picks the first free candidate in order, or the clock-based fallback |
| `DatabaseIds.PickedIdIsFirstFree` | packages/re-mcp-core/src/re_mcp/worker_provider.py:1394-1401 | The base if it is free, else the base with the first free of _2 to _99, else the base with the clock in milliseconds modulo 100000 |
| `DatabaseIds.DecimalExactly` | packages/re-mcp-core/src/re_mcp/worker_provider.py:1397-1401 | Suffixes are decimal numerals of their number, without leading zeros |
| `DatabaseIds.UniqueIdIsUnused` | packages/re-mcp-core/src/re_mcp/worker_provider.py:1394-1401 | With fewer than 99 IDs in use the picked ID is unused, by counting the 99 distinct candidates |
| `DatabaseIds.UniqueIdExact` | packages/re-mcp-core/src/re_mcp/worker_provider.py:1394-1401 | An ID in use is picked if and only if all 99 candidates and the clock-based fallback are taken |
| `DatabaseIds.UniqueIdCanRepeat` | packages/re-mcp-core/src/re_mcp/worker_provider.py:1401 | The bound is sharp: with exactly the 99 candidates in use there are clock readings for which a used ID is picked |
| `DatabaseIds.CandidateCount` | packages/re-mcp-core/src/re_mcp/worker_provider.py:1397-1398 | The candidates are pairwise different |
| `DatabaseIds.PrefixThenExtract` | packages/re-mcp-core/src/re_mcp/worker_provider.py:211-233 | Extracting from a prefixed URI returns the ID and the original URI |
| `DatabaseIds.ExtractThenPrefix` | packages/re-mcp-core/src/re_mcp/worker_provider.py:211-233 | Prefixing what any successful extraction returned gives back the URI |
| `DatabaseIds.ExtractExactly` | packages/re-mcp-core/src/re_mcp/worker_provider.py:219-233 | A database is extracted exactly where a non-empty text and a slash follow the scheme, and is that text |
| `DatabaseIds.RegisteredIdsAreSlashFree` | packages/re-mcp-core/src/re_mcp/worker_provider.py:1481-1501 | Every ID the pool can register is non-empty and slash-free, so the round trips apply to it |
| `JsonSchema.PointerTargetIsDefName` | packages/re-mcp-core/src/re_mcp/worker_provider.py:717-728 | Where a validator resolves a local reference, the text after the last slash names the same definition |
| `OutputSchema.YieldsObjectIsSound` | packages/re-mcp-core/src/re_mcp/worker_provider.py:731-756 | If the check passes on acyclic references, every value valid under the schema is an object |
| `OutputSchema.ImplicitObjectExact` | packages/re-mcp-core/src/re_mcp/worker_provider.py:743-745 | For a schema that lists properties without a type the check passes, and is wrong about a value that is no object exactly when the remaining keywords accept it |
| `SchemaShape.YieldsObjectExactly` | packages/re-mcp-core/src/re_mcp/worker_provider.py:731-756 | A schema passes exactly by its type, by properties without a type, else by its local reference, else by all variants of anyOf or of oneOf, else by one conjunct of allOf |
| `OutputSchema.InjectAgrees` | packages/re-mcp-core/src/re_mcp/worker_provider.py:759-787 | Injecting database into an object schema changes no verdict on values that lack database |
| `OutputSchema.InjectDefAgrees` | packages/re-mcp-core/src/re_mcp/worker_provider.py:685-690 | Mutating a shared definition changes no verdict anywhere in the document on values that lack database |
| `OutputSchema.OpenIgnoresDatabase` | packages/re-mcp-core/src/re_mcp/worker_provider.py:759-787 | An open schema gives an object the same verdict with and without database, oneOf included |
| `OutputSchema.InjectKeepsOpen` | packages/re-mcp-core/src/re_mcp/worker_provider.py:759-787 | Injecting keeps a schema open |
| `OutputSchema.FixupOutputSchema` | packages/re-mcp-core/src/re_mcp/worker_provider.py:635-714 | The branching and the in-place loop over variants compute the document transformation |
| `SchemaShape.FixupDeclaresObject` | packages/re-mcp-core/src/re_mcp/worker_provider.py:650-714 | Every rewritten schema declares type object at its top level, on all branches, and loses the wrap marker |
| `SchemaShape.FixupKeepsFirstKeyword` | packages/re-mcp-core/src/re_mcp/worker_provider.py:671-702 | An unwrapped result keeps the first of its composition keywords with its variants, or its reference, beside the type and nothing else; an inline one is kept whole and declares database |
| `SchemaShape.FixupKeepsWrapped` | packages/re-mcp-core/src/re_mcp/worker_provider.py:664-714 | Where the result need not be an object, or there is no marker, the document declares database at its top level and changes in nothing else |
| `SchemaShape.FixupDefinitionsExactly` | packages/re-mcp-core/src/re_mcp/worker_provider.py:679-697 | Of the definitions, exactly those a variant refers to change, and a model among them comes to declare database |
| `SchemaShape.InjectedTypesDatabase` | packages/re-mcp-core/src/re_mcp/worker_provider.py:759-787 | An injected schema whose variants injection reaches accepts no database that is not a string |
| `SchemaShape.ModelUnionTypesDatabase` | packages/re-mcp-core/src/re_mcp/worker_provider.py:635-787 | Nor does the rewritten document of a union of models |
| `PayloadAgreement.EnrichResult` | packages/re-mcp-core/src/re_mcp/worker_provider.py:795-824 | Exactly the first text block that holds an object is enriched, and structured content when it is an object; nothing else changes |
| `PayloadAgreement.EnrichExactly` | packages/re-mcp-core/src/re_mcp/worker_provider.py:795-824 | What is sent for any object: the members of x with database added if the object wraps an object x under result alone, and otherwise its own members with database added |
| `PayloadAgreement.InjectTargetsAgrees` | packages/re-mcp-core/src/re_mcp/worker_provider.py:679-691 | After the loop has mutated several definitions, possibly the same one twice, no verdict on values that lack database has changed |
| `PayloadAgreement.UnwrappedAgrees` | packages/re-mcp-core/src/re_mcp/worker_provider.py:676-702 | For an object, the rewritten document accepts it with database added exactly when the kept part of the result schema accepted it |
| `PayloadAgreement.EnrichedUnwrappedValidates` | packages/re-mcp-core/src/re_mcp/worker_provider.py:635-824 | When the original schema accepts a wrapped payload whose result schema yields objects, the payload is unwrapped, database is added, and the rewritten schema accepts the outcome |
| `PayloadAgreement.EnrichedUnwrappedExact` | packages/re-mcp-core/src/re_mcp/worker_provider.py:679-697 | For result schemas that are one composition keyword or one reference, acceptance after rewriting is equivalent to acceptance before |
| `PayloadAgreement.EnrichedInPlaceExact` | packages/re-mcp-core/src/re_mcp/worker_provider.py:664-669 | When the schema is not unwrapped, the rewritten schema accepts the enriched payload exactly when the original accepts the payload as unwrapping leaves it |
| `PayloadAgreement.MixedUnionMismatch` | packages/re-mcp-core/src/re_mcp/worker_provider.py:664-669 | Where the schema was not unwrapped and requires result, an accepted payload stays accepted exactly when it was left alone, or its inner object has a result of its own and is itself accepted |
| `UnionAgreement.VariantExact` | packages/re-mcp-core/src/re_mcp/worker_provider.py:681-691 | In the rewritten document a variant accepts the payload with database exactly when it accepted the payload and, as an inline model, takes a string as its database member |
| `UnionAgreement.UnionExact` | packages/re-mcp-core/src/re_mcp/worker_provider.py:676-691 | The rewritten union accepts the enriched payload exactly when at least one, exactly one or all of its variants do so, for anyOf, oneOf and allOf; the original counts those that accepted the payload |
| `UnionAgreement.UnionKeepsExactly` | packages/re-mcp-core/src/re_mcp/worker_provider.py:676-691 | A payload accepted before stays accepted exactly when, under anyOf, one variant that accepted it takes the member, and under oneOf and allOf all of them do |
| `UnionAgreement.ClosedUnionRejects` | packages/re-mcp-core/src/re_mcp/worker_provider.py:681-691 | A union of inline models that refuse a string member is rewritten to a document that accepts no enriched payload |
| `UnionAgreement.ClosedModelDisagrees` | packages/re-mcp-core/src/re_mcp/worker_provider.py:681-691 | A document with anyOf of one closed model and a payload it accepts, which the rewritten document refuses |
| `UnionAgreement.OneOfStartsAccepting` | packages/re-mcp-core/src/re_mcp/worker_provider.py:681-691 | A document with oneOf of a closed and an open model and a payload it refuses, which the rewritten document accepts |
| `UnionAgreement.MixedUnionDisagrees` | packages/re-mcp-core/src/re_mcp/worker_provider.py:664-669 | A document with anyOf of a model and a string and a payload it accepts, which is unwrapped although the schema is not, and refused |
| `UnionAgreement.ModelUnionIsTolerant` | packages/re-mcp-core/src/re_mcp/worker_provider.py:681-697 | A union of plain references to models, closed or open, meets every hypothesis of the agreement theorems |
| `UnionAgreement.ModelUnionExact` | packages/re-mcp-core/src/re_mcp/worker_provider.py:635-824 | For such results the rewritten schema accepts exactly the enriched payloads of valid results |
| `PayloadAgreement.WrappedScalarStaysWrapped` | packages/re-mcp-core/src/re_mcp/transforms.py:499-511 | A wrapped payload stays as it is exactly when its result is no object |
| `SandboxRewrite.IsSimpleAttrChain` | packages/re-mcp-core/src/re_mcp/sandbox.py:102-132 | The loop decides whether the expression is a name followed by attribute reads |
| `SandboxRewrite.Transformer.VisitAttribute` | packages/re-mcp-core/src/re_mcp/sandbox.py:177-214 | Returns the rewritten node and appends exactly the errors of the subtree, in order |
| `SandboxRewrite.Transformer.VisitAugAssign` | packages/re-mcp-core/src/re_mcp/sandbox.py:216-316 | Returns the rewritten assignment or the placeholder, and appends exactly its errors |
| `SandboxRewrite.Transformer.VisitStmt` | packages/re-mcp-core/src/re_mcp/sandbox.py:135-316 | The traversal computes the rewriting of whole programs and their errors |
| `SandboxRewrite.AcceptedStmtIsGuarded` | packages/re-mcp-core/src/re_mcp/sandbox.py:46-316 | A program accepted without errors has no raw attribute read, no augmented assignment, no unwrapped store or delete, and no forbidden attribute name left |
| `SandboxRewrite.AcceptedBlockIsGuarded` | packages/re-mcp-core/src/re_mcp/sandbox.py:46-316 | The same for a list of statements |
| `SandboxRewrite.RejectedBecomesPass` | packages/re-mcp-core/src/re_mcp/sandbox.py:251-269 | An augmented assignment becomes the placeholder exactly when its target is refused, and then an error is recorded |
| `SandboxPolicy.StmtAcceptedExactly` | packages/re-mcp-core/src/re_mcp/sandbox.py:46-316 | A program is accepted if and only if no attribute name starts with two underscores, ends in __roles__ or is an introspection attribute, no variable starts with an underscore, and every augmented target is dotted |
| `SandboxPolicy.BlockAcceptedExactly` | packages/re-mcp-core/src/re_mcp/sandbox.py:46-316 | The same for lists of statements |
| `SandboxPolicy.ExprErrorsExactly` | packages/re-mcp-core/src/re_mcp/sandbox.py:177-214 | An expression's errors are exactly its attribute names and variables that are not allowed |
| `SandboxPolicy.TargetRefusedExactly` | packages/re-mcp-core/src/re_mcp/sandbox.py:251-269 | A refused augmented target gives exactly one error, of the kind its form calls for, and the placeholder |
| `SandboxPolicy.RewritesTo` | packages/re-mcp-core/src/re_mcp/sandbox.py:177-316 | The four rewritings of attributes and augmented assignments in full, down to the names of the guards |
| `SandboxPolicy.PrivateButNotDunder` | packages/re-mcp-core/src/re_mcp/sandbox.py:185-188 | A read of self._x is accepted and one of x.__class__.__globals__ is not |
| `SandboxRewrite.UnguardUndoesRewrite` | packages/re-mcp-core/src/re_mcp/sandbox.py:177-214 | An accepted expression can be recovered from its rewriting, so no two are confused |
| `SandboxSemantics.RewriteAgrees` | packages/re-mcp-core/src/re_mcp/sandbox.py:177-205 | An accepted expression evaluates as before rewriting, in value, state and exception, unless a guard refuses a read |
| `SandboxSemantics.AugmentedAgrees` | packages/re-mcp-core/src/re_mcp/sandbox.py:271-314 | The double evaluation does what evaluate-once prescribes whenever the prefix read again leads to the same object |
| `SandboxSemantics.UnreboundPrefixIsSteady` | packages/re-mcp-core/src/re_mcp/sandbox.py:105-128 | It does when neither the right-hand side nor the operator rebinds a name or attribute on the prefix |
| `SandboxSemantics.AugmentedExact` | packages/re-mcp-core/src/re_mcp/sandbox.py:236-249 | Under permissive guards the rewriting agrees with evaluate-once if and only if the prefix read again leads to the same object or to one that already holds the value as the first does |
| `SandboxSemantics.RebindingPrefixDiffers` | packages/re-mcp-core/src/re_mcp/sandbox.py:236-249 | A right-hand side that rebinds the prefix makes the two updates land on different objects |
| `SandboxSemantics.UnlistedOperatorFails` | packages/re-mcp-core/src/re_mcp/sandbox.py:461-481 | An operator without an entry raises ValueError where the language would compute |
| `SandboxSemantics.OperatorsExactly` | packages/re-mcp-core/src/re_mcp/sandbox.py:461-481 | Exactly the twelve listed in-place operators are carried out, and every other text raises ValueError |
| `SandboxSemantics.ExecAgrees` | packages/re-mcp-core/src/re_mcp/sandbox.py:135-316 | Every accepted program, loops included, ends as the original does, in the same state or with the same exception, or is stopped by a guard |
| `SandboxSemantics.BlockAgrees` | packages/re-mcp-core/src/re_mcp/sandbox.py:135-316 | The same for a list of statements |
| `SandboxSemantics.PlainProgramAgrees` | packages/re-mcp-core/src/re_mcp/sandbox.py:105-128 | Every accepted program whose augmented right-hand sides only read names and attributes keeps its meaning, from every state, under operators without side effects |
| `Pagination.PaginateIter` | packages/re-mcp-core/src/re_mcp/helpers.py:165-207 | The two loops return the items and has_more of the list form, the bounded total min(n, offset+limit+10000), and consume exactly that many elements |
| `Pagination.PageHoldsItsRange` | packages/re-mcp-core/src/re_mcp/helpers.py:150-162 | The page holds the items of its range that exist, in order, and no others; has_more holds exactly when items remain after it |
| `Pagination.LazyRefinesList` | packages/re-mcp-core/src/re_mcp/helpers.py:150-207 | The lazy page differs from the list page at most in the total, and exactly when more than the look-ahead remains |
| `Pagination.LookaheadIsBounded` | packages/re-mcp-core/src/re_mcp/helpers.py:165-207 | Elements past the look-ahead cannot change the lazy page |
| `Pagination.PagesRebuildTheList` | packages/re-mcp-core/src/re_mcp/helpers.py:150-207 | Following the pages, in either form, terminates and concatenates to the list from the first offset on |
| `Pagination.RequestCount` | packages/re-mcp-core/src/re_mcp/helpers.py:150-207 | The number of requests is the remaining length divided by the limit, rounded up, and at least one |
| `Pagination.NextLineIsFirstUnseen` | packages/re-mcp-ghidra/src/re_mcp_ghidra/helpers.py:439-467 | next_line is given exactly when lines remain and names the first line not shown |
| `Pagination.LinesRebuildTheText` | packages/re-mcp-ghidra/src/re_mcp_ghidra/helpers.py:439-467 | Following next_line and putting the texts under each other gives the whole text |
| `Pagination.JoinHoldsLines` | packages/re-mcp-ghidra/src/re_mcp_ghidra/helpers.py:439-467 | A joined text has every line in its place, one newline between each and the next |
| `DecompileCache.DecompileCache.CachedDecompile` | packages/re-mcp-ghidra/src/re_mcp_ghidra/tools/functions.py:105-124 | Answer, new cache contents and order, and whether decompile ran, for hits, misses and failures; the eviction loop is proved |
| `DecompileCache.DecompileCache.EvictOldest` | packages/re-mcp-ghidra/src/re_mcp_ghidra/tools/functions.py:122-123 | Popping the oldest in a loop leaves the newest entries |
| `DecompileCache.CacheIsTransparent` | packages/re-mcp-ghidra/src/re_mcp_ghidra/tools/functions.py:105-124 | Over every history each returned text equals a fresh decompilation; a successful decompilation is never replaced; only a current cached text hides a failure |
| `DecompileCache.HoldsMostRecent` | packages/re-mcp-ghidra/src/re_mcp_ghidra/tools/functions.py:101-124 | Over every history the cache holds exactly the last at most 8 distinct successfully used functions in recency order |
| `DecompileCache.RecencyIsByLastUse` | packages/re-mcp-ghidra/src/re_mcp_ghidra/tools/functions.py:116-121 | Recency order is the order of last occurrences in the history |
| `DecompileCache.RecencyIsDistinct` | packages/re-mcp-ghidra/src/re_mcp_ghidra/tools/functions.py:116-121 | It lists every used function once |
| `DecompileCache.DecompilesExactlyWhenNeeded` | packages/re-mcp-ghidra/src/re_mcp_ghidra/tools/functions.py:113-118 | A request is a hit if and only if its function is among the 8 most recently used and was last used at the same modification number |
| `FatHeader.DetectFatSlices` | packages/re-mcp-ida/src/re_mcp_ida/exceptions.py:356-418 | The reader with its loop over entries computes the detection function |
| `FatHeader.DetectsEveryHeader` | packages/re-mcp-ida/src/re_mcp_ida/exceptions.py:356-418 | Writing 1 to 32 recognised entries in either width, with any trailing bytes, and detecting gives their names in order |
| `FatHeader.DetectsOnlyHeaders` | packages/re-mcp-ida/src/re_mcp_ida/exceptions.py:356-418 | Slices are reported only for files that start with such a header, and are its names |
| `FatFormat.DetectedExactly` | packages/re-mcp-ida/src/re_mcp_ida/exceptions.py:302-418 | Names are reported exactly for the files whose bytes are CA FE BA BE or CA FE BA BF, a count of 1 to 32, and a complete table of 20- or 32-byte entries that spell them |
| `FatFormat.NameExactly` | packages/re-mcp-ida/src/re_mcp_ida/exceptions.py:314-353 | The name of a slice, by the four bytes of its CPU type and the low three of its subtype |
| `FatHeader.SameNameExactly` | packages/re-mcp-ida/src/re_mcp_ida/exceptions.py:342-353 | Two entries get the same name exactly when their CPU types agree and their subtypes, flags aside, are equal or both unrefined |
| `FatHeader.SliceNumberIsExact` | packages/re-mcp-ida/src/re_mcp_ida/exceptions.py:503-611 | A number k is returned exactly when the checks pass and k is the one position of the requested name |
| `FatFormat.CheckExactly` | packages/re-mcp-ida/src/re_mcp_ida/exceptions.py:503-611 | Each error, and the answer that no slice is needed, exactly by its condition |
| `FatHeader.WrittenSliceIsFound` | packages/re-mcp-ida/src/re_mcp_ida/exceptions.py:356-611 | From bytes to number: asking for the i-th of distinct slices of a written header returns i+1 |
| `FatHeader.DuplicatesAreRepeated` | packages/re-mcp-ida/src/re_mcp_ida/exceptions.py:577 | Duplicates are reported exactly when two slice names coincide |
| `FatHeader.DuplicateIsRepeated` | packages/re-mcp-ida/src/re_mcp_ida/exceptions.py:577 | Every reported duplicate occurs at two positions |
| `FatHeader.RepeatedIsDuplicate` | packages/re-mcp-ida/src/re_mcp_ida/exceptions.py:577 | Every name occurring at two positions is reported |
| `FatFormat.DuplicatesInOrder` | packages/re-mcp-ida/src/re_mcp_ida/exceptions.py:577 | Repeated names are listed once each, in the order in which they first occur |
| `FatHeader.BytesOfWord` | packages/re-mcp-ida/src/re_mcp_ida/exceptions.py:373 | Big-endian words and their four bytes determine each other |
| `MemoryRange.CheckRangeInMemory` | packages/re-mcp-ghidra/src/re_mcp_ghidra/helpers.py:333-368 | The walk terminates without overflow, succeeds exactly when every address of the range is backed as asked, and otherwise names the first bad address and its kind |
| `MemoryRange.VerdictIsUnique` | packages/re-mcp-ghidra/src/re_mcp_ghidra/helpers.py:333-368 | The specification of the check leaves one answer |
| `MemoryRange.Program.WriteMemory` | packages/re-mcp-ghidra/src/re_mcp_ghidra/helpers.py:371-391 | Bad ranges and writes that fail while clearing or while writing leave bytes and code units untouched; a success writes exactly the range and clears exactly the code units touching it |
| `MemoryRange.OverwriteIsUnique` | packages/re-mcp-ghidra/src/re_mcp_ghidra/helpers.py:371-391 | A successful write determines every byte that memory holds afterwards |
| `MemoryBounds.LoadedMemoryBounds` | packages/re-mcp-ghidra/src/re_mcp_ghidra/tools/database.py:87-120 | The loops return the bounds: one space, attained by contributing blocks, enclosing all of them, or nothing if no block contributes |
| `MemoryBounds.BoundsAreUnique` | packages/re-mcp-ghidra/src/re_mcp_ghidra/tools/database.py:87-120 | A list of blocks has one pair of bounds |
| `MemoryBounds.BoundsIgnoreOrder` | packages/re-mcp-ghidra/src/re_mcp_ghidra/tools/database.py:72-80 | Permuting the blocks does not change the bounds |
| `MemoryBounds.BoundsExist` | packages/re-mcp-ghidra/src/re_mcp_ghidra/tools/database.py:87-120 | With a loaded block and no straddling block there are bounds in one space, the right way round if each block is |
| `MemoryBounds.BoundsSpelledOut` | packages/re-mcp-ghidra/src/re_mcp_ghidra/tools/database.py:87-120 | In words of the blocks: one loaded space, the default one if a real block starts there; ends of real blocks if any is loaded; and all of those between them |
| `ThreadingLint.IdaCallFinder.Visit` | scripts/lint_ida_threading.py:127-236 | Visiting records exactly the findings of the subtree although safe nodes are never consulted in them, and marks only nodes of the subtree |
| `ThreadingLint.IdaCallFinder.VisitDispatchCall` | scripts/lint_ida_threading.py:201-219 | The first argument of a dispatcher is skipped, the others and the keywords are visited |
| `ThreadingLint.IdaCallFinder.VisitCall` | scripts/lint_ida_threading.py:175-199 | Dispatchers, bare calls and other calls, each with its findings |
| `ThreadingLint.LintBody` | scripts/lint_ida_threading.py:264-266 | A fresh visitor over a body records the findings of its statements in order |
| `ThreadingLint.CleanExactly` | scripts/lint_ida_threading.py:127-236 | No violation is recorded if and only if there is no IDA reference and no bare dispatch call outside nested definitions and outside the first argument of a dispatcher |
| `ThreadingLint.FindingIsExposed` | scripts/lint_ida_threading.py:127-236 | Every recorded violation comes from an exposed offence outside every bare call |
| `ThreadingLint.ExposedIsFound` | scripts/lint_ida_threading.py:127-236 | Every exposed offence is recorded unless a bare call encloses it, and then something is |
| `ThreadingLint.RecordedExactly` | scripts/lint_ida_threading.py:127-236 | The recorded violations are exactly the exposed offences outside bare calls |
| `LintReports.FindingsInOrder` | scripts/lint_ida_threading.py:127-236 | The violations are the reports on the nodes visited, each before its children, with their codes and texts, in the order of the visit; a definition, a direct call and what is handed to call_ida or async_paginate_iter are not entered |
| `ThreadingLint.RecordedIsEvaluated` | scripts/lint_ida_threading.py:127-236 | Every recorded violation is evaluated on the event loop |
| `ThreadingLint.SafeExactly` | scripts/lint_ida_threading.py:127-236 | The event loop meets no offence if and only if the body is passed and none lies where the linter does not look: decorators, bases, defaults and class bodies of nested definitions, and what a dispatcher evaluates in its first argument |
| `ThreadingLint.MissedIsHidden` | scripts/lint_ida_threading.py:149-159 | Every offence the linter misses lies in a nested definition or in the first argument of a dispatcher |
| `ThreadingLint.DispatchedCallIsMissed` | scripts/lint_ida_threading.py:201-213 | An IDA call made inside the first argument of call_ida runs on the event loop and is passed |
| `ThreadingLint.ClassBodyIsMissed` | scripts/lint_ida_threading.py:155-156 | An IDA reference in the body of a nested class runs on the event loop and is passed |
| `ThreadingLint.BareCallHidesItsArguments` | scripts/lint_ida_threading.py:182-199 | An IDA reference in an argument of a bare call, outside nested definitions and dispatched arguments, goes unrecorded |

## Left out

- PoolMaps.MapsInverseExactly: stale removals are possible in the code, so the property holds of the coherent runs and not of all; the theorem states both directions.
- PayloadAgreement.EnrichedUnwrappedExact: one direction only (`EnrichedUnwrappedValidates`) for a `result` schema with further keywords beside its union, because unwrapping drops those keywords; `UnwrappedAgrees` states exactly what the kept part accepts.
- OutputSchema.FixupOutputSchema: works on values, so the sharing of subtrees inside the deep copy is represented by rewriting the document's `$defs` rather than by aliasing.
- SandboxRewrite.Transformer.VisitStmt: RestrictedPython's base transformer is not part of this model; names are refused when they start with an underscore, the introspection attributes are a parameter, and a refused subscript target is shown as the placeholder.
- SandboxSemantics.ExecAgrees: programs without functions, classes, exception handling, comprehensions or `async` constructs; one world of calls, operators and guards for both sides; properties with side effects on attribute reads; loops run under fuel, for every amount of it.
- SandboxSemantics.BlockAgrees: the same language as `ExecAgrees`, for lists of statements.
- SandboxSemantics.PlainProgramAgrees: the same language again; operators that change attributes in place are outside it.
- UnionAgreement.UnionExact: inline variants that themselves contain a composition, a reference or an enumeration count only where they tolerate the member as they are.
- JsonSchema.PointerTargetIsDefName: definition names with the characters a pointer escapes (`~`, `%`, `/`) are read literally; Pydantic replaces them in the names it generates.
- MemoryRange.CheckRangeInMemory: one address space; blocks of other spaces never contain its addresses.
- DatabaseIds.NormalizedIdIsValid: Unicode lower-casing is an input, the text it yields being arbitrary.
- The schema keywords `patternProperties`, `not`, `if`, numeric and string bounds, and formats; also two that Pydantic writes, `const` (an `enum` of one value) and `prefixItems` (which only constrains arrays); titles and descriptions.
- Mixed unions such as a model or a string: the payload is unwrapped per value while the schema is not; the mismatch is stated exactly (`PayloadAgreement.MixedUnionMismatch`), not repaired.
- Process spawning, signals, transports, timeouts, the exit stack (merged with the client), metadata, warnings, logging and notifications.
- The ready event, `wait_for_ready` and the open status: a dead worker or a restarted pass can be reported ready.
- The daemon, the proxy, and their file locks and wall-clock timeouts.
- The forwarding tools, prompts and resources of both backends, and the meta-tools for search and schemas.
- The fat header reader's file access: a file that cannot be read is an absent byte string; path resolution and the sidecar lookup are inputs of the selection.
- ThreadingLint.SafeExactly: a generator expression counts as evaluated where it is written, although only its first iterable is.
- ThreadingLint.RecordedIsEvaluated: the same reading of generator expressions.
- How the linter finds the async functions it checks and the dispatched names it is given; its table of IDA module names is a parameter.
