/** One worker's analysis passes: the task slot, the flags, and the tasks ever started. */
module AnalysisTasks {
  import opened Wrappers

  datatype TaskStatus = Running | Finished | Cancelled

  /** A pass, with what it has reported so far (`mark_analyzed`, `record_analysis_error`). */
  datatype Task = Task(status: TaskStatus, succeeded: bool, failed: bool)

  /**
   * `slot` is `_analysis_task`, an index into `tasks`; `seeded` records that the worker itself
   * reported the database as analyzed when it opened.
   */
  datatype Passes = Passes(
    tasks: seq<Task>, slot: Option<nat>, analyzed: bool, error: Option<string>, seeded: bool)

  const NONE := Passes([], None, false, None, false)

  predicate Analyzing(a: Passes) {
    a.slot.Some? && a.slot.value < |a.tasks| && a.tasks[a.slot.value].status.Running?
  }

  /** `start_analysis`: join the running task, or start one. */
  function Start(a: Passes): Passes {
    if Analyzing(a) then a
    else a.(tasks := a.tasks + [Task(Running, false, false)], slot := Some(|a.tasks|), error := None)
  }

  /** `_ensure_analysis_started`, for a worker that is active or not. */
  function EnsureStarted(a: Passes, active: bool): Passes {
    if !a.analyzed && !Analyzing(a) && a.error.None? && active then Start(a) else a
  }

  function MarkAnalyzed(a: Passes): Passes {
    a.(analyzed := true, error := None)
  }

  function Seed(a: Passes): Passes {
    MarkAnalyzed(a).(seeded := true)
  }

  /** What can happen to the passes of a worker between two suspensions. */
  datatype Event =
    | Ensure              // a waiter finds no pass has run
    | Succeed(t: nat)     // task t marks the worker analyzed
    | Fail(t: nat, message: string)  // task t records an error
    | Return(t: nat)      // task t runs to its end
    | Cancel(t: nat)      // task t ends cancelled
    | Clear(t: nat)       // cancel_analysis empties the slot after awaiting task t

  /** A task acts while it runs, returns only after a report, and is cleared once it has ended. */
  predicate Enabled(a: Passes, e: Event) {
    match e
    case Ensure => true
    case Succeed(t) => t < |a.tasks| && a.tasks[t].status.Running?
    case Fail(t, _) => t < |a.tasks| && a.tasks[t].status.Running?
    case Return(t) => t < |a.tasks| && a.tasks[t].status.Running? && (a.tasks[t].succeeded || a.tasks[t].failed)
    case Cancel(t) => t < |a.tasks| && a.tasks[t].status.Running?
    case Clear(t) => t < |a.tasks| && !a.tasks[t].status.Running?
  }

  function Apply(a: Passes, e: Event, active: bool): Passes
    requires Enabled(a, e)
  {
    match e
    case Ensure => EnsureStarted(a, active)
    case Succeed(t) => MarkAnalyzed(a.(tasks := a.tasks[t := a.tasks[t].(succeeded := true)]))
    case Fail(t, message) => a.(tasks := a.tasks[t := a.tasks[t].(failed := true)], error := Some(message))
    case Return(t) => a.(tasks := a.tasks[t := a.tasks[t].(status := Finished)])
    case Cancel(t) => a.(tasks := a.tasks[t := a.tasks[t].(status := Cancelled)])
    case Clear(t) => if a.slot == Some(t) then a.(slot := None) else a
  }

  /** Only the last task can be unfinished, it fills the slot, and every report left its mark. */
  ghost predicate Inv(a: Passes) {
    && (a.slot.Some? ==> a.slot.value < |a.tasks|)
    && (forall t | 0 <= t < |a.tasks| :: a.tasks[t].status.Running? ==> t == |a.tasks| - 1 && a.slot == Some(t))
    && (forall t | 0 <= t < |a.tasks| :: a.tasks[t].succeeded ==> a.analyzed)
    && (forall t | 0 <= t < |a.tasks| :: a.tasks[t].status.Finished? ==> a.tasks[t].succeeded || a.tasks[t].failed)
    && (a.seeded ==> a.analyzed)
    && (a.tasks != [] && a.tasks[|a.tasks| - 1].failed ==> a.analyzed || a.error.Some?)
  }

  lemma StartKeepsInv(a: Passes)
    requires Inv(a)
    ensures Inv(Start(a))
  {
  }

  lemma ApplyKeepsInv(a: Passes, e: Event, active: bool)
    requires Inv(a) && Enabled(a, e)
    ensures Inv(Apply(a, e, active))
  {
  }

  lemma AtMostOneRunning(a: Passes, s: nat, t: nat)
    requires Inv(a) && s < |a.tasks| && t < |a.tasks|
    requires a.tasks[s].status.Running? && a.tasks[t].status.Running?
    ensures s == t
  {
  }

  /** A pass is started on demand only where none succeeded and the last one was cancelled. */
  lemma EnsureStartsOnlyAfterCancel(a: Passes, active: bool)
    requires Inv(a) && EnsureStarted(a, active) != a
    ensures active && !a.seeded
    ensures forall t | 0 <= t < |a.tasks| :: !a.tasks[t].succeeded && !a.tasks[t].status.Running?
    ensures a.tasks != [] ==> a.tasks[|a.tasks| - 1].status.Cancelled? && !a.tasks[|a.tasks| - 1].failed
    ensures EnsureStarted(a, active).tasks == a.tasks + [Task(Running, false, false)]
  {
  }

  // ---- Exactly when a pass starts --------------------------------------------------------------

  /** A task in the slot is running. */
  predicate SlotIsRunning(a: Passes) {
    exists t: nat | t < |a.tasks| :: a.slot == Some(t) && a.tasks[t].status == Running
  }

  /** Starting joins the running task; otherwise it adds one, puts it in the slot and forgets the error. */
  lemma StartExactly(a: Passes)
    ensures SlotIsRunning(a) ==> Start(a) == a
    ensures !SlotIsRunning(a) ==>
              Start(a) == Passes(a.tasks + [Task(Running, false, false)], Some(|a.tasks|), a.analyzed, None, a.seeded)
    ensures SlotIsRunning(Start(a))
  {
    var b := Start(a);
    if SlotIsRunning(a) {
      assert Analyzing(a);
    } else {
      assert b.slot == Some(|a.tasks|) && b.tasks[|a.tasks|].status == Running;
    }
  }

  /**
   * A waiter starts a pass exactly on an active worker that is not analyzed, whose slot has no
   * running task and on which no error stands; on every other it changes nothing.
   */
  lemma EnsureStartsExactly(a: Passes, active: bool)
    ensures EnsureStarted(a, active) != a <==> active && !a.analyzed && !SlotIsRunning(a) && a.error == None
    ensures EnsureStarted(a, active) != a ==>
              EnsureStarted(a, active)
              == Passes(a.tasks + [Task(Running, false, false)], Some(|a.tasks|), false, None, a.seeded)
  {
    StartExactly(a);
    assert |a.tasks + [Task(Running, false, false)]| > |a.tasks|;
    assert SlotIsRunning(a) <==> Analyzing(a);
  }

  // ---- Over any sequence of events ---------------------------------------------------------------

  ghost predicate LegalEvents(a: Passes, es: seq<Event>, active: seq<bool>)
    requires |active| == |es|
    decreases |es|
  {
    es == [] || (Enabled(a, es[0]) && LegalEvents(Apply(a, es[0], active[0]), es[1..], active[1..]))
  }

  /** The passes after events that find the worker active or not as `active` says of each. */
  ghost function After(a: Passes, es: seq<Event>, active: seq<bool>): Passes
    requires |active| == |es| && LegalEvents(a, es, active)
    decreases |es|
  {
    if es == [] then a else After(Apply(a, es[0], active[0]), es[1..], active[1..])
  }

  /** What an event does to the mark, the standing error and the reports of each task. */
  lemma EventExactly(a: Passes, e: Event, active: bool)
    requires Enabled(a, e)
    ensures var b := Apply(a, e, active);
            && (b.analyzed <==> a.analyzed || e.Succeed?)
            && (e.Succeed? ==> b.error == None) && (e.Fail? ==> b.error == Some(e.message))
            && (!e.Succeed? && !e.Fail? ==> b.error == a.error)
            && (b.slot == a.slot || (e.Ensure? && b.slot == Some(|a.tasks|)) || (e.Clear? && a.slot == Some(e.t)))
            && (e.Clear? && a.slot == Some(e.t) ==> b.slot == None)
            && |a.tasks| <= |b.tasks| && b.seeded == a.seeded
            && forall t | 0 <= t < |a.tasks| ::
                 && b.tasks[t].succeeded == (a.tasks[t].succeeded || e == Succeed(t))
                 && b.tasks[t].failed == (a.tasks[t].failed || (e.Fail? && e.t == t))
                 && b.tasks[t].status == (if e == Return(t) then Finished
                                          else if e == Cancel(t) then Cancelled else a.tasks[t].status)
  {
    StartExactly(a);
  }

  /** Only a success marks the worker analyzed, and it stays so. */
  lemma {:induction false} AnalyzedExactly(a: Passes, es: seq<Event>, active: seq<bool>)
    requires |active| == |es| && LegalEvents(a, es, active)
    ensures After(a, es, active).analyzed <==> a.analyzed || exists e | e in es :: e.Succeed?
    decreases |es|
  {
    if es != [] {
      EventExactly(a, es[0], active[0]);
      AnalyzedExactly(Apply(a, es[0], active[0]), es[1..], active[1..]);
      assert es == [es[0]] + es[1..];
    }
  }
}
