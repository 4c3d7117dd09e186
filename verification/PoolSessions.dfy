/**
 * Who is attached to a worker: exactly the sessions that opened, called or analyzed it and have
 * not closed or left it since, over any run.
 */
module PoolSessions {
  import opened Wrappers
  import opened PoolModel
  import opened PoolOutcomes
  import PoolSafety

  // ---- One step ----------------------------------------------------------------------------------

  /** The worker an opening ends up with. */
  predicate Holds(o: OpenOutcome, ref: nat) {
    o == AlreadyOpen(ref) || o == AlreadyOpening(ref) || o == Opening(ref)
  }

  /** Whatever worker an opening ends up with is registered under the path and has the session. */
  lemma OpeningAttaches(p: Pool, r: OpenRequest, s: string, ref: nat)
    requires KeysMatch(p) && r.session == Some(s) && Holds(Open(p, r).1, ref)
    ensures var q := Open(p, r).0;
            && ref < |q.all| && Registered(q, ref) && q.all[ref].path == r.canonical && s in q.all[ref].sessions
            && (forall t | t != s :: t in q.all[ref].sessions <==> ref < |p.all| && t in p.all[ref].sessions)
  {
    if IsLiveAt(p, r.canonical) {
      JoiningExactly(p, r);
    } else {
      CreationExactly(p, r);
    }
  }

  /** The step brings the session to this worker, which exists already. */
  predicate Joins(p: Pool, step: Step, ref: nat, s: string)
    requires KeysMatch(p) && Enabled(p, step)
  {
    || (step.OpenDatabase? && step.r.session == Some(s)
        && IsLiveAt(p, step.r.canonical) && p.byPath[step.r.canonical] == ref)
    || (step.BeginCall? && step.session == Some(s)
        && Resolve(p, step.database, step.canonical) == Ok(ref) && !(step.blocked && InAnalysis(p.all[ref])))
    || (step.AnalyzeCall? && step.session == Some(s) && Resolve(p, step.database, step.canonical) == Ok(ref))
  }

  /** The session closes this worker, forced or not, or leaves the pool while the worker is live. */
  predicate Leaves(p: Pool, step: Step, ref: nat, s: string)
    requires KeysMatch(p) && Enabled(p, step) && ref < |p.all|
  {
    || (step.CloseDatabase? && step.session == Some(s) && Resolve(p, step.database, step.canonical) == Ok(ref))
    || (step.DetachSession? && step.leaving == s && Registered(p, ref) && p.all[ref].raw != Dead)
  }

  /** What a step makes of the sessions of one worker. */
  ghost predicate SessionsFollow(p: Pool, q: Pool, step: Step, ref: nat)
    requires KeysMatch(p) && Enabled(p, step) && ref < |p.all|
  {
    && ref < |q.all|
    && forall s :: s in q.all[ref].sessions <==>
         Joins(p, step, ref, s) || (s in p.all[ref].sessions && !Leaves(p, step, ref, s))
  }

  lemma OpenFollows(p: Pool, step: Step, ref: nat)
    requires KeysMatch(p) && Enabled(p, step) && ref < |p.all| && step.OpenDatabase?
    ensures SessionsFollow(p, Apply(p, step), step, ref)
  {
    if IsLiveAt(p, step.r.canonical) {
      JoiningExactly(p, step.r);
    } else if Open(p, step.r).1.Opening? {
      CreationExactly(p, step.r);
    } else {
      RefusalExactly(p, step.r);
    }
  }

  lemma CallFollows(p: Pool, step: Step, ref: nat)
    requires KeysMatch(p) && Enabled(p, step) && ref < |p.all| && (step.BeginCall? || step.AnalyzeCall?)
    ensures SessionsFollow(p, Apply(p, step), step, ref)
  {
    if step.BeginCall? {
      RouteExactly(p, step.database, step.canonical, step.session, step.blocked);
    } else {
      AnalyzeExactly(p, step.database, step.canonical, step.session);
    }
  }

  lemma CloseFollows(p: Pool, step: Step, ref: nat)
    requires KeysMatch(p) && Enabled(p, step) && ref < |p.all| && step.CloseDatabase?
    ensures SessionsFollow(p, Apply(p, step), step, ref)
  {
    CloseDatabaseExactly(p, step.database, step.canonical, step.session, step.force);
    var found := Resolve(p, step.database, step.canonical);
    if found.Ok? {
      CloseOutcomeExactly(p, found.value, step.session, step.force);
      CloseEffectExactly(p, found.value, step.session, step.force);
    }
  }

  lemma DetachFollows(p: Pool, step: Step, ref: nat)
    requires KeysMatch(p) && Enabled(p, step) && ref < |p.all| && step.DetachSession?
    ensures SessionsFollow(p, Apply(p, step), step, ref)
  {
    DetachExactly(p, step.leaving, step.terminate, ref);
  }

  /** One step, exactly: a session is attached afterwards if it joined, or was and did not leave. */
  lemma StepFollows(p: Pool, step: Step, ref: nat)
    requires KeysMatch(p) && Enabled(p, step) && ref < |p.all|
    ensures SessionsFollow(p, Apply(p, step), step, ref)
  {
    if IsWorkerStep(step) {
      HeldEntriesExactly(p, step);
    } else if step.OpenDatabase? {
      OpenFollows(p, step, ref);
    } else if step.BeginCall? || step.AnalyzeCall? {
      CallFollows(p, step, ref);
    } else if step.CloseDatabase? {
      CloseFollows(p, step, ref);
    } else if step.DetachSession? {
      DetachFollows(p, step, ref);
    } else if step.Terminate? {
      TerminateExactly(p, step.path);
    } else {
      ForceCloseExactly(p, ref);
    }
  }

  // ---- Whole runs --------------------------------------------------------------------------------

  /** Whether the session is attached once the run is over, read off the steps in order. */
  ghost predicate AttachedAfter(p: Pool, steps: seq<Step>, ref: nat, s: string, attached: bool)
    requires KeysMatch(p) && Legal(p, steps) && ref < |p.all|
    decreases |steps|
  {
    if steps == [] then attached
    else
      var now := Joins(p, steps[0], ref, s) || (attached && !Leaves(p, steps[0], ref, s));
      ApplyKeepsKeys(p, steps[0]);
      AttachedAfter(Apply(p, steps[0]), steps[1..], ref, s, now)
  }

  /** Over any run, a session is attached exactly when its last coming is after its last leaving. */
  lemma {:induction false} AttachedExactly(p: Pool, steps: seq<Step>, ref: nat, s: string)
    requires KeysMatch(p) && Legal(p, steps) && ref < |p.all|
    ensures ref < |Run(p, steps).all|
    ensures s in Run(p, steps).all[ref].sessions <==> AttachedAfter(p, steps, ref, s, s in p.all[ref].sessions)
    decreases |steps|
  {
    if steps != [] {
      ApplyKeepsKeys(p, steps[0]);
      StepFollows(p, steps[0], ref);
      AttachedExactly(Apply(p, steps[0]), steps[1..], ref, s);
    }
  }

  /** The step closes a database for the session, or is the session leaving the pool. */
  predicate IsDeparture(step: Step, s: string) {
    (step.CloseDatabase? && step.session == Some(s)) || (step.DetachSession? && step.leaving == s)
  }

  /** Without a departure of its own, a session stays attached, whatever everybody else does. */
  lemma {:induction false} StaysAttached(p: Pool, steps: seq<Step>, ref: nat, s: string)
    requires KeysMatch(p) && Legal(p, steps) && ref < |p.all| && s in p.all[ref].sessions
    requires forall step | step in steps :: !IsDeparture(step, s)
    ensures ref < |Run(p, steps).all| && s in Run(p, steps).all[ref].sessions
    decreases |steps|
  {
    if steps != [] {
      ApplyKeepsKeys(p, steps[0]);
      StepFollows(p, steps[0], ref);
      assert !IsDeparture(steps[0], s) && !Leaves(p, steps[0], ref, s);
      StaysAttached(Apply(p, steps[0]), steps[1..], ref, s);
    }
  }

  /** From any pool, the session that opened a worker stays attached to it until it departs. */
  lemma OpenerStaysAttached(p: Pool, r: OpenRequest, s: string, ref: nat, q: Pool, more: seq<Step>)
    requires KeysMatch(p) && r.session == Some(s) && Open(p, r).0 == q && Holds(Open(p, r).1, ref)
    requires KeysMatch(q) && Legal(q, more)
    requires forall step | step in more :: !IsDeparture(step, s)
    ensures ref < |Run(q, more).all| && s in Run(q, more).all[ref].sessions
  {
    OpeningAttaches(p, r, s, ref);
    StaysAttached(q, more, ref, s);
  }

  // ---- Whose close ends a worker -------------------------------------------------------------------

  /** An unforced close by one session, or a session leaving, spares every worker another one holds. */
  lemma OthersKeepTheWorker(p: Pool, step: Step, ref: nat, s: string)
    requires KeysMatch(p) && Enabled(p, step) && ref < |p.all| && Registered(p, ref)
    requires s in p.all[ref].sessions
    requires PoolSafety.ClosingSession(step).Some? && PoolSafety.ClosingSession(step) != Some(s)
    ensures ref < |Apply(p, step).all| && Registered(Apply(p, step), ref) && s in Apply(p, step).all[ref].sessions
  {
    ApplyKeepsKeys(p, step);
    StepFollows(p, step, ref);
    if !Registered(Apply(p, step), ref) {
      PoolSafety.CloseSparesOtherSessions(p, step, ref);
    }
  }

  /**
   * What may happen around a held worker without ending it: anything but a departure of the
   * holder, a close that is forced or for no session, the shutdown, and a removal under the
   * worker's path or ID by a failing task, a failed close, or an opening over its dead body.
   */
  predicate Spares(p: Pool, step: Step, ref: nat, s: string)
    requires KeysMatch(p) && Enabled(p, step) && ref < |p.all|
  {
    && !IsDeparture(step, s) && !step.ForceCloseRemaining?
    && (step.CloseDatabase? ==> !step.force && step.session.Some?)
    && (step.Terminate? ==> step.path != p.all[ref].path)
    && (step.RemoveSpawn? || step.MarkDead? ==> p.all[step.ref].path != p.all[ref].path)
    && (step.OpenDatabase? && step.r.canonical == p.all[ref].path ==> p.all[ref].raw != Dead)
  }

  lemma SparedStaysRegistered(p: Pool, step: Step, ref: nat, s: string)
    requires KeysMatch(p) && Enabled(p, step) && ref < |p.all| && Registered(p, ref)
    requires s in p.all[ref].sessions && Spares(p, step, ref, s)
    ensures ref < |Apply(p, step).all| && Registered(Apply(p, step), ref) && s in Apply(p, step).all[ref].sessions
  {
    ApplyKeepsKeys(p, step);
    StepFollows(p, step, ref);
    if PoolSafety.ClosingSession(step).Some? {
      OthersKeepTheWorker(p, step, ref, s);
    } else if IsWorkerStep(step) {
      HeldEntriesExactly(p, step);
    } else if step.OpenDatabase? {
      OpeningKeepsOthers(p, step.r, ref);
    } else if step.BeginCall? || step.AnalyzeCall? {
      CallKeepsEntries(p, step);
    }
  }

  lemma OpeningKeepsOthers(p: Pool, r: OpenRequest, ref: nat)
    requires KeysMatch(p) && ref < |p.all| && Registered(p, ref)
    requires r.canonical == p.all[ref].path ==> p.all[ref].raw != Dead
    ensures ref < |Open(p, r).0.all| && Registered(Open(p, r).0, ref)
  {
    if IsLiveAt(p, r.canonical) {
      JoiningExactly(p, r);
    } else if Open(p, r).1.Opening? {
      CreationExactly(p, r);
    } else {
      RefusalExactly(p, r);
    }
  }

  lemma CallKeepsEntries(p: Pool, step: Step)
    requires KeysMatch(p) && Enabled(p, step) && (step.BeginCall? || step.AnalyzeCall?)
    ensures Apply(p, step).byPath == p.byPath
  {
  }

  /** Every step of the run spares the worker held by the session. */
  ghost predicate SparesThroughout(p: Pool, steps: seq<Step>, ref: nat, s: string)
    requires KeysMatch(p) && Legal(p, steps) && ref < |p.all|
    decreases |steps|
  {
    steps == [] ||
    (Spares(p, steps[0], ref, s)
     && (ApplyKeepsKeys(p, steps[0]); SparesThroughout(Apply(p, steps[0]), steps[1..], ref, s)))
  }

  /** Over any such run, a worker that a session holds stays registered and held. */
  lemma {:induction false} HeldWorkerStays(p: Pool, steps: seq<Step>, ref: nat, s: string)
    requires KeysMatch(p) && Legal(p, steps) && ref < |p.all| && Registered(p, ref)
    requires s in p.all[ref].sessions && SparesThroughout(p, steps, ref, s)
    ensures var q := Run(p, steps); ref < |q.all| && Registered(q, ref) && s in q.all[ref].sessions
    decreases |steps|
  {
    if steps != [] {
      ApplyKeepsKeys(p, steps[0]);
      SparedStaysRegistered(p, steps[0], ref, s);
      HeldWorkerStays(Apply(p, steps[0]), steps[1..], ref, s);
    }
  }
}
