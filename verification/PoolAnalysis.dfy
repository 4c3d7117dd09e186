/** What the reports of an analysis mean for the rest of the run. */
module PoolAnalysis {
  import opened Wrappers
  import opened PoolModel
  import AnalysisTasks

  /** A pass has succeeded, or the last one that reported has failed. */
  predicate Settled(a: AnalysisTasks.Passes) {
    a.analyzed || a.error.Some?
  }

  /** Steps that start a pass on this worker without asking whether one is needed. */
  predicate StartsOutright(p: Pool, s: Step, ref: nat)
    requires KeysMatch(p)
  {
    || (s.FinishSpawn? && s.ref == ref)
    || (s.AnalyzeCall? && Resolve(p, s.database, s.canonical) == Ok(ref))
  }

  /** Success is never taken back, and a settled worker stays settled unless a pass is started outright. */
  predicate Keeps(a: AnalysisTasks.Passes, b: AnalysisTasks.Passes, outright: bool) {
    && (a.analyzed ==> b.analyzed)
    && (Settled(a) && !outright ==> Settled(b))
  }

  lemma WorkerStepKeeps(w: WorkerData, s: Step)
    requires IsWorkerStep(s) && WorkerEnabled(w, s)
    ensures Keeps(w.passes, WorkerStep(w, s).passes, s.FinishSpawn?)
  {
  }

  lemma OpenKeeps(p: Pool, r: OpenRequest, ref: nat)
    requires KeysMatch(p) && ref < |p.all|
    ensures ref < |Open(p, r).0.all| && Open(p, r).0.all[ref].passes == p.all[ref].passes
  {
    WithoutStaleKeepsKeys(p, r.canonical);
  }

  lemma CallKeeps(p: Pool, database: string, canonical: string, session: Option<string>, blocked: bool, ref: nat)
    requires KeysMatch(p) && ref < |p.all|
    ensures var q := Route(p, database, canonical, session, blocked);
            ref < |q.all| && q.all[ref].passes == p.all[ref].passes
    ensures var q := Analyze(p, database, canonical, session);
            ref < |q.all| && Keeps(p.all[ref].passes, q.all[ref].passes, Resolve(p, database, canonical) == Ok(ref))
  {
  }

  lemma HeldKeeps(p: Pool, s: Step, ref: nat)
    requires KeysMatch(p) && IsWorkerStep(s) && Enabled(p, s) && ref < |p.all|
    ensures ref < |HeldStep(p, s).all|
    ensures Keeps(p.all[ref].passes, HeldStep(p, s).all[ref].passes, StartsOutright(p, s, ref))
  {
    WorkerStepKeeps(p.all[s.ref], s);
  }

  /** Closing and detaching do not touch analyses. */
  lemma CloseKeeps(p: Pool, s: Step, ref: nat)
    requires KeysMatch(p) && (s.CloseDatabase? || s.DetachSession? || s.Terminate? || s.ForceCloseRemaining?)
    requires ref < |p.all|
    ensures ref < |Apply(p, s).all| && Apply(p, s).all[ref].passes == p.all[ref].passes
  {
  }

  lemma StepKeeps(p: Pool, s: Step, ref: nat)
    requires KeysMatch(p) && Enabled(p, s) && ref < |p.all|
    ensures ref < |Apply(p, s).all|
    ensures Keeps(p.all[ref].passes, Apply(p, s).all[ref].passes, StartsOutright(p, s, ref))
  {
    if IsWorkerStep(s) {
      HeldKeeps(p, s, ref);
    } else if s.OpenDatabase? {
      OpenKeeps(p, s.r, ref);
    } else if s.BeginCall? {
      CallKeeps(p, s.database, s.canonical, s.session, s.blocked, ref);
    } else if s.AnalyzeCall? {
      CallKeeps(p, s.database, s.canonical, s.session, false, ref);
    } else {
      CloseKeeps(p, s, ref);
    }
  }

  /** Some step of the run starts a pass on this worker outright. */
  ghost predicate Restarts(p: Pool, steps: seq<Step>, ref: nat)
    requires KeysMatch(p) && Legal(p, steps)
    decreases |steps|
  {
    steps != [] &&
    (StartsOutright(p, steps[0], ref) || (ApplyKeepsKeys(p, steps[0]); Restarts(Apply(p, steps[0]), steps[1..], ref)))
  }

  lemma {:induction false} RunKeeps(p: Pool, steps: seq<Step>, ref: nat)
    requires KeysMatch(p) && Legal(p, steps) && ref < |p.all|
    ensures ref < |Run(p, steps).all|
    ensures Keeps(p.all[ref].passes, Run(p, steps).all[ref].passes, Restarts(p, steps, ref))
    decreases |steps|
  {
    if steps != [] {
      ApplyKeepsKeys(p, steps[0]);
      StepKeeps(p, steps[0], ref);
      RunKeeps(Apply(p, steps[0]), steps[1..], ref);
    }
  }

  lemma SettledStartsNothing(p: Pool, ref: nat)
    requires KeysMatch(p) && ref < |p.all| && Settled(p.all[ref].passes)
    ensures Apply(p, Analysis(ref, AnalysisTasks.Ensure)) == p
  {
    assert p.all[ref := p.all[ref]] == p.all;
  }

  /** Once a worker is marked analyzed, no waiter starts a pass on it in any continuation of the run. */
  lemma AnalyzedIsFinal(p: Pool, steps: seq<Step>, ref: nat)
    requires KeysMatch(p) && Legal(p, steps) && ref < |p.all| && p.all[ref].passes.analyzed
    ensures ref < |Run(p, steps).all| && Apply(Run(p, steps), Analysis(ref, AnalysisTasks.Ensure)) == Run(p, steps)
  {
    RunKeeps(p, steps, ref);
    SettledStartsNothing(Run(p, steps), ref);
  }

  /**
   * Once a pass has recorded an error, no waiter starts another in any continuation of the run
   * that starts none on this worker outright.
   */
  lemma FailureStandsUntilRestart(p: Pool, steps: seq<Step>, ref: nat)
    requires KeysMatch(p) && Legal(p, steps) && ref < |p.all| && p.all[ref].passes.error.Some?
    requires !Restarts(p, steps, ref)
    ensures ref < |Run(p, steps).all| && Apply(Run(p, steps), Analysis(ref, AnalysisTasks.Ensure)) == Run(p, steps)
  {
    RunKeeps(p, steps, ref);
    SettledStartsNothing(Run(p, steps), ref);
  }

  /** Emptying the slot after a cancellation never loses a task that is still running. */
  lemma ClearSparesRunning(p: Pool, ref: nat, t: nat)
    requires KeysMatch(p) && ref < |p.all| && AnalysisTasks.Analyzing(p.all[ref].passes)
    requires Enabled(p, Analysis(ref, AnalysisTasks.Clear(t)))
    ensures Apply(p, Analysis(ref, AnalysisTasks.Clear(t))) == p
  {
    assert p.all[ref := p.all[ref]] == p.all;
  }
}
