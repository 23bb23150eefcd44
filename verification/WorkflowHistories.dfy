/**
 * Whole histories of one operation: any number of runs, each with any faults, each starting
 * from the row the previous one left. The results hold for every world and every step body.
 */
module WorkflowHistories {
  import opened Wrappers
  import opened MutationLedger
  import opened WorkflowEngine

  /** How a service turns a loaded row into a run of the engine. */
  datatype Workflow<!W, !S> = Workflow(
    steps: Step -> seq<StepDefinition<W, S>>,
    initialState: (W, Row) -> S,
    metadata: Row -> Record)

  function Entry<W, S>(wf: Workflow<W, S>, world: W, row: Row): Context<S> {
    Context(row, GetResult(row), wf.initialState(world, row), wf.metadata(row))
  }

  function Resume<W, S>(wf: Workflow<W, S>, faults: seq<Fault>, world: W, row: Row): RunResult<W, S> {
    RunFrom(wf.steps(row.currentStep), 0, faults, world, row, Entry(wf, world, row))
  }

  /** The callers' guard: a completed operation with a result is answered from the ledger. */
  predicate Answered(row: Row) {
    row.status == Status.Completed && GetResult(row).Some?
  }

  function Serve<W, S>(wf: Workflow<W, S>, faults: seq<Fault>, world: W, row: Row): (W, Row) {
    if Answered(row) then (world, row)
    else
      var r := Resume(wf, faults, world, row);
      (r.world, r.row)
  }

  /** Serving one request after another. */
  function Replay<W, S>(wf: Workflow<W, S>, history: seq<seq<Fault>>, world: W, row: Row): (W, Row)
    decreases |history|
  {
    if |history| == 0 then (world, row)
    else
      var (w, r) := Serve(wf, history[0], world, row);
      Replay(wf, history[1..], w, r)
  }

  /** `completed` is absorbing: later requests change neither the world nor the row. */
  lemma {:induction false} CompletedIsAbsorbing<W, S>(wf: Workflow<W, S>, history: seq<seq<Fault>>, world: W, row: Row)
    requires Answered(row)
    ensures Replay(wf, history, world, row) == (world, row)
    decreases |history|
  {
    if |history| > 0 {
      CompletedIsAbsorbing(wf, history[1..], world, row);
    }
  }

  /** A service that checks `gate` before it loads the operation; a refused call changes nothing. */
  function GatedServe<W, S>(wf: Workflow<W, S>, gate: W -> bool, faults: seq<Fault>, world: W, row: Row): (W, Row) {
    if gate(world) then Serve(wf, faults, world, row) else (world, row)
  }

  function GatedReplay<W, S>(wf: Workflow<W, S>, gate: W -> bool, history: seq<seq<Fault>>, world: W, row: Row): (W, Row)
    decreases |history|
  {
    if |history| == 0 then (world, row)
    else
      var (w, r) := GatedServe(wf, gate, history[0], world, row);
      GatedReplay(wf, gate, history[1..], w, r)
  }

  /** Behind a closed gate nothing happens any more. */
  lemma {:induction false} ClosedGate<W, S>(wf: Workflow<W, S>, gate: W -> bool, history: seq<seq<Fault>>, world: W, row: Row)
    requires !gate(world)
    ensures GatedReplay(wf, gate, history, world, row) == (world, row)
    decreases |history|
  {
    if |history| > 0 {
      ClosedGate(wf, gate, history[1..], world, row);
    }
  }

  /** The first effect of a run with these faults happens, if its body returns. */
  predicate Removes(faults: seq<Fault>) {
    var f := FaultAt(faults, 0);
    f.Dies? || f.Throws? ==> f.effect
  }

  ghost predicate NotBegun(row: Row) {
    Unreached(row.currentStep) && row.status != Status.Completed && row.result == map[]
  }

  /** The workflow's first effect closes its own gate; `through` says which runs then still complete. */
  ghost predicate ClosesItsGate<W(!new), S>(wf: Workflow<W, S>, gate: W -> bool, valid: W -> bool, through: seq<Fault> -> bool) {
    forall w, row, faults | valid(w) && gate(w) && NotBegun(row) ::
      var r := Resume(wf, faults, w, row);
      if Removes(faults) then !gate(r.world) && (r.row.currentStep == Step.Completed <==> through(faults))
      else r.world == w && NotBegun(r.row)
  }

  /** The first run whose first effect happens is one that runs through. */
  predicate FirstEffectRunsThrough(history: seq<seq<Fault>>, through: seq<Fault> -> bool) {
    |history| > 0
    && if Removes(history[0]) then through(history[0]) else FirstEffectRunsThrough(history[1..], through)
  }

  /** Such a workflow is completed by a history of calls exactly when its first effective run runs through. */
  lemma {:induction false} GatedCompletion<W(!new), S>(wf: Workflow<W, S>, gate: W -> bool, valid: W -> bool,
      through: seq<Fault> -> bool, history: seq<seq<Fault>>, world: W, row: Row)
    requires ClosesItsGate(wf, gate, valid, through) && valid(world) && gate(world) && NotBegun(row)
    ensures GatedReplay(wf, gate, history, world, row).1.currentStep == Step.Completed
      <==> FirstEffectRunsThrough(history, through)
    decreases |history|
  {
    if |history| > 0 {
      var r := Resume(wf, history[0], world, row);
      if Removes(history[0]) {
        ClosedGate(wf, gate, history[1..], r.world, r.row);
      } else {
        GatedCompletion(wf, gate, valid, through, history[1..], r.world, r.row);
      }
    }
  }

  // ---------------------------------------------------------------- observation

  /** The same step, also logging its label each time its body returns. */
  function Observe<W, S>(step: StepDefinition<W, S>): StepDefinition<(W, seq<Step>), S> {
    StepDefinition(step.step, step.completed, step.status, step.shouldRun,
      (p: (W, seq<Step>), ctx: Context<S>) =>
        match step.run(p.0, ctx)
        case Threw(w) => Threw((w, p.1))
        case Returned(w, u) => Returned((w, p.1 + [step.step]), u))
  }

  function ObserveAll<W, S>(steps: seq<StepDefinition<W, S>>): (r: seq<StepDefinition<(W, seq<Step>), S>>)
    ensures |r| == |steps|
    ensures forall i :: 0 <= i < |steps| ==> r[i] == Observe(steps[i])
  {
    seq(|steps|, i requires 0 <= i < |steps| => Observe(steps[i]))
  }

  function Observed<W, S>(wf: Workflow<W, S>): Workflow<(W, seq<Step>), S> {
    Workflow((loaded: Step) => ObserveAll(wf.steps(loaded)),
             (p: (W, seq<Step>), row: Row) => wf.initialState(p.0, row), wf.metadata)
  }

  /** The body of the attempted step returned. */
  predicate Happened<W, S>(step: StepDefinition<W, S>, fault: Fault, world: W, ctx: Context<S>) {
    step.run(world, ctx).Returned? && (fault.Dies? || fault.Throws? ==> fault.effect)
  }

  lemma ObservedAttempt<W, S>(step: StepDefinition<W, S>, fault: Fault, world: W, log: seq<Step>, row: Row, ctx: Context<S>)
    ensures var o, r := Attempt(Observe(step), fault, (world, log), row, ctx), Attempt(step, fault, world, row, ctx);
            && (o.world.0, o.row, o.finished) == (r.world, r.row, r.finished)
            && o.world.1 == if Happened(step, fault, world, ctx) then log + [step.step] else log
  {
  }

  lemma {:induction false} ObservedRun<W, S>(steps: seq<StepDefinition<W, S>>, i: nat, faults: seq<Fault>, world: W,
                                             log: seq<Step>, row: Row, ctx: Context<S>)
    requires i <= |steps|
    ensures var o := RunFrom(ObserveAll(steps), i, faults, (world, log), row, ctx);
            RunResult(o.world.0, o.row, o.finished) == RunFrom(steps, i, faults, world, row, ctx)
    decreases |steps| - i
  {
    if i < |steps| {
      if steps[i].shouldRun(ctx) {
        ObservedAttempt(steps[i], FaultAt(faults, i), world, log, row, ctx);
        var r := Attempt(ObserveAll(steps)[i], FaultAt(faults, i), (world, log), row, ctx);
        if r.finished.Some? {
          ObservedRun(steps, i + 1, faults, r.world.0, r.world.1, r.row, r.finished.value);
        }
      } else {
        ObservedRun(steps, i + 1, faults, world, log, row, ctx);
      }
    }
  }

  /** Observing changes nothing: dropping the log gives back the unobserved history. */
  lemma {:induction false} ObservedReplay<W, S>(wf: Workflow<W, S>, history: seq<seq<Fault>>, world: W, log: seq<Step>, row: Row)
    ensures var o := Replay(Observed(wf), history, (world, log), row);
            (o.0.0, o.1) == Replay(wf, history, world, row)
    decreases |history|
  {
    if |history| > 0 {
      ObservedRun(wf.steps(row.currentStep), 0, history[0], world, log, row, Entry(wf, world, row));
      var o := Serve(Observed(wf), history[0], (world, log), row);
      ObservedReplay(wf, history[1..], o.0.0, o.0.1, o.1);
    }
  }

  // ---------------------------------------------------------------- ledger soundness

  ghost predicate Plain<S>(update: Option<StepUpdate<S>>) {
    update.Some? ==> update.value.step.None? && update.value.status.None? && update.value.completed.None?
  }

  /** A non-empty result in hand, if there is a result at all. */
  ghost predicate Carried<S>(ctx: Context<S>) {
    ctx.result.Some? ==> |ctx.result.value| > 0
  }

  ghost predicate ReportsIn<W, S>(ret: StepReturn<W, S>, ctx: Context<S>) {
    ret.Returned? ==> Plain(ret.update) && Absorb(ctx, ret.update).result.Some? && Carried(Absorb(ctx, ret.update))
  }

  /** A first step that returns a non-empty result whenever it returns. */
  ghost predicate Initiates<W(!new), S(!new)>(run: Runner<W, S>) {
    forall w, ctx :: Carried(ctx) ==> ReportsIn(run(w, ctx), ctx)
  }

  /** A later step that keeps or replaces the result in hand by a non-empty one. */
  ghost predicate Continues<W(!new), S(!new)>(run: Runner<W, S>) {
    forall w, ctx :: Carried(ctx) && ctx.result.Some? ==> ReportsIn(run(w, ctx), ctx)
  }

  ghost predicate StepReports<W(!new), S(!new)>(step: StepDefinition<W, S>) {
    && !Unreached(step.step)
    && (step.completed <==> step.step == Step.Completed)
    && step.status.None?
    && forall w, ctx :: Carried(ctx) && step.shouldRun(ctx) ==> ReportsIn(step.run(w, ctx), ctx)
  }

  ghost predicate Reporting<W(!new), S(!new)>(steps: seq<StepDefinition<W, S>>) {
    forall i :: 0 <= i < |steps| ==> StepReports(steps[i])
  }

  ghost predicate ReportingWorkflow<W(!new), S(!new)>(wf: Workflow<W, S>) {
    forall loaded :: Reporting(wf.steps(loaded))
  }

  /** Every row past its first step carries a result, and status and step agree on completion. */
  ghost predicate Sound(row: Row) {
    && (row.status == Status.Completed <==> row.currentStep == Step.Completed)
    && (!Unreached(row.currentStep) ==> |row.result| > 0)
  }

  /**
   * How one attempt of a reporting step can leave the row and the log (`grown`: the body's label
   * was appended): untouched, marked failed, or written by the step itself.
   */
  ghost predicate Summary<W, S>(step: StepDefinition<W, S>, row: Row, ctx: Context<S>, r: RunResult<W, S>, grown: bool) {
    && (r.finished.Some? ==> grown && Carried(r.finished.value) && r.finished.value.result.Some? && r.row.currentStep == step.step)
    && (|| (r.row == row && r.finished.None?)
        || (&& r.finished.None? && r.row.currentStep == Step.Failed && r.row.status == Status.Failed
            && (|r.row.result| > 0 ==> |row.result| > 0 || ctx.result.Some? || grown)
            && (|row.result| > 0 ==> |r.row.result| > 0))
        || (&& grown && r.row.currentStep == step.step && |r.row.result| > 0
            && (r.row.status == Status.Completed <==> step.step == Step.Completed)))
  }

  lemma AttemptSummary<W(!new), S(!new)>(step: StepDefinition<W, S>, fault: Fault, world: W, row: Row, ctx: Context<S>)
    requires StepReports(step) && Carried(ctx) && step.shouldRun(ctx)
    ensures Summary(step, row, ctx, Attempt(step, fault, world, row, ctx), Happened(step, fault, world, ctx))
  {
    assert ReportsIn(step.run(world, ctx), ctx);
  }

  /** The body returned `world` and a non-empty acceptable result. */
  ghost predicate Yields<W, S>(ret: StepReturn<W, S>, world: W, ok: Record -> bool) {
    && ret.Returned? && ret.world == world && Plain(ret.update)
    && ret.update.Some? && ret.update.value.result.Some? && ok(ret.update.value.result.value)
  }

  /** The body returned `world` and kept the result acceptable. */
  ghost predicate Keeps<W, S>(ret: StepReturn<W, S>, world: W, ok: Record -> bool) {
    && ret.Returned? && ret.world == world && Plain(ret.update)
    && (ret.update.Some? && ret.update.value.result.Some? ==> ok(ret.update.value.result.value))
  }

  /** One attempt of a body that returns `target` with an acceptable result. */
  ghost predicate Landed<W, S>(step: Step, target: W, ok: Record -> bool, world: W, row: Row, r: RunResult<W, S>) {
    && Sound(r.row) && (|r.row.result| > 0 ==> ok(r.row.result)) && (|row.result| > 0 ==> |r.row.result| > 0)
    && (r.world == world || r.world == target)
    && (r.row.currentStep == row.currentStep || r.row.currentStep == Step.Failed || r.row.currentStep == step)
    && (r.row.currentStep != row.currentStep ==> r.row.currentStep == Step.Failed || r.world == target)
    && (r.finished.Some? ==>
          && r.world == target && r.row.currentStep == step
          && r.finished.value.result.Some? && ok(r.finished.value.result.value)
          && GetResult(r.row) == r.finished.value.result)
  }

  /** A step that is about to return `target` with an acceptable result, on a row and context that have none but acceptable ones. */
  ghost predicate Lands<W, S>(step: StepDefinition<W, S>, target: W, ok: Record -> bool, world: W, row: Row, ctx: Context<S>) {
    && (forall r | ok(r) :: |r| > 0)
    && Sound(row) && (|row.result| > 0 ==> ok(row.result)) && (ctx.result.Some? ==> ok(ctx.result.value))
    && !Unreached(step.step) && step.status.None? && (step.completed <==> step.step == Step.Completed)
    && var ran := step.run(world, ctx);
       Yields(ran, target, ok) || (ctx.result.Some? && Keeps(ran, target, ok))
  }

  lemma LandsWhenWritten<W, S>(step: StepDefinition<W, S>, fault: Fault, target: W, ok: Record -> bool, world: W, row: Row, ctx: Context<S>)
    requires fault.Clean? || fault.WriteThrows?
    requires Lands(step, target, ok, world, row, ctx)
    ensures var r := Attempt(step, fault, world, row, ctx);
            Landed(step.step, target, ok, world, row, r) && (fault.Clean? ==> r.finished.Some?)
  {
  }

  lemma LandsWhenCut<W, S>(step: StepDefinition<W, S>, fault: Fault, target: W, ok: Record -> bool, world: W, row: Row, ctx: Context<S>)
    requires fault.Dies? || fault.Throws?
    requires Lands(step, target, ok, world, row, ctx)
    ensures var r := Attempt(step, fault, world, row, ctx);
            Landed(step.step, target, ok, world, row, r) && (fault.Clean? ==> r.finished.Some?)
  {
  }

  lemma LandsOn<W, S>(step: StepDefinition<W, S>, fault: Fault, target: W, ok: Record -> bool, world: W, row: Row, ctx: Context<S>)
    requires Lands(step, target, ok, world, row, ctx)
    ensures var r := Attempt(step, fault, world, row, ctx);
            Landed(step.step, target, ok, world, row, r) && (fault.Clean? ==> r.finished.Some?)
  {
    if fault.Clean? || fault.WriteThrows? {
      LandsWhenWritten(step, fault, target, ok, world, row, ctx);
    } else {
      LandsWhenCut(step, fault, target, ok, world, row, ctx);
    }
  }

  /** One attempt of a body that throws without effect: at most the failure is recorded. */
  lemma ThrowsOut<W, S>(step: StepDefinition<W, S>, fault: Fault, world: W, row: Row, ctx: Context<S>)
    requires var ran := step.run(world, ctx);
             ran.Threw? && ran.world == world
    requires ctx.result.Some? ==> ctx.result == GetResult(row)
    ensures var r := Attempt(step, fault, world, row, ctx);
            && r.world == world && r.finished.None? && r.row.result == row.result
            && (r.row == row || (r.row.currentStep == Step.Failed && r.row.status == Status.Failed))
  {
  }

  lemma {:induction false} SoundRun<W(!new), S(!new)>(steps: seq<StepDefinition<W, S>>, i: nat, faults: seq<Fault>,
                                                      world: W, row: Row, ctx: Context<S>)
    requires i <= |steps| && Reporting(steps) && Sound(row) && Carried(ctx)
    ensures Sound(RunFrom(steps, i, faults, world, row, ctx).row)
    decreases |steps| - i
  {
    if i < |steps| {
      assert StepReports(steps[i]);
      if steps[i].shouldRun(ctx) {
        AttemptSummary(steps[i], FaultAt(faults, i), world, row, ctx);
        var r := Attempt(steps[i], FaultAt(faults, i), world, row, ctx);
        if r.finished.Some? {
          SoundRun(steps, i + 1, faults, r.world, r.row, r.finished.value);
        }
      } else {
        SoundRun(steps, i + 1, faults, world, row, ctx);
      }
    }
  }

  /** Soundness survives every history, whichever family the steps come from. */
  lemma {:induction false} SoundHistory<W(!new), S(!new)>(wf: Workflow<W, S>, history: seq<seq<Fault>>, world: W, row: Row)
    requires ReportingWorkflow(wf) && Sound(row)
    ensures Sound(Replay(wf, history, world, row).1)
    decreases |history|
  {
    if |history| > 0 {
      SoundRun(wf.steps(row.currentStep), 0, history[0], world, row, Entry(wf, world, row));
      var (w, r) := Serve(wf, history[0], world, row);
      SoundHistory(wf, history[1..], w, r);
    }
  }

  // ---------------------------------------------------------------- the three families

  function LocalFirstWorkflow<W, S>(f: LocalFirst<W, S>, initialState: (W, Row) -> S, metadata: Row -> Record): Workflow<W, S> {
    Workflow((loaded: Step) => LocalFirstSteps(f, loaded), initialState, metadata)
  }

  function UpstreamFirstWorkflow<W, S>(f: UpstreamFirst<W, S>, initialState: (W, Row) -> S, metadata: Row -> Record): Workflow<W, S> {
    Workflow((loaded: Step) => UpstreamFirstSteps(f, loaded), initialState, metadata)
  }

  function DeletionWorkflow<W, S>(f: Deletion<W, S>, initialState: (W, Row) -> S, metadata: Row -> Record): Workflow<W, S> {
    Workflow((loaded: Step) => DeletionSteps(f), initialState, metadata)
  }

  ghost predicate LocalFirstReports<W(!new), S(!new)>(f: LocalFirst<W, S>) {
    Initiates(f.commitLocal) && Continues(f.syncUpstream) && Continues(f.complete)
  }

  lemma FamiliesReport<W(!new), S(!new)>(f: LocalFirst<W, S>, g: UpstreamFirst<W, S>, d: Deletion<W, S>,
                                         s: (W, Row) -> S, m: Row -> Record)
    ensures LocalFirstReports(f) ==> ReportingWorkflow(LocalFirstWorkflow(f, s, m))
    ensures Initiates(g.createUpstream) && Continues(g.linkLocal) && Continues(g.complete)
      ==> ReportingWorkflow(UpstreamFirstWorkflow(g, s, m))
    ensures Initiates(d.commitLocalDelete) && Continues(d.completeDelete)
      ==> ReportingWorkflow(DeletionWorkflow(d, s, m))
  {
  }

  /** With `current-step` proof the commit is attempted exactly on a pending or failed operation. */
  lemma CommitAttemptedExactly<W, S>(f: LocalFirst<W, S>, ctx: Context<S>, loaded: Step)
    requires LocalFirstStep(loaded)
    ensures f.localCommitProof.ByCurrentStep?
      ==> (LocalFirstSteps(f, loaded)[0].shouldRun(ctx) <==> Unreached(loaded))
    ensures f.localCommitProof.ByResult?
      ==> (LocalFirstSteps(f, loaded)[0].shouldRun(ctx) <==> ctx.result.None?)
  {
    ReachedLocalFirst(loaded);
  }

  // ---------------------------------------------------------------- order of effects

  ghost predicate CommittedIn(log: seq<Step>) {
    Step.LocalCommitted in log
  }

  /** Position `i` is the last commit of the log. */
  ghost predicate LastCommit(log: seq<Step>, i: int) {
    0 <= i < |log| && log[i] == Step.LocalCommitted && Step.LocalCommitted !in log[i + 1..]
  }

  /** The last commit is followed by a sync. */
  ghost predicate SyncedSince(log: seq<Step>) {
    exists i, j :: LastCommit(log, i) && i < j < |log| && log[j] == Step.SyncedUpstream
  }

  /** The last commit is followed by a sync, and that sync by a completion. */
  ghost predicate CompletedSince(log: seq<Step>) {
    exists i, j, k :: LastCommit(log, i) && i < j < k < |log| && log[j] == Step.SyncedUpstream && log[k] == Step.Completed
  }

  lemma {:induction false} LastCommitExists(log: seq<Step>) returns (i: int)
    requires CommittedIn(log)
    ensures LastCommit(log, i)
  {
    if log[|log| - 1] == Step.LocalCommitted {
      i := |log| - 1;
    } else {
      var front := log[..|log| - 1];
      assert log == front + [log[|log| - 1]];
      i := LastCommitExists(front);
      assert log[i + 1..] == front[i + 1..] + [log[|log| - 1]];
    }
  }

  lemma ExtendLog(log: seq<Step>, s: Step)
    ensures s == Step.LocalCommitted ==> CommittedIn(log + [s])
    ensures CommittedIn(log) ==> CommittedIn(log + [s])
    ensures CommittedIn(log) && s == Step.SyncedUpstream ==> SyncedSince(log + [s])
    ensures SyncedSince(log) && s != Step.LocalCommitted ==> SyncedSince(log + [s])
    ensures SyncedSince(log) && s == Step.Completed ==> CompletedSince(log + [s])
  {
    var more := log + [s];
    assert more[|log|] == s;
    assert forall x :: x in log ==> x in more;
    if s != Step.LocalCommitted {
      forall i | LastCommit(log, i)
        ensures LastCommit(more, i)
      {
        assert more[i + 1..] == log[i + 1..] + [s];
      }
      if CommittedIn(log) && s == Step.SyncedUpstream {
        var i := LastCommitExists(log);
        assert LastCommit(more, i) && i < |log| < |more|;
      }
      if SyncedSince(log) {
        var i, j :| LastCommit(log, i) && i < j < |log| && log[j] == Step.SyncedUpstream;
        assert LastCommit(more, i) && more[j] == Step.SyncedUpstream;
        if s == Step.Completed {
          assert i < j < |log| < |more|;
        }
      }
    }
  }

  /** What the row of a local-first operation says about the effects logged so far. */
  ghost predicate Truthful(row: Row, log: seq<Step>) {
    && Sound(row)
    && (|row.result| > 0 ==> CommittedIn(log))
    && (row.currentStep == Step.SyncedUpstream ==> SyncedSince(log))
    && (row.currentStep == Step.Completed ==> CompletedSince(log))
  }

  /** One attempt keeps the row truthful, if the body's label fits the log it extends. */
  lemma TruthfulAttempt<W, S>(step: StepDefinition<W, S>, log: seq<Step>, row: Row, ctx: Context<S>, r: RunResult<W, S>, grown: bool)
    requires Summary(step, row, ctx, r, grown) && Truthful(row, log)
    requires ctx.result.Some? ==> CommittedIn(log)
    requires step.step == Step.LocalCommitted || step.step == Step.SyncedUpstream || step.step == Step.Completed
    requires step.step == Step.SyncedUpstream ==> CommittedIn(log)
    requires step.step == Step.Completed ==> SyncedSince(log)
    // A commit is only attempted while the row is neither synced nor completed.
    requires step.step == Step.LocalCommitted ==> Unreached(row.currentStep)
    requires row.currentStep != Step.Completed
    ensures Truthful(r.row, if grown then log + [step.step] else log)
  {
    ExtendLog(log, step.step);
  }

  /** What the i-th step of a local-first run needs to hold when the loop reaches it. */
  ghost predicate Ready<S>(loaded: Step, i: nat, log: seq<Step>, row: Row, ctx: Context<S>) {
    && Truthful(row, log) && Carried(ctx) && (ctx.result.Some? ==> CommittedIn(log))
    && (i == 0 ==> row.currentStep == loaded && ctx.result == GetResult(row))
    && (i == 1 ==> ctx.result.Some? && (loaded == Step.SyncedUpstream ==> row.currentStep == loaded))
    && (i == 2 ==> ctx.result.Some? && SyncedSince(log))
    && (i < 3 ==> Unfinished(row.currentStep))
    && LocalFirstStep(row.currentStep)
  }

  lemma ReadyNext<W(!new), S(!new)>(f: LocalFirst<W, S>, loaded: Step, i: nat, log: seq<Step>, row: Row, ctx: Context<S>,
                                    r: RunResult<W, S>, grown: bool)
    requires i < 3 && Ready(loaded, i, log, row, ctx)
    requires Unfinished(loaded)
    ensures var step := LocalFirstSteps(f, loaded)[i];
            var more := if grown then log + [step.step] else log;
            if step.shouldRun(ctx) then
              Summary(step, row, ctx, r, grown) ==>
                && Truthful(r.row, more) && LocalFirstStep(r.row.currentStep)
                && (r.finished.Some? ==> Ready(loaded, i + 1, more, r.row, r.finished.value))
            else Ready(loaded, i + 1, log, row, ctx)
  {
    ReachedLocalFirst(loaded);
    var step := LocalFirstSteps(f, loaded)[i];
    if step.shouldRun(ctx) && Summary(step, row, ctx, r, grown) {
      TruthfulAttempt(step, log, row, ctx, r, grown);
      ExtendLog(log, step.step);
    }
  }

  /** Steps `i` and later of a local-first run, whose loaded step was `loaded`. */
  lemma {:induction false} TruthfulRun<W(!new), S(!new)>(f: LocalFirst<W, S>, loaded: Step, i: nat, faults: seq<Fault>, world: W,
                                                         log: seq<Step>, row: Row, ctx: Context<S>)
    requires i <= 3 && LocalFirstReports(f) && Ready(loaded, i, log, row, ctx)
    requires Unfinished(loaded)
    ensures var r := RunFrom(ObserveAll(LocalFirstSteps(f, loaded)), i, faults, (world, log), row, ctx);
            Truthful(r.row, r.world.1) && LocalFirstStep(r.row.currentStep)
    decreases 3 - i
  {
    if i < 3 {
      var step := LocalFirstSteps(f, loaded)[i];
      var fault := FaultAt(faults, i);
      var grown := Happened(step, fault, world, ctx);
      var r := Attempt(step, fault, world, row, ctx);
      ReadyNext(f, loaded, i, log, row, ctx, r, grown);
      if step.shouldRun(ctx) {
        assert StepReports(step);
        AttemptSummary(step, fault, world, row, ctx);
        ObservedAttempt(step, fault, world, log, row, ctx);
        if r.finished.Some? {
          TruthfulRun(f, loaded, i + 1, faults, r.world, if grown then log + [step.step] else log, r.row, r.finished.value);
        }
      } else {
        TruthfulRun(f, loaded, i + 1, faults, world, log, row, ctx);
      }
    }
  }

  /**
   * Over any history of a new local-first operation, a completed row means that the last commit
   * is followed by a sync that returned and then by a completion that returned.
   */
  lemma {:induction false} TruthfulHistory<W(!new), S(!new)>(f: LocalFirst<W, S>, s: (W, Row) -> S, m: Row -> Record,
                                                             history: seq<seq<Fault>>, world: W, log: seq<Step>, row: Row)
    requires LocalFirstReports(f) && Truthful(row, log)
    requires LocalFirstStep(row.currentStep)
    ensures var o := Replay(Observed(LocalFirstWorkflow(f, s, m)), history, (world, log), row);
            Truthful(o.1, o.0.1)
    decreases |history|
  {
    if |history| > 0 {
      var wf := Observed(LocalFirstWorkflow(f, s, m));
      if !Answered(row) {
        TruthfulRun(f, row.currentStep, 0, history[0], world, log, row, Entry(LocalFirstWorkflow(f, s, m), world, row));
      }
      var o := Serve(wf, history[0], (world, log), row);
      TruthfulHistory(f, s, m, history[1..], o.0.0, o.0.1, o.1);
    }
  }

  /** From a fresh row and nothing done, a completed row is evidence of commit, sync and completion, in this order. */
  lemma CompletedIsEvidence<W(!new), S(!new)>(f: LocalFirst<W, S>, s: (W, Row) -> S, m: Row -> Record, history: seq<seq<Fault>>,
                                              world: W, row: Row)
    requires LocalFirstReports(f) && row.currentStep == Step.Pending && row.status == Status.InProgress && row.result == map[]
    ensures var o := Replay(Observed(LocalFirstWorkflow(f, s, m)), history, (world, []), row);
            && (o.1.status == Status.Completed ==> CompletedSince(o.0.1) && |o.1.result| > 0)
            && (|o.1.result| > 0 ==> CommittedIn(o.0.1))
  {
    TruthfulHistory(f, s, m, history, world, [], row);
  }

  // ---------------------------------------------------------------- re-execution

  function Count(log: seq<Step>, s: Step): nat {
    if |log| == 0 then 0 else Count(log[..|log| - 1], s) + if log[|log| - 1] == s then 1 else 0
  }

  /** The result is the proof of the first step, and only the first step runs without a result. */
  ghost predicate ProvenByResult<W(!new), S(!new)>(wf: Workflow<W, S>, first: Step) {
    forall loaded ::
      var steps := wf.steps(loaded);
      && |steps| > 0 && Reporting(steps) && steps[0].step == first
      && (forall ctx :: steps[0].shouldRun(ctx) <==> ctx.result.None?)
      && forall i, ctx :: 0 < i < |steps| ==> steps[i].step != first && (steps[i].shouldRun(ctx) ==> ctx.result.Some?)
  }

  lemma ResultProofFamilies<W(!new), S(!new)>(f: LocalFirst<W, S>, g: UpstreamFirst<W, S>, d: Deletion<W, S>,
                                              s: (W, Row) -> S, m: Row -> Record)
    ensures LocalFirstReports(f) && f.localCommitProof.ByResult?
      ==> ProvenByResult(LocalFirstWorkflow(f, s, m), Step.LocalCommitted)
    ensures Initiates(g.createUpstream) && Continues(g.linkLocal) && Continues(g.complete)
      ==> ProvenByResult(UpstreamFirstWorkflow(g, s, m), Step.UpstreamCreated)
    ensures Initiates(d.commitLocalDelete) && Continues(d.completeDelete)
      ==> ProvenByResult(DeletionWorkflow(d, s, m), Step.LocalCommitted)
  {
    FamiliesReport(f, g, d, s, m);
  }

  /** Runs whose first effect happened and left no result in the ledger. */
  function Losses<W, S>(wf: Workflow<W, S>, first: Step, history: seq<seq<Fault>>, world: W, log: seq<Step>, row: Row): nat
    decreases |history|
  {
    if |history| == 0 then 0
    else
      var o := Serve(Observed(wf), history[0], (world, log), row);
      (if Count(o.0.1, first) > Count(log, first) && GetResult(o.1).None? then 1 else 0)
        + Losses(wf, first, history[1..], o.0.0, o.0.1, o.1)
  }

  function Recorded(row: Row): nat {
    if GetResult(row).Some? then 1 else 0
  }

  /** Once a result is in hand, the rest of the run repeats no first effect and loses no result. */
  lemma {:induction false} LaterSteps<W(!new), S(!new)>(steps: seq<StepDefinition<W, S>>, first: Step, i: nat, faults: seq<Fault>,
                                                        world: W, log: seq<Step>, row: Row, ctx: Context<S>)
    requires 0 < i <= |steps| && Reporting(steps) && Carried(ctx) && ctx.result.Some? && GetResult(row).Some?
    requires forall k :: 0 < k < |steps| ==> steps[k].step != first
    ensures var r := RunFrom(ObserveAll(steps), i, faults, (world, log), row, ctx);
            Count(r.world.1, first) == Count(log, first) && GetResult(r.row).Some?
    decreases |steps| - i
  {
    if i < |steps| {
      assert StepReports(steps[i]);
      if steps[i].shouldRun(ctx) {
        AttemptSummary(steps[i], FaultAt(faults, i), world, row, ctx);
        ObservedAttempt(steps[i], FaultAt(faults, i), world, log, row, ctx);
        var r := Attempt(ObserveAll(steps)[i], FaultAt(faults, i), (world, log), row, ctx);
        assert (log + [steps[i].step])[..|log|] == log;
        if r.finished.Some? {
          LaterSteps(steps, first, i + 1, faults, r.world.0, r.world.1, r.row, r.finished.value);
        }
      } else {
        LaterSteps(steps, first, i + 1, faults, world, log, row, ctx);
      }
    }
  }

  /** One run: either the result is stored and the first step skipped, or it runs at most once. */
  lemma FirstStep<W(!new), S(!new)>(wf: Workflow<W, S>, first: Step, faults: seq<Fault>, world: W, log: seq<Step>, row: Row)
    requires ProvenByResult(wf, first)
    ensures var r := Resume(Observed(wf), faults, (world, log), row);
            && (GetResult(row).Some? ==> Count(r.world.1, first) == Count(log, first) && GetResult(r.row).Some?)
            && (GetResult(row).None? ==> Count(log, first) + Recorded(r.row) <= Count(r.world.1, first) <= Count(log, first) + 1)
  {
    var steps := wf.steps(row.currentStep);
    var ctx := Entry(wf, world, row);
    assert StepReports(steps[0]);
    if GetResult(row).Some? {
      LaterSteps(steps, first, 1, faults, world, log, row, ctx);
    } else {
      AttemptSummary(steps[0], FaultAt(faults, 0), world, row, ctx);
      ObservedAttempt(steps[0], FaultAt(faults, 0), world, log, row, ctx);
      assert (log + [first])[..|log|] == log;
      var r := Attempt(ObserveAll(steps)[0], FaultAt(faults, 0), (world, log), row, ctx);
      if r.finished.Some? {
        LaterSteps(steps, first, 1, faults, r.world.0, r.world.1, r.row, r.finished.value);
      }
    }
  }

  /**
   * The exact count: over any history of a new operation, the first effect happened once for
   * every loss and once more if its result is recorded now.
   */
  lemma {:induction false} ReexecutionCount<W(!new), S(!new)>(wf: Workflow<W, S>, first: Step, history: seq<seq<Fault>>,
                                                              world: W, log: seq<Step>, row: Row)
    requires ProvenByResult(wf, first)
    ensures var o := Replay(Observed(wf), history, (world, log), row);
            Count(o.0.1, first) + Recorded(row)
              == Count(log, first) + Losses(wf, first, history, world, log, row) + Recorded(o.1)
    decreases |history|
  {
    if |history| > 0 {
      FirstStep(wf, first, history[0], world, log, row);
      var o := Serve(Observed(wf), history[0], (world, log), row);
      ReexecutionCount(wf, first, history[1..], o.0.0, o.0.1, o.1);
    }
  }
}
