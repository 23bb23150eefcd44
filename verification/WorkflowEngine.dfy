/**
 * The resumable workflow engine (api/src/lib/cross-system-workflow-engine.ts).
 *
 * `W` is the state of the two databases other than the ledger; a step is a function on it.
 * What a real run may suffer in a step is a `Fault`, so a run is determined by its faults.
 */
module WorkflowEngine {
  import opened Wrappers
  import opened MutationLedger

  datatype Context<+S> = Context(operation: Row, result: Option<Record>, state: S, metadata: Record)

  datatype StepUpdate<+S> = StepUpdate(
    completed: Option<bool>,
    metadata: Option<Record>,
    organizationId: Option<Option<nat>>,
    result: Option<Record>,
    state: Option<S>,
    status: Option<Status>,
    step: Option<Step>,
    userId: Option<Option<string>>)

  /** A step body either throws or returns, possibly without an update. */
  datatype StepReturn<+W, +S> = Threw(world: W) | Returned(world: W, update: Option<StepUpdate<S>>)

  type Runner<!W, !S> = (W, Context<S>) -> StepReturn<W, S>

  datatype StepDefinition<!W, !S> = StepDefinition(
    step: Step,
    completed: bool,
    status: Option<Status>,
    shouldRun: Context<S> -> bool,
    run: Runner<W, S>)

  /**
   * What happens to one attempted step:
   * - `Dies`: the process stops inside the step, before or after its effect, and nothing is recorded;
   * - `Throws`: the body throws before or after its effect; the failure write lands iff `recorded`;
   * - `WriteThrows`: the body returns, the progress write throws (after landing, iff `applied`),
   *   and the failure write lands iff `recorded`.
   */
  datatype Fault =
    | Clean
    | Dies(effect: bool)
    | Throws(effect: bool, recorded: bool)
    | WriteThrows(applied: bool, recorded: bool)

  /** `finished` is `None` when the run was cut short. */
  datatype RunResult<+W, +S> = RunResult(world: W, row: Row, finished: Option<Context<S>>)

  function ProgressOf<W, S>(step: StepDefinition<W, S>, update: Option<StepUpdate<S>>, after: Context<S>): Progress {
    match update
    case None =>
      Progress(step.step, Some(if step.completed then Status.Completed else step.status.GetOr(Status.InProgress)),
               None, None, after.result, Some(after.metadata), Some(None), step.completed)
    case Some(u) =>
      Progress(u.step.GetOr(step.step),
               Some(u.status.GetOr(if u.completed.GetOr(false) || step.completed then Status.Completed
                                   else step.status.GetOr(Status.InProgress))),
               u.organizationId, u.userId, after.result, Some(after.metadata), Some(None),
               u.completed.GetOr(step.completed))
  }

  function FailureOf<S>(ctx: Context<S>): Progress {
    Progress(Step.Failed, Some(Status.Failed), None, None, ctx.result, Some(ctx.metadata),
             Some(Some(map["message" := Text("error")])), false)
  }

  /** The loop variables after a body returned. */
  function Absorb<S>(ctx: Context<S>, update: Option<StepUpdate<S>>): Context<S> {
    match update
    case None => ctx
    case Some(u) =>
      Context(ctx.operation,
              if u.result.Some? then u.result else ctx.result,
              u.state.GetOr(ctx.state),
              if u.metadata.Some? then ctx.metadata + u.metadata.value else ctx.metadata)
  }

  function RecordFailure<S>(row: Row, ctx: Context<S>, recorded: bool): Row {
    if recorded then Apply(row, FailureOf(ctx)) else row
  }

  /** One iteration of the loop on a step that is not skipped. */
  function Attempt<W, S>(step: StepDefinition<W, S>, fault: Fault, world: W, row: Row, ctx: Context<S>): RunResult<W, S> {
    var ran := step.run(world, ctx);
    match fault
    case Dies(effect) => RunResult(if effect then ran.world else world, row, None)
    case Throws(effect, recorded) =>
      RunResult(if effect then ran.world else world, RecordFailure(row, ctx, recorded), None)
    case WriteThrows(applied, recorded) =>
      if ran.Threw? then RunResult(ran.world, RecordFailure(row, ctx, recorded), None)
      else
        var after := Absorb(ctx, ran.update);
        var written := if applied then Apply(row, ProgressOf(step, ran.update, after)) else row;
        RunResult(ran.world, RecordFailure(written, after, recorded), None)
    case Clean =>
      if ran.Threw? then RunResult(ran.world, RecordFailure(row, ctx, true), None)
      else
        var after := Absorb(ctx, ran.update);
        RunResult(ran.world, Apply(row, ProgressOf(step, ran.update, after)), Some(after))
  }

  /** The fault planned for the i-th step of a run; runs without a plan are clean. */
  function FaultAt(faults: seq<Fault>, i: nat): Fault {
    if i < |faults| then faults[i] else Clean
  }

  /** What a run does from its i-th step on. */
  function RunFrom<W, S>(steps: seq<StepDefinition<W, S>>, i: nat, faults: seq<Fault>, world: W, row: Row, ctx: Context<S>)
    : RunResult<W, S>
    requires i <= |steps|
    decreases |steps| - i
  {
    if i == |steps| then RunResult(world, row, Some(ctx))
    else if !steps[i].shouldRun(ctx) then RunFrom(steps, i + 1, faults, world, row, ctx)
    else
      var r := Attempt(steps[i], FaultAt(faults, i), world, row, ctx);
      if r.finished.None? then r else RunFrom(steps, i + 1, faults, r.world, r.row, r.finished.value)
  }

  /** One step of a run: skipped, the last one, or followed by the rest. */
  lemma RunStep<W, S>(steps: seq<StepDefinition<W, S>>, i: nat, faults: seq<Fault>, world: W, row: Row, ctx: Context<S>)
    requires i < |steps|
    ensures var r := Attempt(steps[i], FaultAt(faults, i), world, row, ctx);
            RunFrom(steps, i, faults, world, row, ctx)
            == if !steps[i].shouldRun(ctx) then RunFrom(steps, i + 1, faults, world, row, ctx)
               else if r.finished.None? then r
               else RunFrom(steps, i + 1, faults, r.world, r.row, r.finished.value)
    ensures RunFrom(steps, |steps|, faults, world, row, ctx) == RunResult(world, row, Some(ctx))
  {
  }

  /** The engine's loop: effects on `W` and ledger writes, step by step. */
  method RunMutationWorkflow<W, S>(ledger: Ledger, id: string, world0: W, initialResult: Option<Record>, initialState: S,
                                   initialMetadata: Record, operation: Row, steps: seq<StepDefinition<W, S>>, faults: seq<Fault>)
    returns (world: W, finished: Option<Context<S>>)
    modifies ledger
    // Without the row the run is the same, and its writes reach nothing.
    ensures var r := RunFrom(steps, 0, faults, world0, RowOf(old(ledger.rows), id, operation),
                             Context(operation, initialResult, initialState, initialMetadata));
            && world == r.world && finished == r.finished
            && ledger.rows == WithRow(old(ledger.rows), id, r.row)
            && ledger.rows == (if id in old(ledger.rows) then old(ledger.rows)[id := r.row] else old(ledger.rows))
            && RowOf(old(ledger.rows), id, operation) == if id in old(ledger.rows) then old(ledger.rows)[id] else operation
  {
    world := world0;
    var result, state, metadata := initialResult, initialState, initialMetadata;
    ghost var row := RowOf(ledger.rows, id, operation);
    var i := 0;
    while i < |steps|
      invariant 0 <= i <= |steps|
      invariant ledger.rows == WithRow(old(ledger.rows), id, row)
      invariant RunFrom(steps, i, faults, world, row, Context(operation, result, state, metadata))
        == RunFrom(steps, 0, faults, world0, RowOf(old(ledger.rows), id, operation),
                   Context(operation, initialResult, initialState, initialMetadata))
    {
      var step := steps[i];
      var context := Context(operation, result, state, metadata);
      RunStep(steps, i, faults, world, row, context);
      if !step.shouldRun(context) {
        i := i + 1;
        continue;
      }
      var fault := FaultAt(faults, i);
      var ran := step.run(world, context);
      if fault.Dies? {
        return if fault.effect then ran.world else world, None;
      }
      if fault.Throws? || ran.Threw? {
        world := if fault.Throws? && !fault.effect then world else ran.world;
        if fault.Clean? || fault.recorded {
          ledger.SetProgress(id, FailureOf(context));
          row := Apply(row, FailureOf(context));
        }
        return world, None;
      }
      world := ran.world;
      var after := Absorb(context, ran.update);
      result, state, metadata := after.result, after.state, after.metadata;
      if fault.Clean? || fault.applied {
        ledger.SetProgress(id, ProgressOf(step, ran.update, after));
        row := Apply(row, ProgressOf(step, ran.update, after));
      }
      if fault.WriteThrows? {
        if fault.recorded {
          ledger.SetProgress(id, FailureOf(after));
          row := Apply(row, FailureOf(after));
        }
        return world, None;
      }
      i := i + 1;
    }
    finished := Some(Context(operation, result, state, metadata));
  }

  /** The ledger with a row in the place of the one it has. */
  function WithRow(rows: map<string, Row>, id: string, row: Row): map<string, Row> {
    if id in rows then rows[id := row] else rows
  }

  function RowOf(rows: map<string, Row>, id: string, operation: Row): Row {
    if id in rows then rows[id] else operation
  }

  // ---------------------------------------------------------------- step order

  function IndexOf(order: seq<Step>, s: Step): int {
    if |order| == 0 then -1
    else if order[0] == s then 0
    else
      var rest := IndexOf(order[1..], s);
      if rest < 0 then -1 else rest + 1
  }

  predicate HasReachedStep(current: Step, target: Step, order: seq<Step>) {
    var c, t := IndexOf(order, current), IndexOf(order, target);
    c >= 0 && t >= 0 && c >= t
  }

  /** `indexOf` finds exactly the listed steps, at their (only) position. */
  lemma {:induction false} IndexOfListed(order: seq<Step>, k: nat)
    requires k < |order|
    requires forall i, j :: 0 <= i < j < |order| ==> order[i] != order[j]
    ensures IndexOf(order, order[k]) == k
  {
    if k > 0 {
      assert order[1..][k - 1] == order[k];
      IndexOfListed(order[1..], k - 1);
    }
  }

  lemma {:induction false} IndexOfUnlisted(order: seq<Step>, s: Step)
    requires s !in order
    ensures IndexOf(order, s) == -1
  {
    if |order| > 0 {
      IndexOfUnlisted(order[1..], s);
    }
  }

  const LOCAL_FIRST_ORDER := [Step.Pending, Step.LocalCommitted, Step.SyncedUpstream, Step.Completed]
  const UPSTREAM_FIRST_ORDER := [Step.Pending, Step.UpstreamCreated, Step.LocalLinked, Step.Completed]

  /** `failed` is in no order, so a failed operation has reached nothing. */
  lemma ReachedLocalFirst(current: Step)
    ensures HasReachedStep(current, Step.LocalCommitted, LOCAL_FIRST_ORDER)
      <==> (current == Step.LocalCommitted || current == Step.SyncedUpstream || current == Step.Completed)
    ensures HasReachedStep(current, Step.SyncedUpstream, LOCAL_FIRST_ORDER)
      <==> (current == Step.SyncedUpstream || current == Step.Completed)
  {
    var o := LOCAL_FIRST_ORDER;
    IndexOfListed(o, 0); IndexOfListed(o, 1); IndexOfListed(o, 2); IndexOfListed(o, 3);
    if current !in o { IndexOfUnlisted(o, current); }
  }

  lemma ReachedUpstreamFirst(current: Step)
    ensures HasReachedStep(current, Step.LocalLinked, UPSTREAM_FIRST_ORDER)
      <==> (current == Step.LocalLinked || current == Step.Completed)
  {
    var o := UPSTREAM_FIRST_ORDER;
    IndexOfListed(o, 0); IndexOfListed(o, 1); IndexOfListed(o, 2); IndexOfListed(o, 3);
    if current !in o { IndexOfUnlisted(o, current); }
  }

  // ---------------------------------------------------------------- families

  datatype CommitProof = ByResult | ByCurrentStep

  datatype LocalFirst<!W, !S> = LocalFirst(
    commitLocal: Runner<W, S>,
    syncUpstream: Runner<W, S>,
    complete: Runner<W, S>,
    localCommitProof: CommitProof)

  datatype UpstreamFirst<!W, !S> = UpstreamFirst(
    createUpstream: Runner<W, S>,
    linkLocal: Runner<W, S>,
    complete: Runner<W, S>)

  datatype Deletion<!W, !S> = Deletion(
    commitLocalDelete: Runner<W, S>,
    completeDelete: Runner<W, S>)

  /** The skip decisions read the step the operation was loaded with, not the one just written. */
  function LocalFirstSteps<W, S>(f: LocalFirst<W, S>, loaded: Step): (steps: seq<StepDefinition<W, S>>) {
    [ StepDefinition(Step.LocalCommitted, false, None,
        (ctx: Context<S>) => if f.localCommitProof.ByResult? then ctx.result.None?
                             else !HasReachedStep(loaded, Step.LocalCommitted, LOCAL_FIRST_ORDER),
        f.commitLocal),
      StepDefinition(Step.SyncedUpstream, false, None,
        (ctx: Context<S>) => ctx.result.Some? && !HasReachedStep(loaded, Step.SyncedUpstream, LOCAL_FIRST_ORDER),
        f.syncUpstream),
      StepDefinition(Step.Completed, true, None, (ctx: Context<S>) => ctx.result.Some?, f.complete) ]
  }

  function UpstreamFirstSteps<W, S>(f: UpstreamFirst<W, S>, loaded: Step): (steps: seq<StepDefinition<W, S>>) {
    [ StepDefinition(Step.UpstreamCreated, false, None, (ctx: Context<S>) => ctx.result.None?, f.createUpstream),
      StepDefinition(Step.LocalLinked, false, None,
        (ctx: Context<S>) => ctx.result.Some? && !HasReachedStep(loaded, Step.LocalLinked, UPSTREAM_FIRST_ORDER),
        f.linkLocal),
      StepDefinition(Step.Completed, true, None, (ctx: Context<S>) => ctx.result.Some?, f.complete) ]
  }

  function DeletionSteps<W, S>(f: Deletion<W, S>): (steps: seq<StepDefinition<W, S>>) {
    [ StepDefinition(Step.LocalCommitted, false, None, (ctx: Context<S>) => ctx.result.None?, f.commitLocalDelete),
      StepDefinition(Step.Completed, true, None, (ctx: Context<S>) => ctx.result.Some?, f.completeDelete) ]
  }
}
