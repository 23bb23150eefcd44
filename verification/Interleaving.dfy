/**
 * Any number of operations, interleaved between every effect and every ledger write and crashing
 * freely, at most one run per operation at a time. The machine contains every run of the engine:
 * whatever its faults, a run is a schedule of the machine that reaches the same world and row.
 */
module Interleaving {
  import opened Wrappers
  import opened MutationLedger
  import opened WorkflowEngine
  import opened WorkflowHistories

  /** Where a run stands in its current step: body not called, returned but unrecorded, or thrown. */
  datatype Phase<+S> = Ready | Unrecorded(update: Option<StepUpdate<S>>) | Thrown

  datatype Run<+S> = Run(ctx: Context<S>, next: nat, phase: Phase<S>)

  datatype Operation<+M, +S> = Operation(mutation: M, row: Row, run: Option<Run<S>>)

  datatype Platform<+W, +M, +S> = Platform(store: W, operations: map<string, Operation<M, S>>)

  datatype Action<+M> =
    | Request(id: string, mutation: M)
    | Begin(id: string)
    | SkipStep(id: string)
    | CallBody(id: string)
    | Record(id: string)
    | Fail(id: string, absorbed: bool, recorded: bool)
    | Crash(id: string)

  /** The mutations a platform serves, and the ledger row each of them starts from. */
  datatype Services<!W, !M, !S> = Services(workflow: M -> Workflow<W, S>, newRow: (string, M) -> Row)

  /** The steps of a run are chosen by the row it loaded. */
  function StepsAt<W, M, S>(v: Services<W, M, S>, op: Operation<M, S>): seq<StepDefinition<W, S>>
    requires op.run.Some?
  {
    v.workflow(op.mutation).steps(op.run.value.ctx.operation.currentStep)
  }

  predicate InStep<W, M, S>(v: Services<W, M, S>, op: Operation<M, S>) {
    op.run.Some? && op.run.value.next < |StepsAt(v, op)|
  }

  function StepAt<W, M, S>(v: Services<W, M, S>, op: Operation<M, S>): StepDefinition<W, S>
    requires InStep(v, op)
  {
    StepsAt(v, op)[op.run.value.next]
  }

  /** The run is about to skip or to call its current step. */
  predicate IsReady<W, M, S>(v: Services<W, M, S>, op: Operation<M, S>) {
    InStep(v, op) && op.run.value.phase.Ready?
  }

  /** What an action does to its operation and to the world; an action that is not enabled does nothing. */
  function Act<W, M, S>(v: Services<W, M, S>, a: Action<M>, w: W, op: Operation<M, S>): (W, Operation<M, S>) {
    if op.run.None? then
      if a.Begin? && !Answered(op.row)
      then (w, op.(run := Some(Run(Entry(v.workflow(op.mutation), w, op.row), 0, Ready)))) else (w, op)
    else
      var run := op.run.value;
      match a
      case Crash(_) => (w, op.(run := None))
      case Fail(_, absorbed, recorded) =>
        var ctx := if run.phase.Unrecorded? && absorbed then Absorb(run.ctx, run.phase.update) else run.ctx;
        (w, op.(row := RecordFailure(op.row, ctx, recorded), run := None))
      case SkipStep(_) =>
        if IsReady(v, op) && !StepAt(v, op).shouldRun(run.ctx)
        then (w, op.(run := Some(run.(next := run.next + 1)))) else (w, op)
      case CallBody(_) =>
        if IsReady(v, op) && StepAt(v, op).shouldRun(run.ctx) then
          var ran := StepAt(v, op).run(w, run.ctx);
          (ran.world, op.(run := Some(run.(phase := if ran.Threw? then Thrown else Unrecorded(ran.update)))))
        else (w, op)
      case Record(_) =>
        if InStep(v, op) && run.phase.Unrecorded? then
          var after := Absorb(run.ctx, run.phase.update);
          (w, op.(row := Apply(op.row, ProgressOf(StepAt(v, op), run.phase.update, after)),
                  run := Some(Run(after, run.next + 1, Ready))))
        else (w, op)
      case _ => (w, op)
  }

  function Next<W, M, S>(v: Services<W, M, S>, p: Platform<W, M, S>, a: Action<M>): Platform<W, M, S> {
    if a.id in p.operations then
      var (w, op) := Act(v, a, p.store, p.operations[a.id]);
      Platform(w, p.operations[a.id := op])
    else if a.Request? then
      p.(operations := p.operations[a.id := Operation(a.mutation, v.newRow(a.id, a.mutation), None)])
    else p
  }

  function Execute<W, M, S>(v: Services<W, M, S>, p: Platform<W, M, S>, actions: seq<Action<M>>): Platform<W, M, S>
    decreases |actions|
  {
    if |actions| == 0 then p else Execute(v, Next(v, p, actions[0]), actions[1..])
  }

  lemma {:induction false} ExecuteSplit<W, M, S>(v: Services<W, M, S>, p: Platform<W, M, S>, a: seq<Action<M>>, b: seq<Action<M>>)
    ensures Execute(v, p, a + b) == Execute(v, Execute(v, p, a), b)
    decreases |a|
  {
    if |a| == 0 {
      assert a + b == b;
    } else {
      assert (a + b)[1..] == a[1..] + b;
      ExecuteSplit(v, Next(v, p, a[0]), a[1..], b);
    }
  }

  lemma ExecuteOne<W, M, S>(v: Services<W, M, S>, p: Platform<W, M, S>, a: Action<M>)
    ensures Execute(v, p, [a]) == Next(v, p, a)
  {
    assert [a][1..] == [];
    assert Execute(v, Next(v, p, a), []) == Next(v, p, a);
  }

  lemma ExecuteMore<W, M, S>(v: Services<W, M, S>, p: Platform<W, M, S>, actions: seq<Action<M>>, a: Action<M>)
    ensures Execute(v, p, actions + [a]) == Next(v, Execute(v, p, actions), a)
  {
    ExecuteSplit(v, p, actions, [a]);
    ExecuteOne(v, Execute(v, p, actions), a);
  }

  /** Another operation is not touched. */
  lemma OthersStay<W, M, S>(v: Services<W, M, S>, p: Platform<W, M, S>, a: Action<M>, id: string)
    requires id in p.operations && id != a.id
    ensures var q := Next(v, p, a); id in q.operations && q.operations[id] == p.operations[id]
  {
  }

  // ---------------------------------------------------------------- schedules

  predicate AllOf<M>(id: string, actions: seq<Action<M>>) {
    forall k | 0 <= k < |actions| :: actions[k].id == id
  }

  function StepActions<M>(id: string, fault: Fault, threw: bool): (actions: seq<Action<M>>)
    ensures 0 < |actions| <= 3 && AllOf(id, actions)
  {
    match fault
    case Dies(effect) => if effect then [CallBody(id), Crash(id)] else [Crash(id)]
    case Throws(effect, recorded) =>
      if effect then [CallBody(id), Fail(id, false, recorded)] else [Fail(id, false, recorded)]
    case WriteThrows(applied, recorded) =>
      if threw then [CallBody(id), Fail(id, false, recorded)]
      else if applied then [CallBody(id), Record(id), Fail(id, false, recorded)]
      else [CallBody(id), Fail(id, true, recorded)]
    case Clean => if threw then [CallBody(id), Fail(id, false, true)] else [CallBody(id), Record(id)]
  }

  /** The schedule of a run from its i-th step on. */
  function ScheduleFrom<W, M, S>(id: string, steps: seq<StepDefinition<W, S>>, i: nat, faults: seq<Fault>, w: W, row: Row,
                                 ctx: Context<S>): (actions: seq<Action<M>>)
    requires i <= |steps|
    ensures AllOf(id, actions)
    decreases |steps| - i
  {
    if i == |steps| then [Crash(id)]
    else if !steps[i].shouldRun(ctx) then [SkipStep(id)] + ScheduleFrom(id, steps, i + 1, faults, w, row, ctx)
    else
      var r := Attempt(steps[i], FaultAt(faults, i), w, row, ctx);
      StepActions(id, FaultAt(faults, i), steps[i].run(w, ctx).Threw?)
        + if r.finished.None? then [] else ScheduleFrom(id, steps, i + 1, faults, r.world, r.row, r.finished.value)
  }

  function Perform<W, M, S>(v: Services<W, M, S>, actions: seq<Action<M>>, w: W, op: Operation<M, S>): (W, Operation<M, S>)
    decreases |actions|
  {
    if |actions| == 0 then (w, op)
    else
      var (t, next) := Act(v, actions[0], w, op);
      Perform(v, actions[1..], t, next)
  }

  lemma {:induction false} PerformSplit<W, M, S>(v: Services<W, M, S>, a: seq<Action<M>>, b: seq<Action<M>>, w: W, op: Operation<M, S>)
    ensures Perform(v, a + b, w, op) == Perform(v, b, Perform(v, a, w, op).0, Perform(v, a, w, op).1)
    decreases |a|
  {
    if |a| == 0 {
      assert a + b == b;
    } else {
      var (t, next) := Act(v, a[0], w, op);
      assert (a + b)[1..] == a[1..] + b;
      PerformSplit(v, a[1..], b, t, next);
    }
  }

  /** Actions on one operation leave the others alone. */
  lemma {:induction false} ExecuteIsPerform<W, M, S>(v: Services<W, M, S>, id: string, actions: seq<Action<M>>, p: Platform<W, M, S>)
    requires id in p.operations && AllOf(id, actions)
    ensures var (w, op) := Perform(v, actions, p.store, p.operations[id]);
            Execute(v, p, actions) == Platform(w, p.operations[id := op])
    decreases |actions|
  {
    if |actions| > 0 {
      var q := Next(v, p, actions[0]);
      ExecuteIsPerform(v, id, actions[1..], q);
      var (w, op) := Perform(v, actions[1..], q.store, q.operations[id]);
      assert q.operations[id := op] == p.operations[id := op];
    } else {
      assert p.operations[id := p.operations[id]] == p.operations;
    }
  }

  /** A new operation, requested and taken through two pieces of a schedule. */
  lemma RequestedPerforms<W, M, S>(v: Services<W, M, S>, p: Platform<W, M, S>, id: string, m: M, a: seq<Action<M>>, b: seq<Action<M>>)
    requires id !in p.operations && AllOf(id, a) && AllOf(id, b)
    ensures var (w1, op1) := Perform(v, a, p.store, Operation(m, v.newRow(id, m), None));
            var (w2, op2) := Perform(v, b, w1, op1);
            Execute(v, p, [Request(id, m)] + a + b) == Platform(w2, p.operations[id := op2])
  {
    var requested := Next(v, p, Request(id, m));
    var op := requested.operations[id];
    ExecuteOne(v, p, Request(id, m));
    ExecuteSplit(v, p, [Request(id, m)], a + b);
    assert [Request(id, m)] + (a + b) == [Request(id, m)] + a + b;
    ExecuteIsPerform(v, id, a + b, requested);
    PerformSplit(v, a, b, p.store, op);
    var last := Perform(v, a + b, p.store, op).1;
    assert requested.operations[id := last] == p.operations[id := last];
  }

  lemma PerformOne<W, M, S>(v: Services<W, M, S>, a: Action<M>, w: W, op: Operation<M, S>)
    ensures Perform(v, [a], w, op) == Act(v, a, w, op)
  {
    var (t, next) := Act(v, a, w, op);
    assert [a][1..] == [];
    assert Perform(v, [], t, next) == (t, next);
  }

  lemma PerformTwo<W, M, S>(v: Services<W, M, S>, a: Action<M>, b: Action<M>, w: W, op: Operation<M, S>)
    ensures var (t, next) := Act(v, a, w, op);
            Perform(v, [a, b], w, op) == Act(v, b, t, next)
  {
    var (t, next) := Act(v, a, w, op);
    assert [a, b][1..] == [b];
    PerformOne(v, b, t, next);
  }

  lemma PerformThree<W, M, S>(v: Services<W, M, S>, a: Action<M>, b: Action<M>, c: Action<M>, w: W, op: Operation<M, S>)
    ensures var (t, next) := Act(v, a, w, op);
            var (u, last) := Act(v, b, t, next);
            Perform(v, [a, b, c], w, op) == Act(v, c, u, last)
  {
    var (t, next) := Act(v, a, w, op);
    assert [a, b, c][1..] == [b, c];
    PerformTwo(v, b, c, t, next);
  }

  /** The operation stands before the i-th step, which it will call. */
  ghost predicate Calls<W, M, S>(v: Services<W, M, S>, op: Operation<M, S>, ctx: Context<S>, i: nat) {
    op.run == Some(Run(ctx, i, Ready)) && InStep(v, op) && StepAt(v, op).shouldRun(ctx)
  }

  /** The operation as an attempted step leaves it. */
  function Left<W, M, S>(op: Operation<M, S>, r: RunResult<W, S>, i: nat): Operation<M, S> {
    op.(row := r.row, run := if r.finished.Some? then Some(Run(r.finished.value, i + 1, Ready)) else None)
  }

  /** After the body returned, the write happens, or it fails before or after it took effect. */
  lemma WrittenAttempt<W, M, S>(v: Services<W, M, S>, id: string, i: nat, fault: Fault, w: W, ctx: Context<S>, op: Operation<M, S>)
    requires Calls(v, op, ctx, i) && !StepAt(v, op).run(w, ctx).Threw? && (fault.Clean? || fault.WriteThrows?)
    ensures var r := Attempt(StepAt(v, op), fault, w, op.row, ctx);
            Perform(v, StepActions(id, fault, StepAt(v, op).run(w, ctx).Threw?), w, op) == (r.world, Left(op, r, i))
  {
    var ran := StepAt(v, op).run(w, ctx);
    var called := op.(run := Some(Run(ctx, i, Unrecorded(ran.update))));
    assert Act(v, CallBody(id), w, op) == (ran.world, called) && StepAt(v, called) == StepAt(v, op);
    if fault.Clean? {
      PerformTwo(v, CallBody(id), Record(id), w, op);
    } else if fault.applied {
      PerformThree(v, CallBody(id), Record(id), Fail(id, false, fault.recorded), w, op);
    } else {
      PerformTwo(v, CallBody(id), Fail(id, true, fault.recorded), w, op);
    }
  }

  lemma CutAttempt<W, M, S>(v: Services<W, M, S>, id: string, i: nat, fault: Fault, w: W, ctx: Context<S>, op: Operation<M, S>)
    requires Calls(v, op, ctx, i) && (StepAt(v, op).run(w, ctx).Threw? || fault.Dies? || fault.Throws?)
    ensures var r := Attempt(StepAt(v, op), fault, w, op.row, ctx);
            Perform(v, StepActions(id, fault, StepAt(v, op).run(w, ctx).Threw?), w, op) == (r.world, Left(op, r, i))
  {
    var ran := StepAt(v, op).run(w, ctx);
    var actions: seq<Action<M>> := StepActions(id, fault, ran.Threw?);
    var called := op.(run := Some(Run(ctx, i, if ran.Threw? then Thrown else Unrecorded(ran.update))));
    assert Act(v, CallBody(id), w, op) == (ran.world, called);
    PerformOne(v, actions[0], w, op);
    if |actions| > 1 {
      PerformTwo(v, actions[0], actions[1], w, op);
    }
  }

  /** One attempt of the engine is a short schedule. */
  lemma AttemptIsScheduled<W, M, S>(v: Services<W, M, S>, id: string, i: nat, fault: Fault, w: W, ctx: Context<S>, op: Operation<M, S>)
    requires Calls(v, op, ctx, i)
    ensures var r := Attempt(StepAt(v, op), fault, w, op.row, ctx);
            Perform(v, StepActions(id, fault, StepAt(v, op).run(w, ctx).Threw?), w, op) == (r.world, Left(op, r, i))
  {
    if StepAt(v, op).run(w, ctx).Threw? || fault.Dies? || fault.Throws? {
      CutAttempt(v, id, i, fault, w, ctx, op);
    } else {
      WrittenAttempt(v, id, i, fault, w, ctx, op);
    }
  }

  lemma {:induction false} RunIsScheduledFrom<W, M, S>(v: Services<W, M, S>, id: string, i: nat, faults: seq<Fault>, w: W,
                                                       ctx: Context<S>, op: Operation<M, S>)
    requires op.run == Some(Run(ctx, i, Ready)) && i <= |StepsAt(v, op)|
    ensures var r := RunFrom(StepsAt(v, op), i, faults, w, op.row, ctx);
            Perform(v, ScheduleFrom(id, StepsAt(v, op), i, faults, w, op.row, ctx), w, op) == (r.world, op.(row := r.row, run := None))
    decreases |StepsAt(v, op)| - i
  {
    var steps, fault := StepsAt(v, op), FaultAt(faults, i);
    if i == |steps| {
      PerformOne(v, Crash(id), w, op);
    } else if !steps[i].shouldRun(ctx) {
      var skipped := op.(run := Some(Run(ctx, i + 1, Ready)));
      PerformSplit(v, [SkipStep(id)], ScheduleFrom(id, steps, i + 1, faults, w, op.row, ctx), w, op);
      PerformOne(v, SkipStep(id), w, op);
      RunIsScheduledFrom(v, id, i + 1, faults, w, ctx, skipped);
    } else {
      var r := Attempt(steps[i], fault, w, op.row, ctx);
      var actions: seq<Action<M>> := StepActions(id, fault, steps[i].run(w, ctx).Threw?);
      AttemptIsScheduled(v, id, i, fault, w, ctx, op);
      if r.finished.None? {
        assert actions + [] == actions;
      } else {
        PerformSplit(v, actions, ScheduleFrom(id, steps, i + 1, faults, r.world, r.row, r.finished.value), w, op);
        AttemptKeepsOperation(steps[i], fault, w, op.row, ctx);
        RunIsScheduledFrom(v, id, i + 1, faults, r.world, r.finished.value, Left(op, r, i));
      }
    }
  }

  lemma AttemptKeepsOperation<W, S>(step: StepDefinition<W, S>, fault: Fault, w: W, row: Row, ctx: Context<S>)
    ensures var r := Attempt(step, fault, w, row, ctx); r.finished.Some? ==> r.finished.value.operation == ctx.operation
  {
  }

  /** Every engine run of an idle operation is a schedule of the interleaved machine. */
  lemma EngineRunsAreSchedules<W, M, S>(v: Services<W, M, S>, p: Platform<W, M, S>, id: string, faults: seq<Fault>)
    requires id in p.operations && p.operations[id].run.None? && !Answered(p.operations[id].row)
    ensures var op := p.operations[id];
            var wf := v.workflow(op.mutation);
            var r := Resume(wf, faults, p.store, op.row);
            Execute(v, p, [Begin(id)]
                          + ScheduleFrom(id, wf.steps(op.row.currentStep), 0, faults, p.store, op.row, Entry(wf, p.store, op.row)))
              == Platform(r.world, p.operations[id := op.(row := r.row)])
  {
    var op := p.operations[id];
    var wf := v.workflow(op.mutation);
    var ctx := Entry(wf, p.store, op.row);
    var tail: seq<Action<M>> := ScheduleFrom(id, wf.steps(op.row.currentStep), 0, faults, p.store, op.row, ctx);
    var begun := op.(run := Some(Run(ctx, 0, Ready)));
    RunIsScheduledFrom(v, id, 0, faults, p.store, ctx, begun);
    PerformSplit(v, [Begin(id)], tail, p.store, op);
    PerformOne(v, Begin(id), p.store, op);
    ExecuteIsPerform(v, id, [Begin(id)] + tail, p);
    var row := Resume(wf, faults, p.store, op.row).row;
    assert op.(row := row, run := None) == op.(row := row);
  }
}
