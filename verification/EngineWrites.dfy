/**
 * What one iteration of the engine's loop writes (api/src/lib/cross-system-workflow-engine.ts:161-202),
 * column by column, and what an uninterrupted run of each family does.
 */
module EngineWrites {
  import opened Wrappers
  import opened MutationLedger
  import opened WorkflowEngine

  /** The second document over the first. */
  predicate Merged(before: Record, added: Record, after: Record) {
    && after.Keys == before.Keys + added.Keys
    && (forall k | k in added :: after[k] == added[k])
    && forall k | k in before && k !in added :: after[k] == before[k]
  }

  /** A body that returned an update: every column of the row, and what the next step sees. */
  lemma UpdateIsWritten<W, S>(step: StepDefinition<W, S>, w: W, row: Row, ctx: Context<S>)
    requires step.run(w, ctx).Returned? && step.run(w, ctx).update.Some?
    ensures var u, r := step.run(w, ctx).update.value, Attempt(step, Clean, w, row, ctx);
            && r.world == step.run(w, ctx).world && r.finished.Some?
            && var next := r.finished.value;
               && next.operation == ctx.operation
               && next.result == (if u.result.Some? then u.result else ctx.result)
               && next.state == (if u.state.Some? then u.state.value else ctx.state)
               && (u.metadata.None? ==> next.metadata == ctx.metadata)
               && (u.metadata.Some? ==> Merged(ctx.metadata, u.metadata.value, next.metadata))
               && r.row.metadata == next.metadata
               && r.row.result == (if next.result.Some? then next.result.value else row.result)
               && r.row.currentStep == (if u.step.Some? then u.step.value else step.step)
               && r.row.status == (if u.status.Some? then u.status.value
                                   else if u.completed == Some(true) || step.completed then Status.Completed
                                   else if step.status.Some? then step.status.value else Status.InProgress)
               && r.row.organizationId == (if u.organizationId.Some? then u.organizationId.value else row.organizationId)
               && r.row.userId == (if u.userId.Some? then u.userId.value else row.userId)
               && r.row.lastError == None
               && (r.row.completedAt <==> row.completedAt || u.completed == Some(true) || (u.completed.None? && step.completed))
               && r.row.operationType == row.operationType && r.row.idempotencyKey == row.idempotencyKey
  {
  }

  /** A body that returned nothing: the step is reached, and what the run knows is written again. */
  lemma NothingIsAdded<W, S>(step: StepDefinition<W, S>, w: W, row: Row, ctx: Context<S>)
    requires step.run(w, ctx).Returned? && step.run(w, ctx).update.None?
    ensures var r := Attempt(step, Clean, w, row, ctx);
            && r.world == step.run(w, ctx).world && r.finished == Some(ctx)
            && r.row == row.(currentStep := step.step,
                             status := if step.completed then Status.Completed
                                       else if step.status.Some? then step.status.value else Status.InProgress,
                             metadata := ctx.metadata, result := if ctx.result.Some? then ctx.result.value else row.result,
                             lastError := None, completedAt := r.row.completedAt)
            && (r.row.completedAt <==> row.completedAt || step.completed)
  {
  }

  /** A body that threw, or whose write threw: step and status say so, what the run knows is kept, an error is noted. */
  lemma FailureIsWritten<W, S>(step: StepDefinition<W, S>, fault: Fault, w: W, row: Row, ctx: Context<S>)
    requires !fault.Dies?
    ensures var ran, r := step.run(w, ctx), Attempt(step, fault, w, row, ctx);
            var threw := fault.Throws? || ran.Threw?;
            && (r.finished.Some? <==> fault.Clean? && ran.Returned?)
            && (threw && (fault.Clean? || fault.recorded) ==>
                  && r.row.currentStep == Step.Failed && r.row.status == Status.Failed && r.row.lastError.Some?
                  && r.row.metadata == ctx.metadata && r.row.result == (if ctx.result.Some? then ctx.result.value else row.result)
                  && r.row.organizationId == row.organizationId && r.row.userId == row.userId && r.row.completedAt == row.completedAt
                  && r.row.operationType == row.operationType && r.row.idempotencyKey == row.idempotencyKey)
            && (threw && !fault.Clean? && !fault.recorded ==> r.row == row)
            && (r.world == ran.world || (fault.Throws? && !fault.effect && r.world == w))
            && (fault.Throws? && !fault.effect ==> r.world == w)
  {
  }
}
