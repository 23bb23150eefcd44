/**
 * Under interleaving, too, an upstream group without a link is the business of an operation that is
 * not completed: the creation that made it, recorded or not, or a deletion that is still to cascade.
 */
module GroupWitnesses {
  import opened Wrappers
  import opened MutationLedger
  import opened WorkflowEngine
  import opened WorkflowHistories
  import opened Interleaving
  import opened GroupInterleaving

  // ---------------------------------------------------------------- the invariant

  /** Ids in use are below the supply, and upstream names are unique. */
  ghost predicate ValidStore(w: Store) {
    && (forall g :: g in w.groups ==> g < w.supply)
    && (forall k :: k in w.links ==> k.1 < w.supply)
    && (forall g, h :: g in w.groups && h in w.groups && w.groups[g].name == w.groups[h].name ==> g == h)
  }

  /** A creation's result names a group that has been made, and the run has it in hand unless it is gone. */
  ghost predicate Names(w: Store, result: Record) {
    |result| > 0 && GroupLinks.GroupOf(result).Some? && GroupLinks.GroupOf(result).value < w.supply
  }

  ghost predicate InHand(w: Store, ctx: Context<State>) {
    ctx.result.Some? ==>
      && Names(w, ctx.result.value)
      && (GroupLinks.GroupOf(ctx.result.value).value in w.groups || ctx.state.Some? ==> ctx.state == GroupLinks.GroupOf(ctx.result.value))
  }

  ghost predicate ValidRow(m: Mutation, w: Store, row: Row) {
    && GroupLinks.ValidOperation(GroupLinks.Operation(m, row))
    && (m.Create? && GetResult(row).Some? ==> Names(w, row.result))
  }

  /** The update of a body that returned: recordable, and in hand. */
  ghost predicate ValidUpdate(m: Mutation, w: Store, ctx: Context<State>, next: nat, update: Option<StepUpdate<State>>) {
    var after := Absorb(ctx, update);
    && Plain(update) && after.result.Some? && |after.result.value| > 0 && GroupLinks.GroupOf(after.result.value).Some?
    && (m.Create? ==> InHand(w, after))
    && (m.Create? && next > 0 ==> after.result == ctx.result)
  }

  ghost predicate ValidRun(m: Mutation, w: Store, row: Row, run: Run<State>) {
    var ctx, loaded := run.ctx, run.ctx.operation.currentStep;
    && Sound(ctx.operation) && loaded != Step.Completed && run.next <= |GroupLinks.StepsOf(m, loaded)|
    && (run.next == 0 ==> row == ctx.operation)
    && ctx.result == GetResult(row)
    && (run.next > 0 ==> ctx.result.Some?)
    && (m.Create? ==> InHand(w, ctx))
    && (m.Create? && run.next == 1 && loaded == Step.LocalLinked ==> row.currentStep == Step.LocalLinked)
    && (m.Create? && run.next == 2 ==> row.currentStep == Step.LocalLinked)
    && (run.next == |GroupLinks.StepsOf(m, loaded)| ==> row.currentStep == Step.Completed && run.phase.Ready?)
    && (run.next < |GroupLinks.StepsOf(m, loaded)| ==> row.currentStep != Step.Completed)
    && (run.phase.Unrecorded? ==>
          run.next < |GroupLinks.StepsOf(m, loaded)| && GroupLinks.StepsOf(m, loaded)[run.next].shouldRun(ctx)
          && ValidUpdate(m, w, ctx, run.next, run.phase.update))
  }

  ghost predicate ValidOp(w: Store, op: Op) {
    ValidRow(op.mutation, w, op.row) && (op.run.Some? ==> ValidRun(op.mutation, w, op.row, op.run.value))
  }

  /** The body of the i-th step has returned and is not recorded. */
  predicate Pending(op: Op, i: nat) {
    op.run.Some? && op.run.value.next == i && op.run.value.phase.Unrecorded?
  }

  /** The operation still has to link or to delete the group, or made it and may have lost it. */
  ghost predicate Owes(op: Op, w: Store, g: nat)
    requires g in w.groups
  {
    && op.row.currentStep != Step.Completed
    && if op.mutation.Delete? then op.mutation.groupId == g && !Pending(op, 1)
       else if GetResult(op.row).Some? then
         GroupLinks.GroupOf(op.row.result) == Some(g) && op.row.currentStep != Step.LocalLinked && !Pending(op, 1)
       else
         op.mutation.group.name == w.groups[g].name
         && (Pending(op, 0) ==> var after := Absorb(op.run.value.ctx, op.run.value.phase.update);
                                after.result.Some? && GroupLinks.GroupOf(after.result.value) == Some(g))
  }

  /** Groups only go, except for new ones with new ids; what stays keeps its name. */
  ghost predicate Grows(w: Store, w': Store) {
    && w.supply <= w'.supply
    && (forall g :: g in w'.groups && g < w.supply ==> g in w.groups && w'.groups[g] == w.groups[g])
  }

  /** A group that is unlinked after an action was owed by its operation before, linked before or made by it: now it is owed. */
  ghost predicate Settles(w: Store, op: Op, w': Store, op': Op) {
    forall g | g in w'.groups && !GroupLinks.Linked(w', g) && (g !in w.groups || GroupLinks.Linked(w, g) || Owes(op, w, g)) ::
      Owes(op', w', g)
  }

  ghost predicate Kept(w: Store, op: Op, w': Store, op': Op) {
    ValidStore(w') && ValidOp(w', op') && Grows(w, w') && op'.mutation == op.mutation && Settles(w, op, w', op')
  }

  // ---------------------------------------------------------------- actions that leave the store alone

  ghost predicate KeptHere(w: Store, op: Op, op': Op) {
    && ValidOp(w, op') && op'.mutation == op.mutation
    && forall g | g in w.groups && Owes(op, w, g) :: Owes(op', w, g)
  }

  lemma KeptHereIsKept(w: Store, op: Op, op': Op)
    requires ValidStore(w) && KeptHere(w, op, op')
    ensures Kept(w, op, w, op')
  {
  }

  lemma BeginKeeps(w: Store, op: Op)
    requires ValidStore(w) && ValidOp(w, op) && op.run.None? && !Answered(op.row)
    ensures KeptHere(w, op, op.(run := Some(Run(Entry(GroupLinks.WorkflowOf(op.mutation), w, op.row), 0, Ready))))
  {
  }

  lemma CrashKeeps(w: Store, op: Op)
    requires ValidOp(w, op)
    ensures KeptHere(w, op, op.(run := None))
  {
  }

  /** A failure write keeps the result at hand and leaves the operation open. */
  lemma FailedRow(row: Row, ctx: Context<State>, recorded: bool)
    ensures var after := RecordFailure(row, ctx, recorded);
            && (!recorded ==> after == row)
            && (recorded ==> after.currentStep == Step.Failed && after.status == Status.Failed
                             && after.result == if ctx.result.Some? then ctx.result.value else row.result)
  {
  }

  lemma FailKeeps(w: Store, op: Op, absorbed: bool, recorded: bool)
    requires ValidOp(w, op) && op.run.Some?
    ensures var run := op.run.value;
            var ctx := if run.phase.Unrecorded? && absorbed then Absorb(run.ctx, run.phase.update) else run.ctx;
            KeptHere(w, op, op.(row := RecordFailure(op.row, ctx, recorded), run := None))
  {
    var run := op.run.value;
    var ctx := if run.phase.Unrecorded? && absorbed then Absorb(run.ctx, run.phase.update) else run.ctx;
    var row := RecordFailure(op.row, ctx, recorded);
    FailedRow(op.row, ctx, recorded);
    if recorded { FailedIsKept(w, op, ctx, row); } else { CrashKeeps(w, op); }
  }

  lemma FailedIsKept(w: Store, op: Op, ctx: Context<State>, row: Row)
    requires ValidOp(w, op) && op.run.Some?
    requires ctx == op.run.value.ctx || (op.run.value.phase.Unrecorded? && ctx == Absorb(op.run.value.ctx, op.run.value.phase.update))
    requires row.currentStep == Step.Failed && row.status == Status.Failed
    requires row.result == if ctx.result.Some? then ctx.result.value else op.row.result
    ensures KeptHere(w, op, op.(row := row, run := None))
  {
  }

  lemma SkipKeeps(w: Store, op: Op)
    requires ValidOp(w, op) && IsReady(GroupServices(), op) && !StepAt(GroupServices(), op).shouldRun(op.run.value.ctx)
    ensures KeptHere(w, op, op.(run := Some(op.run.value.(next := op.run.value.next + 1))))
  {
    GroupSteps(op);
    ReachedUpstreamFirst(op.run.value.ctx.operation.currentStep);
  }

  /** A progress write of a plain update carries the result, the step's label and whether it completes. */
  lemma RecordedRow(step: StepDefinition<Store, State>, update: Option<StepUpdate<State>>, after: Context<State>, row: Row)
    requires Plain(update) && after.result.Some? && step.status.None?
    ensures var written := Apply(row, ProgressOf(step, update, after));
            && written.result == after.result.value && written.currentStep == step.step
            && written.status == if step.completed then Status.Completed else Status.InProgress
  {
  }

  lemma RecordKeeps(w: Store, op: Op)
    requires ValidOp(w, op) && InStep(GroupServices(), op) && op.run.value.phase.Unrecorded?
    ensures var run := op.run.value;
            var after := Absorb(run.ctx, run.phase.update);
            KeptHere(w, op, op.(row := Apply(op.row, ProgressOf(StepAt(GroupServices(), op), run.phase.update, after)),
                                run := Some(Run(after, run.next + 1, Ready))))
  {
    GroupSteps(op);
    var run, step := op.run.value, StepAt(GroupServices(), op);
    var after := Absorb(run.ctx, run.phase.update);
    RecordedRow(step, run.phase.update, after, op.row);
    var row := Apply(op.row, ProgressOf(step, run.phase.update, after));
    if op.mutation.Create? { RecordedCreation(w, op, after, row); } else { RecordedDeletion(w, op, after, row); }
  }

  /** The row that the pending body's write makes. */
  ghost predicate Written(op: Op, after: Context<State>, row: Row)
    requires InStep(GroupServices(), op) && op.run.value.phase.Unrecorded?
  {
    var step := StepAt(GroupServices(), op);
    && after == Absorb(op.run.value.ctx, op.run.value.phase.update) && after.result.Some?
    && row.result == after.result.value && row.currentStep == step.step
    && row.status == if step.completed then Status.Completed else Status.InProgress
  }

  lemma RecordedCreation(w: Store, op: Op, after: Context<State>, row: Row)
    requires ValidOp(w, op) && InStep(GroupServices(), op) && op.run.value.phase.Unrecorded? && op.mutation.Create?
    requires Written(op, after, row)
    ensures KeptHere(w, op, op.(row := row, run := Some(Run(after, op.run.value.next + 1, Ready))))
  {
    GroupSteps(op);
    ReachedUpstreamFirst(op.run.value.ctx.operation.currentStep);
  }

  lemma RecordedDeletion(w: Store, op: Op, after: Context<State>, row: Row)
    requires ValidOp(w, op) && InStep(GroupServices(), op) && op.run.value.phase.Unrecorded? && op.mutation.Delete?
    requires Written(op, after, row)
    ensures KeptHere(w, op, op.(row := row, run := Some(Run(after, op.run.value.next + 1, Ready))))
  {
    GroupSteps(op);
  }

  // ---------------------------------------------------------------- bodies

  /** The run calls its body: the operation as it waits for its write, or for the failure write. */
  function Called(op: Op, ran: StepReturn<Store, State>): Op
    requires op.run.Some?
  {
    op.(run := Some(op.run.value.(phase := if ran.Threw? then Thrown else Unrecorded(ran.update))))
  }

  /** Other operations keep their validity and what they owe when groups come with new ids and go. */
  lemma GrowthKeeps(w: Store, w': Store, op: Op)
    requires ValidStore(w) && Grows(w, w') && ValidOp(w, op)
    ensures ValidOp(w', op)
    ensures forall g | g in w.groups && g in w'.groups && Owes(op, w, g) :: Owes(op, w', g)
  {
  }

  lemma ThrowKeeps(w: Store, op: Op)
    requires ValidOp(w, op) && IsReady(GroupServices(), op)
    ensures KeptHere(w, op, op.(run := Some(op.run.value.(phase := Thrown))))
  {
    GroupSteps(op);
  }

  /** The run stands before its i-th step and calls it. */
  ghost predicate Calls(op: Op, i: nat) {
    IsReady(GroupServices(), op) && op.run.value.next == i && StepAt(GroupServices(), op).shouldRun(op.run.value.ctx)
  }

  lemma CreateKeeps(w: Store, op: Op)
    requires ValidStore(w) && ValidOp(w, op) && op.mutation.Create? && Calls(op, 0)
    ensures var ran := GroupLinks.CreateUpstream(op.mutation, w); Kept(w, op, ran.world, Called(op, ran))
  {
    GroupSteps(op);
    var m, g := op.mutation, w.supply;
    if GroupLinks.CreateGroupWithRules(w, m.group).Some? {
      var ran := GroupLinks.CreateUpstream(m, w);
      var result := GroupLinks.Created(g, m.link);
      assert "groupId" in result && GroupLinks.GroupOf(result) == Some(g);
      GrowthKeeps(w, ran.world, op);
      CreatedIsValid(w, op, ran.world, Called(op, ran));
    } else {
      ThrowKeeps(w, op);
      KeptHereIsKept(w, op, op.(run := Some(op.run.value.(phase := Thrown))));
    }
  }

  /** The new group is owed by the creation that waits for its write; no unlinked group had its name. */
  lemma CreatedIsValid(w: Store, op: Op, w': Store, op': Op)
    requires ValidStore(w) && ValidOp(w, op) && ValidOp(w', op) && op.mutation.Create? && Calls(op, 0)
    requires GroupLinks.CreateGroupWithRules(w, op.mutation.group) == Some(w')
    requires |GroupLinks.Created(w.supply, op.mutation.link)| > 0
    requires GroupLinks.GroupOf(GroupLinks.Created(w.supply, op.mutation.link)) == Some(w.supply)
    requires op' == op.(run := Some(op.run.value.(phase := Unrecorded(
               GroupLinks.Update(op.mutation.org, Some(GroupLinks.Created(w.supply, op.mutation.link)), Some(Some(w.supply)))))))
    ensures Kept(w, op, w', op')
  {
    GroupSteps(op);
    assert forall g :: GroupLinks.Linked(w', g) == GroupLinks.Linked(w, g);
  }

  lemma LinkKeeps(w: Store, op: Op)
    requires ValidStore(w) && ValidOp(w, op) && op.mutation.Create? && Calls(op, 1)
    ensures var ran := GroupLinks.LinkLocal(op.mutation, w, op.run.value.ctx); Kept(w, op, ran.world, Called(op, ran))
  {
    GroupSteps(op);
    ReachedUpstreamFirst(op.run.value.ctx.operation.currentStep);
    var m, ctx := op.mutation, op.run.value.ctx;
    var ran := GroupLinks.LinkLocal(m, w, ctx);
    if ran.Threw? {
      ThrowKeeps(w, op);
      KeptHereIsKept(w, op, Called(op, ran));
    } else {
      LinkedIsValid(w, op, ran);
    }
  }

  lemma LinkedIsValid(w: Store, op: Op, ran: StepReturn<Store, State>)
    requires ValidStore(w) && ValidOp(w, op) && op.mutation.Create? && Calls(op, 1)
    requires ran == GroupLinks.LinkLocal(op.mutation, w, op.run.value.ctx) && ran.Returned?
    ensures Kept(w, op, ran.world, Called(op, ran))
  {
    GroupSteps(op);
    LinkGrows(w, op, ran);
    LinksGrow(w, ran.world);
    GrowthKeeps(w, ran.world, op);
  }

  /** Linking adds at most the link of the group in hand; without a group in hand there is none to owe. */
  lemma LinkGrows(w: Store, op: Op, ran: StepReturn<Store, State>)
    requires ValidStore(w) && ValidOp(w, op) && op.mutation.Create? && Calls(op, 1)
    requires ran == GroupLinks.LinkLocal(op.mutation, w, op.run.value.ctx) && ran.Returned?
    ensures ValidStore(ran.world) && Grows(w, ran.world) && ran.world.groups == w.groups
    ensures forall k :: k in w.links ==> k in ran.world.links
    ensures forall g | g in w.groups && Owes(op, w, g) :: GroupLinks.Linked(ran.world, g)
  {
    GroupSteps(op);
    var ctx := op.run.value.ctx;
    if ctx.state.Some? {
      assert (op.mutation.org, ctx.state.value) in ran.world.links;
    }
  }

  lemma LinksGrow(w: Store, w': Store)
    requires forall k :: k in w.links ==> k in w'.links
    ensures forall g :: GroupLinks.Linked(w, g) ==> GroupLinks.Linked(w', g)
  {
    forall g | GroupLinks.Linked(w, g) ensures GroupLinks.Linked(w', g) {
      var k :| k in w.links && k.1 == g;
      assert k in w'.links;
    }
  }

  lemma PublishKeeps(w: Store, op: Op)
    requires ValidStore(w) && ValidOp(w, op) && op.mutation.Create? && Calls(op, 2)
    ensures var ran := GroupLinks.CompleteCreate(op.mutation, w, op.run.value.ctx); Kept(w, op, ran.world, Called(op, ran))
  {
    GroupSteps(op);
  }

  lemma UnlinkKeeps(w: Store, op: Op)
    requires ValidStore(w) && ValidOp(w, op) && op.mutation.Delete? && Calls(op, 0)
    ensures var ran := GroupLinks.CommitLocalDelete(op.mutation, w); Kept(w, op, ran.world, Called(op, ran))
  {
    GroupSteps(op);
    var m := op.mutation;
    var result := GroupLinks.Deleted(m.groupId);
    assert "success" in result && GroupLinks.GroupOf(result) == Some(m.groupId);
    GroupLinks.UnlinkKeepsOthers(w, m.org, m.groupId);
  }

  lemma CascadeKeeps(w: Store, op: Op)
    requires ValidStore(w) && ValidOp(w, op) && op.mutation.Delete? && Calls(op, 1)
    ensures var ran := GroupLinks.CompleteDelete(op.mutation, w, op.run.value.ctx); Kept(w, op, ran.world, Called(op, ran))
  {
    GroupSteps(op);
    var ran := GroupLinks.CompleteDelete(op.mutation, w, op.run.value.ctx);
    assert forall g :: GroupLinks.Linked(ran.world, g) == GroupLinks.Linked(w, g);
  }

  lemma CallKeeps(w: Store, op: Op)
    requires ValidStore(w) && ValidOp(w, op) && IsReady(GroupServices(), op) && StepAt(GroupServices(), op).shouldRun(op.run.value.ctx)
    ensures var ran := StepAt(GroupServices(), op).run(w, op.run.value.ctx); Kept(w, op, ran.world, Called(op, ran))
  {
    GroupSteps(op);
    if op.mutation.Create? {
      if op.run.value.next == 0 { CreateKeeps(w, op); }
      else if op.run.value.next == 1 { LinkKeeps(w, op); }
      else { PublishKeeps(w, op); }
    } else {
      if op.run.value.next == 0 { UnlinkKeeps(w, op); } else { CascadeKeeps(w, op); }
    }
  }

  // ---------------------------------------------------------------- schedules

  predicate CallsBody(a: Action<Mutation>, op: Op) {
    a.CallBody? && IsReady(GroupServices(), op) && StepAt(GroupServices(), op).shouldRun(op.run.value.ctx)
  }

  lemma MovesKeep(a: Action<Mutation>, w: Store, op: Op)
    requires ValidOp(w, op) && op.run.Some? && (a.SkipStep? || a.Record?)
    ensures var (w', op') := Act(GroupServices(), a, w, op); w' == w && KeptHere(w, op, op')
  {
    var v := GroupServices();
    if a.SkipStep? && IsReady(v, op) && !StepAt(v, op).shouldRun(op.run.value.ctx) { SkipKeeps(w, op); }
    if a.Record? && InStep(v, op) && op.run.value.phase.Unrecorded? { RecordKeeps(w, op); }
  }

  lemma EndsKeep(a: Action<Mutation>, w: Store, op: Op)
    requires ValidOp(w, op) && op.run.Some? && (a.Crash? || a.Fail?)
    ensures var (w', op') := Act(GroupServices(), a, w, op); w' == w && KeptHere(w, op, op')
  {
    if a.Crash? { CrashKeeps(w, op); } else { FailKeeps(w, op, a.absorbed, a.recorded); }
  }

  /** Every action but a body call leaves the store alone. */
  lemma StillKeeps(a: Action<Mutation>, w: Store, op: Op)
    requires ValidOp(w, op) && ValidStore(w) && !CallsBody(a, op)
    ensures var (w', op') := Act(GroupServices(), a, w, op); w' == w && KeptHere(w, op, op')
  {
    if op.run.None? {
      if a.Begin? && !Answered(op.row) { BeginKeeps(w, op); }
    } else if a.SkipStep? || a.Record? {
      MovesKeep(a, w, op);
    } else if a.Crash? || a.Fail? {
      EndsKeep(a, w, op);
    }
  }

  lemma ActKeeps(a: Action<Mutation>, w: Store, op: Op)
    requires ValidStore(w) && ValidOp(w, op)
    ensures var (w', op') := Act(GroupServices(), a, w, op); Kept(w, op, w', op')
  {
    if CallsBody(a, op) {
      CallKeeps(w, op);
    } else {
      StillKeeps(a, w, op);
      KeptHereIsKept(w, op, Act(GroupServices(), a, w, op).1);
    }
  }

  /** Some operation owes every existing group without a link. */
  ghost predicate Owed(p: Groups, g: nat)
    requires g in p.store.groups
  {
    exists id :: id in p.operations && Owes(p.operations[id], p.store, g)
  }

  ghost predicate Inv(p: Groups) {
    && ValidStore(p.store)
    && (forall id :: id in p.operations ==> ValidOp(p.store, p.operations[id]))
    && (forall g | g in p.store.groups && !GroupLinks.Linked(p.store, g) :: Owed(p, g))
  }

  lemma NextIsValid(p: Groups, a: Action<Mutation>)
    requires Inv(p)
    ensures var q := Next(GroupServices(), p, a);
            && ValidStore(q.store) && Grows(p.store, q.store)
            && forall id :: id in q.operations ==> ValidOp(q.store, q.operations[id])
  {
    var q := Next(GroupServices(), p, a);
    if a.id in p.operations {
      ActKeeps(a, p.store, p.operations[a.id]);
      forall id | id in q.operations && id != a.id ensures ValidOp(q.store, q.operations[id]) {
        GrowthKeeps(p.store, q.store, p.operations[id]);
      }
    }
  }

  lemma NextOwes(p: Groups, a: Action<Mutation>, g: nat)
    requires Inv(p) && g in Next(GroupServices(), p, a).store.groups && !GroupLinks.Linked(Next(GroupServices(), p, a).store, g)
    ensures Owed(Next(GroupServices(), p, a), g)
  {
    var q := Next(GroupServices(), p, a);
    if a.id in p.operations { ActKeeps(a, p.store, p.operations[a.id]); }
    if g in p.store.groups && !GroupLinks.Linked(p.store, g) {
      assert Owed(p, g);
      var id :| id in p.operations && Owes(p.operations[id], p.store, g);
      if id != a.id {
        OthersStay(GroupServices(), p, a, id);
        NextIsValid(p, a);
        GrowthKeeps(p.store, q.store, p.operations[id]);
        assert Owes(q.operations[id], q.store, g);
      } else {
        assert Owes(q.operations[a.id], q.store, g);
      }
    } else {
      assert Owes(q.operations[a.id], q.store, g);
    }
  }

  lemma {:induction false} ExecuteKeepsInv(p: Groups, actions: seq<Action<Mutation>>)
    requires Inv(p)
    ensures Inv(Execute(GroupServices(), p, actions))
    decreases |actions|
  {
    if |actions| > 0 {
      var q := Next(GroupServices(), p, actions[0]);
      NextIsValid(p, actions[0]);
      forall g | g in q.store.groups && !GroupLinks.Linked(q.store, g) ensures Owed(q, g) {
        NextOwes(p, actions[0], g);
      }
      ExecuteKeepsInv(q, actions[1..]);
    }
  }

  /**
   * From tables whose groups are all linked, in every state of every interleaved schedule: an existing
   * group without a link is the concern of a creation or deletion that is not completed.
   */
  lemma UnlinkedIsWitnessed(w: Store, actions: seq<Action<Mutation>>, g: nat)
    requires ValidStore(w) && forall h :: h in w.groups ==> GroupLinks.Linked(w, h)
    requires var q := Execute(GroupServices(), Platform(w, map[]), actions); g in q.store.groups && !GroupLinks.Linked(q.store, g)
    ensures var q := Execute(GroupServices(), Platform(w, map[]), actions);
            exists id :: id in q.operations
              && GroupLinks.Concerns(GroupLinks.Operation(q.operations[id].mutation, q.operations[id].row), q.store, g)
  {
    var q := Execute(GroupServices(), Platform(w, map[]), actions);
    ExecuteKeepsInv(Platform(w, map[]), actions);
    assert Owed(q, g);
    var id :| id in q.operations && Owes(q.operations[id], q.store, g);
    assert ValidOp(q.store, q.operations[id]);
    assert GroupLinks.Concerns(GroupLinks.Operation(q.operations[id].mutation, q.operations[id].row), q.store, g);
  }
}
