/**
 * Resuming a group deletion through its own service, which insists on the group's link and on an
 * enabled group before it loads the operation.
 */
module GuardedGroupDelete {
  import opened MutationLedger
  import opened WorkflowEngine
  import opened WorkflowHistories
  import opened GroupLinks

  /** The part of `assertCanUseGroup` that reads the tables; the caller's role is a parameter. */
  predicate CanUseGroup(m: Mutation, authorized: bool, w: Store)
    requires m.Delete?
  {
    authorized && (m.org, m.groupId) in w.links && m.groupId in w.groups && w.groups[m.groupId].enabled
  }

  function Calls(m: Mutation, authorized: bool, history: seq<seq<Fault>>, w: Store, row: Row): (Store, Row)
    requires m.Delete?
  {
    GatedReplay(WorkflowOf(m), (v: Store) => CanUseGroup(m, authorized, v), history, w, row)
  }

  /** A deletion run with these faults, started on an operation that has not begun, completes it. */
  predicate RunsThrough(faults: seq<Fault>) {
    FaultAt(faults, 0).Clean? && (FaultAt(faults, 1).Clean? || FaultAt(faults, 1) == WriteThrows(true, false))
  }

  lemma UnlinkAttempt(m: Mutation, w: Store, row: Row, fault: Fault)
    requires m.Delete? && NotBegun(row)
    ensures var steps := StepsOf(m, row.currentStep);
            var ctx := Entry(WorkflowOf(m), w, row);
            var r := Attempt(steps[0], fault, w, row, ctx);
            && steps[0].shouldRun(ctx)
            && (!Removes([fault]) ==> r.world == w && NotBegun(r.row))
            && (Removes([fault]) ==> r.world == DeleteLink(w, m.org, m.groupId) && r.row.currentStep != Step.Completed)
            && (r.finished.Some? <==> fault.Clean?)
            && (fault.Clean? ==> r.finished.value.result.Some?)
  {
  }

  lemma CascadeAttempt(m: Mutation, w: Store, row: Row, loaded: Step, fault: Fault, ctx: Context<State>)
    requires m.Delete? && ctx.result.Some? && row.currentStep != Step.Completed
    ensures var steps := StepsOf(m, loaded);
            var r := Attempt(steps[1], fault, w, row, ctx);
            && steps[1].shouldRun(ctx) && r.world.links == w.links
            && (r.row.currentStep == Step.Completed <==> fault.Clean? || fault == WriteThrows(true, false))
  {
  }

  lemma DeleteRun(m: Mutation, authorized: bool, w: Store, row: Row, faults: seq<Fault>)
    requires m.Delete? && NotBegun(row)
    ensures var r := Resume(WorkflowOf(m), faults, w, row);
            if Removes(faults) then !CanUseGroup(m, authorized, r.world) && (r.row.currentStep == Step.Completed <==> RunsThrough(faults))
            else r.world == w && NotBegun(r.row)
  {
    var steps := StepsOf(m, row.currentStep);
    var ctx := Entry(WorkflowOf(m), w, row);
    UnlinkAttempt(m, w, row, FaultAt(faults, 0));
    RunStep(steps, 0, faults, w, row, ctx);
    var r := Attempt(steps[0], FaultAt(faults, 0), w, row, ctx);
    if r.finished.Some? {
      CascadeAttempt(m, r.world, r.row, row.currentStep, FaultAt(faults, 1), r.finished.value);
      RunStep(steps, 1, faults, r.world, r.row, r.finished.value);
    }
  }

  /**
   * A history of `deleteOrganizationGroup` calls that passes its check completes if and only if the
   * first call that removes the link runs through: the link it removes is the one it insists on.
   */
  lemma GroupDeletionCompletesExactly(m: Mutation, authorized: bool, w: Store, row: Row, history: seq<seq<Fault>>)
    requires m.Delete? && NotBegun(row) && CanUseGroup(m, authorized, w)
    ensures Calls(m, authorized, history, w, row).1.currentStep == Step.Completed
      <==> FirstEffectRunsThrough(history, faults => RunsThrough(faults))
  {
    var gate := (v: Store) => CanUseGroup(m, authorized, v);
    var through := (faults: seq<Fault>) => RunsThrough(faults);
    forall v, r, faults | gate(v) && NotBegun(r)
      ensures var run := Resume(WorkflowOf(m), faults, v, r);
              if Removes(faults) then !gate(run.world) && (run.row.currentStep == Step.Completed <==> through(faults))
              else run.world == v && NotBegun(run.row)
    {
      DeleteRun(m, authorized, v, r, faults);
    }
    GatedCompletion(WorkflowOf(m), gate, (v: Store) => true, through, history, w, row);
  }

  /** One call that nothing disturbs. */
  const ONE_CALL: seq<seq<Fault>> := [[]]

  /**
   * One undisturbed call deletes the group's link exactly if the caller is authorized, the organization
   * has the link and the group exists and is enabled. A refused call changes nothing.
   */
  lemma CallCompletesExactly(m: Mutation, authorized: bool, w: Store, row: Row)
    requires m.Delete? && NotBegun(row)
    ensures var (w', row') := Calls(m, authorized, ONE_CALL, w, row);
            var allowed := authorized && (m.org, m.groupId) in w.links && m.groupId in w.groups && w.groups[m.groupId].enabled;
            && (row'.currentStep == Step.Completed <==> allowed)
            && (!allowed ==> w' == w && row' == row)
  {
    var rest: seq<seq<Fault>> := [];
    assert ONE_CALL[1..] == rest;
    if CanUseGroup(m, authorized, w) {
      GroupDeletionCompletesExactly(m, authorized, w, row, ONE_CALL);
    } else {
      ClosedGate(WorkflowOf(m), (v: Store) => CanUseGroup(m, authorized, v), ONE_CALL, w, row);
    }
  }
}
