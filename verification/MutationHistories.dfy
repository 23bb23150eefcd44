/**
 * The engine's theorems about histories, for every mutation of the services: the group mutations are
 * the instances of the upstream-first and the delete family, the user mutations of the local-first one.
 */
module MutationHistories {
  import opened MutationLedger
  import opened WorkflowEngine
  import opened WorkflowHistories
  import GroupLinks
  import UserMutations
  import TenantStore

  function FirstGroupEffect(m: GroupLinks.Mutation): Step {
    if m.Create? then Step.UpstreamCreated else Step.LocalCommitted
  }

  /** Creating and deleting a group prove their first effect by the stored result. */
  lemma GroupMutationsReport(m: GroupLinks.Mutation)
    ensures ProvenByResult(GroupLinks.WorkflowOf(m), FirstGroupEffect(m))
  {
    forall loaded ensures Reporting(GroupLinks.StepsOf(m, loaded)) {
      GroupStepsReport(m, loaded);
    }
  }

  lemma GroupStepsReport(m: GroupLinks.Mutation, loaded: Step)
    ensures Reporting(GroupLinks.StepsOf(m, loaded))
  {
    if m.Create? { CreationStepsReport(m, loaded); } else { DeletionStepsReport(m, loaded); }
  }

  lemma CreationBodiesReport(m: GroupLinks.Mutation, w: GroupLinks.Store, ctx: Context<GroupLinks.State>)
    requires m.Create? && Carried(ctx)
    ensures ReportsIn(GroupLinks.CreateUpstream(m, w), ctx)
    ensures ctx.result.Some? ==> ReportsIn(GroupLinks.LinkLocal(m, w, ctx), ctx) && ReportsIn(GroupLinks.CompleteCreate(m, w, ctx), ctx)
  {
    assert "groupId" in GroupLinks.Created(w.supply, m.link);
  }

  lemma CreationStepsReport(m: GroupLinks.Mutation, loaded: Step)
    requires m.Create?
    ensures Reporting(GroupLinks.StepsOf(m, loaded))
  {
    forall w, ctx: Context<GroupLinks.State> | Carried(ctx)
      ensures ReportsIn(GroupLinks.CreateUpstream(m, w), ctx)
      ensures ctx.result.Some? ==> ReportsIn(GroupLinks.LinkLocal(m, w, ctx), ctx) && ReportsIn(GroupLinks.CompleteCreate(m, w, ctx), ctx)
    {
      CreationBodiesReport(m, w, ctx);
    }
  }

  lemma DeletionStepsReport(m: GroupLinks.Mutation, loaded: Step)
    requires m.Delete?
    ensures Reporting(GroupLinks.StepsOf(m, loaded))
  {
    assert "success" in GroupLinks.Deleted(m.groupId);
  }

  /**
   * Over any history of a new group mutation: the row is sound, and the group was created, or the link
   * deleted, once for every run that lost its result and once more if the result is recorded now.
   */
  lemma GroupHistory(m: GroupLinks.Mutation, history: seq<seq<Fault>>, w: GroupLinks.Store, row: Row)
    requires row.currentStep == Step.Pending && row.status == Status.InProgress && row.result == map[]
    ensures var first := FirstGroupEffect(m);
            var o := Replay(Observed(GroupLinks.WorkflowOf(m)), history, (w, []), row);
            && Sound(o.1)
            && Count(o.0.1, first) == Losses(GroupLinks.WorkflowOf(m), first, history, w, [], row) + Recorded(o.1)
  {
    var wf := GroupLinks.WorkflowOf(m);
    GroupMutationsReport(m);
    ReexecutionCount(wf, FirstGroupEffect(m), history, w, [], row);
    SoundHistory(wf, history, w, row);
    ObservedReplay(wf, history, w, [], row);
  }

  /** Over any history of a new user mutation, a completed row is evidence of commit, sync and completion in this order. */
  lemma UserHistory(m: UserMutations.Mutation, history: seq<seq<Fault>>, s: TenantStore.Store, row: Row)
    requires row.currentStep == Step.Pending && row.status == Status.InProgress && row.result == map[]
    ensures var o := Replay(Observed(UserMutations.WorkflowOf(m)), history, (s, []), row);
            && (o.1.status == Status.Completed ==> CompletedSince(o.0.1) && |o.1.result| > 0)
            && (|o.1.result| > 0 ==> CommittedIn(o.0.1))
  {
    UserMutations.MutationsReport(m);
    CompletedIsEvidence(UserMutations.Steps(m), (w: TenantStore.Store, r: Row) => UserMutations.InitialState(m, r),
                        (r: Row) => UserMutations.InitialMetadata(m, r), history, s, row);
  }

  /** Creating an organization and approving a user commit once for every lost result, and once more if it is recorded now. */
  lemma CommitCount(m: UserMutations.Mutation, history: seq<seq<Fault>>, s: TenantStore.Store, row: Row)
    requires m.CreateOrganization? || m.Approve?
    requires row.result == map[]
    ensures var first := Step.LocalCommitted;
            var o := Replay(Observed(UserMutations.WorkflowOf(m)), history, (s, []), row);
            Count(o.0.1, first) == Losses(UserMutations.WorkflowOf(m), first, history, s, [], row) + Recorded(o.1)
  {
    var f := UserMutations.Steps(m);
    UserMutations.MutationsReport(m);
    var initial := (w: TenantStore.Store, r: Row) => UserMutations.InitialState(m, r);
    var metadata := (r: Row) => UserMutations.InitialMetadata(m, r);
    ResultProofFamilies(f, UpstreamFirst(f.commitLocal, f.syncUpstream, f.complete), Deletion(f.commitLocal, f.complete),
                        initial, metadata);
    ReexecutionCount(UserMutations.WorkflowOf(m), Step.LocalCommitted, history, s, [], row);
  }
}
