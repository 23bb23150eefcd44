/**
 * Approving a user and creating an organization: the two local-first mutations whose commit is proved
 * by its stored result and cannot be repeated. A commit that leaves no result in the ledger strands the
 * operation, and its member stays without a role row. The exact conditions for completion are proved.
 */
module CommitCompletion {
  import opened Wrappers
  import opened MutationLedger
  import opened WorkflowEngine
  import opened WorkflowHistories
  import opened RunFates
  import opened TenantStore
  import opened TenantRows
  import opened UserMutations

  // ---------------------------------------------------------------- any commit that cannot be repeated

  /** The commit works once, always with this result, and sync and completion may be repeated. */
  ghost predicate CommitsOnce<W(!new), S(!new)>(f: LocalFirst<W, S>, start: W, committed: W, synced: W, result: Record) {
    && f.localCommitProof == ByResult && |result| > 0
    && (forall ctx: Context<S> :: Yields(f.commitLocal(start, ctx), committed, r => r == result))
    && (forall ctx: Context<S> :: f.commitLocal(committed, ctx) == Threw(committed))
    && (forall ctx: Context<S> | ctx.result == Some(result) ::
          && Keeps(f.syncUpstream(committed, ctx), synced, r => r == result)
          && Keeps(f.syncUpstream(synced, ctx), synced, r => r == result)
          && Keeps(f.complete(synced, ctx), synced, r => r == result))
  }

  ghost predicate InFate<W>(start: W, committed: W, synced: W, result: Record, fate: Fate, w: W, row: Row) {
    match fate
    case Fresh => w == start && NotBegun(row)
    case Lost => w == committed && NotBegun(row)
    case Made(second) =>
      && (w == committed || w == synced) && (second ==> w == synced)
      && row.result == result && row.currentStep != Step.Completed && row.status != Status.Completed
      && (row.currentStep == Step.SyncedUpstream <==> second)
    case Done => w == synced && row.result == result && row.currentStep == Step.Completed && row.status == Status.Completed
  }

  /** An attempted first step that returns the committed world and the result, under every fault. */
  lemma CommitLands<W, S>(step: StepDefinition<W, S>, start: W, committed: W, synced: W, result: Record, row: Row,
                          faults: seq<Fault>, ctx: Context<S>)
    requires NotBegun(row) && ctx.result.None? && |result| > 0
    requires step.step == Step.LocalCommitted && !step.completed && step.status.None?
    requires Yields(step.run(start, ctx), committed, r => r == result)
    ensures var r := Attempt(step, FaultAt(faults, 0), start, row, ctx);
            && (FaultAt(faults, 0).Clean? ==>
                  && r.finished.Some? && r.finished.value.result == Some(result)
                  && r.world == committed && InFate(start, committed, synced, result, Made(false), r.world, r.row))
            && (!FaultAt(faults, 0).Clean? ==>
                  r.finished.None? && InFate(start, committed, synced, result, RunFate(Fresh, faults), r.world, r.row))
  {
  }

  lemma SyncLands<W, S>(step: StepDefinition<W, S>, start: W, committed: W, synced: W, result: Record, w: W, row: Row,
                        faults: seq<Fault>, ctx: Context<S>)
    requires InFate(start, committed, synced, result, Made(false), w, row) && ctx.result == Some(result) && |result| > 0
    requires step.step == Step.SyncedUpstream && !step.completed && step.status.None?
    requires Keeps(step.run(w, ctx), synced, r => r == result)
    ensures var r := Attempt(step, FaultAt(faults, 1), w, row, ctx);
            && (FaultAt(faults, 1).Clean? ==>
                  && r.finished.Some? && r.finished.value.result == Some(result)
                  && InFate(start, committed, synced, result, Made(true), r.world, r.row))
            && (!FaultAt(faults, 1).Clean? ==>
                  r.finished.None? && InFate(start, committed, synced, result, SecondFate(false, faults), r.world, r.row))
  {
  }

  lemma CompletionLands<W, S>(step: StepDefinition<W, S>, start: W, committed: W, synced: W, result: Record, w: W, row: Row,
                              fault: Fault, ctx: Context<S>)
    requires InFate(start, committed, synced, result, Made(true), w, row) && ctx.result == Some(result) && |result| > 0
    requires step.step == Step.Completed && step.completed && step.status.None?
    requires Keeps(step.run(w, ctx), synced, r => r == result)
    ensures var r := Attempt(step, fault, w, row, ctx);
            InFate(start, committed, synced, result, LastFate(fault), r.world, r.row)
  {
  }

  lemma CompletionRun<W(!new), S(!new)>(f: LocalFirst<W, S>, start: W, committed: W, synced: W, result: Record, loaded: Step,
                                        w: W, row: Row, faults: seq<Fault>, ctx: Context<S>)
    requires CommitsOnce(f, start, committed, synced, result)
    requires InFate(start, committed, synced, result, Made(true), w, row) && ctx.result == Some(result)
    ensures var r := RunFrom(LocalFirstSteps(f, loaded), 2, faults, w, row, ctx);
            InFate(start, committed, synced, result, LastFate(FaultAt(faults, 2)), r.world, r.row)
  {
    var steps := LocalFirstSteps(f, loaded);
    assert Keeps(f.complete(synced, ctx), synced, r => r == result);
    CompletionLands(steps[2], start, committed, synced, result, w, row, FaultAt(faults, 2), ctx);
    RunStep(steps, 2, faults, w, row, ctx);
  }

  lemma SyncRun<W(!new), S(!new)>(f: LocalFirst<W, S>, start: W, committed: W, synced: W, result: Record, loaded: Step, second: bool,
                                  w: W, row: Row, faults: seq<Fault>, ctx: Context<S>)
    requires CommitsOnce(f, start, committed, synced, result)
    requires InFate(start, committed, synced, result, Made(second), w, row) && ctx.result == Some(result)
    requires loaded != Step.Completed && (loaded == Step.SyncedUpstream <==> second)
    ensures var r := RunFrom(LocalFirstSteps(f, loaded), 1, faults, w, row, ctx);
            InFate(start, committed, synced, result, SecondFate(second, faults), r.world, r.row)
  {
    var steps := LocalFirstSteps(f, loaded);
    ReachedLocalFirst(loaded);
    RunStep(steps, 1, faults, w, row, ctx);
    if second {
      CompletionRun(f, start, committed, synced, result, loaded, w, row, faults, ctx);
    } else {
      assert Keeps(f.syncUpstream(committed, ctx), synced, r => r == result);
      assert Keeps(f.syncUpstream(synced, ctx), synced, r => r == result);
      SyncLands(steps[1], start, committed, synced, result, w, row, faults, ctx);
      var r := Attempt(steps[1], FaultAt(faults, 1), w, row, ctx);
      if r.finished.Some? {
        CompletionRun(f, start, committed, synced, result, loaded, r.world, r.row, faults, r.finished.value);
      }
    }
  }

  /** From the outcome of the commit on. */
  lemma AfterCommit<W(!new), S(!new)>(f: LocalFirst<W, S>, start: W, committed: W, synced: W, result: Record, loaded: Step,
                                      faults: seq<Fault>, r: RunResult<W, S>)
    requires CommitsOnce(f, start, committed, synced, result) && Unreached(loaded)
    requires FaultAt(faults, 0).Clean? ==>
               && r.finished.Some? && r.finished.value.result == Some(result)
               && InFate(start, committed, synced, result, Made(false), r.world, r.row)
    requires !FaultAt(faults, 0).Clean?
             ==> r.finished.None? && InFate(start, committed, synced, result, RunFate(Fresh, faults), r.world, r.row)
    ensures var end := if r.finished.None? then r else RunFrom(LocalFirstSteps(f, loaded), 1, faults, r.world, r.row, r.finished.value);
            InFate(start, committed, synced, result, RunFate(Fresh, faults), end.world, end.row)
  {
    if FaultAt(faults, 0).Clean? {
      SyncRun(f, start, committed, synced, result, loaded, false, r.world, r.row, faults, r.finished.value);
      assert RunFate(Fresh, faults) == SecondFate(false, faults);
    }
  }

  lemma FreshRun<W(!new), S(!new)>(f: LocalFirst<W, S>, start: W, committed: W, synced: W, result: Record, row: Row,
                                   faults: seq<Fault>, ctx: Context<S>)
    requires CommitsOnce(f, start, committed, synced, result) && NotBegun(row) && ctx.result.None?
    ensures var r := RunFrom(LocalFirstSteps(f, row.currentStep), 0, faults, start, row, ctx);
            InFate(start, committed, synced, result, RunFate(Fresh, faults), r.world, r.row)
  {
    var steps := LocalFirstSteps(f, row.currentStep);
    assert Yields(f.commitLocal(start, ctx), committed, r => r == result);
    CommitLands(steps[0], start, committed, synced, result, row, faults, ctx);
    RunStep(steps, 0, faults, start, row, ctx);
    AfterCommit(f, start, committed, synced, result, row.currentStep, faults, Attempt(steps[0], FaultAt(faults, 0), start, row, ctx));
  }

  /** With the commit refused, nothing happens and the row stays as good as new. */
  lemma RefusedRun<W, S>(f: LocalFirst<W, S>, w: W, row: Row, faults: seq<Fault>, ctx: Context<S>)
    requires f.localCommitProof == ByResult && f.commitLocal(w, ctx) == Threw(w) && NotBegun(row) && ctx.result.None?
    ensures var r := RunFrom(LocalFirstSteps(f, row.currentStep), 0, faults, w, row, ctx); r.world == w && NotBegun(r.row)
  {
    var steps := LocalFirstSteps(f, row.currentStep);
    ThrowsOut(steps[0], FaultAt(faults, 0), w, row, ctx);
    RunStep(steps, 0, faults, w, row, ctx);
  }

  lemma RecordedRun<W(!new), S(!new)>(f: LocalFirst<W, S>, start: W, committed: W, synced: W, result: Record, second: bool,
                                      w: W, row: Row, faults: seq<Fault>, ctx: Context<S>)
    requires CommitsOnce(f, start, committed, synced, result) && InFate(start, committed, synced, result, Made(second), w, row)
    requires ctx.result == Some(result)
    ensures var r := RunFrom(LocalFirstSteps(f, row.currentStep), 0, faults, w, row, ctx);
            InFate(start, committed, synced, result, SecondFate(second, faults), r.world, r.row)
  {
    RunStep(LocalFirstSteps(f, row.currentStep), 0, faults, w, row, ctx);
    SyncRun(f, start, committed, synced, result, row.currentStep, second, w, row, faults, ctx);
  }

  lemma ServeFate<W(!new), S(!new)>(f: LocalFirst<W, S>, s: (W, Row) -> S, m: Row -> Record, start: W, committed: W, synced: W,
                                    result: Record, fate: Fate, faults: seq<Fault>, w: W, row: Row)
    requires CommitsOnce(f, start, committed, synced, result) && InFate(start, committed, synced, result, fate, w, row)
    ensures var (w', row') := Serve(LocalFirstWorkflow(f, s, m), faults, w, row);
            InFate(start, committed, synced, result, RunFate(fate, faults), w', row')
  {
    var ctx := Entry(LocalFirstWorkflow(f, s, m), w, row);
    match fate
    case Fresh => FreshRun(f, start, committed, synced, result, row, faults, ctx);
    case Lost => RefusedRun(f, w, row, faults, ctx);
    case Made(second) => RecordedRun(f, start, committed, synced, result, second, w, row, faults, ctx);
    case Done =>
  }

  lemma {:induction false} ReplayFate<W(!new), S(!new)>(f: LocalFirst<W, S>, s: (W, Row) -> S, m: Row -> Record, start: W, committed: W,
      synced: W, result: Record, fate: Fate, history: seq<seq<Fault>>, w: W, row: Row)
    requires CommitsOnce(f, start, committed, synced, result) && InFate(start, committed, synced, result, fate, w, row)
    ensures var (w', row') := Replay(LocalFirstWorkflow(f, s, m), history, w, row);
            InFate(start, committed, synced, result, HistoryFate(fate, history), w', row')
    decreases |history|
  {
    if |history| > 0 {
      ServeFate(f, s, m, start, committed, synced, result, fate, history[0], w, row);
      var (w1, row1) := Serve(LocalFirstWorkflow(f, s, m), history[0], w, row);
      ReplayFate(f, s, m, start, committed, synced, result, RunFate(fate, history[0]), history[1..], w1, row1);
    }
  }

  lemma {:induction false} RefusedReplay<W(!new), S(!new)>(f: LocalFirst<W, S>, s: (W, Row) -> S, m: Row -> Record,
      history: seq<seq<Fault>>, w: W, row: Row)
    requires f.localCommitProof == ByResult && (forall ctx: Context<S> :: f.commitLocal(w, ctx) == Threw(w)) && NotBegun(row)
    ensures var (w', row') := Replay(LocalFirstWorkflow(f, s, m), history, w, row); w' == w && NotBegun(row')
    decreases |history|
  {
    if |history| > 0 {
      var wf := LocalFirstWorkflow(f, s, m);
      RefusedRun(f, w, row, history[0], Entry(wf, w, row));
      var (w1, row1) := Serve(wf, history[0], w, row);
      RefusedReplay(f, s, m, history[1..], w1, row1);
    }
  }

  // ---------------------------------------------------------------- approval and organization creation

  predicate Commits(m: Mutation) {
    m.CreateOrganization? || m.Approve?
  }

  /** The user has no membership, and waits for this organization or has a verified account. */
  predicate CanCommit(m: Mutation, s: Store)
    requires Commits(m)
  {
    && !HasRow(s.memberships, m.user)
    && if m.Approve? then m.user in s.statuses && s.statuses[m.user] == Some(m.org) else m.user in s.users && s.users[m.user]
  }

  function CommittedTo(m: Mutation, s: Store): Store {
    Commit(m, s).world
  }

  function SyncedTo(m: Mutation, s: Store): Store {
    match Synchronize(CommittedTo(m, s), m.user, Actor(m), Some(List([])))
    case Committed(s', _) => s'
    case Refused(_) => s
  }

  function CommitResult(m: Mutation, s: Store): Record
    requires Commits(m)
  {
    if m.Approve? then map["membershipId" := Number(s.supply)]
    else map["organizationId" := Number(s.supply), "membershipId" := Number(s.supply + 1)]
  }

  /** Ids below the supply are the only ones in use. */
  ghost predicate ValidStore(s: Store) {
    OneMembershipPerUser(s) && forall id :: id in s.memberships ==> id < s.supply
  }

  lemma CommittedOnce(m: Mutation, s: Store)
    requires Commits(m) && ValidStore(s) && CanCommit(m, s)
    ensures var c := CommittedTo(m, s);
            HasMembership(c, m.user) && OneMembershipPerUser(c) && !Ambiguous(c, m.user) && c.roles == s.roles && !CanCommit(m, c)
  {
    var c := CommittedTo(m, s);
    var id := if m.Approve? then s.supply else s.supply + 1;
    assert id in c.memberships && c.memberships[id].userId == m.user;
  }

  /**
   * What a completed commit ends in, row by row: the one new membership, in the organization approved
   * for or in the one created, with its role mirrored and no groups; the waiting status is gone.
   */
  lemma SyncedToMirrors(m: Mutation, s: Store)
    requires Commits(m) && ValidStore(s) && CanCommit(m, s)
    ensures var y, result := SyncedTo(m, s), CommitResult(m, s);
            var (org, id) := if m.Approve? then (m.org, s.supply) else (s.supply, s.supply + 1);
            && y == Store(y.organizations, y.memberships, s.statuses - {m.user}, s.invitations, y.roles, s.users, id + 1)
            && y.organizations == (if m.Approve? then s.organizations else s.organizations[org := m.name])
            && y.memberships == s.memberships[id := if m.Approve? then Membership(m.user, org, m.role, Some(m.approvedBy))
                                                    else Membership(m.user, org, Admin, None)]
            && !HasRow(s.memberships, m.user) && id !in s.memberships
            && m.user in y.roles && y.roles == s.roles[m.user := y.roles[m.user]]
            && (y.roles[m.user].role == MirroredAdmin <==> m.CreateOrganization? || m.role == Admin)
            && y.roles[m.user].groupIds == []
            && y.roles[m.user].createdBy == (if m.user in s.roles then s.roles[m.user].createdBy
                                             else if m.Approve? && m.approvedBy in s.users then m.approvedBy else m.user)
            && result == if m.Approve? then map["membershipId" := Number(id)]
                         else map["organizationId" := Number(org), "membershipId" := Number(id)]
  {
    var c := CommittedTo(m, s);
    CommittedOnce(m, s);
    var id := if m.Approve? then s.supply else s.supply + 1;
    assert id in c.memberships && c.memberships[id].userId == m.user;
    assert AtMostOneRow(c.memberships, m.user);
    RoleRowWritten(c, m.user, Actor(m), Some(List([])), id);
    if m.Approve? {
      UserApproved(s, m.user, m.org, m.role, m.approvedBy);
    } else {
      OrganizationCreated(s, m.user, m.name);
    }
  }

  lemma CommitBody(m: Mutation, s: Store, ctx: Context<State>)
    requires Commits(m)
    ensures CanCommit(m, s) ==> Yields(Commit(m, s), CommittedTo(m, s), r => r == CommitResult(m, s))
    ensures !CanCommit(m, s) ==> Commit(m, s) == Threw(s)
  {
  }

  lemma SyncBody(m: Mutation, s: Store, ctx: Context<State>)
    requires Commits(m) && ValidStore(s) && CanCommit(m, s) && ctx.result == Some(CommitResult(m, s))
    ensures Keeps(Sync(m, CommittedTo(m, s), ctx), SyncedTo(m, s), r => r == CommitResult(m, s))
    ensures Keeps(Sync(m, SyncedTo(m, s), ctx), SyncedTo(m, s), r => r == CommitResult(m, s))
  {
    var c, y := CommittedTo(m, s), SyncedTo(m, s);
    CommittedOnce(m, s);
    assert y == c.(roles := y.roles) && !Ambiguous(y, m.user);
    var id := MembershipIdOf(c, m.user);
    assert id in y.memberships && MembershipIdOf(y, m.user) == id;
    assert m.user in y.roles && y.roles[m.user := y.roles[m.user]] == y.roles;
  }

  lemma UserCommitsOnce(m: Mutation, s: Store)
    requires Commits(m) && ValidStore(s) && CanCommit(m, s)
    ensures CommitsOnce(Steps(m), s, CommittedTo(m, s), SyncedTo(m, s), CommitResult(m, s))
  {
    var f, c, y, result := Steps(m), CommittedTo(m, s), SyncedTo(m, s), CommitResult(m, s);
    CommittedOnce(m, s);
    assert "membershipId" in result;
    forall ctx: Context<State>
      ensures Yields(f.commitLocal(s, ctx), c, r => r == result) && f.commitLocal(c, ctx) == Threw(c)
    {
      CommitBody(m, s, ctx);
      CommitBody(m, c, ctx);
    }
    forall ctx: Context<State> | ctx.result == Some(result)
      ensures Keeps(f.syncUpstream(c, ctx), y, r => r == result) && Keeps(f.syncUpstream(y, ctx), y, r => r == result)
      ensures Keeps(f.complete(y, ctx), y, r => r == result)
    {
      SyncBody(m, s, ctx);
    }
  }

  /**
   * A history of runs completes an approval or an organization creation if and only if its commit was
   * possible at first, the first commit that happened was recorded, and this run or a later one got past
   * the sync, or found it recorded, and completed.
   */
  lemma CommitCompletesExactly(m: Mutation, s: Store, row: Row, history: seq<seq<Fault>>)
    requires Commits(m) && ValidStore(s) && NotBegun(row)
    ensures Replay(WorkflowOf(m), history, s, row).1.currentStep == Step.Completed <==> CanCommit(m, s) && Completes(history)
  {
    var initial, metadata := (w: Store, r: Row) => InitialState(m, r), (r: Row) => InitialMetadata(m, r);
    if CanCommit(m, s) {
      UserCommitsOnce(m, s);
      ReplayFate(Steps(m), initial, metadata, s, CommittedTo(m, s), SyncedTo(m, s), CommitResult(m, s), Fresh, history, s, row);
      CompletesExactly(history);
    } else {
      forall ctx: Context<State> ensures Steps(m).commitLocal(s, ctx) == Threw(s) { CommitBody(m, s, ctx); }
      RefusedReplay(Steps(m), initial, metadata, history, s, row);
    }
  }

  /**
   * A commit that was lost stays: however often the operation is run, the user is a member, the role
   * rows are those from before, and the operation is not completed. In every other case a fault-free
   * run completes it with the mirrored role.
   */
  lemma LostCommitStrands(m: Mutation, s: Store, row: Row, history: seq<seq<Fault>>)
    requires Commits(m) && ValidStore(s) && NotBegun(row) && CanCommit(m, s)
    ensures var (s', row') := Replay(WorkflowOf(m), history, s, row);
            && (FirstEffectIsLost(history) ==> HasMembership(s', m.user) && s'.roles == s.roles && row'.currentStep != Step.Completed)
            && (!FirstEffectIsLost(history) ==>
                  && Serve(WorkflowOf(m), [], s', row').0 == SyncedTo(m, s)
                  && Serve(WorkflowOf(m), [], s', row').1.currentStep == Step.Completed)
  {
    var initial, metadata := (w: Store, r: Row) => InitialState(m, r), (r: Row) => InitialMetadata(m, r);
    var c, y, result := CommittedTo(m, s), SyncedTo(m, s), CommitResult(m, s);
    var fate := HistoryFate(Fresh, history);
    UserCommitsOnce(m, s);
    CommittedOnce(m, s);
    ReplayFate(Steps(m), initial, metadata, s, c, y, result, Fresh, history, s, row);
    LostExactly(history);
    RetryFate(fate);
    var (s', row') := Replay(WorkflowOf(m), history, s, row);
    ServeFate(Steps(m), initial, metadata, s, c, y, result, fate, [], s', row');
  }

  // ---------------------------------------------------------------- organization creation behind its gate

  /** The session service asks `assertCanStartOnboarding` before it loads the operation. */
  predicate MayStart(m: Mutation, s: Store) {
    CanStartOnboarding(s, m.user).None?
  }

  /** A run with these faults, started on an operation that has not begun, completes it. */
  predicate RunsThrough(faults: seq<Fault>) {
    FaultAt(faults, 0).Clean? && FaultAt(faults, 1).Clean? && Finishes(FaultAt(faults, 2))
  }

  /** What a first run's fate says about tables and row. */
  lemma FirstFate<W>(start: W, committed: W, synced: W, result: Record, faults: seq<Fault>, w: W, row: Row)
    requires InFate(start, committed, synced, result, RunFate(Fresh, faults), w, row)
    ensures !Removes(faults) ==> w == start && NotBegun(row)
    ensures Removes(faults) ==> (w == committed || w == synced) && (row.currentStep == Step.Completed <==> RunsThrough(faults))
  {
  }

  /** The new membership closes the gate. */
  lemma MembershipCloses(m: Mutation, s: Store)
    requires m.CreateOrganization? && ValidStore(s) && MayStart(m, s)
    ensures CanCommit(m, s) && !MayStart(m, CommittedTo(m, s)) && !MayStart(m, SyncedTo(m, s))
  {
    var c, y := CommittedTo(m, s), SyncedTo(m, s);
    CommittedOnce(m, s);
    assert y == c.(roles := y.roles);
    assert HasMembership(y, m.user) <==> HasMembership(c, m.user);
  }

  lemma CreationRun(m: Mutation, s: Store, row: Row, faults: seq<Fault>)
    requires m.CreateOrganization? && ValidStore(s) && MayStart(m, s) && NotBegun(row)
    ensures var r := Resume(WorkflowOf(m), faults, s, row);
            if Removes(faults) then !MayStart(m, r.world) && (r.row.currentStep == Step.Completed <==> RunsThrough(faults))
            else r.world == s && NotBegun(r.row)
  {
    MembershipCloses(m, s);
    UserCommitsOnce(m, s);
    FreshRun(Steps(m), s, CommittedTo(m, s), SyncedTo(m, s), CommitResult(m, s), row, faults, Entry(WorkflowOf(m), s, row));
    var r := RunFrom(LocalFirstSteps(Steps(m), row.currentStep), 0, faults, s, row, Entry(WorkflowOf(m), s, row));
    FirstFate(s, CommittedTo(m, s), SyncedTo(m, s), CommitResult(m, s), faults, r.world, r.row);
  }

  /**
   * A history of organization-creation requests behind their gate completes if and only if the first
   * one that creates the organization runs through: the membership it creates closes the gate.
   */
  lemma GatedCreationCompletesExactly(m: Mutation, s: Store, row: Row, history: seq<seq<Fault>>)
    requires m.CreateOrganization? && ValidStore(s) && NotBegun(row) && MayStart(m, s)
    ensures GatedReplay(WorkflowOf(m), (w: Store) => MayStart(m, w), history, s, row).1.currentStep == Step.Completed
            <==> FirstEffectRunsThrough(history, faults => RunsThrough(faults))
  {
    var gate := (w: Store) => MayStart(m, w);
    var valid := (w: Store) => ValidStore(w);
    var through := (faults: seq<Fault>) => RunsThrough(faults);
    forall w, r, faults | valid(w) && gate(w) && NotBegun(r)
      ensures var run := Resume(WorkflowOf(m), faults, w, r);
              if Removes(faults) then !gate(run.world) && (run.row.currentStep == Step.Completed <==> through(faults))
              else run.world == w && NotBegun(run.row)
    {
      CreationRun(m, w, r, faults);
    }
    GatedCompletion(WorkflowOf(m), gate, valid, through, history, s, row);
  }

  /** One call that nothing disturbs. */
  const ONE_CALL: seq<seq<Fault>> := [[]]

  /**
   * One undisturbed request creates the organization exactly for a known user with a verified address and
   * no membership. A refused request changes nothing.
   */
  lemma CreationCallCompletesExactly(m: Mutation, s: Store, row: Row)
    requires m.CreateOrganization? && ValidStore(s) && NotBegun(row)
    ensures var (s', row') := GatedReplay(WorkflowOf(m), (w: Store) => MayStart(m, w), ONE_CALL, s, row);
            var allowed := m.user in s.users && s.users[m.user] && !HasRow(s.memberships, m.user);
            && (row'.currentStep == Step.Completed <==> allowed)
            && (!allowed ==> s' == s && row' == row)
  {
    var rest: seq<seq<Fault>> := [];
    assert ONE_CALL[1..] == rest;
    assert HasRow(s.memberships, m.user) <==> HasMembership(s, m.user);
    if MayStart(m, s) {
      GatedCreationCompletesExactly(m, s, row, ONE_CALL);
    } else {
      ClosedGate(WorkflowOf(m), (w: Store) => MayStart(m, w), ONE_CALL, s, row);
    }
  }
}
