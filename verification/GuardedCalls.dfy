/**
 * Resuming a user mutation through its own service, whose guards run before the operation is
 * loaded. Role changes always get past them again; a deletion cut short after its commit is refused
 * ever after, and the exact condition under which a history of deletion calls completes is proved.
 */
module GuardedCalls {
  import opened Wrappers
  import opened MutationLedger
  import opened WorkflowEngine
  import opened WorkflowHistories
  import opened TenantStore
  import opened TenantRows
  import opened UserMutations
  import opened CrashResume

  /** A run with these faults, started on a pending operation, leaves it completed. */
  predicate RunsThrough(faults: seq<Fault>) {
    FaultAt(faults, 0).Clean? && FaultAt(faults, 1).Clean?
    && (FaultAt(faults, 2).Clean? || FaultAt(faults, 2) == WriteThrows(true, false))
  }

  lemma RemovedForGood(m: Mutation, s: Store)
    requires m.Delete? && OneMembershipPerUser(s)
    ensures !MemberOf(CommittedStore(m, s), m.user, m.org) && CommittedStore(m, s).roles == s.roles
    ensures OneMembershipPerUser(CommittedStore(m, s))
  {
  }

  /** The first step of a deletion run from an operation that has not begun. */
  lemma FirstAttempt(m: Mutation, s: Store, row: Row, fault: Fault)
    requires m.Delete? && OneMembershipPerUser(s) && NotBegun(row)
    ensures var steps := LocalFirstSteps(Steps(m), row.currentStep);
            var r := Attempt(steps[0], fault, s, row, Entry(WorkflowOf(m), s, row));
            && steps[0].shouldRun(Entry(WorkflowOf(m), s, row))
            && (!Removes([fault]) ==> r.world == s && NotBegun(r.row))
            && (Removes([fault]) ==> r.world == CommittedStore(m, s) && r.row.currentStep != Step.Completed)
            && (r.finished.Some? <==> fault.Clean?)
            && (fault.Clean? ==> r.row.currentStep == Step.LocalCommitted && r.finished.value.result.Some?
                                 && OwnResult(m, r.finished.value.result.value))
  {
    ReachedLocalFirst(row.currentStep);
  }

  /** Without the membership the mirror removes the role row and nothing else. */
  lemma MirrorsAbsence(m: Mutation, s: Store)
    requires m.Delete? && OneMembershipPerUser(s) && !MemberOf(s, m.user, m.org)
    ensures var synced := Synchronize(s, m.user, m.actedBy, None);
            && synced.Committed? && OneMembershipPerUser(synced.store) && !MemberOf(synced.store, m.user, m.org)
  {
    var synced := Synchronize(s, m.user, m.actedBy, None);
    assert synced.store == s.(roles := synced.store.roles);
    MembershipsAlike(s, synced.store);
  }

  /** The sync on a store without the membership. */
  lemma SyncAttempt(m: Mutation, s: Store, row: Row, loaded: Step, fault: Fault, ctx: Context<State>)
    requires m.Delete? && OneMembershipPerUser(s) && !MemberOf(s, m.user, m.org)
    requires ctx.result.Some? && Unreached(loaded) && row.currentStep != Step.Completed
    ensures var steps := LocalFirstSteps(Steps(m), loaded);
            var r := Attempt(steps[1], fault, s, row, ctx);
            && steps[1].shouldRun(ctx)
            && OneMembershipPerUser(r.world) && !MemberOf(r.world, m.user, m.org)
            && (r.finished.Some? <==> fault.Clean?)
            && (fault.Clean? ==> r.finished.value.result.Some?)
            && r.row.currentStep != Step.Completed
  {
    ReachedLocalFirst(loaded);
    MirrorsAbsence(m, s);
  }

  /** The completion touches no table, and completes the row if its write lands and nothing overwrites it. */
  lemma CompletionAttempt(m: Mutation, s: Store, row: Row, loaded: Step, fault: Fault, ctx: Context<State>)
    requires m.Delete? && ctx.result.Some? && row.currentStep != Step.Completed
    ensures var steps := LocalFirstSteps(Steps(m), loaded);
            var r := Attempt(steps[2], fault, s, row, ctx);
            && steps[2].shouldRun(ctx) && r.world == s
            && (r.row.currentStep == Step.Completed <==> fault.Clean? || fault == WriteThrows(true, false))
  {
  }

  lemma MembershipsAlike(s: Store, t: Store)
    requires s.memberships == t.memberships
    ensures forall u, o :: MemberOf(s, u, o) == MemberOf(t, u, o)
  {
  }

  /** The run behind a commit that went through: nothing comes back, and two more steps must go through. */
  lemma DeleteTail(m: Mutation, s: Store, row: Row, loaded: Step, faults: seq<Fault>, ctx: Context<State>)
    requires m.Delete? && OneMembershipPerUser(s) && !MemberOf(s, m.user, m.org)
    requires ctx.result.Some? && Unreached(loaded) && row.currentStep != Step.Completed
    ensures var r := RunFrom(LocalFirstSteps(Steps(m), loaded), 1, faults, s, row, ctx);
            && !MemberOf(r.world, m.user, m.org)
            && (r.row.currentStep == Step.Completed
                <==> FaultAt(faults, 1).Clean? && (FaultAt(faults, 2).Clean? || FaultAt(faults, 2) == WriteThrows(true, false)))
  {
    var steps := LocalFirstSteps(Steps(m), loaded);
    SyncAttempt(m, s, row, loaded, FaultAt(faults, 1), ctx);
    RunStep(steps, 1, faults, s, row, ctx);
    var r := Attempt(steps[1], FaultAt(faults, 1), s, row, ctx);
    if r.finished.Some? {
      CompletionAttempt(m, r.world, r.row, loaded, FaultAt(faults, 2), r.finished.value);
      RunStep(steps, 2, faults, r.world, r.row, r.finished.value);
    }
  }

  lemma DeleteRun(m: Mutation, s: Store, row: Row, faults: seq<Fault>)
    requires m.Delete? && OneMembershipPerUser(s) && NotBegun(row)
    ensures var r := Resume(WorkflowOf(m), faults, s, row);
            && (!Removes(faults) ==> r.world == s && NotBegun(r.row))
            && (Removes(faults) ==>
                  && !MemberOf(r.world, m.user, m.org)
                  && (r.row.currentStep == Step.Completed <==> RunsThrough(faults)))
  {
    var steps, ctx := LocalFirstSteps(Steps(m), row.currentStep), Entry(WorkflowOf(m), s, row);
    FirstAttempt(m, s, row, FaultAt(faults, 0));
    RemovedForGood(m, s);
    RunStep(steps, 0, faults, s, row, ctx);
    var r := Attempt(steps[0], FaultAt(faults, 0), s, row, ctx);
    if r.finished.Some? {
      DeleteTail(m, r.world, r.row, row.currentStep, faults, r.finished.value);
    }
  }

  /**
   * A history of `deleteOrganizationUser` calls that passes the guards completes if and only if the
   * first call that removes the membership runs through; a deletion interrupted between its commit
   * and its completion is never completed by calling again.
   */
  lemma DeletionCompletesExactly(m: Mutation, s: Store, row: Row, history: seq<seq<Fault>>)
    requires m.Delete? && OneMembershipPerUser(s) && NotBegun(row) && ServiceGuard(m, s).None?
    ensures Calls(m, history, s, row).1.currentStep == Step.Completed
      <==> FirstEffectRunsThrough(history, faults => RunsThrough(faults))
  {
    var gate := (w: Store) => ServiceGuard(m, w).None?;
    var valid := (w: Store) => OneMembershipPerUser(w);
    var through := (faults: seq<Fault>) => RunsThrough(faults);
    forall w, r, faults | valid(w) && gate(w) && NotBegun(r)
      ensures var run := Resume(WorkflowOf(m), faults, w, r);
              if Removes(faults) then !gate(run.world) && (run.row.currentStep == Step.Completed <==> through(faults))
              else run.world == w && NotBegun(run.row)
    {
      DeleteRun(m, w, r, faults);
    }
    GatedCompletion(WorkflowOf(m), gate, valid, through, history, s, row);
  }

  /** A crash right after the commit: the role row outlives the membership however often the deletion is called again. */
  lemma OrphanedRoleRow(m: Mutation, s: Store, row: Row, history: seq<seq<Fault>>)
    requires m.Delete? && OneMembershipPerUser(s) && NotBegun(row) && ServiceGuard(m, s).None? && m.user in s.roles
    ensures var (s', row') := Calls(m, [[Dies(true)]] + history, s, row);
            !HasMembership(s', m.user) && m.user in s'.roles && row'.currentStep != Step.Completed
  {
    FirstAttempt(m, s, row, Dies(true));
    RemovedForGood(m, s);
    AssignedOrRemoved(m, s);
    var h := [[Dies(true)]] + history;
    assert h[0] == [Dies(true)] && h[1..] == history;
    var gate := (w: Store) => ServiceGuard(m, w).None?;
    var (s', row') := GatedServe(WorkflowOf(m), gate, h[0], s, row);
    assert s' == CommittedStore(m, s);
    ClosedGate(WorkflowOf(m), gate, history, s', row');
  }

  /** The guards read memberships only. */
  lemma GuardsAlike(m: Mutation, s: Store, t: Store)
    requires s.memberships == t.memberships
    ensures ServiceGuard(m, s) == ServiceGuard(m, t)
  {
    MembershipsAlike(s, t);
  }

  /** A role change that passed its guards passes them again in every store its history can reach. */
  lemma GuardsPassAgain(m: Mutation, s: Store)
    requires (m.Assign? || m.Revoke?) && OneMembershipPerUser(s) && ServiceGuard(m, s).None?
    ensures ServiceGuard(m, CommittedStore(m, s)).None? && ServiceGuard(m, SyncedStore(m, s)).None?
  {
    var c, y := CommittedStore(m, s), SyncedStore(m, s);
    AssignedOrRemoved(m, s);
    SyncKeepsMemberships(m, s);
    var id :| id in s.memberships && s.memberships[id].userId == m.user && s.memberships[id].organizationId == m.org;
    assert c.memberships[id].organizationId == m.org && c.memberships[id].userId == m.user;
    GuardsAlike(m, c, y);
    var next := if m.Assign? then m.role else Teacher;
    forall k | k in c.memberships && c.memberships[k].userId == m.user && IsAdminRow(c.memberships[k], m.org)
      ensures next == Admin
    {
      assert k == id;
    }
  }

  /** So for role changes a history of service calls is a history of runs, and the transparency result applies. */
  lemma {:induction false} RoleChangeCallsAreRuns(m: Mutation, s: Store, world: Store, row: Row, history: seq<seq<Fault>>)
    requires (m.Assign? || m.Revoke?) && OneMembershipPerUser(s) && ServiceGuard(m, s).None?
    requires InPhase(s, CommittedStore(m, s), SyncedStore(m, s), Own(m), world, row)
    ensures Calls(m, history, world, row) == Replay(WorkflowOf(m), history, world, row)
    decreases |history|
  {
    if |history| > 0 {
      GuardsPassAgain(m, s);
      UserMutationConverges(m, s);
      ConvergingHistory(Steps(m), (w: Store, r: Row) => InitialState(m, r), (r: Row) => InitialMetadata(m, r), s, CommittedStore(m, s),
                        SyncedStore(m, s), Own(m), [history[0]], world, row);
      var (s', row') := Serve(WorkflowOf(m), history[0], world, row);
      assert [history[0]][1..] == [];
      assert Replay(WorkflowOf(m), [history[0]], world, row) == (s', row');
      RoleChangeCallsAreRuns(m, s, s', row', history[1..]);
    }
  }

  /** The role that the membership is to get, if it stays. */
  function NextRole(m: Mutation): Option<OrgRole> {
    match m
    case Assign(_, _, role, _, _) => Some(role)
    case Revoke(_, _, _) => Some(Teacher)
    case _ => None
  }

  /** Guards passed, an undisturbed call completes. */
  lemma AllowedCallCompletes(m: Mutation, s: Store, row: Row)
    requires (m.Assign? || m.Revoke? || m.Delete?) && OneMembershipPerUser(s) && NotBegun(row) && ServiceGuard(m, s).None?
    ensures Calls(m, ONE_CALL, s, row).1.currentStep == Step.Completed
  {
    var rest: seq<seq<Fault>> := [];
    assert ONE_CALL[1..] == rest;
    if m.Delete? {
      DeletionCompletesExactly(m, s, row, ONE_CALL);
    } else {
      RoleChangeCallsAreRuns(m, s, s, row, ONE_CALL);
      UserMutationConverges(m, s);
      ConvergingServe(Steps(m), (w: Store, r: Row) => InitialState(m, r), (r: Row) => InitialMetadata(m, r), s, CommittedStore(m, s),
                      SyncedStore(m, s), Own(m), [], s, row);
    }
  }

  /** One call that nothing disturbs. */
  const ONE_CALL: seq<seq<Fault>> := [[]]

  /**
   * One undisturbed call of a role change or deletion completes it exactly if the user has a row in the
   * organization and stays admin, was none, or leaves another admin there. A refused call changes nothing.
   */
  lemma CallCompletesExactly(m: Mutation, s: Store, row: Row)
    requires (m.Assign? || m.Revoke? || m.Delete?) && OneMembershipPerUser(s) && NotBegun(row)
    ensures var (s', row') := Calls(m, ONE_CALL, s, row);
            var rows, admin := s.memberships, (m.Assign? && m.role == Admin);
            var allowed := IsIn(rows, m.user, m.org) && (admin || !IsAdminIn(rows, m.user, m.org) || AnotherAdminIn(rows, m.user, m.org));
            && (row'.currentStep == Step.Completed <==> allowed)
            && (!allowed ==> s' == s && row' == row)
  {
    GuardDecides(s, m.org, m.user, NextRole(m));
    assert ServiceGuard(m, s) == Guard(s, m.org, m.user, NextRole(m));
    if ServiceGuard(m, s).None? {
      AllowedCallCompletes(m, s, row);
    } else {
      ClosedGate(WorkflowOf(m), (w: Store) => ServiceGuard(m, w).None?, ONE_CALL, s, row);
    }
  }
}
