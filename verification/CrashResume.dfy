/**
 * Crash-resume transparency: for the mutations with `current-step` proof, however a history of
 * runs throws or crashes, a completed operation leaves what one uninterrupted run leaves.
 */
module CrashResume {
  import opened Wrappers
  import opened MutationLedger
  import opened WorkflowEngine
  import opened WorkflowHistories
  import opened TenantStore
  import opened TenantRows
  import opened UserMutations

  /**
   * Commit leads from `start` to `committed`, sync from there to `synced`, and both may be repeated
   * in any later state without leaving these three.
   */
  ghost predicate Converges<W(!new), S(!new)>(f: LocalFirst<W, S>, start: W, committed: W, synced: W, ok: Record -> bool) {
    && f.localCommitProof == ByCurrentStep
    && (forall r | ok(r) :: |r| > 0)
    && (forall ctx: Context<S> ::
          && Yields(f.commitLocal(start, ctx), committed, ok)
          && Yields(f.commitLocal(committed, ctx), committed, ok)
          && Yields(f.commitLocal(synced, ctx), synced, ok))
    && (forall ctx: Context<S> | ctx.result.Some? && ok(ctx.result.value) ::
          && Keeps(f.syncUpstream(committed, ctx), synced, ok)
          && Keeps(f.syncUpstream(synced, ctx), synced, ok)
          && Keeps(f.complete(synced, ctx), synced, ok))
  }

  /** How the persisted step bounds the world, at rest and before the i-th step of a run. */
  ghost predicate InPhase<W>(start: W, committed: W, synced: W, ok: Record -> bool, world: W, row: Row) {
    && Sound(row) && LocalFirstStep(row.currentStep)
    && (|row.result| > 0 ==> ok(row.result))
    && (world == start || world == committed || world == synced)
    && (row.currentStep == Step.LocalCommitted ==> (world == committed || world == synced))
    && ((row.currentStep == Step.SyncedUpstream || row.currentStep == Step.Completed) ==> world == synced)
  }

  ghost predicate Midway<W, S>(start: W, committed: W, synced: W, ok: Record -> bool, loaded: Step, i: nat,
                               world: W, row: Row, ctx: Context<S>)
  {
    && InPhase(start, committed, synced, ok, world, row)
    && (ctx.result.Some? ==> ok(ctx.result.value))
    && (i == 0 ==> row.currentStep == loaded && ctx.result == GetResult(row))
    && (i == 1 ==> ctx.result.Some? && (world == committed || world == synced) && (loaded == Step.SyncedUpstream ==> world == synced))
    && (i >= 2 ==> ctx.result.Some? && world == synced)
    && (i == 3 ==> row.currentStep == Step.Completed)
  }

  /** The world the i-th body leads to. */
  function TargetOf<W(==)>(committed: W, synced: W, i: nat, world: W): W {
    if i == 0 && world != synced then committed else synced
  }

  lemma MidwayLanded<W, S>(f: LocalFirst<W, S>, start: W, committed: W, synced: W, ok: Record -> bool, loaded: Step, i: nat,
                           world: W, row: Row, ctx: Context<S>, r: RunResult<W, S>)
    requires i < 3 && f.localCommitProof == ByCurrentStep
    requires start == synced ==> committed == synced
    requires Unfinished(loaded)
    requires Midway(start, committed, synced, ok, loaded, i, world, row, ctx)
    ensures var step := LocalFirstSteps(f, loaded)[i];
            if step.shouldRun(ctx) then
              Landed(step.step, TargetOf(committed, synced, i, world), ok, world, row, r) ==>
                && InPhase(start, committed, synced, ok, r.world, r.row)
                && (r.finished.Some? ==> Midway(start, committed, synced, ok, loaded, i + 1, r.world, r.row, r.finished.value))
            else Midway(start, committed, synced, ok, loaded, i + 1, world, row, ctx)
  {
    ReachedLocalFirst(loaded);
  }

  lemma MidwayNext<W(!new), S(!new)>(f: LocalFirst<W, S>, start: W, committed: W, synced: W, ok: Record -> bool, loaded: Step,
                                     i: nat, fault: Fault, world: W, row: Row, ctx: Context<S>)
    requires i < 3 && Converges(f, start, committed, synced, ok)
    requires Unfinished(loaded)
    requires Midway(start, committed, synced, ok, loaded, i, world, row, ctx)
    ensures var step := LocalFirstSteps(f, loaded)[i];
            var r := Attempt(step, fault, world, row, ctx);
            if step.shouldRun(ctx) then
              && InPhase(start, committed, synced, ok, r.world, r.row)
              && (r.finished.Some? ==> Midway(start, committed, synced, ok, loaded, i + 1, r.world, r.row, r.finished.value))
              && (fault.Clean? ==> r.finished.Some?)
            else Midway(start, committed, synced, ok, loaded, i + 1, world, row, ctx)
  {
    var step := LocalFirstSteps(f, loaded)[i];
    var r := Attempt(step, fault, world, row, ctx);
    assert start == synced ==> committed == synced by {
      assert Yields(f.commitLocal(start, ctx), committed, ok) && Yields(f.commitLocal(synced, ctx), synced, ok);
    }
    if step.shouldRun(ctx) {
      assert (world == committed || world == synced) || i == 0;
      LandsOn(step, fault, TargetOf(committed, synced, i, world), ok, world, row, ctx);
    }
    MidwayLanded(f, start, committed, synced, ok, loaded, i, world, row, ctx, r);
  }

  lemma {:induction false} ConvergingRun<W(!new), S(!new)>(f: LocalFirst<W, S>, start: W, committed: W, synced: W,
      ok: Record -> bool, loaded: Step, i: nat, faults: seq<Fault>, world: W, row: Row, ctx: Context<S>)
    requires i <= 3 && Converges(f, start, committed, synced, ok)
    requires Unfinished(loaded)
    requires Midway(start, committed, synced, ok, loaded, i, world, row, ctx)
    ensures var r := RunFrom(LocalFirstSteps(f, loaded), i, faults, world, row, ctx);
            && InPhase(start, committed, synced, ok, r.world, r.row)
            && (faults == [] ==> r.row.currentStep == Step.Completed)
    decreases 3 - i
  {
    var steps, fault := LocalFirstSteps(f, loaded), FaultAt(faults, i);
    if i < 3 {
      RunStep(steps, i, faults, world, row, ctx);
      MidwayNext(f, start, committed, synced, ok, loaded, i, fault, world, row, ctx);
      if !steps[i].shouldRun(ctx) {
        ConvergingRun(f, start, committed, synced, ok, loaded, i + 1, faults, world, row, ctx);
      } else {
        var r := Attempt(steps[i], fault, world, row, ctx);
        if r.finished.Some? {
          ConvergingRun(f, start, committed, synced, ok, loaded, i + 1, faults, r.world, r.row, r.finished.value);
        }
      }
    }
  }

  /** An operation that is not answered from the ledger starts a run in phase and ends it in phase. */
  lemma ConvergingServe<W(!new), S(!new)>(f: LocalFirst<W, S>, s: (W, Row) -> S, m: Row -> Record, start: W, committed: W,
                                          synced: W, ok: Record -> bool, faults: seq<Fault>, world: W, row: Row)
    requires Converges(f, start, committed, synced, ok)
    requires InPhase(start, committed, synced, ok, world, row)
    ensures var (w, r) := Serve(LocalFirstWorkflow(f, s, m), faults, world, row);
            && InPhase(start, committed, synced, ok, w, r)
            && (faults == [] ==> w == synced && r.currentStep == Step.Completed)
  {
    if !Answered(row) {
      var wf := LocalFirstWorkflow(f, s, m);
      ConvergingRun(f, start, committed, synced, ok, row.currentStep, 0, faults, world, row, Entry(wf, world, row));
    }
  }

  /** Any history stays among the three worlds, and a fault-free retry always completes it. */
  lemma {:induction false} ConvergingHistory<W(!new), S(!new)>(f: LocalFirst<W, S>, s: (W, Row) -> S, m: Row -> Record,
      start: W, committed: W, synced: W, ok: Record -> bool, history: seq<seq<Fault>>, world: W, row: Row)
    requires Converges(f, start, committed, synced, ok)
    requires InPhase(start, committed, synced, ok, world, row)
    ensures var wf := LocalFirstWorkflow(f, s, m);
            var (w, r) := Replay(wf, history, world, row);
            && InPhase(start, committed, synced, ok, w, r)
            && Serve(wf, [], w, r).0 == synced && Serve(wf, [], w, r).1.currentStep == Step.Completed
    decreases |history|
  {
    if |history| == 0 {
      ConvergingServe(f, s, m, start, committed, synced, ok, [], world, row);
    } else {
      ConvergingServe(f, s, m, start, committed, synced, ok, history[0], world, row);
      var (w, r) := Serve(LocalFirstWorkflow(f, s, m), history[0], world, row);
      ConvergingHistory(f, s, m, start, committed, synced, ok, history[1..], w, r);
    }
  }

  // ---------------------------------------------------------------- assign, revoke, delete

  predicate Resumable(m: Mutation) {
    m.Assign? || m.Revoke? || m.Delete?
  }

  /** The stored results a mutation can meet in its own operation. */
  ghost function Own(m: Mutation): Record -> bool {
    (r: Record) => OwnResult(m, r)
  }

  ghost predicate OwnResult(m: Mutation, r: Record) {
    match m
    case Assign(_, _, role, groupIds, actedBy) => r == AssignedRole(Mirror(role), groupIds, actedBy)
    case Revoke(_, _, _) => r == SUCCESS
    case _ => "success" in r
  }

  function CommittedStore(m: Mutation, s: Store): Store {
    Commit(m, s).world
  }

  /** The store after the mirror of the committed membership. */
  function SyncedStore(m: Mutation, s: Store): Store {
    var groupIds := if m.Assign? then Some(TextList(m.groupIds)) else SyncedGroupIds(m, map[]);
    match Synchronize(CommittedStore(m, s), m.user, Actor(m), groupIds)
    case Committed(s', _) => s'
    case Refused(_) => s
  }

  /** Committing again changes nothing, before or after the sync. */
  lemma CommitRepeats(m: Mutation, s: Store)
    requires Resumable(m) && !Ambiguous(CommittedStore(m, s), m.user)
    ensures CommittedStore(m, CommittedStore(m, s)) == CommittedStore(m, s)
    ensures CommittedStore(m, SyncedStore(m, s)) == SyncedStore(m, s)
  {
    var c, y := CommittedStore(m, s), SyncedStore(m, s);
    assert y == c.(roles := y.roles) by { SyncKeepsMemberships(m, s); }
  }

  lemma SyncKeepsMemberships(m: Mutation, s: Store)
    requires Resumable(m) && !Ambiguous(CommittedStore(m, s), m.user)
    ensures SyncedStore(m, s) == CommittedStore(m, s).(roles := SyncedStore(m, s).roles)
  {
  }

  lemma AssignedOrRemoved(m: Mutation, s: Store)
    requires Resumable(m) && MemberOf(s, m.user, m.org) && OneMembershipPerUser(s)
    ensures var c := CommittedStore(m, s);
            && OneMembershipPerUser(c) && !Ambiguous(c, m.user)
            && (m.Delete? ==> !HasMembership(c, m.user))
            && (!m.Delete? ==> HasMembership(c, m.user) && MembershipOf(c, m.user).role == (if m.Assign? then m.role else Teacher))
  {
    var c := CommittedStore(m, s);
    var id :| id in s.memberships && s.memberships[id].userId == m.user && s.memberships[id].organizationId == m.org;
    if !m.Delete? {
      assert id in c.memberships && c.memberships[id].userId == m.user;
      assert MembershipIdOf(c, m.user) == id;
    }
  }

  lemma CommitYields(m: Mutation, s: Store, ctx: Context<State>)
    requires Resumable(m)
    ensures Yields(Steps(m).commitLocal(s, ctx), CommittedStore(m, s), Own(m))
  {
  }

  lemma OwnResultsAreKept(m: Mutation, r: Record)
    requires OwnResult(m, r) && Resumable(m)
    ensures |r| > 0
  {
    assert "success" in r || "role" in r;
  }

  /** The sync of a resumable mutation reaches the same store from the committed and the synced one. */
  lemma SyncRepeats(m: Mutation, s: Store, result: Record, ctx: Context<State>)
    requires Resumable(m) && MemberOf(s, m.user, m.org) && OneMembershipPerUser(s)
    requires ctx.result == Some(result) && OwnResult(m, result)
    ensures Keeps(Sync(m, CommittedStore(m, s), ctx), SyncedStore(m, s), Own(m))
    ensures Keeps(Sync(m, SyncedStore(m, s), ctx), SyncedStore(m, s), Own(m))
  {
    if m.Delete? { RemovalSyncRepeats(m, s, result, ctx); } else { ChangeSyncRepeats(m, s, result, ctx); }
  }

  lemma RemovalSyncRepeats(m: Mutation, s: Store, result: Record, ctx: Context<State>)
    requires m.Delete? && MemberOf(s, m.user, m.org) && OneMembershipPerUser(s)
    requires ctx.result == Some(result) && OwnResult(m, result)
    ensures Keeps(Sync(m, CommittedStore(m, s), ctx), SyncedStore(m, s), Own(m))
    ensures Keeps(Sync(m, SyncedStore(m, s), ctx), SyncedStore(m, s), Own(m))
  {
    var c, y := CommittedStore(m, s), SyncedStore(m, s);
    AssignedOrRemoved(m, s);
    assert y == c.(roles := y.roles) && !Ambiguous(y, m.user) && !HasMembership(y, m.user);
    assert y.roles - {m.user} == y.roles;
  }

  lemma ChangeSyncRepeats(m: Mutation, s: Store, result: Record, ctx: Context<State>)
    requires (m.Assign? || m.Revoke?) && MemberOf(s, m.user, m.org) && OneMembershipPerUser(s)
    requires ctx.result == Some(result) && OwnResult(m, result)
    ensures Keeps(Sync(m, CommittedStore(m, s), ctx), SyncedStore(m, s), Own(m))
    ensures Keeps(Sync(m, SyncedStore(m, s), ctx), SyncedStore(m, s), Own(m))
  {
    var c, y := CommittedStore(m, s), SyncedStore(m, s);
    AssignedOrRemoved(m, s);
    if m.Assign? { GroupIdsRoundTrip(m.groupIds); }
    assert y == c.(roles := y.roles) && !Ambiguous(y, m.user);
    var id := MembershipIdOf(c, m.user);
    assert id in y.memberships && MembershipIdOf(y, m.user) == id;
    assert m.user in y.roles && y.roles[m.user := y.roles[m.user]] == y.roles;
  }

  lemma CommitsYield(m: Mutation, s: Store, ctx: Context<State>)
    requires Resumable(m) && MemberOf(s, m.user, m.org) && OneMembershipPerUser(s)
    ensures var f, c, y := Steps(m), CommittedStore(m, s), SyncedStore(m, s);
            && Yields(f.commitLocal(s, ctx), c, Own(m))
            && Yields(f.commitLocal(c, ctx), c, Own(m))
            && Yields(f.commitLocal(y, ctx), y, Own(m))
  {
    AssignedOrRemoved(m, s);
    CommitRepeats(m, s);
    CommitYields(m, s, ctx);
    CommitYields(m, CommittedStore(m, s), ctx);
    CommitYields(m, SyncedStore(m, s), ctx);
  }

  lemma SyncsKeep(m: Mutation, s: Store, ctx: Context<State>)
    requires Resumable(m) && MemberOf(s, m.user, m.org) && OneMembershipPerUser(s)
    requires ctx.result.Some? && OwnResult(m, ctx.result.value)
    ensures var f, c, y := Steps(m), CommittedStore(m, s), SyncedStore(m, s);
            && Keeps(f.syncUpstream(c, ctx), y, Own(m))
            && Keeps(f.syncUpstream(y, ctx), y, Own(m))
            && Keeps(f.complete(y, ctx), y, Own(m))
  {
    SyncRepeats(m, s, ctx.result.value, ctx);
  }

  /** The user mutations fit the pattern, from any store where the guarded user is a member. */
  lemma UserMutationConverges(m: Mutation, s: Store)
    requires Resumable(m) && MemberOf(s, m.user, m.org) && OneMembershipPerUser(s)
    ensures Converges(Steps(m), s, CommittedStore(m, s), SyncedStore(m, s), Own(m))
  {
    var f, c, y, ok := Steps(m), CommittedStore(m, s), SyncedStore(m, s), Own(m);
    forall r | ok(r) ensures |r| > 0 {
      OwnResultsAreKept(m, r);
    }
    forall ctx: Context<State>
      ensures Yields(f.commitLocal(s, ctx), c, ok) && Yields(f.commitLocal(c, ctx), c, ok) && Yields(f.commitLocal(y, ctx), y, ok)
    {
      CommitsYield(m, s, ctx);
    }
    forall ctx: Context<State> | ctx.result.Some? && ok(ctx.result.value)
      ensures Keeps(f.syncUpstream(c, ctx), y, ok) && Keeps(f.syncUpstream(y, ctx), y, ok) && Keeps(f.complete(y, ctx), y, ok)
    {
      SyncsKeep(m, s, ctx);
    }
  }

  /** The role the membership has after the mutation. */
  function FinalRole(m: Mutation): OrgRole {
    if m.Assign? then m.role else Teacher
  }

  /** No table but the memberships and the role rows is touched, and in these no other user's rows. */
  predicate TouchesOnly(s: Store, t: Store, user: string) {
    && t == s.(memberships := t.memberships, roles := t.roles)
    && (forall id | id in s.memberships && s.memberships[id].userId != user ::
          id in t.memberships && t.memberships[id] == s.memberships[id])
    && (forall id | id in t.memberships :: id in s.memberships && t.memberships[id].userId == s.memberships[id].userId)
    && s.roles - {user} == t.roles - {user}
  }

  lemma SyncedTouchesOnly(m: Mutation, s: Store)
    requires Resumable(m) && MemberOf(s, m.user, m.org) && OneMembershipPerUser(s)
    ensures TouchesOnly(s, SyncedStore(m, s), m.user)
    ensures m.Delete? ==> !HasMembership(SyncedStore(m, s), m.user) && m.user !in SyncedStore(m, s).roles
  {
    AssignedOrRemoved(m, s);
    SyncKeepsMemberships(m, s);
  }

  /**
   * What the mutations end in: the user's one membership and mirrored role row say the new role and
   * groups, or both are gone; nobody else is touched.
   */
  lemma SyncedOutcome(m: Mutation, s: Store)
    requires Resumable(m) && MemberOf(s, m.user, m.org) && OneMembershipPerUser(s)
    ensures var t := SyncedStore(m, s);
            && TouchesOnly(s, t, m.user)
            && (m.Delete? ==> !HasMembership(t, m.user) && m.user !in t.roles)
            && (!m.Delete? ==>
                  && HasMembership(t, m.user) && !Ambiguous(t, m.user) && m.user in t.roles
                  && MembershipOf(t, m.user) == MembershipOf(s, m.user).(role := FinalRole(m))
                  && (t.roles[m.user].role == MirroredAdmin <==> m.Assign? && m.role == Admin)
                  && t.roles[m.user].groupIds == (if m.Assign? then m.groupIds else [])
                  && t.roles[m.user].createdBy == (if m.user in s.roles then s.roles[m.user].createdBy
                                                   else if m.actedBy in s.users then m.actedBy else m.user))
  {
    SyncedTouchesOnly(m, s);
    if !m.Delete? {
      SyncedRole(m, s);
      SyncedCreator(m, s);
    }
  }

  lemma SyncedRole(m: Mutation, s: Store)
    requires (m.Assign? || m.Revoke?) && MemberOf(s, m.user, m.org) && OneMembershipPerUser(s)
    ensures var t := SyncedStore(m, s);
            && HasMembership(t, m.user) && !Ambiguous(t, m.user) && m.user in t.roles
            && MembershipOf(t, m.user) == MembershipOf(s, m.user).(role := FinalRole(m))
            && t.roles[m.user].role == Mirror(FinalRole(m))
            && t.roles[m.user].groupIds == (if m.Assign? then m.groupIds else [])
  {
    var c, t := CommittedStore(m, s), SyncedStore(m, s);
    AssignedOrRemoved(m, s);
    SyncKeepsMemberships(m, s);
    var id :| id in s.memberships && s.memberships[id].userId == m.user && s.memberships[id].organizationId == m.org;
    assert MembershipIdOf(s, m.user) == id;
    if m.Assign? { GroupIdsRoundTrip(m.groupIds); }
    assert id in c.memberships && MembershipIdOf(c, m.user) == id;
    assert id in t.memberships && MembershipIdOf(t, m.user) == id;
  }

  /** The creator of a role row never changes; a new row is the actor's, if known upstream. */
  lemma SyncedCreator(m: Mutation, s: Store)
    requires (m.Assign? || m.Revoke?) && MemberOf(s, m.user, m.org) && OneMembershipPerUser(s)
    ensures var t := SyncedStore(m, s);
            m.user in t.roles && t.roles[m.user].createdBy == (if m.user in s.roles then s.roles[m.user].createdBy
                                                               else if m.actedBy in s.users then m.actedBy else m.user)
  {
    var c := CommittedStore(m, s);
    AssignedOrRemoved(m, s);
    var id :| id in c.memberships && c.memberships[id].userId == m.user;
    assert AtMostOneRow(c.memberships, m.user);
    RoleRowWritten(c, m.user, m.actedBy, if m.Assign? then Some(TextList(m.groupIds)) else Some(List([])), id);
  }

  /**
   * Role assignment, role revocation and user deletion: whatever a history of runs suffered, if the
   * operation is completed the whole store equals that of one uninterrupted run; until then it is
   * the initial, the committed or the synced store; and a fault-free run would complete it.
   */
  lemma CrashResumeTransparency(m: Mutation, s: Store, row: Row, history: seq<seq<Fault>>)
    requires Resumable(m) && MemberOf(s, m.user, m.org) && OneMembershipPerUser(s)
    requires row.currentStep == Step.Pending && row.status == Status.InProgress && row.result == map[]
    ensures var (s', row') := Replay(WorkflowOf(m), history, s, row);
            var (once, done) := Serve(WorkflowOf(m), [], s, row);
            && done.currentStep == Step.Completed && once == SyncedStore(m, s)
            && (row'.currentStep == Step.Completed ==> s' == once)
            && (s' == s || s' == CommittedStore(m, s) || s' == once)
            && Serve(WorkflowOf(m), [], s', row').0 == once
  {
    UserMutationConverges(m, s);
    var c, y := CommittedStore(m, s), SyncedStore(m, s);
    ConvergingHistory(Steps(m), (w: Store, r: Row) => InitialState(m, r), (r: Row) => InitialMetadata(m, r), s, c, y,
                      Own(m), history, s, row);
    ConvergingHistory(Steps(m), (w: Store, r: Row) => InitialState(m, r), (r: Row) => InitialMetadata(m, r), s, c, y,
                      Own(m), [], s, row);
  }
}
