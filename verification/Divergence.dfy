/**
 * Any number of user operations, interleaved between every effect and every ledger write and
 * crashing freely: a role row that disagrees with the membership is always owed by an operation
 * whose persisted step is before `synced_upstream`.
 */
module Divergence {
  import opened Wrappers
  import opened MutationLedger
  import opened WorkflowEngine
  import opened WorkflowHistories
  import opened Interleaving
  import opened TenantStore
  import opened UserMutations

  type Op = Operation<Mutation, State>

  /** The user mutations; a new operation is a pending row for its user. */
  function Users(): Services<Store, Mutation, State> {
    Services((m: Mutation) => WorkflowOf(m), (id: string, m: Mutation) => FreshRow("", id, None, Some(m.user), map[]))
  }

  // ---------------------------------------------------------------- the property

  /** The role row mirrors the membership: it exists iff the membership does, with the mirrored role. */
  ghost predicate Agrees(s: Store, user: string) {
    && (user in s.roles <==> HasMembership(s, user))
    && forall id | id in s.memberships && s.memberships[id].userId == user && user in s.roles ::
         s.roles[user].role == Mirror(s.memberships[id].role)
  }

  predicate BeforeSynced(row: Row) {
    row.status != Status.Completed && (row.currentStep != Step.SyncedUpstream && row.currentStep != Step.Completed)
  }

  ghost predicate Witnessed(p: Platform<Store, Mutation, State>, user: string) {
    Agrees(p.store, user)
    || exists id :: id in p.operations && p.operations[id].mutation.user == user && BeforeSynced(p.operations[id].row)
  }

  // ---------------------------------------------------------------- the invariant

  ghost predicate ValidStore(s: Store) {
    OneMembershipPerUser(s) && forall id :: id in s.memberships ==> id < s.supply
  }

  ghost predicate ValidOperation(op: Op) {
    && Sound(op.row) && LocalFirstStep(op.row.currentStep)
    && (op.run.Some? ==>
          var run, loaded := op.run.value, op.run.value.ctx.operation.currentStep;
          && run.next <= 3 && Carried(run.ctx)
          && Unfinished(loaded)
          && (run.next == 0 ==> op.row.currentStep == loaded && run.ctx.result == GetResult(op.row))
          && (run.next >= 1 ==> run.ctx.result.Some?)
          && (run.next == 1 ==> op.row.currentStep != Step.Completed)
          && (run.next == 1 && loaded == Step.SyncedUpstream ==> op.row.currentStep == loaded)
          && (run.next == 2 ==> op.row.currentStep == Step.SyncedUpstream)
          && (run.next == 3 ==> op.row.currentStep == Step.Completed && run.phase.Ready?)
          && (run.next < 3 && run.phase.Unrecorded? ==>
                && StepAt(Users(), op).shouldRun(run.ctx) && Plain(run.phase.update)
                && Absorb(run.ctx, run.phase.update).result.Some? && Carried(Absorb(run.ctx, run.phase.update))))
  }

  /** The operation still has to mirror its user: its step is before synced and its sync has not run. */
  ghost predicate Owes(op: Op) {
    (op.row.currentStep != Step.SyncedUpstream && op.row.currentStep != Step.Completed)
    && !(op.run.Some? && op.run.value.next == 1 && op.run.value.phase.Unrecorded?)
  }

  ghost predicate Accounted(p: Platform<Store, Mutation, State>, user: string) {
    Agrees(p.store, user)
    || exists id :: id in p.operations && p.operations[id].mutation.user == user && Owes(p.operations[id])
  }

  ghost predicate Inv(p: Platform<Store, Mutation, State>) {
    && ValidStore(p.store)
    && (forall id :: id in p.operations ==> ValidOperation(p.operations[id]))
    && forall user :: Accounted(p, user)
  }

  // ---------------------------------------------------------------- store facts

  /** A commit touches its own user only. */
  lemma CommitIsLocal(m: Mutation, s: Store)
    requires ValidStore(s)
    ensures var ret := Commit(m, s);
            ValidStore(ret.world) && (ret.Threw? ==> ret.world == s)
    ensures forall user :: user != m.user && Agrees(s, user) ==> Agrees(Commit(m, s).world, user)
  {
    var t := Commit(m, s).world;
    forall user | user != m.user && Agrees(s, user)
      ensures Agrees(t, user)
    {
      assert HasMembership(s, user) ==> HasMembership(t, user) by {
        if HasMembership(s, user) {
          var id :| id in s.memberships && s.memberships[id].userId == user;
          assert id in t.memberships && t.memberships[id].userId == user;
        }
      }
    }
  }

  lemma SynchronizeAgrees(s: Store, user: string, actedBy: string, groupIds: Option<Json>)
    requires ValidStore(s)
    ensures var r := Synchronize(s, user, actedBy, groupIds);
            && r.Committed? && ValidStore(r.store) && Agrees(r.store, user)
            && r.store == s.(roles := r.store.roles) && r.store.roles - {user} == s.roles - {user}
  {
    var t := Synchronize(s, user, actedBy, groupIds).store;
    assert HasMembership(s, user) <==> HasMembership(t, user);
  }

  lemma OthersAgree(s: Store, t: Store, user: string)
    requires t == s.(roles := t.roles) && t.roles - {user} == s.roles - {user}
    ensures forall u :: u != user && Agrees(s, u) ==> Agrees(t, u)
  {
    forall u | u != user && Agrees(s, u)
      ensures Agrees(t, u)
    {
      assert u in t.roles <==> u in t.roles - {user};
      assert u in s.roles <==> u in s.roles - {user};
      assert HasMembership(s, u) <==> HasMembership(t, u);
      if u in t.roles { assert t.roles[u] == (t.roles - {user})[u] == s.roles[u]; }
    }
  }

  /** A sync makes its own user agree and leaves everybody else alone. */
  lemma SyncIsLocal(m: Mutation, s: Store, ctx: Context<State>)
    requires ValidStore(s) && ctx.result.Some?
    ensures var ret := Sync(m, s, ctx);
            ValidStore(ret.world) && Agrees(ret.world, m.user)
    ensures forall user :: user != m.user && Agrees(s, user) ==> Agrees(Sync(m, s, ctx).world, user)
  {
    var r := Synchronize(s, m.user, Actor(m), SyncedGroupIds(m, ctx.result.value));
    SynchronizeAgrees(s, m.user, Actor(m), SyncedGroupIds(m, ctx.result.value));
    OthersAgree(s, r.store, m.user);
    assert Sync(m, s, ctx).world == r.store;
  }

  /** The effect of any enabled body call on the store. */
  lemma BodyIsLocal(op: Op, s: Store)
    requires ValidStore(s) && ValidOperation(op) && op.run.Some? && op.run.value.next < 3
    requires StepAt(Users(), op).shouldRun(op.run.value.ctx)
    ensures var run := op.run.value;
            var t := StepAt(Users(), op).run(s, run.ctx).world;
            && ValidStore(t)
            && (forall user :: user != op.mutation.user && Agrees(s, user) ==> Agrees(t, user))
            && (run.next == 0 ==> Unreached(op.row.currentStep))
            && (run.next == 0 && StepAt(Users(), op).run(s, run.ctx).Threw? ==> t == s)
            && (run.next == 1 ==> Agrees(t, op.mutation.user))
            && (run.next == 2 ==> t == s)
  {
    var run := op.run.value;
    ReachedLocalFirst(run.ctx.operation.currentStep);
    if run.next == 0 { CommitIsLocal(op.mutation, s); }
    if run.next == 1 { SyncIsLocal(op.mutation, s, run.ctx); }
  }

  // ---------------------------------------------------------------- preservation

  /** A body call returns a recordable update, or throws. */
  lemma BodyReports(op: Op, s: Store)
    requires ValidOperation(op) && op.run.Some? && op.run.value.next < 3 && StepAt(Users(), op).shouldRun(op.run.value.ctx)
    ensures ReportsIn(StepAt(Users(), op).run(s, op.run.value.ctx), op.run.value.ctx)
  {
    var ctx := op.run.value.ctx;
    if op.run.value.next == 0 { CommitReports(op.mutation, s, ctx); }
    else if op.run.value.next == 1 { SyncReports(op.mutation, s, ctx); }
  }

  lemma CallKeepsOperation(id: string, s: Store, op: Op)
    requires ValidOperation(op)
    ensures ValidOperation(Act(Users(), CallBody(id), s, op).1)
  {
    if op.run.Some? && op.run.value.next < 3 && op.run.value.phase.Ready? && StepAt(Users(), op).shouldRun(op.run.value.ctx) {
      BodyReports(op, s);
      var after := Act(Users(), CallBody(id), s, op).1;
      assert StepAt(Users(), after) == StepAt(Users(), op);
    }
  }

  lemma SkipKeepsOperation(id: string, s: Store, op: Op)
    requires ValidOperation(op)
    ensures ValidOperation(Act(Users(), SkipStep(id), s, op).1)
  {
    if op.run.Some? {
      ReachedLocalFirst(op.run.value.ctx.operation.currentStep);
    }
  }

  lemma RecordKeepsOperation(id: string, s: Store, op: Op)
    requires ValidOperation(op)
    ensures ValidOperation(Act(Users(), Record(id), s, op).1)
  {
    if op.run.Some? && op.run.value.next < 3 {
      ReachedLocalFirst(op.run.value.ctx.operation.currentStep);
      assert StepAt(Users(), op).status.None?;
    }
  }

  lemma ActKeepsOperation(a: Action<Mutation>, s: Store, op: Op)
    requires ValidOperation(op)
    ensures ValidOperation(Act(Users(), a, s, op).1) && Act(Users(), a, s, op).1.mutation == op.mutation
  {
    match a
    case CallBody(id) => CallKeepsOperation(id, s, op);
    case SkipStep(id) => SkipKeepsOperation(id, s, op);
    case Record(id) => RecordKeepsOperation(id, s, op);
    case _ =>
  }

  /** Each action leaves the acting user accounted for by the same operation or by agreement. */
  lemma ActKeepsAccount(a: Action<Mutation>, s: Store, op: Op)
    requires ValidStore(s) && ValidOperation(op)
    ensures var (t, after) := Act(Users(), a, s, op);
            && ValidStore(t)
            && (forall user :: user != op.mutation.user && Agrees(s, user) ==> Agrees(t, user))
            && (Owes(op) ==> Owes(after) || Agrees(t, op.mutation.user))
            && (Agrees(s, op.mutation.user) ==> Owes(after) || Agrees(t, op.mutation.user))
  {
    if op.run.Some? {
      var run := op.run.value;
      ReachedLocalFirst(run.ctx.operation.currentStep);
      if a.CallBody? && run.next < 3 && run.phase.Ready? && StepAt(Users(), op).shouldRun(run.ctx) {
        BodyIsLocal(op, s);
      }
    }
  }

  lemma ActAccounts(p: Platform<Store, Mutation, State>, a: Action<Mutation>, user: string)
    requires Inv(p) && a.id in p.operations
    ensures Accounted(Next(Users(), p, a), user)
  {
    var q, op := Next(Users(), p, a), p.operations[a.id];
    ActKeepsOperation(a, p.store, op);
    ActKeepsAccount(a, p.store, op);
    assert q.operations[a.id] == Act(Users(), a, p.store, op).1;
    assert Accounted(p, user);
    if !Agrees(p.store, user) {
      var id :| id in p.operations && p.operations[id].mutation.user == user && Owes(p.operations[id]);
      if id != a.id { OthersStay(Users(), p, a, id); }
    }
  }

  /** Without a run to act on, an action makes a new operation at most. */
  lemma IdleAccounts(p: Platform<Store, Mutation, State>, a: Action<Mutation>, user: string)
    requires Inv(p) && a.id !in p.operations
    ensures Accounted(Next(Users(), p, a), user)
  {
    assert Accounted(p, user);
    if !Agrees(p.store, user) {
      var id :| id in p.operations && p.operations[id].mutation.user == user && Owes(p.operations[id]);
      OthersStay(Users(), p, a, id);
    }
  }

  lemma NextIsValid(p: Platform<Store, Mutation, State>, a: Action<Mutation>)
    requires Inv(p)
    ensures var q := Next(Users(), p, a);
            ValidStore(q.store) && forall id :: id in q.operations ==> ValidOperation(q.operations[id])
  {
    if a.id in p.operations {
      ActKeepsOperation(a, p.store, p.operations[a.id]);
      ActKeepsAccount(a, p.store, p.operations[a.id]);
    }
  }

  lemma NextKeepsInv(p: Platform<Store, Mutation, State>, a: Action<Mutation>)
    requires Inv(p)
    ensures Inv(Next(Users(), p, a))
  {
    NextIsValid(p, a);
    forall user ensures Accounted(Next(Users(), p, a), user) {
      if a.id in p.operations { ActAccounts(p, a, user); } else { IdleAccounts(p, a, user); }
    }
  }

  lemma {:induction false} ExecuteKeepsInv(p: Platform<Store, Mutation, State>, actions: seq<Action<Mutation>>)
    requires Inv(p)
    ensures Inv(Execute(Users(), p, actions))
    decreases |actions|
  {
    if |actions| > 0 {
      NextKeepsInv(p, actions[0]);
      ExecuteKeepsInv(Next(Users(), p, actions[0]), actions[1..]);
    }
  }

  /**
   * From any store in which every role row mirrors its membership, in every reachable state each
   * user's role row mirrors the membership or an operation of that user that is not completed has
   * a persisted step before `synced_upstream`.
   */
  lemma DivergenceIsWitnessed(s: Store, actions: seq<Action<Mutation>>, user: string)
    requires ValidStore(s) && forall u :: Agrees(s, u)
    ensures Witnessed(Execute(Users(), Platform(s, map[]), actions), user)
  {
    var p := Platform(s, map[]);
    assert forall u :: Accounted(p, u);
    ExecuteKeepsInv(p, actions);
    var q := Execute(Users(), p, actions);
    assert Accounted(q, user);
    if !Agrees(q.store, user) {
      var id :| id in q.operations && q.operations[id].mutation.user == user && Owes(q.operations[id]);
      assert ValidOperation(q.operations[id]);
    }
  }
}
