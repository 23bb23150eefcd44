/**
 * Group creations and deletions whose runs interleave, action by action, with crashes anywhere.
 * Links may then come to point at nothing: by exactly one kind of action, which a test before
 * linking would tell. That an unlinked group is the business of a non-completed operation still holds.
 */
module GroupInterleaving {
  import opened Wrappers
  import opened MutationLedger
  import opened WorkflowEngine
  import opened WorkflowHistories
  import opened Interleaving
  import GroupLinks
  import GroupCreation
  import GuardedGroupDelete

  type Store = GroupLinks.Store

  type Mutation = GroupLinks.Mutation

  type State = GroupLinks.State

  type Op = Operation<Mutation, State>

  type Groups = Platform<Store, Mutation, State>

  /** Group creation and deletion; a new operation is a pending row of its organization. */
  function GroupServices(): Services<Store, Mutation, State> {
    Services((m: Mutation) => GroupLinks.WorkflowOf(m), (id: string, m: Mutation) => FreshRow("", id, Some(m.org), None, map[]))
  }

  lemma GroupSteps(op: Op)
    requires op.run.Some?
    ensures StepsAt(GroupServices(), op) == GroupLinks.StepsOf(op.mutation, op.run.value.ctx.operation.currentStep)
  {
  }

  // ---------------------------------------------------------------- when links stay resolved

  /** A creation about to insert a link to the group in its hand, whose public name is free. */
  predicate Inserts(op: Op, w: Store) {
    && op.mutation.Create? && IsReady(GroupServices(), op) && op.run.value.next == 1
    && StepAt(GroupServices(), op).shouldRun(op.run.value.ctx)
    && op.run.value.ctx.result.Some? && op.run.value.ctx.state.Some?
    && !GroupLinks.PublicNameTaken(w, op.mutation.org, op.mutation.link.publicName)
  }

  /** The action inserts a link to a group that is gone by now. */
  predicate LinksGone(p: Groups, a: Action<Mutation>) {
    && a.CallBody? && a.id in p.operations && Inserts(p.operations[a.id], p.store)
    && p.operations[a.id].run.value.ctx.state.value !in p.store.groups
  }

  lemma CreationResolves(op: Op, w: Store)
    requires GroupLinks.LinksResolve(w) && op.mutation.Create?
    requires IsReady(GroupServices(), op) && StepAt(GroupServices(), op).shouldRun(op.run.value.ctx)
    ensures GroupLinks.LinksResolve(StepAt(GroupServices(), op).run(w, op.run.value.ctx).world)
            <==> !(Inserts(op, w) && op.run.value.ctx.state.value !in w.groups)
  {
    GroupSteps(op);
    var m, ctx := op.mutation, op.run.value.ctx;
    if op.run.value.next == 1 && ctx.result.Some? && ctx.state.Some? {
      var linked := GroupLinks.LinkLocal(m, w, ctx).world;
      assert StepAt(GroupServices(), op).run(w, ctx).world == linked;
      if Inserts(op, w) && ctx.state.value !in w.groups {
        assert (m.org, ctx.state.value) in linked.links;
      }
    }
  }

  lemma DeletionResolves(op: Op, w: Store)
    requires GroupLinks.LinksResolve(w) && op.mutation.Delete?
    requires IsReady(GroupServices(), op) && StepAt(GroupServices(), op).shouldRun(op.run.value.ctx)
    ensures GroupLinks.LinksResolve(StepAt(GroupServices(), op).run(w, op.run.value.ctx).world)
  {
    GroupSteps(op);
  }

  /** One action leaves all links resolved exactly if it does not link a group that is gone. */
  lemma ActionResolvesExactly(p: Groups, a: Action<Mutation>)
    requires GroupLinks.LinksResolve(p.store)
    ensures GroupLinks.LinksResolve(Next(GroupServices(), p, a).store) <==> !LinksGone(p, a)
  {
    if a.CallBody? && a.id in p.operations {
      var op := p.operations[a.id];
      if IsReady(GroupServices(), op) && StepAt(GroupServices(), op).shouldRun(op.run.value.ctx) {
        if op.mutation.Create? { CreationResolves(op, p.store); } else { DeletionResolves(op, p.store); }
      }
    }
  }

  function After(p: Groups, actions: seq<Action<Mutation>>, n: nat): Groups
    requires n <= |actions|
  {
    Execute(GroupServices(), p, actions[..n])
  }

  lemma AfterNext(p: Groups, actions: seq<Action<Mutation>>, n: nat)
    requires n < |actions|
    ensures After(p, actions, n + 1) == Next(GroupServices(), After(p, actions, n), actions[n])
  {
    assert actions[..n + 1] == actions[..n] + [actions[n]];
    ExecuteMore(GroupServices(), p, actions[..n], actions[n]);
  }

  lemma {:induction false} ResolvedSoFar(p: Groups, actions: seq<Action<Mutation>>, n: nat)
    requires GroupLinks.LinksResolve(p.store) && n <= |actions|
    requires forall k | 0 <= k < n :: !LinksGone(After(p, actions, k), actions[k])
    ensures GroupLinks.LinksResolve(After(p, actions, n).store)
  {
    if n == 0 {
      assert actions[..0] == [];
    } else {
      ResolvedSoFar(p, actions, n - 1);
      AfterNext(p, actions, n - 1);
      ActionResolvesExactly(After(p, actions, n - 1), actions[n - 1]);
    }
  }

  /**
   * From resolved links, every state of an interleaved schedule has resolved links if and only if no
   * action of it links a group that is gone by then. Reading the group again before linking it would
   * tell, as long as nothing comes between.
   */
  lemma LinksResolveExactly(p: Groups, actions: seq<Action<Mutation>>)
    requires GroupLinks.LinksResolve(p.store)
    ensures (forall n | 0 <= n <= |actions| :: GroupLinks.LinksResolve(After(p, actions, n).store))
            <==> forall n | 0 <= n < |actions| :: !LinksGone(After(p, actions, n), actions[n])
  {
    if forall n | 0 <= n <= |actions| :: GroupLinks.LinksResolve(After(p, actions, n).store) {
      forall n | 0 <= n < |actions| ensures !LinksGone(After(p, actions, n), actions[n]) {
        AfterNext(p, actions, n);
        ActionResolvesExactly(After(p, actions, n), actions[n]);
        assert GroupLinks.LinksResolve(After(p, actions, n + 1).store);
      }
    }
    if forall n | 0 <= n < |actions| :: !LinksGone(After(p, actions, n), actions[n]) {
      forall n | 0 <= n <= |actions| ensures GroupLinks.LinksResolve(After(p, actions, n).store) {
        ResolvedSoFar(p, actions, n);
      }
    }
  }

  // ---------------------------------------------------------------- a schedule that ends in a dangling link

  /** A creation that has its result in the ledger and is not past its link. */
  predicate Resumable(op: Op, w: Store, m: Mutation)
    requires m.Create?
  {
    op.mutation == m && op.run.None? && op.row.status == Status.InProgress && op.row.currentStep == Step.UpstreamCreated
    && op.row.result == GroupCreation.Result(m, w)
  }

  /** Loading, creating, recording. */
  lemma CreatesGroup(id: string, w: Store, op: Op)
    requires op.mutation.Create? && op.run.None? && NotBegun(op.row) && GroupCreation.NameFree(op.mutation, w)
    requires op.row.status == Status.InProgress
    ensures var (w', op') := Perform(GroupServices(), [Begin(id), CallBody(id), Record(id)], w, op);
            && w' == GroupCreation.MadeStore(op.mutation, w) && Resumable(op'.(run := None), w, op.mutation)
            && op'.run.Some? && op'.run.value.next == 1 && op'.run.value.phase.Ready?
            && op'.run.value.ctx.operation == op.row && GroupCreation.InHandOf(op.mutation, w, op'.run.value.ctx)
  {
    var v := GroupServices();
    var begun := Act(v, Begin(id), w, op).1;
    GroupSteps(begun);
    var (made, called) := Act(v, CallBody(id), w, begun);
    GroupSteps(called);
    PerformThree(v, Begin(id), CallBody(id), Record(id), w, op);
  }

  /** Calling the link's body, and dying before the write. */
  lemma LinksAndDies(id: string, start: Store, w: Store, op: Op)
    requires op.mutation.Create? && GroupLinks.ValidStore(start) && GroupCreation.LinkFree(op.mutation, start)
    requires w == GroupCreation.MadeStore(op.mutation, start)
    requires op.run.Some? && op.run.value.next == 1 && op.run.value.phase.Ready? && NotBegun(op.run.value.ctx.operation)
    requires GroupCreation.InHandOf(op.mutation, start, op.run.value.ctx)
    ensures Perform(GroupServices(), [CallBody(id), Crash(id)], w, op)
            == (GroupCreation.LinkedStore(op.mutation, start), op.(run := None))
  {
    GroupSteps(op);
    ReachedUpstreamFirst(op.run.value.ctx.operation.currentStep);
    GroupCreation.LinkReaches(op.mutation, start, w);
    PerformTwo(GroupServices(), CallBody(id), Crash(id), w, op);
  }

  /** A deletion that loads, unlinks and records. */
  lemma Unlinks(id: string, w: Store, op: Op)
    requires op.mutation.Delete? && op.run.None? && NotBegun(op.row)
    ensures var (w', op') := Perform(GroupServices(), [Begin(id), CallBody(id), Record(id)], w, op);
            && w' == GroupLinks.DeleteLink(w, op.mutation.org, op.mutation.groupId)
            && op'.mutation == op.mutation && op'.run.Some? && op'.run.value.next == 1 && op'.run.value.phase.Ready?
            && op'.run.value.ctx.result.Some?
  {
    var v := GroupServices();
    var begun := Act(v, Begin(id), w, op).1;
    GroupSteps(begun);
    var (w', called) := Act(v, CallBody(id), w, begun);
    GroupSteps(called);
    PerformThree(v, Begin(id), CallBody(id), Record(id), w, op);
  }

  /** Then it cascades, and records that it is completed. */
  lemma Cascades(id: string, w: Store, op: Op)
    requires op.mutation.Delete? && op.run.Some? && op.run.value.next == 1 && op.run.value.phase.Ready?
    requires op.run.value.ctx.result.Some? && !GroupLinks.Linked(w, op.mutation.groupId)
    ensures var (w', op') := Perform(GroupServices(), [CallBody(id), Record(id)], w, op);
            w' == GroupLinks.DeleteGroupCascade(w, op.mutation.groupId) && op'.row.currentStep == Step.Completed
  {
    GroupSteps(op);
    var (w', called) := Act(GroupServices(), CallBody(id), w, op);
    GroupSteps(called);
    PerformTwo(GroupServices(), CallBody(id), Record(id), w, op);
  }

  /** A retry that has loaded its group skips the creation and links the group though it is gone. */
  lemma RetryDangles(id: string, start: Store, gone: Store, op: Op)
    requires op.mutation.Create? && start.supply !in gone.groups
    requires GroupCreation.LinkFree(op.mutation, gone) && GroupLinks.LinksResolve(gone)
    requires op.run.Some? && op.run.value.next == 0 && op.run.value.phase.Ready?
    requires GroupCreation.InHandOf(op.mutation, start, op.run.value.ctx)
    requires op.run.value.ctx.operation.currentStep == Step.UpstreamCreated
    ensures var w := Perform(GroupServices(), [SkipStep(id), CallBody(id)], gone, op).0;
            (op.mutation.org, start.supply) in w.links && start.supply !in w.groups
  {
    var v := GroupServices();
    GroupSteps(op);
    var skipped := Act(v, SkipStep(id), gone, op).1;
    GroupSteps(skipped);
    ReachedUpstreamFirst(op.run.value.ctx.operation.currentStep);
    PerformTwo(v, SkipStep(id), CallBody(id), gone, op);
  }

  /** A run that loaded the recorded creation has the group in hand. */
  ghost predicate HasLoaded(op: Op, start: Store, m: Mutation)
    requires m.Create?
  {
    && op.mutation == m && op.run.Some? && op.run.value.next == 0 && op.run.value.phase.Ready?
    && op.run.value.ctx.operation.currentStep == Step.UpstreamCreated && GroupCreation.InHandOf(m, start, op.run.value.ctx)
  }

  lemma LoadsGroup(id: string, start: Store, w: Store, op: Op)
    requires op.mutation.Create? && Resumable(op, start, op.mutation) && start.supply in w.groups
    ensures var (w', op') := Perform(GroupServices(), [Begin(id)], w, op); w' == w && HasLoaded(op', start, op.mutation)
  {
    GroupCreation.ResultNamesGroup(op.mutation, start);
    PerformOne(GroupServices(), Begin(id), w, op);
  }

  /** What the creation does before its death. */
  function FirstRun(c: string, m: Mutation): seq<Action<Mutation>> {
    [Request(c, m)] + [Begin(c), CallBody(c), Record(c)] + [CallBody(c), Crash(c)]
  }

  function Deletion(d: string, m: Mutation): seq<Action<Mutation>> {
    [Request(d, m)] + [Begin(d), CallBody(d), Record(d)] + [CallBody(d), Record(d)]
  }

  lemma FirstRunPerforms(c: string, m: Mutation, w: Store, op: Op) returns (a: seq<Action<Mutation>>, b: seq<Action<Mutation>>)
    requires m.Create? && GroupLinks.ValidStore(w) && GroupCreation.NameFree(m, w) && GroupCreation.LinkFree(m, w)
    requires op == Operation(m, GroupServices().newRow(c, m), None)
    ensures FirstRun(c, m) == [Request(c, m)] + a + b && AllOf(c, a) && AllOf(c, b)
    ensures var (w1, op1) := Perform(GroupServices(), a, w, op);
            var (w2, op2) := Perform(GroupServices(), b, w1, op1);
            w2 == GroupCreation.LinkedStore(m, w) && Resumable(op2, w, m)
  {
    a, b := [Begin(c), CallBody(c), Record(c)], [CallBody(c), Crash(c)];
    CreatesGroup(c, w, op);
    var (w1, op1) := Perform(GroupServices(), a, w, op);
    LinksAndDies(c, w, w1, op1);
  }

  lemma FirstRunLinks(c: string, m: Mutation, p: Groups)
    requires c !in p.operations && m.Create?
    requires GroupLinks.ValidStore(p.store) && GroupCreation.NameFree(m, p.store) && GroupCreation.LinkFree(m, p.store)
    ensures var q := Execute(GroupServices(), p, FirstRun(c, m));
            q.store == GroupCreation.LinkedStore(m, p.store) && c in q.operations && Resumable(q.operations[c], p.store, m)
            && q.operations.Keys == p.operations.Keys + {c}
  {
    var a, b := FirstRunPerforms(c, m, p.store, Operation(m, GroupServices().newRow(c, m), None));
    RequestedPerforms(GroupServices(), p, c, m, a, b);
  }

  lemma DeletionPerforms(d: string, m: Mutation, w: Store, op: Op) returns (a: seq<Action<Mutation>>, b: seq<Action<Mutation>>)
    requires m.Delete? && !GroupLinks.Linked(GroupLinks.DeleteLink(w, m.org, m.groupId), m.groupId)
    requires op == Operation(m, GroupServices().newRow(d, m), None)
    ensures Deletion(d, m) == [Request(d, m)] + a + b && AllOf(d, a) && AllOf(d, b)
    ensures var (w1, op1) := Perform(GroupServices(), a, w, op);
            var (w2, op2) := Perform(GroupServices(), b, w1, op1);
            w2 == GroupLinks.DeleteGroupCascade(GroupLinks.DeleteLink(w, m.org, m.groupId), m.groupId)
  {
    a, b := [Begin(d), CallBody(d), Record(d)], [CallBody(d), Record(d)];
    Unlinks(d, w, op);
    var (w1, op1) := Perform(GroupServices(), a, w, op);
    Cascades(d, w1, op1);
  }

  lemma DeletionRemoves(d: string, m: Mutation, p: Groups)
    requires d !in p.operations && m.Delete?
    requires !GroupLinks.Linked(GroupLinks.DeleteLink(p.store, m.org, m.groupId), m.groupId)
    ensures var q := Execute(GroupServices(), p, Deletion(d, m));
            && q.store == GroupLinks.DeleteGroupCascade(GroupLinks.DeleteLink(p.store, m.org, m.groupId), m.groupId)
            && forall id | id in p.operations :: id in q.operations && q.operations[id] == p.operations[id]
  {
    var a, b := DeletionPerforms(d, m, p.store, Operation(m, GroupServices().newRow(d, m), None));
    RequestedPerforms(GroupServices(), p, d, m, a, b);
  }

  lemma RetryLoads(c: string, start: Store, m: Mutation, p: Groups)
    requires m.Create? && c in p.operations && Resumable(p.operations[c], start, m) && start.supply in p.store.groups
    ensures var q := Execute(GroupServices(), p, [Begin(c)]);
            && q.store == p.store && q.operations.Keys == p.operations.Keys && HasLoaded(q.operations[c], start, m)
  {
    LoadsGroup(c, start, p.store, p.operations[c]);
    ExecuteIsPerform(GroupServices(), c, [Begin(c)], p);
  }

  lemma RetryEnds(c: string, start: Store, m: Mutation, p: Groups)
    requires m.Create? && c in p.operations && HasLoaded(p.operations[c], start, m)
    requires start.supply !in p.store.groups && GroupCreation.LinkFree(m, p.store) && GroupLinks.LinksResolve(p.store)
    ensures var q := Execute(GroupServices(), p, [SkipStep(c), CallBody(c)]);
            (m.org, start.supply) in q.store.links && start.supply !in q.store.groups
  {
    RetryDangles(c, start, p.store, p.operations[c]);
    ExecuteIsPerform(GroupServices(), c, [SkipStep(c), CallBody(c)], p);
  }

  /** A creation that dies behind its link, its retry's load, a deletion, and the rest of the retry. */
  function DanglingSchedule(c: string, m: Mutation, d: string, g: nat): seq<Action<Mutation>> {
    FirstRun(c, m) + [Begin(c)] + Deletion(d, GroupLinks.Mutation.Delete(m.org, g)) + [SkipStep(c), CallBody(c)]
  }

  /** After the first run the guards of the deletion pass, and the deletion leaves everything as it was before the creation. */
  lemma DeletionUndoes(m: Mutation, w: Store)
    requires m.Create? && GroupLinks.ValidStore(w) && GroupCreation.LinkFree(m, w)
    ensures var linked := GroupCreation.LinkedStore(m, w);
            var cut := GroupLinks.DeleteLink(linked, m.org, w.supply);
            && GuardedGroupDelete.CanUseGroup(GroupLinks.Mutation.Delete(m.org, w.supply), m.group.enabled, linked) == m.group.enabled
            && !GroupLinks.Linked(cut, w.supply)
            && GroupLinks.DeleteGroupCascade(cut, w.supply) == w.(supply := w.supply + 1)
  {
    var linked := GroupCreation.LinkedStore(m, w);
    assert (m.org, w.supply) !in w.links && w.supply !in w.groups;
    assert linked.links - {(m.org, w.supply)} == w.links;
    assert linked.groups - {w.supply} == w.groups;
  }

  /**
   * From any valid tables in which the names are free, with every link resolved, this schedule of two
   * requests ends in a link to a group that is gone.
   */
  lemma InterleavedLinkDangles(w: Store, m: Mutation, c: string, d: string)
    requires m.Create? && c != d && GroupLinks.ValidStore(w) && GroupCreation.NameFree(m, w) && GroupCreation.LinkFree(m, w)
    ensures var q := Execute(GroupServices(), Platform(w, map[]), DanglingSchedule(c, m, d, w.supply));
            (m.org, w.supply) in q.store.links && w.supply !in q.store.groups && !GroupLinks.LinksResolve(q.store)
  {
    var v, p, deletion := GroupServices(), Platform(w, map[]), GroupLinks.Mutation.Delete(m.org, w.supply);
    var p1 := Execute(v, p, FirstRun(c, m));
    var p2 := Execute(v, p1, [Begin(c)]);
    var p3 := Execute(v, p2, Deletion(d, deletion));
    FirstRunLinks(c, m, p);
    RetryLoads(c, w, m, p1);
    DeletionUndoes(m, w);
    DeletionRemoves(d, deletion, p2);
    RetryEnds(c, w, m, p3);
    InFourParts(p, FirstRun(c, m), [Begin(c)], Deletion(d, deletion), [SkipStep(c), CallBody(c)]);
  }

  lemma InFourParts(p: Groups, a: seq<Action<Mutation>>, b: seq<Action<Mutation>>, c: seq<Action<Mutation>>, d: seq<Action<Mutation>>)
    ensures var v := GroupServices();
            Execute(v, p, a + b + c + d) == Execute(v, Execute(v, Execute(v, Execute(v, p, a), b), c), d)
  {
    ExecuteSplit(GroupServices(), p, a, b);
    ExecuteSplit(GroupServices(), p, a + b, c);
    ExecuteSplit(GroupServices(), p, a + b + c, d);
  }
}
