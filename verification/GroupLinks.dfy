/**
 * Creating a group upstream-first and deleting it link-first: over every sequence of runs, each
 * stopping anywhere, links only point at existing groups and an unlinked group is always the
 * unfinished business of some operation.
 */
module GroupLinks {
  import opened Wrappers
  import opened MutationLedger
  import opened WorkflowEngine
  import opened WorkflowHistories

  datatype Rule = Rule(ruleType: string, value: string, comment: Option<string>)

  datatype Group = Group(name: string, displayName: string, enabled: bool, rules: seq<Rule>)

  datatype Link = Link(publicName: string, visibility: string)

  /** Links are keyed by organization and group, the table's first UNIQUE constraint. */
  datatype Store = Store(groups: map<nat, Group>, links: map<(nat, nat), Link>, supply: nat)

  predicate NameTaken(w: Store, name: string) {
    exists g :: g in w.groups && w.groups[g].name == name
  }

  predicate Linked(w: Store, g: nat) {
    exists k :: k in w.links && k.1 == g
  }

  predicate PublicNameTaken(w: Store, org: nat, publicName: string) {
    exists k :: k in w.links && k.0 == org && w.links[k].publicName == publicName
  }

  predicate DistinctRules(rules: seq<Rule>) {
    forall i, j | 0 <= i < j < |rules| :: rules[i].ruleType != rules[j].ruleType || rules[i].value != rules[j].value
  }

  /** One transaction; the UNIQUE constraints on names and on rules reject duplicates. */
  function CreateGroupWithRules(w: Store, group: Group): Option<Store> {
    if NameTaken(w, group.name) || !DistinctRules(group.rules) then None
    else Some(w.(groups := w.groups[w.supply := group], supply := w.supply + 1))
  }

  /** Inserting a link that is there already is skipped; a public name in use is rejected. */
  function LinkOrganizationGroup(w: Store, org: nat, g: nat, link: Link): Option<Store> {
    if (org, g) in w.links then Some(w)
    else if PublicNameTaken(w, org, link.publicName) then None
    else Some(w.(links := w.links[(org, g) := link]))
  }

  function DeleteLink(w: Store, org: nat, g: nat): Store {
    w.(links := w.links - {(org, g)})
  }

  function DeleteGroupCascade(w: Store, g: nat): Store {
    w.(groups := w.groups - {g})
  }

  datatype Mutation =
    | Create(org: nat, group: Group, link: Link)
    | Delete(org: nat, groupId: nat)

  /** The group a run has in hand. */
  type State = Option<nat>

  function GroupOf(result: Record): Option<nat> {
    if "groupId" in result && result["groupId"].Number? && result["groupId"].n >= 0 then Some(result["groupId"].n) else None
  }

  function Created(g: nat, link: Link): Record {
    map["groupId" := Number(g), "publicName" := Text(link.publicName), "visibility" := Text(link.visibility)]
  }

  function Deleted(g: nat): Record {
    map["success" := Bool(true), "groupId" := Number(g)]
  }

  function Update(org: nat, result: Option<Record>, state: Option<State>): Option<StepUpdate<State>> {
    Some(StepUpdate(None, None, Some(Some(org)), result, state, None, None, None))
  }

  function CreateUpstream(m: Mutation, w: Store): StepReturn<Store, State>
    requires m.Create?
  {
    match CreateGroupWithRules(w, m.group)
    case None => Threw(w)
    case Some(w') => Returned(w', Update(m.org, Some(Created(w.supply, m.link)), Some(Some(w.supply))))
  }

  function LinkLocal(m: Mutation, w: Store, ctx: Context<State>): StepReturn<Store, State>
    requires m.Create?
  {
    if ctx.result.None? || ctx.state.None? then Returned(w, None)
    else
      match LinkOrganizationGroup(w, m.org, ctx.state.value, m.link)
      case None => Threw(w)
      case Some(w') => Returned(w', Update(m.org, ctx.result, None))
  }

  /** Publishing touches neither table. */
  function CompleteCreate(m: Mutation, w: Store, ctx: Context<State>): StepReturn<Store, State>
    requires m.Create?
  {
    if ctx.result.None? || ctx.state.None? then Returned(w, None) else Returned(w, Update(m.org, ctx.result, None))
  }

  function CommitLocalDelete(m: Mutation, w: Store): StepReturn<Store, State>
    requires m.Delete?
  {
    Returned(DeleteLink(w, m.org, m.groupId), Update(m.org, Some(Deleted(m.groupId)), None))
  }

  function CompleteDelete(m: Mutation, w: Store, ctx: Context<State>): StepReturn<Store, State>
    requires m.Delete?
  {
    Returned(if Linked(w, m.groupId) then w else DeleteGroupCascade(w, m.groupId),
             Update(m.org, Some(ctx.result.GetOr(Deleted(m.groupId))), None))
  }

  /** The stored group id is looked up before the run; a group that is gone is not in hand. */
  function InHand(w: Store, row: Row): State {
    var g := GroupOf(row.result);
    if g.Some? && g.value in w.groups then g else None
  }

  function StepsOf(m: Mutation, loaded: Step): (steps: seq<StepDefinition<Store, State>>)
  {
    if m.Create? then
      UpstreamFirstSteps(UpstreamFirst((w, ctx) => CreateUpstream(m, w), (w, ctx) => LinkLocal(m, w, ctx),
                                       (w, ctx) => CompleteCreate(m, w, ctx)), loaded)
    else
      DeletionSteps(Deletion((w, ctx) => CommitLocalDelete(m, w), (w, ctx) => CompleteDelete(m, w, ctx)))
  }

  function WorkflowOf(m: Mutation): Workflow<Store, State> {
    Workflow((loaded: Step) => StepsOf(m, loaded), (w: Store, row: Row) => if m.Create? then InHand(w, row) else None,
             (row: Row) => row.metadata)
  }

  // ---------------------------------------------------------------- the platform

  datatype Operation = Operation(mutation: Mutation, row: Row)

  datatype Platform = Platform(store: Store, operations: map<string, Operation>)

  /** A request for an operation, known or new, whose run meets the given faults. */
  datatype Request = Request(id: string, mutation: Mutation, faults: seq<Fault>)

  function OperationFor(p: Platform, r: Request): Operation {
    if r.id in p.operations then p.operations[r.id]
    else Operation(r.mutation, FreshRow("", r.id, Some(r.mutation.org), None, map[]))
  }

  function Next(p: Platform, r: Request): Platform {
    var op := OperationFor(p, r);
    var (w, row) := Serve(WorkflowOf(op.mutation), r.faults, p.store, op.row);
    Platform(w, p.operations[r.id := op.(row := row)])
  }

  function Execute(p: Platform, requests: seq<Request>): Platform
    decreases |requests|
  {
    if |requests| == 0 then p else Execute(Next(p, requests[0]), requests[1..])
  }

  /** Requests follow one another. */
  lemma {:induction false} RequestsFollow(p: Platform, requests: seq<Request>, r: Request)
    ensures Execute(p, []) == p && Execute(p, requests + [r]) == Next(Execute(p, requests), r)
    decreases |requests|
  {
    if |requests| > 0 {
      RequestsFollow(Next(p, requests[0]), requests[1..], r);
      assert (requests + [r])[1..] == requests[1..] + [r];
    } else {
      assert [r][1..] == [];
    }
  }

  // ---------------------------------------------------------------- the property

  ghost predicate LinksResolve(w: Store) {
    forall k :: k in w.links ==> k.1 in w.groups
  }

  /** The operation is not completed and concerns this group: it made it, may have made it, or deletes it. */
  ghost predicate Concerns(op: Operation, w: Store, g: nat)
    requires g in w.groups
  {
    && op.row.status != Status.Completed
    && if op.mutation.Delete? then op.mutation.groupId == g
       else if GetResult(op.row).Some? then GroupOf(op.row.result) == Some(g)
       else op.mutation.group.name == w.groups[g].name
  }

  /** A create operation already past its link has nothing left to do for the group. */
  ghost predicate Accounts(op: Operation, w: Store, g: nat)
    requires g in w.groups
  {
    Concerns(op, w, g) && (op.row.currentStep != Step.LocalLinked && op.row.currentStep != Step.Completed)
  }

  ghost predicate ValidOperation(op: Operation) {
    && Sound(op.row)
    && (|| Unreached(op.row.currentStep) || op.row.currentStep == Step.Completed
        || (op.mutation.Create? && (op.row.currentStep == Step.UpstreamCreated || op.row.currentStep == Step.LocalLinked))
        || (op.mutation.Delete? && op.row.currentStep == Step.LocalCommitted))
    && (GetResult(op.row).Some? ==> GroupOf(op.row.result).Some?)
  }

  ghost predicate ValidStore(w: Store) {
    LinksResolve(w) && forall g :: g in w.groups ==> g < w.supply
  }

  ghost predicate Inv(p: Platform) {
    && ValidStore(p.store)
    && (forall id :: id in p.operations ==> ValidOperation(p.operations[id]))
    && forall g :: g in p.store.groups && !Linked(p.store, g)
         ==> exists id :: id in p.operations && Accounts(p.operations[id], p.store, g)
  }

  // ---------------------------------------------------------------- one step

  ghost predicate OwnResult(r: Record) {
    |r| > 0 && GroupOf(r).Some?
  }

  /** Where a run stands before its i-th step. */
  ghost predicate Midway(m: Mutation, loaded: Step, i: nat, w: Store, row: Row, ctx: Context<State>) {
    && ValidStore(w) && ValidOperation(Operation(m, row))
    && row.currentStep != Step.Completed
    && (ctx.result.Some? ==> OwnResult(ctx.result.value))
    && (i == 0 ==> row.currentStep == loaded && ctx.result == GetResult(row) && (m.Create? ==> ctx.state == InHand(w, row)))
    && (i > 0 ==> ctx.result.Some? && ctx.result == GetResult(row))
    && (i > 0 && m.Create? ==> ctx.state == InHand(w, row))
    && (i == 1 && m.Create? && loaded == Step.LocalLinked ==> row.currentStep == loaded)
    && (i == 2 && m.Create? ==> row.currentStep == Step.LocalLinked)
  }

  /** Groups without a link that the operation answered for, or has just cut loose or made, it answers for still. */
  ghost predicate Carries(m: Mutation, w: Store, row: Row, w': Store, row': Row) {
    && (forall g :: g in w'.groups && !Linked(w', g) && (g !in w.groups || Linked(w, g) || Accounts(Operation(m, row), w, g))
          ==> Accounts(Operation(m, row'), w', g))
    && (forall g :: g in w'.groups && g in w.groups ==> w'.groups[g] == w.groups[g])
    && w.supply <= w'.supply && (forall g :: g in w'.groups && g !in w.groups ==> w.supply <= g)
  }

  /** What one attempted step must give the rest of the run. */
  ghost predicate Moved(m: Mutation, loaded: Step, i: nat, w: Store, row: Row, r: RunResult<Store, State>) {
    && ValidStore(r.world) && ValidOperation(Operation(m, r.row)) && Carries(m, w, row, r.world, r.row)
    && (r.finished.Some? && r.row.currentStep != Step.Completed ==> Midway(m, loaded, i + 1, r.world, r.row, r.finished.value))
  }

  lemma ThrownMoves(m: Mutation, loaded: Step, i: nat, w: Store, row: Row, r: RunResult<Store, State>)
    requires ValidStore(w) && ValidOperation(Operation(m, row)) && row.currentStep != Step.Completed
    requires r.world == w && r.finished.None? && r.row.result == row.result
    requires r.row == row || (r.row.currentStep == Step.Failed && r.row.status == Status.Failed)
    ensures Moved(m, loaded, i, w, row, r)
  {
  }

  lemma CreateLanded(m: Mutation, loaded: Step, w: Store, row: Row, r: RunResult<Store, State>)
    requires m.Create? && ValidStore(w) && ValidOperation(Operation(m, row)) && GetResult(row).None?
    requires CreateGroupWithRules(w, m.group).Some?
    requires Landed(Step.UpstreamCreated, CreateGroupWithRules(w, m.group).value, x => x == Created(w.supply, m.link), w, row, r)
    requires r.finished.Some? ==> r.finished.value.state == Some(w.supply)
    requires loaded == row.currentStep
    ensures Moved(m, loaded, 0, w, row, r)
  {
    var g := w.supply;
    assert GroupOf(Created(g, m.link)) == Some(g) && "groupId" in Created(g, m.link);
    assert !Linked(w, g);
    assert r.world.links == w.links;
    assert forall h :: Linked(r.world, h) == Linked(w, h);
  }

  lemma CreateMoves(m: Mutation, w: Store, row: Row, ctx: Context<State>, fault: Fault)
    requires m.Create? && Midway(m, row.currentStep, 0, w, row, ctx) && ctx.result.None?
    ensures Moved(m, row.currentStep, 0, w, row, Attempt(StepsOf(m, row.currentStep)[0], fault, w, row, ctx))
  {
    var step := StepsOf(m, row.currentStep)[0];
    var made := CreateGroupWithRules(w, m.group);
    if made.Some? {
      assert "groupId" in Created(w.supply, m.link);
      LandsOn(step, fault, made.value, x => x == Created(w.supply, m.link), w, row, ctx);
      CreateLanded(m, row.currentStep, w, row, Attempt(step, fault, w, row, ctx));
    } else {
      ThrowsOut(step, fault, w, row, ctx);
      ThrownMoves(m, row.currentStep, 0, w, row, Attempt(step, fault, w, row, ctx));
    }
  }

  /** Linking a group in hand, or skipping a group that is gone. */
  function LinkTarget(m: Mutation, w: Store, ctx: Context<State>): Option<Store>
    requires m.Create?
  {
    if ctx.state.None? then Some(w) else LinkOrganizationGroup(w, m.org, ctx.state.value, m.link)
  }

  lemma LinkLanded(m: Mutation, loaded: Step, w: Store, row: Row, ctx: Context<State>, r: RunResult<Store, State>)
    requires m.Create? && Midway(m, loaded, 1, w, row, ctx) && LinkTarget(m, w, ctx).Some?
    requires Landed(Step.LocalLinked, LinkTarget(m, w, ctx).value, x => Some(x) == ctx.result, w, row, r)
    requires r.finished.Some? ==> r.finished.value.state == ctx.state
    ensures Moved(m, loaded, 1, w, row, r)
  {
    var target := LinkTarget(m, w, ctx).value;
    assert target.groups == w.groups && target.supply == w.supply;
    assert forall h :: Linked(w, h) ==> Linked(target, h) by {
      forall h | Linked(w, h)
        ensures Linked(target, h)
      {
        var k :| k in w.links && k.1 == h;
        assert k in target.links;
      }
    }
    if ctx.state.Some? {
      assert (m.org, ctx.state.value) in target.links;
      assert Linked(target, ctx.state.value);
    }
  }

  lemma LinkMoves(m: Mutation, loaded: Step, w: Store, row: Row, ctx: Context<State>, fault: Fault)
    requires m.Create? && Midway(m, loaded, 1, w, row, ctx)
    ensures Moved(m, loaded, 1, w, row, Attempt(StepsOf(m, loaded)[1], fault, w, row, ctx))
  {
    var step := StepsOf(m, loaded)[1];
    var target := LinkTarget(m, w, ctx);
    if target.Some? {
      LandsOn(step, fault, target.value, x => Some(x) == ctx.result, w, row, ctx);
      LinkLanded(m, loaded, w, row, ctx, Attempt(step, fault, w, row, ctx));
    } else {
      ThrowsOut(step, fault, w, row, ctx);
      ThrownMoves(m, loaded, 1, w, row, Attempt(step, fault, w, row, ctx));
    }
  }

  lemma PublishMoves(m: Mutation, loaded: Step, w: Store, row: Row, ctx: Context<State>, fault: Fault)
    requires m.Create? && Midway(m, loaded, 2, w, row, ctx)
    ensures Moved(m, loaded, 2, w, row, Attempt(StepsOf(m, loaded)[2], fault, w, row, ctx))
  {
    LandsOn(StepsOf(m, loaded)[2], fault, w, x => Some(x) == ctx.result, w, row, ctx);
  }

  lemma UnlinkKeepsOthers(w: Store, org: nat, g: nat)
    ensures forall h :: h != g && Linked(w, h) ==> Linked(DeleteLink(w, org, g), h)
  {
    var target := DeleteLink(w, org, g);
    forall h | h != g && Linked(w, h) ensures Linked(target, h) {
      var k :| k in w.links && k.1 == h;
      assert k in target.links;
    }
  }

  /** Deleting the link cuts at most the group of the operation loose. */
  lemma UnlinkCarries(m: Mutation, w: Store, row: Row, w': Store, row': Row)
    requires m.Delete? && ValidStore(w) && ValidOperation(Operation(m, row)) && row.currentStep != Step.Completed
    requires w' == w || w' == DeleteLink(w, m.org, m.groupId)
    requires Sound(row') && row'.currentStep != Step.Completed && row'.currentStep != Step.LocalLinked
    ensures ValidStore(w') && Carries(m, w, row, w', row')
  {
    UnlinkKeepsOthers(w, m.org, m.groupId);
  }

  lemma UnlinkLanded(m: Mutation, loaded: Step, w: Store, row: Row, r: RunResult<Store, State>)
    requires m.Delete? && ValidStore(w) && ValidOperation(Operation(m, row)) && row.currentStep != Step.Completed
    requires Landed(Step.LocalCommitted, DeleteLink(w, m.org, m.groupId), x => x == Deleted(m.groupId), w, row, r)
    ensures Moved(m, loaded, 0, w, row, r)
  {
    assert GroupOf(Deleted(m.groupId)) == Some(m.groupId) && "success" in Deleted(m.groupId);
    UnlinkCarries(m, w, row, r.world, r.row);
  }

  lemma UnlinkMoves(m: Mutation, w: Store, row: Row, ctx: Context<State>, fault: Fault)
    requires m.Delete? && Midway(m, row.currentStep, 0, w, row, ctx) && ctx.result.None?
    ensures Moved(m, row.currentStep, 0, w, row, Attempt(StepsOf(m, row.currentStep)[0], fault, w, row, ctx))
  {
    var step := StepsOf(m, row.currentStep)[0];
    assert "success" in Deleted(m.groupId);
    LandsOn(step, fault, DeleteLink(w, m.org, m.groupId), x => x == Deleted(m.groupId), w, row, ctx);
    UnlinkLanded(m, row.currentStep, w, row, Attempt(step, fault, w, row, ctx));
  }

  lemma CascadeLanded(m: Mutation, loaded: Step, w: Store, row: Row, ctx: Context<State>, r: RunResult<Store, State>)
    requires m.Delete? && Midway(m, loaded, 1, w, row, ctx)
    requires Landed(Step.Completed, if Linked(w, m.groupId) then w else DeleteGroupCascade(w, m.groupId),
                    x => Some(x) == ctx.result, w, row, r)
    ensures Moved(m, loaded, 1, w, row, r)
  {
    var target := if Linked(w, m.groupId) then w else DeleteGroupCascade(w, m.groupId);
    assert target.links == w.links;
    assert forall h :: Linked(target, h) == Linked(w, h);
  }

  lemma CascadeMoves(m: Mutation, loaded: Step, w: Store, row: Row, ctx: Context<State>, fault: Fault)
    requires m.Delete? && Midway(m, loaded, 1, w, row, ctx)
    ensures Moved(m, loaded, 1, w, row, Attempt(StepsOf(m, loaded)[1], fault, w, row, ctx))
  {
    var step := StepsOf(m, loaded)[1];
    LandsOn(step, fault, if Linked(w, m.groupId) then w else DeleteGroupCascade(w, m.groupId), x => Some(x) == ctx.result, w, row, ctx);
    CascadeLanded(m, loaded, w, row, ctx, Attempt(step, fault, w, row, ctx));
  }

  // ---------------------------------------------------------------- runs and sequences of runs

  lemma CarriesOn(m: Mutation, w: Store, row: Row, w1: Store, row1: Row, w2: Store, row2: Row)
    requires ValidStore(w) && Carries(m, w, row, w1, row1) && Carries(m, w1, row1, w2, row2)
    ensures Carries(m, w, row, w2, row2)
  {
  }

  /** An attempted step of either kind moves on. */
  lemma StepMoves(m: Mutation, loaded: Step, i: nat, w: Store, row: Row, ctx: Context<State>, fault: Fault)
    requires Midway(m, loaded, i, w, row, ctx) && i < |StepsOf(m, loaded)| && StepsOf(m, loaded)[i].shouldRun(ctx)
    ensures Moved(m, loaded, i, w, row, Attempt(StepsOf(m, loaded)[i], fault, w, row, ctx))
  {
    if m.Create? {
      if i == 0 { CreateMoves(m, w, row, ctx, fault); }
      else if i == 1 { LinkMoves(m, loaded, w, row, ctx, fault); }
      else { PublishMoves(m, loaded, w, row, ctx, fault); }
    } else {
      if i == 0 { UnlinkMoves(m, w, row, ctx, fault); } else { CascadeMoves(m, loaded, w, row, ctx, fault); }
    }
  }

  lemma SkipMoves(m: Mutation, loaded: Step, i: nat, w: Store, row: Row, ctx: Context<State>)
    requires Midway(m, loaded, i, w, row, ctx) && i < |StepsOf(m, loaded)| && !StepsOf(m, loaded)[i].shouldRun(ctx)
    requires loaded != Step.Completed
    ensures Midway(m, loaded, i + 1, w, row, ctx)
  {
    ReachedUpstreamFirst(loaded);
  }

  /** The completed label belongs to the last step only. */
  lemma LabelOfStep(m: Mutation, loaded: Step, i: nat, w: Store, row: Row, ctx: Context<State>, fault: Fault)
    requires Midway(m, loaded, i, w, row, ctx) && i < |StepsOf(m, loaded)| && StepsOf(m, loaded)[i].shouldRun(ctx)
    ensures var r := Attempt(StepsOf(m, loaded)[i], fault, w, row, ctx);
            r.finished.Some? && r.row.currentStep == Step.Completed ==> i + 1 == |StepsOf(m, loaded)|
  {
    if i + 1 < |StepsOf(m, loaded)| {
      var ran := StepsOf(m, loaded)[i].run(w, ctx);
      assert ran.Returned? ==> Plain(ran.update);
    }
  }

  lemma StepMovesOn(m: Mutation, loaded: Step, i: nat, w: Store, row: Row, ctx: Context<State>, fault: Fault)
    requires Midway(m, loaded, i, w, row, ctx) && i < |StepsOf(m, loaded)| && StepsOf(m, loaded)[i].shouldRun(ctx)
    ensures var r := Attempt(StepsOf(m, loaded)[i], fault, w, row, ctx);
            && Moved(m, loaded, i, w, row, r)
            && (r.finished.Some? && r.row.currentStep == Step.Completed ==> i + 1 == |StepsOf(m, loaded)|)
  {
    StepMoves(m, loaded, i, w, row, ctx, fault);
    LabelOfStep(m, loaded, i, w, row, ctx, fault);
  }

  lemma {:induction false} RunMoves(m: Mutation, loaded: Step, i: nat, faults: seq<Fault>, w: Store, row: Row, ctx: Context<State>)
    requires i <= |StepsOf(m, loaded)| && loaded != Step.Completed
    requires Midway(m, loaded, i, w, row, ctx)
    ensures var r := RunFrom(StepsOf(m, loaded), i, faults, w, row, ctx);
            ValidStore(r.world) && ValidOperation(Operation(m, r.row)) && Carries(m, w, row, r.world, r.row)
    decreases |StepsOf(m, loaded)| - i
  {
    var steps := StepsOf(m, loaded);
    if i < |steps| {
      RunStep(steps, i, faults, w, row, ctx);
      if steps[i].shouldRun(ctx) {
        var r := Attempt(steps[i], FaultAt(faults, i), w, row, ctx);
        StepMovesOn(m, loaded, i, w, row, ctx, FaultAt(faults, i));
        if r.finished.Some? && r.row.currentStep != Step.Completed {
          RunMoves(m, loaded, i + 1, faults, r.world, r.row, r.finished.value);
          var last := RunFrom(steps, i + 1, faults, r.world, r.row, r.finished.value);
          CarriesOn(m, w, row, r.world, r.row, last.world, last.row);
        }
      } else {
        SkipMoves(m, loaded, i, w, row, ctx);
        RunMoves(m, loaded, i + 1, faults, w, row, ctx);
      }
    }
  }

  lemma ServeMoves(op: Operation, faults: seq<Fault>, w: Store)
    requires ValidStore(w) && ValidOperation(op)
    ensures var (w', row') := Serve(WorkflowOf(op.mutation), faults, w, op.row);
            ValidStore(w') && ValidOperation(op.(row := row')) && Carries(op.mutation, w, op.row, w', row')
  {
    if !Answered(op.row) {
      RunMoves(op.mutation, op.row.currentStep, 0, faults, w, op.row, Entry(WorkflowOf(op.mutation), w, op.row));
    }
  }

  lemma NextAccounts(p: Platform, r: Request, g: nat)
    requires Inv(p) && g in Next(p, r).store.groups && !Linked(Next(p, r).store, g)
    ensures var q := Next(p, r); exists id :: id in q.operations && Accounts(q.operations[id], q.store, g)
  {
    ServeMoves(OperationFor(p, r), r.faults, p.store);
    var q := Next(p, r);
    if !Accounts(q.operations[r.id], q.store, g) {
      var id :| id in p.operations && Accounts(p.operations[id], p.store, g);
      assert id != r.id;
      assert Accounts(q.operations[id], q.store, g);
    }
  }

  lemma NextKeepsInv(p: Platform, r: Request)
    requires Inv(p)
    ensures Inv(Next(p, r))
  {
    ServeMoves(OperationFor(p, r), r.faults, p.store);
    var q := Next(p, r);
    forall g | g in q.store.groups && !Linked(q.store, g)
      ensures exists id :: id in q.operations && Accounts(q.operations[id], q.store, g)
    {
      NextAccounts(p, r, g);
    }
  }

  lemma {:induction false} ExecuteKeepsInv(p: Platform, requests: seq<Request>)
    requires Inv(p)
    ensures Inv(Execute(p, requests))
    decreases |requests|
  {
    if |requests| > 0 {
      NextKeepsInv(p, requests[0]);
      ExecuteKeepsInv(Next(p, requests[0]), requests[1..]);
    }
  }

  /**
   * From any store whose links resolve and whose groups are all linked, after every sequence of
   * runs: each link points to an existing group, and each group without a link is the concern of
   * a create or delete operation that is not completed.
   */
  lemma LinkIntegrity(w: Store, requests: seq<Request>)
    requires ValidStore(w) && forall g :: g in w.groups ==> Linked(w, g)
    ensures var q := Execute(Platform(w, map[]), requests);
            && LinksResolve(q.store)
            && forall g :: g in q.store.groups && !Linked(q.store, g)
                 ==> exists id :: id in q.operations && Concerns(q.operations[id], q.store, g)
  {
    ExecuteKeepsInv(Platform(w, map[]), requests);
    var q := Execute(Platform(w, map[]), requests);
    forall g | g in q.store.groups && !Linked(q.store, g)
      ensures exists id :: id in q.operations && Concerns(q.operations[id], q.store, g)
    {
      var id :| id in q.operations && Accounts(q.operations[id], q.store, g);
      assert Concerns(q.operations[id], q.store, g);
    }
  }
}
