/**
 * The five local-first mutations on users, as step bodies over the tenant store, with the guards
 * their services evaluate before each run.
 */
module UserMutations {
  import opened Wrappers
  import opened MutationLedger
  import opened WorkflowEngine
  import opened WorkflowHistories
  import opened TenantStore
  import opened TenantRows
  import opened Filters

  /** The workflow state of these mutations: the organization being created, if any. */
  type State = Option<nat>

  type Body = LocalFirst<Store, State>

  type Effect = StepReturn<Store, State>

  datatype Mutation =
    | CreateOrganization(user: string, name: string)
    | Approve(user: string, org: nat, role: OrgRole, approvedBy: string)
    | Assign(user: string, org: nat, role: OrgRole, groupIds: seq<string>, actedBy: string)
    | Revoke(user: string, org: nat, actedBy: string)
    | Delete(user: string, org: nat, actedBy: string)

  function Reply(result: Record): Option<StepUpdate<State>> {
    Some(StepUpdate(None, None, None, Some(result), None, None, None, None))
  }

  const SUCCESS: Record := map["success" := Bool(true)]

  function RoleText(role: MirroredRole): Json {
    Text(if role == MirroredAdmin then "admin" else "teacher")
  }

  function AssignedRole(role: MirroredRole, groupIds: seq<string>, createdBy: string): Record {
    map["role" := RoleText(role), "groupIds" := TextList(groupIds), "createdBy" := Text(createdBy)]
  }

  function OrgRoleText(role: OrgRole): Json {
    match role
    case Admin => Text("admin")
    case Teacher => Text("teacher")
    case Student => Text("student")
  }

  /** The role read before the deletion; a missing membership is stored as null. */
  function DeletedRole(s: Store, user: string, org: nat): Json {
    if HasMembership(s, user) && !Ambiguous(s, user) && MembershipOf(s, user).organizationId == org
    then OrgRoleText(MembershipOf(s, user).role) else Null
  }

  /** The local commit, by kind. */
  function Commit(m: Mutation, s: Store): Effect {
    match m
    case CreateOrganization(user, name) =>
      (match CreateOrganizationTx(s, user, name)
       case Refused(_) => Threw(s)
       case Committed(s', ids) =>
         Returned(s', Some(StepUpdate(None, None, Some(Some(ids.0)),
                                      Some(map["organizationId" := Number(ids.0), "membershipId" := Number(ids.1)]),
                                      Some(Some(ids.0)), None, None, None))))
    case Approve(user, org, role, approvedBy) =>
      (match ApproveTx(s, user, org, role, approvedBy)
       case Refused(_) => Threw(s)
       case Committed(s', id) => Returned(s', Reply(map["membershipId" := Number(id)])))
    case Assign(user, org, role, groupIds, actedBy) =>
      Returned(SetRole(s, org, user, role), Reply(AssignedRole(Mirror(role), groupIds, actedBy)))
    case Revoke(user, org, actedBy) =>
      Returned(SetRole(s, org, user, Teacher), Reply(SUCCESS))
    case Delete(user, org, actedBy) =>
      Returned(RemoveMember(s, org, user), Reply(SUCCESS["role" := DeletedRole(s, user, org)]))
  }

  /** The group ids handed to the mirror; `None` keeps the ones already there. */
  function SyncedGroupIds(m: Mutation, result: Record): Option<Json> {
    match m
    case Assign(_, _, _, _, _) => if "groupIds" in result then Some(result["groupIds"]) else None
    case Delete(_, _, _) => None
    case _ => Some(List([]))
  }

  function Actor(m: Mutation): string {
    match m
    case CreateOrganization(user, _) => user
    case Approve(_, _, _, approvedBy) => approvedBy
    case _ => m.actedBy
  }

  function Sync(m: Mutation, s: Store, ctx: Context<State>): Effect {
    if ctx.result.None? then Returned(s, None)
    else
      match Synchronize(s, m.user, Actor(m), SyncedGroupIds(m, ctx.result.value))
      case Refused(_) => Threw(s)
      case Committed(s', row) =>
        if m.Assign? then
          if row.None? then Threw(s')
          else Returned(s', Reply(AssignedRole(row.value.role, row.value.groupIds, m.actedBy)))
        else if m.CreateOrganization? then
          Returned(s', Some(StepUpdate(None, None, Some(ctx.state), ctx.result, None, None, None, None)))
        else Returned(s', Reply(ctx.result.value))
  }

  /** Completion writes audit rows, which the store does not hold. */
  function Complete(m: Mutation, s: Store, ctx: Context<State>): Effect {
    Returned(s, if ctx.result.Some? then Reply(ctx.result.value) else None)
  }

  function Steps(m: Mutation): Body {
    LocalFirst((s, ctx) => Commit(m, s), (s, ctx) => Sync(m, s, ctx), (s, ctx) => Complete(m, s, ctx),
               if m.CreateOrganization? || m.Approve? then ByResult else ByCurrentStep)
  }

  function InitialState(m: Mutation, row: Row): State {
    if m.CreateOrganization? && "organizationId" in row.result && row.result["organizationId"].Number?
       && row.result["organizationId"].n >= 0
    then Some(row.result["organizationId"].n) else None
  }

  function InitialMetadata(m: Mutation, row: Row): Record {
    match m
    case CreateOrganization(_, name) => row.metadata["name" := Text(name)]
    case Approve(_, _, role, approvedBy) => row.metadata["role" := OrgRoleText(role)]["approvedBy" := Text(approvedBy)]
    case _ => row.metadata
  }

  function WorkflowOf(m: Mutation): Workflow<Store, State> {
    LocalFirstWorkflow(Steps(m), (s: Store, row: Row) => InitialState(m, row), (row: Row) => InitialMetadata(m, row))
  }

  lemma CommitReports(m: Mutation, s: Store, ctx: Context<State>)
    ensures ReportsIn(Commit(m, s), ctx)
  {
    if m.Assign? {
      assert "role" in AssignedRole(Mirror(m.role), m.groupIds, m.actedBy);
    }
  }

  lemma SyncReports(m: Mutation, s: Store, ctx: Context<State>)
    requires Carried(ctx) && ctx.result.Some?
    ensures ReportsIn(Sync(m, s, ctx), ctx)
  {
    var synced := Synchronize(s, m.user, Actor(m), SyncedGroupIds(m, ctx.result.value));
    if m.Assign? && synced.Committed? && synced.value.Some? {
      assert "role" in AssignedRole(synced.value.value.role, synced.value.value.groupIds, m.actedBy);
    }
  }

  /** A creation answers the ids of the rows it inserts, an approval that of its membership; otherwise both throw. */
  lemma CommitNamesRows(m: Mutation, s: Store)
    requires m.CreateOrganization? || m.Approve?
    ensures var ret := Commit(m, s);
            && (ret.Threw? ==> ret.world == s)
            && (ret.Returned? ==>
                  && ret.update.Some?
                  && var u := ret.update.value;
                     && (m.CreateOrganization? ==>
                           exists org, member | org in ret.world.organizations && member in ret.world.memberships ::
                             && ret.world.memberships[member] == Membership(m.user, org, Admin, None)
                             && ret.world.organizations[org] == m.name
                             && u == StepUpdate(None, None, Some(Some(org)),
                                                Some(map["organizationId" := Number(org), "membershipId" := Number(member)]),
                                                Some(Some(org)), None, None, None))
                     && (m.Approve? ==>
                           exists member | member in ret.world.memberships ::
                             && ret.world.memberships[member] == Membership(m.user, m.org, m.role, Some(m.approvedBy))
                             && u == StepUpdate(None, None, None, Some(map["membershipId" := Number(member)]), None, None, None, None)))
  {
    if m.Approve? {
      UserApproved(s, m.user, m.org, m.role, m.approvedBy);
    } else {
      OrganizationCreated(s, m.user, m.name);
    }
  }

  /** What a role change or deletion answers with its commit; a deletion tells the role it found, if any. */
  lemma CommitReplies(m: Mutation, s: Store)
    requires m.Assign? || m.Revoke? || m.Delete?
    ensures var ret := Commit(m, s);
            && ret.Returned? && ret.update.Some? && ret.update.value.result.Some?
            && var result := ret.update.value.result.value;
               && ret.update == Some(StepUpdate(None, None, None, Some(result), None, None, None, None))
               && (m.Assign? ==> result == map["role" := Text(if m.role == Admin then "admin" else "teacher"),
                                               "groupIds" := List(Mapped((id: string) => Text(id), m.groupIds)),
                                               "createdBy" := Text(m.actedBy)])
               && (m.Revoke? ==> result == map["success" := Bool(true)])
               && (m.Delete? ==> && result.Keys == {"success", "role"} && result["success"] == Bool(true)
                                 && (!IsIn(s.memberships, m.user, m.org) ==> result["role"] == Null))
    ensures m.Delete? && AtMostOneRow(s.memberships, m.user) ==>
              forall id | id in s.memberships && s.memberships[id].userId == m.user && s.memberships[id].organizationId == m.org ::
                Commit(m, s).update.value.result.value["role"]
                == Text(match s.memberships[id].role case Admin => "admin" case Teacher => "teacher" case Student => "student")
  {
    if m.Assign? {
      assert TextList(m.groupIds) == List(Mapped((id: string) => Text(id), m.groupIds));
    }
    if m.Delete? {
      assert AtMostOneRow(s.memberships, m.user) <==> !Ambiguous(s, m.user);
      forall id | AtMostOneRow(s.memberships, m.user) && id in s.memberships && s.memberships[id].userId == m.user
                  && s.memberships[id].organizationId == m.org
        ensures MembershipOf(s, m.user) == s.memberships[id]
      {
        assert MembershipIdOf(s, m.user) == id;
      }
    }
  }

  /** An assignment answers with its sync what the mirrored row says; without a row to mirror it throws. */
  lemma AssignmentReplies(m: Mutation, s: Store, ctx: Context<State>)
    requires m.Assign? && ctx.result.Some?
    ensures var ret := Sync(m, s, ctx);
            && (ret.Threw? <==> !HasRow(s.memberships, m.user) || !AtMostOneRow(s.memberships, m.user))
            && (ret.Returned? ==>
                  && m.user in ret.world.roles && ret.update.Some?
                  && var row := ret.world.roles[m.user];
                     ret.update.value.result == Some(map["role" := Text(if row.role == MirroredAdmin then "admin" else "teacher"),
                                                         "groupIds" := List(Mapped((id: string) => Text(id), row.groupIds)),
                                                         "createdBy" := Text(m.actedBy)]))
  {
    var tx := Synchronize(s, m.user, Actor(m), SyncedGroupIds(m, ctx.result.value));
    assert AtMostOneRow(s.memberships, m.user) <==> !Ambiguous(s, m.user);
    assert HasRow(s.memberships, m.user) <==> HasMembership(s, m.user);
    if tx.Committed? && tx.value.Some? {
      var ids := tx.value.value.groupIds;
      assert TextList(ids) == List(Mapped((id: string) => Text(id), ids));
    }
  }

  /** Every other mutation answers with its sync what it had, and throws only for a user with two memberships. */
  lemma SyncReplies(m: Mutation, s: Store, ctx: Context<State>)
    requires !m.Assign?
    ensures var ret := Sync(m, s, ctx);
            && (ctx.result.None? ==> ret == Returned(s, None))
            && (ret.Threw? <==> ctx.result.Some? && !AtMostOneRow(s.memberships, m.user))
            && (ret.Threw? ==> ret.world == s)
            && (ret.Returned? && ctx.result.Some? ==>
                  && ret.update == Some(StepUpdate(None, None, if m.CreateOrganization? then Some(ctx.state) else None,
                                                   ctx.result, None, None, None, None))
                  && (m.user in ret.world.roles ==>
                        ret.world.roles[m.user].groupIds
                        == if m.Delete? && m.user in s.roles then s.roles[m.user].groupIds else []))
  {
    assert AtMostOneRow(s.memberships, m.user) <==> !Ambiguous(s, m.user);
  }

  /** The completion changes nothing and answers what it had. */
  lemma CompletionReplies(m: Mutation, s: Store, ctx: Context<State>)
    ensures Complete(m, s, ctx)
            == Returned(s, if ctx.result.None? then None else Some(StepUpdate(None, None, None, ctx.result, None, None, None, None)))
  {
  }

  /** A resumed creation knows the organization its stored result names; the metadata say what is being done. */
  lemma ResumedStateKnows(m: Mutation, row: Row, org: nat, member: nat)
    ensures m.CreateOrganization? && row.result == map["organizationId" := Number(org), "membershipId" := Number(member)] ==>
              InitialState(m, row) == Some(org)
    ensures row.result == map[] ==> InitialState(m, row) == None
    ensures var metadata := InitialMetadata(m, row);
            && (m.CreateOrganization? ==> metadata == row.metadata["name" := Text(m.name)])
            && (m.Approve? ==> metadata == row.metadata + map["role" := Text(match m.role case Admin => "admin" case Teacher => "teacher"
                                                                                          case Student => "student"),
                                                              "approvedBy" := Text(m.approvedBy)])
            && (m.Assign? || m.Revoke? || m.Delete? ==> metadata == row.metadata)
  {
  }

  /** Every mutation stores a non-empty result with its commit and keeps one from then on. */
  lemma MutationsReport(m: Mutation)
    ensures LocalFirstReports(Steps(m))
  {
    var f := Steps(m);
    forall s, ctx | Carried(ctx)
      ensures ReportsIn(f.commitLocal(s, ctx), ctx)
    {
      CommitReports(m, s, ctx);
    }
    forall s, ctx | Carried(ctx) && ctx.result.Some?
      ensures ReportsIn(f.syncUpstream(s, ctx), ctx)
      ensures ReportsIn(f.complete(s, ctx), ctx)
    {
      SyncReports(m, s, ctx);
    }
  }

  /** What the service checks before it loads the operation. */
  function ServiceGuard(m: Mutation, s: Store): Option<Refusal> {
    match m
    case Assign(user, org, role, _, _) => Guard(s, org, user, Some(role))
    case Revoke(user, org, _) => Guard(s, org, user, Some(Teacher))
    case Delete(user, org, _) => Guard(s, org, user, None)
    case _ => None
  }

  /** A history of service calls, each behind its guards. */
  function Calls(m: Mutation, history: seq<seq<Fault>>, s: Store, row: Row): (Store, Row) {
    GatedReplay(WorkflowOf(m), (w: Store) => ServiceGuard(m, w).None?, history, s, row)
  }
}
