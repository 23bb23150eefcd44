/**
 * The tables that tenancy mutations touch: organizations, memberships and waiting statuses on the
 * ClassroomPath side, and the mirrored role rows on the OpenPath side. A transaction is a function
 * from a store to a store, or a refusal that leaves the store alone.
 */
module TenantStore {
  import opened Wrappers
  import opened MutationLedger

  datatype OrgRole = Admin | Teacher | Student

  datatype Membership = Membership(userId: string, organizationId: nat, role: OrgRole, invitedBy: Option<string>)

  datatype MirroredRole = MirroredAdmin | MirroredTeacher

  datatype RoleRow = RoleRow(role: MirroredRole, groupIds: seq<string>, createdBy: string)

  /**
   * `users` maps the known OpenPath users to whether their email is verified. `statuses` holds the
   * waiting users and the organization they wait for. Ids not below `supply` have never been used.
   */
  datatype Store = Store(
    organizations: map<nat, string>,
    memberships: map<nat, Membership>,
    statuses: map<string, Option<nat>>,
    invitations: map<nat, nat>,
    roles: map<string, RoleRow>,
    users: map<string, bool>,
    supply: nat)

  datatype Refusal =
    | NotWaiting | MembershipConflict | UserNotFound | EmailNotVerified | OrganizationNotFound
    | NoOrganizations | SelectionRequired | AccessDenied | LastAdmin

  datatype Tx<+T> = Committed(store: Store, value: T) | Refused(why: Refusal)

  // ---------------------------------------------------------------- queries

  predicate HasMembership(s: Store, user: string) {
    exists id :: id in s.memberships && s.memberships[id].userId == user
  }

  /** More than one row for the user: what `limit(2)` and a length test detect. */
  predicate Ambiguous(s: Store, user: string) {
    exists i, j :: i in s.memberships && j in s.memberships && i != j
      && s.memberships[i].userId == user && s.memberships[j].userId == user
  }

  predicate MemberOf(s: Store, user: string, org: nat) {
    exists id :: id in s.memberships && s.memberships[id].userId == user && s.memberships[id].organizationId == org
  }

  function MembershipIdOf(s: Store, user: string): (id: nat)
    requires HasMembership(s, user) && !Ambiguous(s, user)
    ensures id in s.memberships && s.memberships[id].userId == user
  {
    var id :| id in s.memberships && s.memberships[id].userId == user;
    id
  }

  function MembershipOf(s: Store, user: string): (m: Membership)
    requires HasMembership(s, user) && !Ambiguous(s, user)
    ensures m.userId == user && m in s.memberships.Values
  {
    s.memberships[MembershipIdOf(s, user)]
  }

  predicate IsAdminRow(m: Membership, org: nat) {
    m.organizationId == org && m.role == Admin
  }

  predicate HasAdmin(s: Store, org: nat) {
    exists id :: id in s.memberships && IsAdminRow(s.memberships[id], org)
  }

  predicate HasTwoAdmins(s: Store, org: nat) {
    exists i, j :: i in s.memberships && j in s.memberships && i != j
      && IsAdminRow(s.memberships[i], org) && IsAdminRow(s.memberships[j], org)
  }

  ghost predicate OneMembershipPerUser(s: Store) {
    forall i, j :: i in s.memberships && j in s.memberships && s.memberships[i].userId == s.memberships[j].userId ==> i == j
  }

  // ---------------------------------------------------------------- the role mirror

  function Mirror(role: OrgRole): MirroredRole {
    if role == Admin then MirroredAdmin else MirroredTeacher
  }

  /** Keeps the strings of a JSON array; anything else counts as no groups. */
  function NormalizeGroupIds(ids: Json): seq<string> {
    match ids
    case List(items) => Strings(items)
    case _ => []
  }

  function Strings(items: seq<Json>): seq<string> {
    if |items| == 0 then []
    else (if items[0].Text? then [items[0].s] else []) + Strings(items[1..])
  }

  function TextList(ids: seq<string>): Json {
    List(seq(|ids|, i requires 0 <= i < |ids| => Text(ids[i])))
  }

  /** Group ids survive the trip through a JSON document. */
  lemma {:induction false} GroupIdsRoundTrip(ids: seq<string>)
    ensures NormalizeGroupIds(TextList(ids)) == ids
  {
    var items := TextList(ids).items;
    if |ids| > 0 {
      GroupIdsRoundTrip(ids[1..]);
      assert items[1..] == TextList(ids[1..]).items;
    }
  }

  function CreatorOf(s: Store, user: string, actedBy: string): string {
    if actedBy == user || actedBy in s.users then actedBy else user
  }

  /** `synchronizeOpenPathRole`: mirrors the single membership into the role row, or removes the row. */
  function Synchronize(s: Store, user: string, actedBy: string, groupIds: Option<Json>): Tx<Option<RoleRow>> {
    if Ambiguous(s, user) then Refused(MembershipConflict)
    else if !HasMembership(s, user) then Committed(s.(roles := s.roles - {user}), None)
    else
      var next := if groupIds.Some? then NormalizeGroupIds(groupIds.value)
                  else if user in s.roles then s.roles[user].groupIds else [];
      var creator := if user in s.roles then s.roles[user].createdBy else CreatorOf(s, user, actedBy);
      var row := RoleRow(Mirror(MembershipOf(s, user).role), next, creator);
      Committed(s.(roles := s.roles[user := row]), Some(row))
  }

  // ---------------------------------------------------------------- membership transactions

  /** `UPDATE memberships SET role WHERE organization AND user`. */
  function SetRole(s: Store, org: nat, user: string, role: OrgRole): Store {
    s.(memberships := map id | id in s.memberships ::
         var m := s.memberships[id];
         if m.organizationId == org && m.userId == user then m.(role := role) else m)
  }

  /** `DELETE FROM memberships WHERE organization AND user`. */
  function RemoveMember(s: Store, org: nat, user: string): Store {
    s.(memberships := map id | id in s.memberships
         && !(s.memberships[id].organizationId == org && s.memberships[id].userId == user) :: s.memberships[id])
  }

  function ClearStatus(s: Store, user: string): Store {
    s.(statuses := s.statuses - {user})
  }

  function InsertMembership(s: Store, m: Membership): Store {
    s.(memberships := s.memberships[s.supply := m], supply := s.supply + 1)
  }

  function CanStartOnboarding(s: Store, user: string): Option<Refusal> {
    if user !in s.users then Some(UserNotFound)
    else if !s.users[user] then Some(EmailNotVerified)
    else if HasMembership(s, user) then Some(MembershipConflict)
    else None
  }

  /** The local commit of create-organization: the organization, its admin, and no waiting status. */
  function CreateOrganizationTx(s: Store, user: string, name: string): Tx<(nat, nat)> {
    var refusal := CanStartOnboarding(s, user);
    if refusal.Some? then Refused(refusal.value)
    else
      var org := s.supply;
      var s1 := s.(organizations := s.organizations[org := name], supply := org + 1);
      var s2 := InsertMembership(s1, Membership(user, org, Admin, None));
      Committed(ClearStatus(s2, user), (org, s1.supply))
  }

  function ApproveTx(s: Store, user: string, org: nat, role: OrgRole, approvedBy: string): Tx<nat> {
    if !(user in s.statuses && s.statuses[user] == Some(org)) then Refused(NotWaiting)
    else if HasMembership(s, user) then Refused(MembershipConflict)
    else Committed(ClearStatus(InsertMembership(s, Membership(user, org, role, Some(approvedBy))), user), s.supply)
  }

  function DropInvitation(s: Store, invitation: nat, org: nat): Store {
    if invitation in s.invitations && s.invitations[invitation] == org
    then s.(invitations := s.invitations - {invitation}) else s
  }

  /** The user's membership elsewhere, which accepting an invitation deletes. */
  function Left(s: Store, user: string): set<nat>
    requires !Ambiguous(s, user)
  {
    if HasMembership(s, user) then {MembershipIdOf(s, user)} else {}
  }

  /** Moves the user: the membership elsewhere is deleted, a new one inserted, the invitation used up. */
  function MoveUser(s: Store, invitation: nat, org: nat, user: string, invitedBy: string, role: OrgRole): Store
    requires !Ambiguous(s, user)
  {
    s.(memberships := (s.memberships - Left(s, user))[s.supply := Membership(user, org, role, Some(invitedBy))],
       statuses := s.statuses - {user},
       invitations := DropInvitation(s, invitation, org).invitations,
       supply := s.supply + 1)
  }

  function AcceptInvitationTx(s: Store, invitation: nat, org: nat, user: string, invitedBy: string, role: OrgRole): Tx<()> {
    if Ambiguous(s, user) then Refused(MembershipConflict)
    else if HasMembership(s, user) && MembershipOf(s, user).organizationId == org
    then Committed(DropInvitation(s, invitation, org), ())
    else Committed(MoveUser(s, invitation, org, user, invitedBy, role), ())
  }

  /** Waiting without an organization keeps the one recorded before, if any. */
  function SetWaitingStatus(s: Store, user: string): Store {
    s.(statuses := s.statuses[user := if user in s.statuses then s.statuses[user] else None])
  }

  function SetWaitingStatusWithOrg(s: Store, user: string, org: nat): Store {
    s.(statuses := s.statuses[user := Some(org)])
  }

  predicate OnlyOrganization(s: Store, org: nat) {
    s.organizations.Keys == {org}
  }

  function WaitTx(s: Store, user: string, target: Option<nat>, allowOrgDirectory: bool): Tx<()> {
    var refusal := CanStartOnboarding(s, user);
    if refusal.Some? then Refused(refusal.value)
    else if target.Some? then
      if target.value !in s.organizations then Refused(OrganizationNotFound)
      else Committed(SetWaitingStatusWithOrg(s, user, target.value), ())
    else if exists org :: org in s.organizations && OnlyOrganization(s, org) then
      var org :| org in s.organizations && OnlyOrganization(s, org);
      Committed(SetWaitingStatusWithOrg(s, user, org), ())
    else if s.organizations == map[] then Refused(NoOrganizations)
    else if !allowOrgDirectory then Committed(SetWaitingStatus(s, user), ())
    else Refused(SelectionRequired)
  }

  // ---------------------------------------------------------------- guards of the managed mutations

  function ManagedUser(s: Store, org: nat, user: string): Option<Refusal> {
    if !MemberOf(s, user, org) then Some(AccessDenied)
    else if Ambiguous(s, user) then Some(MembershipConflict)
    else None
  }

  /** Demoting or removing an admin needs a second admin row. */
  function AdminSurvivability(s: Store, org: nat, user: string, nextRole: Option<OrgRole>): Option<Refusal> {
    if !(exists id :: id in s.memberships && s.memberships[id].userId == user && IsAdminRow(s.memberships[id], org)) then None
    else if nextRole == Some(Admin) then None
    else if HasTwoAdmins(s, org) then None
    else Some(LastAdmin)
  }

  function Guard(s: Store, org: nat, user: string, nextRole: Option<OrgRole>): Option<Refusal> {
    var managed := ManagedUser(s, org, user);
    if managed.Some? then managed else AdminSurvivability(s, org, user, nextRole)
  }
}
