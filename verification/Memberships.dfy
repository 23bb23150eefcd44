/**
 * The membership state machine over sequential service calls: one membership per user, nobody
 * both a member and waiting, and organizations that keep an admin.
 */
module Memberships {
  import opened Wrappers
  import opened TenantStore
  import opened TenantRows

  /** Service calls; a managed call evaluates its guards first. */
  datatype Action =
    | CreateOrganization(user: string, name: string)
    | Wait(user: string, target: Option<nat>, allowOrgDirectory: bool)
    | CancelWaiting(user: string)
    | Approve(user: string, org: nat, role: OrgRole, approvedBy: string)
    | AcceptInvitation(user: string, invitation: nat, org: nat, role: OrgRole, invitedBy: string)
    | Assign(user: string, org: nat, role: OrgRole)
    | Revoke(user: string, org: nat)
    | Delete(user: string, org: nat)

  function Outcome<T>(s: Store, tx: Tx<T>): Store {
    if tx.Committed? then tx.store else s
  }

  function Perform(s: Store, a: Action): Store {
    match a
    case CreateOrganization(user, name) => Outcome(s, CreateOrganizationTx(s, user, name))
    case Wait(user, target, allow) => Outcome(s, WaitTx(s, user, target, allow))
    case CancelWaiting(user) => ClearStatus(s, user)
    case Approve(user, org, role, actor) => Outcome(s, ApproveTx(s, user, org, role, actor))
    case AcceptInvitation(user, invitation, org, role, actor) => Outcome(s, AcceptInvitationTx(s, invitation, org, user, actor, role))
    case Assign(user, org, role) => if Guard(s, org, user, Some(role)).Some? then s else SetRole(s, org, user, role)
    case Revoke(user, org) => if Guard(s, org, user, Some(Teacher)).Some? then s else SetRole(s, org, user, Teacher)
    case Delete(user, org) => if Guard(s, org, user, None).Some? then s else RemoveMember(s, org, user)
  }

  function Execute(s: Store, actions: seq<Action>): Store
    decreases |actions|
  {
    if |actions| == 0 then s else Execute(Perform(s, actions[0]), actions[1..])
  }

  /** Calls follow one another. */
  lemma {:induction false} CallsFollow(s: Store, actions: seq<Action>, a: Action)
    ensures Execute(s, []) == s && Execute(s, actions + [a]) == Perform(Execute(s, actions), a)
    decreases |actions|
  {
    if |actions| > 0 {
      CallsFollow(Perform(s, actions[0]), actions[1..], a);
      assert (actions + [a])[1..] == actions[1..] + [a];
    } else {
      assert [a][1..] == [];
    }
  }

  ghost predicate Consistent(s: Store) {
    && OneMembershipPerUser(s)
    && (forall id :: id in s.memberships ==> id < s.supply)
    && (forall id :: id in s.organizations ==> id < s.supply)
    && (forall user :: user in s.statuses ==> !HasMembership(s, user))
  }

  /** Inserting a row for a user without one, and clearing the user's waiting status. */
  lemma InsertConsistent(s: Store, m: Membership)
    requires Consistent(s) && !HasMembership(s, m.userId)
    ensures Consistent(ClearStatus(InsertMembership(s, m), m.userId))
    ensures forall org :: HasAdmin(s, org) ==> HasAdmin(ClearStatus(InsertMembership(s, m), m.userId), org)
  {
    var t := ClearStatus(InsertMembership(s, m), m.userId);
    forall org | HasAdmin(s, org)
      ensures HasAdmin(t, org)
    {
      var id :| id in s.memberships && IsAdminRow(s.memberships[id], org);
      assert id in t.memberships && t.memberships[id] == s.memberships[id];
    }
    forall user | user in t.statuses
      ensures !HasMembership(t, user)
    {
      assert user in s.statuses && user != m.userId;
    }
  }

  lemma SameMemberships(s: Store, t: Store)
    requires s.memberships == t.memberships
    ensures forall user :: HasMembership(s, user) <==> HasMembership(t, user)
    ensures forall org :: HasAdmin(s, org) <==> HasAdmin(t, org)
  {
  }

  lemma WaitConsistent(s: Store, user: string, target: Option<nat>, allow: bool)
    requires Consistent(s)
    ensures var t := Outcome(s, WaitTx(s, user, target, allow));
            Consistent(t) && t.memberships == s.memberships
  {
    SameMemberships(s, Outcome(s, WaitTx(s, user, target, allow)));
  }

  /** Accepting an invitation of another organization moves the user. */
  lemma AcceptedElsewhere(s: Store, invitation: nat, org: nat, user: string, actor: string, role: OrgRole)
    requires !Ambiguous(s, user) && !MemberOf(s, user, org)
    ensures Perform(s, AcceptInvitation(user, invitation, org, role, actor)) == MoveUser(s, invitation, org, user, actor, role)
  {
  }

  /** Accepting an invitation of one's own organization only uses the invitation up. */
  lemma AcceptedAtHome(s: Store, invitation: nat, org: nat, user: string, actor: string, role: OrgRole)
    requires !Ambiguous(s, user) && MemberOf(s, user, org)
    ensures Perform(s, AcceptInvitation(user, invitation, org, role, actor)) == DropInvitation(s, invitation, org)
  {
    var id :| id in s.memberships && s.memberships[id].userId == user && s.memberships[id].organizationId == org;
    assert id == MembershipIdOf(s, user);
  }

  lemma AcceptConsistent(s: Store, invitation: nat, org: nat, user: string, actor: string, role: OrgRole)
    requires Consistent(s)
    ensures Consistent(Perform(s, AcceptInvitation(user, invitation, org, role, actor)))
  {
    var t := Perform(s, AcceptInvitation(user, invitation, org, role, actor));
    if MemberOf(s, user, org) {
      AcceptedAtHome(s, invitation, org, user, actor, role);
      SameMemberships(s, t);
    } else {
      AcceptedElsewhere(s, invitation, org, user, actor, role);
      forall u | u in t.statuses
        ensures !HasMembership(t, u)
      {
        assert u in s.statuses;
      }
    }
  }

  /** The other admin of the organization is somebody else, so it survives any change to this user. */
  lemma OtherAdmin(s: Store, org: nat, user: string) returns (id: nat)
    requires OneMembershipPerUser(s) && HasTwoAdmins(s, org)
    ensures id in s.memberships && IsAdminRow(s.memberships[id], org) && s.memberships[id].userId != user
  {
    var i, j :| i in s.memberships && j in s.memberships && i != j
      && IsAdminRow(s.memberships[i], org) && IsAdminRow(s.memberships[j], org);
    id := if s.memberships[i].userId == user then j else i;
  }

  /** A guarded role change or removal of one user, seen as a map on the membership table. */
  lemma GuardedChange(s: Store, t: Store, org: nat, user: string, next: Option<OrgRole>)
    requires Consistent(s) && Guard(s, org, user, next).None?
    requires next.Some? ==> t == SetRole(s, org, user, next.value)
    requires next.None? ==> t == RemoveMember(s, org, user)
    ensures Consistent(t) && forall o :: HasAdmin(s, o) ==> HasAdmin(t, o)
  {
    assert forall u :: HasMembership(t, u) ==> HasMembership(s, u);
    forall o | HasAdmin(s, o)
      ensures HasAdmin(t, o)
    {
      var id :| id in s.memberships && IsAdminRow(s.memberships[id], o);
      if o == org && s.memberships[id].userId == user && next != Some(Admin) {
        id := OtherAdmin(s, org, user);
      }
      assert id in t.memberships && IsAdminRow(t.memberships[id], o);
    }
  }

  lemma StepConsistent(s: Store, a: Action)
    requires Consistent(s)
    ensures Consistent(Perform(s, a))
    ensures !a.AcceptInvitation? ==> forall org :: HasAdmin(s, org) ==> HasAdmin(Perform(s, a), org)
  {
    var t := Perform(s, a);
    match a
    case CreateOrganization(user, name) =>
      if CanStartOnboarding(s, user).None? {
        var s1 := s.(organizations := s.organizations[s.supply := name], supply := s.supply + 1);
        SameMemberships(s, s1);
        InsertConsistent(s1, Membership(user, s.supply, Admin, None));
      }
    case Wait(user, target, allow) => WaitConsistent(s, user, target, allow); SameMemberships(s, t);
    case CancelWaiting(user) => SameMemberships(s, t);
    case Approve(user, org, role, actor) =>
      if ApproveTx(s, user, org, role, actor).Committed? {
        InsertConsistent(s, Membership(user, org, role, Some(actor)));
      }
    case AcceptInvitation(user, invitation, org, role, actor) => AcceptConsistent(s, invitation, org, user, actor, role);
    case Assign(user, org, role) => if Guard(s, org, user, Some(role)).None? { GuardedChange(s, t, org, user, Some(role)); }
    case Revoke(user, org) => if Guard(s, org, user, Some(Teacher)).None? { GuardedChange(s, t, org, user, Some(Teacher)); }
    case Delete(user, org) => if Guard(s, org, user, None).None? { GuardedChange(s, t, org, user, None); }
  }

  lemma StaysConsistent(s: Store, a: Action)
    ensures Consistent(s) ==> Consistent(Perform(s, a))
  {
    if Consistent(s) { StepConsistent(s, a); }
  }

  /**
   * Over every sequence of calls: one membership per user, no member waits, and an organization
   * keeps an admin as long as nobody accepts an invitation.
   */
  lemma {:induction false} MembershipMachine(s: Store, actions: seq<Action>)
    requires Consistent(s)
    ensures Consistent(Execute(s, actions))
    ensures (forall a :: a in actions ==> !a.AcceptInvitation?) ==> forall org :: HasAdmin(s, org) ==> HasAdmin(Execute(s, actions), org)
    decreases |actions|
  {
    if |actions| > 0 {
      StepConsistent(s, actions[0]);
      MembershipMachine(Perform(s, actions[0]), actions[1..]);
      assert actions[0] in actions;
      assert forall a :: a in actions[1..] ==> a in actions;
    }
  }

  /** The user is the only admin of an organization other than the inviting one. */
  predicate SoleAdminElsewhere(s: Store, user: string, org: nat) {
    exists id :: id in s.memberships && s.memberships[id].userId == user && s.memberships[id].organizationId != org
      && s.memberships[id].role == Admin && !HasTwoAdmins(s, s.memberships[id].organizationId)
  }

  /** Accepting an invitation costs an organization its last admin exactly when the user is its sole admin. */
  lemma AcceptKeepsAdminsExactly(s: Store, invitation: nat, org: nat, user: string, actor: string, role: OrgRole)
    requires Consistent(s)
    ensures var t := Perform(s, AcceptInvitation(user, invitation, org, role, actor));
            (forall o :: HasAdmin(s, o) ==> HasAdmin(t, o)) <==> !SoleAdminElsewhere(s, user, org)
  {
    var t := Perform(s, AcceptInvitation(user, invitation, org, role, actor));
    if MemberOf(s, user, org) {
      AcceptedAtHome(s, invitation, org, user, actor, role);
      SameMemberships(s, t);
    } else {
      AcceptedElsewhere(s, invitation, org, user, actor, role);
      if SoleAdminElsewhere(s, user, org) {
        var id :| id in s.memberships && s.memberships[id].userId == user && s.memberships[id].organizationId != org
          && s.memberships[id].role == Admin && !HasTwoAdmins(s, s.memberships[id].organizationId);
        assert IsAdminRow(s.memberships[id], s.memberships[id].organizationId);
        assert !HasAdmin(t, s.memberships[id].organizationId);
      } else {
        forall o | HasAdmin(s, o)
          ensures HasAdmin(t, o)
        {
          var id :| id in s.memberships && IsAdminRow(s.memberships[id], o);
          if s.memberships[id].userId == user {
            id := OtherAdmin(s, o, user);
          }
          assert id in t.memberships && IsAdminRow(t.memberships[id], o);
        }
      }
    }
  }

  /** The rows after an invitation was accepted, or refused. */
  lemma AcceptanceRows(s: Store, invitation: nat, org: nat, user: string, actor: string, role: OrgRole)
    ensures var t := Perform(s, AcceptInvitation(user, invitation, org, role, actor));
            && t.organizations == s.organizations && t.roles == s.roles && t.users == s.users
            && (!AtMostOneRow(s.memberships, user) ==> t == s)
            && (AtMostOneRow(s.memberships, user) ==>
                  && t.invitations == WithoutInvitation(s.invitations, invitation, org)
                  && (IsIn(s.memberships, user, org) ==> t.memberships == s.memberships && t.statuses == s.statuses)
                  && (!IsIn(s.memberships, user, org) ==>
                        && t.memberships == (s.memberships - OwnRows(s.memberships, user))
                                              [s.supply := Membership(user, org, role, Some(actor))]
                        && t.statuses == s.statuses - {user}))
  {
    InvitationAccepted(s, invitation, org, user, actor, role);
  }

  /** The statuses after a user asked to wait, and the refusals. */
  lemma WaitingRows(s: Store, user: string, target: Option<nat>, allow: bool)
    ensures var t, n := Perform(s, Wait(user, target, allow)), |s.organizations|;
            var starts := user in s.users && s.users[user] && !HasRow(s.memberships, user);
            var waits := starts && if target.Some? then target.value in s.organizations else n == 1 || (n > 1 && !allow);
            && t == s.(statuses := t.statuses)
            && (!waits ==> t == s)
            && (waits ==>
                  && user in t.statuses && t.statuses == s.statuses[user := t.statuses[user]]
                  && if target.Some? then t.statuses[user] == target
                     else if n == 1 then t.statuses[user].Some? && t.statuses[user].value in s.organizations
                     else t.statuses[user] == if user in s.statuses then s.statuses[user] else None)
            && (CanStartOnboarding(s, user).None? <==> starts)
            && ((exists org :: org in s.organizations && OnlyOrganization(s, org)) <==> n == 1)
  {
    WaitingRecorded(s, user, target, allow);
    SoleOrganization(s.organizations, 0);
    if org :| org in s.organizations && OnlyOrganization(s, org) { SoleOrganization(s.organizations, org); }
  }

  lemma MoreThanOne<T>(s: set<T>)
    ensures |s| > 1 <==> exists i, j :: i in s && j in s && i != j
  {
    if i, j :| i in s && j in s && i != j {
      assert s == {i, j} + (s - {i, j});
    }
    if |s| > 1 {
      var i :| i in s;
      assert |s - {i}| > 0;
      var j :| j in s - {i};
    }
  }

  /** Counting the admin rows tells whether there is a second one. */
  lemma TwoAdminsCounted(s: Store, org: nat, admins: set<nat>)
    requires admins == set id | id in s.memberships && IsAdminRow(s.memberships[id], org)
    ensures HasTwoAdmins(s, org) <==> |admins| > 1
  {
    MoreThanOne(admins);
    if HasTwoAdmins(s, org) {
      var i, j :| i in s.memberships && j in s.memberships && i != j
        && IsAdminRow(s.memberships[i], org) && IsAdminRow(s.memberships[j], org);
      assert i in admins && j in admins;
    }
  }

  lemma LeftIs(s: Store, user: string, id: nat)
    requires !Ambiguous(s, user) && id in s.memberships && s.memberships[id].userId == user
    ensures Left(s, user) == {id}
  {
  }

  lemma RevokingAssignsTeacher(s: Store, user: string, org: nat)
    ensures Perform(s, Revoke(user, org)) == Perform(s, Assign(user, org, Teacher))
  {
  }

  // ---------------------------------------------------------------- the tables in place

  /** The same transactions as updates of the tables; a refused one leaves every table alone. */
  class Tables {
    var organizations: map<nat, string>
    var memberships: map<nat, Membership>
    var statuses: map<string, Option<nat>>
    var invitations: map<nat, nat>
    var roles: map<string, RoleRow>
    var users: map<string, bool>
    var supply: nat

    function Current(): Store
      reads this
    {
      Store(organizations, memberships, statuses, invitations, roles, users, supply)
    }

    /** A fresh id for an organization or a membership. */
    method GenerateId() returns (id: nat)
      modifies this`supply
      ensures id == old(supply) && supply == old(supply) + 1
    {
      id := supply;
      supply := supply + 1;
    }

    method AssertCanStartOnboarding(user: string) returns (refusal: Option<Refusal>)
      ensures refusal == CanStartOnboarding(Current(), user)
      ensures refusal.None? <==> user in users && users[user] && !HasRow(memberships, user)
    {
      if user !in users { return Some(UserNotFound); }
      if !users[user] { return Some(EmailNotVerified); }
      if exists id :: id in memberships && memberships[id].userId == user { return Some(MembershipConflict); }
      refusal := None;
    }

    method CommitOrganization(user: string, name: string) returns (r: Result<(nat, nat), Refusal>)
      modifies this
      ensures Current() == Perform(old(Current()), CreateOrganization(user, name))
      ensures Consistent(old(Current())) ==> Consistent(Current())
      ensures r.Ok? <==> user in old(users) && old(users)[user] && !HasRow(old(memberships), user)
      ensures r.Ok? ==>
        && organizations == old(organizations)[r.value.0 := name]
        && memberships == old(memberships)[r.value.1 := Membership(user, r.value.0, Admin, None)]
        && statuses == old(statuses) - {user} && invitations == old(invitations) && roles == old(roles) && users == old(users)
      ensures r.Ok? && Consistent(old(Current())) ==> r.value.0 !in old(organizations) && r.value.1 !in old(memberships)
      ensures r.Err? ==> Current() == old(Current())
      ensures r.Err? ==> r.error == if user !in old(users) then UserNotFound
                                    else if !old(users)[user] then EmailNotVerified else MembershipConflict
    {
      ghost var s := Current();
      StaysConsistent(s, CreateOrganization(user, name));
      OrganizationCreated(s, user, name);
      var refusal := AssertCanStartOnboarding(user);
      if refusal.Some? { return Err(refusal.value); }
      var organizationId := GenerateId();
      var membershipId := GenerateId();
      organizations := organizations[organizationId := name];
      memberships := memberships[membershipId := Membership(user, organizationId, Admin, None)];
      statuses := statuses - {user};
      r := Ok((organizationId, membershipId));
    }

    method CommitPendingUserMembership(user: string, org: nat, role: OrgRole, approvedBy: string) returns (r: Result<nat, Refusal>)
      modifies this
      ensures Current() == Perform(old(Current()), Approve(user, org, role, approvedBy))
      ensures Consistent(old(Current())) ==> Consistent(Current())
      ensures r.Ok? <==> user in old(statuses) && old(statuses)[user] == Some(org) && !HasRow(old(memberships), user)
      ensures r.Ok? ==>
        && memberships == old(memberships)[r.value := Membership(user, org, role, Some(approvedBy))]
        && statuses == old(statuses) - {user} && invitations == old(invitations) && roles == old(roles) && users == old(users)
        && organizations == old(organizations)
      ensures r.Ok? && Consistent(old(Current())) ==> r.value !in old(memberships)
      ensures r.Err? ==> Current() == old(Current())
      ensures r.Err? ==> r.error == if user in old(statuses) && old(statuses)[user] == Some(org) then MembershipConflict else NotWaiting
      // In consistent tables a waiting user is never a member already, so only the waiting status can refuse.
      ensures Consistent(old(Current())) ==> (r.Ok? <==> user in old(statuses) && old(statuses)[user] == Some(org))
    {
      StaysConsistent(Current(), Approve(user, org, role, approvedBy));
      UserApproved(Current(), user, org, role, approvedBy);
      if !(user in statuses && statuses[user] == Some(org)) { return Err(NotWaiting); }
      if exists id :: id in memberships && memberships[id].userId == user { return Err(MembershipConflict); }
      var membershipId := GenerateId();
      memberships := memberships[membershipId := Membership(user, org, role, Some(approvedBy))];
      statuses := statuses - {user};
      r := Ok(membershipId);
    }

    method AcceptOrganizationInvitation(invitation: nat, org: nat, user: string, invitedBy: string, role: OrgRole)
      returns (r: Result<(), Refusal>)
      modifies this
      ensures Current() == Perform(old(Current()), AcceptInvitation(user, invitation, org, role, invitedBy))
      ensures Consistent(old(Current())) ==> Consistent(Current())
      ensures r == if AtMostOneRow(old(memberships), user) then Ok(()) else Err(MembershipConflict)
      ensures r.Err? ==> Current() == old(Current())
      ensures r.Ok? ==> invitations == WithoutInvitation(old(invitations), invitation, org)
      ensures r.Ok? && IsIn(old(memberships), user, org) ==> memberships == old(memberships) && statuses == old(statuses)
      ensures r.Ok? && !IsIn(old(memberships), user, org) ==>
        && memberships == (old(memberships) - OwnRows(old(memberships), user))
                            [old(supply) := Membership(user, org, role, Some(invitedBy))]
        && statuses == old(statuses) - {user}
      ensures organizations == old(organizations) && roles == old(roles) && users == old(users)
    {
      ghost var s := Current();
      StaysConsistent(s, AcceptInvitation(user, invitation, org, role, invitedBy));
      AcceptanceRows(s, invitation, org, user, invitedBy, role);
      if exists i, j :: i in memberships && j in memberships && i != j
          && memberships[i].userId == user && memberships[j].userId == user {
        return Err(MembershipConflict);
      }
      if exists id :: id in memberships && memberships[id].userId == user && memberships[id].organizationId == org {
        AcceptedAtHome(s, invitation, org, user, invitedBy, role);
        DeleteInvitation(invitation, org);
        return Ok(());
      }
      AcceptedElsewhere(s, invitation, org, user, invitedBy, role);
      Move(invitation, org, user, invitedBy, role);
      r := Ok(());
    }

    method Move(invitation: nat, org: nat, user: string, invitedBy: string, role: OrgRole)
      requires !Ambiguous(Current(), user)
      modifies this
      ensures Current() == MoveUser(old(Current()), invitation, org, user, invitedBy, role)
    {
      DeleteOwnMembership(user);
      statuses := statuses - {user};
      var membershipId := GenerateId();
      memberships := memberships[membershipId := Membership(user, org, role, Some(invitedBy))];
      DeleteInvitation(invitation, org);
    }

    method DeleteOwnMembership(user: string)
      requires !Ambiguous(Current(), user)
      modifies this`memberships
      ensures memberships == old(memberships) - Left(old(Current()), user)
    {
      if exists id :: id in memberships && memberships[id].userId == user {
        var id :| id in memberships && memberships[id].userId == user;
        LeftIs(Current(), user, id);
        memberships := memberships - {id};
      }
    }

    method DeleteInvitation(invitation: nat, org: nat)
      modifies this`invitations
      ensures invitations == if invitation in old(invitations) && old(invitations)[invitation] == org
                             then old(invitations) - {invitation} else old(invitations)
    {
      if invitation in invitations && invitations[invitation] == org {
        invitations := invitations - {invitation};
      }
    }

    method SetWaitingForInvitation(user: string, target: Option<nat>, allowOrgDirectory: bool) returns (r: Result<(), Refusal>)
      modifies this`statuses
      ensures Current() == Perform(old(Current()), Wait(user, target, allowOrgDirectory))
      ensures Consistent(old(Current())) ==> Consistent(Current())
      ensures r.Err? ==> statuses == old(statuses)
      ensures r.Ok? ==> user in statuses && statuses == old(statuses)[user := statuses[user]]
      ensures r.Ok? && target.Some? ==> statuses[user] == target
      ensures r.Ok? && target.None? ==>
        if |organizations| == 1 then statuses[user].Some? && statuses[user].value in organizations
        else statuses[user] == if user in old(statuses) then old(statuses)[user] else None
      ensures r.Ok? <==> && user in users && users[user] && !HasRow(memberships, user)
                         && if target.Some? then target.value in organizations
                            else |organizations| == 1 || (|organizations| > 1 && !allowOrgDirectory)
      ensures r.Err? ==> r.error == if user !in users then UserNotFound
                                    else if !users[user] then EmailNotVerified
                                    else if HasRow(memberships, user) then MembershipConflict
                                    else if target.Some? then OrganizationNotFound
                                    else if |organizations| == 0 then NoOrganizations else SelectionRequired
    {
      StaysConsistent(Current(), Wait(user, target, allowOrgDirectory));
      WaitingRows(Current(), user, target, allowOrgDirectory);
      var refusal := AssertCanStartOnboarding(user);
      if refusal.Some? { return Err(refusal.value); }
      if target.Some? {
        if target.value !in organizations { return Err(OrganizationNotFound); }
        statuses := statuses[user := target];
        return Ok(());
      }
      if exists org :: org in organizations && OnlyOrganization(Current(), org) {
        var org :| org in organizations && OnlyOrganization(Current(), org);
        statuses := statuses[user := Some(org)];
        return Ok(());
      }
      if organizations == map[] { return Err(NoOrganizations); }
      if !allowOrgDirectory {
        statuses := statuses[user := if user in statuses then statuses[user] else None];
        return Ok(());
      }
      r := Err(SelectionRequired);
    }

    method CancelWaitingForInvitation(user: string)
      modifies this`statuses
      ensures Current() == Perform(old(Current()), CancelWaiting(user))
      ensures Consistent(old(Current())) ==> Consistent(Current())
      ensures user !in statuses && forall u | u != user :: (u in statuses <==> u in old(statuses))
                                                        && (u in statuses ==> statuses[u] == old(statuses)[u])
    {
      StaysConsistent(Current(), CancelWaiting(user));
      statuses := statuses - {user};
    }

    /** assertManagedOrganizationUser, then assertOrganizationAdminSurvivability: the admins are counted. */
    method AssertChangeAllowed(org: nat, user: string, nextRole: Option<OrgRole>) returns (refusal: Option<Refusal>)
      ensures refusal == Guard(Current(), org, user, nextRole)
      ensures refusal == Some(AccessDenied) <==> !IsIn(memberships, user, org)
      ensures refusal == Some(MembershipConflict) <==> IsIn(memberships, user, org) && !AtMostOneRow(memberships, user)
      ensures refusal == Some(LastAdmin) <==> && AtMostOneRow(memberships, user) && IsAdminIn(memberships, user, org)
                                              && nextRole != Some(Admin) && !AnotherAdminIn(memberships, user, org)
      ensures refusal == None <==>
        && IsIn(memberships, user, org) && AtMostOneRow(memberships, user)
        && (!IsAdminIn(memberships, user, org) || nextRole == Some(Admin) || AnotherAdminIn(memberships, user, org))
    {
      GuardDecides(Current(), org, user, nextRole);
      if !(exists id :: id in memberships && memberships[id].userId == user && memberships[id].organizationId == org) {
        return Some(AccessDenied);
      }
      if exists i, j :: i in memberships && j in memberships && i != j
          && memberships[i].userId == user && memberships[j].userId == user {
        return Some(MembershipConflict);
      }
      if !(exists id :: id in memberships && memberships[id].userId == user && IsAdminRow(memberships[id], org)) {
        return None;
      }
      if nextRole == Some(Admin) {
        return None;
      }
      var admins := set id | id in memberships && IsAdminRow(memberships[id], org);
      TwoAdminsCounted(Current(), org, admins);
      if |admins| <= 1 {
        return Some(LastAdmin);
      }
      refusal := None;
    }

    /** Assigning a role, and revoking one by assigning teacher, behind their guards. */
    method ChangeRole(org: nat, user: string, role: OrgRole) returns (refusal: Option<Refusal>)
      modifies this`memberships
      ensures Current() == Perform(old(Current()), Assign(user, org, role))
      ensures Consistent(old(Current())) ==> Consistent(Current())
      ensures role == Teacher ==> Current() == Perform(old(Current()), Revoke(user, org))
      ensures refusal == Guard(old(Current()), org, user, Some(role))
      ensures refusal.Some? ==> memberships == old(memberships)
      ensures refusal.None? ==>
        && memberships.Keys == old(memberships).Keys
        && forall id | id in memberships ::
             var was := old(memberships)[id];
             memberships[id] == if was.userId == user && was.organizationId == org then was.(role := role) else was
    {
      StaysConsistent(Current(), Assign(user, org, role));
      RevokingAssignsTeacher(Current(), user, org);
      refusal := AssertChangeAllowed(org, user, Some(role));
      if refusal.None? {
        UpdateRole(org, user, role);
      }
    }

    method UpdateRole(org: nat, user: string, role: OrgRole)
      modifies this`memberships
      ensures Current() == SetRole(old(Current()), org, user, role)
    {
      memberships := map id | id in memberships ::
        if memberships[id].organizationId == org && memberships[id].userId == user
        then memberships[id].(role := role) else memberships[id];
    }

    method DeleteMembership(org: nat, user: string) returns (refusal: Option<Refusal>)
      modifies this`memberships
      ensures Current() == Perform(old(Current()), Delete(user, org))
      ensures Consistent(old(Current())) ==> Consistent(Current())
      ensures refusal == Guard(old(Current()), org, user, None)
      ensures refusal.Some? ==> memberships == old(memberships)
      ensures refusal.None? ==>
        forall id, m :: id in memberships && memberships[id] == m
          <==> id in old(memberships) && old(memberships)[id] == m && (m.userId != user || m.organizationId != org)
    {
      StaysConsistent(Current(), Delete(user, org));
      refusal := AssertChangeAllowed(org, user, None);
      MemberIsRemoved(Current(), org, user);
      if refusal.None? {
        DeleteRows(org, user);
      }
    }

    method DeleteRows(org: nat, user: string)
      modifies this`memberships
      ensures Current() == RemoveMember(old(Current()), org, user)
    {
      memberships := map id | id in memberships
        && !(memberships[id].organizationId == org && memberships[id].userId == user) :: memberships[id];
    }

    /** The role mirror in place: delete, insert or update the user's row, and nothing else. */
    method SynchronizeOpenPathRole(user: string, actedBy: string, groupIds: Option<MutationLedger.Json>)
      returns (r: Result<Option<RoleRow>, Refusal>)
      modifies this`roles
      ensures Ambiguous(old(Current()), user) ==> r.Err? && Current() == old(Current())
      ensures !Ambiguous(old(Current()), user) ==>
        var tx := Synchronize(old(Current()), user, actedBy, groupIds);
        tx.Committed? && r == Ok(tx.value) && Current() == tx.store
      ensures r.Err? ==> !AtMostOneRow(memberships, user) && roles == old(roles)
      ensures r.Ok? && r.value.None? ==> !HasRow(memberships, user) && roles == old(roles) - {user}
      ensures r.Ok? && r.value.Some? ==>
        && HasRow(memberships, user) && AtMostOneRow(memberships, user)
        && user in roles && r.value.value == roles[user] && roles == old(roles)[user := roles[user]]
        && (roles[user].role == MirroredAdmin
            <==> exists id :: id in memberships && memberships[id].userId == user && memberships[id].role == Admin)
        && (groupIds.None? ==> roles[user].groupIds == if user in old(roles) then old(roles)[user].groupIds else [])
        && (user in old(roles) ==> roles[user].createdBy == old(roles)[user].createdBy)
        && (user !in old(roles) ==> roles[user].createdBy == if actedBy in users then actedBy else user)
    {
      if exists i, j :: i in memberships && j in memberships && i != j
          && memberships[i].userId == user && memberships[j].userId == user {
        return Err(MembershipConflict);
      }
      if !(exists id :: id in memberships && memberships[id].userId == user) {
        roles := roles - {user};
        return Ok(None);
      }
      var id :| id in memberships && memberships[id].userId == user;
      assert id == MembershipIdOf(Current(), user);
      var mirrored := Mirror(memberships[id].role);
      var next := if groupIds.Some? then NormalizeGroupIds(groupIds.value)
                  else if user in roles then roles[user].groupIds else [];
      if user !in roles {
        var creator := if actedBy == user || actedBy in users then actedBy else user;
        roles := roles[user := RoleRow(mirrored, next, creator)];
      } else {
        roles := roles[user := roles[user].(role := mirrored, groupIds := next)];
      }
      r := Ok(Some(roles[user]));
    }
  }
}
