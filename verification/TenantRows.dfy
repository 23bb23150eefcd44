/**
 * What the tenancy transactions and guards do, told by the rows of the tables alone: which rows are
 * inserted, changed and deleted, which stay, and exactly when each refusal is given.
 */
module TenantRows {
  import opened Wrappers
  import opened MutationLedger
  import opened TenantStore

  // ---------------------------------------------------------------- rows

  predicate HasRow(rows: map<nat, Membership>, user: string) {
    exists id :: id in rows && rows[id].userId == user
  }

  /** The rows of a user. */
  function OwnRows(rows: map<nat, Membership>, user: string): set<nat> {
    set id | id in rows && rows[id].userId == user
  }

  /** The user has a row in the organization, and an admin row there, and somebody else has one. */
  predicate IsIn(rows: map<nat, Membership>, user: string, org: nat) {
    exists id :: id in rows && rows[id].userId == user && rows[id].organizationId == org
  }

  predicate IsAdminIn(rows: map<nat, Membership>, user: string, org: nat) {
    exists id :: id in rows && rows[id].userId == user && rows[id].organizationId == org && rows[id].role == Admin
  }

  predicate AnotherAdminIn(rows: map<nat, Membership>, user: string, org: nat) {
    exists id :: id in rows && rows[id].userId != user && rows[id].organizationId == org && rows[id].role == Admin
  }

  /** No second row of the user in any organization. */
  predicate AtMostOneRow(rows: map<nat, Membership>, user: string) {
    forall i, j :: i in rows && j in rows && rows[i].userId == user && rows[j].userId == user ==> i == j
  }

  // ---------------------------------------------------------------- transactions

  /** Creating an organization inserts it under a fresh id, with its creator as admin, who no longer waits. */
  lemma OrganizationCreated(s: Store, user: string, name: string)
    ensures var tx, verified := CreateOrganizationTx(s, user, name), user in s.users && s.users[user];
            && (tx.Committed? <==> verified && !HasRow(s.memberships, user))
            && (tx.Refused? ==> tx.why == if user !in s.users then UserNotFound
                                          else if !verified then EmailNotVerified else MembershipConflict)
            && (tx.Committed? ==>
                  var (org, member), t := tx.value, tx.store;
                  && s.supply <= org < member < t.supply
                  && t.organizations == s.organizations[org := name]
                  && t.memberships == s.memberships[member := Membership(user, org, Admin, None)]
                  && t.statuses == s.statuses - {user} && t.invitations == s.invitations && t.roles == s.roles && t.users == s.users)
  {
  }

  /** Approving turns the waiting status for this organization into a membership with a fresh id. */
  lemma UserApproved(s: Store, user: string, org: nat, role: OrgRole, approvedBy: string)
    ensures var tx := ApproveTx(s, user, org, role, approvedBy);
            var waits := user in s.statuses && s.statuses[user] == Some(org);
            && (tx.Committed? <==> waits && !HasRow(s.memberships, user))
            && (tx.Refused? ==> tx.why == if waits then MembershipConflict else NotWaiting)
            && (tx.Committed? ==>
                  var id, t := tx.value, tx.store;
                  && s.supply <= id < t.supply && t == s.(memberships := t.memberships, statuses := s.statuses - {user}, supply := t.supply)
                  && t.memberships == s.memberships[id := Membership(user, org, role, Some(approvedBy))])
  {
  }

  /** An invitation is used up exactly if it is one of this organization. */
  function WithoutInvitation(invitations: map<nat, nat>, invitation: nat, org: nat): map<nat, nat> {
    map i | i in invitations && !(i == invitation && invitations[i] == org) :: invitations[i]
  }

  /**
   * Accepting an invitation, for a user with at most one membership: a member of the organization only
   * uses the invitation up; everybody else leaves the old membership for a new one with a fresh id.
   */
  lemma InvitationAccepted(s: Store, invitation: nat, org: nat, user: string, invitedBy: string, role: OrgRole)
    ensures var tx := AcceptInvitationTx(s, invitation, org, user, invitedBy, role);
            && (tx.Refused? <==> !AtMostOneRow(s.memberships, user))
            && (tx.Refused? ==> tx.why == MembershipConflict)
            && (tx.Committed? ==>
                  var t := tx.store;
                  && t.organizations == s.organizations && t.roles == s.roles && t.users == s.users
                  && t.invitations == WithoutInvitation(s.invitations, invitation, org)
                  && if IsIn(s.memberships, user, org)
                     then t.memberships == s.memberships && t.statuses == s.statuses
                     else && t.memberships == (s.memberships - OwnRows(s.memberships, user))
                                                [s.supply := Membership(user, org, role, Some(invitedBy))]
                          && t.statuses == s.statuses - {user} && t.supply > s.supply)
  {
    assert AtMostOneRow(s.memberships, user) <==> !Ambiguous(s, user);
    if !Ambiguous(s, user) {
      InvitationDropped(s, invitation, org);
      AtMostOneLeft(s, user, org);
    }
  }

  lemma InvitationDropped(s: Store, invitation: nat, org: nat)
    ensures DropInvitation(s, invitation, org) == s.(invitations := WithoutInvitation(s.invitations, invitation, org))
  {
  }

  lemma AtMostOneLeft(s: Store, user: string, org: nat)
    requires !Ambiguous(s, user)
    ensures Left(s, user) == OwnRows(s.memberships, user)
    ensures HasMembership(s, user) && MembershipOf(s, user).organizationId == org <==> IsIn(s.memberships, user, org)
  {
    if id :| id in s.memberships && s.memberships[id].userId == user && s.memberships[id].organizationId == org {
      assert MembershipIdOf(s, user) == id;
    }
  }

  lemma SoleOrganization(organizations: map<nat, string>, org: nat)
    ensures organizations.Keys == {org} ==> |organizations| == 1 && forall o :: o in organizations ==> o == org
    ensures |organizations| == 1 ==> exists o :: o in organizations && organizations.Keys == {o}
  {
    if organizations.Keys == {org} { assert |organizations.Keys| == 1; }
    if |organizations| == 1 {
      var o :| o in organizations;
      assert |organizations.Keys - {o}| == 0;
      assert organizations.Keys == {o};
    }
  }

  /** The status recorded for a user who waits for `target`, or names no organization. */
  lemma WaitingRecorded(s: Store, user: string, target: Option<nat>, allowOrgDirectory: bool)
    ensures var tx, n := WaitTx(s, user, target, allowOrgDirectory), |s.organizations|;
            var starts := user in s.users && s.users[user] && !HasRow(s.memberships, user);
            && (tx.Committed? <==> starts && if target.Some? then target.value in s.organizations
                                             else n == 1 || (n > 1 && !allowOrgDirectory))
            && (tx.Committed? ==>
                  && user in tx.store.statuses && tx.store == s.(statuses := s.statuses[user := tx.store.statuses[user]])
                  && var status := tx.store.statuses[user];
                     if target.Some? then status == target
                     else if n == 1 then status.Some? && status.value in s.organizations
                     else status == if user in s.statuses then s.statuses[user] else None)
            && (tx.Refused? ==>
                  tx.why == if user !in s.users then UserNotFound
                            else if !s.users[user] then EmailNotVerified
                            else if !starts then MembershipConflict
                            else if target.Some? then OrganizationNotFound
                            else if n == 0 then NoOrganizations else SelectionRequired)
  {
    assert HasRow(s.memberships, user) <==> HasMembership(s, user);
    SoleOrganization(s.organizations, 0);
    if org :| org in s.organizations && OnlyOrganization(s, org) {
      SoleOrganization(s.organizations, org);
    }
  }

  // ---------------------------------------------------------------- the guards

  /** Exactly which role changes and removals (`None`) are allowed, and which refusal the others get. */
  lemma GuardDecides(s: Store, org: nat, user: string, nextRole: Option<OrgRole>)
    ensures var rows, refusal := s.memberships, Guard(s, org, user, nextRole);
            && (refusal == Some(AccessDenied) <==> !IsIn(rows, user, org))
            && (refusal == Some(MembershipConflict) <==> IsIn(rows, user, org) && !AtMostOneRow(rows, user))
            && (refusal == Some(LastAdmin) <==> AtMostOneRow(rows, user) && IsAdminIn(rows, user, org)
                                                && nextRole != Some(Admin) && !AnotherAdminIn(rows, user, org))
            && (refusal == None <==> IsIn(rows, user, org) && AtMostOneRow(rows, user)
                                     && (!IsAdminIn(rows, user, org) || nextRole == Some(Admin) || AnotherAdminIn(rows, user, org)))
  {
    var rows := s.memberships;
    assert AtMostOneRow(rows, user) <==> !Ambiguous(s, user);
    assert IsIn(rows, user, org) <==> MemberOf(s, user, org);
    if AtMostOneRow(rows, user) && IsAdminIn(rows, user, org) {
      SecondAdminIsAnother(s, org, user);
    }
  }

  /** Beside the one row of an admin, a second admin row is another user's. */
  lemma SecondAdminIsAnother(s: Store, org: nat, user: string)
    requires AtMostOneRow(s.memberships, user) && IsAdminIn(s.memberships, user, org)
    ensures HasTwoAdmins(s, org) <==> AnotherAdminIn(s.memberships, user, org)
  {
    var rows := s.memberships;
    var own :| own in rows && rows[own].userId == user && rows[own].organizationId == org && rows[own].role == Admin;
    assert IsAdminRow(rows[own], org);
    if id :| id in rows && rows[id].userId != user && rows[id].organizationId == org && rows[id].role == Admin {
      assert IsAdminRow(rows[id], org) && own != id;
    }
    if i, j :| i in rows && j in rows && i != j && IsAdminRow(rows[i], org) && IsAdminRow(rows[j], org) {
      assert rows[i].userId != user || rows[j].userId != user;
    }
  }

  /** Changing the role of a user in an organization changes that column of those rows. */
  lemma RoleIsSet(s: Store, org: nat, user: string, role: OrgRole)
    ensures var t := SetRole(s, org, user, role);
            && t == s.(memberships := t.memberships) && t.memberships.Keys == s.memberships.Keys
            && forall id | id in s.memberships ::
                 var before, after := s.memberships[id], t.memberships[id];
                 && after.userId == before.userId && after.organizationId == before.organizationId && after.invitedBy == before.invitedBy
                 && after.role == if before.userId == user && before.organizationId == org then role else before.role
  {
  }

  /** Removing a user from an organization deletes those rows and no other. */
  lemma MemberIsRemoved(s: Store, org: nat, user: string)
    ensures var t := RemoveMember(s, org, user);
            && t == s.(memberships := t.memberships)
            && forall id, m :: id in t.memberships && t.memberships[id] == m
                 <==> id in s.memberships && s.memberships[id] == m && (m.userId != user || m.organizationId != org)
  {
  }

  // ---------------------------------------------------------------- the mirror

  /** The mirrored row: admin for admins only, the given groups or those there, and a creator that never changes. */
  lemma RoleRowWritten(s: Store, user: string, actedBy: string, groupIds: Option<Json>, id: nat)
    requires id in s.memberships && s.memberships[id].userId == user && AtMostOneRow(s.memberships, user)
    ensures var tx := Synchronize(s, user, actedBy, groupIds);
            && tx.Committed? && user in tx.store.roles && tx.value == Some(tx.store.roles[user])
            && tx.store == s.(roles := s.roles[user := tx.store.roles[user]])
            && var row := tx.store.roles[user];
               && (row.role == MirroredAdmin <==> s.memberships[id].role == Admin)
               && (user in s.roles ==> row.createdBy == s.roles[user].createdBy)
               && (user !in s.roles ==> row.createdBy == if actedBy in s.users then actedBy else user)
               && (groupIds.Some? ==> row.groupIds == if groupIds.value.List? then Strings(groupIds.value.items) else [])
               && (groupIds.None? ==> row.groupIds == if user in s.roles then s.roles[user].groupIds else [])
  {
    assert MembershipIdOf(s, user) == id;
  }

  /** Reading the group ids of a document keeps its strings, in order, and drops everything else. */
  lemma {:induction false} StringsAreKept(a: seq<Json>, x: Json)
    ensures Strings([]) == [] && Strings(a + [x]) == Strings(a) + if x.Text? then [x.s] else []
    ensures NormalizeGroupIds(List(a)) == Strings(a)
  {
    if |a| > 0 {
      StringsAreKept(a[1..], x);
      assert (a + [x])[1..] == a[1..] + [x];
    } else {
      assert [x][1..] == [];
    }
  }

  lemma RoleRowRemoved(s: Store, user: string, actedBy: string, groupIds: Option<Json>)
    ensures var tx := Synchronize(s, user, actedBy, groupIds);
            && (!HasRow(s.memberships, user) ==> tx == Committed(s.(roles := s.roles - {user}), None))
            && (tx.Refused? <==> !AtMostOneRow(s.memberships, user))
            && (tx.Refused? ==> tx.why == MembershipConflict)
  {
  }
}
