/**
 * The group tables in place: upstream groups, their rule rows and the organizations' links
 * (api/src/db/openpath-repos/groups.repo.ts, api/src/services/group-local-link.service.ts).
 */
module GroupTables {
  import opened Wrappers
  import GroupLinks

  datatype GroupRow = GroupRow(name: string, displayName: string, enabled: bool)

  datatype RuleRow = RuleRow(groupId: nat, rule: GroupLinks.Rule)

  /** The rules of one group, in table order. */
  function RulesOf(rules: seq<RuleRow>, g: nat): seq<GroupLinks.Rule>
    decreases |rules|
  {
    if |rules| == 0 then []
    else RulesOf(rules[..|rules| - 1], g) + if rules[|rules| - 1].groupId == g then [rules[|rules| - 1].rule] else []
  }

  function Without(rules: seq<RuleRow>, g: nat): seq<RuleRow>
    decreases |rules|
  {
    if |rules| == 0 then []
    else Without(rules[..|rules| - 1], g) + if rules[|rules| - 1].groupId == g then [] else [rules[|rules| - 1]]
  }

  lemma OneMoreRule(rules: seq<RuleRow>, row: RuleRow, g: nat)
    ensures RulesOf(rules + [row], g) == RulesOf(rules, g) + if row.groupId == g then [row.rule] else []
  {
    assert (rules + [row])[..|rules|] == rules;
  }

  function RowsOf(g: nat, rules: seq<GroupLinks.Rule>): seq<RuleRow> {
    seq(|rules|, i requires 0 <= i < |rules| => RuleRow(g, rules[i]))
  }

  /** Inserting a group's rules adds them to that group, in order, and to no other. */
  lemma {:induction false} InsertedRules(rules: seq<RuleRow>, g: nat, added: seq<GroupLinks.Rule>, other: nat)
    ensures RulesOf(rules + RowsOf(g, added), other) == RulesOf(rules, other) + if other == g then added else []
    decreases |added|
  {
    if |added| > 0 {
      var front, last := added[..|added| - 1], added[|added| - 1];
      InsertedRules(rules, g, front, other);
      OneMoreRule(rules + RowsOf(g, front), RuleRow(g, last), other);
      assert rules + RowsOf(g, added) == rules + RowsOf(g, front) + [RuleRow(g, last)];
      assert added == front + [last];
    } else {
      assert rules + RowsOf(g, added) == rules;
    }
  }

  /** Deleting a group's rules leaves it none and every other group all of its own. */
  lemma {:induction false} WithoutKeepsOthers(rules: seq<RuleRow>, g: nat, other: nat)
    ensures RulesOf(Without(rules, g), other) == if other == g then [] else RulesOf(rules, other)
    decreases |rules|
  {
    if |rules| > 0 {
      var front, last := rules[..|rules| - 1], rules[|rules| - 1];
      WithoutKeepsOthers(front, g, other);
      OneMoreRule(Without(front, g), last, other);
      assert Without(front, g) + [] == Without(front, g);
    }
  }

  lemma {:induction false} NoRulesOf(rules: seq<RuleRow>, g: nat)
    requires forall i | 0 <= i < |rules| :: rules[i].groupId != g
    ensures RulesOf(rules, g) == []
    decreases |rules|
  {
    if |rules| > 0 {
      NoRulesOf(rules[..|rules| - 1], g);
    }
  }

  lemma {:induction false} WithoutOwns(rules: seq<RuleRow>, g: nat, groups: set<nat>)
    requires forall i | 0 <= i < |rules| :: rules[i].groupId in groups
    ensures forall i | 0 <= i < |Without(rules, g)| :: Without(rules, g)[i].groupId in groups - {g}
    decreases |rules|
  {
    if |rules| > 0 {
      WithoutOwns(rules[..|rules| - 1], g, groups);
    }
  }

  /** The groups with their rules. */
  function GroupsOf(groups: map<nat, GroupRow>, rules: seq<RuleRow>): map<nat, GroupLinks.Group> {
    map g | g in groups :: GroupLinks.Group(groups[g].name, groups[g].displayName, groups[g].enabled, RulesOf(rules, g))
  }

  lemma GroupInserted(groups: map<nat, GroupRow>, rules: seq<RuleRow>, g: nat, group: GroupLinks.Group)
    requires g !in groups && forall i | 0 <= i < |rules| :: rules[i].groupId in groups.Keys
    ensures GroupsOf(groups[g := GroupRow(group.name, group.displayName, group.enabled)], rules + RowsOf(g, group.rules))
            == GroupsOf(groups, rules)[g := group]
  {
    var after := rules + RowsOf(g, group.rules);
    var all := GroupsOf(groups[g := GroupRow(group.name, group.displayName, group.enabled)], after);
    forall other | other in all.Keys ensures all[other] == GroupsOf(groups, rules)[g := group][other] {
      InsertedRulesOf(rules, g, group.rules, other);
      if other == g { NoRulesOf(rules, g); }
    }
  }

  lemma InsertedRulesOf(rules: seq<RuleRow>, g: nat, added: seq<GroupLinks.Rule>, other: nat)
    ensures RulesOf(rules + RowsOf(g, added), other) == if other == g then RulesOf(rules, g) + added else RulesOf(rules, other)
  {
    InsertedRules(rules, g, added, other);
    assert RulesOf(rules, other) + [] == RulesOf(rules, other);
  }

  function WithoutRules(w: GroupLinks.Store, g: nat): GroupLinks.Store {
    if g in w.groups then w.(groups := w.groups[g := w.groups[g].(rules := [])]) else w
  }

  lemma RulesDeleted(groups: map<nat, GroupRow>, rules: seq<RuleRow>, g: nat)
    ensures var w := GroupLinks.Store(GroupsOf(groups, rules), map[], 0);
            && GroupsOf(groups, Without(rules, g)) == WithoutRules(w, g).groups
            && GroupsOf(groups - {g}, Without(rules, g)) == w.groups - {g}
  {
    var left := Without(rules, g);
    var all, cut := GroupsOf(groups, left), GroupsOf(groups - {g}, left);
    var w := GroupLinks.Store(GroupsOf(groups, rules), map[], 0);
    forall other | other in groups ensures all[other] == WithoutRules(w, g).groups[other] {
      WithoutKeepsOthers(rules, g, other);
    }
    forall other | other in groups - {g} ensures cut[other] == w.groups[other] {
      WithoutKeepsOthers(rules, g, other);
    }
  }

  /** A cascade that stopped between its statements is finished by running it again, and left every link and name alone. */
  lemma StoppedCascadeFinishes(w: GroupLinks.Store, g: nat)
    ensures GroupLinks.DeleteGroupCascade(WithoutRules(w, g), g) == GroupLinks.DeleteGroupCascade(w, g)
    ensures WithoutRules(w, g).links == w.links && WithoutRules(w, g).groups.Keys == w.groups.Keys
    ensures forall name :: GroupLinks.NameTaken(WithoutRules(w, g), name) <==> GroupLinks.NameTaken(w, name)
  {
    var half := WithoutRules(w, g);
    assert forall h | h in w.groups :: h in half.groups && half.groups[h].name == w.groups[h].name;
    assert forall h | h in half.groups :: h in w.groups && w.groups[h].name == half.groups[h].name;
  }

  /** Each id once, where it comes first: the ids of a `Set` built from a list. */
  function Distinct(ids: seq<nat>): seq<nat>
    decreases |ids|
  {
    if |ids| == 0 then []
    else
      var front, last := Distinct(ids[..|ids| - 1]), ids[|ids| - 1];
      if last in front then front else front + [last]
  }

  /** `addGroupToTeacherRole`: the groups of a user's teacher row, which is made if there is none. */
  function AddGroup(groupIds: Option<seq<nat>>, g: nat): seq<nat> {
    Distinct(groupIds.GetOr([]) + [g])
  }

  function WithGroup(teacherGroups: map<string, seq<nat>>, user: string, g: nat): map<string, seq<nat>> {
    teacherGroups[user := AddGroup(if user in teacherGroups then Some(teacherGroups[user]) else None, g)]
  }

  lemma {:induction false} DistinctKeepsIds(ids: seq<nat>)
    ensures forall g :: g in Distinct(ids) <==> g in ids
    ensures forall i, j | 0 <= i < j < |Distinct(ids)| :: Distinct(ids)[i] != Distinct(ids)[j]
    decreases |ids|
  {
    if |ids| > 0 {
      DistinctKeepsIds(ids[..|ids| - 1]);
      assert ids == ids[..|ids| - 1] + [ids[|ids| - 1]];
    }
  }

  lemma {:induction false} DistinctStay(ids: seq<nat>)
    requires forall i, j | 0 <= i < j < |ids| :: ids[i] != ids[j]
    ensures Distinct(ids) == ids
    decreases |ids|
  {
    if |ids| > 0 {
      DistinctStay(ids[..|ids| - 1]);
      assert ids == ids[..|ids| - 1] + [ids[|ids| - 1]];
    }
  }

  /** The group is added to the others, none twice, and adding it again changes nothing. */
  lemma GroupAddedOnce(groupIds: Option<seq<nat>>, g: nat)
    ensures var after := AddGroup(groupIds, g);
            && (forall h :: h in after <==> h == g || h in groupIds.GetOr([]))
            && (forall i, j | 0 <= i < j < |after| :: after[i] != after[j])
            && AddGroup(Some(after), g) == after
            && forall ids :: groupIds == Some(ids) && g !in ids && (forall i, j | 0 <= i < j < |ids| :: ids[i] != ids[j])
                 ==> after == ids + [g]
  {
    var after := AddGroup(groupIds, g);
    DistinctKeepsIds(groupIds.GetOr([]) + [g]);
    DistinctStay(after);
    forall ids | groupIds == Some(ids) && g !in ids && (forall i, j | 0 <= i < j < |ids| :: ids[i] != ids[j])
      ensures after == ids + [g]
    {
      DistinctStay(ids + [g]);
    }
    assert (after + [g])[..|after|] == after;
  }

  /** That user's row has the group now, beside those it had; no other row changes. */
  lemma TeacherGetsGroup(teacherGroups: map<string, seq<nat>>, user: string, g: nat)
    ensures var after := WithGroup(teacherGroups, user, g);
            && after.Keys == teacherGroups.Keys + {user}
            && (forall other | other in teacherGroups && other != user :: after[other] == teacherGroups[other])
            && (forall h :: h in after[user] <==> h == g || (user in teacherGroups && h in teacherGroups[user]))
  {
    GroupAddedOnce(if user in teacherGroups then Some(teacherGroups[user]) else None, g);
  }

  class Tables {
    /** The group ids of the teacher rows, by user. */
    var teacherGroups: map<string, seq<nat>>
    var groups: map<nat, GroupRow>
    var rules: seq<RuleRow>
    var links: map<(nat, nat), GroupLinks.Link>
    var supply: nat

    /** Every rule row belongs to a stored group, and ids not below `supply` are unused. */
    ghost predicate Valid()
      reads this
    {
      && (forall g :: g in groups ==> g < supply)
      && (forall i | 0 <= i < |rules| :: rules[i].groupId in groups.Keys)
    }

    /** The store the workflows are proved over. */
    function Current(): GroupLinks.Store
      reads this
    {
      GroupLinks.Store(GroupsOf(groups, rules), links, supply)
    }

    /** `None` is a violated UNIQUE constraint, which rolls the transaction back. */
    method CreateGroupWithRules(group: GroupLinks.Group) returns (created: Option<nat>)
      requires Valid()
      modifies this`groups, this`rules, this`supply
      ensures Valid()
      ensures var made := GroupLinks.CreateGroupWithRules(old(Current()), group);
              Current() == made.GetOr(old(Current())) && created == if made.Some? then Some(old(supply)) else None
      ensures created.None? ==> groups == old(groups) && rules == old(rules)
      ensures created.Some? ==>
        && created.value !in old(groups)
        && groups == old(groups)[created.value := GroupRow(group.name, group.displayName, group.enabled)]
        && |rules| == |old(rules)| + |group.rules| && rules[..|old(rules)|] == old(rules)
        && forall i | 0 <= i < |group.rules| :: rules[|old(rules)| + i] == RuleRow(created.value, group.rules[i])
    {
      NameTakenAlike(group.name);
      if (exists g :: g in groups && groups[g].name == group.name) || !GroupLinks.DistinctRules(group.rules) {
        return None;
      }
      var groupId := supply;
      GroupInserted(groups, rules, groupId, group);
      supply := supply + 1;
      groups := groups[groupId := GroupRow(group.name, group.displayName, group.enabled)];
      rules := rules + RowsOf(groupId, group.rules);
      created := Some(groupId);
    }

    lemma NameTakenAlike(name: string)
      ensures GroupLinks.NameTaken(Current(), name) <==> exists g :: g in groups && groups[g].name == name
    {
      var w := Current();
      if g :| g in groups && groups[g].name == name {
        assert g in w.groups && w.groups[g].name == name;
      }
    }

    /** First the rules, then the group, in two statements: `stopped` says that the second is not reached. */
    method DeleteGroupCascade(g: nat, stopped: bool)
      requires Valid()
      modifies this`groups, this`rules
      ensures Valid()
      ensures Current() == if stopped then WithoutRules(old(Current()), g) else GroupLinks.DeleteGroupCascade(old(Current()), g)
      ensures groups.Keys == (if stopped then old(groups).Keys else old(groups).Keys - {g})
      ensures forall h | h in groups :: groups[h] == old(groups)[h]
      ensures forall h :: RulesOf(rules, h) == if h == g then [] else RulesOf(old(rules), h)
    {
      forall h ensures RulesOf(Without(rules, g), h) == if h == g then [] else RulesOf(rules, h) {
        WithoutKeepsOthers(rules, g, h);
      }
      RulesDeleted(groups, rules, g);
      WithoutOwns(rules, g, groups.Keys);
      rules := Without(rules, g);
      if !stopped {
        groups := groups - {g};
      }
    }

    /**
     * Inserts the link unless it is there, and then adds the group to the teacher who linked it;
     * `false` is a public name in use, which changes nothing.
     */
    method LinkOrganizationGroup(org: nat, g: nat, link: GroupLinks.Link, teacher: Option<string>) returns (ok: bool)
      requires Valid()
      modifies this`links, this`teacherGroups
      ensures Valid()
      ensures var linked := GroupLinks.LinkOrganizationGroup(old(Current()), org, g, link);
              ok == linked.Some? && Current() == linked.GetOr(old(Current()))
      ensures teacherGroups == if ok && teacher.Some? then WithGroup(old(teacherGroups), teacher.value, g) else old(teacherGroups)
      ensures ok <==> (org, g) in old(links) || forall k | k in old(links) && k.0 == org :: old(links)[k].publicName != link.publicName
      ensures links == if ok && (org, g) !in old(links) then old(links)[(org, g) := link] else old(links)
    {
      if (org, g) !in links {
        if exists k :: k in links && k.0 == org && links[k].publicName == link.publicName {
          return false;
        }
        links := links[(org, g) := link];
      }
      if teacher.Some? {
        teacherGroups := WithGroup(teacherGroups, teacher.value, g);
      }
      ok := true;
    }

    method DeleteLink(org: nat, g: nat)
      requires Valid()
      modifies this`links
      ensures Valid() && Current() == GroupLinks.DeleteLink(old(Current()), org, g)
      ensures links.Keys == old(links).Keys - {(org, g)} && forall k | k in links :: links[k] == old(links)[k]
    {
      links := links - {(org, g)};
    }
  }
}
