/**
 * Group creation and deletion by the rows of the tables: exactly when a group or a link is inserted,
 * what every statement changes and leaves, and what completed operations end in.
 */
module GroupRows {
  import opened Wrappers
  import opened MutationLedger
  import opened WorkflowEngine
  import opened WorkflowHistories
  import opened RunFates
  import opened GroupLinks
  import opened GroupCreation

  // ---------------------------------------------------------------- statements

  /** A group is inserted, under a fresh id, exactly if no group has its name and no rule comes twice. */
  lemma GroupIsInserted(w: Store, group: Group)
    ensures var made := CreateGroupWithRules(w, group);
            var named := exists g :: g in w.groups && w.groups[g].name == group.name;
            var twice := exists i, j :: 0 <= i < j < |group.rules|
                           && group.rules[i].ruleType == group.rules[j].ruleType && group.rules[i].value == group.rules[j].value;
            && (made.None? <==> named || twice)
            && (made.Some? ==> made.value == Store(w.groups[w.supply := group], w.links, w.supply + 1))
  {
  }

  /** A link is inserted unless it is there; a public name that another link of the organization has refuses it. */
  lemma LinkIsInserted(w: Store, org: nat, g: nat, link: Link)
    ensures var linked := LinkOrganizationGroup(w, org, g, link);
            var used := exists h :: (org, h) in w.links && w.links[(org, h)].publicName == link.publicName;
            && (linked.None? <==> (org, g) !in w.links && used)
            && ((org, g) in w.links ==> linked == Some(w))
            && ((org, g) !in w.links && !used ==> linked == Some(Store(w.groups, w.links[(org, g) := link], w.supply)))
  {
    if k :| k in w.links && k.0 == org && w.links[k].publicName == link.publicName {
      assert (org, k.1) in w.links;
    }
  }

  /** Unlinking and cascading take one row each and leave every other. */
  lemma RowsAreDeleted(w: Store, org: nat, g: nat)
    ensures var cut := DeleteLink(w, org, g);
            && cut.groups == w.groups && cut.supply == w.supply && cut.links.Keys == w.links.Keys - {(org, g)}
            && forall k | k in cut.links :: cut.links[k] == w.links[k]
    ensures var cut := DeleteGroupCascade(w, g);
            && cut.links == w.links && cut.supply == w.supply && cut.groups.Keys == w.groups.Keys - {g}
            && forall h | h in cut.groups :: cut.groups[h] == w.groups[h]
  {
  }

  /**
   * What the bodies of a creation answer: the first the new group and its names, the later ones what they
   * had, if the group is in hand.
   */
  lemma CreationReplies(m: Mutation, w: Store, ctx: Context<State>)
    requires m.Create?
    ensures var made := CreateUpstream(m, w);
            && (made.Threw? <==> !NameFree(m, w)) && (made.Threw? ==> made.world == w)
            && (made.Returned? ==>
                  made.update == Some(StepUpdate(None, None, Some(Some(m.org)),
                                                 Some(map["groupId" := Number(w.supply), "publicName" := Text(m.link.publicName),
                                                          "visibility" := Text(m.link.visibility)]),
                                                 Some(Some(w.supply)), None, None, None)))
    ensures var linked, inHand := LinkLocal(m, w, ctx), ctx.result.Some? && ctx.state.Some?;
            && (!inHand ==> linked == Returned(w, None))
            && (inHand && linked.Returned? ==>
                  linked.update == Some(StepUpdate(None, None, Some(Some(m.org)), ctx.result, None, None, None, None)))
            && CompleteCreate(m, w, ctx)
               == Returned(w, if inHand then Some(StepUpdate(None, None, Some(Some(m.org)), ctx.result, None, None, None, None)) else None)
  {
    GroupIsInserted(w, m.group);
  }

  /** The stored id of a created group reads back; a group that is gone is not in hand. */
  lemma GroupReadsBack(w: Store, row: Row, g: nat, link: Link)
    requires row.result == map["groupId" := Number(g), "publicName" := Text(link.publicName), "visibility" := Text(link.visibility)]
    ensures InHand(w, row) == if g in w.groups then Some(g) else None
  {
  }

  // ---------------------------------------------------------------- outcomes

  /** A completed creation: the group and its one link are there, and the row names them. */
  lemma CreationOutcome(m: Mutation, w: Store, row: Row, history: seq<seq<Fault>>)
    requires m.Create? && ValidStore(w) && NotBegun(row)
    requires Replay(WorkflowOf(m), history, w, row).1.currentStep == Step.Completed
    ensures var (w', row') := Replay(WorkflowOf(m), history, w, row);
            && w' == Store(w.groups[w.supply := m.group], w.links[(m.org, w.supply) := m.link], w.supply + 1)
            && row'.result == map["groupId" := Number(w.supply), "publicName" := Text(m.link.publicName),
                                  "visibility" := Text(m.link.visibility)]
            && row'.status == Status.Completed
  {
    CreationCompletesExactly(m, w, row, history);
    ReplayFate(m, w, Fresh, history, w, row);
    CompletesExactly(history);
  }

  /** An uninterrupted deletion: the link is gone, and the group with it if no other organization links it. */
  lemma DeletionOutcome(m: Mutation, w: Store, row: Row)
    requires m.Delete? && NotBegun(row)
    ensures var (w', row') := Serve(WorkflowOf(m), [], w, row);
            var shared := exists o :: o != m.org && (o, m.groupId) in w.links;
            && w' == Store(if shared then w.groups else w.groups - {m.groupId}, w.links - {(m.org, m.groupId)}, w.supply)
            && row'.result == map["success" := Bool(true), "groupId" := Number(m.groupId)]
            && row'.currentStep == Step.Completed && row'.status == Status.Completed
  {
    var cut := DeleteLink(w, m.org, m.groupId);
    var steps := StepsOf(m, row.currentStep);
    var ctx := Entry(WorkflowOf(m), w, row);
    assert Linked(cut, m.groupId) <==> exists o :: o != m.org && (o, m.groupId) in w.links by {
      if k :| k in cut.links && k.1 == m.groupId { assert k.0 != m.org && (k.0, m.groupId) in w.links; }
      if o :| o != m.org && (o, m.groupId) in w.links { assert (o, m.groupId) in cut.links; }
    }
    RunStep(steps, 0, [], w, row, ctx);
    var r := Attempt(steps[0], Clean, w, row, ctx);
    RunStep(steps, 1, [], r.world, r.row, r.finished.value);
  }
}
