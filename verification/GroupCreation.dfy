/**
 * What becomes of one group creation over any history of its runs, while nothing else touches the
 * tables. A run that creates the upstream group and leaves no result in the ledger loses it: every
 * retry is refused by the name the lost group holds. The exact condition under which a history
 * completes is proved.
 */
module GroupCreation {
  import opened Wrappers
  import opened MutationLedger
  import opened WorkflowEngine
  import opened WorkflowHistories
  import opened RunFates
  import opened GroupLinks

  /** No group has the name, and no rule comes twice. */
  predicate NameFree(m: Mutation, w: Store)
    requires m.Create?
  {
    && (forall g | g in w.groups :: w.groups[g].name != m.group.name)
    && forall i, j | 0 <= i < j < |m.group.rules| ::
         m.group.rules[i].ruleType != m.group.rules[j].ruleType || m.group.rules[i].value != m.group.rules[j].value
  }

  /** No link of the organization has the public name. */
  predicate LinkFree(m: Mutation, w: Store)
    requires m.Create?
  {
    forall k | k in w.links && k.0 == m.org :: w.links[k].publicName != m.link.publicName
  }

  function MadeStore(m: Mutation, w: Store): Store
    requires m.Create?
  {
    w.(groups := w.groups[w.supply := m.group], supply := w.supply + 1)
  }

  function LinkedStore(m: Mutation, w: Store): Store
    requires m.Create?
  {
    var made := MadeStore(m, w);
    made.(links := made.links[(m.org, w.supply) := m.link])
  }

  function Result(m: Mutation, w: Store): Record
    requires m.Create?
  {
    Created(w.supply, m.link)
  }

  /** How tables and row look in each fate, seen from the tables before the first run. */
  ghost predicate InFate(m: Mutation, start: Store, fate: Fate, w: Store, row: Row)
    requires m.Create?
  {
    match fate
    case Fresh => w == start && NotBegun(row)
    case Lost => w == MadeStore(m, start) && NotBegun(row)
    case Made(linked) =>
      && (w == MadeStore(m, start) || w == LinkedStore(m, start)) && (linked ==> w == LinkedStore(m, start))
      && Recorded(m, start, row) && (row.currentStep == Step.LocalLinked <==> linked)
    case Done =>
      w == LinkedStore(m, start) && row.result == Result(m, start) && row.currentStep == Step.Completed && row.status == Status.Completed
  }

  /** The result is in the ledger and the operation is not completed. */
  ghost predicate Recorded(m: Mutation, start: Store, row: Row)
    requires m.Create?
  {
    row.result == Result(m, start) && row.currentStep != Step.Completed && row.status != Status.Completed
  }

  /** A run with the result and the group in hand. */
  ghost predicate InHandOf(m: Mutation, start: Store, ctx: Context<State>)
    requires m.Create?
  {
    ctx.result == Some(Result(m, start)) && ctx.state == Some(start.supply)
  }

  lemma ResultNamesGroup(m: Mutation, start: Store)
    requires m.Create?
    ensures |Result(m, start)| > 0 && GroupOf(Result(m, start)) == Some(start.supply)
  {
    assert "groupId" in Result(m, start);
  }

  // ---------------------------------------------------------------- the steps

  /** A step that returns the made tables and their result, under every fault. */
  lemma CreateLands(m: Mutation, start: Store, row: Row, step: StepDefinition<Store, State>, faults: seq<Fault>, ctx: Context<State>)
    requires m.Create? && NotBegun(row) && ctx.result.None?
    requires step.step == Step.UpstreamCreated && !step.completed && step.status.None?
    requires step.run(start, ctx) == Returned(MadeStore(m, start), Update(m.org, Some(Result(m, start)), Some(Some(start.supply))))
    ensures var r := Attempt(step, FaultAt(faults, 0), start, row, ctx);
            && (FaultAt(faults, 0).Clean? ==>
                  && r.finished.Some? && InHandOf(m, start, r.finished.value)
                  && r.world == MadeStore(m, start) && InFate(m, start, Made(false), r.world, r.row))
            && (!FaultAt(faults, 0).Clean? ==> r.finished.None? && InFate(m, start, RunFate(Fresh, faults), r.world, r.row))
  {
  }

  lemma CreateStep(m: Mutation, start: Store, row: Row, faults: seq<Fault>)
    requires m.Create? && NameFree(m, start) && NotBegun(row)
    ensures var step := StepsOf(m, row.currentStep)[0];
            var ctx := Entry(WorkflowOf(m), start, row);
            var r := Attempt(step, FaultAt(faults, 0), start, row, ctx);
            && step.shouldRun(ctx)
            && (FaultAt(faults, 0).Clean? ==>
                  && r.finished.Some? && InHandOf(m, start, r.finished.value)
                  && r.world == MadeStore(m, start) && InFate(m, start, Made(false), r.world, r.row))
            && (!FaultAt(faults, 0).Clean? ==> r.finished.None? && InFate(m, start, RunFate(Fresh, faults), r.world, r.row))
  {
    CreateLands(m, start, row, StepsOf(m, row.currentStep)[0], faults, Entry(WorkflowOf(m), start, row));
  }

  /** With the name in use the creation throws and the row stays as good as new. */
  lemma RefusedStep(m: Mutation, w: Store, row: Row, fault: Fault)
    requires m.Create? && !NameFree(m, w) && NotBegun(row)
    ensures var step := StepsOf(m, row.currentStep)[0];
            var ctx := Entry(WorkflowOf(m), w, row);
            var r := Attempt(step, fault, w, row, ctx);
            step.shouldRun(ctx) && r.finished.None? && r.world == w && NotBegun(r.row)
  {
    ThrowsOut(StepsOf(m, row.currentStep)[0], fault, w, row, Entry(WorkflowOf(m), w, row));
  }

  /** Linking the new group, or finding it linked. */
  lemma LinkReaches(m: Mutation, start: Store, w: Store)
    requires m.Create? && ValidStore(start) && LinkFree(m, start)
    requires w == MadeStore(m, start) || w == LinkedStore(m, start)
    ensures LinkOrganizationGroup(w, m.org, start.supply, m.link) == Some(LinkedStore(m, start))
  {
    if w == MadeStore(m, start) {
      assert (m.org, start.supply) !in start.links;
      assert PublicNameTaken(w, m.org, m.link.publicName) <==> PublicNameTaken(start, m.org, m.link.publicName);
    }
  }

  lemma LinkStep(m: Mutation, start: Store, w: Store, row: Row, loaded: Step, faults: seq<Fault>, ctx: Context<State>)
    requires m.Create? && ValidStore(start) && LinkFree(m, start) && InFate(m, start, Made(false), w, row)
    requires InHandOf(m, start, ctx) && loaded != Step.LocalLinked && loaded != Step.Completed
    ensures var step := StepsOf(m, loaded)[1];
            var r := Attempt(step, FaultAt(faults, 1), w, row, ctx);
            && step.shouldRun(ctx)
            && (FaultAt(faults, 1).Clean? ==>
                  && r.finished.Some? && InHandOf(m, start, r.finished.value) && InFate(m, start, Made(true), r.world, r.row))
            && (!FaultAt(faults, 1).Clean? ==> r.finished.None? && InFate(m, start, SecondFate(false, faults), r.world, r.row))
  {
    ReachedUpstreamFirst(loaded);
    LinkReaches(m, start, w);
    LinkReturns(m, start, w, loaded, ctx);
    LinkLands(m, start, w, row, StepsOf(m, loaded)[1], faults, ctx);
  }

  lemma LinkReturns(m: Mutation, start: Store, w: Store, loaded: Step, ctx: Context<State>)
    requires m.Create? && InHandOf(m, start, ctx)
    requires LinkOrganizationGroup(w, m.org, start.supply, m.link) == Some(LinkedStore(m, start))
    ensures StepsOf(m, loaded)[1].run(w, ctx) == Returned(LinkedStore(m, start), Update(m.org, ctx.result, None))
  {
  }

  /** A step that returns the linked tables, under every fault. */
  lemma LinkLands(m: Mutation, start: Store, w: Store, row: Row, step: StepDefinition<Store, State>,
                  faults: seq<Fault>, ctx: Context<State>)
    requires m.Create? && InFate(m, start, Made(false), w, row) && InHandOf(m, start, ctx)
    requires step.step == Step.LocalLinked && !step.completed && step.status.None?
    requires step.run(w, ctx) == Returned(LinkedStore(m, start), Update(m.org, ctx.result, None))
    ensures var r := Attempt(step, FaultAt(faults, 1), w, row, ctx);
            && (FaultAt(faults, 1).Clean? ==>
                  && r.finished.Some? && InHandOf(m, start, r.finished.value) && InFate(m, start, Made(true), r.world, r.row))
            && (!FaultAt(faults, 1).Clean? ==> r.finished.None? && InFate(m, start, SecondFate(false, faults), r.world, r.row))
  {
  }

  lemma FinishStep(m: Mutation, start: Store, w: Store, row: Row, loaded: Step, fault: Fault, ctx: Context<State>)
    requires m.Create? && InFate(m, start, Made(true), w, row) && InHandOf(m, start, ctx)
    ensures var step := StepsOf(m, loaded)[2];
            var r := Attempt(step, fault, w, row, ctx);
            step.shouldRun(ctx) && InFate(m, start, LastFate(fault), r.world, r.row)
  {
  }

  // ---------------------------------------------------------------- runs

  lemma FinishRun(m: Mutation, start: Store, w: Store, row: Row, loaded: Step, faults: seq<Fault>, ctx: Context<State>)
    requires m.Create? && InFate(m, start, Made(true), w, row) && InHandOf(m, start, ctx)
    ensures var r := RunFrom(StepsOf(m, loaded), 2, faults, w, row, ctx);
            InFate(m, start, LastFate(FaultAt(faults, 2)), r.world, r.row)
  {
    FinishStep(m, start, w, row, loaded, FaultAt(faults, 2), ctx);
    RunStep(StepsOf(m, loaded), 2, faults, w, row, ctx);
  }

  lemma LinkRun(m: Mutation, start: Store, w: Store, row: Row, loaded: Step, faults: seq<Fault>, ctx: Context<State>, linked: bool)
    requires m.Create? && ValidStore(start) && LinkFree(m, start) && InFate(m, start, Made(linked), w, row)
    requires InHandOf(m, start, ctx) && loaded != Step.Completed && (loaded == Step.LocalLinked <==> linked)
    ensures var r := RunFrom(StepsOf(m, loaded), 1, faults, w, row, ctx);
            InFate(m, start, SecondFate(linked, faults), r.world, r.row)
  {
    var steps := StepsOf(m, loaded);
    RunStep(steps, 1, faults, w, row, ctx);
    if linked {
      ReachedUpstreamFirst(loaded);
      FinishRun(m, start, w, row, loaded, faults, ctx);
    } else {
      LinkStep(m, start, w, row, loaded, faults, ctx);
      var r := Attempt(steps[1], FaultAt(faults, 1), w, row, ctx);
      if r.finished.Some? {
        FinishRun(m, start, r.world, r.row, loaded, faults, r.finished.value);
      }
    }
  }

  /** One request of the operation does to tables and row what its faults say. */
  lemma ServeFate(m: Mutation, start: Store, fate: Fate, faults: seq<Fault>, w: Store, row: Row)
    requires m.Create? && ValidStore(start) && NameFree(m, start) && LinkFree(m, start) && InFate(m, start, fate, w, row)
    ensures var (w', row') := Serve(WorkflowOf(m), faults, w, row);
            InFate(m, start, RunFate(fate, faults), w', row')
  {
    match fate
    case Fresh => FreshRun(m, start, faults, row);
    case Lost =>
      LostNameIsTaken(m, start);
      RefusedRun(m, w, row, faults);
    case Made(linked) =>
      RecordedSkips(m, start, w, row, faults);
      LinkRun(m, start, w, row, row.currentStep, faults, Entry(WorkflowOf(m), w, row), linked);
    case Done => ResultNamesGroup(m, start);
  }

  lemma FreshRun(m: Mutation, start: Store, faults: seq<Fault>, row: Row)
    requires m.Create? && ValidStore(start) && NameFree(m, start) && LinkFree(m, start) && NotBegun(row)
    ensures var r := Resume(WorkflowOf(m), faults, start, row);
            InFate(m, start, RunFate(Fresh, faults), r.world, r.row)
  {
    CreateStep(m, start, row, faults);
    FirstOfRun(m, start, faults, row);
    var r := Attempt(StepsOf(m, row.currentStep)[0], FaultAt(faults, 0), start, row, Entry(WorkflowOf(m), start, row));
    AfterCreation(m, start, row.currentStep, faults, r);
  }

  /** From the outcome of the first step on. */
  lemma AfterCreation(m: Mutation, start: Store, loaded: Step, faults: seq<Fault>, r: RunResult<Store, State>)
    requires m.Create? && ValidStore(start) && LinkFree(m, start) && Unreached(loaded)
    requires FaultAt(faults, 0).Clean? ==>
               r.finished.Some? && InHandOf(m, start, r.finished.value) && InFate(m, start, Made(false), r.world, r.row)
    requires !FaultAt(faults, 0).Clean? ==> r.finished.None? && InFate(m, start, RunFate(Fresh, faults), r.world, r.row)
    ensures var end := if r.finished.None? then r else RunFrom(StepsOf(m, loaded), 1, faults, r.world, r.row, r.finished.value);
            InFate(m, start, RunFate(Fresh, faults), end.world, end.row)
  {
    if FaultAt(faults, 0).Clean? {
      LinkRun(m, start, r.world, r.row, loaded, faults, r.finished.value, false);
      assert RunFate(Fresh, faults) == SecondFate(false, faults);
    }
  }

  /** A creation run is its first step, and the rest if that step went through. */
  lemma FirstOfRun(m: Mutation, start: Store, faults: seq<Fault>, row: Row)
    requires m.Create? && NotBegun(row)
    ensures var steps, ctx := StepsOf(m, row.currentStep), Entry(WorkflowOf(m), start, row);
            var r := Attempt(steps[0], FaultAt(faults, 0), start, row, ctx);
            Resume(WorkflowOf(m), faults, start, row)
            == if r.finished.None? then r else RunFrom(steps, 1, faults, r.world, r.row, r.finished.value)
  {
    RunStep(StepsOf(m, row.currentStep), 0, faults, start, row, Entry(WorkflowOf(m), start, row));
  }

  /** The created group holds the name. */
  lemma LostNameIsTaken(m: Mutation, start: Store)
    requires m.Create?
    ensures !NameFree(m, MadeStore(m, start))
  {
    assert MadeStore(m, start).groups[start.supply].name == m.group.name;
  }

  lemma {:induction false} ReplayFate(m: Mutation, start: Store, fate: Fate, history: seq<seq<Fault>>, w: Store, row: Row)
    requires m.Create? && ValidStore(start) && NameFree(m, start) && LinkFree(m, start) && InFate(m, start, fate, w, row)
    ensures var (w', row') := Replay(WorkflowOf(m), history, w, row);
            InFate(m, start, HistoryFate(fate, history), w', row')
    decreases |history|
  {
    if |history| > 0 {
      ServeFate(m, start, fate, history[0], w, row);
      var (w1, row1) := Serve(WorkflowOf(m), history[0], w, row);
      ReplayFate(m, start, RunFate(fate, history[0]), history[1..], w1, row1);
    }
  }

  // ---------------------------------------------------------------- creations that are refused

  /** Where a creation stands whose name or public name is in use: never linked, never completed. */
  ghost predicate Blocked(m: Mutation, start: Store, w: Store, row: Row)
    requires m.Create?
  {
    || (NotBegun(row) && (w == start || w == MadeStore(m, start)))
    || (w == MadeStore(m, start) && Recorded(m, start, row) && row.currentStep != Step.LocalLinked)
  }

  lemma BlockedLink(m: Mutation, start: Store, row: Row, loaded: Step, faults: seq<Fault>, ctx: Context<State>)
    requires m.Create? && ValidStore(start) && !LinkFree(m, start)
    requires Recorded(m, start, row) && row.currentStep != Step.LocalLinked
    requires InHandOf(m, start, ctx) && loaded != Step.LocalLinked && loaded != Step.Completed
    ensures var r := RunFrom(StepsOf(m, loaded), 1, faults, MadeStore(m, start), row, ctx);
            Blocked(m, start, r.world, r.row)
  {
    var steps, w := StepsOf(m, loaded), MadeStore(m, start);
    assert (m.org, start.supply) !in start.links;
    assert PublicNameTaken(w, m.org, m.link.publicName) <==> PublicNameTaken(start, m.org, m.link.publicName);
    ReachedUpstreamFirst(loaded);
    BlockedAttempt(m, start, row, loaded, FaultAt(faults, 1), ctx);
    RunStep(steps, 1, faults, w, row, ctx);
  }

  /** A link that is refused leaves the result and no other trace than a recorded failure. */
  lemma BlockedAttempt(m: Mutation, start: Store, row: Row, loaded: Step, fault: Fault, ctx: Context<State>)
    requires m.Create? && LinkOrganizationGroup(MadeStore(m, start), m.org, start.supply, m.link).None?
    requires Recorded(m, start, row) && row.currentStep != Step.LocalLinked && InHandOf(m, start, ctx)
    requires loaded != Step.LocalLinked && loaded != Step.Completed
    ensures var step := StepsOf(m, loaded)[1];
            var r := Attempt(step, fault, MadeStore(m, start), row, ctx);
            step.shouldRun(ctx) && r.finished.None? && Blocked(m, start, r.world, r.row)
  {
    ReachedUpstreamFirst(loaded);
  }

  lemma BlockedCreate(m: Mutation, start: Store, faults: seq<Fault>, row: Row)
    requires m.Create? && ValidStore(start) && NameFree(m, start) && !LinkFree(m, start) && NotBegun(row)
    ensures var r := Resume(WorkflowOf(m), faults, start, row); Blocked(m, start, r.world, r.row)
  {
    CreateStep(m, start, row, faults);
    FirstOfRun(m, start, faults, row);
    if FaultAt(faults, 0).Clean? {
      var r := Attempt(StepsOf(m, row.currentStep)[0], FaultAt(faults, 0), start, row, Entry(WorkflowOf(m), start, row));
      BlockedLink(m, start, r.row, row.currentStep, faults, r.finished.value);
    }
  }

  lemma RefusedRun(m: Mutation, w: Store, row: Row, faults: seq<Fault>)
    requires m.Create? && !NameFree(m, w) && NotBegun(row)
    ensures var r := Resume(WorkflowOf(m), faults, w, row); r.world == w && NotBegun(r.row)
  {
    RefusedStep(m, w, row, FaultAt(faults, 0));
    RunStep(StepsOf(m, row.currentStep), 0, faults, w, row, Entry(WorkflowOf(m), w, row));
  }

  /** With a result in the ledger the group is in hand and its creation is skipped. */
  lemma RecordedSkips(m: Mutation, start: Store, w: Store, row: Row, faults: seq<Fault>)
    requires m.Create? && (w == MadeStore(m, start) || w == LinkedStore(m, start)) && Recorded(m, start, row)
    ensures var ctx := Entry(WorkflowOf(m), w, row);
            && InHandOf(m, start, ctx) && !Answered(row)
            && Resume(WorkflowOf(m), faults, w, row) == RunFrom(StepsOf(m, row.currentStep), 1, faults, w, row, ctx)
  {
    ResultNamesGroup(m, start);
    RunStep(StepsOf(m, row.currentStep), 0, faults, w, row, Entry(WorkflowOf(m), w, row));
  }

  lemma BlockedServe(m: Mutation, start: Store, faults: seq<Fault>, w: Store, row: Row)
    requires m.Create? && ValidStore(start) && !(NameFree(m, start) && LinkFree(m, start)) && Blocked(m, start, w, row)
    requires NameFree(m, start) || w == start
    ensures var (w', row') := Serve(WorkflowOf(m), faults, w, row);
            Blocked(m, start, w', row') && (NameFree(m, start) || w' == start)
  {
    if !NotBegun(row) {
      BlockedIsRecorded(m, start, w, row);
      RecordedSkips(m, start, w, row, faults);
      BlockedLink(m, start, row, row.currentStep, faults, Entry(WorkflowOf(m), w, row));
    } else if NameFree(m, w) {
      LostNameIsTaken(m, start);
      BlockedCreate(m, start, faults, row);
    } else {
      RefusedRun(m, w, row, faults);
    }
  }

  lemma BlockedIsRecorded(m: Mutation, start: Store, w: Store, row: Row)
    requires m.Create? && Blocked(m, start, w, row) && (NameFree(m, start) || w == start) && !NotBegun(row)
    ensures NameFree(m, start) && w == MadeStore(m, start) && Recorded(m, start, row) && row.currentStep != Step.LocalLinked
  {
    assert MadeStore(m, start).supply == start.supply + 1;
  }

  lemma {:induction false} BlockedReplay(m: Mutation, start: Store, history: seq<seq<Fault>>, w: Store, row: Row)
    requires m.Create? && ValidStore(start) && !(NameFree(m, start) && LinkFree(m, start)) && Blocked(m, start, w, row)
    requires NameFree(m, start) || w == start
    ensures var (w', row') := Replay(WorkflowOf(m), history, w, row);
            Blocked(m, start, w', row') && (NameFree(m, start) || w' == start)
    decreases |history|
  {
    if |history| > 0 {
      BlockedServe(m, start, history[0], w, row);
      var (w1, row1) := Serve(WorkflowOf(m), history[0], w, row);
      BlockedReplay(m, start, history[1..], w1, row1);
    }
  }

  // ---------------------------------------------------------------- the results

  /**
   * A history of one group creation completes it if and only if name and public name were free, the
   * first creation that happened was recorded, and this run or a later one got past the link, or found
   * it recorded by an earlier one, and completed.
   */
  lemma CreationCompletesExactly(m: Mutation, w: Store, row: Row, history: seq<seq<Fault>>)
    requires m.Create? && ValidStore(w) && NotBegun(row)
    ensures Replay(WorkflowOf(m), history, w, row).1.currentStep == Step.Completed
            <==> NameFree(m, w) && LinkFree(m, w) && Completes(history)
  {
    if NameFree(m, w) && LinkFree(m, w) {
      ReplayFate(m, w, Fresh, history, w, row);
      CompletesExactly(history);
    } else {
      BlockedReplay(m, w, history, w, row);
    }
  }

  /**
   * Free names given, a fault-free retry completes the creation at any time, unless the first creation
   * that happened was lost; then the group stays, unlinked, and no history ever completes the operation.
   * The group is created at most once.
   */
  lemma RetryCompletesUnlessLost(m: Mutation, w: Store, row: Row, history: seq<seq<Fault>>)
    requires m.Create? && ValidStore(w) && NotBegun(row) && NameFree(m, w) && LinkFree(m, w)
    ensures var (w', row') := Replay(WorkflowOf(m), history, w, row);
            && (w' == w || w' == MadeStore(m, w) || w' == LinkedStore(m, w))
            && (Serve(WorkflowOf(m), [], w', row').1.currentStep == Step.Completed <==> !FirstEffectIsLost(history))
            && (FirstEffectIsLost(history) ==> w' == MadeStore(m, w) && w.supply in w'.groups && !Linked(w', w.supply))
  {
    var (w', row') := Replay(WorkflowOf(m), history, w, row);
    ReplayFate(m, w, Fresh, history, w, row);
    LostExactly(history);
    RetryFinishes(m, w, HistoryFate(Fresh, history), w', row');
    assert !Linked(MadeStore(m, w), w.supply);
  }

  /** A fault-free request completes a creation in every fate but one. */
  lemma RetryFinishes(m: Mutation, start: Store, fate: Fate, w: Store, row: Row)
    requires m.Create? && ValidStore(start) && NameFree(m, start) && LinkFree(m, start) && InFate(m, start, fate, w, row)
    ensures Serve(WorkflowOf(m), [], w, row).1.currentStep == Step.Completed <==> fate != Lost
  {
    ServeFate(m, start, fate, [], w, row);
    RetryFate(fate);
  }
}
