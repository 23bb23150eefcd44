/**
 * What a history of runs makes of an operation of three steps whose first effect is proved by its
 * stored result, seen through the faults alone. The first effect cannot be repeated: a run that has it
 * and leaves no result in the ledger loses the operation.
 */
module RunFates {
  import opened WorkflowEngine
  import opened WorkflowHistories

  /**
   * Nothing done; first effect done but not recorded; done and recorded, and whether the row says that
   * the second step is done; completed.
   */
  datatype Fate = Fresh | Lost | Made(second: bool) | Done

  /** A first effect that happened leaves its result in the ledger. */
  predicate Records(fault: Fault) {
    fault.Clean? || (fault.WriteThrows? && (fault.applied || fault.recorded))
  }

  /** The completion attempted on a row that says second. A recorded failure forgets the step, not the result. */
  function LastFate(fault: Fault): Fate {
    match fault
    case Clean => Done
    case WriteThrows(applied, recorded) => if recorded then Made(false) else if applied then Done else Made(true)
    case Throws(_, recorded) => Made(!recorded)
    case Dies(_) => Made(true)
  }

  /** A run from the second step on, which is skipped when the row says it is done. */
  function SecondFate(second: bool, faults: seq<Fault>): Fate {
    if second then LastFate(FaultAt(faults, 2))
    else
      match FaultAt(faults, 1)
      case Clean => LastFate(FaultAt(faults, 2))
      case WriteThrows(applied, recorded) => Made(applied && !recorded)
      case _ => Made(false)
  }

  function RunFate(fate: Fate, faults: seq<Fault>): Fate {
    match fate
    case Fresh =>
      if !Removes(faults) then Fresh
      else if FaultAt(faults, 0).Clean? then SecondFate(false, faults)
      else if Records(FaultAt(faults, 0)) then Made(false)
      else Lost
    case Made(second) => SecondFate(second, faults)
    case _ => fate
  }

  function HistoryFate(fate: Fate, history: seq<seq<Fault>>): Fate
    decreases |history|
  {
    if |history| == 0 then fate else HistoryFate(RunFate(fate, history[0]), history[1..])
  }

  // ---------------------------------------------------------------- lost

  /** The first run whose first effect happens does not record it. */
  predicate FirstEffectIsLost(history: seq<seq<Fault>>) {
    |history| > 0
    && if Removes(history[0]) then !Records(FaultAt(history[0], 0)) else FirstEffectIsLost(history[1..])
  }

  lemma {:induction false} LostExactly(history: seq<seq<Fault>>)
    ensures HistoryFate(Fresh, history) == Lost <==> FirstEffectIsLost(history)
    decreases |history|
  {
    if |history| > 0 {
      var fate := RunFate(Fresh, history[0]);
      if fate.Fresh? { LostExactly(history[1..]); } else { FateIsSettled(fate, history[1..]); }
    }
  }

  lemma {:induction false} FateIsSettled(fate: Fate, history: seq<seq<Fault>>)
    requires !fate.Fresh?
    ensures HistoryFate(fate, history) == Lost <==> fate == Lost
    ensures !HistoryFate(fate, history).Fresh? && (fate.Done? || fate.Lost? ==> HistoryFate(fate, history) == fate)
    decreases |history|
  {
    if |history| > 0 {
      FateIsSettled(RunFate(fate, history[0]), history[1..]);
    }
  }

  // ---------------------------------------------------------------- completed

  /** The completion's write stays. */
  predicate Finishes(fault: Fault) {
    fault.Clean? || fault == WriteThrows(true, false)
  }

  /** The completion fails and no write tells of it. */
  predicate FailsSilently(fault: Fault) {
    fault.Dies? || (fault.Throws? && !fault.recorded) || fault == WriteThrows(false, false)
  }

  /** The run gets through the second step, or the row says it need not. */
  predicate PassesSecond(second: bool, faults: seq<Fault>) {
    second || FaultAt(faults, 1).Clean?
  }

  /** An unfinished run leaves a row that says the second step is done. */
  predicate LeavesSecond(second: bool, faults: seq<Fault>) {
    if PassesSecond(second, faults) then FailsSilently(FaultAt(faults, 2)) else FaultAt(faults, 1) == WriteThrows(true, false)
  }

  /**
   * From a recorded first effect on: this run gets past the second step and completes, or a later one
   * does, the second step counting as done as long as no failure write has overwritten it.
   */
  predicate Finished(second: bool, history: seq<seq<Fault>>)
    decreases |history|
  {
    |history| > 0
    && ((PassesSecond(second, history[0]) && Finishes(FaultAt(history[0], 2)))
        || Finished(LeavesSecond(second, history[0]), history[1..]))
  }

  /** The first run whose first effect happens records it, and it or a later run finishes. */
  predicate Completes(history: seq<seq<Fault>>) {
    |history| > 0
    && if !Removes(history[0]) then Completes(history[1..])
       else if FaultAt(history[0], 0).Clean? then Finished(false, history)
       else Records(FaultAt(history[0], 0)) && Finished(false, history[1..])
  }

  lemma {:induction false} FinishedExactly(second: bool, history: seq<seq<Fault>>)
    ensures HistoryFate(Made(second), history) == Done <==> Finished(second, history)
    decreases |history|
  {
    if |history| > 0 {
      var fate := SecondFate(second, history[0]);
      if PassesSecond(second, history[0]) && Finishes(FaultAt(history[0], 2)) {
        FateIsSettled(Done, history[1..]);
      } else {
        assert fate == Made(LeavesSecond(second, history[0]));
        FinishedExactly(LeavesSecond(second, history[0]), history[1..]);
      }
    }
  }

  lemma {:induction false} CompletesExactly(history: seq<seq<Fault>>)
    ensures HistoryFate(Fresh, history) == Done <==> Completes(history)
    decreases |history|
  {
    if |history| > 0 {
      var faults := history[0];
      if !Removes(faults) {
        CompletesExactly(history[1..]);
      } else if FaultAt(faults, 0).Clean? {
        FinishedExactly(false, history);
      } else if Records(FaultAt(faults, 0)) {
        FinishedExactly(false, history[1..]);
      } else {
        FateIsSettled(Lost, history[1..]);
      }
    }
  }

  /** A run whose second step and completion go through finishes whatever came before it. */
  lemma {:induction false} GoodRunFinishes(second: bool, history: seq<seq<Fault>>, i: nat)
    requires i < |history| && FaultAt(history[i], 1).Clean? && Finishes(FaultAt(history[i], 2))
    ensures Finished(second, history)
    decreases |history|
  {
    if i > 0 {
      GoodRunFinishes(LeavesSecond(second, history[0]), history[1..], i - 1);
    }
  }

  /** A fault-free run completes in every fate but one. */
  lemma RetryFate(fate: Fate)
    ensures RunFate(fate, []) == if fate == Lost then Lost else Done
  {
  }
}
