/**
 * What a stage does with the cache offered to it (scripts/lib/verify-runtime.ts:17-68), and which stages
 * it is offered to (scripts/lib/verification-stage-runners.ts:87-94, 435-468): exactly those the catalog
 * calls safe, outside release mode. Whatever else is executed neither reuses an entry nor leaves one.
 */
module StageOffers {
  import opened Wrappers
  import opened StageCache
  import opened StagePipelines

  // ---------------------------------------------------------------- one stage

  function EntryOf(file: Option<Entries>, id: string): Option<Entry> {
    if id in Loaded(file) then Some(Loaded(file)[id]) else None
  }

  /** What allows a reuse, said by the entry, the offer and what is found on disk. */
  predicate Fits(entry: Entry, use: CacheUse, look: Look) {
    && use.key != "" && entry.cacheKey == use.key
    && (forall artifact | artifact in entry.artifacts && artifact.required != Some(false) :: artifact.path in look.existing)
    && (!use.validates || look.valid)
  }

  lemma FitsExactly(file: Option<Entries>, id: string, use: CacheUse, look: Look)
    ensures Reusable(Loaded(file), id, use, look) <==> EntryOf(file, id).Some? && Fits(EntryOf(file, id).value, use, look)
  {
    if id in Loaded(file) {
      var artifacts := Loaded(file)[id].artifacts;
      assert forall i | 0 <= i < |artifacts| :: artifacts[i] in artifacts;
    }
  }

  /** A stage is reused exactly if the cache is offered and the entry fits; otherwise it is executed, with that offer. */
  lemma ReusedExactly(file: Option<Entries>, stages: seq<ReportStage>, id: string, title: string, use: Option<CacheUse>,
                      look: Look, fault: Fault)
    ensures var run := RunStage(file, stages, id, title, use, look, fault);
            && (run.event.Reused? <==> use.Some? && EntryOf(file, id).Some? && Fits(EntryOf(file, id).value, use.value, look))
            && (run.event.Reused? ==> run.event == Reused(id, use.value, look) && run.file == file)
            && (run.event.Ran? ==> run.event.id == id && run.event.offered == use)
  {
    if use.Some? { FitsExactly(file, id, use.value, look); }
  }

  /**
   * An executed stage passed, failed or died, as its action and its writes did. A pass leaves the offered
   * entry, a failure none, and without an offer or a key the entry stays; no other entry changes, unless
   * the process dies in the middle of writing the file.
   */
  lemma ExecutionLeaves(file: Option<Entries>, stages: seq<ReportStage>, id: string, title: string, use: Option<CacheUse>,
                        look: Look, fault: Fault, other: string)
    requires RunStage(file, stages, id, title, use, look, fault).event.Ran?
    ensures var run := RunStage(file, stages, id, title, use, look, fault);
            var keyed := use.Some? && use.value.key != "";
            var left := if keyed then Some(Entry(use.value.artifacts, use.value.key)) else EntryOf(file, id);
            var outcome := run.event.outcome;
            && (outcome == Accepted <==> fault == Passes || (fault == RememberThrows && !keyed))
            && (outcome == Rejected <==> fault == Fails || fault == CompleteThrows || (fault == RememberThrows && keyed))
            && (outcome == CutShort(true) <==> fault.Dies? && !fault.at.AtStart? && fault.at.passed)
            && (outcome == CutShort(false) <==> fault.Dies? && (fault.at.AtStart? || !fault.at.passed))
            && (run.returned <==> outcome == Accepted)
            && (outcome == Accepted ==> EntryOf(run.file, id) == left)
            && (outcome == Rejected ==> EntryOf(run.file, id) == if use.Some? then None else EntryOf(file, id))
            && (fault.Dies? && (fault.at.AtStart? || fault.at.AfterAction?) ==> run.file == file)
            && (fault.Dies? && fault.at.AfterWriting? ==>
                  EntryOf(run.file, id) == if fault.at.passed then left else if use.Some? then None else EntryOf(file, id))
            && (fault.Dies? && fault.at.WhileWriting? ==>
                  run.file == if (if fault.at.passed then keyed else use.Some? && EntryOf(file, id).Some?) then None else file)
            && (other != id && !(fault.Dies? && fault.at.WhileWriting?) ==> EntryOf(run.file, other) == EntryOf(file, other))
  {
  }

  /** What passed is reused the next time it is offered under its key, with its artifacts there and its validation holding. */
  lemma PassIsReused(file: Option<Entries>, stages: seq<ReportStage>, stages': seq<ReportStage>, id: string, title: string,
                     use: CacheUse, use': CacheUse, look: Look, look': Look, fault: Fault)
    requires RunStage(file, stages, id, title, Some(use), look, Passes).event.Ran? && use.key != "" && use'.key == use.key
    requires (forall artifact | artifact in use.artifacts :: artifact.path in look'.existing) && look'.valid
    ensures var after := RunStage(file, stages, id, title, Some(use), look, Passes).file;
            RunStage(after, stages', id, title, Some(use'), look', fault).event == Reused(id, use', look')
  {
    var after := RunStage(file, stages, id, title, Some(use), look, Passes).file;
    ExecutionLeaves(file, stages, id, title, Some(use), look, Passes, id);
    ReusedExactly(after, stages', id, title, Some(use'), look', fault);
  }

  // ---------------------------------------------------------------- one pipeline

  /** The stage is executed or reused: its hook ran, it has a runner, and there is no reason to skip it. */
  predicate Acts(turn: Turn) {
    turn.before && turn.known && !turn.skip
  }

  function Acting(turns: seq<Turn>): seq<Turn> {
    if |turns| == 0 then [] else (if Acts(turns[0]) then [turns[0]] else []) + Acting(turns[1..])
  }

  /** What the pipeline reports of a turn: the stage was executed with the offer due, or reused where one is due. */
  predicate Tells(e: Event, release: bool, turn: Turn) {
    && e.id == turn.id
    && (e.Ran? && turn.diffSafe && !release ==> e.offered == Some(turn.use))
    && (e.Ran? && (release || !turn.diffSafe) ==> e.offered == None)
    && (e.Reused? ==> turn.diffSafe && !release && e.use == turn.use && e.look == turn.look)
  }

  /** These events tell of these turns, one by one. */
  predicate TellAll(events: seq<Event>, release: bool, turns: seq<Turn>) {
    |events| == |turns| && forall k | 0 <= k < |events| :: Tells(events[k], release, turns[k])
  }

  lemma OneTurnTells(release: bool, file: Option<Entries>, stages: seq<ReportStage>, turn: Turn)
    ensures var one := OneTurn(release, file, stages, turn);
            TellAll(one.events, release, Acting([turn])) && (one.returned ==> turn.before && turn.known)
  {
    assert [turn][1..] == [];
  }

  /** A pipeline goes on after a stage exactly if its hooks, its report and, where it is executed, its action succeed. */
  lemma GoesOnExactly(release: bool, file: Option<Entries>, stages: seq<ReportStage>, turn: Turn)
    ensures var one := OneTurn(release, file, stages, turn);
            one.returned <==>
              && turn.before && turn.known
              && if turn.skip then !turn.fault.Dies? && turn.fault != CompleteThrows
                 else && turn.after && |one.events| == 1
                      && if one.events[0].Ran? then one.events[0].outcome == Accepted
                         else !turn.fault.Dies? && turn.fault != CompleteThrows
  {
  }

  /** If nothing fails, every stage has its turn and the pipeline returns. */
  lemma {:induction false} FaultlessReturns(release: bool, file: Option<Entries>, stages: seq<ReportStage>, turns: seq<Turn>)
    requires forall i | 0 <= i < |turns| :: turns[i].before && turns[i].known && turns[i].after && turns[i].fault == Passes
    ensures RunTurns(release, file, stages, turns).returned
    decreases |turns|
  {
    if |turns| > 0 {
      var one := OneTurn(release, file, stages, turns[0]);
      assert one.returned;
      FaultlessReturns(release, one.file, one.stages, turns[1..]);
    }
  }

  lemma ActingCons(turns: seq<Turn>, n: nat)
    requires 0 < n <= |turns|
    ensures Acting(turns[..n]) == Acting([turns[0]]) + Acting(turns[1..][..n - 1])
  {
    assert turns[..n][0] == turns[0] && turns[..n][1..] == turns[1..][..n - 1];
    assert [turns[0]][1..] == [] && Acting([]) == [];
  }

  /**
   * A pipeline executes or reuses the acting stages of its first `n` turns, in order, each with the offer
   * due to it; all of them if it returns.
   */
  lemma {:induction false} PipelineTells(release: bool, file: Option<Entries>, stages: seq<ReportStage>, turns: seq<Turn>)
    returns (n: nat)
    ensures n <= |turns| && TellAll(RunTurns(release, file, stages, turns).events, release, Acting(turns[..n]))
    ensures RunTurns(release, file, stages, turns).returned ==> n == |turns|
    decreases |turns|
  {
    n := 0;
    if |turns| > 0 {
      var one := OneTurn(release, file, stages, turns[0]);
      OneTurnTells(release, file, stages, turns[0]);
      if one.returned {
        n := PipelineTells(release, one.file, one.stages, turns[1..]);
      }
      n := n + 1;
      ActingCons(turns, n);
      assert turns[1..][..0] == [];
    }
  }

  /** No turn offers the cache to this stage. */
  predicate NeverOffered(release: bool, turns: seq<Turn>, id: string) {
    release || forall i | 0 <= i < |turns| && turns[i].id == id :: !turns[i].diffSafe
  }

  /** A pipeline leaves the entry of such a stage as it was, unless the file is lost. */
  lemma {:induction false} EntryStays(release: bool, file: Option<Entries>, stages: seq<ReportStage>, turns: seq<Turn>, id: string)
    requires NeverOffered(release, turns, id)
    ensures var after := RunTurns(release, file, stages, turns).file; after == None || EntryOf(after, id) == EntryOf(file, id)
    decreases |turns|
  {
    if |turns| > 0 {
      var one := OneTurn(release, file, stages, turns[0]);
      OneTurnKeeps(release, file, stages, turns[0], id);
      if one.returned {
        EntryStays(release, one.file, one.stages, turns[1..], id);
      }
    }
  }

  /** A file is lost only with its process. */
  lemma OneTurnKeeps(release: bool, file: Option<Entries>, stages: seq<ReportStage>, turn: Turn, id: string)
    requires turn.id == id ==> release || !turn.diffSafe
    ensures var one := OneTurn(release, file, stages, turn);
            (one.file == None && !one.returned) || EntryOf(one.file, id) == EntryOf(file, id)
  {
  }

  // ---------------------------------------------------------------- every history of a cache file

  /** A pipeline runs over the file its predecessors left, with a fresh report, and its events are logged behind theirs. */
  lemma PipelinesFollow(happenings: seq<Happening>, release: bool, turns: seq<Turn>)
    ensures Play([]) == History(None, [])
    ensures var before, run := Play(happenings), RunTurns(release, Play(happenings).file, [], turns);
            Play(happenings + [Pipeline(release, turns)]) == History(run.file, before.log + run.events)
    ensures Play(happenings + [Lose]) == History(None, Play(happenings).log)
  {
    assert (happenings + [Pipeline(release, turns)])[..|happenings|] == happenings;
    assert (happenings + [Lose])[..|happenings|] == happenings;
  }

  /** The event tells of an acting turn of one of these pipelines. */
  predicate Stems(e: Event, happenings: seq<Happening>) {
    exists h, i | 0 <= h < |happenings| && happenings[h].Pipeline? && 0 <= i < |happenings[h].turns| ::
      Acts(happenings[h].turns[i]) && Tells(e, happenings[h].release, happenings[h].turns[i])
  }

  lemma {:induction false} ActingAreTurns(turns: seq<Turn>, k: nat)
    requires k < |Acting(turns)|
    ensures Acts(Acting(turns)[k]) && Acting(turns)[k] in turns
  {
    if Acts(turns[0]) {
      if k > 0 { ActingAreTurns(turns[1..], k - 1); }
    } else {
      ActingAreTurns(turns[1..], k);
    }
  }

  /** Over every history: whatever was reused or executed was a turn of a pipeline, with the offer due to it. */
  lemma {:induction false} EveryEventStems(happenings: seq<Happening>, n: nat)
    requires n < |Play(happenings).log|
    ensures Stems(Play(happenings).log[n], happenings)
    decreases |happenings|
  {
    var before, last := happenings[..|happenings| - 1], happenings[|happenings| - 1];
    var log := Play(before).log;
    if n < |log| {
      EveryEventStems(before, n);
      var h, i :| 0 <= h < |before| && before[h].Pipeline? && 0 <= i < |before[h].turns|
                  && Acts(before[h].turns[i]) && Tells(log[n], before[h].release, before[h].turns[i]);
      assert happenings[h] == before[h];
    } else {
      var m := PipelineTells(last.release, Play(before).file, [], last.turns);
      var turns := last.turns[..m];
      ActingAreTurns(turns, n - |log|);
      var i :| 0 <= i < |turns| && turns[i] == Acting(turns)[n - |log|];
      assert happenings[|happenings| - 1].turns[i] == turns[i];
    }
  }

  /** A stage that no pipeline may cache never gets an entry, and is executed, not reused, every time. */
  lemma {:induction false} NeverCached(happenings: seq<Happening>, id: string)
    requires forall h | 0 <= h < |happenings| && happenings[h].Pipeline? :: NeverOffered(happenings[h].release, happenings[h].turns, id)
    ensures id !in Loaded(Play(happenings).file)
    ensures forall e | e in Play(happenings).log && e.id == id :: e.Ran? && e.offered == None
    decreases |happenings|
  {
    if |happenings| > 0 {
      var before, last := happenings[..|happenings| - 1], happenings[|happenings| - 1];
      NeverCached(before, id);
      if last.Pipeline? {
        EntryStays(last.release, Play(before).file, [], last.turns, id);
      }
      forall e | e in Play(happenings).log && e.id == id ensures e.Ran? && e.offered == None {
        var n :| 0 <= n < |Play(happenings).log| && Play(happenings).log[n] == e;
        EveryEventStems(happenings, n);
      }
    }
  }
}
