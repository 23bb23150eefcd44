/**
 * Whole verification pipelines over the stage cache, and what the cache is worth over any number of
 * runs (scripts/lib/verification-stage-runners.ts:65-94, 410-472).
 */
module StagePipelines {
  import opened Wrappers
  import opened StageCache

  // ---------------------------------------------------------------- one pipeline

  /**
   * A stage's turn in a pipeline: its catalog entry (`diffSafe`: the catalog lets it be cached), what
   * its runner makes of it (`known`: there is such a runner; `skip`: it gives a reason to skip), and
   * what happens to it (`before`, `after`: its hooks all succeed).
   */
  datatype Turn = Turn(id: string, title: string, diffSafe: bool, known: bool, skip: bool, use: CacheUse, look: Look,
                       before: bool, fault: Fault, after: bool)

  datatype PipelineRun = PipelineRun(file: Option<Entries>, stages: seq<ReportStage>, events: seq<Event>, returned: bool)

  /** isStageCacheEnabled: in release mode nothing is cached. */
  predicate IsStageCacheEnabled(release: bool, turn: Turn) {
    !release && turn.diffSafe
  }

  function Offered(release: bool, turn: Turn): Option<CacheUse> {
    if IsStageCacheEnabled(release, turn) then Some(turn.use) else None
  }

  function RunOf(release: bool, file: Option<Entries>, stages: seq<ReportStage>, turn: Turn): StageRun {
    RunStage(file, stages, turn.id, turn.title, Offered(release, turn), turn.look, turn.fault)
  }

  predicate ReportHolds(turn: Turn) {
    !turn.fault.Dies? && turn.fault != CompleteThrows
  }

  /** One stage's turn; `returned` says whether the pipeline goes on. */
  function OneTurn(release: bool, file: Option<Entries>, stages: seq<ReportStage>, turn: Turn): PipelineRun {
    if !turn.before || !turn.known then PipelineRun(file, stages, [], false)
    else if turn.skip then PipelineRun(file, Mark(stages, turn.id, turn.title, Skipped), [], ReportHolds(turn))
    else
      var run := RunOf(release, file, stages, turn);
      PipelineRun(run.file, run.stages, [run.event], run.returned && turn.after)
  }

  /** The stages of a pipeline in turn; the first that throws or dies ends it. */
  function RunTurns(release: bool, file: Option<Entries>, stages: seq<ReportStage>, turns: seq<Turn>): PipelineRun
    decreases |turns|
  {
    if |turns| == 0 then PipelineRun(file, stages, [], true)
    else
      var one := OneTurn(release, file, stages, turns[0]);
      if one.returned then After(one.events, RunTurns(release, one.file, one.stages, turns[1..])) else one
  }

  function After(events: seq<Event>, run: PipelineRun): PipelineRun {
    run.(events := events + run.events)
  }

  lemma NextTurn(release: bool, file: Option<Entries>, stages: seq<ReportStage>, turns: seq<Turn>, i: nat, events: seq<Event>)
    requires i < |turns|
    ensures var one := OneTurn(release, file, stages, turns[i]);
            After(events, RunTurns(release, file, stages, turns[i..]))
            == if one.returned then After(events + one.events, RunTurns(release, one.file, one.stages, turns[i + 1..]))
               else After(events, one)
  {
    assert turns[i..][0] == turns[i] && turns[i..][1..] == turns[i + 1..];
  }

  /** The body of the pipeline's loop. */
  method TakeTurn(release: bool, turn: Turn, reporter: Reporter, file: CacheFile) returns (events: seq<Event>, goesOn: bool)
    modifies reporter, file
    ensures OneTurn(release, old(file.contents), old(reporter.stages), turn)
            == PipelineRun(file.contents, reporter.stages, events, goesOn)
  {
    if !turn.before || !turn.known {
      return [], false;
    }
    if turn.skip {
      reporter.SetStage(turn.id, turn.title, Skipped);
      return [], ReportHolds(turn);
    }
    var cache: VerifyCache? := null;
    if !release && turn.diffSafe {
      cache := new VerifyCache(file);
    }
    var event, returned := RunReportedStage(reporter, cache, turn.id, turn.title, turn.use, turn.look, turn.fault);
    return [event], returned && turn.after;
  }

  /** `turns` is the catalog's pipeline of the scope, `None` for an unknown scope. */
  method RunVerificationPipeline(release: bool, turns: Option<seq<Turn>>, beforeAll: bool, reporter: Reporter, file: CacheFile)
    returns (events: seq<Event>, returned: bool)
    modifies reporter, file
    ensures PipelineRun(file.contents, reporter.stages, events, returned)
            == if turns.Some? && beforeAll then RunTurns(release, old(file.contents), old(reporter.stages), turns.value)
               else PipelineRun(old(file.contents), old(reporter.stages), [], false)
  {
    events, returned := [], false;
    if turns.None? || !beforeAll {
      return;
    }
    ghost var whole := RunTurns(release, file.contents, reporter.stages, turns.value);
    for i := 0 to |turns.value|
      invariant whole == After(events, RunTurns(release, file.contents, reporter.stages, turns.value[i..]))
    {
      NextTurn(release, file.contents, reporter.stages, turns.value, i, events);
      var added, goesOn := TakeTurn(release, turns.value[i], reporter, file);
      events := events + added;
      if !goesOn {
        return;
      }
    }
    returned := true;
  }

  // ---------------------------------------------------------------- a pipeline that returns

  predicate Distinct(turns: seq<Turn>) {
    forall i, j | 0 <= i < j < |turns| :: turns[i].id != turns[j].id
  }

  /** How a stage stands in the report after a pipeline that returned. */
  predicate Accounted(run: PipelineRun, release: bool, turn: Turn) {
    var status := StatusOf(run.stages, turn.id);
    || (turn.skip && status == Some(Skipped))
    || (!turn.skip && Ran(turn.id, Offered(release, turn), Accepted) in run.events && status == Some(Passed))
    || (!turn.skip && Offered(release, turn).Some? && Reused(turn.id, turn.use, turn.look) in run.events && status == Some(Skipped))
  }

  lemma StageMarks(release: bool, file: Option<Entries>, stages: seq<ReportStage>, turn: Turn, id: string)
    ensures var run := RunOf(release, file, stages, turn);
            && (id != turn.id ==> StatusOf(run.stages, id) == StatusOf(stages, id))
            && (run.returned ==> StatusOf(run.stages, turn.id) == Some(if run.event.Reused? then Skipped else Passed))
            && (run.event.Ran? && run.event.outcome == Rejected ==> StatusOf(run.stages, turn.id) == Some(Failed))
  {
    var started := Mark(stages, turn.id, turn.title, Running);
    MarkSetsOne(stages, turn.id, turn.title, Skipped, id);
    MarkSetsOne(stages, turn.id, turn.title, Running, id);
    MarkSetsOne(started, turn.id, turn.title, Passed, id);
    MarkSetsOne(started, turn.id, turn.title, Failed, id);
    MarkSetsOne(stages, turn.id, turn.title, Skipped, turn.id);
    MarkSetsOne(started, turn.id, turn.title, Passed, turn.id);
    MarkSetsOne(started, turn.id, turn.title, Failed, turn.id);
  }

  lemma {:induction false} OtherStagesStay(release: bool, file: Option<Entries>, stages: seq<ReportStage>, turns: seq<Turn>, id: string)
    requires forall i | 0 <= i < |turns| :: turns[i].id != id
    ensures StatusOf(RunTurns(release, file, stages, turns).stages, id) == StatusOf(stages, id)
    decreases |turns|
  {
    if |turns| > 0 {
      var turn, one := turns[0], OneTurn(release, file, stages, turns[0]);
      MarkSetsOne(stages, turn.id, turn.title, Skipped, id);
      StageMarks(release, file, stages, turn, id);
      OtherStagesStay(release, one.file, one.stages, turns[1..], id);
    }
  }

  /**
   * A pipeline that returns has every stage skipped for its reason, executed and passed in this very
   * run, or reused from the cache.
   */
  lemma {:induction false} ReturningPipelineAccounts(release: bool, file: Option<Entries>, stages: seq<ReportStage>,
                                                         turns: seq<Turn>, i: nat)
    requires Distinct(turns) && i < |turns| && RunTurns(release, file, stages, turns).returned
    ensures Accounted(RunTurns(release, file, stages, turns), release, turns[i])
    decreases |turns|
  {
    var turn, one := turns[0], OneTurn(release, file, stages, turns[0]);
    if i > 0 {
      ReturningPipelineAccounts(release, one.file, one.stages, turns[1..], i - 1);
    } else {
      OtherStagesStay(release, one.file, one.stages, turns[1..], turn.id);
      MarkSetsOne(stages, turn.id, turn.title, Skipped, turn.id);
      StageMarks(release, file, stages, turn, turn.id);
      assert !turn.skip ==> RunTurns(release, file, stages, turns).events[0] == one.events[0];
    }
  }

  /** In release mode nothing is reused and the cache file is left alone: what passed was executed. */
  lemma {:induction false} ReleaseReusesNothing(file: Option<Entries>, stages: seq<ReportStage>, turns: seq<Turn>)
    ensures var run := RunTurns(true, file, stages, turns);
            run.file == file && forall e :: e in run.events ==> e.Ran? && e.offered == None
    decreases |turns|
  {
    if |turns| > 0 {
      ReleaseReusesNothing(file, OneTurn(true, file, stages, turns[0]).stages, turns[1..]);
    }
  }

  // ---------------------------------------------------------------- histories of a cache file

  /** What happens to a cache file: a pipeline runs over it, or it is deleted or damaged from outside. */
  datatype Happening = Pipeline(release: bool, turns: seq<Turn>) | Lose

  datatype History = History(file: Option<Entries>, log: seq<Event>)

  function Extend(h: History, happening: Happening): History {
    match happening
    case Pipeline(release, turns) =>
      var run := RunTurns(release, h.file, [], turns);
      History(run.file, h.log + run.events)
    case Lose => History(None, h.log)
  }

  function Play(happenings: seq<Happening>): History
    decreases |happenings|
  {
    if |happenings| == 0 then History(None, [])
    else Extend(Play(happenings[..|happenings| - 1]), happenings[|happenings| - 1])
  }

  /** An execution that may have left this entry: it passed under the entry's key, with its artifacts. */
  predicate Leaves(e: Event, id: string, entry: Entry) {
    && e.Ran? && e.id == id && Remembers(e.offered)
    && e.offered.value == CacheUse(entry.cacheKey, entry.artifacts, e.offered.value.validates)
    && (e.outcome == Accepted || e.outcome == CutShort(true))
  }

  /** An execution with the cache that ran to its end: a failure, or a pass that was remembered. */
  predicate Settles(e: Event, id: string) {
    && e.Ran? && e.id == id && e.offered.Some?
    && (e.outcome == Rejected || (e.outcome == Accepted && e.offered.value.key != ""))
  }

  predicate LeftAt(log: seq<Event>, n: nat, id: string, entry: Entry, k: int)
    requires n <= |log|
  {
    0 <= k < n && Leaves(log[k], id, entry) && forall l | k < l < n :: !Settles(log[l], id)
  }

  /** Some execution left the entry, and none that ran to its end came after it. */
  predicate Backed(log: seq<Event>, n: nat, id: string, entry: Entry)
    requires n <= |log|
  {
    exists k | 0 <= k < n :: LeftAt(log, n, id, entry, k)
  }

  /**
   * A reuse at `n` is justified: an earlier execution with the same key passed, no later one failed or
   * was remembered, its required artifacts exist now and the stage's validation holds now.
   */
  predicate Justified(log: seq<Event>, n: nat)
    requires n < |log| && log[n].Reused?
  {
    var use, look := log[n].use, log[n].look;
    use.key != "" && (use.validates ==> look.valid)
    && exists k | 0 <= k < n ::
         && log[k].Ran? && log[k].offered.Some?
         && LeftAt(log, n, log[n].id, Entry(log[k].offered.value.artifacts, use.key), k)
         && Present(log[k].offered.value.artifacts, look.existing)
  }

  ghost predicate Sound(h: History) {
    && (forall id | id in Loaded(h.file) :: Backed(h.log, |h.log|, id, Loaded(h.file)[id]))
    && (forall n | 0 <= n < |h.log| && h.log[n].Reused? :: Justified(h.log, n))
  }

  lemma BackedStays(log: seq<Event>, e: Event, n: nat, id: string, entry: Entry)
    requires n <= |log| && Backed(log, n, id, entry)
    ensures Backed(log + [e], n, id, entry)
    ensures n == |log| && !Settles(e, id) ==> Backed(log + [e], n + 1, id, entry)
  {
    var k :| 0 <= k < n && LeftAt(log, n, id, entry, k);
    assert LeftAt(log + [e], n, id, entry, k);
    if n == |log| && !Settles(e, id) {
      assert LeftAt(log + [e], n + 1, id, entry, k);
    }
  }

  lemma LeftIsBacked(log: seq<Event>, e: Event, id: string, entry: Entry)
    requires Leaves(e, id, entry)
    ensures Backed(log + [e], |log| + 1, id, entry)
  {
    assert LeftAt(log + [e], |log| + 1, id, entry, |log|);
  }

  lemma JustifiedStays(log: seq<Event>, e: Event, n: nat)
    requires n < |log| && log[n].Reused? && Justified(log, n)
    ensures (log + [e])[n] == log[n] && Justified(log + [e], n)
  {
    var k :| && 0 <= k < n && log[k].Ran? && log[k].offered.Some?
             && LeftAt(log, n, log[n].id, Entry(log[k].offered.value.artifacts, log[n].use.key), k)
             && Present(log[k].offered.value.artifacts, log[n].look.existing);
    assert LeftAt(log + [e], n, log[n].id, Entry(log[k].offered.value.artifacts, log[n].use.key), k);
  }

  lemma ReuseIsJustified(log: seq<Event>, entries: Entries, id: string, use: CacheUse, look: Look)
    requires Reusable(entries, id, use, look) && Backed(log, |log|, id, entries[id])
    ensures Justified(log + [Reused(id, use, look)], |log|)
  {
    var e := Reused(id, use, look);
    BackedStays(log, e, |log|, id, entries[id]);
    var k :| 0 <= k < |log| && LeftAt(log + [e], |log|, id, entries[id], k);
    assert Entry((log + [e])[k].offered.value.artifacts, use.key) == entries[id];
  }

  /** Every entry after an execution was there before it and not settled by it, or was left by it. */
  lemma EntriesAfter(file: Option<Entries>, id: string, use: CacheUse, fault: Fault, other: string)
    requires other in Loaded(FileAfter(file, id, Some(use), Effective(Some(use), fault)))
    ensures var effective := Effective(Some(use), fault);
            var e := Ran(id, Some(use), OutcomeOf(effective));
            var entry := Loaded(FileAfter(file, id, Some(use), effective))[other];
            Leaves(e, other, entry) || (!Settles(e, other) && other in Loaded(file) && Loaded(file)[other] == entry)
  {
  }

  lemma StageKeepsSound(h: History, release: bool, stages: seq<ReportStage>, turn: Turn)
    requires Sound(h)
    ensures var run := RunOf(release, h.file, stages, turn); Sound(History(run.file, h.log + [run.event]))
  {
    var run, offered := RunOf(release, h.file, stages, turn), Offered(release, turn);
    var e, log := run.event, h.log + [run.event];
    forall n | 0 <= n < |h.log| && h.log[n].Reused? ensures Justified(log, n) {
      JustifiedStays(h.log, e, n);
    }
    if e.Reused? {
      ReuseIsJustified(h.log, Loaded(h.file), turn.id, turn.use, turn.look);
    }
    forall id | id in Loaded(run.file) ensures Backed(log, |log|, id, Loaded(run.file)[id]) {
      if offered.Some? && e.Ran? {
        EntriesAfter(h.file, turn.id, turn.use, turn.fault, id);
      }
      if Leaves(e, id, Loaded(run.file)[id]) {
        LeftIsBacked(h.log, e, id, Loaded(run.file)[id]);
      } else {
        BackedStays(h.log, e, |h.log|, id, Loaded(run.file)[id]);
      }
    }
  }

  lemma TurnKeepsSound(h: History, release: bool, stages: seq<ReportStage>, turn: Turn)
    requires Sound(h)
    ensures var one := OneTurn(release, h.file, stages, turn); Sound(History(one.file, h.log + one.events))
  {
    assert h.log + [] == h.log;
    StageKeepsSound(h, release, stages, turn);
  }

  lemma {:induction false} TurnsKeepSound(h: History, release: bool, stages: seq<ReportStage>, turns: seq<Turn>)
    requires Sound(h)
    ensures var run := RunTurns(release, h.file, stages, turns); Sound(History(run.file, h.log + run.events))
    decreases |turns|
  {
    assert h.log + [] == h.log;
    if |turns| > 0 {
      var one := OneTurn(release, h.file, stages, turns[0]);
      TurnKeepsSound(h, release, stages, turns[0]);
      if one.returned {
        TurnsKeepSound(History(one.file, h.log + one.events), release, one.stages, turns[1..]);
        AppendTwice(h.log, one.events, RunTurns(release, one.file, one.stages, turns[1..]).events);
      }
    }
  }

  lemma AppendTwice(log: seq<Event>, a: seq<Event>, b: seq<Event>)
    ensures log + (a + b) == log + a + b
  {
  }

  lemma {:induction false} EveryHistoryIsSound(happenings: seq<Happening>)
    ensures Sound(Play(happenings))
    decreases |happenings|
  {
    if |happenings| > 0 {
      var before := happenings[..|happenings| - 1];
      EveryHistoryIsSound(before);
      if happenings[|happenings| - 1].Pipeline? {
        TurnsKeepSound(Play(before), happenings[|happenings| - 1].release, [], happenings[|happenings| - 1].turns);
      }
    }
  }

  /** Over every sequence of pipelines, stopped anywhere, and losses of the file, every reuse is justified. */
  lemma EveryReuseIsJustified(happenings: seq<Happening>, n: nat)
    requires n < |Play(happenings).log| && Play(happenings).log[n].Reused?
    ensures Justified(Play(happenings).log, n)
  {
    EveryHistoryIsSound(happenings);
  }
}
