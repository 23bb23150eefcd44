/**
 * The verification stage cache, the stage report and the pipeline over them
 * (scripts/lib/verify-cache.ts, verify-report.ts, verify-runtime.ts, verification-stage-runners.ts).
 *
 * A cache file that is missing or cannot be read counts as empty. What a stage's action, the report
 * and cache writes and the hooks do is chosen by faults; the process may die at any point between
 * two effects, or half-way through writing the cache file.
 */
module StageCache {
  import opened Wrappers

  // ---------------------------------------------------------------- the cache

  datatype Artifact = Artifact(kind: string, path: string, required: Option<bool>)

  datatype Entry = Entry(artifacts: seq<Artifact>, cacheKey: string)

  type Entries = map<string, Entry>

  /** What one stage brings to the cache. */
  datatype CacheUse = CacheUse(key: string, artifacts: seq<Artifact>, validates: bool)

  /** The paths that exist, and the answer of the stage's own validation, when the cache is asked. */
  datatype Look = Look(existing: set<string>, valid: bool)

  predicate Present(artifacts: seq<Artifact>, existing: set<string>) {
    forall i | 0 <= i < |artifacts| :: artifacts[i].required == Some(false) || artifacts[i].path in existing
  }

  predicate Reusable(entries: Entries, id: string, use: CacheUse, look: Look) {
    && use.key != ""
    && id in entries
    && entries[id].cacheKey == use.key
    && Present(entries[id].artifacts, look.existing)
    && (use.validates ==> look.valid)
  }

  /** The entries read back from a file; `None` is a missing or unreadable one. */
  function Loaded(file: Option<Entries>): Entries {
    file.GetOr(map[])
  }

  class CacheFile {
    var contents: Option<Entries>

    constructor (contents: Option<Entries>)
      ensures this.contents == contents
    {
      this.contents := contents;
    }
  }

  class VerifyCache {
    const file: CacheFile
    var entries: Entries

    /** Memory and file hold the same entries. */
    ghost predicate Valid()
      reads this, file
    {
      entries == Loaded(file.contents)
    }

    constructor (file: CacheFile)
      ensures this.file == file && Valid()
    {
      this.file := file;
      this.entries := Loaded(file.contents);
    }

    method ShouldReuse(id: string, use: CacheUse, look: Look) returns (reuse: bool)
      ensures reuse == Reusable(entries, id, use, look)
      ensures reuse <==> && use.key != "" && id in entries && entries[id].cacheKey == use.key
                         && (forall i | 0 <= i < |entries[id].artifacts| && entries[id].artifacts[i].required != Some(false) ::
                               entries[id].artifacts[i].path in look.existing)
                         && (!use.validates || look.valid)
    {
      if use.key == "" || id !in entries || entries[id].cacheKey != use.key {
        return false;
      }
      var artifacts := entries[id].artifacts;
      for i := 0 to |artifacts|
        invariant forall k | 0 <= k < i :: artifacts[k].required == Some(false) || artifacts[k].path in look.existing
      {
        if artifacts[i].required != Some(false) && artifacts[i].path !in look.existing {
          return false;
        }
      }
      return !use.validates || look.valid;
    }

    method RememberPassedStage(id: string, use: CacheUse)
      requires Valid()
      modifies this, file
      ensures Valid() && file.contents == Stored(old(file.contents), id, use)
      ensures entries == old(entries)[id := Entry(use.artifacts, use.key)] && file.contents == Some(entries)
    {
      entries := entries[id := Entry(use.artifacts, use.key)];
      file.contents := Some(entries);
    }

    /** Only a stored entry is deleted and written out. */
    method ClearStage(id: string)
      requires Valid()
      modifies this, file
      ensures Valid() && file.contents == Cleared(old(file.contents), id)
      ensures entries.Keys == old(entries).Keys - {id} && forall other | other in entries :: entries[other] == old(entries)[other]
      ensures file.contents == if id in old(entries) then Some(entries) else old(file.contents)
    {
      if id !in entries {
        return;
      }
      entries := entries - {id};
      file.contents := Some(entries);
    }
  }

  function Stored(file: Option<Entries>, id: string, use: CacheUse): Option<Entries> {
    Some(Loaded(file)[id := Entry(use.artifacts, use.key)])
  }

  function Cleared(file: Option<Entries>, id: string): Option<Entries> {
    if id in Loaded(file) then Some(Loaded(file) - {id}) else file
  }

  // ---------------------------------------------------------------- the report

  datatype StageStatus = Pending | Running | Passed | Failed | Skipped

  datatype ReportStage = ReportStage(id: string, title: string, status: StageStatus, error: bool)

  /** The report with one stage set: the first of that id, or a new last one. */
  function Mark(stages: seq<ReportStage>, id: string, title: string, status: StageStatus): seq<ReportStage> {
    var stage := ReportStage(id, title, status, status == Failed);
    if |stages| == 0 then [stage]
    else if stages[0].id == id then [stage] + stages[1..]
    else [stages[0]] + Mark(stages[1..], id, title, status)
  }

  function StatusOf(stages: seq<ReportStage>, id: string): Option<StageStatus> {
    if |stages| == 0 then None else if stages[0].id == id then Some(stages[0].status) else StatusOf(stages[1..], id)
  }

  /** Marking a stage sets its status and no other's. */
  lemma {:induction false} MarkSetsOne(stages: seq<ReportStage>, id: string, title: string, status: StageStatus, other: string)
    ensures StatusOf(Mark(stages, id, title, status), other) == if other == id then Some(status) else StatusOf(stages, other)
  {
    if |stages| > 0 && stages[0].id != id {
      MarkSetsOne(stages[1..], id, title, status, other);
      assert Mark(stages, id, title, status)[1..] == Mark(stages[1..], id, title, status);
    } else if |stages| > 0 {
      assert Mark(stages, id, title, status)[1..] == stages[1..];
    }
  }

  lemma {:induction false} MarkAt(stages: seq<ReportStage>, id: string, title: string, status: StageStatus, i: nat)
    requires i <= |stages| && forall k | 0 <= k < i :: stages[k].id != id
    requires i < |stages| ==> stages[i].id == id
    ensures var stage := ReportStage(id, title, status, status == Failed);
            Mark(stages, id, title, status) == if i < |stages| then stages[i := stage] else stages + [stage]
  {
    if i > 0 {
      MarkAt(stages[1..], id, title, status, i - 1);
    }
  }

  class Reporter {
    var stages: seq<ReportStage>

    constructor ()
      ensures stages == []
    {
      stages := [];
    }

    /** The position of a stage, which is appended as pending when the report does not have it. */
    method GetOrCreateStage(id: string, title: string) returns (at: nat)
      modifies this
      ensures at <= |old(stages)| && forall k | 0 <= k < at :: old(stages)[k].id != id
      ensures at < |old(stages)| ==> old(stages)[at].id == id && stages == old(stages)[at := old(stages)[at].(title := title)]
      ensures at == |old(stages)| ==> stages == old(stages) + [ReportStage(id, title, Pending, false)]
    {
      at := 0;
      while at < |stages| && stages[at].id != id
        invariant at <= |stages| && stages == old(stages)
        invariant forall k | 0 <= k < at :: stages[k].id != id
      {
        at := at + 1;
      }
      if at == |stages| {
        stages := stages + [ReportStage(id, title, Pending, false)];
      } else {
        stages := stages[at := stages[at].(title := title)];
      }
    }

    /** startStage, completeStage, failStage and skipStage, told apart by the status they set. */
    method SetStage(id: string, title: string, status: StageStatus)
      modifies this
      ensures stages == Mark(old(stages), id, title, status)
    {
      var at := GetOrCreateStage(id, title);
      MarkAt(old(stages), id, title, status, at);
      stages := stages[at := stages[at].(status := status, error := status == Failed)];
    }
  }

  // ---------------------------------------------------------------- one stage

  datatype Point = AtStart | AfterAction(passed: bool) | WhileWriting(passed: bool) | AfterWriting(passed: bool)

  /**
   * What happens to a stage: its action passes or fails, writing the report or the cache after a
   * passing action throws, or the process dies.
   */
  datatype Fault = Passes | Fails | CompleteThrows | RememberThrows | Dies(at: Point)

  datatype RunOutcome = Accepted | Rejected | CutShort(passed: bool)

  /** What a stage's run did: skipped as cached, or executed. */
  datatype Event =
    | Reused(id: string, use: CacheUse, look: Look)
    | Ran(id: string, offered: Option<CacheUse>, outcome: RunOutcome)

  datatype StageRun = StageRun(file: Option<Entries>, stages: seq<ReportStage>, event: Event, returned: bool)

  predicate Remembers(use: Option<CacheUse>) {
    use.Some? && use.value.key != ""
  }

  /** Without a write to the cache, none can throw. */
  function Effective(use: Option<CacheUse>, fault: Fault): Fault {
    if fault == RememberThrows && !Remembers(use) then Passes else fault
  }

  function StoredIf(file: Option<Entries>, id: string, use: Option<CacheUse>): Option<Entries> {
    if Remembers(use) then Stored(file, id, use.value) else file
  }

  function ClearedIf(file: Option<Entries>, id: string, use: Option<CacheUse>): Option<Entries> {
    if use.Some? then Cleared(file, id) else file
  }

  predicate Writes(file: Option<Entries>, id: string, use: Option<CacheUse>, passed: bool) {
    if passed then Remembers(use) else use.Some? && id in Loaded(file)
  }

  function FileAfter(file: Option<Entries>, id: string, use: Option<CacheUse>, fault: Fault): Option<Entries> {
    match fault
    case Passes => StoredIf(file, id, use)
    case Fails => ClearedIf(file, id, use)
    case CompleteThrows => ClearedIf(file, id, use)
    case RememberThrows => ClearedIf(StoredIf(file, id, use), id, use)
    case Dies(AtStart) => file
    case Dies(AfterAction(_)) => file
    case Dies(WhileWriting(passed)) => if Writes(file, id, use, passed) then None else file
    case Dies(AfterWriting(passed)) => if passed then StoredIf(file, id, use) else ClearedIf(file, id, use)
  }

  function OutcomeOf(fault: Fault): RunOutcome {
    match fault
    case Passes => Accepted
    case Fails => Rejected
    case CompleteThrows => Rejected
    case RememberThrows => Rejected
    case Dies(AtStart) => CutShort(false)
    case Dies(at) => CutShort(at.passed)
  }

  function StatusAfter(fault: Fault): StageStatus {
    match OutcomeOf(fault)
    case Accepted => Passed
    case Rejected => Failed
    case CutShort(_) => Running
  }

  /** runReportedStage. A death leaves no report behind; its stage counts as still running. */
  function RunStage(file: Option<Entries>, stages: seq<ReportStage>, id: string, title: string, use: Option<CacheUse>,
                    look: Look, fault: Fault): StageRun
  {
    if use.Some? && Reusable(Loaded(file), id, use.value, look) then
      StageRun(file, Mark(stages, id, title, Skipped), Reused(id, use.value, look), !fault.Dies? && fault != CompleteThrows)
    else
      var effective := Effective(use, fault);
      var started := Mark(stages, id, title, Running);
      StageRun(FileAfter(file, id, use, effective),
               if effective.Dies? then started else Mark(started, id, title, StatusAfter(effective)),
               Ran(id, use, OutcomeOf(effective)), effective == Passes)
  }

  /** `cache` is null where the stage cache is not enabled. */
  method RunReportedStage(reporter: Reporter, cache: VerifyCache?, id: string, title: string, use: CacheUse, look: Look, fault: Fault)
    returns (event: Event, returned: bool)
    requires cache != null ==> cache.Valid()
    modifies reporter, cache, if cache == null then {} else {cache.file}
    ensures var run := RunStage(if cache == null then None else old(cache.file.contents), old(reporter.stages), id, title,
                                if cache == null then None else Some(use), look, fault);
            && reporter.stages == run.stages && event == run.event && returned == run.returned
            && (cache != null ==> cache.file.contents == run.file)
  {
    var reuse := false;
    if cache != null {
      reuse := cache.ShouldReuse(id, use, look);
    }
    if reuse {
      reporter.SetStage(id, title, Skipped);
      return Reused(id, use, look), !fault.Dies? && fault != CompleteThrows;
    }
    var offered := if cache == null then None else Some(use);
    var effective := Effective(offered, fault);
    event := Ran(id, offered, OutcomeOf(effective));
    returned := effective == Passes;
    reporter.SetStage(id, title, Running);
    ghost var started := reporter.stages;
    if effective.Dies? {
      if cache != null {
        if effective.at.WhileWriting? && Writes(cache.file.contents, id, offered, effective.at.passed) {
          cache.file.contents := None;
        } else if effective.at.AfterWriting? && effective.at.passed && use.key != "" {
          cache.RememberPassedStage(id, use);
        } else if effective.at.AfterWriting? && !effective.at.passed {
          cache.ClearStage(id);
        }
      }
      return;
    }
    var threw := effective == Fails;
    if !threw {
      reporter.SetStage(id, title, Passed);
      MarkTwice(started, id, title, Passed, Failed);
      threw := effective == CompleteThrows;
      if !threw && cache != null && use.key != "" {
        cache.RememberPassedStage(id, use);
        threw := effective == RememberThrows;
      }
    }
    if threw {
      reporter.SetStage(id, title, Failed);
      if cache != null {
        cache.ClearStage(id);
      }
    }
  }

  lemma {:induction false} MarkTwice(stages: seq<ReportStage>, id: string, title: string, first: StageStatus, second: StageStatus)
    ensures Mark(Mark(stages, id, title, first), id, title, second) == Mark(stages, id, title, second)
  {
    if |stages| > 0 && stages[0].id != id {
      MarkTwice(stages[1..], id, title, first, second);
      assert Mark(stages, id, title, first)[1..] == Mark(stages[1..], id, title, first);
    }
  }
}
