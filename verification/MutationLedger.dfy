/**
 * The durable mutation ledger (api/src/lib/cross-system-mutations.ts): one row per
 * (operation type, idempotency key), updated field by field as a workflow advances.
 */
module MutationLedger {
  import opened Wrappers

  datatype Status = InProgress | Completed | Failed

  datatype Step =
    | Pending
    | UpstreamCreated
    | LocalLinked
    | LocalCommitted
    | SyncedUpstream
    | Audited
    | Completed
    | Failed

  /** Nothing reached, or nothing known to be: the steps no step order contains. */
  predicate Unreached(step: Step) {
    step == Step.Pending || step == Step.Failed
  }

  /** The steps a local-first operation can stand at before it is completed. */
  predicate Unfinished(step: Step) {
    Unreached(step) || step == Step.LocalCommitted || step == Step.SyncedUpstream
  }

  /** The steps a local-first operation can stand at. */
  predicate LocalFirstStep(step: Step) {
    Unfinished(step) || step == Step.Completed
  }

  /** The JSON documents stored in `metadata`, `result` and `last_error`. */
  datatype Json = Null | Bool(b: bool) | Number(n: int) | Text(s: string) | List(items: seq<Json>)

  type Record = map<string, Json>

  datatype Row = Row(
    operationType: string,
    idempotencyKey: string,
    status: Status,
    currentStep: Step,
    organizationId: Option<nat>,
    userId: Option<string>,
    metadata: Record,
    result: Record,
    lastError: Option<Record>,
    completedAt: bool)

  /** A progress write. An outer `None` is an absent field, which leaves its column alone. */
  datatype Progress = Progress(
    step: Step,
    status: Option<Status>,
    organizationId: Option<Option<nat>>,
    userId: Option<Option<string>>,
    result: Option<Record>,
    metadata: Option<Record>,
    lastError: Option<Option<Record>>,
    completed: bool)

  function Apply(row: Row, p: Progress): Row {
    row.(
      currentStep := p.step,
      status := p.status.GetOr(row.status),
      organizationId := p.organizationId.GetOr(row.organizationId),
      userId := p.userId.GetOr(row.userId),
      result := p.result.GetOr(row.result),
      metadata := p.metadata.GetOr(row.metadata),
      lastError := p.lastError.GetOr(row.lastError),
      completedAt := row.completedAt || p.completed)
  }

  /** The empty document is the column default and reads back as "no result". */
  function GetResult(row: Row): (r: Option<Record>)
    ensures r.None? <==> |row.result| == 0
    ensures r.Some? ==> r.value == row.result
  {
    if |row.result| > 0 then Some(row.result) else None
  }

  function FreshRow(operationType: string, idempotencyKey: string, organizationId: Option<nat>,
                    userId: Option<string>, metadata: Record): Row {
    Row(operationType, idempotencyKey, Status.InProgress, Step.Pending, organizationId, userId,
        metadata, map[], None, false)
  }

  predicate Matches(row: Row, operationType: string, idempotencyKey: string) {
    row.operationType == operationType && row.idempotencyKey == idempotencyKey
  }

  /** The ledger's UNIQUE(operation_type, idempotency_key) constraint. */
  ghost predicate UniqueKeys(rows: map<string, Row>) {
    forall i, j | i in rows && j in rows && Matches(rows[i], rows[j].operationType, rows[j].idempotencyKey) :: i == j
  }

  // ---------------------------------------------------------------- sequences of progress writes

  function ApplyAll(row: Row, writes: seq<Progress>): Row
    decreases |writes|
  {
    if |writes| == 0 then row else Apply(ApplyAll(row, writes[..|writes| - 1]), writes[|writes| - 1])
  }

  /** `value` is what the last write that had the field put there, or what was there if none had it. */
  ghost predicate LastWritten<T(!new)>(before: T, value: T, writes: seq<Progress>, field: Progress -> Option<T>) {
    || (value == before && forall i | 0 <= i < |writes| :: field(writes[i]).None?)
    || exists i | 0 <= i < |writes| ::
         field(writes[i]) == Some(value) && forall j | i < j < |writes| :: field(writes[j]).None?
  }

  lemma OneMoreWrite<T(!new)>(before: T, value: T, writes: seq<Progress>, last: Progress, field: Progress -> Option<T>)
    requires LastWritten(before, value, writes, field)
    ensures LastWritten(before, field(last).GetOr(value), writes + [last], field)
  {
    var all := writes + [last];
    assert all[|writes|] == last;
    assert forall i | 0 <= i < |writes| :: all[i] == writes[i];
    if field(last).None? && !(value == before && forall i | 0 <= i < |writes| :: field(writes[i]).None?) {
      var i :| 0 <= i < |writes| && field(writes[i]) == Some(value) && forall j | i < j < |writes| :: field(writes[j]).None?;
      assert field(all[i]) == Some(value);
    }
  }

  /** Columns show the last value written to them: an absent field never overwrites one. */
  lemma {:induction false} ColumnsShowLastWrites(row: Row, writes: seq<Progress>)
    ensures var after := ApplyAll(row, writes);
            && LastWritten(row.status, after.status, writes, (p: Progress) => p.status)
            && LastWritten(row.organizationId, after.organizationId, writes, (p: Progress) => p.organizationId)
            && LastWritten(row.userId, after.userId, writes, (p: Progress) => p.userId)
            && LastWritten(row.result, after.result, writes, (p: Progress) => p.result)
            && LastWritten(row.metadata, after.metadata, writes, (p: Progress) => p.metadata)
            && LastWritten(row.lastError, after.lastError, writes, (p: Progress) => p.lastError)
            && LastWritten(row.currentStep, after.currentStep, writes, (p: Progress) => Some(p.step))
    decreases |writes|
  {
    if |writes| > 0 {
      var front, last := writes[..|writes| - 1], writes[|writes| - 1];
      ColumnsShowLastWrites(row, front);
      assert writes == front + [last];
      var was := ApplyAll(row, front);
      OneMoreWrite(row.status, was.status, front, last, (p: Progress) => p.status);
      OneMoreWrite(row.organizationId, was.organizationId, front, last, (p: Progress) => p.organizationId);
      OneMoreWrite(row.userId, was.userId, front, last, (p: Progress) => p.userId);
      OneMoreWrite(row.result, was.result, front, last, (p: Progress) => p.result);
      OneMoreWrite(row.metadata, was.metadata, front, last, (p: Progress) => p.metadata);
      OneMoreWrite(row.lastError, was.lastError, front, last, (p: Progress) => p.lastError);
      OneMoreWrite(row.currentStep, was.currentStep, front, last, (p: Progress) => Some(p.step));
    }
  }

  /** The key never changes, and the completion time is set by the first write that completes. */
  lemma {:induction false} KeyAndCompletionStay(row: Row, writes: seq<Progress>)
    ensures var after := ApplyAll(row, writes);
            && (after.completedAt <==> row.completedAt || exists p :: p in writes && p.completed)
            && after.operationType == row.operationType && after.idempotencyKey == row.idempotencyKey
    decreases |writes|
  {
    if |writes| > 0 {
      KeyAndCompletionStay(row, writes[..|writes| - 1]);
      assert writes == writes[..|writes| - 1] + [writes[|writes| - 1]];
    }
  }

  /**
   * What is read back after any writes to a fresh row: a result exactly if the last result written
   * was not the empty document, and then that one.
   */
  lemma ResultReadsBack(row: Row, writes: seq<Progress>, result: Record)
    requires row.result == map[]
    ensures GetResult(ApplyAll(row, writes)) == Some(result)
            <==> result != map[] && LastWritten(map[], result, writes, (p: Progress) => p.result)
  {
    var field := (p: Progress) => p.result;
    ColumnsShowLastWrites(row, writes);
    OneLastValue(row.result, ApplyAll(row, writes).result, result, writes, field);
    assert |result| == 0 <==> result == map[];
  }

  lemma OneLastValue<T(!new)>(before: T, a: T, b: T, writes: seq<Progress>, field: Progress -> Option<T>)
    requires LastWritten(before, a, writes, field)
    ensures LastWritten(before, b, writes, field) <==> a == b
  {
  }

  class Ledger {
    var rows: map<string, Row>

    constructor ()
      ensures rows == map[]
    {
      rows := map[];
    }

    /**
     * Inserts a pending row unless the key is taken, then reads the row of that key back.
     * `newId` stands for the freshly generated row id.
     */
    method GetOrCreate(newId: string, operationType: string, idempotencyKey: string,
                       organizationId: Option<nat>, userId: Option<string>, metadata: Record)
      returns (id: string, row: Row)
      requires UniqueKeys(rows)
      requires newId !in rows
      modifies this
      ensures UniqueKeys(rows)
      ensures id in rows && row == rows[id] && row.operationType == operationType && row.idempotencyKey == idempotencyKey
      // A known key: nothing is written, whatever the other arguments say.
      ensures (exists i :: i in old(rows) && Matches(old(rows)[i], operationType, idempotencyKey))
        ==> rows == old(rows)
      // A new key: exactly one pending row without a result is added.
      ensures !(exists i :: i in old(rows) && Matches(old(rows)[i], operationType, idempotencyKey))
        ==> id == newId
            && rows == old(rows)[newId := FreshRow(operationType, idempotencyKey, organizationId, userId, metadata)]
            && row == Row(operationType, idempotencyKey, Status.InProgress, Step.Pending, organizationId, userId, metadata,
                          map[], None, false)
    {
      if !(exists i :: i in rows && Matches(rows[i], operationType, idempotencyKey)) {
        rows := rows[newId := FreshRow(operationType, idempotencyKey, organizationId, userId, metadata)];
        id := newId;
      } else {
        id :| id in rows && Matches(rows[id], operationType, idempotencyKey);
      }
      row := rows[id];
    }

    /** An UPDATE by id: a missing row is not an error, and no other row is touched. */
    method SetProgress(id: string, p: Progress)
      modifies this
      ensures rows == if id in old(rows) then old(rows)[id := Apply(old(rows)[id], p)] else old(rows)
    {
      if id in rows {
        rows := rows[id := Apply(rows[id], p)];
      }
    }
  }
}
