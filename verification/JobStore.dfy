/** The durable job table and the adapter operations on it. */
module JobStore {
  import opened Seqs

  datatype JobId = JobId(name: string)

  datatype Status = Submitted | Running | Completed | Failed | Interrupted

  predicate Terminal(s: Status)
  {
    s.Completed? || s.Failed? || s.Interrupted?
  }

  // What one invocation of the target capability ended in.
  datatype Outcome = Succeeded(result: string) | Unsuccessful(error: string)

  datatype Row = Row(capability: string, status: Status, success: Option<bool>, result: Option<string>,
                     error: Option<string>)

  type Table = map<JobId, Row>

  // ---- The SQL statements as functions of the table ------------------------------------

  /** UPDATE ... WHERE status IN ('submitted', 'running'). */
  function Reconciled(t: Table): (r: Table)
    ensures r.Keys == t.Keys
    ensures forall id :: id in t ==> Terminal(r[id].status)
    ensures forall id :: id in t && Terminal(t[id].status) ==> r[id] == t[id]
    ensures forall id :: id in t && !Terminal(t[id].status) ==> r[id].status.Interrupted?
  {
    map id | id in t ::
      if Terminal(t[id].status) then t[id]
      else t[id].(status := Interrupted, error := Some("host restarted before completion"))
  }

  /** The unguarded updates: they touch the row whatever its status, or nothing if it is missing. */
  function MarkedRunning(t: Table, id: JobId): Table
  {
    if id in t then t[id := t[id].(status := Running)] else t
  }

  function DoneRow(row: Row, outcome: Outcome): Row
  {
    match outcome
    case Succeeded(v) => row.(status := Completed, success := Some(true), result := Some(v), error := None)
    case Unsuccessful(e) => row.(status := Failed, success := Some(false), result := None, error := Some(e))
  }

  function MarkedDone(t: Table, id: JobId, outcome: Outcome): Table
  {
    if id in t then t[id := DoneRow(t[id], outcome)] else t
  }

  function Unfinished(t: Table): set<JobId>
  {
    set id | id in t && !Terminal(t[id].status)
  }

  // ---- The store object ------------------------------------------------------------------

  // What `result` answers a poller.
  datatype Answer =
    | UnknownJob
    | NotReady(status: Status)
    | Ready(status: Status, success: Option<bool>, result: Option<string>, error: Option<string>)

  function AnswerFor(t: Table, id: JobId): Answer
  {
    if id !in t then UnknownJob
    else if t[id].status.Submitted? || t[id].status.Running? then NotReady(t[id].status)
    else Ready(t[id].status, t[id].success, t[id].result, t[id].error)
  }

  class Store {
    var rows: Table

    /** Returns the number of rows turned into interrupted ones. */
    method ReconcileInterrupted() returns (count: nat)
      modifies this
      ensures rows == Reconciled(old(rows))
      ensures rows.Keys == old(rows).Keys
      ensures forall id :: id in old(rows) && old(rows)[id].status in {Submitted, Running} ==>
                rows[id] == Row(old(rows)[id].capability, Interrupted, old(rows)[id].success, old(rows)[id].result,
                                Some("host restarted before completion"))
      ensures forall id :: id in old(rows) && old(rows)[id].status !in {Submitted, Running} ==>
                rows[id] == old(rows)[id]
      ensures count == |Unfinished(old(rows))|
      ensures count == |set id | id in rows && rows[id] != old(rows)[id]|
    {
      count := |Unfinished(rows)|;
      rows := Reconciled(rows);
      assert (set id | id in rows && rows[id] != old(rows)[id]) == Unfinished(old(rows));
    }

    /** False when the primary key already exists: the insert raises and nothing changes. */
    method Create(id: JobId, capability: string) returns (created: bool)
      modifies this
      ensures created <==> id !in old(rows)
      ensures created ==> rows == old(rows)[id := Row(capability, Submitted, None, None, None)]
      ensures !created ==> rows == old(rows)
    {
      created := id !in rows;
      if created {
        rows := rows[id := Row(capability, Submitted, None, None, None)];
      }
    }

    /** Whatever the row's status was, it is running now, and nothing else in the table changes. */
    method MarkRunning(id: JobId)
      modifies this
      ensures rows == MarkedRunning(old(rows), id)
      ensures rows.Keys == old(rows).Keys
      ensures forall other :: other in rows && other != id ==> rows[other] == old(rows)[other]
      ensures id in rows ==>
                && rows[id].status == Running && rows[id].capability == old(rows)[id].capability
                && rows[id].success == old(rows)[id].success && rows[id].result == old(rows)[id].result
                && rows[id].error == old(rows)[id].error
    {
      if id in rows {
        rows := rows[id := rows[id].(status := Running)];
      }
    }

    /** Whatever the row's status was, it is terminal now and shows this outcome and no trace of another. */
    method MarkDone(id: JobId, outcome: Outcome)
      modifies this
      ensures rows == MarkedDone(old(rows), id, outcome)
      ensures rows.Keys == old(rows).Keys
      ensures forall other :: other in rows && other != id ==> rows[other] == old(rows)[other]
      ensures id in rows && outcome.Succeeded? ==>
                rows[id] == Row(old(rows)[id].capability, Completed, Some(true), Some(outcome.result), None)
      ensures id in rows && outcome.Unsuccessful? ==>
                rows[id] == Row(old(rows)[id].capability, Failed, Some(false), None, Some(outcome.error))
    {
      if id in rows {
        rows := rows[id := DoneRow(rows[id], outcome)];
      }
    }

    /** A poller is told "ready" exactly for rows in a terminal status. */
    method Result(id: JobId) returns (answer: Answer)
      ensures answer == AnswerFor(rows, id)
      ensures answer == UnknownJob <==> id !in rows
      ensures id in rows && rows[id].status in {Submitted, Running} ==> answer == NotReady(rows[id].status)
      ensures id in rows && rows[id].status in {Completed, Failed, Interrupted} ==>
                answer == Ready(rows[id].status, rows[id].success, rows[id].result, rows[id].error)
    {
      if id !in rows {
        return UnknownJob;
      }
      var row := rows[id];
      if row.status == Submitted || row.status == Running {
        return NotReady(row.status);
      }
      return Ready(row.status, row.success, row.result, row.error);
    }

    /** One job from start to finish, `outcome` being how the invocation ends or what it raised. */
    method RunJob(id: JobId, outcome: Outcome)
      modifies this
      ensures rows == MarkedDone(old(rows), id, outcome)
      ensures id in old(rows) ==>
                AnswerFor(rows, id) == match outcome
                                       case Succeeded(v) => Ready(Completed, Some(true), Some(v), None)
                                       case Unsuccessful(e) => Ready(Failed, Some(false), None, Some(e))
      ensures forall other :: other in old(rows) && other != id ==> other in rows && rows[other] == old(rows)[other]
    {
      MarkRunning(id);
      MarkDone(id, outcome);
    }
  }
}
