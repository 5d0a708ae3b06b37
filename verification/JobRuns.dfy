/**
 * Every run of submit, start, finish, crash and restart, with one live process on the
 * store file: the steps of the submitting coroutines, the pool's queue and its workers.
 */
module JobRuns {
  import opened Seqs
  import opened JobStore

  // Where a pool thread stands in one job.
  datatype Worker =
    | Taken                          // off the queue, row still "submitted"
    | Marked                         // row committed as "running"
    | Executing                      // the target capability has been invoked
    | Reporting(outcome: Outcome)    // it returned; the final update is next
    | Recovering(error: string)      // something raised; the handler's update is next

  datatype State = State(
    rows: Table,
    up: bool,                        // is a process running?
    submitting: set<JobId>,          // row created, not yet handed to the pool
    queue: seq<JobId>,
    workers: map<JobId, Worker>,
    executed: seq<JobId>,            // history: invocations of targets, over all processes
    returned: map<JobId, Outcome>,   // history: what each invocation returned
    hidden: set<JobId>)              // history: successes whose final update raised

  datatype Action =
    | Start
    | Crash
    | Create(id: JobId, capability: string)
    | Enqueue(id: JobId)
    | Abandon(id: JobId)             // submit raises after creating the row
    | Take
    | MarkRunning(id: JobId)
    | MarkRunningRaises(id: JobId)
    | Invoke(id: JobId)
    | Return(id: JobId, outcome: Outcome)
    | Raise(id: JobId, error: string)
    | Report(id: JobId)
    | ReportRaises(id: JobId, error: string)
    | Recover(id: JobId)
    | RecoverRaises(id: JobId)

  const Fresh := State(map[], false, {}, [], map[], [], map[], {})

  predicate At(s: State, id: JobId, w: Worker)
  {
    id in s.workers && s.workers[id] == w
  }

  predicate Enabled(maxWorkers: nat, s: State, a: Action)
  {
    match a
    case Start => !s.up
    case Crash => s.up
    case Create(_, _) => s.up
    case Enqueue(id) => id in s.submitting
    case Abandon(id) => id in s.submitting
    case Take => s.queue != [] && |s.workers| < maxWorkers
    case MarkRunning(id) => At(s, id, Taken)
    case MarkRunningRaises(id) => At(s, id, Taken)
    case Invoke(id) => At(s, id, Marked)
    case Return(id, _) => At(s, id, Executing)
    case Raise(id, _) => At(s, id, Executing)
    case Report(id) => id in s.workers && s.workers[id].Reporting?
    case ReportRaises(id, _) => id in s.workers && s.workers[id].Reporting?
    case Recover(id) => id in s.workers && s.workers[id].Recovering?
    case RecoverRaises(id) => id in s.workers && s.workers[id].Recovering?
  }

  /** One atomic step; an action that is not enabled changes nothing. */
  function Next(maxWorkers: nat, s: State, a: Action): State
  {
    if !Enabled(maxWorkers, s, a) then s else
    match a
    case Start => s.(rows := Reconciled(s.rows), up := true)
    case Crash => s.(up := false, submitting := {}, queue := [], workers := map[])
    case Create(id, c) =>
      if id in s.rows then s  // primary key violation
      else s.(rows := s.rows[id := Row(c, Submitted, None, None, None)], submitting := s.submitting + {id})
    case Enqueue(id) => s.(submitting := s.submitting - {id}, queue := s.queue + [id])
    case Abandon(id) => s.(submitting := s.submitting - {id})
    case Take => s.(queue := s.queue[1..], workers := s.workers[s.queue[0] := Taken])
    case MarkRunning(id) => s.(rows := MarkedRunning(s.rows, id), workers := s.workers[id := Marked])
    case MarkRunningRaises(id) => s.(workers := s.workers - {id})
    case Invoke(id) => s.(workers := s.workers[id := Executing], executed := s.executed + [id])
    case Return(id, o) => s.(workers := s.workers[id := Reporting(o)], returned := s.returned[id := o])
    case Raise(id, e) => s.(workers := s.workers[id := Recovering(e)])
    case Report(id) => s.(rows := MarkedDone(s.rows, id, s.workers[id].outcome), workers := s.workers - {id})
    case ReportRaises(id, e) =>
      s.(workers := s.workers[id := Recovering(e)],
         hidden := if s.workers[id].outcome.Succeeded? then s.hidden + {id} else s.hidden)
    case Recover(id) =>
      s.(rows := MarkedDone(s.rows, id, Unsuccessful(s.workers[id].error)), workers := s.workers - {id})
    case RecoverRaises(id) => s.(workers := s.workers - {id})
  }

  function Run(maxWorkers: nat, s: State, acts: seq<Action>): State
    decreases |acts|
  {
    if acts == [] then s else Run(maxWorkers, Next(maxWorkers, s, acts[0]), acts[1..])
  }

  // ---- The invariant -----------------------------------------------------------------------

  /** A job is in at most one hand: being submitted, queued, or with a worker. */
  ghost predicate HeldOnce(s: State, id: JobId)
  {
    && (id in s.queue ==> id !in s.submitting && id !in s.workers)
    && (id in s.submitting ==> id !in s.workers)
  }

  ghost predicate OneHand(maxWorkers: nat, s: State)
  {
    && NoDup(s.queue)
    && (forall id :: HeldOnce(s, id))
    && |s.workers| <= maxWorkers
    && (!s.up ==> s.submitting == {} && s.queue == [] && s.workers == map[])
  }

  /** A job in hand has a row, in the status its program counter says. */
  ghost predicate StatusOf(s: State, id: JobId)
  {
    && (id in s.submitting || id in s.queue || At(s, id, Taken) ==> id in s.rows && s.rows[id].status == Submitted)
    && (id in s.workers && s.workers[id] != Taken ==> id in s.rows && s.rows[id].status == Running)
  }

  ghost predicate StatusMatches(s: State)
  {
    forall id :: StatusOf(s, id)
  }

  /** An executed job can never be invoked again. */
  ghost predicate Spent(s: State, id: JobId)
  {
    && (id in s.executed ==> id in s.rows && s.rows[id].status != Submitted && !At(s, id, Marked))
    && (At(s, id, Executing) ==> id in s.executed)
  }

  ghost predicate ExecutedOnce(s: State)
  {
    NoDup(s.executed) && forall id :: Spent(s, id)
  }

  /** A completed row holds what its invocation returned. */
  ghost predicate Honest(s: State, id: JobId)
  {
    && (id in s.workers && s.workers[id].Reporting? ==> id in s.returned && s.returned[id] == s.workers[id].outcome)
    && (id in s.returned ==> id in s.executed && !At(s, id, Executing))
    && (id in s.rows && s.rows[id].status.Completed? ==>
          id in s.returned && s.returned[id].Succeeded? && s.rows[id].result == Some(s.returned[id].result))
    && (id in s.hidden ==> SucceededOnce(s, id))
    && (SucceededOnce(s, id) && ((id in s.workers && s.workers[id].Recovering?) || RowFailed(s, id)) ==> id in s.hidden)
  }

  /** The one invocation of the job returned with success. */
  predicate SucceededOnce(s: State, id: JobId)
  {
    id in s.returned && s.returned[id].Succeeded?
  }

  predicate RowFailed(s: State, id: JobId)
  {
    id in s.rows && s.rows[id].status.Failed?
  }

  ghost predicate ResultsReturned(s: State)
  {
    forall id :: Honest(s, id)
  }

  ghost predicate Inv(maxWorkers: nat, s: State)
  {
    OneHand(maxWorkers, s) && StatusMatches(s) && ExecutedOnce(s) && ResultsReturned(s)
  }

  /** The live process still holds the job. */
  ghost predicate InFlight(s: State, id: JobId)
  {
    id in s.submitting || id in s.queue || id in s.workers
  }

  ghost predicate HeldHaveRows(s: State)
  {
    forall id :: InFlight(s, id) ==> id in s.rows
  }

  lemma {:induction false} MatchedHaveRows(s: State)
    requires StatusMatches(s)
    ensures HeldHaveRows(s)
  {
    assert forall id :: InFlight(s, id) ==> StatusOf(s, id);
  }

  lemma {:induction false} StepOneHand(maxWorkers: nat, s: State, a: Action)
    requires OneHand(maxWorkers, s) && HeldHaveRows(s)
    ensures OneHand(maxWorkers, Next(maxWorkers, s, a))
  {
    StepQueue(maxWorkers, s, a);
    StepPool(maxWorkers, s, a);
    forall id ensures HeldOnce(Next(maxWorkers, s, a), id) {
      StepHeldOnce(maxWorkers, s, a, id);
    }
  }

  lemma {:induction false} StepQueue(maxWorkers: nat, s: State, a: Action)
    requires OneHand(maxWorkers, s)
    ensures var s' := Next(maxWorkers, s, a);
            NoDup(s'.queue) && (!s'.up ==> s'.submitting == {} && s'.queue == [] && s'.workers == map[])
  {
    if a.Enqueue? {
      assert HeldOnce(s, a.id);
      NoDupSnoc(s.queue, a.id);
    }
  }

  lemma {:induction false} NoDupSnoc(queue: seq<JobId>, id: JobId)
    requires NoDup(queue)
    ensures id !in queue ==> NoDup(queue + [id])
  {
  }

  /** Only taking a job off the queue adds a worker, and it is guarded. */
  lemma {:induction false} StepPool(maxWorkers: nat, s: State, a: Action)
    requires |s.workers| <= maxWorkers
    ensures |Next(maxWorkers, s, a).workers| <= maxWorkers
  {
    if a.Take? && Enabled(maxWorkers, s, a) {
      OneMore(s.workers, s.queue[0]);
    } else {
      StepWorkers(maxWorkers, s, a);
      Fewer(Next(maxWorkers, s, a).workers, s.workers);
    }
  }

  lemma {:induction false} OneMore(workers: map<JobId, Worker>, id: JobId)
    ensures |workers[id := Taken]| <= |workers| + 1
  {
    assert workers[id := Taken].Keys == workers.Keys + {id};
  }

  lemma {:induction false} Fewer(a: map<JobId, Worker>, b: map<JobId, Worker>)
    requires a.Keys <= b.Keys
    ensures |a| <= |b|
  {
    SubsetSize(a.Keys, b.Keys);
  }

  lemma {:induction false} StepWorkers(maxWorkers: nat, s: State, a: Action)
    requires !a.Take? || !Enabled(maxWorkers, s, a)
    ensures Next(maxWorkers, s, a).workers.Keys <= s.workers.Keys
  {
  }

  lemma {:induction false} StepHeldOnce(maxWorkers: nat, s: State, a: Action, id: JobId)
    requires OneHand(maxWorkers, s) && HeldHaveRows(s)
    ensures HeldOnce(Next(maxWorkers, s, a), id)
  {
    assert HeldOnce(s, id) && (InFlight(s, id) ==> id in s.rows);
    if a.Take? && s.queue != [] {
      assert s.queue[0] in s.queue && HeldOnce(s, s.queue[0]);
    }
  }

  lemma {:induction false} StepStatus(maxWorkers: nat, s: State, a: Action)
    requires OneHand(maxWorkers, s) && StatusMatches(s)
    ensures StatusMatches(Next(maxWorkers, s, a))
  {
    forall id ensures StatusOf(Next(maxWorkers, s, a), id) {
      assert StatusOf(s, id) && HeldOnce(s, id);
    }
    if a.Take? && s.queue != [] {
      assert s.queue[0] in s.queue && StatusOf(s, s.queue[0]);
    }
  }

  lemma {:induction false} StepExecuted(maxWorkers: nat, s: State, a: Action)
    requires OneHand(maxWorkers, s) && StatusMatches(s) && ExecutedOnce(s)
    ensures ExecutedOnce(Next(maxWorkers, s, a))
  {
    forall id ensures Spent(Next(maxWorkers, s, a), id) {
      assert Spent(s, id) && StatusOf(s, id);
      StepSpent(maxWorkers, s, a, id);
    }
    if Enabled(maxWorkers, s, a) && a.Invoke? {
      assert Spent(s, a.id);
      NoDupSnoc(s.executed, a.id);
    }
  }

  lemma {:induction false} StepSpent(maxWorkers: nat, s: State, a: Action, id: JobId)
    requires StatusOf(s, id) && Spent(s, id)
    ensures Spent(Next(maxWorkers, s, a), id)
  {
    if a.Invoke? || a.MarkRunning? {
      assert a.id == id ==> At(s, id, Marked) || At(s, id, Taken) || !Enabled(maxWorkers, s, a);
    }
  }

  lemma {:induction false} StepReturned(maxWorkers: nat, s: State, a: Action)
    requires Inv(maxWorkers, s)
    ensures ResultsReturned(Next(maxWorkers, s, a))
  {
    var s' := Next(maxWorkers, s, a);
    forall id ensures Honest(s', id) {
      assert StatusOf(s, id) && Spent(s, id) && Honest(s, id);
      StepHonest(maxWorkers, s, a, id);
    }
  }

  lemma {:induction false} StepHonest(maxWorkers: nat, s: State, a: Action, id: JobId)
    requires StatusOf(s, id) && Spent(s, id) && Honest(s, id)
    ensures Honest(Next(maxWorkers, s, a), id)
  {
  }

  lemma {:induction false} RunKeepsInv(maxWorkers: nat, s: State, acts: seq<Action>)
    requires Inv(maxWorkers, s)
    ensures Inv(maxWorkers, Run(maxWorkers, s, acts))
    decreases |acts|
  {
    if acts != [] {
      MatchedHaveRows(s);
      StepOneHand(maxWorkers, s, acts[0]);
      StepStatus(maxWorkers, s, acts[0]);
      StepExecuted(maxWorkers, s, acts[0]);
      StepReturned(maxWorkers, s, acts[0]);
      RunKeepsInv(maxWorkers, Next(maxWorkers, s, acts[0]), acts[1..]);
    }
  }

  lemma {:induction false} FreshInv(maxWorkers: nat)
    ensures Inv(maxWorkers, Fresh)
  {
  }

  // ---- Main results ----------------------------------------------------------------------------

  /**
   * In every reachable state a job in hand has the status its program counter says, at most
   * `maxWorkers` jobs run, no job has been executed twice, and a completed row carries
   * exactly what its one invocation returned.
   */
  lemma {:induction false} EveryRunIsSafe(maxWorkers: nat, acts: seq<Action>)
    ensures var s := Run(maxWorkers, Fresh, acts);
            && StatusMatches(s) && |s.workers| <= maxWorkers && NoDup(s.executed)
            && (forall id :: id in s.rows && s.rows[id].status.Completed? ==>
                  id in s.executed && id in s.returned && s.returned[id].Succeeded? &&
                  AnswerFor(s.rows, id).Ready? && AnswerFor(s.rows, id).result == Some(s.returned[id].result))
  {
    var s := Run(maxWorkers, Fresh, acts);
    FreshInv(maxWorkers);
    RunKeepsInv(maxWorkers, Fresh, acts);
    assert forall id :: id in s.rows && s.rows[id].status.Completed? ==> Honest(s, id);
  }

  /** What a row in each status shows of the other columns. */
  ghost predicate Shaped(row: Row)
  {
    match row.status
    case Submitted => row.success == None && row.result == None && row.error == None
    case Running => row.success == None && row.result == None && row.error == None
    case Completed => row.success == Some(true) && row.result.Some? && row.error == None
    case Failed => row.success == Some(false) && row.result == None && row.error.Some?
    case Interrupted =>
      row.success == None && row.result == None && row.error == Some("host restarted before completion")
  }

  ghost predicate AllShaped(t: Table)
  {
    forall id :: id in t ==> Shaped(t[id])
  }

  lemma {:induction false} StepShaped(maxWorkers: nat, s: State, a: Action)
    requires StatusMatches(s) && AllShaped(s.rows)
    ensures AllShaped(Next(maxWorkers, s, a).rows)
  {
    var rows' := Next(maxWorkers, s, a).rows;
    forall id | id in rows' ensures Shaped(rows'[id]) {
      assert StatusOf(s, id);
    }
  }

  lemma {:induction false} RunShaped(maxWorkers: nat, s: State, acts: seq<Action>)
    requires Inv(maxWorkers, s) && AllShaped(s.rows)
    ensures AllShaped(Run(maxWorkers, s, acts).rows)
    decreases |acts|
  {
    if acts != [] {
      RunKeepsInv(maxWorkers, s, acts[..1]);
      assert Run(maxWorkers, s, acts[..1]) == Next(maxWorkers, s, acts[0]) by {
        assert acts[..1][1..] == [];
      }
      StepShaped(maxWorkers, s, acts[0]);
      RunShaped(maxWorkers, Next(maxWorkers, s, acts[0]), acts[1..]);
    }
  }

  /**
   * What a poller is told after any run: a completed job's result, a failed job's error, the
   * restart for an interrupted one, and the status of one that is not over.
   */
  lemma {:induction false} PollersAreTold(maxWorkers: nat, acts: seq<Action>, id: JobId)
    ensures var s := Run(maxWorkers, Fresh, acts);
            var answer := AnswerFor(s.rows, id);
            if id !in s.rows then answer == UnknownJob else
            match s.rows[id].status
            case Submitted => answer == NotReady(Submitted)
            case Running => answer == NotReady(Running)
            case Completed =>
              && id in s.returned && s.returned[id].Succeeded?
              && answer == Ready(Completed, Some(true), Some(s.returned[id].result), None)
            case Failed => s.rows[id].error.Some? && answer == Ready(Failed, Some(false), None, s.rows[id].error)
            case Interrupted => answer == Ready(Interrupted, None, None, Some("host restarted before completion"))
  {
    EveryRunIsSafe(maxWorkers, acts);
    FreshInv(maxWorkers);
    RunShaped(maxWorkers, Fresh, acts);
    assert id in Run(maxWorkers, Fresh, acts).rows ==> Shaped(Run(maxWorkers, Fresh, acts).rows[id]);
  }

  /** Once the worker reports, the row tells what the invocation returned. */
  lemma {:induction false} ReportTells(maxWorkers: nat, s: State, id: JobId, outcome: Outcome)
    requires At(s, id, Reporting(outcome)) && id in s.rows
    ensures AnswerFor(Next(maxWorkers, s, Report(id)).rows, id) ==
            match outcome
            case Succeeded(v) => Ready(Completed, Some(true), Some(v), None)
            case Unsuccessful(e) => Ready(Failed, Some(false), None, Some(e))
  {
  }

  /** Once the handler is done, the row tells what was raised. */
  lemma {:induction false} RecoverTells(maxWorkers: nat, s: State, id: JobId, error: string)
    requires At(s, id, Recovering(error)) && id in s.rows
    ensures AnswerFor(Next(maxWorkers, s, Recover(id)).rows, id) == Ready(Failed, Some(false), None, Some(error))
  {
  }

  /** What a worker holds: what the invocation returned, or what it or the report of it raised. */
  lemma {:induction false} WorkerHolds(maxWorkers: nat, s: State, id: JobId, outcome: Outcome, error: string)
    ensures At(s, id, Executing) ==> At(Next(maxWorkers, s, Return(id, outcome)), id, Reporting(outcome))
    ensures At(s, id, Executing) ==> At(Next(maxWorkers, s, Raise(id, error)), id, Recovering(error))
    ensures At(s, id, Reporting(outcome)) ==> At(Next(maxWorkers, s, ReportRaises(id, error)), id, Recovering(error))
  {
  }

  /** However the invocation of a job ends, that is what its row tells once the worker is done with it. */
  lemma {:induction false} EndIsTold(maxWorkers: nat, s: State, id: JobId, outcome: Outcome, error: string)
    requires At(s, id, Executing) && id in s.rows
    ensures var returned := Next(maxWorkers, s, Return(id, outcome));
            && AnswerFor(Next(maxWorkers, returned, Report(id)).rows, id) ==
               (match outcome
                case Succeeded(v) => Ready(Completed, Some(true), Some(v), None)
                case Unsuccessful(e) => Ready(Failed, Some(false), None, Some(e)))
            && AnswerFor(Next(maxWorkers, Next(maxWorkers, returned, ReportRaises(id, error)), Recover(id)).rows, id)
               == Ready(Failed, Some(false), None, Some(error))
    ensures AnswerFor(Next(maxWorkers, Next(maxWorkers, s, Raise(id, error)), Recover(id)).rows, id)
         == Ready(Failed, Some(false), None, Some(error))
  {
    var returned, raised := Next(maxWorkers, s, Return(id, outcome)), Next(maxWorkers, s, Raise(id, error));
    WorkerHolds(maxWorkers, s, id, outcome, error);
    WorkerHolds(maxWorkers, returned, id, outcome, error);
    ReportTells(maxWorkers, returned, id, outcome);
    RecoverTells(maxWorkers, raised, id, error);
    RecoverTells(maxWorkers, Next(maxWorkers, returned, ReportRaises(id, error)), id, error);
  }

  /** The continuation `acts` leaves the row of `id` alone if it is terminal. */
  ghost predicate Keeps(maxWorkers: nat, s: State, acts: seq<Action>, id: JobId)
  {
    id in s.rows && Terminal(s.rows[id].status) ==>
      id in Run(maxWorkers, s, acts).rows && Run(maxWorkers, s, acts).rows[id] == s.rows[id]
  }

  ghost predicate Absorbing(maxWorkers: nat, s: State)
  {
    forall acts, id :: Keeps(maxWorkers, s, acts, id)
  }

  lemma {:induction false} StepAbsorbs(maxWorkers: nat, s: State, a: Action, id: JobId)
    requires OneHand(maxWorkers, s) && StatusMatches(s)
    requires id in s.rows && Terminal(s.rows[id].status)
    ensures id in Next(maxWorkers, s, a).rows && Next(maxWorkers, s, a).rows[id] == s.rows[id]
  {
    assert StatusOf(s, id);
  }

  lemma {:induction false} RunKeeps(maxWorkers: nat, s: State, acts: seq<Action>, id: JobId)
    requires OneHand(maxWorkers, s) && StatusMatches(s)
    ensures Keeps(maxWorkers, s, acts, id)
    decreases |acts|
  {
    if acts != [] && id in s.rows && Terminal(s.rows[id].status) {
      MatchedHaveRows(s);
      StepOneHand(maxWorkers, s, acts[0]);
      StepStatus(maxWorkers, s, acts[0]);
      StepAbsorbs(maxWorkers, s, acts[0], id);
      RunKeeps(maxWorkers, Next(maxWorkers, s, acts[0]), acts[1..], id);
    }
  }

  /** Terminal rows never change, whatever happens next: no update needs a status guard. */
  lemma {:induction false} TerminalForever(maxWorkers: nat, acts: seq<Action>)
    ensures Absorbing(maxWorkers, Run(maxWorkers, Fresh, acts))
  {
    var s := Run(maxWorkers, Fresh, acts);
    FreshInv(maxWorkers);
    RunKeepsInv(maxWorkers, Fresh, acts);
    forall more, id ensures Keeps(maxWorkers, s, more, id) {
      RunKeeps(maxWorkers, s, more, id);
    }
  }

  lemma {:induction false} StepNeverInvokes(maxWorkers: nat, s: State, a: Action, id: JobId)
    requires StatusOf(s, id) && id in s.rows && Terminal(s.rows[id].status)
    ensures Occurrences(Next(maxWorkers, s, a).executed, id) == Occurrences(s.executed, id)
  {
    if a.Invoke? && Enabled(maxWorkers, s, a) {
      OccurrencesConcat(s.executed, [a.id], id);
      assert [a.id][1..] == [];
    }
  }

  lemma {:induction false} RunNeverInvokes(maxWorkers: nat, s: State, acts: seq<Action>, id: JobId)
    requires OneHand(maxWorkers, s) && StatusMatches(s) && id in s.rows && Terminal(s.rows[id].status)
    ensures Occurrences(Run(maxWorkers, s, acts).executed, id) == Occurrences(s.executed, id)
    decreases |acts|
  {
    if acts != [] {
      assert StatusOf(s, id);
      StepNeverInvokes(maxWorkers, s, acts[0], id);
      StepAbsorbs(maxWorkers, s, acts[0], id);
      MatchedHaveRows(s);
      StepOneHand(maxWorkers, s, acts[0]);
      StepStatus(maxWorkers, s, acts[0]);
      RunNeverInvokes(maxWorkers, Next(maxWorkers, s, acts[0]), acts[1..], id);
    }
  }

  /**
   * A job that is unfinished when the process dies is over with the next start: it is then
   * interrupted, stays so in every continuation, and is never invoked again.  No other row
   * changes with the start.
   */
  lemma {:induction false} CrashedJobIsOver(maxWorkers: nat, before: seq<Action>, after: seq<Action>, id: JobId)
    requires !Run(maxWorkers, Fresh, before).up && id in Unfinished(Run(maxWorkers, Fresh, before).rows)
    ensures var s := Run(maxWorkers, Fresh, before);
            var s1 := Next(maxWorkers, s, Start);
            var s2 := Run(maxWorkers, s1, after);
            && s1.rows[id].status.Interrupted? && s1.rows[id].result == s.rows[id].result
            && (forall j :: j in s.rows ==> (s1.rows[j] != s.rows[j] <==> j in Unfinished(s.rows)))
            && id in s2.rows && s2.rows[id] == s1.rows[id] && AnswerFor(s2.rows, id).Ready?
            && Occurrences(s2.executed, id) == Occurrences(s.executed, id) <= 1
  {
    var s := Run(maxWorkers, Fresh, before);
    FreshInv(maxWorkers);
    RunKeepsInv(maxWorkers, Fresh, before);
    var s1 := Next(maxWorkers, s, Start);
    MatchedHaveRows(s);
    StepOneHand(maxWorkers, s, Start);
    StepStatus(maxWorkers, s, Start);
    RunKeeps(maxWorkers, s1, after, id);
    RunNeverInvokes(maxWorkers, s1, after, id);
    NoDupOccurrences(s.executed, id);
  }

  /** A failed row hides an invocation that succeeded exactly when the final update of it raised. */
  lemma {:induction false} FailedHidesSuccessIff(maxWorkers: nat, acts: seq<Action>, id: JobId)
    requires RowFailed(Run(maxWorkers, Fresh, acts), id)
    ensures var s := Run(maxWorkers, Fresh, acts);
            SucceededOnce(s, id) <==> id in s.hidden
  {
    FreshInv(maxWorkers);
    RunKeepsInv(maxWorkers, Fresh, acts);
    assert Honest(Run(maxWorkers, Fresh, acts), id);
  }

  // ---- Nobody polls forever ---------------------------------------------------------------------------

  /** A step on which the store fails, or submit fails after creating the row. */
  predicate Fault(a: Action)
  {
    a.Abandon? || a.MarkRunningRaises? || a.RecoverRaises?
  }

  /** An unfinished row is in somebody's hand, or waits for the next start. */
  ghost predicate NoneLost(s: State)
  {
    s.up ==> forall id :: id in Unfinished(s.rows) ==> InFlight(s, id)
  }

  lemma {:induction false} StepNoneLost(maxWorkers: nat, s: State, a: Action)
    requires OneHand(maxWorkers, s) && StatusMatches(s) && NoneLost(s) && !Fault(a)
    ensures NoneLost(Next(maxWorkers, s, a))
  {
    var s' := Next(maxWorkers, s, a);
    if Enabled(maxWorkers, s, a) && s'.up {
      forall id | id in Unfinished(s'.rows) ensures InFlight(s', id) {
        if s.up && id in s.queue {
          var i :| 0 <= i < |s.queue| && s.queue[i] == id;
          if a.Take? && i > 0 {
            assert s'.queue[i - 1] == id;
          }
        }
        if a.Enqueue? {
          assert s'.queue[|s.queue|] == a.id;
        }
        assert s.up && id in s.rows && !Terminal(s.rows[id].status) ==> InFlight(s, id);
      }
    }
  }

  /**
   * Without such faults, every unfinished row of a live process is held by it, so each
   * poller's job either finishes or is interrupted by the next start.
   */
  lemma {:induction false} FaultFreeRunsLoseNothing(maxWorkers: nat, acts: seq<Action>)
    requires forall i :: 0 <= i < |acts| ==> !Fault(acts[i])
    ensures NoneLost(Run(maxWorkers, Fresh, acts))
  {
    FreshInv(maxWorkers);
    RunNoneLost(maxWorkers, Fresh, acts);
  }

  lemma {:induction false} RunNoneLost(maxWorkers: nat, s: State, acts: seq<Action>)
    requires OneHand(maxWorkers, s) && StatusMatches(s) && NoneLost(s)
    requires forall i :: 0 <= i < |acts| ==> !Fault(acts[i])
    ensures NoneLost(Run(maxWorkers, s, acts))
    decreases |acts|
  {
    if acts != [] {
      MatchedHaveRows(s);
      StepOneHand(maxWorkers, s, acts[0]);
      StepStatus(maxWorkers, s, acts[0]);
      StepNoneLost(maxWorkers, s, acts[0]);
      RunNoneLost(maxWorkers, Next(maxWorkers, s, acts[0]), acts[1..]);
    }
  }
}
