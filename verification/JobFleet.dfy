/**
 * Any number of processes on one store file: each has its own submissions, queue and
 * workers, and all of them share the rows.
 */
module JobFleet {
  import opened Seqs
  import opened JobStore
  import opened JobRuns

  datatype Local = Local(up: bool, submitting: set<JobId>, queue: seq<JobId>, workers: map<JobId, Worker>)

  datatype Fleet = Fleet(rows: Table, executed: seq<JobId>, returned: map<JobId, Outcome>, hidden: set<JobId>,
                         procs: seq<Local>)

  // One step of one process.
  datatype Act = Act(proc: nat, action: Action)

  const Down := Local(false, {}, [], map[])

  function AllDown(n: nat): (ps: seq<Local>)
    ensures |ps| == n && forall p :: 0 <= p < n ==> ps[p] == Down
  {
    if n == 0 then [] else AllDown(n - 1) + [Down]
  }

  function Idle(n: nat): Fleet
  {
    Fleet(map[], [], map[], {}, AllDown(n))
  }

  /** The fleet as process `p` sees it. */
  function View(f: Fleet, p: nat): State
    requires p < |f.procs|
  {
    var l := f.procs[p];
    State(f.rows, l.up, l.submitting, l.queue, l.workers, f.executed, f.returned, f.hidden)
  }

  function Step(maxWorkers: nat, f: Fleet, a: Act): (f': Fleet)
    ensures |f'.procs| == |f.procs|
  {
    if a.proc >= |f.procs| then f
    else
      var s := Next(maxWorkers, View(f, a.proc), a.action);
      Fleet(s.rows, s.executed, s.returned, s.hidden, f.procs[a.proc := Local(s.up, s.submitting, s.queue, s.workers)])
  }

  function FleetRun(maxWorkers: nat, f: Fleet, acts: seq<Act>): (f': Fleet)
    ensures |f'.procs| == |f.procs|
    decreases |acts|
  {
    if acts == [] then f else FleetRun(maxWorkers, Step(maxWorkers, f, acts[0]), acts[1..])
  }

  // ---- What every run keeps, however many processes there are -----------------------------------

  ghost predicate Holds(l: Local, id: JobId)
  {
    id in l.submitting || id in l.queue || id in l.workers
  }

  /** No two processes hold the same job. */
  ghost predicate Exclusive(f: Fleet, id: JobId)
  {
    forall p, q :: 0 <= p < |f.procs| && 0 <= q < |f.procs| && Holds(f.procs[p], id) && Holds(f.procs[q], id) ==> p == q
  }

  predicate Interrupted(f: Fleet, id: JobId)
  {
    id in f.rows && f.rows[id].status.Interrupted?
  }

  /** A held job has the status its program counter says, unless another process interrupted it. */
  ghost predicate Expected(f: Fleet, p: nat, id: JobId)
    requires p < |f.procs|
  {
    StatusOf(View(f, p), id) || Interrupted(f, id)
  }

  /** Still on its way to the one invocation. */
  ghost predicate Waiting(l: Local, id: JobId)
  {
    id in l.submitting || id in l.queue || (id in l.workers && (l.workers[id].Taken? || l.workers[id].Marked?))
  }

  ghost predicate Spent(f: Fleet, id: JobId)
  {
    id in f.executed ==> id in f.rows && forall p :: 0 <= p < |f.procs| ==> !Waiting(f.procs[p], id)
  }

  ghost predicate Sound(maxWorkers: nat, f: Fleet)
  {
    && (forall p :: 0 <= p < |f.procs| ==> OneHand(maxWorkers, View(f, p)))
    && (forall id :: Exclusive(f, id))
    && (forall p, id :: 0 <= p < |f.procs| ==> Expected(f, p, id))
    && (forall id :: Spent(f, id))
    && NoDup(f.executed)
  }

  lemma {:induction false} HoldsIsInFlight(f: Fleet, p: nat, id: JobId)
    requires p < |f.procs|
    ensures Holds(f.procs[p], id) <==> InFlight(View(f, p), id)
  {
  }

  lemma {:induction false} SoundHaveRows(maxWorkers: nat, f: Fleet, p: nat)
    requires Sound(maxWorkers, f) && p < |f.procs|
    ensures HeldHaveRows(View(f, p))
  {
    forall id | InFlight(View(f, p), id) ensures id in f.rows {
      assert Expected(f, p, id);
    }
  }

  /** A process comes to hold a job only by creating its row. */
  lemma {:induction false} StepHolds(maxWorkers: nat, s: State, a: Action, id: JobId)
    ensures InFlight(Next(maxWorkers, s, a), id) ==> InFlight(s, id) || (a.Create? && a.id == id && id !in s.rows)
  {
  }

  /** Short of a start, a process changes only rows of jobs it holds, and rows it creates. */
  lemma {:induction false} StepRows(maxWorkers: nat, s: State, a: Action, id: JobId)
    requires id in s.rows
    ensures id in Next(maxWorkers, s, a).rows
    ensures !InFlight(s, id) && !a.Start? ==> Next(maxWorkers, s, a).rows[id] == s.rows[id]
    ensures a.Start? ==>
              Next(maxWorkers, s, a).rows[id] == s.rows[id] || Next(maxWorkers, s, a).rows[id].status.Interrupted?
  {
  }

  lemma {:induction false} StepExclusive(maxWorkers: nat, f: Fleet, a: Act, id: JobId)
    requires Sound(maxWorkers, f) && a.proc < |f.procs|
    ensures Exclusive(Step(maxWorkers, f, a), id)
  {
    var f' := Step(maxWorkers, f, a);
    forall q | 0 <= q < |f.procs|
      ensures Holds(f'.procs[q], id) ==> Holds(f.procs[q], id) || (q == a.proc && id !in f.rows)
    {
      HoldsIsInFlight(f, q, id);
      HoldsIsInFlight(f', q, id);
      StepHolds(maxWorkers, View(f, a.proc), a.action, id);
    }
    assert Exclusive(f, id);
    forall q | 0 <= q < |f.procs| && Holds(f.procs[q], id) ensures id in f.rows {
      assert Expected(f, q, id);
    }
  }

  lemma {:induction false} StepExpectedOwn(maxWorkers: nat, s: State, a: Action, id: JobId)
    requires HeldOnce(s, id) && (!s.up ==> !InFlight(s, id))
    requires StatusOf(s, id) || (id in s.rows && s.rows[id].status.Interrupted?)
    ensures var s' := Next(maxWorkers, s, a);
            StatusOf(s', id) || (id in s'.rows && s'.rows[id].status.Interrupted?)
  {
  }

  lemma {:induction false} StepExpected(maxWorkers: nat, f: Fleet, a: Act, q: nat, id: JobId)
    requires Sound(maxWorkers, f) && a.proc < |f.procs| && q < |f.procs|
    ensures Expected(Step(maxWorkers, f, a), q, id)
  {
    var s := View(f, a.proc);
    assert OneHand(maxWorkers, s) && HeldOnce(s, id) && Expected(f, a.proc, id) && Expected(f, q, id);
    if q == a.proc {
      StepExpectedOwn(maxWorkers, s, a.action, id);
    } else if Holds(f.procs[q], id) {
      assert Exclusive(f, id);
      HoldsIsInFlight(f, a.proc, id);
      StepRows(maxWorkers, s, a.action, id);
    }
  }

  lemma {:induction false} StepWaiting(maxWorkers: nat, s: State, a: Action, id: JobId)
    requires HeldOnce(s, id)
    ensures var s' := Next(maxWorkers, s, a);
            && (Waiting(Local(s'.up, s'.submitting, s'.queue, s'.workers), id) ==>
                  Waiting(Local(s.up, s.submitting, s.queue, s.workers), id) || id !in s.rows)
            && (id in s'.executed && id !in s.executed ==>
                  At(s, id, Marked) && !Waiting(Local(s'.up, s'.submitting, s'.queue, s'.workers), id))
            && (id in s.executed ==> id in s'.executed)
  {
  }

  lemma {:induction false} StepSpentBy(maxWorkers: nat, f: Fleet, a: Act, id: JobId)
    requires Sound(maxWorkers, f) && a.proc < |f.procs|
    ensures Spent(Step(maxWorkers, f, a), id)
  {
    var s, f' := View(f, a.proc), Step(maxWorkers, f, a);
    assert OneHand(maxWorkers, s) && HeldOnce(s, id) && Spent(f, id) && Exclusive(f, id);
    StepWaiting(maxWorkers, s, a.action, id);
    if id in f'.executed {
      assert Expected(f, a.proc, id);
      assert id in f.rows;
      StepRows(maxWorkers, s, a.action, id);
      forall q | 0 <= q < |f.procs| ensures !Waiting(f'.procs[q], id) {
        if q != a.proc && Waiting(f.procs[q], id) && id !in f.executed {
          assert Holds(f.procs[q], id) && Holds(f.procs[a.proc], id);
        }
      }
    }
  }

  lemma {:induction false} StepExecutedOnce(maxWorkers: nat, f: Fleet, a: Act)
    requires Sound(maxWorkers, f) && a.proc < |f.procs|
    ensures NoDup(Step(maxWorkers, f, a).executed)
  {
    if a.action.Invoke? && At(View(f, a.proc), a.action.id, Marked) {
      assert Spent(f, a.action.id) && Waiting(f.procs[a.proc], a.action.id);
      NoDupSnoc(f.executed, a.action.id);
    }
  }

  lemma {:induction false} StepHands(maxWorkers: nat, f: Fleet, a: Act, q: nat)
    requires Sound(maxWorkers, f) && a.proc < |f.procs| && q < |f.procs|
    ensures OneHand(maxWorkers, View(Step(maxWorkers, f, a), q))
  {
    assert OneHand(maxWorkers, View(f, q));
    if q == a.proc {
      SoundHaveRows(maxWorkers, f, q);
      StepOneHand(maxWorkers, View(f, q), a.action);
      SameHands(maxWorkers, Next(maxWorkers, View(f, q), a.action), View(Step(maxWorkers, f, a), q));
    } else {
      SameHands(maxWorkers, View(f, q), View(Step(maxWorkers, f, a), q));
    }
  }

  lemma {:induction false} SameHands(maxWorkers: nat, s: State, t: State)
    requires OneHand(maxWorkers, s)
    requires s.up == t.up && s.submitting == t.submitting && s.queue == t.queue && s.workers == t.workers
    ensures OneHand(maxWorkers, t)
  {
    forall id ensures HeldOnce(t, id) {
      assert HeldOnce(s, id);
    }
  }

  lemma {:induction false} StepSound(maxWorkers: nat, f: Fleet, a: Act)
    requires Sound(maxWorkers, f)
    ensures Sound(maxWorkers, Step(maxWorkers, f, a))
  {
    if a.proc < |f.procs| {
      var f' := Step(maxWorkers, f, a);
      forall q | 0 <= q < |f.procs| ensures OneHand(maxWorkers, View(f', q)) {
        StepHands(maxWorkers, f, a, q);
      }
      forall id ensures Exclusive(f', id) && Spent(f', id) {
        StepExclusive(maxWorkers, f, a, id);
        StepSpentBy(maxWorkers, f, a, id);
      }
      forall q, id | 0 <= q < |f.procs| ensures Expected(f', q, id) {
        StepExpected(maxWorkers, f, a, q, id);
      }
      StepExecutedOnce(maxWorkers, f, a);
    }
  }

  lemma {:induction false} RunSound(maxWorkers: nat, f: Fleet, acts: seq<Act>)
    requires Sound(maxWorkers, f)
    ensures Sound(maxWorkers, FleetRun(maxWorkers, f, acts))
    decreases |acts|
  {
    if acts != [] {
      StepSound(maxWorkers, f, acts[0]);
      RunSound(maxWorkers, Step(maxWorkers, f, acts[0]), acts[1..]);
    }
  }

  lemma {:induction false} IdleSound(maxWorkers: nat, n: nat)
    ensures Sound(maxWorkers, Idle(n))
  {
  }

  /** However many processes share the file and whenever they open it, no job is invoked twice. */
  lemma {:induction false} InvokedAtMostOnce(maxWorkers: nat, n: nat, acts: seq<Act>)
    ensures NoDup(FleetRun(maxWorkers, Idle(n), acts).executed)
  {
    IdleSound(maxWorkers, n);
    RunSound(maxWorkers, Idle(n), acts);
  }

  // ---- Runs in which every open finds the file idle ----------------------------------------------

  ghost predicate HoldsNothing(l: Local)
  {
    forall id :: !Holds(l, id)
  }

  /** No process but `p` holds a job. */
  ghost predicate OthersIdle(f: Fleet, p: nat)
  {
    forall q :: 0 <= q < |f.procs| && q != p ==> HoldsNothing(f.procs[q])
  }

  /** The step is no open, or no other live process holds a job. */
  ghost predicate GuardedStep(f: Fleet, a: Act)
  {
    a.action.Start? ==> OthersIdle(f, a.proc)
  }

  ghost predicate Guarded(maxWorkers: nat, f: Fleet, acts: seq<Act>)
    decreases |acts|
  {
    acts == [] || (GuardedStep(f, acts[0]) && Guarded(maxWorkers, Step(maxWorkers, f, acts[0]), acts[1..]))
  }

  /** Nobody's job has been interrupted under its feet. */
  ghost predicate Exact(f: Fleet)
  {
    forall p, id :: 0 <= p < |f.procs| ==> StatusOf(View(f, p), id)
  }

  lemma {:induction false} StepStatusOne(maxWorkers: nat, s: State, a: Action, id: JobId)
    requires HeldOnce(s, id) && StatusOf(s, id) && (!s.up ==> !InFlight(s, id))
    ensures StatusOf(Next(maxWorkers, s, a), id)
  {
  }

  lemma {:induction false} GuardedExact(maxWorkers: nat, f: Fleet, a: Act)
    requires Sound(maxWorkers, f) && Exact(f) && GuardedStep(f, a)
    ensures Exact(Step(maxWorkers, f, a))
  {
    if a.proc < |f.procs| {
      var f' := Step(maxWorkers, f, a);
      forall q, id | 0 <= q < |f.procs| ensures StatusOf(View(f', q), id) {
        GuardedExactAt(maxWorkers, f, a, q, id);
      }
    }
  }

  lemma {:induction false} GuardedExactAt(maxWorkers: nat, f: Fleet, a: Act, q: nat, id: JobId)
    requires Sound(maxWorkers, f) && Exact(f) && GuardedStep(f, a) && a.proc < |f.procs| && q < |f.procs|
    ensures StatusOf(View(Step(maxWorkers, f, a), q), id)
  {
    var s := View(f, a.proc);
    assert OneHand(maxWorkers, s) && HeldOnce(s, id);
    assert StatusOf(View(f, q), id) && StatusOf(s, id);
    if q == a.proc {
      StepStatusOne(maxWorkers, s, a.action, id);
    } else if Holds(f.procs[q], id) {
      assert Exclusive(f, id) && (a.action.Start? ==> HoldsNothing(f.procs[q]));
      HoldsIsInFlight(f, a.proc, id);
      StepRows(maxWorkers, s, a.action, id);
    }
  }

  lemma {:induction false} GuardedKeepsRow(maxWorkers: nat, f: Fleet, a: Act, id: JobId)
    requires Sound(maxWorkers, f) && Exact(f)
    requires id in f.rows && Terminal(f.rows[id].status)
    ensures var f' := Step(maxWorkers, f, a); id in f'.rows && f'.rows[id] == f.rows[id]
  {
    if a.proc < |f.procs| {
      var s := View(f, a.proc);
      assert OneHand(maxWorkers, s) && StatusOf(s, id);
      assert StatusMatches(s);
      StepAbsorbs(maxWorkers, s, a.action, id);
    }
  }

  lemma {:induction false} GuardedKeeps(maxWorkers: nat, f: Fleet, acts: seq<Act>, id: JobId)
    requires Sound(maxWorkers, f) && Exact(f) && Guarded(maxWorkers, f, acts)
    requires id in f.rows && Terminal(f.rows[id].status)
    ensures var f' := FleetRun(maxWorkers, f, acts); id in f'.rows && f'.rows[id] == f.rows[id]
    decreases |acts|
  {
    if acts != [] {
      StepSound(maxWorkers, f, acts[0]);
      GuardedExact(maxWorkers, f, acts[0]);
      GuardedKeepsRow(maxWorkers, f, acts[0], id);
      GuardedKeeps(maxWorkers, Step(maxWorkers, f, acts[0]), acts[1..], id);
    }
  }

  lemma {:induction false} GuardedRunExact(maxWorkers: nat, f: Fleet, acts: seq<Act>)
    requires Sound(maxWorkers, f) && Exact(f) && Guarded(maxWorkers, f, acts)
    ensures Sound(maxWorkers, FleetRun(maxWorkers, f, acts)) && Exact(FleetRun(maxWorkers, f, acts))
    decreases |acts|
  {
    if acts != [] {
      StepSound(maxWorkers, f, acts[0]);
      GuardedExact(maxWorkers, f, acts[0]);
      GuardedRunExact(maxWorkers, Step(maxWorkers, f, acts[0]), acts[1..]);
    }
  }

  /**
   * If every open, first or again, finds no other process with a job in hand, then no step
   * of the whole run ever changes a terminal row.
   */
  lemma {:induction false} GuardedRunsAbsorb(maxWorkers: nat, n: nat, before: seq<Act>, after: seq<Act>, id: JobId)
    requires Guarded(maxWorkers, Idle(n), before)
    requires Guarded(maxWorkers, FleetRun(maxWorkers, Idle(n), before), after)
    ensures var f := FleetRun(maxWorkers, Idle(n), before);
            var f' := FleetRun(maxWorkers, f, after);
            id in f.rows && Terminal(f.rows[id].status) ==> id in f'.rows && f'.rows[id] == f.rows[id]
  {
    IdleSound(maxWorkers, n);
    assert Exact(Idle(n));
    GuardedRunExact(maxWorkers, Idle(n), before);
    var f := FleetRun(maxWorkers, Idle(n), before);
    if id in f.rows && Terminal(f.rows[id].status) {
      GuardedKeeps(maxWorkers, f, after, id);
    }
  }

  // ---- When one open is safe -----------------------------------------------------------------------

  ghost predicate NoOpens(acts: seq<Act>)
  {
    forall i :: 0 <= i < |acts| ==> !acts[i].action.Start?
  }

  ghost predicate KeepsRow(maxWorkers: nat, f: Fleet, acts: seq<Act>, id: JobId)
  {
    id in f.rows && Terminal(f.rows[id].status) ==>
      id in FleetRun(maxWorkers, f, acts).rows && FleetRun(maxWorkers, f, acts).rows[id] == f.rows[id]
  }

  /** No continuation without another open changes a row that is terminal now. */
  ghost predicate Absorbs(maxWorkers: nat, f: Fleet)
  {
    forall acts, id :: NoOpens(acts) ==> KeepsRow(maxWorkers, f, acts, id)
  }

  lemma {:induction false} NoOpensGuarded(maxWorkers: nat, f: Fleet, acts: seq<Act>)
    requires NoOpens(acts)
    ensures Guarded(maxWorkers, f, acts)
    decreases |acts|
  {
    if acts != [] {
      assert forall i :: 0 <= i < |acts[1..]| ==> acts[1..][i] == acts[i + 1];
      NoOpensGuarded(maxWorkers, Step(maxWorkers, f, acts[0]), acts[1..]);
    }
  }

  /**
   * After any run at all: the open of the file by process `p` leaves every terminal row as
   * it is in every continuation without another open if and only if no other live process
   * holds a job at that moment.
   */
  lemma {:induction false} OpenIsSafeIff(maxWorkers: nat, n: nat, acts: seq<Act>, p: nat)
    requires maxWorkers > 0 && p < n && !FleetRun(maxWorkers, Idle(n), acts).procs[p].up
    ensures var f := FleetRun(maxWorkers, Idle(n), acts);
            Absorbs(maxWorkers, Step(maxWorkers, f, Act(p, Start))) <==> OthersIdle(f, p)
  {
    IdleSound(maxWorkers, n);
    RunSound(maxWorkers, Idle(n), acts);
    var f := FleetRun(maxWorkers, Idle(n), acts);
    StepSound(maxWorkers, f, Act(p, Start));
    if OthersIdle(f, p) {
      SafeOpen(maxWorkers, f, p);
    } else {
      UnsafeOpen(maxWorkers, f, p);
    }
  }

  lemma {:induction false} SafeOpen(maxWorkers: nat, f: Fleet, p: nat)
    requires Sound(maxWorkers, f) && p < |f.procs| && !f.procs[p].up && OthersIdle(f, p)
    ensures Absorbs(maxWorkers, Step(maxWorkers, f, Act(p, Start)))
  {
    var f' := Step(maxWorkers, f, Act(p, Start));
    StepSound(maxWorkers, f, Act(p, Start));
    assert OneHand(maxWorkers, View(f, p));
    forall q, id | 0 <= q < |f'.procs| ensures StatusOf(View(f', q), id) {
      assert q != p ==> f'.procs[q] == f.procs[q] && HoldsNothing(f.procs[q]);
      assert !Holds(f'.procs[q], id);
    }
    forall acts, id | NoOpens(acts) ensures KeepsRow(maxWorkers, f', acts, id) {
      NoOpensGuarded(maxWorkers, f', acts);
      if id in f'.rows && Terminal(f'.rows[id].status) {
        GuardedKeeps(maxWorkers, f', acts, id);
      }
    }
  }

  lemma {:induction false} UnsafeOpen(maxWorkers: nat, f: Fleet, p: nat)
    requires maxWorkers > 0 && Sound(maxWorkers, f) && p < |f.procs| && !f.procs[p].up && !OthersIdle(f, p)
    ensures !Absorbs(maxWorkers, Step(maxWorkers, f, Act(p, Start)))
  {
    var f' := Step(maxWorkers, f, Act(p, Start));
    StepSound(maxWorkers, f, Act(p, Start));
    var q :| 0 <= q < |f.procs| && q != p && !HoldsNothing(f.procs[q]);
    var id :| Holds(f.procs[q], id);
    var t := View(f', q);
    assert OneHand(maxWorkers, t);
    forall j | InFlight(t, j) ensures j in t.rows && t.rows[j].status == JobStore.Interrupted {
      assert Expected(f, q, j);
    }
    var more, victim := Overwrite(maxWorkers, t, id);
    Lift(maxWorkers, f', q, more);
    assert !KeepsRow(maxWorkers, f', By(q, more), victim);
  }

  /** The same actions, all by process `q`. */
  function By(q: nat, acts: seq<Action>): (r: seq<Act>)
    ensures |r| == |acts| && forall i :: 0 <= i < |acts| ==> r[i] == Act(q, acts[i])
  {
    if acts == [] then [] else [Act(q, acts[0])] + By(q, acts[1..])
  }

  lemma {:induction false} Lift(maxWorkers: nat, f: Fleet, q: nat, acts: seq<Action>)
    requires q < |f.procs|
    ensures View(FleetRun(maxWorkers, f, By(q, acts)), q) == Run(maxWorkers, View(f, q), acts)
    decreases |acts|
  {
    if acts != [] {
      assert By(q, acts)[1..] == By(q, acts[1..]);
      Lift(maxWorkers, Step(maxWorkers, f, Act(q, acts[0])), q, acts[1..]);
    }
  }

  // ---- Whoever holds a job goes on to overwrite its interrupted row ----------------------------------

  ghost predicate NoStart(acts: seq<Action>)
  {
    forall i :: 0 <= i < |acts| ==> !acts[i].Start?
  }

  ghost predicate Overwrites(maxWorkers: nat, t: State, acts: seq<Action>, id: JobId)
  {
    && NoStart(acts) && id in t.rows && Terminal(t.rows[id].status)
    && (id in Run(maxWorkers, t, acts).rows ==> Run(maxWorkers, t, acts).rows[id] != t.rows[id])
  }

  lemma {:induction false} Overwrite(maxWorkers: nat, t: State, id: JobId) returns (more: seq<Action>, victim: JobId)
    requires maxWorkers > 0 && InFlight(t, id)
    requires forall j :: InFlight(t, j) ==> j in t.rows && t.rows[j].status == JobStore.Interrupted
    ensures Overwrites(maxWorkers, t, more, victim)
  {
    if t.workers != map[] {
      victim :| victim in t.workers;
      assert InFlight(t, victim);
      more := WorkerOverwrites(maxWorkers, t, victim);
    } else if t.queue != [] {
      victim := t.queue[0];
      assert InFlight(t, victim);
      more := QueueOverwrites(maxWorkers, t);
    } else {
      victim := id;
      var t' := Next(maxWorkers, t, Enqueue(id));
      var rest := QueueOverwrites(maxWorkers, t');
      more := [Enqueue(id)] + rest;
      RunCons(maxWorkers, t, Enqueue(id), rest);
    }
  }

  lemma {:induction false} RunCons(maxWorkers: nat, s: State, a: Action, rest: seq<Action>)
    ensures Run(maxWorkers, s, [a] + rest) == Run(maxWorkers, Next(maxWorkers, s, a), rest)
  {
    assert ([a] + rest)[1..] == rest;
  }

  lemma {:induction false} RunOne(maxWorkers: nat, s: State, a: Action)
    ensures Run(maxWorkers, s, [a]) == Next(maxWorkers, s, a)
  {
    assert [a][1..] == [];
  }

  lemma {:induction false} QueueOverwrites(maxWorkers: nat, t: State) returns (more: seq<Action>)
    requires maxWorkers > 0 && t.workers == map[] && t.queue != []
    requires t.queue[0] in t.rows && t.rows[t.queue[0]].status == JobStore.Interrupted
    ensures Overwrites(maxWorkers, t, more, t.queue[0])
  {
    var id := t.queue[0];
    var t' := Next(maxWorkers, t, Take);
    more := [Take] + [MarkRunning(id)];
    RunCons(maxWorkers, t, Take, [MarkRunning(id)]);
    RunOne(maxWorkers, t', MarkRunning(id));
  }

  lemma {:induction false} WorkerOverwrites(maxWorkers: nat, t: State, id: JobId) returns (more: seq<Action>)
    requires id in t.workers && id in t.rows && t.rows[id].status == JobStore.Interrupted
    ensures Overwrites(maxWorkers, t, more, id)
  {
    match t.workers[id]
    case Taken =>
      more := [MarkRunning(id)];
      RunOne(maxWorkers, t, MarkRunning(id));
    case Marked =>
      more := InvokedOverwrites(maxWorkers, Next(maxWorkers, t, Invoke(id)), id);
      RunCons(maxWorkers, t, Invoke(id), more);
      more := [Invoke(id)] + more;
    case _ =>
      more := InvokedOverwrites(maxWorkers, t, id);
  }

  lemma {:induction false} InvokedOverwrites(maxWorkers: nat, t: State, id: JobId) returns (more: seq<Action>)
    requires id in t.workers && id in t.rows && t.rows[id].status == JobStore.Interrupted
    requires !t.workers[id].Taken? && !t.workers[id].Marked?
    ensures Overwrites(maxWorkers, t, more, id)
  {
    match t.workers[id]
    case Executing =>
      var t' := Next(maxWorkers, t, Raise(id, ""));
      more := [Raise(id, "")] + [Recover(id)];
      RunCons(maxWorkers, t, Raise(id, ""), [Recover(id)]);
      RunOne(maxWorkers, t', Recover(id));
    case Reporting(_) =>
      more := [Report(id)];
      RunOne(maxWorkers, t, Report(id));
    case Recovering(_) =>
      more := [Recover(id)];
      RunOne(maxWorkers, t, Recover(id));
  }
}
