/** The per-origin circuit breaker and the retry loop of the HTTP adapter. */
module Circuit {

  datatype Origin = Origin(text: string)

  datatype Config = Config(maxRetries: int, backoffBase: real, threshold: int, cooldown: real)

  datatype State = State(failures: nat, openedUntil: real)

  type Circuits = map<Origin, State>

  // One call of the recording routine.
  datatype Report = Report(origin: Origin, success: bool, at: real)

  function Lookup(c: Circuits, o: Origin): State
  {
    if o in c then c[o] else State(0, 0.0)
  }

  predicate IsOpen(c: Circuits, o: Origin, now: real)
  {
    o in c && c[o].openedUntil > now
  }

  function Recorded(cfg: Config, c: Circuits, r: Report): Circuits
  {
    var st := Lookup(c, r.origin);
    if r.success then c[r.origin := State(0, 0.0)]
    else
      var n := st.failures + 1;
      c[r.origin := State(n, if n >= cfg.threshold then r.at + cfg.cooldown else st.openedUntil)]
  }

  // ---- The breaker as a function of its history -----------------------------------------

  function Replay(cfg: Config, history: seq<Report>): Circuits
  {
    if history == [] then map[]
    else Recorded(cfg, Replay(cfg, history[..|history| - 1]), history[|history| - 1])
  }

  /** The reports about one origin, in order. */
  function Own(history: seq<Report>, o: Origin): seq<Report>
  {
    if history == [] then []
    else
      var before := Own(history[..|history| - 1], o);
      var last := history[|history| - 1];
      if last.origin == o then before + [last] else before
  }

  /** `n` is the length of the run of failures that `reports` ends in. */
  ghost predicate TrailingRun(reports: seq<Report>, n: nat)
  {
    && n <= |reports|
    && (forall i :: |reports| - n <= i < |reports| ==> !reports[i].success)
    && (n < |reports| ==> reports[|reports| - n - 1].success)
  }

  function OpensAt(cfg: Config): nat
  {
    if cfg.threshold < 1 then 1 else cfg.threshold
  }

  /** The entry of an origin, said of its own reports alone. */
  ghost predicate Summarises(cfg: Config, st: State, reports: seq<Report>)
  {
    && TrailingRun(reports, st.failures)
    && st.openedUntil == if st.failures >= OpensAt(cfg) then reports[|reports| - 1].at + cfg.cooldown else 0.0
  }

  lemma {:induction false} ReplaySummarises(cfg: Config, history: seq<Report>, o: Origin)
    ensures Summarises(cfg, Lookup(Replay(cfg, history), o), Own(history, o))
    ensures o in Replay(cfg, history) <==> Own(history, o) != []
  {
    if history != [] {
      ReplaySummarises(cfg, history[..|history| - 1], o);
      var before := Own(history[..|history| - 1], o);
      var last := history[|history| - 1];
      if last.origin == o {
        var st := Lookup(Replay(cfg, history[..|history| - 1]), o);
        assert (before + [last])[..|before|] == before;
        assert Summarises(cfg, Lookup(Replay(cfg, history), o), before + [last]);
      }
    }
  }

  /**
   * After any sequence of reports over any origins, an origin's circuit is open at time t
   * exactly when its own reports end in at least max(1, threshold) failures and t is before
   * the last of them plus the cooldown.
   */
  lemma {:induction false} OpenIffFailingRun(cfg: Config, history: seq<Report>, o: Origin, run: nat, t: real)
    requires TrailingRun(Own(history, o), run) && 0.0 <= t
    ensures IsOpen(Replay(cfg, history), o, t) <==>
              run >= OpensAt(cfg) && t < Own(history, o)[|Own(history, o)| - 1].at + cfg.cooldown
    ensures Lookup(Replay(cfg, history), o).failures == run
  {
    ReplaySummarises(cfg, history, o);
    TrailingRunUnique(Own(history, o), run, Lookup(Replay(cfg, history), o).failures);
  }

  lemma {:induction false} TrailingRunUnique(reports: seq<Report>, m: nat, n: nat)
    requires TrailingRun(reports, m) && TrailingRun(reports, n)
    ensures m == n
  {
    assert m < |reports| ==> reports[|reports| - m - 1].success;
    assert n < |reports| ==> reports[|reports| - n - 1].success;
  }

  /** Two histories that agree on an origin give it the same circuit, whatever else they hold. */
  lemma {:induction false} OriginsIndependent(cfg: Config, h: seq<Report>, h': seq<Report>, o: Origin, t: real)
    requires Own(h, o) == Own(h', o)
    ensures IsOpen(Replay(cfg, h), o, t) <==> IsOpen(Replay(cfg, h'), o, t)
  {
    ReplaySummarises(cfg, h, o);
    ReplaySummarises(cfg, h', o);
    TrailingRunUnique(Own(h, o), Lookup(Replay(cfg, h), o).failures, Lookup(Replay(cfg, h'), o).failures);
  }

  // ---- The retry loop -----------------------------------------------------------------------

  function Pow2(n: nat): nat
  {
    if n == 0 then 1 else 2 * Pow2(n - 1)
  }

  /** The number of attempts: up to and including the first success, at most `limit`. */
  function Tries(transport: nat -> bool, limit: nat): (n: nat)
    ensures n <= limit && (limit > 0 ==> n > 0)
    ensures forall i :: 0 <= i < n - 1 ==> !transport(i)
    ensures n < limit ==> n > 0 && transport(n - 1)
  {
    if limit == 0 then 0
    else
      var n := Tries(transport, limit - 1);
      if n > 0 && transport(n - 1) then n else limit
  }

  datatype Reply =
    | FailedFast                                   // circuit open
    | NoAttempt                                    // negative max_retries: no response to read
    | Answered(attempts: nat, slept: real)
    | TransportError(attempts: nat, slept: real)

  /** What one request does to the breaker. */
  function Served(cfg: Config, c: Circuits, o: Origin, checkAt: real, transport: nat -> bool, recordAt: real): Circuits
  {
    if IsOpen(c, o, checkAt) || cfg.maxRetries < 0 then c
    else Recorded(cfg, c, Report(o, transport(Tries(transport, cfg.maxRetries + 1) - 1), recordAt))
  }

  class HttpClient {
    const config: Config
    var circuit: Circuits

    constructor (config: Config)
      ensures this.config == config && circuit == Replay(config, [])
    {
      this.config := config;
      circuit := map[];
    }

    /**
     * A success closes the circuit and clears the count; a failure adds one to the count and
     * opens the circuit once the threshold is reached.  Other origins keep their state.
     */
    method Record(r: Report)
      modifies this
      ensures circuit == Recorded(config, old(circuit), r)
      ensures circuit.Keys == old(circuit).Keys + {r.origin}
      ensures forall o :: o in old(circuit) && o != r.origin ==> circuit[o] == old(circuit)[o]
      ensures r.success ==> circuit[r.origin].failures == 0 && !IsOpen(circuit, r.origin, 0.0)
      ensures !r.success ==> circuit[r.origin].failures == Lookup(old(circuit), r.origin).failures + 1
      ensures !r.success && circuit[r.origin].failures >= config.threshold ==>
                circuit[r.origin].openedUntil == r.at + config.cooldown
      ensures !r.success && circuit[r.origin].failures < config.threshold ==>
                circuit[r.origin].openedUntil == Lookup(old(circuit), r.origin).openedUntil
    {
      var st := if r.origin in circuit then circuit[r.origin] else State(0, 0.0);
      if r.success {
        st := State(0, 0.0);
      } else {
        st := st.(failures := st.failures + 1);
        if st.failures >= config.threshold {
          st := st.(openedUntil := r.at + config.cooldown);
        }
      }
      circuit := circuit[r.origin := st];
    }

    /**
     * One request.  `transport(i)` tells whether attempt i gets a response, `checkAt` and
     * `recordAt` are the clock readings at the gate and at the recording.
     */
    method Request(o: Origin, checkAt: real, transport: nat -> bool, recordAt: real) returns (reply: Reply)
      modifies this
      ensures circuit == Served(config, old(circuit), o, checkAt, transport, recordAt)
      ensures forall other :: other != o ==>
                (other in circuit <==> other in old(circuit))
                && (other in circuit ==> circuit[other] == old(circuit)[other])
      ensures reply.FailedFast? || reply.NoAttempt? ==> circuit == old(circuit)
      ensures reply.Answered? ==> o in circuit && circuit[o] == State(0, 0.0)
      ensures reply.TransportError? ==>
                var before := if o in old(circuit) then old(circuit)[o] else State(0, 0.0);
                && o in circuit && circuit[o].failures == before.failures + 1
                && circuit[o].openedUntil == if before.failures + 1 >= config.threshold
                                             then recordAt + config.cooldown else before.openedUntil
      ensures reply.FailedFast? <==> o in old(circuit) && checkAt < old(circuit)[o].openedUntil
      ensures reply.NoAttempt? <==> !reply.FailedFast? && config.maxRetries < 0
      ensures reply.Answered? || reply.TransportError? ==>
                && 1 <= reply.attempts <= config.maxRetries + 1
                && (forall i :: 0 <= i < reply.attempts - 1 ==> !transport(i))
                && transport(reply.attempts - 1) == reply.Answered?
                && (reply.TransportError? ==> reply.attempts == config.maxRetries + 1)
                && reply.slept == Slept(config.backoffBase, reply.attempts - 1)
    {
      if IsOpen(circuit, o, checkAt) {
        return FailedFast;
      }
      var attempts := config.maxRetries + 1;
      var attempt := 0;
      var slept := 0.0;
      while attempt < attempts
        invariant 0 <= attempt && (attempts > 0 ==> attempt < attempts)
        invariant forall i :: 0 <= i < attempt ==> !transport(i)
        invariant slept == Slept(config.backoffBase, attempt)
        invariant circuit == old(circuit)
      {
        if transport(attempt) {
          TriesIs(transport, attempts, attempt + 1);
          Record(Report(o, true, recordAt));
          return Answered(attempt + 1, slept);
        }
        if attempt + 1 == attempts {
          TriesIs(transport, attempts, attempt + 1);
          Record(Report(o, false, recordAt));
          return TransportError(attempt + 1, slept);
        }
        slept := slept + config.backoffBase * Pow2(attempt) as real;
        attempt := attempt + 1;
      }
      return NoAttempt;
    }
  }

  /** The backoff pauses of `n` failed attempts. */
  function Slept(base: real, n: nat): real
  {
    if n == 0 then 0.0 else Slept(base, n - 1) + base * Pow2(n - 1) as real
  }

  lemma {:induction false} SleptIs(base: real, n: nat)
    ensures Slept(base, n) == base * (Pow2(n) - 1) as real
  {
    if n > 0 {
      SleptIs(base, n - 1);
      var a, b := (Pow2(n - 1) - 1) as real, Pow2(n - 1) as real;
      assert base * a + base * b == base * (a + b);
    }
  }

  lemma {:induction false} TriesIs(transport: nat -> bool, limit: nat, n: nat)
    requires 0 < n <= limit && forall i :: 0 <= i < n - 1 ==> !transport(i)
    requires transport(n - 1) || n == limit
    ensures Tries(transport, limit) == n
  {
  }

  // ---- The rate bound --------------------------------------------------------------------------

  datatype Call = Call(origin: Origin, checkAt: real, transport: nat -> bool, recordAt: real)

  /** Requests one after the other on a clock that never goes back, from `now` to `end`. */
  ghost predicate Sequential(calls: seq<Call>, now: real, end: real)
  {
    if calls == [] then now <= end
    else now <= calls[0].checkAt <= calls[0].recordAt && Sequential(calls[1..], calls[0].recordAt, end)
  }

  predicate Attempts(cfg: Config, c: Circuits, call: Call)
  {
    !IsOpen(c, call.origin, call.checkAt) && cfg.maxRetries >= 0
  }

  function Next(cfg: Config, c: Circuits, call: Call): Circuits
  {
    Served(cfg, c, call.origin, call.checkAt, call.transport, call.recordAt)
  }

  /** Does the last attempt of the request get a response? */
  predicate Succeeds(cfg: Config, call: Call)
    requires cfg.maxRetries >= 0
  {
    call.transport(Tries(call.transport, cfg.maxRetries + 1) - 1)
  }

  /** How many of `calls` to `o` get past the gate and record a failure. */
  function Failures(cfg: Config, c: Circuits, calls: seq<Call>, o: Origin): nat
    decreases |calls|
  {
    if calls == [] then 0 else
    var rest := Failures(cfg, Next(cfg, c, calls[0]), calls[1..], o);
    if calls[0].origin == o && Attempts(cfg, c, calls[0]) && !Succeeds(cfg, calls[0]) then rest + 1 else rest
  }

  /** How many transport attempts `calls` make on `o`. */
  function TransportAttempts(cfg: Config, c: Circuits, calls: seq<Call>, o: Origin): nat
    decreases |calls|
  {
    if calls == [] then 0 else
    var rest := TransportAttempts(cfg, Next(cfg, c, calls[0]), calls[1..], o);
    if calls[0].origin == o && Attempts(cfg, c, calls[0]) then rest + Tries(calls[0].transport, cfg.maxRetries + 1)
    else rest
  }

  ghost predicate AlwaysFails(calls: seq<Call>, o: Origin)
  {
    forall i, a :: 0 <= i < |calls| && calls[i].origin == o ==> !calls[i].transport(a)
  }

  /** `k` cooldowns after `start`. */
  function Slot(start: real, cooldown: real, k: nat): real
  {
    if k == 0 then start else Slot(start, cooldown, k - 1) + cooldown
  }

  lemma {:induction false} SlotIs(start: real, cooldown: real, k: nat)
    ensures Slot(start, cooldown, k) == start + k as real * cooldown
  {
    if k > 0 {
      SlotIs(start, cooldown, k - 1);
    }
  }

  /**
   * Progress of a run: `n` failures recorded on `o` since `start`.  Past the threshold each
   * one has to wait for its slot, and the next slot is still closed.
   */
  ghost predicate Paced(cfg: Config, c: Circuits, o: Origin, start: real, now: real, n: nat)
  {
    && Lookup(c, o).failures >= n && start <= now
    && (n > cfg.threshold ==> Slot(start, cfg.cooldown, n - cfg.threshold) <= now)
    && (n >= cfg.threshold ==> o in c && c[o].openedUntil >= Slot(start, cfg.cooldown, n - cfg.threshold + 1))
  }

  lemma {:induction false} PacedStep(cfg: Config, c: Circuits, call: Call, o: Origin, start: real, now: real, n: nat)
    requires cfg.threshold >= 1 && cfg.maxRetries >= 0 && Paced(cfg, c, o, start, now, n)
    requires now <= call.checkAt <= call.recordAt && call.origin == o && Attempts(cfg, c, call) && !Succeeds(cfg, call)
    ensures Paced(cfg, Next(cfg, c, call), o, start, call.recordAt, n + 1)
  {
    if n >= cfg.threshold {
      assert Slot(start, cfg.cooldown, n - cfg.threshold + 1) <= call.checkAt;
      assert Slot(start, cfg.cooldown, n + 1 - cfg.threshold + 1)
          == Slot(start, cfg.cooldown, n - cfg.threshold + 1) + cfg.cooldown;
    } else if n + 1 == cfg.threshold {
      assert Slot(start, cfg.cooldown, 1) == Slot(start, cfg.cooldown, 0) + cfg.cooldown;
    }
  }

  lemma {:induction false} PacedRun(cfg: Config, c: Circuits, calls: seq<Call>, o: Origin, start: real, now: real,
                                    end: real, n: nat)
    requires cfg.threshold >= 1 && cfg.maxRetries >= 0
    requires Sequential(calls, now, end) && AlwaysFails(calls, o) && Paced(cfg, c, o, start, now, n)
    ensures var total := n + Failures(cfg, c, calls, o);
            total > cfg.threshold ==> Slot(start, cfg.cooldown, total - cfg.threshold) <= end
    decreases |calls|
  {
    if calls != [] {
      var call := calls[0];
      var c' := Next(cfg, c, call);
      FailsOnward(calls, o);
      if call.origin == o && Attempts(cfg, c, call) {
        PacedStep(cfg, c, call, o, start, now, n);
        PacedRun(cfg, c', calls[1..], o, start, call.recordAt, end, n + 1);
      } else {
        assert Lookup(c', o) == Lookup(c, o) && (o in c ==> o in c');
        PacedRun(cfg, c', calls[1..], o, start, call.recordAt, end, n);
      }
    }
  }

  lemma {:induction false} FailsOnward(calls: seq<Call>, o: Origin)
    requires calls != [] && AlwaysFails(calls, o)
    ensures AlwaysFails(calls[1..], o)
    ensures calls[0].origin == o ==> forall a :: !calls[0].transport(a)
  {
    assert forall i :: 0 <= i < |calls[1..]| ==> calls[1..][i] == calls[i + 1];
  }

  lemma {:induction false} AttemptsPerFailure(cfg: Config, c: Circuits, calls: seq<Call>, o: Origin)
    requires AlwaysFails(calls, o)
    ensures TransportAttempts(cfg, c, calls, o) == Failures(cfg, c, calls, o) * (cfg.maxRetries + 1)
    decreases |calls|
  {
    if cfg.maxRetries < 0 {
      NeverAttempts(cfg, c, calls, o);
    } else if calls != [] {
      FailsOnward(calls, o);
      var c' := Next(cfg, c, calls[0]);
      AttemptsPerFailure(cfg, c', calls[1..], o);
      OneMore(Failures(cfg, c', calls[1..], o), cfg.maxRetries + 1);
    }
  }

  lemma {:induction false} NeverAttempts(cfg: Config, c: Circuits, calls: seq<Call>, o: Origin)
    requires cfg.maxRetries < 0
    ensures Failures(cfg, c, calls, o) == 0 && TransportAttempts(cfg, c, calls, o) == 0
    decreases |calls|
  {
    if calls != [] {
      NeverAttempts(cfg, Next(cfg, c, calls[0]), calls[1..], o);
    }
  }

  lemma {:induction false} OneMore(n: nat, limit: nat)
    ensures (n + 1) * limit == n * limit + limit
  {
  }

  /** Past the threshold a failure takes a cooldown. */
  lemma {:induction false} FailuresTakeTime(cfg: Config, c: Circuits, calls: seq<Call>, o: Origin, start: real,
                                            end: real, n: nat)
    requires cfg.threshold >= 1 && n == Failures(cfg, c, calls, o)
    requires Sequential(calls, start, end) && AlwaysFails(calls, o)
    ensures Slot(start, cfg.cooldown, if n > cfg.threshold then n - cfg.threshold else 0) <= end
  {
    SequentialSpan(calls, start, end);
    if cfg.maxRetries < 0 {
      NeverAttempts(cfg, c, calls, o);
    } else {
      PacedRun(cfg, c, calls, o, start, start, end, 0);
    }
  }

  /**
   * Sequential requests to an origin that never answers record at most
   * threshold + floor(T / cooldown) failures over an elapsed time T, whatever state the
   * breaker starts in and whatever happens on other origins; each costs max_retries + 1
   * attempts.
   */
  lemma {:induction false} RateBound(cfg: Config, c: Circuits, calls: seq<Call>, o: Origin, start: real, elapsed: real)
    requires cfg.threshold >= 1 && cfg.cooldown > 0.0
    requires Sequential(calls, start, start + elapsed) && AlwaysFails(calls, o)
    ensures Failures(cfg, c, calls, o) <= cfg.threshold + (elapsed / cfg.cooldown).Floor
    ensures TransportAttempts(cfg, c, calls, o) == Failures(cfg, c, calls, o) * (cfg.maxRetries + 1)
  {
    var n := Failures(cfg, c, calls, o);
    FailuresTakeTime(cfg, c, calls, o, start, start + elapsed, n);
    FloorBound(start, cfg.cooldown, if n > cfg.threshold then n - cfg.threshold else 0, elapsed);
    AttemptsPerFailure(cfg, c, calls, o);
  }

  /** As many whole cooldowns as fit. */
  lemma {:induction false} FloorBound(start: real, cooldown: real, k: nat, elapsed: real)
    requires cooldown > 0.0 && Slot(start, cooldown, k) <= start + elapsed
    ensures k <= (elapsed / cooldown).Floor
  {
    SlotIs(start, cooldown, k);
    Divide(k as real, cooldown, elapsed);
  }

  lemma {:induction false} Divide(x: real, y: real, z: real)
    requires y > 0.0 && x * y <= z
    ensures x <= z / y
  {
  }

  lemma {:induction false} SequentialSpan(calls: seq<Call>, now: real, end: real)
    requires Sequential(calls, now, end)
    ensures now <= end
    decreases |calls|
  {
    if calls != [] {
      SequentialSpan(calls[1..], calls[0].recordAt, end);
    }
  }

  // ---- The bound is reached -----------------------------------------------------------------------

  /** One request whose attempts all fail, made and recorded at one instant. */
  function Instant(o: Origin, at: real): Call
  {
    Call(o, at, (a: nat) => false, at)
  }

  /** `threshold` failures at once, then one more whenever the circuit closes again: when the `n`th is recorded. */
  function HammerAt(cfg: Config, start: real, n: nat): real
    requires cfg.threshold >= 1
  {
    if n <= cfg.threshold then start else HammerAt(cfg, start, n - 1) + cfg.cooldown
  }

  function Hammer(cfg: Config, o: Origin, start: real, n: nat, total: nat): seq<Call>
    requires n <= total && cfg.threshold >= 1
    decreases total - n
  {
    if n == total then []
    else [Instant(o, HammerAt(cfg, start, n + 1))] + Hammer(cfg, o, start, n + 1, total)
  }

  /** The entry of the origin after `n` failures of that pattern. */
  function Hammered(cfg: Config, start: real, n: nat): State
    requires cfg.threshold >= 1
  {
    State(n, if n < cfg.threshold then 0.0 else HammerAt(cfg, start, n) + cfg.cooldown)
  }

  /** For every number of cooldowns some sequential run records exactly the bound. */
  lemma {:induction false} RateBoundReached(cfg: Config, o: Origin, start: real, cooldowns: nat)
    requires cfg.threshold >= 1 && cfg.cooldown > 0.0 && cfg.maxRetries >= 0 && start >= 0.0
    ensures var calls := Hammer(cfg, o, start, 0, cfg.threshold + cooldowns);
            && Sequential(calls, start, start + cooldowns as real * cfg.cooldown) && AlwaysFails(calls, o)
            && Failures(cfg, map[], calls, o) == cfg.threshold + cooldowns
  {
    HammerAtSlot(cfg, start, cooldowns);
    SlotIs(start, cfg.cooldown, cooldowns);
    HammerRun(cfg, map[], o, start, 0, cfg.threshold + cooldowns);
    assert HammerAt(cfg, start, cfg.threshold + cooldowns) == start + cooldowns as real * cfg.cooldown;
  }

  lemma {:induction false} HammerAtSlot(cfg: Config, start: real, k: nat)
    requires cfg.threshold >= 1
    ensures HammerAt(cfg, start, cfg.threshold + k) == Slot(start, cfg.cooldown, k)
  {
    if k > 0 {
      HammerAtSlot(cfg, start, k - 1);
    }
  }

  /** A run of calls that all fail, `n` of which get past the gate. */
  ghost predicate FailingRun(cfg: Config, c: Circuits, calls: seq<Call>, o: Origin, now: real, end: real, n: nat)
  {
    Sequential(calls, now, end) && AlwaysFails(calls, o) && Failures(cfg, c, calls, o) == n
  }

  lemma {:induction false} FailingRunCons(cfg: Config, c: Circuits, at: real, rest: seq<Call>, o: Origin, now: real,
                                          end: real, n: nat)
    requires cfg.maxRetries >= 0 && now <= at && !IsOpen(c, o, at)
    requires FailingRun(cfg, Next(cfg, c, Instant(o, at)), rest, o, at, end, n)
    ensures FailingRun(cfg, c, [Instant(o, at)] + rest, o, now, end, n + 1)
  {
    assert ([Instant(o, at)] + rest)[1..] == rest;
  }

  lemma {:induction false} HammerRun(cfg: Config, c: Circuits, o: Origin, start: real, n: nat, total: nat)
    requires cfg.threshold >= 1 && cfg.cooldown > 0.0 && cfg.maxRetries >= 0 && start >= 0.0
    requires n <= total && Lookup(c, o) == Hammered(cfg, start, n)
    ensures FailingRun(cfg, c, Hammer(cfg, o, start, n, total), o, HammerAt(cfg, start, n),
                       HammerAt(cfg, start, total), total - n)
    decreases total - n
  {
    if n < total {
      var at := HammerAt(cfg, start, n + 1);
      HammerStep(cfg, c, o, start, n);
      HammerRun(cfg, Next(cfg, c, Instant(o, at)), o, start, n + 1, total);
      FailingRunCons(cfg, c, at, Hammer(cfg, o, start, n + 1, total), o, HammerAt(cfg, start, n),
                     HammerAt(cfg, start, total), total - n - 1);
    }
  }

  lemma {:induction false} HammerStep(cfg: Config, c: Circuits, o: Origin, start: real, n: nat)
    requires cfg.threshold >= 1 && cfg.cooldown > 0.0 && cfg.maxRetries >= 0 && start >= 0.0
    requires Lookup(c, o) == Hammered(cfg, start, n)
    ensures var at := HammerAt(cfg, start, n + 1);
            && HammerAt(cfg, start, n) <= at && !IsOpen(c, o, at)
            && Lookup(Next(cfg, c, Instant(o, at)), o) == Hammered(cfg, start, n + 1)
  {
    assert n < cfg.threshold ==> HammerAt(cfg, start, n + 1) == start;
  }
}
