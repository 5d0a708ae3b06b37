/** The breaker under concurrent requests: some pass the gate together before any of them records. */
module CircuitConcurrent {
  import opened Circuit

  datatype Event =
    | Gate(origin: Origin, at: real)   // a request asks whether it may go out
    | Finish(report: Report)           // a request that went out records what came of it

  datatype World = World(circuit: Circuits, flying: map<Origin, nat>)

  /** How many requests to `o` have passed the gate and not recorded yet. */
  function Flying(s: World, o: Origin): nat
  {
    if o in s.flying then s.flying[o] else 0
  }

  predicate Happens(s: World, e: Event)
  {
    match e
    case Gate(o, at) => !IsOpen(s.circuit, o, at)
    case Finish(r) => Flying(s, r.origin) > 0
  }

  /** A closed gate changes nothing, and nobody records who did not go out. */
  function Step(cfg: Config, s: World, e: Event): World
  {
    if !Happens(s, e) then s else
    match e
    case Gate(o, _) => s.(flying := s.flying[o := Flying(s, o) + 1])
    case Finish(r) => World(Recorded(cfg, s.circuit, r), s.flying[r.origin := Flying(s, r.origin) - 1])
  }

  function TimeOf(e: Event): real
  {
    match e
    case Gate(_, at) => at
    case Finish(r) => r.at
  }

  /** The clock never goes back, from `now` to `end`. */
  ghost predicate Timed(events: seq<Event>, now: real, end: real)
  {
    if events == [] then now <= end else now <= TimeOf(events[0]) && Timed(events[1..], TimeOf(events[0]), end)
  }

  ghost predicate NoneSucceeds(events: seq<Event>, o: Origin)
  {
    forall i :: 0 <= i < |events| && events[i].Finish? && events[i].report.origin == o ==> !events[i].report.success
  }

  /** At no time are more than `w` requests to `o` in flight. */
  ghost predicate AtMost(cfg: Config, s: World, events: seq<Event>, o: Origin, w: nat)
    decreases |events|
  {
    Flying(s, o) <= w && (events != [] ==> AtMost(cfg, Step(cfg, s, events[0]), events[1..], o, w))
  }

  /** How many failures are recorded for `o`. */
  function Recordings(cfg: Config, s: World, events: seq<Event>, o: Origin): nat
    decreases |events|
  {
    if events == [] then 0 else
    var rest := Recordings(cfg, Step(cfg, s, events[0]), events[1..], o);
    if events[0].Finish? && events[0].report.origin == o && Happens(s, events[0]) then rest + 1 else rest
  }

  /** Rounds past the threshold, of `w` failures each. */
  function Round(cfg: Config, n: nat, w: nat): nat
    requires w >= 1 && n >= cfg.threshold >= 0
  {
    (n - cfg.threshold) / w
  }

  /**
   * `n` failures recorded, `f` requests in flight.  A round cannot begin before its slot and
   * keeps the gate closed until the next; until then what is in flight stems from before the
   * round, too little to finish it.
   */
  ghost predicate Paced(cfg: Config, c: Circuits, f: nat, o: Origin, start: real, now: real, n: nat, w: nat)
    requires w >= 1 && cfg.threshold >= 1
  {
    && Circuit.Lookup(c, o).failures >= n && start <= now && f <= w
    && (n >= cfg.threshold ==>
          var k := Round(cfg, n, w);
          && Slot(start, cfg.cooldown, k) <= now
          && o in c && c[o].openedUntil >= Slot(start, cfg.cooldown, k + 1)
          && (Slot(start, cfg.cooldown, k + 1) <= now || (n - cfg.threshold) % w + f <= w - 1))
  }

  lemma {:induction false} NextRound(m: nat, w: nat)
    requires w >= 1
    ensures if m % w == w - 1 then (m + 1) / w == m / w + 1 && (m + 1) % w == 0
            else (m + 1) / w == m / w && (m + 1) % w == m % w + 1
  {
    var q, r := m / w, m % w;
    assert m == w * q + r;
    if r == w - 1 {
      assert m + 1 == w * (q + 1);
      Division(w, q + 1, 0);
    } else {
      Division(w, q, r + 1);
    }
  }

  lemma {:induction false} Division(w: nat, q: nat, r: nat)
    requires r < w
    ensures (w * q + r) / w == q && (w * q + r) % w == r
  {
    var m := w * q + r;
    var d := m / w - q;
    assert w * d == r - m % w by {
      assert m == w * (m / w) + m % w;
    }
    Multiples(w, d);
  }

  lemma {:induction false} Multiples(w: nat, d: int)
    ensures d >= 1 ==> w * d >= w
    ensures d <= -1 ==> w * d + w <= 0
  {
  }

  lemma {:induction false} PacedFinish(cfg: Config, c: Circuits, f: nat, o: Origin, start: real, now: real, n: nat,
                                       w: nat, r: Report)
    requires w >= 1 && cfg.threshold >= 1 && cfg.cooldown > 0.0 && Paced(cfg, c, f, o, start, now, n, w)
    requires f >= 1 && r.origin == o && !r.success && now <= r.at
    ensures Paced(cfg, Recorded(cfg, c, r), f - 1, o, start, r.at, n + 1, w)
  {
    if n >= cfg.threshold {
      var k := Round(cfg, n, w);
      NextRound(n - cfg.threshold, w);
      assert Slot(start, cfg.cooldown, k + 2) == Slot(start, cfg.cooldown, k + 1) + cfg.cooldown;
      assert Slot(start, cfg.cooldown, k + 1) == Slot(start, cfg.cooldown, k) + cfg.cooldown;
    } else if n + 1 == cfg.threshold {
      Division(w, 0, 0);
      assert Round(cfg, n + 1, w) == 0;
      assert Slot(start, cfg.cooldown, 1) == Slot(start, cfg.cooldown, 0) + cfg.cooldown;
    }
  }

  lemma {:induction false} PacedGate(cfg: Config, c: Circuits, f: nat, o: Origin, start: real, now: real, n: nat,
                                     w: nat, at: real)
    requires w >= 1 && cfg.threshold >= 1 && Paced(cfg, c, f, o, start, now, n, w)
    requires f + 1 <= w && now <= at && !IsOpen(c, o, at)
    ensures Paced(cfg, c, f + 1, o, start, at, n, w)
  {
  }

  lemma {:induction false} PacedStep(cfg: Config, s: World, e: Event, o: Origin, start: real, now: real, n: nat, w: nat)
    requires w >= 1 && cfg.threshold >= 1 && cfg.cooldown > 0.0
    requires Paced(cfg, s.circuit, Flying(s, o), o, start, now, n, w)
    requires now <= TimeOf(e) && Flying(Step(cfg, s, e), o) <= w
    requires e.Finish? && e.report.origin == o ==> !e.report.success
    ensures var s' := Step(cfg, s, e);
            Paced(cfg, s'.circuit, Flying(s', o), o, start, TimeOf(e),
                  if e.Finish? && e.report.origin == o && Happens(s, e) then n + 1 else n, w)
  {
    if Happens(s, e) {
      match e
      case Gate(o', at) =>
        if o' == o {
          PacedGate(cfg, s.circuit, Flying(s, o), o, start, now, n, w, at);
        }
      case Finish(r) =>
        if r.origin == o {
          PacedFinish(cfg, s.circuit, Flying(s, o), o, start, now, n, w, r);
        }
    }
  }

  lemma {:induction false} PacedRun(cfg: Config, s: World, events: seq<Event>, o: Origin, start: real, now: real,
                                    end: real, n: nat, w: nat)
    requires w >= 1 && cfg.threshold >= 1 && cfg.cooldown > 0.0
    requires Timed(events, now, end) && NoneSucceeds(events, o) && AtMost(cfg, s, events, o, w)
    requires Paced(cfg, s.circuit, Flying(s, o), o, start, now, n, w)
    ensures start <= end
    ensures var total := n + Recordings(cfg, s, events, o);
            total >= cfg.threshold ==> Slot(start, cfg.cooldown, Round(cfg, total, w)) <= end
    decreases |events|
  {
    if events != [] {
      var e, s' := events[0], Step(cfg, s, events[0]);
      assert forall i :: 0 <= i < |events[1..]| ==> events[1..][i] == events[i + 1];
      PacedStep(cfg, s, e, o, start, now, n, w);
      PacedRun(cfg, s', events[1..], o, start, TimeOf(e), end,
               if e.Finish? && e.report.origin == o && Happens(s, e) then n + 1 else n, w);
    }
  }

  /**
   * With at most `w` requests to an origin in flight at any time and none answered, at most
   * threshold + w - 1 + w * floor(T / cooldown) failures are recorded over an elapsed time T,
   * from whatever breaker state and with whatever traffic to other origins.
   */
  lemma {:induction false} ConcurrentRateBound(cfg: Config, s: World, events: seq<Event>, o: Origin, start: real,
                                               elapsed: real, w: nat)
    requires w >= 1 && cfg.threshold >= 1 && cfg.cooldown > 0.0
    requires Timed(events, start, start + elapsed) && NoneSucceeds(events, o)
    requires Flying(s, o) == 0 && AtMost(cfg, s, events, o, w)
    ensures Recordings(cfg, s, events, o) <= cfg.threshold + w - 1 + w * (elapsed / cfg.cooldown).Floor
  {
    PacedRun(cfg, s, events, o, start, start, start + elapsed, 0, w);
    var n := Recordings(cfg, s, events, o);
    var k := if n >= cfg.threshold then Round(cfg, n, w) else 0;
    FloorBound(start, cfg.cooldown, k, elapsed);
    Product(w, k, (elapsed / cfg.cooldown).Floor);
    assert n >= cfg.threshold ==> n - cfg.threshold <= w * k + w - 1;
  }

  lemma {:induction false} Product(w: nat, k: int, floor: int)
    requires k <= floor
    ensures w * k <= w * floor
  {
  }

  // ---- The bound is reached -----------------------------------------------------------------------

  /** The burst at which the threshold is reached, and each later one, waits for its slot. */
  function BurstAt(cfg: Config, start: real, r: nat): real
  {
    if r < cfg.threshold then start else Slot(start, cfg.cooldown, r + 1 - cfg.threshold)
  }

  /** One request at a time short of the threshold, then `w` together. */
  function BurstSize(cfg: Config, w: nat, r: nat): nat
  {
    if r + 1 < cfg.threshold then 1 else w
  }

  /** Burst `r` with `i` requests still to pass the gate and `j` failures to record, and the later bursts. */
  function Bursts(cfg: Config, o: Origin, start: real, w: nat, bursts: nat, r: nat, i: nat, j: nat): seq<Event>
    requires r <= bursts
    decreases bursts - r, i, j
  {
    if r == bursts then []
    else if i > 0 then [Gate(o, BurstAt(cfg, start, r))] + Bursts(cfg, o, start, w, bursts, r, i - 1, j)
    else if j > 0 then
      [Finish(Report(o, false, BurstAt(cfg, start, r)))] + Bursts(cfg, o, start, w, bursts, r, 0, j - 1)
    else
      Bursts(cfg, o, start, w, bursts, r + 1, BurstSize(cfg, w, r + 1), BurstSize(cfg, w, r + 1))
  }

  /** How many failures those bursts hold. */
  function Left(cfg: Config, w: nat, bursts: nat, r: nat, j: nat): nat
    requires r <= bursts
    decreases bursts - r
  {
    if r == bursts then 0 else j + Left(cfg, w, bursts, r + 1, BurstSize(cfg, w, r + 1))
  }

  /** Where the breaker stands in the middle of burst `r`. */
  ghost predicate Ready(cfg: Config, s: World, o: Origin, start: real, w: nat, r: nat, i: nat, j: nat)
  {
    var st := Circuit.Lookup(s.circuit, o);
    && i <= j <= w && Flying(s, o) == j - i
    && (r + 1 < cfg.threshold ==> st.failures + j == r + 1 && st.openedUntil <= start)
    && (r + 1 >= cfg.threshold ==>
          st.openedUntil <= BurstAt(cfg, start, r) + if i == 0 && j < w then cfg.cooldown else 0.0)
  }

  /** A run within the window, with at most `w` in flight, that records `n` failures. */
  ghost predicate Records(cfg: Config, s: World, events: seq<Event>, o: Origin, now: real, end: real, w: nat, n: nat)
  {
    && Timed(events, now, end) && NoneSucceeds(events, o) && AtMost(cfg, s, events, o, w)
    && Recordings(cfg, s, events, o) == n
  }

  lemma {:induction false} RecordsCons(cfg: Config, s: World, e: Event, rest: seq<Event>, o: Origin, now: real,
                                       end: real, w: nat, n: nat)
    requires now <= TimeOf(e) && Flying(s, o) <= w && (e.Finish? ==> !e.report.success)
    requires Records(cfg, Step(cfg, s, e), rest, o, TimeOf(e), end, w, n)
    ensures Records(cfg, s, [e] + rest, o, now, end, w,
                    if e.Finish? && e.report.origin == o && Happens(s, e) then n + 1 else n)
  {
    assert ([e] + rest)[1..] == rest;
  }

  lemma {:induction false} ReadyGate(cfg: Config, s: World, o: Origin, start: real, w: nat, r: nat, i: nat, j: nat)
    requires i > 0 && Ready(cfg, s, o, start, w, r, i, j)
    requires j == BurstSize(cfg, w, r) && cfg.cooldown > 0.0
    ensures var e := Gate(o, BurstAt(cfg, start, r));
            Happens(s, e) && Ready(cfg, Step(cfg, s, e), o, start, w, r, i - 1, j)
  {
  }

  lemma {:induction false} ReadyFinish(cfg: Config, s: World, o: Origin, start: real, w: nat, r: nat, j: nat)
    requires j > 0 && Ready(cfg, s, o, start, w, r, 0, j) && cfg.cooldown > 0.0
    ensures var e := Finish(Report(o, false, BurstAt(cfg, start, r)));
            Happens(s, e) && Ready(cfg, Step(cfg, s, e), o, start, w, r, 0, j - 1)
  {
  }

  lemma {:induction false} ReadyNext(cfg: Config, s: World, o: Origin, start: real, w: nat, r: nat)
    requires w >= 1 && cfg.cooldown > 0.0 && Ready(cfg, s, o, start, w, r, 0, 0)
    ensures Ready(cfg, s, o, start, w, r + 1, BurstSize(cfg, w, r + 1), BurstSize(cfg, w, r + 1))
    ensures BurstAt(cfg, start, r) <= BurstAt(cfg, start, r + 1)
  {
    if r + 1 >= cfg.threshold {
      NextBurst(cfg, start, r);
    }
  }

  lemma {:induction false} NextBurst(cfg: Config, start: real, r: nat)
    requires r + 1 >= cfg.threshold
    ensures BurstAt(cfg, start, r + 1) == BurstAt(cfg, start, r) + cfg.cooldown
  {
    assert Slot(start, cfg.cooldown, r + 2 - cfg.threshold)
        == Slot(start, cfg.cooldown, r + 1 - cfg.threshold) + cfg.cooldown;
  }

  lemma {:induction false} BurstsRun(cfg: Config, s: World, o: Origin, start: real, now: real, w: nat, bursts: nat,
                                     r: nat, i: nat, j: nat)
    requires w >= 1 && cfg.cooldown > 0.0 && r < bursts && Ready(cfg, s, o, start, w, r, i, j)
    requires now <= BurstAt(cfg, start, r) && (i > 0 ==> j == BurstSize(cfg, w, r))
    ensures Records(cfg, s, Bursts(cfg, o, start, w, bursts, r, i, j), o, now, BurstAt(cfg, start, bursts - 1), w,
                    Left(cfg, w, bursts, r, j))
    decreases bursts - r, i, j
  {
    var at, end := BurstAt(cfg, start, r), BurstAt(cfg, start, bursts - 1);
    if i > 0 {
      var e := Gate(o, at);
      ReadyGate(cfg, s, o, start, w, r, i, j);
      BurstsRun(cfg, Step(cfg, s, e), o, start, at, w, bursts, r, i - 1, j);
      RecordsCons(cfg, s, e, Bursts(cfg, o, start, w, bursts, r, i - 1, j), o, now, end, w, Left(cfg, w, bursts, r, j));
    } else if j > 0 {
      var e := Finish(Report(o, false, at));
      ReadyFinish(cfg, s, o, start, w, r, j);
      BurstsRun(cfg, Step(cfg, s, e), o, start, at, w, bursts, r, 0, j - 1);
      RecordsCons(cfg, s, e, Bursts(cfg, o, start, w, bursts, r, 0, j - 1), o, now, end, w,
                  Left(cfg, w, bursts, r, j - 1));
    } else {
      var size := BurstSize(cfg, w, r + 1);
      ReadyNext(cfg, s, o, start, w, r);
      if r + 1 < bursts {
        BurstsRun(cfg, s, o, start, now, w, bursts, r + 1, size, size);
      }
    }
  }

  lemma {:induction false} LeftIs(cfg: Config, w: nat, bursts: nat, r: nat)
    requires cfg.threshold >= 1 && r < bursts && bursts >= cfg.threshold
    ensures Left(cfg, w, bursts, r, BurstSize(cfg, w, r)) ==
            if r + 1 < cfg.threshold then cfg.threshold - 1 - r + w * (bursts + 1 - cfg.threshold) else w * (bursts - r)
    decreases bursts - r
  {
    if r + 1 < bursts {
      LeftIs(cfg, w, bursts, r + 1);
      MoreBy(w, bursts - r - 1);
    }
  }

  lemma {:induction false} MoreBy(w: nat, n: nat)
    ensures w * (n + 1) == w * n + w
  {
  }

  /** For every number of cooldowns some run with at most `w` requests in flight records exactly the bound. */
  lemma {:induction false} ConcurrentRateBoundReached(cfg: Config, o: Origin, start: real, cooldowns: nat, w: nat)
    requires w >= 1 && cfg.threshold >= 1 && cfg.cooldown > 0.0 && start >= 0.0
    ensures var s, size := World(map[], map[]), BurstSize(cfg, w, 0);
            var events := Bursts(cfg, o, start, w, cfg.threshold + cooldowns, 0, size, size);
            && Timed(events, start, start + cooldowns as real * cfg.cooldown) && NoneSucceeds(events, o)
            && Flying(s, o) == 0 && AtMost(cfg, s, events, o, w)
            && Recordings(cfg, s, events, o) == cfg.threshold + w - 1 + w * cooldowns
  {
    var bursts, size := cfg.threshold + cooldowns, BurstSize(cfg, w, 0);
    BurstsRun(cfg, World(map[], map[]), o, start, start, w, bursts, 0, size, size);
    LeftIs(cfg, w, bursts, 0);
    MoreBy(w, cooldowns);
    LastBurst(cfg, start, cooldowns);
  }

  lemma {:induction false} LastBurst(cfg: Config, start: real, cooldowns: nat)
    requires cfg.threshold >= 1
    ensures BurstAt(cfg, start, cfg.threshold + cooldowns - 1) == start + cooldowns as real * cfg.cooldown
  {
    SlotIs(start, cfg.cooldown, cooldowns);
  }
}
