/** Invocation statistics: how many invocations there were, how they ended, and of which capability. */
module AuditStats {
  import opened Audit
  import opened Seqs

  // ---- What is counted -------------------------------------------------------------------------

  /** The invocations that started, each once. */
  function StartedIds(es: seq<Event>): seq<string>
  {
    FirstIds(Starts(es))
  }

  /** The outcome over the terminal events of one invocation: the first known one, else "unknown". */
  function FinalOutcome(own: seq<Event>): Option<string>
  {
    if own == [] then None
    else
      var before := FinalOutcome(Init(own));
      if before.None? || before.value == UNKNOWN then Some(OrUnknown(own[|own| - 1].outcome)) else before
  }

  function CountedOutcome(es: seq<Event>, id: string): string
  {
    var o := FinalOutcome(Own(Terminals(es), id));
    if o.Some? then o.value else INCOMPLETE
  }

  /** The capability that the first start event of the invocation names. */
  function CapabilityOf(es: seq<Event>, id: string): string
  {
    var starts := Own(Starts(es), id);
    if starts == [] then UNKNOWN else OrUnknown(starts[0].capability)
  }

  function CountOutcome(ids: seq<string>, es: seq<Event>, outcome: string): nat
  {
    if ids == [] then 0
    else CountOutcome(ids[..|ids| - 1], es, outcome) + if CountedOutcome(es, ids[|ids| - 1]) == outcome then 1 else 0
  }

  function CountCapability(ids: seq<string>, es: seq<Event>, cap: string): nat
  {
    if ids == [] then 0
    else CountCapability(ids[..|ids| - 1], es, cap) + if CapabilityOf(es, ids[|ids| - 1]) == cap then 1 else 0
  }

  // ---- Counters ----------------------------------------------------------------------------------

  datatype Entry = Entry(key: string, count: nat)

  /** Adding one to an entry of an insertion-ordered dictionary whose missing entries read 0. */
  function Bump(counts: seq<Entry>, key: string): seq<Entry>
  {
    if counts == [] then [Entry(key, 1)]
    else if counts[0].key == key then [Entry(key, counts[0].count + 1)] + counts[1..]
    else [counts[0]] + Bump(counts[1..], key)
  }

  function Read(counts: seq<Entry>, key: string): nat
  {
    if counts == [] then 0 else if counts[0].key == key then counts[0].count else Read(counts[1..], key)
  }

  function Sum(counts: seq<Entry>): nat
  {
    if counts == [] then 0 else counts[0].count + Sum(counts[1..])
  }

  lemma {:induction false} BumpCounts(counts: seq<Entry>, key: string)
    ensures Sum(Bump(counts, key)) == Sum(counts) + 1
    ensures forall k :: Read(Bump(counts, key), k) == Read(counts, k) + if k == key then 1 else 0
  {
    if counts != [] && counts[0].key != key {
      BumpCounts(counts[1..], key);
      assert Bump(counts, key)[1..] == Bump(counts[1..], key);
    } else if counts != [] {
      assert Bump(counts, key)[1..] == counts[1..];
    }
  }

  // ---- The aggregation ---------------------------------------------------------------------------

  datatype Start = Start(id: string, event: Event)

  ghost predicate StartedBy(started: seq<Start>, es: seq<Event>)
  {
    && |started| == |StartedIds(es)|
    && forall i :: 0 <= i < |started| ==>
                     && started[i].id == StartedIds(es)[i]
                     && Own(Starts(es), started[i].id) != []
                     && started[i].event == Own(Starts(es), started[i].id)[0]
  }

  lemma {:induction false} StartsSnoc(es: seq<Event>, e: Event)
    ensures Starts(es + [e]) == if e.kind == STARTED then Starts(es) + [e] else Starts(es)
  {
    assert Init(es + [e]) == es;
  }

  lemma {:induction false} FirstOwnKept(es: seq<Event>, e: Event, id: string)
    requires Own(es, id) != []
    ensures Own(es + [e], id) != [] && Own(es + [e], id)[0] == Own(es, id)[0]
  {
    OwnSnoc(es, e, id);
  }

  lemma {:induction false} StartedSame(started: seq<Start>, es: seq<Event>, e: Event)
    requires StartedBy(started, es)
    requires e.kind == STARTED && e.invocation.Some? ==>
               exists i :: 0 <= i < |started| && started[i].id == e.invocation.value
    ensures StartedBy(started, es + [e])
  {
    StartsSnoc(es, e);
    if e.kind == STARTED {
      FirstIdsSnoc(Starts(es), e);
      forall i | 0 <= i < |started|
        ensures Own(Starts(es + [e]), started[i].id) != []
                  && Own(Starts(es + [e]), started[i].id)[0] == started[i].event
      {
        FirstOwnKept(Starts(es), e, started[i].id);
      }
    }
  }

  lemma {:induction false} StartedMore(started: seq<Start>, es: seq<Event>, e: Event, id: string)
    requires StartedBy(started, es)
    requires e.kind == STARTED && e.invocation == Some(id) && forall i :: 0 <= i < |started| ==> started[i].id != id
    ensures StartedBy(started + [Start(id, e)], es + [e])
  {
    StartsSnoc(es, e);
    FirstIdsSnoc(Starts(es), e);
    assert id !in StartedIds(es) by {
      assert forall i :: 0 <= i < |started| ==> started[i].id == StartedIds(es)[i];
    }
    FirstIdsOwn(Starts(es), id);
    OwnSnoc(Starts(es), e, id);
    assert Own(Starts(es + [e]), id) == [e];
    forall i | 0 <= i < |started| ensures Own(Starts(es + [e]), started[i].id) == Own(Starts(es), started[i].id) {
      OwnSnoc(Starts(es), e, started[i].id);
    }
  }

  method FindStart(started: seq<Start>, id: string) returns (found: bool)
    ensures found <==> exists i :: 0 <= i < |started| && started[i].id == id
  {
    for i := 0 to |started|
      invariant forall j :: 0 <= j < i ==> started[j].id != id
    {
      if started[i].id == id {
        return true;
      }
    }
    return false;
  }

  method StartedByInvocation(es: seq<Event>) returns (started: seq<Start>)
    ensures StartedBy(started, es)
  {
    started := [];
    for k := 0 to |es|
      invariant StartedBy(started, es[..k])
    {
      var e := es[k];
      assert es[..k + 1] == es[..k] + [e];
      if e.kind == STARTED && e.invocation.Some? {
        var found := FindStart(started, e.invocation.value);
        if !found {
          StartedMore(started, es[..k], e, e.invocation.value);
          started := started + [Start(e.invocation.value, e)];
          continue;
        }
      }
      StartedSame(started, es[..k], e);
    }
    assert es[..|es|] == es;
  }

  function Get(m: map<string, string>, id: string): Option<string>
  {
    if id in m then Some(m[id]) else None
  }

  lemma {:induction false} TerminalsSnoc(es: seq<Event>, e: Event)
    ensures Terminals(es + [e]) == if IsTerminal(e) then Terminals(es) + [e] else Terminals(es)
  {
    assert Init(es + [e]) == es;
  }

  lemma {:induction false} FinalSnoc(es: seq<Event>, e: Event, id: string)
    ensures FinalOutcome(Own(Terminals(es + [e]), id)) ==
            var before := FinalOutcome(Own(Terminals(es), id));
            if IsTerminal(e) && e.invocation == Some(id) && (before.None? || before.value == UNKNOWN)
            then Some(OrUnknown(e.outcome)) else before
  {
    TerminalsSnoc(es, e);
    if IsTerminal(e) {
      OwnSnoc(Terminals(es), e, id);
      assert Init(Own(Terminals(es), id) + [e]) == Own(Terminals(es), id);
    }
  }

  method TerminalOutcomes(es: seq<Event>) returns (terminal: map<string, string>)
    ensures forall id :: Get(terminal, id) == FinalOutcome(Own(Terminals(es), id))
  {
    terminal := map[];
    for k := 0 to |es|
      invariant forall id :: Get(terminal, id) == FinalOutcome(Own(Terminals(es[..k]), id))
    {
      var e := es[k];
      assert es[..k + 1] == es[..k] + [e];
      forall id {
        FinalSnoc(es[..k], e, id);
      }
      if IsTerminal(e) && e.invocation.Some? {
        var id := e.invocation.value;
        if id !in terminal || terminal[id] == UNKNOWN {
          terminal := terminal[id := OrUnknown(e.outcome)];
        }
      }
    }
    assert es[..|es|] == es;
  }

  /** Every started invocation is counted once under its outcome and once under its capability. */
  method Stats(events: seq<Event>, current: string)
    returns (total: nat, byOutcome: seq<Entry>, byCapability: seq<Entry>)
    ensures total == |StartedIds(Others(events, current))|
    ensures Sum(byOutcome) == total && Sum(byCapability) == total
    ensures forall l ::
              Read(byOutcome, l) == CountOutcome(StartedIds(Others(events, current)), Others(events, current), l)
    ensures forall c ::
              Read(byCapability, c) == CountCapability(StartedIds(Others(events, current)), Others(events, current), c)
  {
    var es := Others(events, current);
    var started := StartedByInvocation(es);
    var terminal := TerminalOutcomes(es);
    ghost var ids := StartedIds(es);
    total, byOutcome, byCapability := |started|, [], [];
    for i := 0 to |started|
      invariant Sum(byOutcome) == i && Sum(byCapability) == i
      invariant forall l :: Read(byOutcome, l) == CountOutcome(ids[..i], es, l)
      invariant forall c :: Read(byCapability, c) == CountCapability(ids[..i], es, c)
    {
      var id := started[i].id;
      var outcome := if id in terminal then terminal[id] else INCOMPLETE;
      var cap := OrUnknown(started[i].event.capability);
      assert ids[..i + 1][..i] == ids[..i];
      assert Get(terminal, id) == FinalOutcome(Own(Terminals(es), id));
      assert outcome == CountedOutcome(es, id) && cap == CapabilityOf(es, id);
      BumpCounts(byOutcome, outcome);
      BumpCounts(byCapability, cap);
      byOutcome := Bump(byOutcome, outcome);
      byCapability := Bump(byCapability, cap);
    }
    assert ids[..|ids|] == ids;
  }

  lemma {:induction false} OthersSnoc(es: seq<Event>, e: Event, current: string)
    ensures Others(es + [e], current)
         == if e.invocation == Some(current) then Others(es, current) else Others(es, current) + [e]
  {
    if es == [] {
      assert es + [e] == [e] && [e][1..] == [];
    } else {
      assert (es + [e])[1..] == es[1..] + [e];
      OthersSnoc(es[1..], e, current);
    }
  }

  lemma {:induction false} OthersKeep(es: seq<Event>, current: string, id: string)
    ensures Own(Starts(Others(es, current)), id) == if id == current then [] else Own(Starts(es), id)
    ensures Own(Terminals(Others(es, current)), id) == if id == current then [] else Own(Terminals(es), id)
  {
    if es != [] {
      var before, e := Init(es), es[|es| - 1];
      assert es == before + [e];
      OthersKeep(before, current, id);
      OthersSnoc(before, e, current);
      StartsSnoc(before, e);
      StartsSnoc(Others(before, current), e);
      TerminalsSnoc(before, e);
      TerminalsSnoc(Others(before, current), e);
      OwnSnoc(Starts(before), e, id);
      OwnSnoc(Starts(Others(before, current)), e, id);
      OwnSnoc(Terminals(before), e, id);
      OwnSnoc(Terminals(Others(before, current)), e, id);
    }
  }

  /** Leaving out the invocation that asks takes exactly that one out of the statistics. */
  lemma {:induction false} OnlyCurrentLeftOut(es: seq<Event>, current: string, id: string)
    ensures id in StartedIds(Others(es, current)) <==> id in StartedIds(es) && id != current
    ensures id != current ==> CountedOutcome(Others(es, current), id) == CountedOutcome(es, id)
    ensures id != current ==> CapabilityOf(Others(es, current), id) == CapabilityOf(es, id)
  {
    OthersKeep(es, current, id);
    FirstIdsOwn(Starts(es), id);
    FirstIdsOwn(Starts(Others(es, current)), id);
  }

  // ---- What is counted of an invocation, said by places in the list --------------------------------

  ghost predicate TerminalAt(es: seq<Event>, id: string, k: nat)
  {
    && k < |es| && es[k].invocation == Some(id)
    && (es[k].kind == "execution_completed" || es[k].kind == "execution_failed" || es[k].kind == "execution_denied"
        || es[k].kind == "execution_skipped")
  }

  ghost predicate KnownAt(es: seq<Event>, id: string, k: nat)
  {
    TerminalAt(es, id, k) && es[k].outcome.Some? && es[k].outcome.value != "" && es[k].outcome.value != "unknown"
  }

  ghost predicate FirstKnownAt(es: seq<Event>, id: string, k: nat)
  {
    KnownAt(es, id, k) && forall j: nat :: j < k ==> !KnownAt(es, id, j)
  }

  ghost predicate NoKnown(es: seq<Event>, id: string)
  {
    forall k: nat :: !KnownAt(es, id, k)
  }

  ghost predicate NoTerminal(es: seq<Event>, id: string)
  {
    forall k: nat :: !TerminalAt(es, id, k)
  }

  ghost predicate FinalSaid(es: seq<Event>, id: string, final: Option<string>)
  {
    && (forall k: nat :: FirstKnownAt(es, id, k) ==> final == es[k].outcome)
    && (!NoKnown(es, id) ==> final.Some? && final.value != "unknown")
    && (NoKnown(es, id) ==> final == if NoTerminal(es, id) then None else Some("unknown"))
  }

  lemma {:induction false} NoneSnoc(es: seq<Event>, e: Event, id: string)
    ensures NoTerminal(es + [e], id) <==> NoTerminal(es, id) && !(e.invocation == Some(id) && IsTerminal(e))
    ensures NoKnown(es + [e], id) <==>
            NoKnown(es, id) && !(e.invocation == Some(id) && IsTerminal(e) && OrUnknown(e.outcome) != "unknown")
    ensures forall k: nat :: k < |es| ==> (KnownAt(es + [e], id, k) <==> KnownAt(es, id, k))
  {
    var more, n := es + [e], |es|;
    assert forall k: nat :: k < n ==> (TerminalAt(more, id, k) <==> TerminalAt(es, id, k));
    assert forall k: nat :: k < n ==> (KnownAt(more, id, k) <==> KnownAt(es, id, k));
    assert forall k: nat :: TerminalAt(more, id, k) ==> k <= n;
    assert TerminalAt(more, id, n) <==> e.invocation == Some(id) && IsTerminal(e);
    assert KnownAt(more, id, n) <==> TerminalAt(more, id, n) && OrUnknown(e.outcome) != "unknown";
    if NoTerminal(more, id) {
      assert forall k: nat :: TerminalAt(es, id, k) ==> TerminalAt(more, id, k);
    }
    if NoKnown(more, id) {
      assert forall k: nat :: KnownAt(es, id, k) ==> KnownAt(more, id, k);
    }
  }

  lemma {:induction false} FinalSaidSnoc(es: seq<Event>, e: Event, id: string, final: Option<string>)
    requires FinalSaid(es, id, final)
    ensures FinalSaid(es + [e], id,
              if e.invocation == Some(id) && IsTerminal(e) && (final.None? || final == Some("unknown"))
              then Some(OrUnknown(e.outcome)) else final)
  {
    var more := es + [e];
    NoneSnoc(es, e, id);
    if k: nat :| KnownAt(es, id, k) {
      assert KnownAt(more, id, k);
      assert forall m: nat :: FirstKnownAt(more, id, m) ==> m <= k && FirstKnownAt(es, id, m);
    } else {
      assert forall m: nat :: KnownAt(more, id, m) ==> m == |es|;
    }
  }

  /** The outcome of the first terminal event whose outcome is known; else "unknown"; none without terminal events. */
  lemma {:induction false} FinalIsFirstKnown(es: seq<Event>, id: string)
    ensures FinalSaid(es, id, FinalOutcome(Own(Terminals(es), id)))
    ensures FinalOutcome(Own(Terminals(es), id)).None? ==> CountedOutcome(es, id) == "incomplete"
    ensures FinalOutcome(Own(Terminals(es), id)).Some? ==>
              CountedOutcome(es, id) == FinalOutcome(Own(Terminals(es), id)).value
  {
    if es != [] {
      var before, e := Init(es), es[|es| - 1];
      assert es == before + [e];
      FinalIsFirstKnown(before, id);
      TerminalsSnoc(before, e);
      OwnSnoc(Terminals(before), e, id);
      FinalOutcomeSnoc(Own(Terminals(before), id), e);
      FinalSaidSnoc(before, e, id, FinalOutcome(Own(Terminals(before), id)));
    }
  }

  ghost predicate StartAt(es: seq<Event>, id: string, k: nat)
  {
    k < |es| && es[k].invocation == Some(id) && es[k].kind == "execution_started"
  }

  lemma {:induction false} StartsOwnSnoc(es: seq<Event>, e: Event, id: string)
    ensures Own(Starts(es + [e]), id)
         == if e.kind == STARTED && e.invocation == Some(id) then Own(Starts(es), id) + [e] else Own(Starts(es), id)
  {
    StartsSnoc(es, e);
    OwnSnoc(Starts(es), e, id);
  }

  lemma {:induction false} NoStart(es: seq<Event>, id: string)
    requires forall j: nat :: !StartAt(es, id, j)
    ensures Own(Starts(es), id) == []
  {
    StartsIn(es);
    OwnIn(Starts(es), id);
    HeadIn(Own(Starts(es), id));
    forall j | 0 <= j < |es| ensures !(es[j].kind == STARTED && es[j].invocation == Some(id)) {
      assert !StartAt(es, id, j);
    }
  }

  /** Later events leave the first start event the first. */
  lemma {:induction false} StartKept(es: seq<Event>, id: string, n: nat)
    requires n <= |es| && Own(Starts(es[..n]), id) != []
    ensures Own(Starts(es), id) != [] && Own(Starts(es), id)[0] == Own(Starts(es[..n]), id)[0]
    decreases |es|
  {
    if n == |es| {
      assert es[..n] == es;
    } else {
      var before, e := Init(es), es[|es| - 1];
      assert before[..n] == es[..n] && es == before + [e];
      StartKept(before, id, n);
      StartsOwnSnoc(before, e, id);
    }
  }

  lemma {:induction false} FirstStart(es: seq<Event>, id: string, k: nat)
    requires StartAt(es, id, k) && forall j: nat :: j < k ==> !StartAt(es, id, j)
    ensures Own(Starts(es), id) != [] && Own(Starts(es), id)[0] == es[k]
  {
    forall j: nat ensures !StartAt(es[..k], id, j) {
      assert StartAt(es[..k], id, j) ==> StartAt(es, id, j);
    }
    NoStart(es[..k], id);
    assert es[..k + 1] == es[..k] + [es[k]];
    StartsOwnSnoc(es[..k], es[k], id);
    StartKept(es, id, k + 1);
  }

  /** The capability counted is the one that the first start event names. */
  lemma {:induction false} CapabilityIsFirst(es: seq<Event>, id: string, k: nat)
    requires StartAt(es, id, k) && forall j: nat :: j < k ==> !StartAt(es, id, j)
    ensures CapabilityOf(es, id) == match es[k].capability
                                    case Some(c) => if c == "" then "unknown" else c
                                    case None => "unknown"
  {
    FirstStart(es, id, k);
  }

  lemma {:induction false} StartedMeaning(es: seq<Event>, id: string)
    ensures id in StartedIds(es) <==> exists e :: e in es && e.kind == STARTED && e.invocation == Some(id)
  {
    FirstIdsOwn(Starts(es), id);
    OwnIn(Starts(es), id);
    StartsIn(es);
    if Own(Starts(es), id) != [] {
      assert Own(Starts(es), id)[0] in Own(Starts(es), id);
    }
  }

  // ---- Independence of the order of events --------------------------------------------------------

  /** A terminal event of the invocation that gives this outcome. */
  ghost predicate Ends(es: seq<Event>, id: string, outcome: string)
  {
    exists e :: e in es && IsTerminal(e) && e.invocation == Some(id) && OrUnknown(e.outcome) == outcome
  }

  ghost predicate SameEvents(a: seq<Event>, b: seq<Event>)
  {
    forall e :: e in a <==> e in b
  }

  /** No started invocation has two different known outcomes. */
  ghost predicate OneKnownOutcome(es: seq<Event>)
  {
    forall id, x, y :: id in StartedIds(es) && Ends(es, id, x) && Ends(es, id, y) && x != UNKNOWN && y != UNKNOWN ==>
        x == y
  }

  lemma {:induction false} FinalOutcomeIs(own: seq<Event>)
    ensures FinalOutcome(own).None? <==> own == []
    ensures FinalOutcome(own) == Some(UNKNOWN) <==>
              own != [] && forall e :: e in own ==> OrUnknown(e.outcome) == UNKNOWN
    ensures FinalOutcome(own).Some? ==> exists e :: e in own && OrUnknown(e.outcome) == FinalOutcome(own).value
  {
    if own != [] {
      var last := own[|own| - 1];
      FinalOutcomeIs(Init(own));
      assert own == Init(own) + [last];
      assert last in own;
    }
  }

  /** What the counted outcome of an invocation says about its terminal events, in whatever order they come. */
  lemma {:induction false} CountedOutcomeMeaning(es: seq<Event>, id: string)
    ensures (forall o :: !Ends(es, id, o)) ==> CountedOutcome(es, id) == INCOMPLETE
    ensures Ends(es, id, UNKNOWN) && (forall o :: Ends(es, id, o) ==> o == UNKNOWN) ==>
              CountedOutcome(es, id) == UNKNOWN
    ensures forall o :: Ends(es, id, o) && o != UNKNOWN ==>
              Ends(es, id, CountedOutcome(es, id)) && CountedOutcome(es, id) != UNKNOWN
  {
    var own := Own(Terminals(es), id);
    OwnIn(Terminals(es), id);
    TerminalsIn(es);
    FinalOutcomeIs(own);
    if own != [] {
      var e :| e in own && OrUnknown(e.outcome) == FinalOutcome(own).value;
      assert Ends(es, id, CountedOutcome(es, id));
    }
    forall o | Ends(es, id, o) && o != UNKNOWN
      ensures Ends(es, id, CountedOutcome(es, id)) && CountedOutcome(es, id) != UNKNOWN
    {
      var e :| e in es && IsTerminal(e) && e.invocation == Some(id) && OrUnknown(e.outcome) == o;
      assert e in own;
    }
    if Ends(es, id, UNKNOWN) {
      var e :| e in es && IsTerminal(e) && e.invocation == Some(id) && OrUnknown(e.outcome) == UNKNOWN;
      assert e in own;
    }
  }

  ghost function CountedUnder(ids: seq<string>, es: seq<Event>, outcome: string): set<string>
  {
    set id | id in ids && CountedOutcome(es, id) == outcome
  }

  ghost function IdsCounted(es: seq<Event>, outcome: string): set<string>
  {
    CountedUnder(StartedIds(es), es, outcome)
  }

  lemma {:induction false} CountedUnderSnoc(ids: seq<string>, id: string, es: seq<Event>, outcome: string)
    requires id !in ids
    ensures |CountedUnder(ids + [id], es, outcome)|
         == |CountedUnder(ids, es, outcome)| + if CountedOutcome(es, id) == outcome then 1 else 0
  {
    var before := CountedUnder(ids, es, outcome);
    assert CountedUnder(ids + [id], es, outcome) == if CountedOutcome(es, id) == outcome then before + {id} else before;
  }

  lemma {:induction false} CountOutcomeSnoc(ids: seq<string>, id: string, es: seq<Event>, outcome: string)
    ensures CountOutcome(ids + [id], es, outcome)
         == CountOutcome(ids, es, outcome) + if CountedOutcome(es, id) == outcome then 1 else 0
  {
    assert (ids + [id])[..|ids|] == ids;
  }

  lemma {:induction false} CountIsSize(ids: seq<string>, es: seq<Event>, outcome: string)
    requires NoDup(ids)
    ensures CountOutcome(ids, es, outcome) == |CountedUnder(ids, es, outcome)|
  {
    if ids != [] {
      var init, last := ids[..|ids| - 1], ids[|ids| - 1];
      NoDupInit(ids);
      assert ids == init + [last];
      CountIsSize(init, es, outcome);
      CountedUnderSnoc(init, last, es, outcome);
      CountOutcomeSnoc(init, last, es, outcome);
    }
  }

  function OutcomeCount(es: seq<Event>, outcome: string): nat
  {
    CountOutcome(StartedIds(es), es, outcome)
  }

  lemma {:induction false} OutcomeCountIsSize(es: seq<Event>, outcome: string)
    ensures OutcomeCount(es, outcome) == |IdsCounted(es, outcome)|
  {
    FirstIdsNoDup(Starts(es));
    CountIsSize(StartedIds(es), es, outcome);
  }

  lemma {:induction false} SameCountedOutcome(a: seq<Event>, b: seq<Event>, id: string)
    requires SameEvents(a, b) && OneKnownOutcome(a) && id in StartedIds(a)
    ensures CountedOutcome(a, id) == CountedOutcome(b, id)
  {
    CountedOutcomeMeaning(a, id);
    CountedOutcomeMeaning(b, id);
    forall o ensures Ends(a, id, o) <==> Ends(b, id, o) {
    }
    if o :| Ends(a, id, o) && o != UNKNOWN {
      assert Ends(a, id, CountedOutcome(a, id)) && Ends(a, id, CountedOutcome(b, id));
    } else if o :| Ends(a, id, o) {
      assert Ends(a, id, UNKNOWN);
    }
  }

  lemma {:induction false} SameStarted(a: seq<Event>, b: seq<Event>)
    requires SameEvents(a, b)
    ensures forall id :: id in StartedIds(a) <==> id in StartedIds(b)
  {
    forall id ensures id in StartedIds(a) <==> id in StartedIds(b) {
      StartedMeaning(a, id);
      StartedMeaning(b, id);
    }
  }

  lemma {:induction false} OneKnownSuffices(a: seq<Event>, b: seq<Event>, outcome: string)
    requires OneKnownOutcome(a) && SameEvents(a, b)
    ensures OutcomeCount(a, outcome) == OutcomeCount(b, outcome)
  {
    SameStarted(a, b);
    forall id | id in StartedIds(a) ensures CountedOutcome(a, id) == CountedOutcome(b, id) {
      SameCountedOutcome(a, b, id);
    }
    OutcomeCountIsSize(a, outcome);
    OutcomeCountIsSize(b, outcome);
    assert IdsCounted(a, outcome) == IdsCounted(b, outcome);
  }

  lemma {:induction false} OwnCons(e: Event, es: seq<Event>, id: string)
    ensures Own([e] + es, id) == if e.invocation == Some(id) then [e] + Own(es, id) else Own(es, id)
  {
    if es == [] {
      assert [e] + es == [e] && Init([e]) == [];
    } else {
      OwnCons(e, Init(es), id);
      assert Init([e] + es) == [e] + Init(es);
    }
  }

  lemma {:induction false} TerminalsCons(e: Event, es: seq<Event>)
    ensures Terminals([e] + es) == if IsTerminal(e) then [e] + Terminals(es) else Terminals(es)
  {
    if es == [] {
      assert [e] + es == [e] && Init([e]) == [];
    } else {
      TerminalsCons(e, Init(es));
      assert Init([e] + es) == [e] + Init(es);
    }
  }

  lemma {:induction false} FinalOfKnown(e: Event, own: seq<Event>)
    requires OrUnknown(e.outcome) != UNKNOWN
    ensures FinalOutcome([e] + own) == Some(OrUnknown(e.outcome))
  {
    if own == [] {
      assert [e] + own == [e] && Init([e]) == [];
      assert FinalOutcome([]) == None;
    } else {
      FinalOfKnown(e, Init(own));
      assert Init([e] + own) == [e] + Init(own);
    }
  }

  /** A known outcome put first is the counted outcome of its invocation and changes no other. */
  lemma {:induction false} KnownFirst(e: Event, es: seq<Event>, id: string, other: string)
    requires IsTerminal(e) && e.invocation == Some(id) && OrUnknown(e.outcome) != UNKNOWN
    ensures CountedOutcome([e] + es, id) == OrUnknown(e.outcome)
    ensures other != id ==> CountedOutcome([e] + es, other) == CountedOutcome(es, other)
  {
    TerminalsCons(e, es);
    OwnCons(e, Terminals(es), id);
    FinalOfKnown(e, Own(Terminals(es), id));
    OwnCons(e, Terminals(es), other);
  }

  /** Of two events with different known outcomes of one invocation the one put first decides. */
  lemma {:induction false} TwoInFront(ex: Event, ey: Event, rest: seq<Event>, id: string, outcome: string)
    requires IsTerminal(ex) && ex.invocation == Some(id) && OrUnknown(ex.outcome) != UNKNOWN
    requires IsTerminal(ey) && ey.invocation == Some(id) && OrUnknown(ey.outcome) != UNKNOWN
    requires id in StartedIds([ex] + ([ey] + rest))
    ensures var a, b := [ex] + ([ey] + rest), [ey] + ([ex] + rest);
            && IdsCounted(a, outcome) - {id} == IdsCounted(b, outcome) - {id}
            && (id in IdsCounted(a, outcome) <==> OrUnknown(ex.outcome) == outcome)
            && (id in IdsCounted(b, outcome) <==> OrUnknown(ey.outcome) == outcome)
  {
    var a, b := [ex] + ([ey] + rest), [ey] + ([ex] + rest);
    assert SameEvents(a, b);
    SameStarted(a, b);
    KnownFirst(ex, [ey] + rest, id, id);
    KnownFirst(ey, [ex] + rest, id, id);
    forall other | other != id ensures CountedOutcome(a, other) == CountedOutcome(b, other) {
      KnownFirst(ex, [ey] + rest, id, other);
      KnownFirst(ey, rest, id, other);
      KnownFirst(ey, [ex] + rest, id, other);
      KnownFirst(ex, rest, id, other);
    }
  }

  /** No reordering of the events changes an outcome count. */
  ghost predicate OrderIrrelevant(es: seq<Event>)
  {
    forall b, outcome :: multiset(b) == multiset(es) ==> OutcomeCount(es, outcome) == OutcomeCount(b, outcome)
  }

  /** Neither reordering nor repeating events changes an outcome count. */
  ghost predicate SetDecides(es: seq<Event>)
  {
    forall b, outcome :: SameEvents(es, b) ==> OutcomeCount(es, outcome) == OutcomeCount(b, outcome)
  }

  lemma {:induction false} PermutedSame(a: seq<Event>, b: seq<Event>)
    requires multiset(a) == multiset(b)
    ensures SameEvents(a, b)
  {
    forall e ensures e in a <==> e in b {
      assert e in a <==> e in multiset(a);
      assert e in b <==> e in multiset(b);
    }
  }

  lemma {:induction false} TakenOut(es: seq<Event>, e: Event) returns (rest: seq<Event>)
    requires e in es
    ensures multiset([e] + rest) == multiset(es)
    ensures forall x :: x in es && x != e ==> x in rest
  {
    var i :| 0 <= i < |es| && es[i] == e;
    assert es == es[..i] + [e] + es[i + 1..];
    rest := es[..i] + es[i + 1..];
  }

  lemma {:induction false} TwoTakenOut(es: seq<Event>, ex: Event, ey: Event) returns (rest: seq<Event>)
    requires ex in es && ey in es && ex != ey
    ensures multiset([ex] + ([ey] + rest)) == multiset(es) == multiset([ey] + ([ex] + rest))
  {
    var others := TakenOut(es, ex);
    rest := TakenOut(others, ey);
  }

  lemma {:induction false} TwoKnownDisagree(es: seq<Event>, ex: Event, ey: Event, id: string)
    requires ex in es && ey in es && id in StartedIds(es)
    requires IsTerminal(ex) && ex.invocation == Some(id) && OrUnknown(ex.outcome) != UNKNOWN
    requires IsTerminal(ey) && ey.invocation == Some(id) && OrUnknown(ey.outcome) != UNKNOWN
    requires OrUnknown(ex.outcome) != OrUnknown(ey.outcome)
    ensures !OrderIrrelevant(es)
  {
    var x := OrUnknown(ex.outcome);
    var rest := TwoTakenOut(es, ex, ey);
    var a, b := [ex] + ([ey] + rest), [ey] + ([ex] + rest);
    PermutedSame(a, es);
    SameStarted(a, es);
    TwoInFront(ex, ey, rest, id, x);
    SizesDiffer(IdsCounted(a, x), IdsCounted(b, x), id);
    Disagreement(es, a, b, x);
  }

  lemma {:induction false} SizesDiffer(a: set<string>, b: set<string>, id: string)
    requires a - {id} == b - {id} && id in a && id !in b
    ensures |a| != |b|
  {
    assert b == b - {id};
    assert a == (a - {id}) + {id};
  }

  lemma {:induction false} Disagreement(es: seq<Event>, a: seq<Event>, b: seq<Event>, outcome: string)
    requires multiset(a) == multiset(es) == multiset(b)
    requires |IdsCounted(a, outcome)| != |IdsCounted(b, outcome)|
    ensures !OrderIrrelevant(es)
  {
    OutcomeCountIsSize(a, outcome);
    OutcomeCountIsSize(b, outcome);
  }

  /** A started invocation with two known outcomes is all it takes. */
  lemma {:induction false} OrderMatters(es: seq<Event>)
    requires !OneKnownOutcome(es)
    ensures !OrderIrrelevant(es)
  {
    var id, x, y :| id in StartedIds(es) && Ends(es, id, x) && Ends(es, id, y) && x != UNKNOWN && y != UNKNOWN
        && x != y;
    var ex :| ex in es && IsTerminal(ex) && ex.invocation == Some(id) && OrUnknown(ex.outcome) == x;
    var ey :| ey in es && IsTerminal(ey) && ey.invocation == Some(id) && OrUnknown(ey.outcome) == y;
    TwoKnownDisagree(es, ex, ey, id);
  }

  /** Without one the counts do not depend on repeated events either. */
  lemma {:induction false} RepetitionIsIrrelevant(es: seq<Event>)
    requires OneKnownOutcome(es)
    ensures SetDecides(es)
  {
    forall b, outcome | SameEvents(es, b) ensures OutcomeCount(es, outcome) == OutcomeCount(b, outcome) {
      OneKnownSuffices(es, b, outcome);
    }
  }

  /**
   * The outcome counts do not depend on the order of the events exactly when no started
   * invocation has two known outcomes.
   */
  lemma {:induction false} OrderIsIrrelevantIff(es: seq<Event>)
    ensures OneKnownOutcome(es) <==> OrderIrrelevant(es)
  {
    if OneKnownOutcome(es) {
      RepetitionIsIrrelevant(es);
      forall b | multiset(b) == multiset(es) ensures SameEvents(es, b) {
        PermutedSame(es, b);
      }
    } else {
      OrderMatters(es);
    }
  }

  // ---- The grouped report and the statistics side by side ------------------------------------------

  predicate Known(e: Event)
  {
    IsTerminal(e) && OrUnknown(e.outcome) != UNKNOWN
  }

  /** The place of the first terminal event with a known outcome, or -1. */
  function FirstKnown(own: seq<Event>): (i: int)
    ensures -1 <= i < |own|
    ensures i >= 0 ==> Known(own[i])
    ensures forall j :: 0 <= j < (if i >= 0 then i else |own|) ==> !Known(own[j])
  {
    if own == [] then -1
    else
      var i := FirstKnown(Init(own));
      if i >= 0 then i else if Known(own[|own| - 1]) then |own| - 1 else -1
  }

  /** The place of the last event that ends the invocation, or -1. */
  function LastEnding(own: seq<Event>): (i: int)
    ensures -1 <= i < |own|
    ensures i >= 0 ==> EndsInvocation(own[i])
    ensures forall j :: i < j < |own| ==> !EndsInvocation(own[j])
  {
    if own == [] then -1
    else if EndsInvocation(own[|own| - 1]) then |own| - 1
    else LastEnding(Init(own))
  }

  lemma {:induction false} LastOutcomeAt(own: seq<Event>)
    ensures LastOutcome(own) == if LastEnding(own) >= 0 then own[LastEnding(own)].outcome else None
  {
    if own != [] {
      LastOutcomeAt(Init(own));
    }
  }

  lemma {:induction false} TerminalsOfOwn(es: seq<Event>, id: string)
    ensures Own(Terminals(es), id) == Terminals(Own(es, id))
  {
    if es != [] {
      var before, e := Init(es), es[|es| - 1];
      assert es == before + [e];
      TerminalsOfOwn(before, id);
      TerminalsSnoc(before, e);
      OwnSnoc(before, e, id);
      OwnSnoc(Terminals(before), e, id);
      TerminalsSnoc(Own(before, id), e);
    }
  }

  lemma {:induction false} FinalOutcomeSnoc(before: seq<Event>, e: Event)
    ensures FinalOutcome(before + [e]) == if FinalOutcome(before).None? || FinalOutcome(before) == Some(UNKNOWN)
                                          then Some(OrUnknown(e.outcome)) else FinalOutcome(before)
  {
    assert Init(before + [e]) == before;
  }

  lemma {:induction false} FirstKnownSnoc(before: seq<Event>, e: Event)
    ensures FirstKnown(before + [e])
         == if FirstKnown(before) >= 0 then FirstKnown(before) else if Known(e) then |before| else -1
  {
    assert Init(before + [e]) == before;
  }

  /** The outcome that belongs to a place of the first known one. */
  predicate Fits(own: seq<Event>, at: int, final: Option<string>, noneTerminal: bool)
  {
    && -1 <= at < |own|
    && if at >= 0 then Known(own[at]) && final == own[at].outcome
       else final == if noneTerminal then None else Some(UNKNOWN)
  }

  lemma {:induction false} FitsSnoc(before: seq<Event>, e: Event, at: int, final: Option<string>, noneTerminal: bool)
    requires Fits(before, at, final, noneTerminal)
    ensures Fits(before + [e], if at >= 0 then at else if Known(e) then |before| else -1,
                 if IsTerminal(e) && (final.None? || final == Some(UNKNOWN)) then Some(OrUnknown(e.outcome)) else final,
                 noneTerminal && !IsTerminal(e))
  {
  }

  lemma {:induction false} FinalOutcomeAt(own: seq<Event>)
    ensures Fits(own, FirstKnown(own), FinalOutcome(Terminals(own)), Terminals(own) == [])
  {
    if own != [] {
      var before, e := Init(own), own[|own| - 1];
      assert own == before + [e];
      FinalOutcomeAt(before);
      FitsSnoc(before, e, FirstKnown(before), FinalOutcome(Terminals(before)), Terminals(before) == []);
      TerminalsSnoc(before, e);
      FinalOutcomeSnoc(Terminals(before), e);
      FirstKnownSnoc(before, e);
    }
  }

  /**
   * The grouped report and the statistics give an invocation the same outcome if and only if
   * it has an event that ends it and the last such event carries the outcome of the first
   * terminal event, skips included, whose outcome is known; where there is none, "unknown".
   */
  lemma {:induction false} ReportsAgreeIff(es: seq<Event>, id: string)
    ensures var own := Own(es, id);
            LastOutcome(own) == Some(CountedOutcome(es, id)) <==>
            && LastEnding(own) >= 0
            && own[LastEnding(own)].outcome
            == if FirstKnown(own) >= 0 then own[FirstKnown(own)].outcome else Some(UNKNOWN)
  {
    var own := Own(es, id);
    LastOutcomeAt(own);
    TerminalsOfOwn(es, id);
    FinalOutcomeAt(own);
    if LastEnding(own) >= 0 {
      TerminalsIn(own);
      assert own[LastEnding(own)] in own;
      assert IsTerminal(own[LastEnding(own)]);
    }
  }

  /** So when all terminal events carry one known outcome the two agree exactly when not all of them are skips. */
  lemma {:induction false} UnanimousReportsAgreeIff(es: seq<Event>, id: string, x: string)
    requires exists e :: e in es && e.invocation == Some(id) && IsTerminal(e)
    requires forall e :: e in es && e.invocation == Some(id) && IsTerminal(e) ==> e.outcome == Some(x)
    requires x != "" && x != UNKNOWN
    ensures CountedOutcome(es, id) == x
    ensures LastOutcome(Own(es, id)) == Some(x) <==>
              exists e :: e in es && e.invocation == Some(id) && EndsInvocation(e)
  {
    var own := Own(es, id);
    OwnIn(es, id);
    TerminalsOfOwn(es, id);
    FinalOutcomeAt(own);
    LastOutcomeAt(own);
    var t :| t in es && t.invocation == Some(id) && IsTerminal(t);
    assert t in own;
    var i :| 0 <= i < |own| && own[i] == t;
    assert Known(own[i]) && own[FirstKnown(own)] in own;
    EndingIff(es, id);
    if LastEnding(own) >= 0 {
      assert own[LastEnding(own)] in own && IsTerminal(own[LastEnding(own)]);
    }
  }

  lemma {:induction false} EndingIff(es: seq<Event>, id: string)
    ensures LastEnding(Own(es, id)) >= 0 <==> exists e :: e in es && e.invocation == Some(id) && EndsInvocation(e)
  {
    var own := Own(es, id);
    OwnIn(es, id);
    if e :| e in es && e.invocation == Some(id) && EndsInvocation(e) {
      assert e in own;
    }
    if LastEnding(own) >= 0 {
      assert own[LastEnding(own)] in own;
    }
  }
}
