/** Aggregating a flat list of lifecycle events into invocations, and counting their outcomes. */
module Audit {
  import opened Seqs

  datatype Event = Event(invocation: Option<string>, kind: string, outcome: Option<string>,
                         capability: Option<string>, correlation: Option<string>, time: Option<string>)

  const STARTED := "execution_started"
  const COMPLETED := "execution_completed"
  const FAILED := "execution_failed"
  const DENIED := "execution_denied"
  const SKIPPED := "execution_skipped"
  const UNKNOWN := "unknown"
  const INCOMPLETE := "incomplete"

  /** The value, or "unknown" where it is missing or empty. */
  function OrUnknown(s: Option<string>): string
  {
    if s.Some? && s.value != "" then s.value else UNKNOWN
  }

  // ---- Sub-lists of events ---------------------------------------------------------------------

  /** The events of one invocation. */
  function Own(es: seq<Event>, id: string): seq<Event>
  {
    if es == [] then []
    else
      var n := |es| - 1;
      Own(es[..n], id) + if es[n].invocation == Some(id) then [es[n]] else []
  }

  function Starts(es: seq<Event>): seq<Event>
  {
    if es == [] then []
    else
      var n := |es| - 1;
      Starts(es[..n]) + if es[n].kind == STARTED then [es[n]] else []
  }

  predicate IsTerminal(e: Event)
  {
    e.kind == COMPLETED || e.kind == FAILED || e.kind == DENIED || e.kind == SKIPPED
  }

  function Terminals(es: seq<Event>): seq<Event>
  {
    if es == [] then []
    else
      var n := |es| - 1;
      Terminals(es[..n]) + if IsTerminal(es[n]) then [es[n]] else []
  }

  /** All events but those of the invocation that asks. */
  function Others(es: seq<Event>, current: string): seq<Event>
  {
    if es == [] then [] else (if es[0].invocation == Some(current) then [] else [es[0]]) + Others(es[1..], current)
  }

  /** The distinct invocation ids, in the order in which they first appear. */
  function FirstIds(es: seq<Event>): seq<string>
  {
    if es == [] then []
    else
      var before, id := FirstIds(es[..|es| - 1]), es[|es| - 1].invocation;
      if id.Some? && id.value !in before then before + [id.value] else before
  }

  function Init(es: seq<Event>): seq<Event>
    requires es != []
  {
    es[..|es| - 1]
  }

  lemma {:induction false} OwnIn(es: seq<Event>, id: string)
    ensures forall e :: e in Own(es, id) <==> e in es && e.invocation == Some(id)
  {
    if es != [] {
      OwnIn(Init(es), id);
      assert es == Init(es) + [es[|es| - 1]];
    }
  }

  lemma {:induction false} StartsIn(es: seq<Event>)
    ensures forall e :: e in Starts(es) <==> e in es && e.kind == STARTED
  {
    if es != [] {
      StartsIn(Init(es));
      assert es == Init(es) + [es[|es| - 1]];
    }
  }

  lemma {:induction false} TerminalsIn(es: seq<Event>)
    ensures forall e :: e in Terminals(es) <==> e in es && IsTerminal(e)
  {
    if es != [] {
      TerminalsIn(Init(es));
      assert es == Init(es) + [es[|es| - 1]];
    }
  }

  lemma {:induction false} FirstIdsNoDup(es: seq<Event>)
    ensures NoDup(FirstIds(es))
  {
    if es != [] {
      FirstIdsNoDup(Init(es));
    }
  }

  lemma {:induction false} FirstIdsOwn(es: seq<Event>, id: string)
    ensures id in FirstIds(es) <==> Own(es, id) != []
  {
    if es != [] {
      FirstIdsOwn(Init(es), id);
    }
  }

  /** An id comes before another when its first event does. */
  lemma {:induction false} FirstIdsOrder(es: seq<Event>, i: nat, j: nat) returns (p: nat)
    requires i < j < |FirstIds(es)|
    ensures p < |es| && es[p].invocation == Some(FirstIds(es)[i])
    ensures Own(es[..p], FirstIds(es)[j]) == []
  {
    var ids, before := FirstIds(es), FirstIds(Init(es));
    if j < |before| {
      p := FirstIdsOrder(Init(es), i, j);
      assert es[..p] == Init(es)[..p];
    } else {
      FirstIdsOwn(Init(es), ids[i]);
      OwnIn(Init(es), ids[i]);
      assert Own(Init(es), ids[i])[0] in Init(es);
      p :| 0 <= p < |es| - 1 && es[p].invocation == Some(ids[i]);
      FirstIdsOwn(Init(es), ids[j]);
      OwnIn(Init(es), ids[j]);
      OwnIn(es[..p], ids[j]);
      if Own(es[..p], ids[j]) != [] {
        var e := Own(es[..p], ids[j])[0];
        assert e in Own(es[..p], ids[j]);
        assert e in Init(es);
        assert e in Own(Init(es), ids[j]);
      }
    }
  }

  // ---- Grouping by invocation --------------------------------------------------------------------

  datatype Summary = Summary(id: string, capability: Option<string>, correlation: Option<string>,
                             startedAt: Option<string>,
                             outcome: Option<string>, eventCount: nat, completedAt: Option<string>)

  /** A skipped execution is no end of an invocation here. */
  predicate EndsInvocation(e: Event)
  {
    e.kind == COMPLETED || e.kind == FAILED || e.kind == DENIED
  }

  predicate Timed(e: Event)
  {
    e.time.Some? && e.time.value != ""
  }

  /** The outcome on the last event that ends the invocation. */
  function LastOutcome(own: seq<Event>): Option<string>
  {
    if own == [] then None
    else if EndsInvocation(own[|own| - 1]) then own[|own| - 1].outcome
    else LastOutcome(Init(own))
  }

  function LastTime(own: seq<Event>): Option<string>
  {
    if own == [] then None
    else if Timed(own[|own| - 1]) then own[|own| - 1].time
    else LastTime(Init(own))
  }

  /** What is reported of an invocation, by its own events alone. */
  function Summarise(id: string, own: seq<Event>): Summary
    requires own != []
  {
    Summary(id, own[0].capability, own[0].correlation, own[0].time, LastOutcome(own), |own|, LastTime(own))
  }

  function Take(ids: seq<string>, limit: int): seq<string>
  {
    if limit <= 0 then [] else if limit < |ids| then ids[..limit] else ids
  }

  ghost predicate Groups(seen: seq<Summary>, es: seq<Event>, ids: seq<string>)
  {
    && |seen| == |ids|
    && forall i :: 0 <= i < |ids| ==> Own(es, ids[i]) != [] && seen[i] == Summarise(ids[i], Own(es, ids[i]))
  }

  /** The dictionary after the events `es`: an entry for each of the first `limit` invocations, and no other. */
  ghost predicate Grouped(seen: seq<Summary>, es: seq<Event>, limit: int)
  {
    Groups(seen, es, Take(FirstIds(es), limit))
  }

  method IndexOf(seen: seq<Summary>, id: string) returns (at: nat)
    ensures at <= |seen|
    ensures at < |seen| ==> seen[at].id == id
    ensures forall k :: 0 <= k < at ==> seen[k].id != id
  {
    at := 0;
    while at < |seen| && seen[at].id != id
      invariant at <= |seen|
      invariant forall k :: 0 <= k < at ==> seen[k].id != id
    {
      at := at + 1;
    }
  }

  /** What one more event of an invocation that is already in the dictionary does to its entry. */
  function Updated(s: Summary, e: Event): Summary
  {
    var counted := s.(eventCount := s.eventCount + 1);
    var ended := if EndsInvocation(e) then counted.(outcome := e.outcome) else counted;
    if Timed(e) then ended.(completedAt := e.time) else ended
  }

  function Fresh(id: string, e: Event): Summary
  {
    Summary(id, e.capability, e.correlation, e.time, None, 0, None)
  }

  lemma {:induction false} OwnSnoc(before: seq<Event>, e: Event, id: string)
    ensures Own(before + [e], id) == if e.invocation == Some(id) then Own(before, id) + [e] else Own(before, id)
  {
    assert Init(before + [e]) == before;
  }

  lemma {:induction false} FirstIdsSnoc(before: seq<Event>, e: Event)
    ensures FirstIds(before + [e]) == if e.invocation.Some? && e.invocation.value !in FirstIds(before)
                                      then FirstIds(before) + [e.invocation.value] else FirstIds(before)
  {
    assert Init(before + [e]) == before;
  }

  lemma {:induction false} SummariseMore(id: string, own: seq<Event>, e: Event)
    requires own != []
    ensures Summarise(id, own + [e]) == Updated(Summarise(id, own), e)
  {
    assert Init(own + [e]) == own;
  }

  lemma {:induction false} SummariseFirst(id: string, e: Event)
    ensures Summarise(id, [e]) == Updated(Fresh(id, e), e)
  {
    assert Init([e]) == [];
    assert LastOutcome([]) == None && LastTime([]) == None;
  }

  /** An event that is skipped: it names no invocation, or one beyond the limit. */
  lemma {:induction false} SkippedEvent(seen: seq<Summary>, before: seq<Event>, e: Event, limit: int)
    requires Grouped(seen, before, limit)
    requires e.invocation.Some? ==> limit <= |seen| && forall k :: 0 <= k < |seen| ==> seen[k].id != e.invocation.value
    ensures Grouped(seen, before + [e], limit)
  {
    var ids := Take(FirstIds(before), limit);
    FirstIdsSnoc(before, e);
    assert Take(FirstIds(before + [e]), limit) == ids;
    forall i | 0 <= i < |ids| ensures Own(before + [e], ids[i]) == Own(before, ids[i]) {
      assert seen[i].id == ids[i];
      OwnSnoc(before, e, ids[i]);
    }
  }

  lemma {:induction false} GroupsSnoc(seen: seq<Summary>, es: seq<Event>, ids: seq<string>, id: string)
    requires Groups(seen, es, ids) && Own(es, id) != []
    ensures Groups(seen + [Summarise(id, Own(es, id))], es, ids + [id])
  {
  }

  lemma {:induction false} GroupsFresh(seen: seq<Summary>, before: seq<Event>, e: Event, ids: seq<string>, id: string)
    requires Groups(seen, before, ids) && id !in ids
    requires e.invocation == Some(id) && Own(before, id) == []
    ensures Groups(seen + [Updated(Fresh(id, e), e)], before + [e], ids + [id])
  {
    forall i | 0 <= i < |ids| ensures Own(before + [e], ids[i]) == Own(before, ids[i]) {
      OwnSnoc(before, e, ids[i]);
    }
    OwnSnoc(before, e, id);
    assert Own(before + [e], id) == [e];
    SummariseFirst(id, e);
    GroupsSnoc(seen, before + [e], ids, id);
  }

  lemma {:induction false} FirstEvent(seen: seq<Summary>, before: seq<Event>, e: Event, limit: int, id: string)
    requires Grouped(seen, before, limit)
    requires e.invocation == Some(id) && |seen| < limit
    requires forall k :: 0 <= k < |seen| ==> seen[k].id != id
    ensures Grouped(seen + [Updated(Fresh(id, e), e)], before + [e], limit)
  {
    var ids := FirstIds(before);
    assert forall k :: 0 <= k < |ids| ==> seen[k].id == ids[k];
    FirstIdsOwn(before, id);
    GroupsFresh(seen, before, e, ids, id);
    FirstIdsSnoc(before, e);
  }

  lemma {:induction false} FurtherEvent(seen: seq<Summary>, before: seq<Event>, e: Event, limit: int, at: nat)
    requires Grouped(seen, before, limit)
    requires at < |seen| && e.invocation == Some(seen[at].id)
    ensures Grouped(seen[at := Updated(seen[at], e)], before + [e], limit)
  {
    var ids := Take(FirstIds(before), limit);
    FirstIdsNoDup(before);
    assert seen[at].id == ids[at] && ids[at] in FirstIds(before);
    GroupsMore(seen, before, e, ids, at);
    FirstIdsSnoc(before, e);
  }

  lemma {:induction false} GroupsMore(seen: seq<Summary>, before: seq<Event>, e: Event, ids: seq<string>, at: nat)
    requires Groups(seen, before, ids) && NoDup(ids) && at < |ids| && e.invocation == Some(ids[at])
    ensures Groups(seen[at := Updated(seen[at], e)], before + [e], ids)
  {
    SummariseMore(ids[at], Own(before, ids[at]), e);
    forall i | 0 <= i < |ids|
      ensures Own(before + [e], ids[i]) == if i == at then Own(before, ids[i]) + [e] else Own(before, ids[i])
    {
      OwnSnoc(before, e, ids[i]);
      assert i != at ==> ids[i] != ids[at];
    }
  }

  method Count(s: Summary, e: Event) returns (r: Summary)
    ensures r == Updated(s, e)
  {
    r := s.(eventCount := s.eventCount + 1);
    if EndsInvocation(e) {
      r := r.(outcome := e.outcome);
    }
    if Timed(e) {
      r := r.(completedAt := e.time);
    }
  }

  /** One turn of the loop. */
  method Absorb(seen: seq<Summary>, e: Event, limit: int, ghost before: seq<Event>) returns (r: seq<Summary>)
    requires Grouped(seen, before, limit)
    ensures Grouped(r, before + [e], limit)
  {
    if e.invocation.None? {
      SkippedEvent(seen, before, e, limit);
      return seen;
    }
    var id := e.invocation.value;
    var at := IndexOf(seen, id);
    if at == |seen| {
      if |seen| >= limit {
        SkippedEvent(seen, before, e, limit);
        return seen;
      }
      FirstEvent(seen, before, e, limit, id);
      var first := Count(Fresh(id, e), e);
      r := seen + [first];
    } else {
      FurtherEvent(seen, before, e, limit, at);
      var more := Count(seen[at], e);
      r := seen[at := more];
    }
  }

  /** Reports the first `limit` invocations, each by all of its events, wherever they stand in the list. */
  method GroupByInvocation(es: seq<Event>, limit: int) returns (seen: seq<Summary>)
    ensures Grouped(seen, es, limit)
  {
    seen := [];
    for k := 0 to |es|
      invariant Grouped(seen, es[..k], limit)
    {
      assert es[..k + 1] == es[..k] + [es[k]];
      seen := Absorb(seen, es[k], limit, es[..k]);
    }
    assert es[..|es|] == es;
  }

  // ---- The summary of an invocation, said by places in the list ----------------------------------

  /** The event at `k` names the invocation. */
  ghost predicate Names(es: seq<Event>, id: string, k: nat)
  {
    k < |es| && es[k].invocation == Some(id)
  }

  ghost predicate EndAt(es: seq<Event>, id: string, k: nat)
  {
    && Names(es, id, k)
    && (es[k].kind == "execution_completed" || es[k].kind == "execution_failed" || es[k].kind == "execution_denied")
  }

  ghost predicate TimedAt(es: seq<Event>, id: string, k: nat)
  {
    Names(es, id, k) && es[k].time.Some? && |es[k].time.value| > 0
  }

  ghost predicate FirstNamed(es: seq<Event>, id: string, k: nat)
  {
    Names(es, id, k) && forall j: nat :: j < k ==> !Names(es, id, j)
  }

  ghost predicate LastEnd(es: seq<Event>, id: string, k: nat)
  {
    EndAt(es, id, k) && forall j: nat :: k < j ==> !EndAt(es, id, j)
  }

  ghost predicate LastTimed(es: seq<Event>, id: string, k: nat)
  {
    TimedAt(es, id, k) && forall j: nat :: k < j ==> !TimedAt(es, id, j)
  }

  function CountNamed(es: seq<Event>, id: string): nat
  {
    |set k | 0 <= k < |es| && es[k].invocation == Some(id)|
  }

  lemma {:induction false} CountNamedSnoc(es: seq<Event>, e: Event, id: string)
    ensures CountNamed(es + [e], id) == CountNamed(es, id) + if e.invocation == Some(id) then 1 else 0
  {
    var more := es + [e];
    var before := set k | 0 <= k < |es| && es[k].invocation == Some(id);
    var after := set k | 0 <= k < |more| && more[k].invocation == Some(id);
    assert after == if e.invocation == Some(id) then before + {|es|} else before;
  }

  ghost predicate OutcomeSaid(es: seq<Event>, id: string, outcome: Option<string>)
  {
    && (forall k: nat :: LastEnd(es, id, k) ==> outcome == es[k].outcome)
    && ((forall k: nat :: !EndAt(es, id, k)) ==> outcome == None)
  }

  ghost predicate TimeSaid(es: seq<Event>, id: string, time: Option<string>)
  {
    && (forall k: nat :: LastTimed(es, id, k) ==> time == es[k].time)
    && ((forall k: nat :: !TimedAt(es, id, k)) ==> time == None)
  }

  lemma {:induction false} EndSnoc(es: seq<Event>, e: Event, id: string)
    requires OutcomeSaid(es, id, LastOutcome(Own(es, id)))
    ensures OutcomeSaid(es + [e], id, LastOutcome(Own(es + [e], id)))
  {
    var more, n := es + [e], |es|;
    OwnSnoc(es, e, id);
    assert Init(Own(es, id) + [e]) == Own(es, id);
    assert forall k: nat :: k < n ==> (EndAt(more, id, k) <==> EndAt(es, id, k));
    if !EndAt(more, id, n) {
      assert forall k: nat :: EndAt(more, id, k) <==> EndAt(es, id, k);
      assert forall k: nat :: LastEnd(more, id, k) ==> LastEnd(es, id, k);
    } else {
      assert forall k: nat :: LastEnd(more, id, k) ==> k == n;
    }
  }

  lemma {:induction false} TimeSnoc(es: seq<Event>, e: Event, id: string)
    requires TimeSaid(es, id, LastTime(Own(es, id)))
    ensures TimeSaid(es + [e], id, LastTime(Own(es + [e], id)))
  {
    var more, n := es + [e], |es|;
    OwnSnoc(es, e, id);
    assert Init(Own(es, id) + [e]) == Own(es, id);
    assert forall k: nat :: k < n ==> (TimedAt(more, id, k) <==> TimedAt(es, id, k));
    if !TimedAt(more, id, n) {
      assert forall k: nat :: TimedAt(more, id, k) <==> TimedAt(es, id, k);
      assert forall k: nat :: LastTimed(more, id, k) ==> LastTimed(es, id, k);
    } else {
      assert forall k: nat :: LastTimed(more, id, k) ==> k == n;
    }
  }

  lemma {:induction false} OwnSaid(es: seq<Event>, id: string)
    ensures |Own(es, id)| == CountNamed(es, id)
    ensures OutcomeSaid(es, id, LastOutcome(Own(es, id))) && TimeSaid(es, id, LastTime(Own(es, id)))
  {
    if es != [] {
      var before, e := Init(es), es[|es| - 1];
      assert es == before + [e];
      OwnSaid(before, id);
      OwnSnoc(before, e, id);
      CountNamedSnoc(before, e, id);
      EndSnoc(before, e, id);
      TimeSnoc(before, e, id);
    }
  }

  lemma {:induction false} OwnNone(es: seq<Event>, id: string)
    requires forall j: nat :: !Names(es, id, j)
    ensures Own(es, id) == []
  {
    OwnIn(es, id);
    HeadIn(Own(es, id));
    forall j | 0 <= j < |es| ensures es[j].invocation != Some(id) {
      assert !Names(es, id, j);
    }
  }

  /** Later events leave the first event the first. */
  lemma {:induction false} OwnKept(es: seq<Event>, id: string, n: nat)
    requires n <= |es| && Own(es[..n], id) != []
    ensures Own(es, id) != [] && Own(es, id)[0] == Own(es[..n], id)[0]
    decreases |es|
  {
    if n == |es| {
      assert es[..n] == es;
    } else {
      var before, e := Init(es), es[|es| - 1];
      assert before[..n] == es[..n] && es == before + [e];
      OwnKept(before, id, n);
      OwnSnoc(before, e, id);
    }
  }

  lemma {:induction false} OwnFirst(es: seq<Event>, id: string, k: nat)
    requires FirstNamed(es, id, k)
    ensures Own(es, id) != [] && Own(es, id)[0] == es[k]
  {
    forall j: nat ensures !Names(es[..k], id, j) {
      assert Names(es[..k], id, j) ==> Names(es, id, j);
    }
    OwnNone(es[..k], id);
    assert es[..k + 1] == es[..k] + [es[k]];
    OwnSnoc(es[..k], es[k], id);
    OwnKept(es, id, k + 1);
  }

  /**
   * What is reported of an invocation: three fields of its first event, the number of its
   * events, the outcome of the last of them that ends it, and the last time one carries.
   */
  lemma {:induction false} SummaryMeaning(es: seq<Event>, limit: int, seen: seq<Summary>, i: nat, k: nat)
    requires Grouped(seen, es, limit) && i < |seen| && FirstNamed(es, seen[i].id, k)
    ensures seen[i].capability == es[k].capability && seen[i].correlation == es[k].correlation
    ensures seen[i].startedAt == es[k].time
    ensures seen[i].eventCount == CountNamed(es, seen[i].id)
    ensures OutcomeSaid(es, seen[i].id, seen[i].outcome) && TimeSaid(es, seen[i].id, seen[i].completedAt)
  {
    var id := Take(FirstIds(es), limit)[i];
    assert seen[i] == Summarise(id, Own(es, id));
    OwnSaid(es, id);
    OwnFirst(es, id, k);
  }

  /** Raising the limit only adds invocations at the end; what is reported of the others stays. */
  lemma {:induction false} LargerLimitExtends(es: seq<Event>, small: int, large: int, few: seq<Summary>,
                                              many: seq<Summary>)
    requires small <= large
    requires Grouped(few, es, small) && Grouped(many, es, large)
    ensures few <= many
  {
    var a, b := Take(FirstIds(es), small), Take(FirstIds(es), large);
    assert a <= b;
    forall i | 0 <= i < |few| ensures few[i] == many[i] {
      assert a[i] == b[i];
    }
  }

  function TotalEvents(seen: seq<Summary>): nat
  {
    if seen == [] then 0 else TotalEvents(seen[..|seen| - 1]) + seen[|seen| - 1].eventCount
  }

  /** The events that name an invocation. */
  function Attributed(es: seq<Event>): nat
  {
    if es == [] then 0 else Attributed(Init(es)) + if es[|es| - 1].invocation.Some? then 1 else 0
  }

  function OwnSizes(es: seq<Event>, ids: seq<string>): nat
  {
    if ids == [] then 0 else OwnSizes(es, ids[..|ids| - 1]) + |Own(es, ids[|ids| - 1])|
  }

  lemma {:induction false} OwnSizesSnoc(es: seq<Event>, e: Event, ids: seq<string>)
    requires NoDup(ids)
    ensures OwnSizes(es + [e], ids)
         == OwnSizes(es, ids) + if e.invocation.Some? && e.invocation.value in ids then 1 else 0
  {
    if ids != [] {
      var n := |ids| - 1;
      OwnSizesSnoc(es, e, ids[..n]);
      assert Init(es + [e]) == es;
      assert ids == ids[..n] + [ids[n]];
      assert ids[n] !in ids[..n];
    }
  }

  lemma {:induction false} OwnSizesAll(es: seq<Event>)
    ensures OwnSizes(es, FirstIds(es)) == Attributed(es)
  {
    if es != [] {
      var before, e := Init(es), es[|es| - 1];
      assert es == before + [e];
      OwnSizesAll(before);
      FirstIdsNoDup(before);
      OwnSizesSnoc(before, e, FirstIds(before));
      if e.invocation.Some? && e.invocation.value !in FirstIds(before) {
        var id := e.invocation.value;
        FirstIdsOwn(before, id);
        assert (FirstIds(before) + [id])[..|FirstIds(before)|] == FirstIds(before);
        assert Own(es, id) == [e];
      }
    }
  }

  lemma {:induction false} TotalIsOwnSizes(seen: seq<Summary>, es: seq<Event>, ids: seq<string>)
    requires Groups(seen, es, ids)
    ensures TotalEvents(seen) == OwnSizes(es, ids)
  {
    if seen != [] {
      var n := |seen| - 1;
      TotalIsOwnSizes(seen[..n], es, ids[..n]);
    }
  }

  /** A limit that leaves no invocation out leaves no event out. */
  lemma {:induction false} NoEventLost(es: seq<Event>, limit: int, seen: seq<Summary>)
    requires Grouped(seen, es, limit) && |FirstIds(es)| <= limit
    ensures TotalEvents(seen) == Attributed(es)
  {
    assert Take(FirstIds(es), limit) == FirstIds(es);
    TotalIsOwnSizes(seen, es, FirstIds(es));
    OwnSizesAll(es);
  }
}
