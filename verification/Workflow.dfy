/** Named workflows: defining one, running its steps in order, and the events a run leaves behind. */
module Workflow {
  import opened Seqs

  /** A step as it is given; a missing, or an empty, id or node is filled in or dropped. */
  datatype RawStep = RawStep(id: Option<string>, capability: string, skipOnFailure: bool, node: Option<string>)

  datatype Step = Step(id: string, capability: string, skipOnFailure: bool, node: Option<string>)

  /** What comes of invoking a step: it replies with success or without, or it raises. */
  datatype Reply = Success | NonSuccess(error: Option<string>) | Raised(message: string)

  datatype Event =
    | RunStarted(name: string, stepCount: nat)
    | StepStarted(id: string, capability: string, node: Option<string>)
    | StepCompleted(id: string, capability: string)
    | StepFailed(id: string, capability: string, error: string)
    | RunFailed(failedAt: string, error: string)
    | RunComplete(name: string, completed: nat, failed: nat)

  datatype Report = Report(id: string, capability: string, success: bool, error: Option<string>)

  datatype RunResult =
    | NotRegistered
    | Undefined
    | FailedAt(id: string, error: string)
    | Returned(steps: seq<Report>, completed: nat, failed: nat)

  // ---- Definitions ---------------------------------------------------------------------------------

  function Digit(d: nat): char
    requires d < 10
  {
    "0123456789"[d]
  }

  function Decimal(n: nat): (s: string)
    ensures s != []
  {
    if n < 10 then [Digit(n)] else Decimal(n / 10) + [Digit(n % 10)]
  }

  function DefaultId(i: nat): string
  {
    "step_" + Decimal(i + 1)
  }

  function OrNone(s: Option<string>): Option<string>
  {
    if s == Some("") then None else s
  }

  function Normalised(s: RawStep, i: nat): Step
  {
    Step(if OrNone(s.id).Some? then s.id.value else DefaultId(i), s.capability, s.skipOnFailure, OrNone(s.node))
  }

  lemma {:induction false} DecimalInjective(a: nat, b: nat)
    requires Decimal(a) == Decimal(b)
    ensures a == b
  {
    var da, db := Decimal(a), Decimal(b);
    assert da[|da| - 1] == Digit(a % 10) && db[|db| - 1] == Digit(b % 10);
    if a >= 10 && b >= 10 {
      assert da[..|da| - 1] == Decimal(a / 10) && db[..|db| - 1] == Decimal(b / 10);
      DecimalInjective(a / 10, b / 10);
    } else {
      assert |da| == 1 && |db| == 1;
    }
  }

  function DigitValue(c: char): int
  {
    c as int - '0' as int
  }

  function ValueOf(digits: string): int
  {
    if digits == "" then 0 else 10 * ValueOf(digits[..|digits| - 1]) + DigitValue(digits[|digits| - 1])
  }

  lemma {:induction false} DigitIs(d: nat)
    requires d < 10
    ensures DigitValue(Digit(d)) == d
  {
    assert "0123456789"[d] == ('0' as int + d) as char;
  }

  /** The decimal of a number reads back as the number and has no leading zero. */
  lemma {:induction false} DecimalValue(n: nat)
    ensures ValueOf(Decimal(n)) == n
    ensures forall k :: 0 <= k < |Decimal(n)| ==> '0' <= Decimal(n)[k] <= '9'
    ensures n > 0 ==> Decimal(n)[0] != '0'
  {
    DigitIs(n % 10);
    if n < 10 {
      assert [Digit(n)][..0] == "";
    } else {
      DecimalValue(n / 10);
      var s := Decimal(n);
      assert s[..|s| - 1] == Decimal(n / 10);
    }
  }

  // ---- What a run does -----------------------------------------------------------------------------

  /** The error recorded for a reply; none on success. */
  function ErrorOf(r: Reply): Option<string>
  {
    match r
    case Success => None
    case NonSuccess(error) => Some(if OrNone(error).Some? then error.value else "step returned non-success")
    case Raised(message) => Some(message)
  }

  /** The step ends the run: it failed and its failure is not to be skipped. */
  predicate Stops(s: Step, r: Reply)
  {
    ErrorOf(r).Some? && !s.skipOnFailure
  }

  function ReportOf(s: Step, r: Reply): Report
  {
    Report(s.id, s.capability, ErrorOf(r).None?, ErrorOf(r))
  }

  function Successes(reports: seq<Report>): nat
  {
    if reports == [] then 0 else Successes(reports[..|reports| - 1]) + One(reports[|reports| - 1].success)
  }

  function Failures(reports: seq<Report>): nat
  {
    if reports == [] then 0 else Failures(reports[..|reports| - 1]) + One(!reports[|reports| - 1].success)
  }

  function Started(s: Step): Event
  {
    StepStarted(s.id, s.capability, s.node)
  }

  function Ended(s: Step, error: Option<string>): Event
  {
    if error.None? then StepCompleted(s.id, s.capability) else StepFailed(s.id, s.capability, error.value)
  }

  function One(b: bool): nat
  {
    if b then 1 else 0
  }

  /** The events from step `i` on, after `completed` successes and `failed` failures that were skipped. */
  function TraceFrom(name: string, steps: seq<Step>, i: nat, replies: nat -> Reply, completed: nat,
                     failed: nat): seq<Event>
    requires i <= |steps|
    decreases |steps| - i
  {
    if i == |steps| then [RunComplete(name, completed, failed)]
    else
      var s, error := steps[i], ErrorOf(replies(i));
      if Stops(s, replies(i)) then [Started(s), Ended(s, error)] + [RunFailed(s.id, error.value)]
      else
        [Started(s), Ended(s, error)]
        + TraceFrom(name, steps, i + 1, replies, completed + One(error.None?), failed + One(error.Some?))
  }

  function TraceOf(name: string, steps: seq<Step>, replies: nat -> Reply): seq<Event>
  {
    [RunStarted(name, |steps|)] + TraceFrom(name, steps, 0, replies, 0, 0)
  }

  /** The events up to the end of step `i - 1`. */
  function Emitted(name: string, steps: seq<Step>, i: nat, replies: nat -> Reply): seq<Event>
    requires i <= |steps|
  {
    if i == 0 then [RunStarted(name, |steps|)]
    else Emitted(name, steps, i - 1, replies) + [Started(steps[i - 1])] + [Ended(steps[i - 1], ErrorOf(replies(i - 1)))]
  }

  function Good(i: nat, replies: nat -> Reply): nat
  {
    if i == 0 then 0 else Good(i - 1, replies) + One(ErrorOf(replies(i - 1)).None?)
  }

  function Bad(i: nat, replies: nat -> Reply): nat
  {
    if i == 0 then 0 else Bad(i - 1, replies) + One(ErrorOf(replies(i - 1)).Some?)
  }

  ghost predicate NoStopBefore(steps: seq<Step>, i: nat, replies: nat -> Reply)
    requires i <= |steps|
  {
    forall j :: 0 <= j < i ==> !Stops(steps[j], replies(j))
  }

  /** All the events of a run, told apart after step `i - 1`. */
  function Halves(name: string, steps: seq<Step>, i: nat, replies: nat -> Reply): seq<Event>
    requires i <= |steps|
  {
    Emitted(name, steps, i, replies) + TraceFrom(name, steps, i, replies, Good(i, replies), Bad(i, replies))
  }

  lemma {:induction false} HalvesShift(name: string, steps: seq<Step>, i: nat, replies: nat -> Reply)
    requires i < |steps| && !Stops(steps[i], replies(i))
    ensures Halves(name, steps, i + 1, replies) == Halves(name, steps, i, replies)
  {
    Regroup(Emitted(name, steps, i, replies), Started(steps[i]), Ended(steps[i], ErrorOf(replies(i))),
            TraceFrom(name, steps, i + 1, replies, Good(i + 1, replies), Bad(i + 1, replies)));
  }

  lemma {:induction false} HalvesStart(name: string, steps: seq<Step>, replies: nat -> Reply)
    ensures Halves(name, steps, 0, replies) == TraceOf(name, steps, replies)
  {
  }

  lemma {:induction false} EmittedThenRest(name: string, steps: seq<Step>, i: nat, replies: nat -> Reply)
    requires i <= |steps| && NoStopBefore(steps, i, replies)
    ensures Halves(name, steps, i, replies) == TraceOf(name, steps, replies)
  {
    HalvesStart(name, steps, replies);
    var k := 0;
    while k < i
      invariant k <= i
      invariant Halves(name, steps, k, replies) == TraceOf(name, steps, replies)
    {
      HalvesShift(name, steps, k, replies);
      k := k + 1;
    }
  }

  lemma {:induction false} EmittedAll(name: string, steps: seq<Step>, replies: nat -> Reply)
    requires NoStopBefore(steps, |steps|, replies)
    ensures Emitted(name, steps, |steps|, replies) + [RunComplete(name, Good(|steps|, replies), Bad(|steps|, replies))]
         == TraceOf(name, steps, replies)
  {
    EmittedThenRest(name, steps, |steps|, replies);
  }

  lemma {:induction false} EmittedLast(name: string, steps: seq<Step>, i: nat, replies: nat -> Reply)
    requires i < |steps| && NoStopBefore(steps, i, replies) && Stops(steps[i], replies(i))
    ensures Emitted(name, steps, i, replies) + [Started(steps[i])] + [Ended(steps[i], ErrorOf(replies(i)))]
              + [RunFailed(steps[i].id, ErrorOf(replies(i)).value)]
         == TraceOf(name, steps, replies)
  {
    EmittedThenRest(name, steps, i, replies);
    Regroup(Emitted(name, steps, i, replies), Started(steps[i]), Ended(steps[i], ErrorOf(replies(i))),
            [RunFailed(steps[i].id, ErrorOf(replies(i)).value)]);
  }

  lemma {:induction false} Regroup<T>(before: seq<T>, a: T, b: T, later: seq<T>)
    ensures before + ([a, b] + later) == before + [a] + [b] + later
  {
  }

  lemma {:induction false} FirstTwo<T>(s: seq<T>)
    requires |s| >= 2
    ensures s == [s[0], s[1]] + s[2..]
  {
  }

  lemma {:induction false} CountSnoc(reports: seq<Report>, r: Report)
    ensures Successes(reports + [r]) == Successes(reports) + One(r.success)
    ensures Failures(reports + [r]) == Failures(reports) + One(!r.success)
  {
    assert (reports + [r])[..|reports|] == reports;
  }

  method NormaliseAll(raw: seq<RawStep>) returns (steps: seq<Step>)
    ensures |steps| == |raw|
    ensures forall i :: 0 <= i < |raw| ==> steps[i] == Normalised(raw[i], i)
  {
    steps := [];
    for i := 0 to |raw|
      invariant |steps| == i
      invariant forall j :: 0 <= j < i ==> steps[j] == Normalised(raw[j], j)
    {
      steps := steps + [Normalised(raw[i], i)];
    }
  }

  class Composition {
    var registered: bool
    var workflows: map<string, seq<Step>>

    constructor ()
      ensures !registered && workflows == map[]
    {
      registered := false;
      workflows := map[];
    }

    /** Defining a name again replaces its steps; every other workflow stays. */
    method Define(name: string, raw: seq<RawStep>) returns (stepCount: nat)
      modifies this`workflows
      ensures stepCount == |raw|
      ensures workflows.Keys == old(workflows).Keys + {name}
      ensures forall other :: other in old(workflows) && other != name ==> workflows[other] == old(workflows)[other]
      ensures |workflows[name]| == |raw|
      ensures forall i :: 0 <= i < |raw| ==> workflows[name][i] == Normalised(raw[i], i)
      ensures forall i :: 0 <= i < |raw| ==>
                var s := workflows[name][i];
                && s.capability == raw[i].capability && s.skipOnFailure == raw[i].skipOnFailure
                && (raw[i].id.Some? && |raw[i].id.value| > 0 ==> s.id == raw[i].id.value)
                && (raw[i].id.None? || raw[i].id == Some("") ==> s.id == "step_" + Decimal(i + 1))
                && (raw[i].node.Some? && |raw[i].node.value| > 0 ==> s.node == raw[i].node)
                && (raw[i].node.None? || raw[i].node == Some("") ==> s.node == None)
    {
      var steps := NormaliseAll(raw);
      workflows := workflows[name := steps];
      stepCount := |steps|;
    }

    /** Runs a workflow whose `i`-th step, if it is reached, gets the reply `replies(i)`. */
    method Run(name: string, replies: nat -> Reply) returns (r: RunResult, trace: seq<Event>, invoked: seq<Step>)
      ensures !registered ==> r == NotRegistered && trace == [] && invoked == []
      ensures registered && name !in workflows ==> r == Undefined && trace == [] && invoked == []
      ensures registered && name in workflows ==>
                && trace == TraceOf(name, workflows[name], replies)
                && invoked <= workflows[name]
                && ((r.FailedAt? && FailedRun(invoked, replies, r.id, r.error))
                    || (r.Returned? && invoked == workflows[name] && GoodRun(invoked, replies, r.steps)
                        && r.completed == Successes(r.steps) && r.failed == Failures(r.steps)))
    {
      if !registered {
        return NotRegistered, [], [];
      }
      if name !in workflows {
        return Undefined, [], [];
      }
      r, trace, invoked := RunSteps(name, workflows[name], replies);
    }
  }

  /** The last of the steps invoked stops the run, and none before it does. */
  ghost predicate FailedRun(invoked: seq<Step>, replies: nat -> Reply, id: string, error: string)
  {
    && invoked != []
    && (forall i :: 0 <= i < |invoked| ==>
          (replies(i) != Success && !invoked[i].skipOnFailure <==> i == |invoked| - 1))
    && id == invoked[|invoked| - 1].id && Told(replies(|invoked| - 1)) == Some(error)
  }

  /** What is told of a reply: nothing of a success, a message or a non-empty error as it is, else a fixed text. */
  ghost function Told(r: Reply): Option<string>
  {
    if r == Success then None
    else if r.Raised? then Some(r.message)
    else if r.error.Some? && |r.error.value| > 0 then r.error
    else Some("step returned non-success")
  }

  lemma {:induction false} ToldIs(s: Step, r: Reply)
    ensures ErrorOf(r) == Told(r)
    ensures Stops(s, r) <==> r != Success && !s.skipOnFailure
    ensures ReportOf(s, r) == Report(s.id, s.capability, r == Success, Told(r))
  {
  }

  /** No step stops the run, and each is reported with what came of it. */
  ghost predicate GoodRun(invoked: seq<Step>, replies: nat -> Reply, reports: seq<Report>)
  {
    && |reports| == |invoked|
    && forall i :: 0 <= i < |invoked| ==>
        && (replies(i) == Success || invoked[i].skipOnFailure)
        && reports[i] == Report(invoked[i].id, invoked[i].capability, replies(i) == Success, Told(replies(i)))
  }

  /** Where the loop stands before step `i`. */
  ghost predicate SoFar(name: string, steps: seq<Step>, i: nat, replies: nat -> Reply, trace: seq<Event>,
                        invoked: seq<Step>, reports: seq<Report>)
    requires i <= |steps|
  {
    && invoked == steps[..i] && GoodRun(invoked, replies, reports)
    && trace == Emitted(name, steps, i, replies)
    && Successes(reports) == Good(i, replies) && Failures(reports) == Bad(i, replies)
  }

  lemma {:induction false} SoFarNoStop(name: string, steps: seq<Step>, i: nat, replies: nat -> Reply, trace: seq<Event>,
                                       invoked: seq<Step>, reports: seq<Report>)
    requires i <= |steps| && SoFar(name, steps, i, replies, trace, invoked, reports)
    ensures NoStopBefore(steps, i, replies)
  {
    forall j | 0 <= j < i ensures !Stops(steps[j], replies(j)) {
      assert invoked[j] == steps[j];
      ToldIs(steps[j], replies(j));
    }
  }

  lemma {:induction false} GoesOn(name: string, steps: seq<Step>, i: nat, replies: nat -> Reply, trace: seq<Event>,
                                  invoked: seq<Step>, reports: seq<Report>)
    requires i < |steps| && SoFar(name, steps, i, replies, trace, invoked, reports)
    requires !Stops(steps[i], replies(i))
    ensures SoFar(name, steps, i + 1, replies, trace + [Started(steps[i])] + [Ended(steps[i], ErrorOf(replies(i)))],
                  invoked + [steps[i]], reports + [ReportOf(steps[i], replies(i))])
  {
    GoodRunGoesOn(invoked, replies, reports, steps[i], replies(i));
    CountSnoc(reports, ReportOf(steps[i], replies(i)));
    assert steps[..i + 1] == steps[..i] + [steps[i]];
  }

  lemma {:induction false} StopsHere(name: string, steps: seq<Step>, i: nat, replies: nat -> Reply, trace: seq<Event>,
                                     invoked: seq<Step>, reports: seq<Report>)
    requires i < |steps| && SoFar(name, steps, i, replies, trace, invoked, reports)
    requires Stops(steps[i], replies(i))
    ensures var error := ErrorOf(replies(i));
            && trace + [Started(steps[i])] + [Ended(steps[i], error)] + [RunFailed(steps[i].id, error.value)]
               == TraceOf(name, steps, replies)
            && FailedRun(invoked + [steps[i]], replies, steps[i].id, error.value) && invoked + [steps[i]] <= steps
  {
    GoodRunStops(invoked, replies, reports, steps[i], replies(i));
    SoFarNoStop(name, steps, i, replies, trace, invoked, reports);
    EmittedLast(name, steps, i, replies);
  }

  method RunSteps(name: string, steps: seq<Step>, replies: nat -> Reply)
    returns (r: RunResult, trace: seq<Event>, invoked: seq<Step>)
    ensures trace == TraceOf(name, steps, replies)
    ensures invoked <= steps
    ensures r.FailedAt? || r.Returned?
    ensures r.FailedAt? ==> FailedRun(invoked, replies, r.id, r.error)
    ensures r.Returned? ==>
              && invoked == steps && GoodRun(invoked, replies, r.steps)
              && r.completed == Successes(r.steps) && r.failed == Failures(r.steps)
  {
    trace, invoked := [RunStarted(name, |steps|)], [];
    var reports := [];
    for i := 0 to |steps|
      invariant SoFar(name, steps, i, replies, trace, invoked, reports)
    {
      ghost var before, ran := trace, invoked;
      var step, reply := steps[i], replies(i);
      trace := trace + [Started(step)];
      invoked := invoked + [step];
      trace := trace + [Ended(step, ErrorOf(reply))];
      if Stops(step, reply) {
        StopsHere(name, steps, i, replies, before, ran, reports);
        trace := trace + [RunFailed(step.id, ErrorOf(reply).value)];
        return FailedAt(step.id, ErrorOf(reply).value), trace, invoked;
      }
      GoesOn(name, steps, i, replies, before, ran, reports);
      reports := reports + [ReportOf(step, reply)];
    }
    SoFarNoStop(name, steps, |steps|, replies, trace, invoked, reports);
    EmittedAll(name, steps, replies);
    trace := trace + [RunComplete(name, Successes(reports), Failures(reports))];
    r := Returned(reports, Successes(reports), Failures(reports));
  }

  lemma {:induction false} GoodRunStops(invoked: seq<Step>, replies: nat -> Reply, reports: seq<Report>, s: Step,
                                        r: Reply)
    requires GoodRun(invoked, replies, reports) && r == replies(|invoked|) && Stops(s, r)
    ensures FailedRun(invoked + [s], replies, s.id, ErrorOf(r).value)
  {
    ToldIs(s, r);
  }

  lemma {:induction false} GoodRunGoesOn(invoked: seq<Step>, replies: nat -> Reply, reports: seq<Report>, s: Step,
                                         r: Reply)
    requires GoodRun(invoked, replies, reports) && r == replies(|invoked|) && !Stops(s, r)
    ensures GoodRun(invoked + [s], replies, reports + [ReportOf(s, r)])
  {
    var steps, more, n := invoked + [s], reports + [ReportOf(s, r)], |invoked|;
    ToldIs(s, r);
    forall i | 0 <= i < |steps|
      ensures replies(i) == Success || steps[i].skipOnFailure
      ensures more[i] == Report(steps[i].id, steps[i].capability, replies(i) == Success, Told(replies(i)))
    {
      assert i < n ==> steps[i] == invoked[i] && more[i] == reports[i];
    }
  }

  lemma {:induction false} EmittedSize(name: string, steps: seq<Step>, i: nat, replies: nat -> Reply)
    requires i <= |steps|
    ensures |Emitted(name, steps, i, replies)| == 1 + 2 * i
    ensures Emitted(name, steps, i, replies)[0] == RunStarted(name, |steps|)
  {
    if i > 0 {
      EmittedSize(name, steps, i - 1, replies);
    }
  }

  /** Where the events of a step stand that is reached, what they say, and the event that ends a run there. */
  lemma {:induction false} TraceAt(name: string, steps: seq<Step>, i: nat, replies: nat -> Reply)
    requires i < |steps| && forall j :: 0 <= j < i ==> replies(j) == Success || steps[j].skipOnFailure
    ensures var trace, s, r := TraceOf(name, steps, replies), steps[i], replies(i);
            && |trace| >= 2 * i + 4 && trace[0] == RunStarted(name, |steps|)
            && trace[2 * i + 1] == StepStarted(s.id, s.capability, s.node)
            && trace[2 * i + 2] == (if r == Success then StepCompleted(s.id, s.capability)
                                    else StepFailed(s.id, s.capability, Told(r).value))
            && (r != Success && !s.skipOnFailure ==>
                  |trace| == 2 * i + 4 && trace[2 * i + 3] == RunFailed(s.id, Told(r).value))
  {
    forall j | 0 <= j < i ensures !Stops(steps[j], replies(j)) {
      ToldIs(steps[j], replies(j));
    }
    ToldIs(steps[i], replies(i));
    EmittedThenRest(name, steps, i, replies);
    EmittedSize(name, steps, i, replies);
    RestSize(name, steps, i, replies, Good(i, replies), Bad(i, replies));
  }

  lemma {:induction false} RestSize(name: string, steps: seq<Step>, i: nat, replies: nat -> Reply, completed: nat,
                                    failed: nat)
    requires i < |steps|
    ensures var rest := TraceFrom(name, steps, i, replies, completed, failed);
            && |rest| >= 3
            && rest[0] == Started(steps[i]) && rest[1] == Ended(steps[i], ErrorOf(replies(i)))
            && (Stops(steps[i], replies(i)) ==>
                  |rest| == 3 && rest[2] == RunFailed(steps[i].id, ErrorOf(replies(i)).value))
  {
  }

  // ---- The language of traces ----------------------------------------------------------------------

  /** A step's own two events: it started, and it completed or failed. */
  predicate StepPair(s: Step, start: Event, end: Event)
  {
    && start == StepStarted(s.id, s.capability, s.node)
    && (end == StepCompleted(s.id, s.capability)
        || (end.StepFailed? && end.id == s.id && end.capability == s.capability))
  }

  /** Traces of `steps` from step `i` on, written down without reference to any reply. */
  predicate Recognised(name: string, steps: seq<Step>, i: nat, trace: seq<Event>, completed: nat, failed: nat)
    requires i <= |steps|
    decreases |steps| - i
  {
    if i == |steps| then trace == [RunComplete(name, completed, failed)]
    else
      && |trace| >= 2 && StepPair(steps[i], trace[0], trace[1])
      && if trace[1].StepFailed? && !steps[i].skipOnFailure then trace[2..] == [RunFailed(steps[i].id, trace[1].error)]
         else
           Recognised(name, steps, i + 1, trace[2..],
                      completed + One(trace[1].StepCompleted?), failed + One(trace[1].StepFailed?))
  }

  predicate IsTrace(name: string, steps: seq<Step>, trace: seq<Event>)
  {
    trace != [] && trace[0] == RunStarted(name, |steps|) && Recognised(name, steps, 0, trace[1..], 0, 0)
  }

  lemma {:induction false} RecognisedStop(name: string, steps: seq<Step>, i: nat, error: string, completed: nat,
                                          failed: nat)
    requires i < |steps| && !steps[i].skipOnFailure
    ensures Recognised(name, steps, i,
              [Started(steps[i]), Ended(steps[i], Some(error))] + [RunFailed(steps[i].id, error)], completed, failed)
  {
    var trace := [Started(steps[i]), Ended(steps[i], Some(error))] + [RunFailed(steps[i].id, error)];
    assert trace[2..] == [RunFailed(steps[i].id, error)];
  }

  lemma {:induction false} RecognisedCons(name: string, steps: seq<Step>, i: nat, error: Option<string>,
                                          rest: seq<Event>, completed: nat, failed: nat)
    requires i < |steps| && (error.Some? ==> steps[i].skipOnFailure)
    requires Recognised(name, steps, i + 1, rest, completed + One(error.None?), failed + One(error.Some?))
    ensures Recognised(name, steps, i, [Started(steps[i]), Ended(steps[i], error)] + rest, completed, failed)
  {
    var trace := [Started(steps[i]), Ended(steps[i], error)] + rest;
    assert trace[2..] == rest;
  }

  lemma {:induction false} TraceIsRecognised(name: string, steps: seq<Step>, i: nat, replies: nat -> Reply,
                                             completed: nat, failed: nat)
    requires i <= |steps|
    ensures Recognised(name, steps, i, TraceFrom(name, steps, i, replies, completed, failed), completed, failed)
    decreases |steps| - i
  {
    if i < |steps| {
      var error := ErrorOf(replies(i));
      if Stops(steps[i], replies(i)) {
        RecognisedStop(name, steps, i, error.value, completed, failed);
      } else {
        var c, f := completed + One(error.None?), failed + One(error.Some?);
        TraceIsRecognised(name, steps, i + 1, replies, c, f);
        RecognisedCons(name, steps, i, error, TraceFrom(name, steps, i + 1, replies, c, f), completed, failed);
      }
    }
  }

  lemma {:induction false} LaterReplies(name: string, steps: seq<Step>, i: nat, a: nat -> Reply, b: nat -> Reply,
                                        completed: nat, failed: nat)
    requires i <= |steps|
    requires forall j: nat :: i <= j ==> a(j) == b(j)
    ensures TraceFrom(name, steps, i, a, completed, failed) == TraceFrom(name, steps, i, b, completed, failed)
    decreases |steps| - i
  {
    if i < |steps| {
      var reply := a(i);
      var error := ErrorOf(reply);
      assert b(i) == reply;
      var c, f := completed + One(error.None?), failed + One(error.Some?);
      LaterReplies(name, steps, i + 1, a, b, c, f);
      TraceStep(name, steps, i, a, completed, failed, reply, TraceFrom(name, steps, i + 1, a, c, f));
      TraceStep(name, steps, i, b, completed, failed, reply, TraceFrom(name, steps, i + 1, b, c, f));
    }
  }

  /** One step of a trace. */
  function Prepended(s: Step, reply: Reply, later: seq<Event>): seq<Event>
  {
    var error := ErrorOf(reply);
    [Started(s), Ended(s, error)] + if Stops(s, reply) then [RunFailed(s.id, error.value)] else later
  }

  lemma {:induction false} TraceStep(name: string, steps: seq<Step>, i: nat, replies: nat -> Reply, completed: nat,
                                     failed: nat, reply: Reply, later: seq<Event>)
    requires i < |steps| && reply == replies(i)
    requires var error := ErrorOf(reply);
             later == TraceFrom(name, steps, i + 1, replies, completed + One(error.None?), failed + One(error.Some?))
    ensures TraceFrom(name, steps, i, replies, completed, failed) == Prepended(steps[i], reply, later)
  {
  }

  /** What a recognised trace starts with, and what the reply was that makes it so. */
  lemma {:induction false} FirstReply(name: string, steps: seq<Step>, i: nat, trace: seq<Event>, completed: nat,
                                      failed: nat) returns (reply: Reply)
    requires i < |steps| && Recognised(name, steps, i, trace, completed, failed)
    ensures |trace| >= 2 && trace == Prepended(steps[i], reply, trace[2..])
    ensures var error := ErrorOf(reply);
            !Stops(steps[i], reply) ==>
              Recognised(name, steps, i + 1, trace[2..], completed + One(error.None?), failed + One(error.Some?))
  {
    reply := if trace[1].StepCompleted? then Success else Raised(trace[1].error);
    FirstTwo(trace);
    assert trace[0] == Started(steps[i]) && trace[1] == Ended(steps[i], ErrorOf(reply));
  }

  /** The replies that make a recognised trace come about. */
  lemma {:induction false} Realise(name: string, steps: seq<Step>, i: nat, trace: seq<Event>, completed: nat,
                                   failed: nat)
    returns (replies: nat -> Reply)
    requires i <= |steps| && Recognised(name, steps, i, trace, completed, failed)
    ensures trace == TraceFrom(name, steps, i, replies, completed, failed)
    decreases |steps| - i
  {
    var later := (j: nat) => Success;
    if i == |steps| {
      return later;
    }
    var reply := FirstReply(name, steps, i, trace, completed, failed);
    var error := ErrorOf(reply);
    var c, f := completed + One(error.None?), failed + One(error.Some?);
    if !Stops(steps[i], reply) {
      later := Realise(name, steps, i + 1, trace[2..], c, f);
    }
    replies := (j: nat) => if j == i then reply else later(j);
    LaterReplies(name, steps, i + 1, replies, later, c, f);
    TraceStep(name, steps, i, replies, completed, failed, reply, TraceFrom(name, steps, i + 1, replies, c, f));
  }

  /** The recogniser accepts exactly the traces that a run with some replies emits. */
  lemma {:induction false} TracesAreExactly(name: string, steps: seq<Step>, trace: seq<Event>)
    ensures IsTrace(name, steps, trace) <==> exists replies :: trace == TraceOf(name, steps, replies)
  {
    if IsTrace(name, steps, trace) {
      var replies := Realise(name, steps, 0, trace[1..], 0, 0);
      assert trace == [trace[0]] + trace[1..];
      assert trace == TraceOf(name, steps, replies);
    }
    if replies :| trace == TraceOf(name, steps, replies) {
      TraceIsRecognised(name, steps, 0, replies, 0, 0);
      assert trace[1..] == TraceFrom(name, steps, 0, replies, 0, 0);
    }
  }

  /** The grammar of all runs: started, pairs of step events, and one event that closes the run. */
  predicate Pairs(trace: seq<Event>)
  {
    if |trace| <= 1 then |trace| == 1 && (trace[0].RunComplete? || trace[0].RunFailed?)
    else
      && trace[0].StepStarted?
      && (trace[1].StepCompleted? || trace[1].StepFailed?) && trace[0].id == trace[1].id
      && Pairs(trace[2..])
  }

  function CountCompleted(trace: seq<Event>): nat
  {
    if trace == [] then 0 else (if trace[0].StepCompleted? then 1 else 0) + CountCompleted(trace[1..])
  }

  function CountFailed(trace: seq<Event>): nat
  {
    if trace == [] then 0 else (if trace[0].StepFailed? then 1 else 0) + CountFailed(trace[1..])
  }

  lemma {:induction false} CountPair(trace: seq<Event>)
    requires |trace| >= 2 && trace[0].StepStarted?
    ensures CountCompleted(trace) == (if trace[1].StepCompleted? then 1 else 0) + CountCompleted(trace[2..])
    ensures CountFailed(trace) == (if trace[1].StepFailed? then 1 else 0) + CountFailed(trace[2..])
  {
    assert trace[1..][1..] == trace[2..] && trace[1..][0] == trace[1];
  }

  lemma {:induction false} RecognisedCounts(name: string, steps: seq<Step>, i: nat, trace: seq<Event>, completed: nat,
                                            failed: nat)
    requires i <= |steps| && Recognised(name, steps, i, trace, completed, failed)
    ensures Pairs(trace)
    ensures var last := trace[|trace| - 1];
            if last.RunComplete? then
              && last.name == name
              && last.completed == completed + CountCompleted(trace) && last.failed == failed + CountFailed(trace)
              && CountCompleted(trace) + CountFailed(trace) == |steps| - i
            else
              && last.RunFailed?
              && 1 <= CountFailed(trace) && CountCompleted(trace) + CountFailed(trace) <= |steps| - i
              && steps[i + CountCompleted(trace) + CountFailed(trace) - 1].id == last.failedAt
    decreases |steps| - i
  {
    if i < |steps| {
      var rest, ok := trace[2..], trace[1].StepCompleted?;
      CountPair(trace);
      if ok || steps[i].skipOnFailure {
        RecognisedCounts(name, steps, i + 1, rest, completed + One(ok), failed + One(!ok));
      }
      assert trace[|trace| - 1] == rest[|rest| - 1];
    }
  }

  /**
   * Every trace follows the grammar, and what its last event says can be recomputed from the
   * events before it: the two counts of a complete run, or the step at which a run failed.
   */
  lemma {:induction false} TraceTellsAll(name: string, steps: seq<Step>, trace: seq<Event>)
    requires IsTrace(name, steps, trace)
    ensures trace[0].RunStarted? && Pairs(trace[1..])
    ensures var last := trace[|trace| - 1];
            if last.RunComplete? then
              && last == RunComplete(name, CountCompleted(trace), CountFailed(trace))
              && CountCompleted(trace) + CountFailed(trace) == |steps|
            else
              && last.RunFailed? && 1 <= CountCompleted(trace) + CountFailed(trace) <= |steps|
              && last.failedAt == steps[CountCompleted(trace) + CountFailed(trace) - 1].id
  {
    RecognisedCounts(name, steps, 0, trace[1..], 0, 0);
    assert trace[|trace| - 1] == trace[1..][|trace| - 2];
  }

  /** Steps left without an id get ids that differ from each other. */
  lemma {:induction false} DefaultIdsDiffer(i: nat, j: nat)
    requires DefaultId(i) == DefaultId(j)
    ensures i == j
  {
    assert DefaultId(i)[5..] == Decimal(i + 1) && DefaultId(j)[5..] == Decimal(j + 1);
    DecimalInjective(i + 1, j + 1);
  }
}
