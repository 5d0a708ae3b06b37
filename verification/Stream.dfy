/** Collecting a streamed response: the line loop with its four exits, and the text it adds up to. */
module Stream {
  import opened Seqs
  import opened PyText

  datatype Mode = Sse | Lines

  // A choice of an OpenAI-style event; a missing or empty string counts as absent.
  datatype Choice = NotAnObject | Choice(deltaContent: string, text: string)

  // A collected data frame, by the shapes the text assembly distinguishes.
  datatype Event =
    | Raw(data: string)                 // not JSON, or JSON that is not an object
    | BlockDelta(text: string)          // type == "content_block_delta"
    | Completion(choices: seq<Choice>)  // any other object

  // json.loads on the data of a frame; None when it raises.
  type Parser = string -> Option<Event>

  function Data(line: string): string
    requires StartsWith(line, "data:")
  {
    Strip(line[5..])
  }

  predicate IsFrame(line: string)
  {
    StartsWith(line, "data:") && Data(line) != "[DONE]"
  }

  predicate IsDone(line: string)
  {
    StartsWith(line, "data:") && Data(line) == "[DONE]"
  }

  function EventOf(parse: Parser, line: string): Event
    requires IsFrame(line)
  {
    var parsed := parse(Data(line));
    if parsed.Some? then parsed.value else Raw(Data(line))
  }

  /** The data frames of `lines`, in order. */
  function Frames(parse: Parser, lines: seq<string>): seq<Event>
  {
    if lines == [] then []
    else
      var before := Frames(parse, lines[..|lines| - 1]);
      var last := lines[|lines| - 1];
      if IsFrame(last) then before + [EventOf(parse, last)] else before
  }

  function NonEmpty(lines: seq<string>): seq<string>
  {
    if lines == [] then []
    else
      var before := NonEmpty(lines[..|lines| - 1]);
      if lines[|lines| - 1] != [] then before + [lines[|lines| - 1]] else before
  }

  /** The running total the code keeps; it counts characters, not bytes. */
  function Size(lines: seq<string>): nat
  {
    if lines == [] then 0 else Size(lines[..|lines| - 1]) + |lines[|lines| - 1]|
  }

  datatype Limits = Limits(mode: Mode, maxBytes: int, maxEvents: int)

  /** Line `i` is over a limit: the total has passed the cap, or the events were already full. */
  predicate OverLimit(parse: Parser, lim: Limits, lines: seq<string>, i: nat)
    requires i < |lines|
  {
    || Size(lines[..i + 1]) > lim.maxBytes
    || (if lim.mode.Sse? then |Frames(parse, lines[..i])| else 0) >= lim.maxEvents
  }

  predicate Stops(parse: Parser, lim: Limits, lines: seq<string>, i: nat)
    requires i < |lines|
  {
    OverLimit(parse, lim, lines, i) || (lim.mode.Sse? && IsDone(lines[i]))
  }

  /** The number of lines before the first one that stops the loop. */
  ghost predicate Cut(parse: Parser, lim: Limits, lines: seq<string>, n: nat)
  {
    && n <= |lines|
    && (forall i :: 0 <= i < n ==> !Stops(parse, lim, lines, i))
    && (n < |lines| ==> Stops(parse, lim, lines, n))
  }

  lemma {:induction false} OneMore(parse: Parser, lines: seq<string>, i: nat)
    requires i < |lines|
    ensures Size(lines[..i + 1]) == Size(lines[..i]) + |lines[i]|
    ensures var before := Frames(parse, lines[..i]);
            Frames(parse, lines[..i + 1]) == if IsFrame(lines[i]) then before + [EventOf(parse, lines[i])] else before
    ensures var before := NonEmpty(lines[..i]);
            NonEmpty(lines[..i + 1]) == if lines[i] != [] then before + [lines[i]] else before
  {
    assert lines[..i + 1][..i] == lines[..i];
  }

  /** What a line adds to the frames, the lines and the total, and when it stops the loop, by its text alone. */
  lemma {:induction false} LineMeaning(parse: Parser, lim: Limits, lines: seq<string>, i: nat)
    requires i < |lines|
    ensures var line := lines[i];
            var isData := |line| >= 5 && line[..5] == "data:";
            var data := if isData then Strip(line[5..]) else "";
            && Frames(parse, []) == [] && NonEmpty([]) == [] && Size([]) == 0
            && Frames(parse, lines[..i + 1]) == Frames(parse, lines[..i]) +
               (if !isData || data == "[DONE]" then []
                else if parse(data).Some? then [parse(data).value] else [Raw(data)])
            && NonEmpty(lines[..i + 1]) == NonEmpty(lines[..i]) + (if |line| > 0 then [line] else [])
            && Size(lines[..i + 1]) == Size(lines[..i]) + |line|
            && (Stops(parse, lim, lines, i) <==>
                || Size(lines[..i]) + |line| > lim.maxBytes
                || (lim.mode == Sse && (|Frames(parse, lines[..i])| >= lim.maxEvents || (isData && data == "[DONE]")))
                || (lim.mode == Lines && lim.maxEvents <= 0))
  {
    var line := lines[i];
    OneMore(parse, lines, i);
    assert StartsWith(line, "data:") <==> |line| >= 5 && line[..5] == "data:";
  }

  /** The loop's variables after the first `i` lines, none of which stopped it. */
  ghost predicate Progress(parse: Parser, lim: Limits, lines: seq<string>, i: nat, events: seq<Event>,
                           rawLines: seq<string>, total: nat)
    requires i <= |lines|
  {
    && total == Size(lines[..i])
    && events == (if lim.mode.Sse? then Frames(parse, lines[..i]) else [])
    && rawLines == (if lim.mode.Lines? then NonEmpty(lines[..i]) else [])
    && forall j :: 0 <= j < i ==> !Stops(parse, lim, lines, j)
  }

  lemma {:induction false} LimitSeen(parse: Parser, lim: Limits, lines: seq<string>, i: nat, events: seq<Event>,
                                     rawLines: seq<string>, total: nat)
    requires i < |lines| && Progress(parse, lim, lines, i, events, rawLines, total)
    ensures OverLimit(parse, lim, lines, i) <==> total + |lines[i]| > lim.maxBytes || |events| >= lim.maxEvents
  {
    OneMore(parse, lines, i);
  }

  lemma {:induction false} PastLine(parse: Parser, lim: Limits, lines: seq<string>, i: nat, events: seq<Event>,
                                    rawLines: seq<string>, total: nat)
    requires i < |lines| && Progress(parse, lim, lines, i, events, rawLines, total)
    requires lim.mode.Lines? && !OverLimit(parse, lim, lines, i)
    ensures Progress(parse, lim, lines, i + 1, events,
                     if lines[i] != [] then rawLines + [lines[i]] else rawLines, total + |lines[i]|)
  {
    OneMore(parse, lines, i);
  }

  lemma {:induction false} PastFrame(parse: Parser, lim: Limits, lines: seq<string>, i: nat, events: seq<Event>,
                                     rawLines: seq<string>, total: nat)
    requires i < |lines| && Progress(parse, lim, lines, i, events, rawLines, total)
    requires lim.mode.Sse? && !Stops(parse, lim, lines, i)
    ensures Progress(parse, lim, lines, i + 1,
                     if IsFrame(lines[i]) then events + [EventOf(parse, lines[i])] else events, rawLines,
                     total + |lines[i]|)
  {
    OneMore(parse, lines, i);
  }

  method Collect(parse: Parser, lim: Limits, lines: seq<string>)
    returns (events: seq<Event>, rawLines: seq<string>, truncated: bool, ghost n: nat)
    ensures Cut(parse, lim, lines, n)
    ensures events == if lim.mode.Sse? then Frames(parse, lines[..n]) else []
    ensures rawLines == if lim.mode.Lines? then NonEmpty(lines[..n]) else []
    ensures truncated <==> n < |lines| && OverLimit(parse, lim, lines, n)
  {
    events, rawLines, truncated, n := [], [], false, 0;
    var totalBytes: nat := 0;
    for i := 0 to |lines|
      invariant n == i && !truncated
      invariant Progress(parse, lim, lines, i, events, rawLines, totalBytes)
    {
      var line := lines[i];
      LimitSeen(parse, lim, lines, i, events, rawLines, totalBytes);
      ghost var before := totalBytes;
      totalBytes := totalBytes + |line|;
      if totalBytes > lim.maxBytes || |events| >= lim.maxEvents {
        truncated := true;
        return;
      }
      if lim.mode == Lines {
        PastLine(parse, lim, lines, i, events, rawLines, before);
        if line != [] {
          rawLines := rawLines + [line];
        }
      } else {
        if IsDone(line) {
          return;
        }
        PastFrame(parse, lim, lines, i, events, rawLines, before);
        if IsFrame(line) {
          events := events + [EventOf(parse, line)];
        }
      }
      n := n + 1;
    }
  }

  // ---- What the limits promise ------------------------------------------------------------

  /** In sse mode the events never exceed max_events. */
  lemma {:induction false} EventsBounded(parse: Parser, lim: Limits, lines: seq<string>, n: nat)
    requires lim.mode.Sse? && Cut(parse, lim, lines, n)
    ensures |Frames(parse, lines[..n])| <= if lim.maxEvents < 0 then 0 else lim.maxEvents
  {
    if n > 0 {
      assert !Stops(parse, lim, lines, n - 1);
      OneMore(parse, lines, n - 1);
    } else {
      assert lines[..0] == [];
    }
  }

  /** Raising the limits only ever extends what was collected. */
  lemma {:induction false} LimitsMonotone(parse: Parser, lim: Limits, lim': Limits, lines: seq<string>, n: nat, n': nat)
    requires lim.mode == lim'.mode && lim.maxBytes <= lim'.maxBytes && lim.maxEvents <= lim'.maxEvents
    requires Cut(parse, lim, lines, n) && Cut(parse, lim', lines, n')
    ensures n <= n' && Frames(parse, lines[..n]) <= Frames(parse, lines[..n'])
              && NonEmpty(lines[..n]) <= NonEmpty(lines[..n'])
  {
    if n' < |lines| {
      assert Stops(parse, lim', lines, n');
      assert Stops(parse, lim, lines, n');
    }
    CollectedGrows(parse, lines, n, n');
  }

  lemma {:induction false} CollectedGrows(parse: Parser, lines: seq<string>, n: nat, n': nat)
    requires n <= n' <= |lines|
    ensures Frames(parse, lines[..n]) <= Frames(parse, lines[..n']) && NonEmpty(lines[..n]) <= NonEmpty(lines[..n'])
  {
    if n < n' {
      CollectedGrows(parse, lines, n, n' - 1);
      assert lines[..n'][..n' - 1] == lines[..n' - 1];
    }
  }

  /** In lines mode only the byte cap limits: any two positive max_events cut at the same line. */
  lemma {:induction false} LinesIgnoreMaxEvents(parse: Parser, lines: seq<string>, maxBytes: int, m: int, m': int,
                                                n: nat)
    requires m >= 1 && m' >= 1
    ensures Cut(parse, Limits(Lines, maxBytes, m), lines, n) <==> Cut(parse, Limits(Lines, maxBytes, m'), lines, n)
    ensures Cut(parse, Limits(Lines, maxBytes, m), lines, n) ==>
              n == |lines| || Size(lines[..n + 1]) > maxBytes
  {
    var lim, lim' := Limits(Lines, maxBytes, m), Limits(Lines, maxBytes, m');
    assert forall i :: 0 <= i < |lines| ==> (Stops(parse, lim, lines, i) <==> Stops(parse, lim', lines, i));
  }

  lemma {:induction false} SizeGrows(lines: seq<string>, i: nat)
    requires i <= |lines|
    ensures Size(lines[..i]) <= Size(lines)
  {
    if i == |lines| {
      assert lines[..i] == lines;
    } else {
      var n := |lines| - 1;
      SizeGrows(lines[..n], i);
      assert lines[..n][..i] == lines[..i];
    }
  }

  lemma {:induction false} NonEmptyAll(lines: seq<string>)
    requires forall i :: 0 <= i < |lines| ==> lines[i] != []
    ensures NonEmpty(lines) == lines
  {
    if lines != [] {
      NonEmptyAll(lines[..|lines| - 1]);
    }
  }

  /** So max_events does not cap lines: within the byte cap all of them are collected, however many. */
  lemma {:induction false} LinesExceedMaxEvents(parse: Parser, lines: seq<string>, maxBytes: int, maxEvents: int)
    requires maxEvents >= 1 && Size(lines) <= maxBytes
    requires forall i :: 0 <= i < |lines| ==> lines[i] != []
    ensures Cut(parse, Limits(Lines, maxBytes, maxEvents), lines, |lines|) && NonEmpty(lines[..|lines|]) == lines
  {
    var lim := Limits(Lines, maxBytes, maxEvents);
    forall i | 0 <= i < |lines| ensures !Stops(parse, lim, lines, i) {
      SizeGrows(lines, i + 1);
    }
    assert lines[..|lines|] == lines;
    NonEmptyAll(lines);
  }

  lemma {:induction false} NonEmptyFits(lines: seq<string>)
    ensures |NonEmpty(lines)| <= Size(lines)
  {
    if lines != [] {
      NonEmptyFits(lines[..|lines| - 1]);
    }
  }

  function Dots(n: nat): (lines: seq<string>)
    ensures |lines| == n && forall i :: 0 <= i < n ==> lines[i] == "."
  {
    if n == 0 then [] else Dots(n - 1) + ["."]
  }

  lemma {:induction false} DotsSize(n: nat)
    ensures Size(Dots(n)) == n
  {
    if n > 0 {
      DotsSize(n - 1);
      assert Dots(n)[..n - 1] == Dots(n - 1);
    }
  }

  /** The collected lines of every stream stay within max_events. */
  ghost predicate LinesCapped(parse: Parser, maxBytes: int, maxEvents: int)
  {
    forall lines, n: nat :: Cut(parse, Limits(Lines, maxBytes, maxEvents), lines, n) ==>
        |NonEmpty(lines[..n])| <= maxEvents
  }

  /** In lines mode max_events is kept exactly when the byte cap alone enforces it. */
  lemma {:induction false} LinesCappedIff(parse: Parser, maxBytes: int, maxEvents: int)
    requires maxEvents >= 1
    ensures LinesCapped(parse, maxBytes, maxEvents) <==> maxBytes <= maxEvents
  {
    var lim := Limits(Lines, maxBytes, maxEvents);
    if maxBytes <= maxEvents {
      forall lines, n: nat | Cut(parse, lim, lines, n) ensures |NonEmpty(lines[..n])| <= maxEvents {
        NonEmptyFits(lines[..n]);
        if n > 0 {
          assert !Stops(parse, lim, lines, n - 1);
        }
      }
    } else {
      var lines := Dots(maxEvents + 1);
      DotsSize(maxEvents + 1);
      LinesExceedMaxEvents(parse, lines, maxBytes, maxEvents);
      assert Cut(parse, lim, lines, |lines|) && |NonEmpty(lines[..|lines|])| > maxEvents;
    }
  }

  // ---- The assembled text -----------------------------------------------------------------------

  function ChoiceText(c: Choice): string
  {
    match c
    case NotAnObject => ""
    case Choice(delta, text) => if delta != "" then delta else text
  }

  function ChoicesText(cs: seq<Choice>): string
  {
    if cs == [] then "" else ChoicesText(cs[..|cs| - 1]) + ChoiceText(cs[|cs| - 1])
  }

  function EventText(e: Event): string
  {
    match e
    case Raw(_) => ""
    case BlockDelta(t) => t
    case Completion(cs) => ChoicesText(cs)
  }

  function Text(events: seq<Event>): string
  {
    if events == [] then "" else Text(events[..|events| - 1]) + EventText(events[|events| - 1])
  }

  /** The loop of the text assembly, which skips empty pieces. */
  method AggregateText(events: seq<Event>) returns (text: string)
    ensures text == Text(events)
  {
    text := "";
    for i := 0 to |events|
      invariant text == Text(events[..i])
    {
      assert events[..i + 1][..i] == events[..i];
      match events[i] {
        case Raw(_) =>
        case BlockDelta(t) =>
          text := text + t;
        case Completion(choices) =>
          var pieces := AggregateChoices(choices);
          text := text + pieces;
      }
    }
    assert events[..|events|] == events;
  }

  method AggregateChoices(choices: seq<Choice>) returns (text: string)
    ensures text == ChoicesText(choices)
  {
    text := "";
    for j := 0 to |choices|
      invariant text == ChoicesText(choices[..j])
    {
      assert choices[..j + 1][..j] == choices[..j];
      match choices[j] {
        case NotAnObject =>
        case Choice(delta, t) =>
          if delta != "" {
            text := text + delta;
          } else if t != "" {
            text := text + t;
          }
      }
    }
    assert choices[..|choices|] == choices;
  }

  /** What one event, and one choice of it, adds to the text: a delta before a text. */
  lemma {:induction false} TextOfOne(delta: string, text: string, data: string, a: seq<Choice>, b: seq<Choice>)
    ensures Text([Raw(data)]) == "" && Text([BlockDelta(text)]) == text
    ensures Text([Completion([Choice(delta, text)])]) == if |delta| > 0 then delta else text
    ensures Text([Completion([NotAnObject])]) == "" && Text([Completion([])]) == ""
    ensures Text([Completion(a + b)]) == Text([Completion(a)]) + Text([Completion(b)])
  {
    TextOne(Raw(data));
    TextOne(BlockDelta(text));
    TextOne(Completion([Choice(delta, text)]));
    TextOne(Completion([NotAnObject]));
    TextOne(Completion([]));
    TextOne(Completion(a));
    TextOne(Completion(b));
    TextOne(Completion(a + b));
    ChoicesSnoc([], Choice(delta, text));
    ChoicesSnoc([], NotAnObject);
    ChoicesConcat(a, b);
  }

  lemma {:induction false} TextOne(e: Event)
    ensures Text([e]) == EventText(e)
  {
    TextSnoc([], e);
    assert [] + [e] == [e] && "" + EventText(e) == EventText(e);
  }

  lemma {:induction false} ChoicesSnoc(cs: seq<Choice>, c: Choice)
    ensures ChoicesText(cs + [c]) == ChoicesText(cs) + ChoiceText(c)
    ensures cs == [] ==> ChoicesText([c]) == ChoiceText(c)
  {
    assert (cs + [c])[..|cs|] == cs;
    assert cs == [] ==> cs + [c] == [c] && "" + ChoiceText(c) == ChoiceText(c);
  }

  lemma {:induction false} ChoicesConcatStep(a: seq<Choice>, b: seq<Choice>, k: nat)
    requires k < |b| && ChoicesText(a + b[..k]) == ChoicesText(a) + ChoicesText(b[..k])
    ensures ChoicesText(a + b[..k + 1]) == ChoicesText(a) + ChoicesText(b[..k + 1])
  {
    assert b[..k + 1] == b[..k] + [b[k]] && a + b[..k + 1] == (a + b[..k]) + [b[k]];
    ChoicesSnoc(a + b[..k], b[k]);
    ChoicesSnoc(b[..k], b[k]);
    Associative(ChoicesText(a), ChoicesText(b[..k]), ChoiceText(b[k]));
  }

  lemma {:induction false} ChoicesConcat(a: seq<Choice>, b: seq<Choice>)
    ensures ChoicesText(a + b) == ChoicesText(a) + ChoicesText(b)
  {
    var k := 0;
    assert a + b[..0] == a && ChoicesText(b[..0]) == "";
    while k < |b|
      invariant k <= |b| && ChoicesText(a + b[..k]) == ChoicesText(a) + ChoicesText(b[..k])
    {
      ChoicesConcatStep(a, b, k);
      k := k + 1;
    }
    assert b[..k] == b;
  }

  /** The text of a concatenation is the concatenation of the texts. */
  lemma {:induction false} TextConcat(a: seq<Event>, b: seq<Event>)
    ensures Text(a + b) == Text(a) + Text(b)
  {
    if b == [] {
      assert a + b == a;
    } else {
      var init, last := b[..|b| - 1], b[|b| - 1];
      TextConcat(a, init);
      assert b == init + [last] && a + b == (a + init) + [last];
      TextSnoc(a + init, last);
      TextSnoc(init, last);
      Associative(Text(a), Text(init), EventText(last));
    }
  }

  lemma {:induction false} TextSnoc(es: seq<Event>, e: Event)
    ensures Text(es + [e]) == Text(es) + EventText(e)
  {
    assert (es + [e])[..|es|] == es;
  }
}
