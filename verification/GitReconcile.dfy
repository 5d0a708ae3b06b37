/** Looking a commit up in the log before an ambiguous commit may be retried. */
module GitReconcile {
  import opened Seqs
  import opened PyText
  import opened GitLog

  // The outcome of invoking the log capability.
  datatype LogRead = ReadFailed | Listed(commits: seq<Entry>)

  datatype Verdict = Unknown | NotFound(head: Option<string>) | Succeeded(sha7: string, message: string)

  // Where str.splitlines() breaks.
  predicate LineBreak(c: char)
  {
    var n := c as int;
    0x0a <= n <= 0x0d || 0x1c <= n <= 0x1e || n == 0x85 || n == 0x2028 || n == 0x2029
  }

  /** The line breaks are among the blanks: newlines and form feeds, three separators, and three from Unicode. */
  lemma {:induction false} LineBreaksAre(c: char)
    ensures LineBreak(c) <==>
            c in {'\n', '\U{0b}', '\U{0c}', '\r', '\U{1c}', '\U{1d}', '\U{1e}', '\U{85}', '\U{2028}', '\U{2029}'}
    ensures LineBreak(c) ==> IsSpace(c)
  {
    var n := c as int;
    assert n == 0x0a ==> c == '\n';
    assert n == 0x0b ==> c == '\U{0b}';
    assert n == 0x0c ==> c == '\U{0c}';
    assert n == 0x0d ==> c == '\r';
  }

  function FirstLine(s: string): string
  {
    if s == "" || LineBreak(s[0]) then "" else [s[0]] + FirstLine(s[1..])
  }

  function BodyOf(c: Entry): string
  {
    Strip(if c.body.Some? then c.body.value else "")
  }

  function FullMessage(c: Entry): string
  {
    Strip(Strip(c.subject) + if BodyOf(c) != "" then "\n\n" + BodyOf(c) else "")
  }

  predicate Matches(expected: string, c: Entry)
  {
    var subject := Strip(c.subject);
    && expected != ""
    && (expected == subject || expected == FullMessage(c)
        || (subject != "" && subject == Take(FirstLine(expected), 80)))
  }

  /** The commit is the head the search was told to stop at. */
  predicate AtHead(sinceHead: string, c: Entry)
  {
    sinceHead != "" && c.sha7 != "" && c.sha7 <= sinceHead
  }

  /** The newest match above `sinceHead`. */
  function Search(expected: string, sinceHead: string, commits: seq<Entry>): (r: Option<nat>)
    ensures r.Some? ==> r.value < |commits|
  {
    if commits == [] || AtHead(sinceHead, commits[0]) then None
    else if Matches(expected, commits[0]) then Some(0)
    else Shifted(Search(expected, sinceHead, commits[1..]), 1)
  }

  /** The text begins with these characters, of which there is at least one. */
  ghost predicate Begins(text: string, start: string)
  {
    0 < |start| <= |text| && text[..|start|] == start
  }

  /** A position in the rest of a list, as a position in the list. */
  function Shifted(r: Option<nat>, i: nat): Option<nat>
  {
    if r.None? then None else Some(r.value + i)
  }

  /**
   * The first match comes before any commit at the head, one whose hash is how `sinceHead`
   * begins; without one, nothing above the head matches.
   */
  lemma {:induction false} SearchMeaning(expected: string, sinceHead: string, commits: seq<Entry>, r: Option<nat>)
    requires r == Search(expected, sinceHead, commits)
    ensures r.Some? ==>
              && r.value < |commits| && Matches(expected, commits[r.value])
              && (forall i :: 0 <= i < r.value ==> !Matches(expected, commits[i]))
              && (forall i :: 0 <= i <= r.value ==> !Begins(sinceHead, commits[i].sha7))
    ensures r.None? ==>
              forall i :: 0 <= i < |commits| && (forall k :: 0 <= k <= i ==> !Begins(sinceHead, commits[k].sha7)) ==>
                !Matches(expected, commits[i])
  {
    if commits != [] && !AtHead(sinceHead, commits[0]) && !Matches(expected, commits[0]) {
      SearchMeaning(expected, sinceHead, commits[1..], Search(expected, sinceHead, commits[1..]));
      assert forall i :: 0 < i < |commits| ==> commits[i] == commits[1..][i - 1];
    }
  }

  function Expected(message: string, expectedMessage: string): string
  {
    Strip(if expectedMessage != "" then expectedMessage else message)
  }

  method IsMatch(expected: string, c: Entry) returns (hit: bool)
    ensures hit == Matches(expected, c)
  {
    var subject := Strip(c.subject);
    var body := Strip(if c.body.Some? then c.body.value else "");
    var full := Strip(subject + if body != "" then "\n\n" + body else "");
    hit := expected != ""
        && (expected == subject || expected == full || (subject != "" && subject == Take(FirstLine(expected), 80)));
  }

  /** How far the loop has come: what is still to be found lies in the rest of the list. */
  ghost predicate StillIn(expected: string, sinceHead: string, commits: seq<Entry>, i: nat)
    requires i <= |commits|
  {
    Search(expected, sinceHead, commits) == Shifted(Search(expected, sinceHead, commits[i..]), i)
  }

  lemma {:induction false} StillInNext(expected: string, sinceHead: string, commits: seq<Entry>, i: nat)
    requires i < |commits| && StillIn(expected, sinceHead, commits, i)
    ensures AtHead(sinceHead, commits[i]) ==> Search(expected, sinceHead, commits) == None
    ensures !AtHead(sinceHead, commits[i]) && Matches(expected, commits[i]) ==>
              Search(expected, sinceHead, commits) == Some(i)
    ensures !AtHead(sinceHead, commits[i]) && !Matches(expected, commits[i]) ==>
              StillIn(expected, sinceHead, commits, i + 1)
  {
    SearchFrom(expected, sinceHead, commits, i);
  }

  lemma {:induction false} SearchFrom(expected: string, sinceHead: string, commits: seq<Entry>, i: nat)
    requires i < |commits|
    ensures Search(expected, sinceHead, commits[i..]) ==
            if AtHead(sinceHead, commits[i]) then None
            else if Matches(expected, commits[i]) then Some(0)
            else Shifted(Search(expected, sinceHead, commits[i + 1..]), 1)
  {
    assert commits[i..][1..] == commits[i + 1..];
  }

  method FindCommit(expected: string, sinceHead: string, commits: seq<Entry>) returns (found: Option<nat>)
    ensures found == Search(expected, sinceHead, commits)
  {
    var i := 0;
    assert commits[0..] == commits;
    while i < |commits|
      invariant i <= |commits|
      invariant StillIn(expected, sinceHead, commits, i)
    {
      StillInNext(expected, sinceHead, commits, i);
      var c := commits[i];
      if sinceHead != "" && c.sha7 != "" && c.sha7 <= sinceHead {
        return None;
      }
      var hit := IsMatch(expected, c);
      if hit {
        return Some(i);
      }
      i := i + 1;
    }
    return None;
  }

  /** The commit at `k` matches, none before it does, and neither it nor one before it is at the head. */
  ghost predicate FirstMatch(expected: string, sinceHead: string, commits: seq<Entry>, k: nat)
    requires k < |commits|
  {
    && Matches(expected, commits[k]) && (forall i :: 0 <= i < k ==> !Matches(expected, commits[i]))
    && forall i :: 0 <= i <= k ==> !Begins(sinceHead, commits[i].sha7)
  }

  ghost predicate ShowsFirstMatch(expected: string, sinceHead: string, commits: seq<Entry>, sha7: string,
                                  subject: string)
  {
    exists k :: 0 <= k < |commits| && FirstMatch(expected, sinceHead, commits, k)
                && sha7 == commits[k].sha7 && subject == Strip(commits[k].subject)
  }

  method CommitReconcile(message: string, expectedMessage: string, sinceHead: string, read: LogRead)
    returns (verdict: Verdict)
    ensures verdict.Unknown? <==> read.ReadFailed?
    ensures read.Listed? ==>
              var found := Search(Expected(message, expectedMessage), sinceHead, read.commits);
              if found.Some? then
                verdict == Succeeded(read.commits[found.value].sha7, Strip(read.commits[found.value].subject))
              else
                verdict == NotFound(if read.commits == [] then None else Some(read.commits[0].sha7))
    ensures var expected := Strip(if |expectedMessage| > 0 then expectedMessage else message);
            read.Listed? ==>
              if verdict.Succeeded? then
                ShowsFirstMatch(expected, sinceHead, read.commits, verdict.sha7, verdict.message)
              else
                forall k :: 0 <= k < |read.commits| ==> !FirstMatch(expected, sinceHead, read.commits, k)
  {
    if read.ReadFailed? {
      return Unknown;
    }
    verdict := NotFound(if read.commits == [] then None else Some(read.commits[0].sha7));
    var found := FindCommit(Expected(message, expectedMessage), sinceHead, read.commits);
    SearchMeaning(Expected(message, expectedMessage), sinceHead, read.commits, found);
    if found.Some? {
      var c := read.commits[found.value];
      verdict := Succeeded(c.sha7, Strip(c.subject));
    }
  }

  /** The text of an entry as it is listed, with or without its body, matches it. */
  lemma {:induction false} ListedTextMatches(e: Entry)
    requires Strip(e.subject) != ""
    ensures Matches(Strip(e.subject), e)
    ensures e.body.Some? && Strip(e.body.value) != "" ==>
              Matches(Strip(e.subject) + "\n\n" + Strip(e.body.value), e)
  {
    StripEnds(e.subject);
    if e.body.Some? && Strip(e.body.value) != "" {
      StripEnds(e.body.value);
      var s, b := Strip(e.subject), Strip(e.body.value);
      assert s + "\n\n" + b == s + ("\n\n" + b);
      StripTight(s + ("\n\n" + b));
    }
  }

  // ---- Commit, log and reconcile agree ------------------------------------------------------

  /** A commit title: one line, not blank at either end. */
  ghost predicate Title(t: string)
  {
    && t != "" && !IsSpace(t[0]) && !IsSpace(t[|t| - 1])
    && (forall i :: 0 <= i < |t| ==> !LineBreak(t[i]))
  }

  /** Do the first 80 characters, all that the search compares of a first line, end in a blank? */
  predicate CutAtBlank(first: string)
  {
    first != "" && IsSpace(Take(first, 80)[|Take(first, 80)| - 1])
  }

  ghost predicate Blank(s: string)
  {
    forall k :: 0 <= k < |s| ==> IsSpace(s[k])
  }

  /**
   * What git makes of a message: the subject is the first line `t` without the blanks at its
   * end, or goes on from it when the first paragraph has more lines, which git folds into one.
   */
  ghost predicate MadeFrom(subject: string, t: string, message: string)
  {
    var expected, first := Strip(message), FirstLine(Strip(message));
    && Title(subject) && Title(t) && t <= subject && t <= first && Blank(first[|t|..])
    && (t == subject || |first| < |expected|)
  }

  /** The 80 characters that the log keeps show nothing but blanks after the first line. */
  ghost predicate RestHidden(subject: string, t: string)
  {
    forall k :: |t| <= k < |subject| && k < 80 ==> IsSpace(subject[k])
  }

  lemma {:induction false} NewlinesOfTitle(t: string)
    requires forall i :: 0 <= i < |t| ==> !LineBreak(t[i])
    ensures Newlines(t) == t
  {
    if t != "" {
      assert !LineBreak(t[0]);
      NewlinesOfTitle(t[1..]);
    }
  }

  /** A text that is blank at neither end is left alone. */
  lemma {:induction false} StripTight(s: string)
    requires s != "" && !IsSpace(s[0]) && !IsSpace(s[|s| - 1])
    ensures Strip(s) == s
  {
    StripNonBlank(s);
  }

  lemma {:induction false} TrimRightPrefix(s: string)
    ensures TrimRight(s, IsSpace) <= s
    ensures s != "" && IsSpace(s[|s| - 1]) ==> |TrimRight(s, IsSpace)| < |s|
  {
    if s != "" && IsSpace(s[|s| - 1]) {
      TrimRightPrefix(s[..|s| - 1]);
    }
  }

  lemma {:induction false} FirstLinePrefix(s: string)
    ensures FirstLine(s) <= s
  {
    if s != "" && !LineBreak(s[0]) {
      FirstLinePrefix(s[1..]);
      assert s == [s[0]] + s[1..];
    }
  }

  /**
   * The log entry of a commit matches the message it was made from exactly when the first
   * 80 characters of the message's first line do not end in a blank, where the log and the
   * search disagree, and the log's cut of the subject shows nothing of further lines.
   */
  lemma {:induction false} OwnEntryMatches(c: Commit, message: string, t: string)
    requires MadeFrom(c.subject, t, message)
    ensures Matches(Strip(message), Shown(c, true)) <==>
            !CutAtBlank(FirstLine(Strip(message))) && RestHidden(c.subject, t)
  {
    var subject, expected, e := c.subject, Strip(message), Shown(c, true);
    NewlinesOfTitle(subject);
    assert e.subject == Take(subject, 80);
    if RestHidden(subject, t) {
      HiddenRest(subject, t);
      FirstLineSeen(t, expected, e);
    } else {
      var k :| |t| <= k < |subject| && k < 80 && !IsSpace(subject[k]);
      RestSeen(subject, t, expected, e, k);
    }
  }

  lemma {:induction false} HiddenRest(subject: string, t: string)
    requires t <= subject && RestHidden(subject, t)
    ensures Strip(Take(subject, 80)) == Strip(Take(t, 80))
  {
    if |t| >= 80 {
      assert Take(subject, 80) == Take(t, 80);
    } else {
      var shown := Take(subject, 80);
      assert shown == t + shown[|t|..];
      StripBlankTail(t, shown[|t|..]);
    }
  }

  lemma {:induction false} StripBlankTail(s: string, tail: string)
    requires Blank(tail)
    ensures Strip(s + tail) == Strip(s)
  {
    if tail == "" {
      assert s + tail == s;
    } else {
      var init := tail[..|tail| - 1];
      assert s + tail == s + init + [tail[|tail| - 1]];
      StripSnoc(s + init, tail[|tail| - 1]);
      StripBlankTail(s, init);
    }
  }

  /** An entry whose subject is the cut of the first line, blanks aside. */
  lemma {:induction false} FirstLineSeen(t: string, expected: string, e: Entry)
    requires Title(t) && t <= FirstLine(expected) && Blank(FirstLine(expected)[|t|..])
    requires Strip(e.subject) == Strip(Take(t, 80))
    ensures Matches(expected, e) <==> !CutAtBlank(FirstLine(expected))
  {
    var first, s := FirstLine(expected), Strip(Take(t, 80));
    FirstLinePrefix(expected);
    StripNonBlank(Take(t, 80));
    TrimRightPrefix(Take(t, 80));
    StripEnds(Take(t, 80));
    if CutAtBlank(first) {
      CutIsLonger(t, first);
      ShorterDiffers(first, expected, e, s);
    } else {
      CutIsTight(t, first);
    }
  }

  lemma {:induction false} CutIsLonger(t: string, first: string)
    requires Title(t) && t <= first && CutAtBlank(first)
    ensures |Strip(Take(t, 80))| < |Take(first, 80)|
  {
    StripNonBlank(Take(t, 80));
    TrimRightPrefix(Take(t, 80));
    if |t| >= 80 {
      assert Take(t, 80) == Take(first, 80);
    }
  }

  lemma {:induction false} BlankCut(t: string, first: string)
    requires t <= first && |t| < 80 && Blank(first[|t|..])
    ensures t < first ==> CutAtBlank(first)
  {
    if t < first {
      var n := |Take(first, 80)| - 1;
      assert first[n] == first[|t|..][n - |t|];
    }
  }

  lemma {:induction false} CutIsTight(t: string, first: string)
    requires Title(t) && t <= first && Blank(first[|t|..]) && !CutAtBlank(first)
    ensures Strip(Take(t, 80)) == Take(first, 80)
  {
    if |t| >= 80 {
      assert Take(t, 80) == Take(first, 80);
    } else {
      BlankCut(t, first);
    }
    StripTight(Take(t, 80));
  }

  lemma {:induction false} ShorterDiffers(first: string, expected: string, e: Entry, s: string)
    requires first == FirstLine(expected) <= expected && s == Strip(e.subject) && s <= first
    requires |s| < |Take(first, 80)| && s != "" && !IsSpace(s[0]) && !IsSpace(s[|s| - 1])
    ensures !Matches(expected, e)
  {
    FullAfterSubject(e, s);
    FirstLineClean(expected);
    assert expected[|s|] == first[|s|];
  }

  lemma {:induction false} FirstLineClean(s: string)
    ensures forall i :: 0 <= i < |FirstLine(s)| ==> !LineBreak(FirstLine(s)[i])
    ensures |FirstLine(s)| < |s| ==> LineBreak(s[|FirstLine(s)|])
  {
    if s != "" && !LineBreak(s[0]) {
      FirstLineClean(s[1..]);
    }
  }

  /** An entry whose subject shows part of a later line: the message breaks the line before that. */
  lemma {:induction false} RestSeen(subject: string, t: string, expected: string, e: Entry, k: nat)
    requires Title(subject) && t <= FirstLine(expected) && Blank(FirstLine(expected)[|t|..])
    requires |FirstLine(expected)| < |expected|
    requires |t| <= k < |subject| && k < 80 && !IsSpace(subject[k]) && e.subject == Take(subject, 80)
    ensures !Matches(expected, e)
  {
    var s, first := Strip(e.subject), FirstLine(expected);
    StripReaches(e.subject, k);
    FirstLinePrefix(expected);
    FirstLineClean(expected);
    StripEnds(e.subject);
    FullKeepsSubject(e, s);
    assert k < |first| ==> IsSpace(first[k]) by {
      assert k < |first| ==> first[k] == first[|t|..][k - |t|];
    }
    assert forall i :: 0 <= i < |s| ==> s[i] == subject[i];
    NoPrefix(s, expected, first, k);
    assert Take(first, 80) <= expected;
  }

  lemma {:induction false} NoPrefix(s: string, expected: string, first: string, k: nat)
    requires first <= expected && |first| < |expected| && LineBreak(expected[|first|])
    requires k < |s| && !IsSpace(s[k]) && (k < |first| ==> IsSpace(first[k]))
    requires forall i :: 0 <= i < |s| ==> !LineBreak(s[i])
    ensures !(s <= expected)
  {
    if |s| <= |expected| {
      var i := if k < |first| then k else |first|;
      assert s[i] != expected[i];
    }
  }

  /** Stripping keeps all up to a character that is not blank. */
  lemma {:induction false} StripReaches(s: string, k: nat)
    requires k < |s| && !IsSpace(s[0]) && !IsSpace(s[k])
    ensures Strip(s) <= s && |Strip(s)| > k
  {
    assert s == s[..k] + [s[k]] + s[k + 1..];
    StripNonBlank(s);
    TrimRightStops(s[..k], s[k], s[k + 1..], IsSpace);
    TrimRightPrefix(s);
  }

  /** The full message is the stripped subject, or goes on with a line break after it. */
  lemma {:induction false} FullAfterSubject(e: Entry, s: string)
    requires s == Strip(e.subject) && s != "" && !IsSpace(s[0])
    requires !IsSpace(s[|s| - 1])
    ensures FullMessage(e) == s || (|FullMessage(e)| > |s| && FullMessage(e)[|s|] == '\n')
  {
    var b := BodyOf(e);
    if b == "" {
      assert s + "" == s;
      StripTight(s);
    } else {
      StripEnds(if e.body.Some? then e.body.value else "");
      StripTight(s + ("\n\n" + b));
    }
  }

  lemma {:induction false} StripEnds(s: string)
    ensures Strip(s) != "" ==> !IsSpace(Strip(s)[0]) && !IsSpace(Strip(s)[|Strip(s)| - 1])
  {
    TrimLeftEnds(s);
    TrimRightEnds(TrimLeft(s, IsSpace));
    TrimRightPrefix(TrimLeft(s, IsSpace));
  }

  lemma {:induction false} TrimLeftEnds(s: string)
    ensures TrimLeft(s, IsSpace) != "" ==> !IsSpace(TrimLeft(s, IsSpace)[0])
  {
    if s != "" && IsSpace(s[0]) {
      TrimLeftEnds(s[1..]);
    }
  }

  lemma {:induction false} TrimRightEnds(s: string)
    ensures TrimRight(s, IsSpace) != "" ==> !IsSpace(TrimRight(s, IsSpace)[|TrimRight(s, IsSpace)| - 1])
  {
    if s != "" && IsSpace(s[|s| - 1]) {
      TrimRightEnds(s[..|s| - 1]);
    }
  }

  // ---- The whole chain -----------------------------------------------------------------------

  /** What the log capability returns for a history, newest commit first. */
  function LogOf(history: seq<Commit>, limit: nat): seq<Entry>
  {
    ParseAll(Split(RunOutput(Print(Newest(history, limit), true)), REC), true)
  }

  function Newest(history: seq<Commit>, limit: nat): seq<Commit>
  {
    if |history| <= limit then history else history[..limit]
  }

  lemma {:induction false} LogIs(history: seq<Commit>, limit: nat)
    requires forall c :: c in history ==> Printable(c, true)
    ensures |LogOf(history, limit)| == |Newest(history, limit)|
    ensures forall i :: 0 <= i < |Newest(history, limit)| ==> LogOf(history, limit)[i] == Shown(history[i], true)
  {
    assert forall c :: c in Newest(history, limit) ==> c in history;
    LogRoundTrip(Newest(history, limit), true);
  }

  /**
   * A commit among the newest `limit` and above `sinceHead` is found by its own message after
   * any number of later commits, if its entry matches that message.
   */
  lemma {:induction false} CommitIsFound(history: seq<Commit>, limit: nat, j: nat, message: string, t: string,
                                         sinceHead: string)
    requires forall c :: c in history ==> Printable(c, true)
    requires j < |history| && j < limit && MadeFrom(history[j].subject, t, message)
    requires !CutAtBlank(FirstLine(Strip(message))) && RestHidden(history[j].subject, t)
    requires forall i :: 0 <= i <= j ==> !AtHead(sinceHead, Shown(history[i], true))
    ensures var commits := LogOf(history, limit);
            var found := Search(Expected(message, ""), sinceHead, commits);
            && found.Some? && found.value <= j
            && j < |commits| && Matches(Strip(message), commits[j]) && commits[j].sha7 == Newlines(history[j].hash)
  {
    LogIs(history, limit);
    var commits := LogOf(history, limit);
    assert commits[j] == Shown(history[j], true);
    OwnEntryMatches(history[j], message, t);
    assert Expected(message, "") == Strip(message);
    FoundAmong(commits, Strip(message), sinceHead, j);
  }

  lemma {:induction false} FoundAmong(commits: seq<Entry>, expected: string, sinceHead: string, j: nat)
    requires j < |commits| && Matches(expected, commits[j])
    requires forall i :: 0 <= i <= j ==> !AtHead(sinceHead, commits[i])
    ensures Search(expected, sinceHead, commits).Some? && Search(expected, sinceHead, commits).value <= j
  {
    SearchMeaning(expected, sinceHead, commits, Search(expected, sinceHead, commits));
  }

  /**
   * The failing case in full: wherever it stands in whatever history, any other commit is not
   * what its own message finds, and when nothing else matches the verdict is that it is not there.
   */
  lemma {:induction false} CommitIsMissed(history: seq<Commit>, limit: nat, j: nat, message: string, t: string,
                                          sinceHead: string)
    requires forall c :: c in history ==> Printable(c, true)
    requires j < |history| && j < limit && MadeFrom(history[j].subject, t, message)
    requires CutAtBlank(FirstLine(Strip(message))) || !RestHidden(history[j].subject, t)
    ensures var commits := LogOf(history, limit);
            var found := Search(Expected(message, ""), sinceHead, commits);
            && found != Some(j)
            && ((forall i :: 0 <= i < |commits| && i != j ==> !Matches(Strip(message), commits[i])) ==> found == None)
  {
    LogIs(history, limit);
    var commits := LogOf(history, limit);
    assert commits[j] == Shown(history[j], true);
    OwnEntryMatches(history[j], message, t);
    assert Expected(message, "") == Strip(message);
    SearchMeaning(Strip(message), sinceHead, commits, Search(Strip(message), sinceHead, commits));
  }

  /**
   * A subject folded from several lines, the second of which starts without a blank: its entry
   * matches if and only if the first line fills the 80 characters that the log keeps, up to a
   * blank at most, and is not cut at a blank.
   */
  lemma {:induction false} FoldedEntryMatches(c: Commit, message: string, t: string, rest: string)
    requires MadeFrom(c.subject, t, message) && c.subject == t + " " + rest && rest != "" && !IsSpace(rest[0])
    ensures Matches(Strip(message), Shown(c, true)) <==> |t| >= 79 && !CutAtBlank(FirstLine(Strip(message)))
  {
    OwnEntryMatches(c, message, t);
    FoldedRest(t, rest);
  }

  lemma {:induction false} FoldedRest(t: string, rest: string)
    requires rest != "" && !IsSpace(rest[0])
    ensures RestHidden(t + " " + rest, t) <==> |t| >= 79
  {
    var subject := t + " " + rest;
    assert subject[|t|] == ' ' && subject[|t| + 1] == rest[0];
  }

  lemma {:induction false} FullKeepsSubject(e: Entry, s: string)
    requires s == Strip(e.subject) && s != "" && !IsSpace(s[0]) && !IsSpace(s[|s| - 1])
    ensures s <= FullMessage(e)
  {
    var b := BodyOf(e);
    if b == "" {
      assert s + "" == s;
      StripTight(s);
    } else {
      StripEnds(if e.body.Some? then e.body.value else "");
      StripTight(s + ("\n\n" + b));
    }
  }

  /** Such a title exists: 79 letters, a blank, one more letter. */
  lemma {:induction false} CutAtBlankExists(letters: string)
    requires |letters| == 79 && forall i :: 0 <= i < |letters| ==> !IsSpace(letters[i])
    ensures var t := letters + " x"; Title(t) && CutAtBlank(t)
  {
    var t := letters + " x";
    forall i | 0 <= i < |t| ensures !LineBreak(t[i]) {
      if i < 79 {
        assert t[i] == letters[i] && !IsSpace(letters[i]);
      }
    }
    assert t[0] == letters[0];
  }
}
