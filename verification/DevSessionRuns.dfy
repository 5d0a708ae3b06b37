/** Every interleaving of open, close and reap at their awaits, on a clock that runs on. */
module DevSessionRuns {
  import opened Seqs
  import opened DevSessions

  // Where one invocation stands between two awaits.  `readAt` is a place in the history.
  datatype Thread =
    | Opening(repo: string, issues: seq<Issue>, takeover: bool)   // issues validated, baseline taken
    | Closing(key: Key)                                           // file read, unlink is next
    | Reaping(todo: seq<Key>)                                     // between two session files
    | Asking(todo: seq<Key>, repo: string, issues: seq<Issue>, answers: seq<bool>, readAt: nat)
    | Judged(todo: seq<Key>, repo: string, issues: seq<Issue>, readAt: nat)    // all closed, close not yet begun
    | Unlinking(todo: seq<Key>, key: Key, issues: seq<Issue>, readAt: nat)     // the nested close has read the file
    | Done

  // What has happened so far, oldest first.
  datatype Event =
    | Read(thread: nat, key: Key, issues: seq<Issue>)     // a reap read a session it is going to judge
    | Answered(thread: nat, issue: Issue, closed: bool)   // a reap was told whether the issue is closed
    | Condemned(key: Key)                                 // a reap decided to close this session
    | Wrote(key: Key, issues: seq<Issue>)                 // an open was accepted

  datatype State = State(files: Files, now: int, threads: seq<Thread>, history: seq<Event>)

  datatype Action =
    | Open(repo: string, issues: seq<Issue>, takeover: bool)
    | Close(repo: string)
    | Reap(listed: seq<Key>)
    | Step(thread: nat, closed: bool)   // run on to the next await; `closed` answers an issue query
    | Fail(thread: nat)                 // an awaited call raises
    | Tick(seconds: nat)

  function Start(files: Files, now: int): State
  {
    State(files, now, [], [])
  }

  datatype Effect = Effect(files: Files, thread: Thread, event: Option<Event>)

  function OpenEffect(hash: string -> string, s: State, repo: string, issues: seq<Issue>, takeover: bool): Effect
  {
    var k := SessionFile(hash, repo);
    Effect(Opened(hash, s.files, repo, issues, takeover, s.now), Done,
           if !takeover && Conflict(s.files, k, issues, s.now) then None else Some(Wrote(k, issues)))
  }

  /** Reap reads the next file and goes on to ask, or passes over it. */
  function ReadEffect(s: State, i: nat, todo: seq<Key>): Effect
    requires todo != []
  {
    var k, rest := todo[0], todo[1..];
    if Closable(s.files, k) then
      Effect(s.files, Asking(rest, s.files[k].repo, s.files[k].issues, [], |s.history|),
          Some(Read(i, k, s.files[k].issues)))
    else Effect(s.files, Reaping(rest), None)
  }

  function AskEffect(hash: string -> string, s: State, i: nat, t: Thread, closed: bool): Effect
    requires t.Asking?
  {
    if |t.answers| < |t.issues| then
      Effect(s.files, t.(answers := t.answers + [closed]), Some(Answered(i, t.issues[|t.answers|], closed)))
    else if false in t.answers then Effect(s.files, Reaping(t.todo), None)
    else Effect(s.files, Judged(t.todo, t.repo, t.issues, t.readAt), Some(Condemned(SessionFile(hash, t.repo))))
  }

  function StepThread(hash: string -> string, s: State, i: nat, closed: bool): Effect
    requires i < |s.threads|
  {
    match s.threads[i]
    case Opening(repo, issues, takeover) => OpenEffect(hash, s, repo, issues, takeover)
    case Closing(k) => Effect(s.files - {k}, Done, None)
    case Reaping(todo) => if todo == [] then Effect(s.files, Done, None) else ReadEffect(s, i, todo)
    case Asking(_, _, _, _, _) => AskEffect(hash, s, i, s.threads[i], closed)
    case Judged(todo, repo, issues, readAt) =>
      var k := SessionFile(hash, repo);
      Effect(s.files, if Closable(s.files, k) then Unlinking(todo, k, issues, readAt) else Reaping(todo), None)
    case Unlinking(todo, k, _, _) => Effect(s.files - {k}, Reaping(todo), None)
    case Done => Effect(s.files, Done, None)
  }

  function Logged(history: seq<Event>, e: Option<Event>): seq<Event>
  {
    if e.Some? then history + [e.value] else history
  }

  function Next(hash: string -> string, s: State, a: Action): State
  {
    match a
    case Open(repo, issues, takeover) =>
      s.(threads := s.threads + [if issues == [] then Done else Opening(repo, issues, takeover)])
    case Close(repo) =>
      var k := SessionFile(hash, repo);
      s.(threads := s.threads + [if Closable(s.files, k) then Closing(k) else Done])
    case Reap(listed) => s.(threads := s.threads + [Reaping(listed)])
    case Step(i, closed) =>
      if i >= |s.threads| then s
      else
        var e := StepThread(hash, s, i, closed);
        State(e.files, s.now, s.threads[i := e.thread], Logged(s.history, e.event))
    case Fail(i) => if i < |s.threads| then s.(threads := s.threads[i := Done]) else s
    case Tick(n) => s.(now := s.now + n)
  }

  function Run(hash: string -> string, s: State, acts: seq<Action>): State
    decreases |acts|
  {
    if acts == [] then s else Run(hash, Next(hash, s, acts[0]), acts[1..])
  }

  // ---- A session keeps its issues -------------------------------------------------------------

  /** The step unlinks the file of `k`, or takes it over. */
  predicate Disturbs(hash: string -> string, s: State, a: Action, k: Key)
  {
    a.Step? && a.thread < |s.threads| &&
    match s.threads[a.thread]
    case Closing(k') => k' == k
    case Unlinking(_, k', _, _) => k' == k
    case Opening(repo, _, takeover) => takeover && SessionFile(hash, repo) == k
    case _ => false
  }

  /** A readable session for the issue set `issues`. */
  ghost predicate Holds(s: State, k: Key, issues: set<Issue>)
  {
    Closable(s.files, k) && Elements(s.files[k].issues) == issues
  }

  /** No step disturbs `k`, and its session does not expire on the way. */
  ghost predicate Undisturbed(hash: string -> string, s: State, acts: seq<Action>, k: Key)
    decreases |acts|
  {
    acts == [] ||
    (!Disturbs(hash, s, acts[0], k) && (k in s.files && s.files[k].Session? ==> !Expired(s.files[k], s.now)) &&
     Undisturbed(hash, Next(hash, s, acts[0]), acts[1..], k))
  }

  /** Opens in progress carry at least one issue: others are refused at once. */
  ghost predicate OpensNonEmpty(s: State)
  {
    forall t :: 0 <= t < |s.threads| && s.threads[t].Opening? ==> s.threads[t].issues != []
  }

  lemma {:induction false} StepHolds(hash: string -> string, s: State, a: Action, k: Key, issues: set<Issue>)
    requires Holds(s, k, issues) && !Disturbs(hash, s, a, k) && !Expired(s.files[k], s.now)
    requires OpensNonEmpty(s)
    ensures Holds(Next(hash, s, a), k, issues) && OpensNonEmpty(Next(hash, s, a))
  {
  }

  /**
   * Under every interleaving, a key's session keeps its issue set until a close or a reap
   * unlinks it, a takeover overwrites it, or it expires: check and write share one
   * await-free segment, so no open slips in between.
   */
  lemma {:induction false} SessionKeepsIssues(hash: string -> string, s: State, acts: seq<Action>, k: Key,
                                              issues: set<Issue>)
    requires Holds(s, k, issues) && Undisturbed(hash, s, acts, k) && OpensNonEmpty(s)
    ensures Holds(Run(hash, s, acts), k, issues)
    decreases |acts|
  {
    if acts != [] {
      StepHolds(hash, s, acts[0], k, issues);
      SessionKeepsIssues(hash, Next(hash, s, acts[0]), acts[1..], k, issues);
    }
  }

  // ---- What a reap has asked before it unlinks ----------------------------------------------------

  datatype Reply = Reply(issue: Issue, closed: bool)

  /** The answers given to one thread, in order. */
  function Answers(h: seq<Event>, i: nat): seq<Reply>
  {
    if h == [] then []
    else
      var before, last := Answers(h[..|h| - 1], i), h[|h| - 1];
      if last.Answered? && last.thread == i then before + [Reply(last.issue, last.closed)] else before
  }

  function Replies(issues: seq<Issue>, answers: seq<bool>): (r: seq<Reply>)
    requires |answers| <= |issues|
    ensures |r| == |answers| && forall j :: 0 <= j < |r| ==> r[j] == Reply(issues[j], answers[j])
  {
    if answers == [] then []
    else
      var n := |answers| - 1;
      Replies(issues, answers[..n]) + [Reply(issues[n], answers[n])]
  }

  /** The issues of the last accepted open for `k`, if there is one. */
  function LastWritten(h: seq<Event>, k: Key): Option<seq<Issue>>
  {
    if h == [] then None
    else
      var last := h[|h| - 1];
      if last.Wrote? && last.key == k then Some(last.issues) else LastWritten(h[..|h| - 1], k)
  }

  /** What the file of `k` holds, given what a reap read in it and what has happened since. */
  ghost predicate HoldsSince(files: Files, since: seq<Event>, k: Key, read: seq<Issue>)
  {
    k in files ==>
      files[k].Session? && files[k].issues == if LastWritten(since, k).Some? then LastWritten(since, k).value else read
  }

  /** The reap in thread `i` read `issues` under `k`, got `answers` since, and the file changed only by opens. */
  ghost predicate Judging(files: Files, h: seq<Event>, i: nat, k: Key, issues: seq<Issue>, answers: seq<bool>,
                          readAt: nat)
  {
    && k.Keyed? && readAt < |h| && h[readAt] == Read(i, k, issues)
    && |answers| <= |issues| && Answers(h[readAt + 1..], i) == Replies(issues, answers)
    && HoldsSince(files, h[readAt + 1..], k, issues)
  }

  function AllTrue(n: nat): (r: seq<bool>)
    ensures |r| == n && forall j :: 0 <= j < n ==> r[j]
  {
    if n == 0 then [] else AllTrue(n - 1) + [true]
  }

  ghost predicate AllKeyed(todo: seq<Key>)
  {
    forall k :: k in todo ==> k.Keyed?
  }

  ghost predicate ThreadOk(hash: string -> string, files: Files, h: seq<Event>, i: nat, t: Thread)
  {
    match t
    case Reaping(todo) => AllKeyed(todo)
    case Asking(todo, repo, issues, answers, readAt) =>
      AllKeyed(todo) && Judging(files, h, i, SessionFile(hash, repo), issues, answers, readAt)
    case Judged(todo, repo, issues, readAt) =>
      AllKeyed(todo) && Judging(files, h, i, SessionFile(hash, repo), issues, AllTrue(|issues|), readAt)
    case Unlinking(todo, k, issues, readAt) =>
      AllKeyed(todo) && Judging(files, h, i, k, issues, AllTrue(|issues|), readAt)
    case _ => true
  }

  ghost predicate CondemnsKeyed(h: seq<Event>)
  {
    forall j :: 0 <= j < |h| && h[j].Condemned? ==> h[j].key.Keyed?
  }

  ghost predicate Inv(hash: string -> string, s: State)
  {
    && WellKeyed(hash, s.files) && CondemnsKeyed(s.history)
    && forall i :: 0 <= i < |s.threads| ==> ThreadOk(hash, s.files, s.history, i, s.threads[i])
  }

  /** The glob lists only files in the directory of keyed sessions. */
  ghost predicate ListsKeyed(a: Action)
  {
    a.Reap? ==> AllKeyed(a.listed)
  }

  lemma {:induction false} AnswersSnoc(h: seq<Event>, e: Event, i: nat)
    ensures Answers(h + [e], i)
         == if e.Answered? && e.thread == i then Answers(h, i) + [Reply(e.issue, e.closed)] else Answers(h, i)
  {
    assert (h + [e])[..|h|] == h;
  }

  lemma {:induction false} LastWrittenSnoc(h: seq<Event>, e: Event, k: Key)
    ensures LastWritten(h + [e], k) == if e.Wrote? && e.key == k then Some(e.issues) else LastWritten(h, k)
  {
    assert (h + [e])[..|h|] == h;
  }

  /** A step changes the file of `k` only by writing it, which it logs, or by removing it. */
  ghost predicate Tracks(files: Files, files': Files, e: Option<Event>, k: Key)
  {
    if e.Some? && e.value.Wrote? && e.value.key == k then
      k in files' && files'[k].Session? && files'[k].issues == e.value.issues
    else k in files' ==> k in files && files'[k] == files[k]
  }

  lemma {:induction false} StepTracks(hash: string -> string, s: State, i: nat, closed: bool, k: Key)
    requires i < |s.threads|
    ensures var e := StepThread(hash, s, i, closed); Tracks(s.files, e.files, e.event, k)
  {
  }

  /** One more event keeps a judgement going; the answer, if it is one to this thread, is its next. */
  lemma {:induction false} JudgingOn(files: Files, files': Files, h: seq<Event>, e: Option<Event>, i: nat, k: Key,
                                     issues: seq<Issue>, answers: seq<bool>, readAt: nat)
    requires Judging(files, h, i, k, issues, answers, readAt) && Tracks(files, files', e, k)
    requires !(e.Some? && e.value.Answered? && e.value.thread == i)
    ensures Judging(files', Logged(h, e), i, k, issues, answers, readAt)
  {
    if e.Some? {
      var since := h[readAt + 1..];
      assert (h + [e.value])[readAt + 1..] == since + [e.value];
      AnswersSnoc(since, e.value, i);
      LastWrittenSnoc(since, e.value, k);
    }
  }

  lemma {:induction false} JudgingAnswer(files: Files, h: seq<Event>, i: nat, k: Key, issues: seq<Issue>,
                                         answers: seq<bool>, readAt: nat, closed: bool)
    requires Judging(files, h, i, k, issues, answers, readAt) && |answers| < |issues|
    ensures Judging(files, h + [Answered(i, issues[|answers|], closed)], i, k, issues, answers + [closed], readAt)
  {
    var since, e := h[readAt + 1..], Answered(i, issues[|answers|], closed);
    assert (h + [e])[readAt + 1..] == since + [e];
    AnswersSnoc(since, e, i);
    LastWrittenSnoc(since, e, k);
    assert (answers + [closed])[..|answers|] == answers;
  }

  lemma {:induction false} JudgingStarts(files: Files, h: seq<Event>, i: nat, k: Key)
    requires k.Keyed? && Closable(files, k)
    ensures Judging(files, h + [Read(i, k, files[k].issues)], i, k, files[k].issues, [], |h|)
  {
    assert (h + [Read(i, k, files[k].issues)])[|h| + 1..] == [];
  }

  lemma {:induction false} OtherThreadOk(hash: string -> string, files: Files, files': Files, h: seq<Event>,
                                         e: Option<Event>, i: nat, t: Thread)
    requires ThreadOk(hash, files, h, i, t) && forall k :: Tracks(files, files', e, k)
    requires !(e.Some? && e.value.Answered? && e.value.thread == i)
    ensures ThreadOk(hash, files', Logged(h, e), i, t)
  {
    match t
    case Asking(_, repo, issues, answers, readAt) =>
      JudgingOn(files, files', h, e, i, SessionFile(hash, repo), issues, answers, readAt);
    case Judged(_, repo, issues, readAt) =>
      JudgingOn(files, files', h, e, i, SessionFile(hash, repo), issues, AllTrue(|issues|), readAt);
    case Unlinking(_, k, issues, readAt) =>
      JudgingOn(files, files', h, e, i, k, issues, AllTrue(|issues|), readAt);
    case _ =>
  }

  lemma {:induction false} AllAnsweredClosed(issues: seq<Issue>, answers: seq<bool>)
    requires |answers| == |issues| && false !in answers
    ensures answers == AllTrue(|issues|)
  {
    forall j | 0 <= j < |answers| ensures answers[j] {
      assert answers[j] in answers;
    }
  }

  lemma {:induction false} OwnThreadOk(hash: string -> string, s: State, i: nat, closed: bool)
    requires Inv(hash, s) && i < |s.threads|
    ensures var e := StepThread(hash, s, i, closed);
            ThreadOk(hash, e.files, Logged(s.history, e.event), i, e.thread)
  {
    var t, e := s.threads[i], StepThread(hash, s, i, closed);
    assert ThreadOk(hash, s.files, s.history, i, t);
    match t
    case Reaping(todo) =>
      if todo != [] {
        assert todo[0] in todo && AllKeyed(todo[1..]);
        if Closable(s.files, todo[0]) {
          JudgingStarts(s.files, s.history, i, todo[0]);
        }
      }
    case Asking(_, repo, issues, answers, readAt) =>
      if |answers| < |issues| {
        JudgingAnswer(s.files, s.history, i, SessionFile(hash, repo), issues, answers, readAt, closed);
      } else if false !in answers {
        AllAnsweredClosed(issues, answers);
        JudgingOn(s.files, s.files, s.history, e.event, i, SessionFile(hash, repo), issues, answers, readAt);
      }
    case _ =>
  }

  lemma {:induction false} StepWellKeyed(hash: string -> string, s: State, i: nat, closed: bool)
    requires WellKeyed(hash, s.files) && CondemnsKeyed(s.history) && i < |s.threads|
    requires ThreadOk(hash, s.files, s.history, i, s.threads[i])
    ensures var e := StepThread(hash, s, i, closed);
            WellKeyed(hash, e.files) && CondemnsKeyed(Logged(s.history, e.event))
  {
  }

  lemma {:induction false} StepInv(hash: string -> string, s: State, a: Action)
    requires Inv(hash, s) && ListsKeyed(a)
    ensures Inv(hash, Next(hash, s, a))
  {
    if a.Step? && a.thread < |s.threads| {
      var i, s' := a.thread, Next(hash, s, a);
      var e := StepThread(hash, s, i, a.closed);
      assert ThreadOk(hash, s.files, s.history, i, s.threads[i]);
      StepWellKeyed(hash, s, i, a.closed);
      OwnThreadOk(hash, s, i, a.closed);
      forall k ensures Tracks(s.files, e.files, e.event, k) {
        StepTracks(hash, s, i, a.closed, k);
      }
      forall j | 0 <= j < |s.threads| ensures ThreadOk(hash, s'.files, s'.history, j, s'.threads[j]) {
        if j != i {
          OtherThreadOk(hash, s.files, e.files, s.history, e.event, j, s.threads[j]);
        }
      }
    } else {
      StepQuiet(hash, s, a);
    }
  }

  lemma {:induction false} StepQuiet(hash: string -> string, s: State, a: Action)
    requires Inv(hash, s) && ListsKeyed(a) && !(a.Step? && a.thread < |s.threads|)
    ensures Inv(hash, Next(hash, s, a))
  {
    var s' := Next(hash, s, a);
    forall j | 0 <= j < |s'.threads| ensures ThreadOk(hash, s'.files, s'.history, j, s'.threads[j]) {
      assert j < |s.threads| ==> ThreadOk(hash, s.files, s.history, j, s.threads[j]);
    }
  }

  lemma {:induction false} RunInv(hash: string -> string, s: State, acts: seq<Action>)
    requires Inv(hash, s) && forall j :: 0 <= j < |acts| ==> ListsKeyed(acts[j])
    ensures Inv(hash, Run(hash, s, acts))
    decreases |acts|
  {
    if acts != [] {
      StepInv(hash, s, acts[0]);
      RunInv(hash, Next(hash, s, acts[0]), acts[1..]);
    }
  }

  /**
   * Whatever a reap is about to unlink, in every run: since it read the session it has asked
   * about exactly the issues it read, in order, and every one was answered closed.  The file
   * holds what it read or, if an open for the same key has been accepted since, what the last
   * such open wrote; so the session removed is the one judged if and only if the last accepted
   * open since, if any, was for the same set of issues.
   */
  lemma {:induction false} ReapUnlinksJudgedIff(hash: string -> string, files: Files, now: int, acts: seq<Action>,
                                                i: nat)
    requires WellKeyed(hash, files) && forall j :: 0 <= j < |acts| ==> ListsKeyed(acts[j])
    requires i < |Run(hash, Start(files, now), acts).threads|
               && Run(hash, Start(files, now), acts).threads[i].Unlinking?
    ensures var s := Run(hash, Start(files, now), acts);
            var Unlinking(_, k, issues, readAt) := s.threads[i];
            && readAt < |s.history| && s.history[readAt] == Read(i, k, issues)
            && var since := s.history[readAt + 1..];
               && |Answers(since, i)| == |issues|
               && (forall j :: 0 <= j < |issues| ==> Answers(since, i)[j] == Reply(issues[j], true))
               && (k in s.files ==>
                     && s.files[k].Session?
                     && (Elements(s.files[k].issues) == Elements(issues) <==>
                         !(LastWritten(since, k).Some? && Elements(LastWritten(since, k).value) != Elements(issues))))
               && Next(hash, s, Step(i, true)).files == s.files - {k}
  {
    RunInv(hash, Start(files, now), acts);
    var s := Run(hash, Start(files, now), acts);
    assert ThreadOk(hash, s.files, s.history, i, s.threads[i]);
  }

  /** Files under a hash stay sessions of repositories with that hash, in every run. */
  lemma {:induction false} AlwaysWellKeyed(hash: string -> string, files: Files, now: int, acts: seq<Action>)
    requires WellKeyed(hash, files) && forall j :: 0 <= j < |acts| ==> ListsKeyed(acts[j])
    ensures WellKeyed(hash, Run(hash, Start(files, now), acts).files)
  {
    RunInv(hash, Start(files, now), acts);
  }

  // ---- Keyed operations stay with their key -------------------------------------------------------

  /** An open or a close of the session `k`. */
  predicate Names(hash: string -> string, a: Action, k: Key)
  {
    (a.Open? || a.Close?) && SessionFile(hash, a.repo) == k
  }

  ghost predicate SameFile(a: Files, b: Files, k: Key)
  {
    (k in a <==> k in b) && (k in a ==> a[k] == b[k])
  }

  /** The invocation will touch `k` only if a reap has condemned it. */
  ghost predicate Spares(hash: string -> string, h: seq<Event>, t: Thread, k: Key)
  {
    match t
    case Opening(repo, _, _) => SessionFile(hash, repo) != k
    case Closing(k') => k' != k
    case Judged(_, repo, _, _) => SessionFile(hash, repo) == k ==> Condemned(k) in h
    case Unlinking(_, k', _, _) => k' == k ==> Condemned(k) in h
    case _ => true
  }

  ghost predicate AllSpare(hash: string -> string, s: State, k: Key)
  {
    forall i :: 0 <= i < |s.threads| ==> Spares(hash, s.history, s.threads[i], k)
  }

  lemma {:induction false} StepSpares(hash: string -> string, s: State, a: Action, k: Key)
    requires AllSpare(hash, s, k) && !Names(hash, a, k) && Condemned(k) !in Next(hash, s, a).history
    ensures AllSpare(hash, Next(hash, s, a), k) && SameFile(s.files, Next(hash, s, a).files, k)
  {
    if a.Step? && a.thread < |s.threads| {
      var e := StepThread(hash, s, a.thread, a.closed);
      assert Spares(hash, s.history, s.threads[a.thread], k);
      if e.event.Some? {
        assert Next(hash, s, a).history[|s.history|] == e.event.value;
      }
      assert forall x :: x in s.history ==> x in Next(hash, s, a).history;
    }
  }

  lemma {:induction false} HistoryGrows(hash: string -> string, s: State, acts: seq<Action>)
    ensures s.history <= Run(hash, s, acts).history
    decreases |acts|
  {
    if acts != [] {
      HistoryGrows(hash, Next(hash, s, acts[0]), acts[1..]);
    }
  }

  lemma {:induction false} RunSpares(hash: string -> string, s: State, acts: seq<Action>, k: Key)
    requires AllSpare(hash, s, k) && forall j :: 0 <= j < |acts| ==> !Names(hash, acts[j], k)
    requires Condemned(k) !in Run(hash, s, acts).history
    ensures SameFile(s.files, Run(hash, s, acts).files, k)
    decreases |acts|
  {
    if acts != [] {
      var s' := Next(hash, s, acts[0]);
      HistoryGrows(hash, s', acts[1..]);
      StepSpares(hash, s, acts[0], k);
      RunSpares(hash, s', acts[1..], k);
    }
  }

  /** A file that no open or close names and no reap condemns is the same after the whole run. */
  lemma {:induction false} OtherFilesUntouched(hash: string -> string, files: Files, now: int, acts: seq<Action>,
                                               k: Key)
    requires forall j :: 0 <= j < |acts| ==> !Names(hash, acts[j], k)
    requires Condemned(k) !in Run(hash, Start(files, now), acts).history
    ensures SameFile(files, Run(hash, Start(files, now), acts).files, k)
  {
    RunSpares(hash, Start(files, now), acts, k);
  }

  /** No run of keyed opens, keyed closes and reaps ever touches the global file. */
  lemma {:induction false} GlobalUntouched(hash: string -> string, files: Files, now: int, acts: seq<Action>)
    requires WellKeyed(hash, files)
    requires forall j :: 0 <= j < |acts| ==> ListsKeyed(acts[j]) && !Names(hash, acts[j], Global)
    ensures SameFile(files, Run(hash, Start(files, now), acts).files, Global)
  {
    RunInv(hash, Start(files, now), acts);
    OtherFilesUntouched(hash, files, now, acts, Global);
  }

  // ---- Reap, divided ---------------------------------------------------------------------------------

  /**
   * The other half does occur: here the judged session is taken over for an issue that
   * nobody resolved as closed, and reap removes that session.
   */
  lemma {:induction false} DividedReapRemovesLiveSession(hash: string -> string, now: int)
    ensures exists acts ::
              var k := SessionFile(hash, "r");
              var s := Run(hash, Start(map[k := Session([Issue("old")], Some(now), "r")], now), acts);
              && |s.threads| > 0 && s.threads[0] == Unlinking([], k, [Issue("old")], 0)
              && k in s.files && s.files[k] == Session([Issue("live")], Some(now), "r")
              && k !in Next(hash, s, Step(0, true)).files
  {
    var k := SessionFile(hash, "r");
    var s := Start(map[k := Session([Issue("old")], Some(now), "r")], now);
    var judge := [Reap([k]), Step(0, true), Step(0, true), Step(0, true)];
    var replace := [Open("r", [Issue("live")], true), Step(1, true), Step(0, true)];
    JudgeOld(hash, now);
    ReplaceJudged(hash, now, Run(hash, s, judge).history);
    RunConcat(hash, s, judge, replace);
  }

  lemma {:induction false} JudgeOld(hash: string -> string, now: int)
    ensures var k := SessionFile(hash, "r");
            var files := map[k := Session([Issue("old")], Some(now), "r")];
            var s := Run(hash, Start(files, now), [Reap([k]), Step(0, true), Step(0, true), Step(0, true)]);
            s == State(files, now, [Judged([], "r", [Issue("old")], 0)], s.history)
  {
    var k := SessionFile(hash, "r");
    var s := Start(map[k := Session([Issue("old")], Some(now), "r")], now);
    RunCons(hash, s, Reap([k]), [Step(0, true), Step(0, true), Step(0, true)]);
    var s1 := Next(hash, s, Reap([k]));
    RunCons(hash, s1, Step(0, true), [Step(0, true), Step(0, true)]);
    var s2 := Next(hash, s1, Step(0, true));
    assert [k][1..] == [] && s1.threads == [Reaping([k])];
    assert s2.threads == [Asking([], "r", [Issue("old")], [], 0)];
    RunCons(hash, s2, Step(0, true), [Step(0, true)]);
    var s3 := Next(hash, s2, Step(0, true));
    assert [] + [true] == [true] && s3.threads == [Asking([], "r", [Issue("old")], [true], 0)];
    RunCons(hash, s3, Step(0, true), []);
  }

  lemma {:induction false} ReplaceJudged(hash: string -> string, now: int, h: seq<Event>)
    ensures var k := SessionFile(hash, "r");
            var s := State(map[k := Session([Issue("old")], Some(now), "r")], now, [Judged([], "r", [Issue("old")], 0)],
                h);
            var s' := Run(hash, s, [Open("r", [Issue("live")], true), Step(1, true), Step(0, true)]);
            && s'.files == map[k := Session([Issue("live")], Some(now), "r")]
            && s'.threads == [Unlinking([], k, [Issue("old")], 0), Done]
  {
    var k := SessionFile(hash, "r");
    var s := State(map[k := Session([Issue("old")], Some(now), "r")], now, [Judged([], "r", [Issue("old")], 0)], h);
    RunCons(hash, s, Open("r", [Issue("live")], true), [Step(1, true), Step(0, true)]);
    var s1 := Next(hash, s, Open("r", [Issue("live")], true));
    RunCons(hash, s1, Step(1, true), [Step(0, true)]);
    var s2 := Next(hash, s1, Step(1, true));
    assert s2.files == map[k := Session([Issue("live")], Some(now), "r")];
    RunCons(hash, s2, Step(0, true), []);
  }

  lemma {:induction false} RunCons(hash: string -> string, s: State, a: Action, rest: seq<Action>)
    ensures Run(hash, s, [a] + rest) == Run(hash, Next(hash, s, a), rest)
  {
    assert ([a] + rest)[1..] == rest;
  }

  lemma {:induction false} RunConcat(hash: string -> string, s: State, a: seq<Action>, b: seq<Action>)
    ensures Run(hash, s, a + b) == Run(hash, Run(hash, s, a), b)
    decreases |a|
  {
    if a == [] {
      assert a + b == b;
    } else {
      assert (a + b)[1..] == a[1..] + b;
      RunConcat(hash, Next(hash, s, a[0]), a[1..], b);
    }
  }
}
