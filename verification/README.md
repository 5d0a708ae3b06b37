# Verified models of CHP's state machines, caches, searches, parsers and proofs

This project models, in Dafny, the parts of the Capability Host Protocol repository whose
behaviour spans many steps: a cache shared by threads, a durable job table, a circuit
breaker, a stream collector, a log format with its parser, a directory walk, a session-tree
printer, dev-session files, an install planner, audit aggregation, a workflow runner, a
brace scanner, the Merkle proofs of the store head and the causal order of events.
`dafny verify dfyconfig.toml` checks everything.

Code that changes things step by step is a class or a method with loops, each proved against
a specification function or an outright property. What several threads or coroutines do is a
transition system: one action per lock-protected section, per SQL transaction, or per
await-free stretch of code, and the theorems hold for every sequence of actions.

| module | what it models |
|---|---|
| `Seqs`, `PyText` | sequences; Python's `strip`, `split`, slicing and text-mode newlines |
| `WarmCache`, `WarmCacheRuns` | the bounded LRU of warm models; every interleaving of concurrent `_cached` calls |
| `JobStore`, `JobRuns`, `JobFleet` | the job table and the adapter's operations; every run of submit, execute, crash and restart; many processes on one file |
| `Circuit`, `CircuitConcurrent` | the per-origin breaker, the retry loop, and the bounds on failures over time, one request after another or several at once |
| `Stream` | the stream collector and the text it assembles |
| `GitLog`, `GitReconcile`, `GitDiscover` | log format and parser; reconciling a commit; repository discovery |
| `SessionTree` | the depth-limited search with one shared visited set |
| `DevSessions`, `DevSessionRuns` | open, close and reap of session files; every interleaving at their awaits |
| `Bootstrap` | prerequisite tiers, resolution, execution, and the honest outcome |
| `Audit`, `AuditStats` | grouping events by invocation; invocation statistics |
| `Workflow` | defining and running workflows; the language of their event traces |
| `BraceScanner` | extracting the first JSON object from free text |
| `Merkle` | the RFC 6962 tree: inclusion and consistency proofs and their verifiers |
| `Ordering`, `CausalOrder`, `OrderingOfSets`, `OrderEvents` | one causal order for events of many hosts; what it is, said by the fields of the events alone; its independence of the input order; the procedure that computes it |

## What the proofs found

Each of these is proved, with the exact condition where there is one.

- **Concurrent loads of one key.** `_cached` calls a double load harmless. The replaced object is
  never handed to `_release_model` (`DoubleLoadOverwrites`). A store replaces an object exactly when
  its key was touched with fewer than `bound` other keys since (`StoreOverwritesIff`), which needs
  overlapping loads or a factory that returned None: a cached None is never a hit, so the next load
  of its key, overlapping or not, replaces it.
- **Tree printer.** A shared child first entered by a long route can hide sessions well within the
  depth limit (`SharedChildCanHideOthers`). No session is lost where no such detour exists in the
  graph (`CompleteWithoutDetours`), and a detour that misses a child without another parent does
  hide it for some order of the children (`DetourHidesOnlyChild`).
- **Several processes on a job file.** Each start reconciles rows that other processes still hold;
  terminal rows stay terminal exactly when no other live process holds a job at that moment
  (`OpenIsSafeIff`). Even without that no job is invoked twice (`InvokedAtMostOnce`).
- **Failed jobs that succeeded.** When the final update raises, a success is recorded as a failure,
  and only then (`FailedHidesSuccessIff`).
- **`max_events` in lines mode.** The count test reads `events`, which lines mode never fills, so
  `max_events` is kept exactly when the byte cap alone enforces it (`LinesCappedIff`). The byte cap
  counts characters.
- **Reconcile.** The log cuts a subject at 80 characters and reconcile strips it again, but cuts the
  first line of the message without stripping it. A commit is matched by its own message exactly when
  the first 80 characters of that line do not end in a blank and the log's cut shows nothing of the
  further lines that git folds into a subject (`OwnEntryMatches`, `FoldedEntryMatches`); any other
  commit is never found by its own message (`CommitIsMissed`).
- **Discovery.** The root and its children both count as depth 0, so levels 0 to `max_depth` are
  searched when `max_depth` is at least 2, and only the root when it is 1. `truncated` is also set
  when exactly `max_repos` repositories exist. With links followed, one repository can be reported
  under two paths (`LinkedTwiceReportedTwice`), exactly when two ways from the root fork off, meet
  again and go on to a repository within the levels (`ReportedTwiceIff`).
- **Reap.** Between its awaits a judged session can be taken over, and reap then removes the live
  one (`DividedReapRemovesLiveSession`), exactly when the last open accepted since was for another
  set of issues (`ReapUnlinksJudgedIff`).
- **Install outcome.** "ok" can be trusted exactly when the second detection leaves every planned
  prerequisite a recipe, its own or that of one found by the same look, or finds it held, unless
  something is planned for ever (`OkTrustedIff`); when the package manager is gone, it cannot
  (`OkWithoutManager`).
- **Audit.** The grouped report takes the last outcome and ignores `execution_skipped`, the statistics
  take the first known one and count skips; they agree exactly as `ReportsAgreeIff` says. Outcome
  counts do not change when the events are reordered exactly when no started invocation has two known
  outcomes (`OrderIsIrrelevantIff`).
- **Brace scanner.** An object that parses is the one picked exactly when its first brace closes at
  its end and nothing on offer before it parses (`ObjectIsPickedIff`). With a closing brace in a
  string literal an inner object can be returned instead of the whole (`BraceInString`).
- **Log text.** Python's `strip` also removes 0x1c to 0x1f, and text mode turns CR into LF; the
  round trip is stated with both (`LogRoundTrip`).
- **Event order.** The order does not depend on how the input lists the events as long as no two
  have the same key (`OrderIsOfTheSet`); those that do keep, without a cycle, the order of the input
  (`TiesFollowInput`), so swapping two of them changes the order (`SwappedTiesDiffer`).
- **Consistency proofs.** The replay does not look at the size of the entries it joins. An entry that
  is two hashes long, with an empty one after it, makes it accept an older root under which a later
  leaf stands at another index (`JoinedEntryIsAccepted`). What is accepted is the root of the first m
  leaves with the proof built for it exactly when the hash that the replay starts from has the size of
  a hash (`ConsistencyIff`). A claim about the first 0 leaves says nothing: it is accepted for every
  two roots (`EmptyPrefixIff`).

## Model

| member | source | states |
|---|---|---|
| WarmCache.Cache.Lookup | packages/chp-adapter-huggingface/chp_adapter_huggingface/_backends.py:348-352 | a stored non-None object is a hit and moves to the end, keeping all others in order; a miss changes nothing |
| WarmCache.Cache.Overflow | packages/chp-adapter-huggingface/chp_adapter_huggingface/_backends.py:358-362 | the last `bound` entries stay, and exactly the ones before them are evicted, oldest first |
| WarmCache.Cache.Insert | packages/chp-adapter-huggingface/chp_adapter_huggingface/_backends.py:355-362 | the second locked section as one function of the dictionary: store at the end, evict from the front |
| WarmCache.Cache.Cached | packages/chp-adapter-huggingface/chp_adapter_huggingface/_backends.py:341-373 | one uncontended call returns the hit or the built object and releases exactly what it evicted, newest first |
| WarmCacheRuns.RecencyMeaning | packages/chp-adapter-huggingface/chp_adapter_huggingface/_backends.py:348-362 | the recency list holds each touched key once, and what stands after a key is exactly the set of keys touched since its last touch |
| WarmCacheRuns.LeastRecentlyUsed | packages/chp-adapter-huggingface/chp_adapter_huggingface/_backends.py:341-362 | after every interleaving at most `bound` keys are resident: exactly the touched keys with fewer than `bound` others touched since, in order of last touch |
| WarmCacheRuns.VictimIsLeastRecent | packages/chp-adapter-huggingface/chp_adapter_huggingface/_backends.py:355-362 | in every reachable state a store evicts nothing, or exactly the least recently touched key; never the key just stored |
| WarmCacheRuns.ExactlyOnePlace | packages/chp-adapter-huggingface/chp_adapter_huggingface/_backends.py:353-373 | in every reachable state each built object is in exactly one place: pending, resident, awaiting release, released or overwritten |
| WarmCacheRuns.ReleasedOnce | packages/chp-adapter-huggingface/chp_adapter_huggingface/_backends.py:371-372 | no object is released twice, and a released object is neither resident nor pending nor overwritten |
| WarmCacheRuns.ReturnsOwnKey | packages/chp-adapter-huggingface/chp_adapter_huggingface/_backends.py:348-373 | under every interleaving a call returns an object that was built for its own key |
| WarmCacheRuns.NoOverwrite | packages/chp-adapter-huggingface/chp_adapter_huggingface/_backends.py:344-357 | a run without overlapping loads of one key, in which no factory returns None, never overwrites an object |
| WarmCacheRuns.StoreOverwritesIff | packages/chp-adapter-huggingface/chp_adapter_huggingface/_backends.py:355-357 | in every reachable state a store replaces an object if and only if its key was touched with fewer than `bound` other keys touched since |
| WarmCacheRuns.NothingOverwrittenIff | packages/chp-adapter-huggingface/chp_adapter_huggingface/_backends.py:355-357 | a whole run replaces no object if and only if none of its stores meets that guard |
| WarmCacheRuns.DoubleLoadOverwrites | packages/chp-adapter-huggingface/chp_adapter_huggingface/_backends.py:344-357 | a concrete run of two overlapping loads in which the first object is dropped without release |
| WarmCacheRuns.LargerCacheIncludes | packages/chp-adapter-huggingface/chp_adapter_huggingface/_backends.py:16-16 | for sequential requests, whatever is resident with one bound is resident with any larger bound |
| WarmCacheRuns.LargerCacheLoadsLess | packages/chp-adapter-huggingface/chp_adapter_huggingface/_backends.py:341-362 | a larger bound never causes more model loads on the same requests |
| JobStore.Store.ReconcileInterrupted | packages/chp-adapter-jobs/chp_adapter_jobs/_store.py:51-61 | exactly the submitted and running rows become interrupted with the restart error, other fields and rows stay, and the returned count is the number of rows that changed |
| JobStore.Store.Create | packages/chp-adapter-jobs/chp_adapter_jobs/_store.py:63-70 | a new id gets a submitted row; an existing id is refused and nothing changes |
| JobStore.Store.MarkRunning | packages/chp-adapter-jobs/chp_adapter_jobs/_store.py:72-78 | whatever its status was, this row is running and keeps its other fields; every other row stays; a missing row stays missing |
| JobStore.Store.MarkDone | packages/chp-adapter-jobs/chp_adapter_jobs/_store.py:80-97 | whatever its status was, this row is completed with the result and no error, or failed with the error and no result; every other row stays |
| JobStore.Store.Result | packages/chp-adapter-jobs/chp_adapter_jobs/adapter.py:173-183 | unknown exactly for missing rows; the status of a row that is not terminal; status, success, result and error of one that is |
| JobStore.Store.RunJob | packages/chp-adapter-jobs/chp_adapter_jobs/adapter.py:76-91 | one job undisturbed ends in a row a poller sees as ready, and no other row changes |
| JobRuns.EveryRunIsSafe | packages/chp-adapter-jobs/chp_adapter_jobs/adapter.py:69-130 | in every reachable state rows agree with their workers' program counters, at most `max_workers` jobs run, none was executed twice, and a completed row shows what its one execution returned |
| JobRuns.PollersAreTold | packages/chp-adapter-jobs/chp_adapter_jobs/adapter.py:173-183 | after every run a poller is told a completed job's returned result as a success, a failed job's error as a failure, the restart for an interrupted job, and the status of one that is not over |
| JobRuns.EndIsTold | packages/chp-adapter-jobs/chp_adapter_jobs/adapter.py:76-91 | however an invocation ends, returning or raising, that is what its row tells once the worker is done |
| JobRuns.TerminalForever | packages/chp-adapter-jobs/chp_adapter_jobs/_store.py:72-97 | with one live process no continuation of any run changes a terminal row, though the updates are unguarded |
| JobRuns.CrashedJobIsOver | packages/chp-adapter-jobs/chp_adapter_jobs/adapter.py:60-64 | in every run, a job unfinished when the process dies is interrupted by the next start, stays so in every continuation and is never invoked again; the start changes no finished row |
| JobRuns.FailedHidesSuccessIff | packages/chp-adapter-jobs/chp_adapter_jobs/adapter.py:82-91 | in every run, a failed row hides an invocation that returned success if and only if the final update of that success raised |
| JobRuns.FaultFreeRunsLoseNothing | packages/chp-adapter-jobs/chp_adapter_jobs/adapter.py:76-91 | unless a store update fails or submit raises halfway, every unfinished row of a live process is in its hands |
| JobFleet.OpenIsSafeIff | packages/chp-adapter-jobs/chp_adapter_jobs/adapter.py:60-64 | with any number of processes and after any run, the open of the file by one of them leaves every terminal row alone in every continuation without another open if and only if no other live process holds a job at that moment |
| JobFleet.GuardedRunsAbsorb | packages/chp-adapter-jobs/chp_adapter_jobs/_store.py:51-97 | runs of many processes in which every open finds no other process holding a job never change a terminal row |
| JobFleet.InvokedAtMostOnce | packages/chp-adapter-jobs/chp_adapter_jobs/adapter.py:76-91 | however many processes share the file and whenever they open it, no job is invoked twice |
| Circuit.HttpClient.Record | packages/chp-adapter-http/chp_adapter_http/adapter.py:196-205 | a success closes the origin and clears its count; a failure adds one and opens it for the cooldown at the threshold, else leaves the opening time; every other origin keeps its state |
| Circuit.HttpClient.Request | packages/chp-adapter-http/chp_adapter_http/adapter.py:284-326 | fails fast exactly when open; otherwise stops at the first success or after max_retries + 1 attempts and sleeps the sum of backoff_base * 2^i over its retries; an answer clears the origin, a failure adds one and at the threshold opens it until the cooldown is over, anything else changes nothing, and other origins keep their entries |
| Circuit.SleptIs | packages/chp-adapter-http/chp_adapter_http/adapter.py:284-316 | those pauses come to backoff_base * (2^k - 1) after k retries |
| Circuit.OpenIffFailingRun | packages/chp-adapter-http/chp_adapter_http/adapter.py:191-205 | after every history the circuit is open at t if and only if the origin's own reports end in at least max(1, threshold) failures and t is before the last of them plus the cooldown |
| Circuit.OriginsIndependent | packages/chp-adapter-http/chp_adapter_http/adapter.py:191-205 | reports about other origins have no effect on an origin's circuit |
| Circuit.RateBound | packages/chp-adapter-http/chp_adapter_http/adapter.py:284-326 | sequential requests to an origin that always fails record at most threshold + floor(T / cooldown) failures in time T, at max_retries + 1 attempts each |
| Circuit.RateBoundReached | packages/chp-adapter-http/chp_adapter_http/adapter.py:191-205 | for every number of cooldowns there is a run that records exactly that many failures |
| CircuitConcurrent.ConcurrentRateBound | packages/chp-adapter-http/chp_adapter_http/adapter.py:284-316 | with at most w requests in flight, whatever their interleaving and other traffic, at most threshold + w - 1 + w * floor(T / cooldown) failures are recorded in time T |
| CircuitConcurrent.ConcurrentRateBoundReached | packages/chp-adapter-http/chp_adapter_http/adapter.py:191-205 | for every w and every number of cooldowns there is a run with at most w requests in flight that records exactly that many failures |
| Stream.Collect | packages/chp-adapter-http/chp_adapter_http/adapter.py:445-476 | the events are the data frames, in order, of the lines before the first that passes the byte cap, finds the events full or says `[DONE]`; truncated exactly for the first two |
| Stream.LineMeaning | packages/chp-adapter-http/chp_adapter_http/adapter.py:445-476 | what a line adds to events, lines and the total, and whether it stops the loop, by its characters |
| Stream.EventsBounded | packages/chp-adapter-http/chp_adapter_http/adapter.py:457-461 | in sse mode the events never exceed max_events |
| Stream.LimitsMonotone | packages/chp-adapter-http/chp_adapter_http/adapter.py:457-476 | raising the limits only extends what is collected |
| Stream.LinesIgnoreMaxEvents | packages/chp-adapter-http/chp_adapter_http/adapter.py:459-465 | in lines mode every positive max_events cuts at the same line, and only the byte cap cuts |
| Stream.LinesExceedMaxEvents | packages/chp-adapter-http/chp_adapter_http/adapter.py:459-465 | within the byte cap every line of a stream of non-empty lines is collected, however small max_events is |
| Stream.LinesCappedIff | packages/chp-adapter-http/chp_adapter_http/adapter.py:457-465 | in lines mode every stream stays within max_events if and only if the byte cap is at most max_events |
| Stream.AggregateText | packages/chp-adapter-http/chp_adapter_http/adapter.py:57-79 | the text is the concatenation of each event's text, over the three wire shapes |
| Stream.TextConcat | packages/chp-adapter-http/chp_adapter_http/adapter.py:57-79 | the text of a concatenation is the concatenation of the texts |
| Stream.TextOfOne | packages/chp-adapter-http/chp_adapter_http/adapter.py:57-79 | what one event adds: nothing for raw data, the text of a content block delta, and choice by choice the delta's content, or else the choice's text |
| GitLog.ParseLog | packages/chp-adapter-git/chp_adapter_git/adapter.py:311-331 | the loop yields one entry per well-formed record of the raw output, in order |
| GitLog.LogRoundTrip | packages/chp-adapter-git/chp_adapter_git/adapter.py:303-331 | for every list of commits that the format can carry, printing, `run` and parsing give the same list back, subjects cut to 80 and bodies stripped |
| GitLog.FormatIs | packages/chp-adapter-git/chp_adapter_git/adapter.py:303-331 | the printed text of a commit and the entry it comes back as, character by character: unit separators, NUL and newline, 80 characters of the subject, the body stripped |
| PyText.AsciiSpaces | packages/chp-adapter-git/chp_adapter_git/adapter.py:314-328 | of the ASCII characters strip() removes exactly ten: tab to carriage return, 0x1c to 0x1f and the space |
| GitReconcile.CommitReconcile | packages/chp-adapter-git/chp_adapter_git/adapter.py:723-757 | UNKNOWN exactly for a failed read; SUCCEEDED with the newest match such that neither it nor a newer commit has a hash that since_head begins with; NOT_FOUND with the head only if there is none |
| GitReconcile.SearchMeaning | packages/chp-adapter-git/chp_adapter_git/adapter.py:744-754 | finds the first match with no commit at or before it whose hash since_head begins with, or shows that there is no such match |
| GitReconcile.ListedTextMatches | packages/chp-adapter-git/chp_adapter_git/adapter.py:747-752 | the text of a listed commit, its subject alone or with its body after a blank line, matches it |
| GitReconcile.LineBreaksAre | packages/chp-adapter-git/chp_adapter_git/adapter.py:752-752 | a first line ends at exactly ten characters, all of which strip() removes |
| GitReconcile.OwnEntryMatches | packages/chp-adapter-git/chp_adapter_git/adapter.py:748-752 | for every message and the subject git makes of it, the commit's log entry matches the message if and only if the first 80 characters of its first line do not end in a blank and the log's cut of the subject shows nothing of further lines |
| GitReconcile.CommitIsFound | packages/chp-adapter-git/chp_adapter_git/adapter.py:723-757 | through print, `run`, parse and search: such a commit among the newest `limit` and above since_head is found at or before its place |
| GitReconcile.CommitIsMissed | packages/chp-adapter-git/chp_adapter_git/adapter.py:320-328 | in every history any other commit is never what its own message finds, and the verdict is NOT_FOUND when nothing else matches |
| GitReconcile.FoldedEntryMatches | packages/chp-adapter-git/chp_adapter_git/adapter.py:748-752 | a commit whose subject git folds from several lines matches its own message if and only if the first line, blanks at its end aside, has at least 79 characters, and its cut does not end in a blank |
| GitReconcile.CutAtBlankExists | packages/chp-adapter-git/chp_adapter_git/adapter.py:324-324 | such titles exist: 79 letters, a blank, a letter |
| GitDiscover.DiscoverRepos | packages/chp-adapter-git/chp_adapter_git/adapter.py:802-823 | terminates on every directory graph; what it reports lists ".git", lies within the levels and below no directory that does, with no component that starts with a dot or is one of five names; all such paths unless truncated, which is set exactly from max(1, max_repos) of them on |
| GitDiscover.ReportsExactly | packages/chp-adapter-git/chp_adapter_git/adapter.py:805-817 | the walk reports a path if and only if it is a repository within the levels, reached with no hidden, skipped or repository directory on the way |
| GitDiscover.ReportsPlainly | packages/chp-adapter-git/chp_adapter_git/adapter.py:805-817 | the walk reports a path if and only if it is such a one, said by names and directory listings alone |
| GitDiscover.NoNestedReports | packages/chp-adapter-git/chp_adapter_git/adapter.py:807-809 | no reported repository lies under another reported one |
| GitDiscover.ReportedOnce | packages/chp-adapter-git/chp_adapter_git/adapter.py:805-813 | no path is reported twice |
| GitDiscover.DirectoryReportedOnce | packages/chp-adapter-git/chp_adapter_git/adapter.py:805-817 | where at most one permitted hop leads into each directory and none into the root, no directory is reported under two paths |
| GitDiscover.ReportedTwiceIff | packages/chp-adapter-git/chp_adapter_git/adapter.py:805-817 | a directory is reported under two paths if and only if two permitted chains from the root come to one directory by different last hops and a repository lies at or below it, within the levels by either chain |
| GitDiscover.LinkedTwiceReportedTwice | packages/chp-adapter-git/chp_adapter_git/adapter.py:794-805 | a repository linked twice from the root is reported under both names |
| SessionTree.TreePrinter.RenderNode | tools/chp_inspector/tree_view.py:26-53 | terminates on every child graph; adds exactly the lines and visited sessions of the recursive search |
| SessionTree.TreePrinter.RenderTree | tools/chp_inspector/tree_view.py:14-23 | prints the search from the root at depth 0 with nothing visited |
| SessionTree.PrintedOnceOnPath | tools/chp_inspector/tree_view.py:33-53 | no session is printed twice; one printed at depth d ends a simple path of d hops from the root through printed sessions |
| SessionTree.IndentationShowsParent | tools/chp_inspector/tree_view.py:47-53 | the root comes first, and for every other line the nearest line above it that is one level up shows a session of which it is a child |
| SessionTree.ChildrenInOrder | tools/chp_inspector/tree_view.py:47-53 | sessions printed under one line come in the order in which its children are listed |
| SessionTree.CompleteUnlessHidden | tools/chp_inspector/tree_view.py:33-53 | everything printed lies within max_depth hops, and all of that is printed if and only if the last printed level hides nothing |
| SessionTree.CompleteWithoutDetours | tools/chp_inspector/tree_view.py:33-53 | the printout is complete, for every order of the children, when each simple path of max_depth hops to a session that is also nearer goes through all its children |
| SessionTree.DetourHidesOnlyChild | tools/chp_inspector/tree_view.py:33-53 | a path that breaks that condition at a child without another parent hides the child once the sessions along it are listed first |
| SessionTree.DeepEnoughPrintsAll | tools/chp_inspector/tree_view.py:33-53 | with max_depth at least the number of reachable sessions minus one there is no such path, and exactly the reachable sessions are printed |
| SessionTree.SingleParentsComplete | tools/chp_inspector/tree_view.py:33-53 | when no session has two parents there is no such path, and exactly the sessions within max_depth hops are printed |
| SessionTree.SharedChildCanHideOthers | tools/chp_inspector/tree_view.py:33-35 | a graph on which a session two hops from the root is not printed at depth limit 2 |
| DevSessions.SessionStore.Open | packages/chp-adapter-conformance/chp_adapter_conformance/adapter.py:391-460 | refused exactly when no issue is named, or without takeover for a session of a different issue set opened at most 86400 seconds ago or at an unreadable time, and then nothing changes; otherwise this key's file, and no other, is written |
| DevSessions.SessionStore.Close | packages/chp-adapter-conformance/chp_adapter_conformance/adapter.py:597-624 | unlinks exactly the file of this repository when it can be read |
| DevSessions.SessionStore.Reap | packages/chp-adapter-conformance/chp_adapter_conformance/adapter.py:661-706 | run undivided, removes exactly the listed sessions whose every issue is closed, changes no other file, and never touches the global one |
| DevSessionRuns.SessionKeepsIssues | packages/chp-adapter-conformance/chp_adapter_conformance/adapter.py:440-460 | under every interleaving a session keeps its issue set until a close, a reap, a takeover or its expiry |
| DevSessionRuns.OtherFilesUntouched | packages/chp-adapter-conformance/chp_adapter_conformance/adapter.py:27-40 | over whole runs, a file that no open or close names and no reap decides to close is the same at the end |
| DevSessionRuns.AlwaysWellKeyed | packages/chp-adapter-conformance/chp_adapter_conformance/adapter.py:679-692 | in every run each keyed file stays a session of a repository with that hash, so the nested close of a reap resolves to the file that was judged |
| DevSessionRuns.GlobalUntouched | packages/chp-adapter-conformance/chp_adapter_conformance/adapter.py:27-40 | no run of keyed opens, keyed closes and reaps changes the global file |
| DevSessionRuns.ReapUnlinksJudgedIff | packages/chp-adapter-conformance/chp_adapter_conformance/adapter.py:670-695 | in every run, what a reap is about to unlink it has asked about issue by issue since reading it, every answer being closed; the file holds the judged set of issues if and only if the last open accepted for it since, if any, was for that set |
| DevSessionRuns.DividedReapRemovesLiveSession | packages/chp-adapter-conformance/chp_adapter_conformance/adapter.py:681-692 | an interleaving in which reap unlinks a session it never judged |
| Bootstrap.Resolve | packages/chp-adapter-host/chp_adapter_host/bootstrap.py:69-87 | the three lists hold, in order, what is found where its kind is looked up, what is not but has a command for the package manager, no hardware and no missing flag, and the rest; `ready` holds if and only if all are found |
| Bootstrap.Partition | packages/chp-adapter-host/chp_adapter_host/bootstrap.py:69-87 | every prerequisite is listed in the three parts together exactly as often as it is asked for |
| Bootstrap.TierPrereqs | packages/chp-adapter-host/chp_adapter_host/bootstrap.py:245-260 | unknown tiers are refused; a known one gets the merge of the built-in and then the declared prerequisites of it and every lower tier |
| Bootstrap.LastDeclarationOwns | packages/chp-adapter-host/chp_adapter_host/bootstrap.py:252-260 | the merge holds one prerequisite of each name, namely the last one given |
| Bootstrap.MergeOrder | packages/chp-adapter-host/chp_adapter_host/bootstrap.py:252-260 | names stay at the place of their first mention |
| Bootstrap.TierAsksFor | packages/chp-adapter-host/chp_adapter_host/bootstrap.py:251-260 | a tier asks for exactly what is listed, built in or declared, for it and the tiers below it |
| Bootstrap.DeclaredOverBuiltIn | packages/chp-adapter-host/chp_adapter_host/bootstrap.py:245-260 | where a prerequisite of a name is declared, the one kept is a declared one |
| Bootstrap.TiersAreCumulative | packages/chp-adapter-host/chp_adapter_host/bootstrap.py:251-260 | a name a tier asks for is asked for, once, by every higher tier |
| Bootstrap.Execute | packages/chp-adapter-host/chp_adapter_host/bootstrap.py:376-396 | one step per planned prerequisite, none on a dry run; what is still missing comes from the second detection if a step ran; "failed" exactly when something is missing and every step failed, "partial" when one succeeded |
| Bootstrap.TrustedIff | packages/chp-adapter-host/chp_adapter_host/bootstrap.py:69-87 | over every detection with given manager and flags, a prerequisite that is not planned again is present if and only if its required flags and a recipe are there, or it is a capability that is held |
| Bootstrap.OkTrustedIff | packages/chp-adapter-host/chp_adapter_host/bootstrap.py:322-335 | "ok" means every planned prerequisite is present, on every host with given manager and flags, if and only if each is covered by one with a recipe that is found by the same look, or something is planned for ever so that "ok" never comes |
| Bootstrap.OkMeansPresent | packages/chp-adapter-host/chp_adapter_host/bootstrap.py:390-392 | if the package manager and the flags are unchanged, "ok" means every planned prerequisite is present |
| Bootstrap.OkWithoutManager | packages/chp-adapter-host/chp_adapter_host/bootstrap.py:390-392 | a host that loses its package manager and reports "ok" with nothing installed |
| Audit.GroupByInvocation | packages/chp-adapter-audit/chp_adapter_audit/adapter.py:781-806 | reports the first `limit` distinct ids in order, each with its count over the whole list, its first event's fields, its last terminal outcome and last time |
| Audit.SummaryMeaning | packages/chp-adapter-audit/chp_adapter_audit/adapter.py:784-803 | by places in the list: three fields of the invocation's first event, the number of its events, the outcome of the last that completed, failed or was denied, and the last time |
| Audit.FirstIdsOrder | packages/chp-adapter-audit/chp_adapter_audit/adapter.py:784-800 | of two reported ids the earlier has an event before every event of the later |
| Audit.LargerLimitExtends | packages/chp-adapter-audit/chp_adapter_audit/adapter.py:788-790 | a larger limit adds invocations at the end and changes nothing reported before |
| Audit.NoEventLost | packages/chp-adapter-audit/chp_adapter_audit/adapter.py:786-800 | with a large enough limit the event counts add up to the number of events that name an invocation |
| AuditStats.StartedByInvocation | packages/chp-adapter-audit/chp_adapter_audit/adapter.py:506-515 | the started invocations, each once with its first start event |
| AuditStats.TerminalOutcomes | packages/chp-adapter-audit/chp_adapter_audit/adapter.py:521-532 | each invocation's first known outcome, "unknown" if it has only unknown ones, nothing if it has no terminal event |
| AuditStats.Stats | packages/chp-adapter-audit/chp_adapter_audit/adapter.py:502-546 | outcome counts and capability counts both add up to the number of distinct started invocations, and each entry is the number of invocations it stands for |
| AuditStats.CountedOutcomeMeaning | packages/chp-adapter-audit/chp_adapter_audit/adapter.py:517-537 | the counted outcome is "incomplete" without terminal events, "unknown" with only unknown ones, and otherwise a known outcome of one of them |
| AuditStats.FinalIsFirstKnown | packages/chp-adapter-audit/chp_adapter_audit/adapter.py:517-537 | by places in the list: the outcome of the first terminal event, skips included, whose outcome is known; else "unknown"; "incomplete" without terminal events |
| AuditStats.CapabilityIsFirst | packages/chp-adapter-audit/chp_adapter_audit/adapter.py:506-546 | the capability counted is that of the first start event, "unknown" if it has none |
| AuditStats.OrderIsIrrelevantIff | packages/chp-adapter-audit/chp_adapter_audit/adapter.py:506-537 | no reordering of the events changes an outcome count if and only if no started invocation has two known outcomes |
| AuditStats.RepetitionIsIrrelevant | packages/chp-adapter-audit/chp_adapter_audit/adapter.py:506-537 | and then any two lists of the same events, however often repeated, have the same outcome counts |
| AuditStats.OnlyCurrentLeftOut | packages/chp-adapter-audit/chp_adapter_audit/adapter.py:502-504 | leaving out the invocation that asks takes exactly that one out of the statistics and changes nothing counted for the others |
| AuditStats.ReportsAgreeIff | packages/chp-adapter-audit/chp_adapter_audit/adapter.py:801-803 | for every invocation the grouped report and the statistics agree if and only if its last ending event carries the outcome of its first terminal event with a known one, or "unknown" if there is none |
| AuditStats.UnanimousReportsAgreeIff | packages/chp-adapter-audit/chp_adapter_audit/adapter.py:801-803 | where all terminal events carry one known outcome they agree if and only if not all of them are skips |
| Workflow.Composition.Define | packages/chp-adapter-composition/chp_adapter_composition/adapter.py:118-144 | replaces the entry of this name only, with one step per given step, keeping capability, skip flag, id and node, with "step_" and the position where an id is missing or empty |
| Workflow.DefaultIdsDiffer | packages/chp-adapter-composition/chp_adapter_composition/adapter.py:126-126 | default step ids are pairwise different |
| Workflow.DecimalValue | packages/chp-adapter-composition/chp_adapter_composition/adapter.py:126-126 | the number in a default id reads back as the position and has no leading zero |
| Workflow.Composition.Run | packages/chp-adapter-composition/chp_adapter_composition/adapter.py:165-266 | no event before the two refusals; steps invoked are the prefix up to the first failure that is not skipped; on return every step is reported with its own success and error and both counts are those of the reports |
| Workflow.TraceAt | packages/chp-adapter-composition/chp_adapter_composition/adapter.py:176-257 | the events of the i-th step that is reached stand at places 2i + 1 and 2i + 2 and say its id, capability, node and error; a failure that is not skipped ends the trace there |
| Workflow.TracesAreExactly | packages/chp-adapter-composition/chp_adapter_composition/adapter.py:176-257 | a sequence of events is a trace of the definition, as a recogniser without replies decides, if and only if some replies of the steps produce it |
| Workflow.TraceTellsAll | packages/chp-adapter-composition/chp_adapter_composition/adapter.py:176-257 | every trace is started, pairs of step events, one closing event; the counts, which add up to the steps, and the failing step can be recomputed from the events |
| BraceScanner.Scan | examples/chp-develops-chp/mesh_lib.py:25-35 | finds the first balanced closing of the slice, or shows that the opening brace is never closed |
| BraceScanner.ExtractJson | examples/chp-develops-chp/mesh_lib.py:21-37 | for every text and every parser, the parse of the leftmost opening brace whose first balanced slice parses, with that slice, or None when there is none |
| BraceScanner.OpenUntilEnd | examples/chp-develops-chp/mesh_lib.py:26-31 | a slice handed to the parser has as many closing as opening braces, and every proper prefix has more opening ones |
| BraceScanner.ObjectIsPickedIff | examples/chp-develops-chp/mesh_lib.py:21-37 | for every parser, extraction returns an object that parses, made from its slice, wherever it stands, if and only if its first brace closes at its end and no slice on offer before it parses |
| BraceScanner.FirstObjectIsFound | examples/chp-develops-chp/agent.py:78-94 | after a text without an opening brace that is so exactly when its first brace closes at its end |
| BraceScanner.InnerObjectInstead | examples/chp-develops-chp/mesh_lib.py:26-36 | when the first slice on offer does not parse, the next object inside that does is returned instead |
| BraceScanner.BraceInString | examples/chp-develops-chp/mesh_lib.py:26-36 | an object with a closing brace in a string literal and an object inside: the inner object is returned, not the whole |
| Merkle.SplitIs | packages/python/chp_core/merkle.py:30-35 | the split is the only power of two below the size that is at least half of it |
| Merkle.SplitLoop | packages/python/chp_core/merkle.py:30-35 | the doubling loop computes the split |
| Merkle.RootIs | packages/python/chp_core/merkle.py:22-46 | the root is the hash of the empty string, of a zero byte and the leaf, or of a one byte and the roots of the two halves |
| Merkle.BuiltProofIsAccepted | packages/python/chp_core/merkle.py:38-89 | every leaf of every tree is accepted with the audit path built for it |
| Merkle.AcceptedOnce | packages/python/chp_core/merkle.py:63-89 | for any root, two accepted claims about one index of one tree are the same leaf with the same path, unless two byte strings hashed for them collide |
| Merkle.InclusionIff | packages/python/chp_core/merkle.py:74-89 | against the root of a tree exactly the leaf at the index with exactly its audit path is accepted, unless the hashing collides |
| Merkle.BuiltConsistencyIsAccepted | packages/python/chp_core/merkle.py:99-166 | every prefix of every tree is accepted with the consistency proof built for it |
| Merkle.ConsistencyIff | packages/python/chp_core/merkle.py:146-166 | against the root of a tree, what is accepted of its first m leaves by a replay that starts from a hash of the right size is exactly their root with the proof built for it, unless the hashing collides |
| Merkle.EmptyPrefixIff | packages/python/chp_core/merkle.py:153-156 | a claim about the first 0 leaves is accepted for every two roots, with the empty proof only |
| Merkle.JoinedEntryIsAccepted | packages/python/chp_core/merkle.py:126-166 | a concrete proof with an entry of two hashes is accepted, and under the older root so accepted the leaf at 2 is not the one that the later tree has there |
| Merkle.LeafStays | packages/python/chp_core/merkle.py:74-166 | a leaf accepted under an older root stays the leaf at its index in every tree that the root is accepted to be a prefix of by a replay that starts from a hash of the right size, unless some hashing collides |
| Merkle.OnlyLeavesAreIncluded | packages/python/chp_core/merkle.py:228-244 | whatever index, size and path a claim names, only leaves of the tree are accepted against its root, unless the hashing collides |
| Merkle.OnlyPrefixesAreConsistent | packages/python/chp_core/merkle.py:267-282 | whatever sizes a claim names, only roots of prefixes are accepted against the root of a tree by a replay that starts from a hash of the right size, unless the hashing collides |
| Ordering.OrderIsPermutation | packages/python/chp_core/ordering.py:83-99 | every event is returned exactly once, cycles or not |
| Ordering.AllReadyIffAcyclic | packages/python/chp_core/ordering.py:83-93 | every event becomes ready in its turn if and only if no event has to come before itself |
| Ordering.EdgesKeptIffAcyclic | packages/python/chp_core/ordering.py:57-99 | the returned order keeps every edge if and only if there is no cycle |
| Ordering.CausallyConsistent | packages/python/chp_core/ordering.py:65-81 | without a cycle each host's events come in its own sequence, and an event comes after the first event of the invocation that caused it |
| Ordering.TiesFollowInput | packages/python/chp_core/ordering.py:29-36 | without a cycle, events with the same key stay in the order of the input |
| CausalOrder.OrderIsLeastFirst | packages/python/chp_core/ordering.py:29-99 | whenever all that must precede an event was already out, what came out instead has the smaller (time, host, sequence, id), texts compared at their first differing character, or the same one and an earlier place |
| CausalOrder.OrderKeepsPrecedence | packages/python/chp_core/ordering.py:65-81 | without a cycle every event comes after the earlier ones of its host and after the first event of the invocation that caused it |
| CausalOrder.OnlyOrder | packages/python/chp_core/ordering.py:39-99 | without a cycle exactly one arrangement of the events has these two properties: the one returned |
| CausalOrder.UnrelatedByTime | packages/python/chp_core/ordering.py:29-36 | events of different hosts without causes come out by time, and by host at one time |
| OrderingOfSets.OrderIsOfTheSet | packages/python/chp_core/ordering.py:39-99 | two listings of the same events with distinct keys are put into the same order, cycles or not |
| OrderingOfSets.SameOrderSameListing | packages/python/chp_core/ordering.py:29-36 | two listings without cycles that have the same keys place by place and come out in the same order are the same listing |
| OrderingOfSets.SwappedTiesDiffer | packages/python/chp_core/ordering.py:29-36 | swapping two different events of one key changes the order, where neither listing has a cycle |
| OrderEvents.FirstOfInvocation | packages/python/chp_core/ordering.py:47-55 | the least event by key of each named invocation, and of no other |
| OrderEvents.BuildGraph | packages/python/chp_core/ordering.py:57-81 | the successor lists hold exactly the edges to the next event of a host and from a cause, and the counters are the in-degrees |
| OrderEvents.EmitReady | packages/python/chp_core/ordering.py:83-93 | the loop returns, in turn, the least ready event by key, until nothing is ready |
| OrderEvents.OrderPlaces | packages/python/chp_core/ordering.py:39-99 | the whole procedure returns a permutation of the places that puts the least key first among what is not held back, and without a cycle keeps all precedence, said by the fields of the events |

## Left out

- The rest of `chp_core` (event hashing, signing, mandates, gates, store heads beyond their Merkle tree) is not part of this model.
- Network, subprocess, SQLite and file-system calls are steps with arbitrary results; what git prints is modelled only for the log format.
- Clock readings are parameters; job durations, start times and every other reported duration are not modelled.
- Exceptions outside the kinds the code catches, and task cancellation, which leave the retry and workflow loops without a record.
- JobStore.Store.MarkDone: the error is the text that is stored; cutting a caught exception's text to 500 characters and encoding results as JSON are not modelled.
- JobRuns.EveryRunIsSafe: one live process; several are the subject of JobFleet. Submit's checks before a row is created (no host, allow list) are not modelled, because they touch no state.
- Circuit.RateBound: requests one after another; CircuitConcurrent.ConcurrentRateBound covers several at once.
- Circuit.HttpClient.Request: allow list, headers, response body and emitted events are not modelled.
- Stream.Collect: the gate and the circuit records around the loop are those of Circuit; JSON of unexpected types inside a recognised event is not modelled.
- The multi-line data rule of section 9.2 of the WHATWG HTML Living Standard: the code reads one `data:` line at a time, and only that is modelled.
- GitLog.LogRoundTrip: git's own clean-up of a commit message before it is stored is not modelled; the commits are taken as stored.
- GitReconcile.CommitIsFound: staging and creating the commit are not modelled; what git makes of a message is said by a relation between message and subject (blanks trimmed, first paragraph folded).
- GitDiscover.DiscoverRepos: `sorted` on the result, and the check that the root is a directory, are not modelled.
- SessionTree.CompleteWithoutDetours: a sufficient condition on the graph; whether a session is lost depends on the order of the children, for which SessionTree.CompleteUnlessHidden is exact.
- SessionTree.TreePrinter.RenderNode: tool counts, spawn counts and chain icons on a line are not modelled.
- DevSessions.SessionStore.Open: the issue queries, baseline scan and plan before the file is checked are not modelled.
- DevSessions.SessionStore.Close: a file has one list of issues; files with only one of `issue_id` and `issue_ids`, which open never writes, are not modelled, nor is the final scan.
- DevSessions.SessionStore.Reap: the report of old sessions left open is not modelled.
- Bootstrap.Execute: emitted events, reason texts, command output and exit codes other than zero or not are not modelled.
- AuditStats.Stats: the error rate and the descending sort of the capability list are not modelled.
- Workflow.Composition.Run: step payloads, durations and correlation metadata are not modelled.
- Merkle.ConsistencyIff: SHA-256 is any function with results of 32 bytes, and the bytes are compared only where two hashed strings do not collide; decoding entries from hex is not modelled.
- OrderEvents.OrderPlaces: the heap is a set from which the least element is taken, and sorting is the library's; two listed events are taken to be different objects.
- Static checks, report formats, dashboard pages and model-library calls: display or one-branch facts.
