/**
 * Dev-session files, one per worktree: open, close and reap, first as undivided bodies and
 * then interleaved at their awaits.
 */
module DevSessions {
  import opened Seqs

  datatype Issue = Issue(id: string)

  // Where a session is stored: by the hash of the repository path, or in the global file.
  datatype Key = Global | Keyed(hash: string)

  // A session file.  `started` is the opening time in seconds, absent when missing or unparsable.
  datatype File = Unreadable | Session(issues: seq<Issue>, started: Option<int>, repo: string)

  type Files = map<Key, File>

  // An open names at least one issue, and a fresh session for other issues keeps the file.
  datatype OpenReply = NoIssues | InUse | Accepted

  const STALE_SECONDS := 24 * 3600

  /** An empty repository path means the global file, any other one its own file. */
  function SessionFile(hash: string -> string, repo: string): Key
  {
    if repo == "" then Global else Keyed(hash(repo))
  }

  predicate Expired(f: File, now: int)
    requires f.Session?
  {
    f.started.Some? && now - f.started.value > STALE_SECONDS
  }

  /** A fresh session for a different set of issues holds the file. */
  predicate Conflict(files: Files, k: Key, issues: seq<Issue>, now: int)
  {
    k in files && files[k].Session? && files[k].issues != []
    && Elements(files[k].issues) != Elements(issues) && !Expired(files[k], now)
  }

  /** The await-free end of open: check, then write. */
  function Opened(hash: string -> string, files: Files, repo: string, issues: seq<Issue>, takeover: bool,
                  now: int): Files
  {
    var k := SessionFile(hash, repo);
    if !takeover && Conflict(files, k, issues, now) then files
    else files[k := Session(issues, Some(now), repo)]
  }

  /** Close can read the session it is to close. */
  predicate Closable(files: Files, k: Key)
  {
    k in files && files[k].Session? && files[k].issues != []
  }

  /** Files under a hash were written for a repository with that hash. */
  ghost predicate WellKeyed(hash: string -> string, files: Files)
  {
    forall k :: k in files && k.Keyed? && files[k].Session? ==> SessionFile(hash, files[k].repo) == k
  }

  /** Every issue of the session in `k` is closed. */
  ghost predicate AllClosed(files: Files, k: Key, closed: Issue -> bool)
  {
    Closable(files, k) && forall i :: i in files[k].issues ==> closed(i)
  }

  /** The file of a repository: the global one for the empty path, else the one under the hash of the path. */
  ghost function KeyOf(hash: string -> string, repo: string): Key
  {
    if |repo| > 0 then Keyed(hash(repo)) else Global
  }

  /** A file that can be read and names at least one issue. */
  ghost predicate ReadableSession(files: Files, k: Key)
  {
    k in files && match files[k] case Unreadable => false case Session(issues, _, _) => |issues| > 0
  }

  /** It was opened for another set of issues, at most 86400 seconds ago or at a time that cannot be read. */
  ghost predicate HeldByOthers(files: Files, k: Key, issues: seq<Issue>, now: int)
  {
    && ReadableSession(files, k) && !(forall i :: i in files[k].issues <==> i in issues)
    && match files[k].started case None => true case Some(at) => now - at <= 86400
  }

  lemma {:induction false} ConflictMeaning(files: Files, k: Key, issues: seq<Issue>, now: int)
    ensures Conflict(files, k, issues, now) <==> HeldByOthers(files, k, issues, now)
    ensures Closable(files, k) <==> ReadableSession(files, k)
  {
    if ReadableSession(files, k) {
      var a, b := Elements(files[k].issues), Elements(issues);
      assert forall i :: (i in a <==> i in files[k].issues) && (i in b <==> i in issues);
      if forall i :: i in files[k].issues <==> i in issues {
        assert forall i :: i in a <==> i in b;
      }
    }
  }

  class SessionStore {
    const hash: string -> string
    var files: Files

    method Open(repo: string, issues: seq<Issue>, takeover: bool, now: int) returns (reply: OpenReply)
      modifies this
      ensures reply == NoIssues <==> issues == []
      ensures reply == InUse <==>
                issues != [] && !takeover && HeldByOthers(old(files), KeyOf(hash, repo), issues, now)
      ensures files == if issues == [] then old(files) else Opened(hash, old(files), repo, issues, takeover, now)
      ensures files == if reply == Accepted then old(files)[KeyOf(hash, repo) := Session(issues, Some(now), repo)]
                       else old(files)
    {
      if issues == [] {
        return NoIssues;
      }
      ConflictMeaning(files, SessionFile(hash, repo), issues, now);
      var k := SessionFile(hash, repo);
      if !takeover && k in files && files[k].Session? {
        var existing := files[k];
        if existing.issues != [] && Elements(existing.issues) != Elements(issues) {
          if !(existing.started.Some? && now - existing.started.value > STALE_SECONDS) {
            return InUse;
          }
        }
      }
      files := files[k := Session(issues, Some(now), repo)];
      reply := Accepted;
    }

    method Close(repo: string) returns (closed: bool)
      modifies this
      ensures closed <==> Closable(old(files), SessionFile(hash, repo))
      ensures closed <==> ReadableSession(old(files), KeyOf(hash, repo))
      ensures files == if closed then old(files) - {KeyOf(hash, repo)} else old(files)
    {
      var k := SessionFile(hash, repo);
      ConflictMeaning(files, k, [], 0);
      closed := k in files && files[k].Session? && files[k].issues != [];
      if closed {
        files := files - {k};
      }
    }

    /**
     * Reap run as one undivided body over the listed keys: what goes is exactly the listed
     * sessions whose every issue is closed; the global file is never touched.
     */
    method Reap(listed: seq<Key>, closed: Issue -> bool)
      requires WellKeyed(hash, files) && forall k :: k in listed ==> k.Keyed?
      modifies this
      ensures forall k :: k in files <==> k in old(files) && !(k in listed && AllClosed(old(files), k, closed))
      ensures forall k :: k in old(files) && k !in files ==>
                ReadableSession(old(files), k) && forall i :: i in old(files)[k].issues ==> closed(i)
      ensures forall k :: k in listed && ReadableSession(old(files), k) && k in files ==>
                exists i :: i in old(files)[k].issues && !closed(i)
      ensures forall k :: k in files ==> files[k] == old(files)[k]
      ensures Global in old(files) ==> Global in files
    {
      var i := 0;
      while i < |listed|
        invariant i <= |listed|
        invariant forall k :: k in files <==> k in old(files) && !(k in listed[..i] && AllClosed(old(files), k, closed))
        invariant forall k :: k in files ==> files[k] == old(files)[k]
      {
        var k := listed[i];
        assert listed[..i + 1] == listed[..i] + [k];
        assert k in listed;
        if k in files && files[k].Session? && files[k].issues != [] {
          var issues := files[k].issues;
          var allClosed := true;
          for j := 0 to |issues|
            invariant allClosed <==> forall n :: 0 <= n < j ==> closed(issues[n])
          {
            if !closed(issues[j]) {
              allClosed := false;
            }
          }
          if allClosed {
            var _ := Close(files[k].repo);
          }
        }
        i := i + 1;
      }
      assert listed[..i] == listed;
    }
  }
}
