/**
 * Repository discovery: a depth-pruned, count-capped walk over a directory graph, which
 * symbolic links may make cyclic.
 */
module GitDiscover {
  import opened Seqs

  datatype Dir = Dir(inode: nat)

  // One name that os.walk lists among the directories of a directory.
  datatype Entry = Entry(name: string, target: Dir, link: bool)

  // What os.walk is run with: the directory lists, and followlinks.
  datatype Tree = Tree(list: Dir -> seq<Entry>, follow: bool)

  // Components below the root.
  type Path = seq<string>

  datatype Visit = Visit(path: Path, dir: Dir)

  predicate HasGit(t: Tree, d: Dir)
  {
    exists e :: e in t.list(d) && e.name == ".git"
  }

  predicate Kept(name: string)
  {
    !("." <= name) && name != "node_modules" && name != ".venv" && name != "venv" && name != "__pycache__"
        && name != ".cache"
  }

  /** os.path.relpath(...).count(os.sep): the root and its children both count 0. */
  function Depth(path: Path): nat
  {
    if |path| <= 1 then 0 else |path| - 1
  }

  /** The entries the walk goes on into from a directory that is neither a repository nor pruned. */
  function Into(t: Tree, path: Path, entries: seq<Entry>): (r: seq<Visit>)
    ensures forall v :: v in r ==> |v.path| == |path| + 1
  {
    if entries == [] then []
    else
      var e := entries[0];
      (if Kept(e.name) && (t.follow || !e.link) then [Visit(path + [e.name], e.target)] else [])
          + Into(t, path, entries[1..])
  }

  function Below(t: Tree, maxDepth: int, v: Visit): (r: seq<Visit>)
    ensures forall w :: w in r ==> |w.path| == |v.path| + 1
    ensures |v.path| >= Levels(maxDepth) ==> r == []
  {
    if HasGit(t, v.dir) || Depth(v.path) >= maxDepth - 1 then [] else Into(t, v.path, t.list(v.dir))
  }

  /** The deepest level the walk looks at. */
  function Levels(maxDepth: int): nat
  {
    if maxDepth <= 1 then 0 else maxDepth
  }

  function Fuel(maxDepth: int, path: Path): nat
  {
    if |path| > Levels(maxDepth) then 0 else Levels(maxDepth) + 1 - |path|
  }

  function MaxFuel(maxDepth: int, todo: seq<Visit>): nat
  {
    if todo == [] then 0
    else
      var f, rest := Fuel(maxDepth, todo[0].path), MaxFuel(maxDepth, todo[1..]);
      if f > rest then f else rest
  }

  lemma {:induction false} MaxFuelBound(maxDepth: int, todo: seq<Visit>, n: nat)
    requires forall v :: v in todo ==> Fuel(maxDepth, v.path) <= n
    ensures MaxFuel(maxDepth, todo) <= n
  {
    if todo != [] {
      assert todo[0] in todo;
      MaxFuelBound(maxDepth, todo[1..], n);
    }
  }

  lemma {:induction false} BelowFuel(t: Tree, maxDepth: int, v: Visit)
    ensures Below(t, maxDepth, v) != [] ==> MaxFuel(maxDepth, Below(t, maxDepth, v)) < Fuel(maxDepth, v.path)
  {
    if Below(t, maxDepth, v) != [] {
      MaxFuelBound(maxDepth, Below(t, maxDepth, v), Fuel(maxDepth, v.path) - 1);
    }
  }

  /** Every directory the uncapped walk visits from `todo`, in order. */
  function Walk(t: Tree, maxDepth: int, todo: seq<Visit>): seq<Visit>
    decreases MaxFuel(maxDepth, todo), 1, |todo|
  {
    if todo == [] then [] else WalkFrom(t, maxDepth, todo[0]) + Walk(t, maxDepth, todo[1..])
  }

  function WalkFrom(t: Tree, maxDepth: int, v: Visit): seq<Visit>
    decreases Fuel(maxDepth, v.path), 0, 0
  {
    BelowFuel(t, maxDepth, v);
    if Below(t, maxDepth, v) == [] then [v] else [v] + Walk(t, maxDepth, Below(t, maxDepth, v))
  }

  function Repos(t: Tree, visits: seq<Visit>): seq<Path>
  {
    if visits == [] then []
    else (if HasGit(t, visits[0].dir) then [visits[0].path] else []) + Repos(t, visits[1..])
  }

  /** All repositories the walk would report without a cap. */
  function AllRepos(t: Tree, maxDepth: int, root: Dir): seq<Path>
  {
    Repos(t, Walk(t, maxDepth, [Visit([], root)]))
  }

  lemma {:induction false} WalkConcat(t: Tree, maxDepth: int, a: seq<Visit>, b: seq<Visit>)
    ensures Walk(t, maxDepth, a + b) == Walk(t, maxDepth, a) + Walk(t, maxDepth, b)
    decreases |a|
  {
    if a == [] {
      assert a + b == b;
    } else {
      assert (a + b)[1..] == a[1..] + b;
      WalkConcat(t, maxDepth, a[1..], b);
    }
  }

  lemma {:induction false} WalkStep(t: Tree, maxDepth: int, todo: seq<Visit>)
    requires todo != []
    ensures Walk(t, maxDepth, todo) == [todo[0]] + Walk(t, maxDepth, Below(t, maxDepth, todo[0]) + todo[1..])
  {
    var below := Below(t, maxDepth, todo[0]);
    WalkConcat(t, maxDepth, below, todo[1..]);
    if below == [] {
      assert below + todo[1..] == todo[1..];
    }
  }

  function Remaining(t: Tree, maxDepth: int, todo: seq<Visit>): seq<Path>
  {
    Repos(t, Walk(t, maxDepth, todo))
  }

  lemma {:induction false} RemainingStep(t: Tree, maxDepth: int, todo: seq<Visit>, next: seq<Visit>)
    requires todo != [] && next == Below(t, maxDepth, todo[0]) + todo[1..]
    ensures |Walk(t, maxDepth, todo)| == 1 + |Walk(t, maxDepth, next)|
    ensures Remaining(t, maxDepth, todo)
              == (if HasGit(t, todo[0].dir) then [todo[0].path] else []) + Remaining(t, maxDepth, next)
  {
    WalkStep(t, maxDepth, todo);
    var visits := [todo[0]] + Walk(t, maxDepth, next);
    assert visits[1..] == Walk(t, maxDepth, next);
  }

  /** The three branches of the loop body. */
  lemma {:induction false} Branches(t: Tree, maxDepth: int, todo: seq<Visit>)
    requires todo != []
    ensures var v, rest := todo[0], todo[1..];
            if HasGit(t, v.dir) then
              |Walk(t, maxDepth, rest)| < |Walk(t, maxDepth, todo)| &&
              Remaining(t, maxDepth, todo) == [v.path] + Remaining(t, maxDepth, rest)
            else if Depth(v.path) >= maxDepth - 1 then
              |Walk(t, maxDepth, rest)| < |Walk(t, maxDepth, todo)|
                  && Remaining(t, maxDepth, todo) == Remaining(t, maxDepth, rest)
            else
              var next := Into(t, v.path, t.list(v.dir)) + rest;
              |Walk(t, maxDepth, next)| < |Walk(t, maxDepth, todo)|
                  && Remaining(t, maxDepth, todo) == Remaining(t, maxDepth, next)
  {
    var next := Below(t, maxDepth, todo[0]) + todo[1..];
    RemainingStep(t, maxDepth, todo, next);
    assert Below(t, maxDepth, todo[0]) == [] ==> next == todo[1..];
  }

  /** The loop of the capability; `sorted` on the result is left out. */
  method DiscoverRepos(t: Tree, maxDepth: int, maxRepos: int, root: Dir) returns (repos: seq<Path>, truncated: bool)
    ensures var all, cap := AllRepos(t, maxDepth, root), if maxRepos < 1 then 1 else maxRepos;
            && (truncated <==> |all| >= cap)
            && repos == if truncated then all[..cap] else all
    ensures forall p :: p in repos ==> RepoAt(t, maxDepth, root, p)
    ensures !truncated ==> forall p :: RepoAt(t, maxDepth, root, p) ==> p in repos
  {
    forall p ensures p in AllRepos(t, maxDepth, root) <==> RepoAt(t, maxDepth, root, p) {
      ReportsPlainly(t, maxDepth, root, p);
    }
    repos, truncated := [], false;
    var todo := [Visit([], root)];
    ghost var all := AllRepos(t, maxDepth, root);
    while todo != []
      invariant repos + Remaining(t, maxDepth, todo) == all
      invariant repos == [] || |repos| < maxRepos
      decreases |Walk(t, maxDepth, todo)|
    {
      Branches(t, maxDepth, todo);
      var v := todo[0];
      if HasGit(t, v.dir) {
        Snoc(repos, v.path, Remaining(t, maxDepth, todo[1..]));
        repos := repos + [v.path];
        todo := todo[1..];
        if |repos| >= maxRepos {
          truncated := true;
          return;
        }
      } else if Depth(v.path) >= maxDepth - 1 {
        todo := todo[1..];
      } else {
        todo := Into(t, v.path, t.list(v.dir)) + todo[1..];
      }
    }
    assert Walk(t, maxDepth, []) == [];
  }

  lemma {:induction false} Snoc(a: seq<Path>, x: Path, b: seq<Path>)
    ensures a + ([x] + b) == a + [x] + b
  {
  }

  // ---- Which directories are visited, said without the walk ------------------------------------

  /** One hop the walk may take. */
  ghost predicate Hop(t: Tree, d: Dir, name: string, d': Dir)
  {
    exists e :: e in t.list(d) && e.name == name && e.target == d' && Kept(name) && (t.follow || !e.link)
  }

  /** `names` lead through `dirs`, no hop hidden, skipped or out of a repository. */
  ghost predicate Chain(t: Tree, dirs: seq<Dir>, names: Path)
  {
    && |dirs| == |names| + 1
    && forall i :: 0 <= i < |names| ==> Hop(t, dirs[i], names[i], dirs[i + 1]) && !HasGit(t, dirs[i])
  }

  lemma {:induction false} IntoHops(t: Tree, path: Path, entries: seq<Entry>, name: string, d: Dir)
    ensures Visit(path + [name], d) in Into(t, path, entries) <==>
              exists e :: e in entries && e.name == name && e.target == d && Kept(name) && (t.follow || !e.link)
  {
    if entries != [] {
      IntoHops(t, path, entries[1..], name, d);
      var e := entries[0];
      assert entries == [e] + entries[1..];
      assert path + [name] == path + [e.name] ==> name == e.name by {
        assert (path + [name])[|path|] == name && (path + [e.name])[|path|] == e.name;
      }
    }
  }

  lemma {:induction false} IntoShape(t: Tree, path: Path, entries: seq<Entry>, v: Visit)
    requires v in Into(t, path, entries)
    ensures |v.path| == |path| + 1 && v.path == path + [v.path[|path|]]
  {
    if v in Into(t, path, entries[1..]) {
      IntoShape(t, path, entries[1..], v);
    }
  }

  /** A visited directory is at the end of a chain from where the walk started. */
  ghost predicate Visited(t: Tree, maxDepth: int, v: Visit, w: Visit, dirs: seq<Dir>, names: Path)
  {
    && Chain(t, dirs, names) && dirs[0] == v.dir && dirs[|names|] == w.dir && w.path == v.path + names
    && (names != [] ==> |w.path| <= Levels(maxDepth))
  }

  lemma {:induction false} WalkFromSound(t: Tree, maxDepth: int, v: Visit, w: Visit)
    returns (dirs: seq<Dir>, names: Path)
    requires w in WalkFrom(t, maxDepth, v)
    ensures Visited(t, maxDepth, v, w, dirs, names)
    decreases Fuel(maxDepth, v.path), 0, 0
  {
    if w == v {
      dirs, names := [v.dir], [];
      assert v.path + names == v.path;
    } else {
      BelowFuel(t, maxDepth, v);
      var below := Below(t, maxDepth, v);
      var child;
      child, dirs, names := WalkSound(t, maxDepth, below, w);
      StepSound(t, maxDepth, v, child, w, dirs, names);
      dirs, names := [v.dir] + dirs, [child.path[|v.path|]] + names;
    }
  }

  /** The directories gone into are one permitted hop away, and within the levels. */
  lemma {:induction false} BelowHops(t: Tree, maxDepth: int, v: Visit, child: Visit)
    requires child in Below(t, maxDepth, v)
    ensures |child.path| == |v.path| + 1 <= Levels(maxDepth)
    ensures child.path == v.path + [child.path[|v.path|]]
    ensures Hop(t, v.dir, child.path[|v.path|], child.dir) && !HasGit(t, v.dir)
  {
    IntoShape(t, v.path, t.list(v.dir), child);
    IntoHops(t, v.path, t.list(v.dir), child.path[|v.path|], child.dir);
  }

  lemma {:induction false} HopsBelow(t: Tree, maxDepth: int, v: Visit, name: string, d: Dir)
    requires Hop(t, v.dir, name, d) && !HasGit(t, v.dir) && |v.path| < Levels(maxDepth)
    ensures Visit(v.path + [name], d) in Below(t, maxDepth, v)
  {
    IntoHops(t, v.path, t.list(v.dir), name, d);
  }

  lemma {:induction false} StepSound(t: Tree, maxDepth: int, v: Visit, child: Visit, w: Visit, dirs: seq<Dir>,
                                     names: Path)
    requires child in Below(t, maxDepth, v) && Visited(t, maxDepth, child, w, dirs, names)
    ensures |child.path| == |v.path| + 1
    ensures Visited(t, maxDepth, v, w, [v.dir] + dirs, [child.path[|v.path|]] + names)
  {
    BelowHops(t, maxDepth, v, child);
    var name := child.path[|v.path|];
    ChainCons(t, v.dir, name, dirs, names);
    PathCons(v.path, name, names);
  }

  lemma {:induction false} PathCons(path: Path, name: string, names: Path)
    ensures path + ([name] + names) == path + [name] + names
  {
  }

  lemma {:induction false} ChainCons(t: Tree, d: Dir, name: string, dirs: seq<Dir>, names: Path)
    requires Chain(t, dirs, names) && Hop(t, d, name, dirs[0]) && !HasGit(t, d)
    ensures Chain(t, [d] + dirs, [name] + names)
  {
  }

  lemma {:induction false} WalkSound(t: Tree, maxDepth: int, todo: seq<Visit>, w: Visit)
    returns (v: Visit, dirs: seq<Dir>, names: Path)
    requires w in Walk(t, maxDepth, todo)
    ensures v in todo && Visited(t, maxDepth, v, w, dirs, names)
    decreases MaxFuel(maxDepth, todo), 1, |todo|
  {
    if w in WalkFrom(t, maxDepth, todo[0]) {
      v := todo[0];
      dirs, names := WalkFromSound(t, maxDepth, v, w);
    } else {
      v, dirs, names := WalkSound(t, maxDepth, todo[1..], w);
    }
  }

  lemma {:induction false} WalkComplete(t: Tree, maxDepth: int, todo: seq<Visit>, v: Visit, w: Visit)
    requires v in todo && w in WalkFrom(t, maxDepth, v)
    ensures w in Walk(t, maxDepth, todo)
    decreases |todo|
  {
    if v != todo[0] {
      assert v in todo[1..];
      WalkComplete(t, maxDepth, todo[1..], v, w);
    }
  }

  lemma {:induction false} ChainTail(t: Tree, dirs: seq<Dir>, names: Path)
    requires Chain(t, dirs, names) && names != []
    ensures Chain(t, dirs[1..], names[1..])
  {
    forall i | 0 <= i < |names[1..]|
      ensures Hop(t, dirs[1..][i], names[1..][i], dirs[1..][i + 1]) && !HasGit(t, dirs[1..][i])
    {
      assert Hop(t, dirs[i + 1], names[i + 1], dirs[i + 1 + 1]);
    }
  }

  /** Every chain within the levels is walked. */
  lemma {:induction false} WalkFromComplete(t: Tree, maxDepth: int, v: Visit, dirs: seq<Dir>, names: Path)
    requires Chain(t, dirs, names) && dirs[0] == v.dir && |v.path| + |names| <= Levels(maxDepth)
    ensures Visit(v.path + names, dirs[|names|]) in WalkFrom(t, maxDepth, v)
    decreases |names|
  {
    if names == [] {
      assert v.path + names == v.path;
    } else {
      var child := Visit(v.path + [names[0]], dirs[1]);
      assert Hop(t, dirs[0], names[0], dirs[0 + 1]);
      HopsBelow(t, maxDepth, v, names[0], dirs[1]);
      ChainTail(t, dirs, names);
      WalkFromComplete(t, maxDepth, child, dirs[1..], names[1..]);
      PathCons(v.path, names[0], names[1..]);
      assert [names[0]] + names[1..] == names;
      WalkComplete(t, maxDepth, Below(t, maxDepth, v), child, Visit(v.path + names, dirs[|names|]));
    }
  }

  lemma {:induction false} ReposIn(t: Tree, visits: seq<Visit>, p: Path)
    ensures p in Repos(t, visits) <==> exists d :: Visit(p, d) in visits && HasGit(t, d)
  {
    if visits != [] {
      ReposIn(t, visits[1..], p);
      assert visits == [visits[0]] + visits[1..];
      if p == visits[0].path && HasGit(t, visits[0].dir) {
        assert Visit(p, visits[0].dir) in visits;
      }
    }
  }

  // ---- Main results ------------------------------------------------------------------------------

  /** A repository at `names`, reached without a hidden, skipped or repository directory on the way. */
  ghost predicate Discoverable(t: Tree, root: Dir, names: Path)
  {
    exists dirs :: Chain(t, dirs, names) && dirs[0] == root && HasGit(t, dirs[|names|])
  }

  /**
   * The uncapped walk reports exactly the discoverable repositories at levels 0 to
   * max_depth, or only at the root when max_depth is at most 1.
   */
  lemma {:induction false} ReportsExactly(t: Tree, maxDepth: int, root: Dir, names: Path)
    ensures names in AllRepos(t, maxDepth, root) <==> Discoverable(t, root, names) && |names| <= Levels(maxDepth)
  {
    var start := Visit([], root);
    var visits := Walk(t, maxDepth, [start]);
    ReposIn(t, visits, names);
    assert [start][1..] == [] && Walk(t, maxDepth, []) == [];
    assert visits == WalkFrom(t, maxDepth, start) + [];
    if names in AllRepos(t, maxDepth, root) {
      var d :| Visit(names, d) in visits && HasGit(t, d);
      var dirs, suffix := WalkFromSound(t, maxDepth, start, Visit(names, d));
      assert [] + suffix == suffix;
    }
    if Discoverable(t, root, names) && |names| <= Levels(maxDepth) {
      var dirs :| Chain(t, dirs, names) && dirs[0] == root && HasGit(t, dirs[|names|]);
      WalkFromComplete(t, maxDepth, start, dirs, names);
      assert [] + names == names;
    }
  }

  /** Neither hidden nor one of the five names that are skipped. */
  ghost predicate PlainName(name: string)
  {
    && (name == "" || name[0] != '.')
    && name != "node_modules" && name != ".venv" && name != "venv" && name != "__pycache__" && name != ".cache"
  }

  /** The name is listed in the directory, for one that os.walk goes into. */
  ghost predicate Lists(t: Tree, d: Dir, name: string, d': Dir)
  {
    exists e :: e in t.list(d) && e.name == name && e.target == d' && (t.follow || !e.link)
  }

  /** `names` are listed one below the other. */
  ghost predicate ListedChain(t: Tree, dirs: seq<Dir>, names: Path)
  {
    && |dirs| == |names| + 1
    && forall i :: 0 <= i < |names| ==> Lists(t, dirs[i], names[i], dirs[i + 1])
  }

  /** A directory with an entry ".git", at this path and within the levels, none of those above it having one. */
  ghost predicate RepoAt(t: Tree, maxDepth: int, root: Dir, names: Path)
  {
    && |names| <= (if maxDepth >= 2 then maxDepth else 0)
    && (forall i :: 0 <= i < |names| ==> PlainName(names[i]))
    && exists dirs :: ListedChain(t, dirs, names) && dirs[0] == root && GitOnlyAtEnd(t, dirs)
  }

  ghost predicate NoGit(t: Tree, d: Dir)
  {
    forall e :: e in t.list(d) ==> e.name != ".git"
  }

  ghost predicate GitOnlyAtEnd(t: Tree, dirs: seq<Dir>)
  {
    dirs != [] && !NoGit(t, dirs[|dirs| - 1]) && forall i :: 0 <= i < |dirs| - 1 ==> NoGit(t, dirs[i])
  }

  lemma {:induction false} HopMeaning(t: Tree, d: Dir, name: string, d': Dir)
    ensures Hop(t, d, name, d') <==> PlainName(name) && Lists(t, d, name, d')
    ensures HasGit(t, d) <==> !NoGit(t, d)
  {
  }

  lemma {:induction false} ChainMeaning(t: Tree, dirs: seq<Dir>, names: Path)
    requires |dirs| == |names| + 1
    ensures Chain(t, dirs, names) && HasGit(t, dirs[|names|]) <==>
            ListedChain(t, dirs, names) && GitOnlyAtEnd(t, dirs)
            && forall i :: 0 <= i < |names| ==> PlainName(names[i])
  {
    forall i | 0 <= i < |names|
      ensures Hop(t, dirs[i], names[i], dirs[i + 1]) && !HasGit(t, dirs[i]) <==>
              PlainName(names[i]) && Lists(t, dirs[i], names[i], dirs[i + 1]) && NoGit(t, dirs[i])
    {
      HopMeaning(t, dirs[i], names[i], dirs[i + 1]);
    }
    HopMeaning(t, dirs[|names|], "", dirs[|names|]);
    if ListedChain(t, dirs, names) && GitOnlyAtEnd(t, dirs) && forall i :: 0 <= i < |names| ==> PlainName(names[i]) {
      forall i | 0 <= i < |names| ensures Hop(t, dirs[i], names[i], dirs[i + 1]) && !HasGit(t, dirs[i]) {
        assert Lists(t, dirs[i], names[i], dirs[i + 1]) && NoGit(t, dirs[i]);
      }
    }
    if Chain(t, dirs, names) && HasGit(t, dirs[|names|]) {
      forall i | 0 <= i < |names|
        ensures PlainName(names[i]) && Lists(t, dirs[i], names[i], dirs[i + 1]) && NoGit(t, dirs[i])
      {
        assert Hop(t, dirs[i], names[i], dirs[i + 1]);
      }
    }
  }

  /** The paths reported are those of the repositories, said by the names and the listings alone. */
  lemma {:induction false} ReportsPlainly(t: Tree, maxDepth: int, root: Dir, names: Path)
    ensures names in AllRepos(t, maxDepth, root) <==> RepoAt(t, maxDepth, root, names)
  {
    ReportsExactly(t, maxDepth, root, names);
    if dirs :| Chain(t, dirs, names) && dirs[0] == root && HasGit(t, dirs[|names|]) {
      ChainMeaning(t, dirs, names);
    }
    if RepoAt(t, maxDepth, root, names) {
      var dirs :| ListedChain(t, dirs, names) && dirs[0] == root && GitOnlyAtEnd(t, dirs);
      ChainMeaning(t, dirs, names);
    }
  }

  /** Names within one directory are distinct, as a file system guarantees. */
  ghost predicate UniqueNames(t: Tree)
  {
    forall d, i, j :: 0 <= i < j < |t.list(d)| ==> t.list(d)[i].name != t.list(d)[j].name
  }

  /** Two chains with the same names go through the same directories. */
  lemma {:induction false} ChainUnique(t: Tree, dirs: seq<Dir>, names: Path, dirs': seq<Dir>, names': Path, i: nat)
    requires UniqueNames(t) && Chain(t, dirs, names) && Chain(t, dirs', names') && dirs[0] == dirs'[0]
    requires i <= |names| && i <= |names'| && names[..i] == names'[..i]
    ensures dirs[i] == dirs'[i]
  {
    if i > 0 {
      assert names[..i - 1] == names[..i][..i - 1] && names'[..i - 1] == names'[..i][..i - 1];
      ChainUnique(t, dirs, names, dirs', names', i - 1);
      assert names[..i][i - 1] == names'[..i][i - 1];
      assert Hop(t, dirs[i - 1], names[i - 1], dirs[i - 1 + 1])
          && Hop(t, dirs'[i - 1], names'[i - 1], dirs'[i - 1 + 1]);
    }
  }

  /** No reported repository lies under another reported one. */
  lemma {:induction false} NoNestedReports(t: Tree, maxDepth: int, root: Dir, outer: Path, inner: Path)
    requires UniqueNames(t)
    requires outer in AllRepos(t, maxDepth, root) && inner in AllRepos(t, maxDepth, root) && outer <= inner
    ensures outer == inner
  {
    ReportsExactly(t, maxDepth, root, outer);
    ReportsExactly(t, maxDepth, root, inner);
    var dirs :| Chain(t, dirs, outer) && dirs[0] == root && HasGit(t, dirs[|outer|]);
    var dirs' :| Chain(t, dirs', inner) && dirs'[0] == root && HasGit(t, dirs'[|inner|]);
    assert outer[..|outer|] == inner[..|outer|];
    ChainUnique(t, dirs, outer, dirs', inner, |outer|);
  }

  // ---- Each repository is reported once -----------------------------------------------------------

  function Paths(visits: seq<Visit>): (ps: seq<Path>)
    ensures |ps| == |visits|
    ensures forall i :: 0 <= i < |visits| ==> ps[i] == visits[i].path
  {
    if visits == [] then [] else [visits[0].path] + Paths(visits[1..])
  }

  lemma {:induction false} IntoNoDup(t: Tree, path: Path, entries: seq<Entry>)
    requires forall i, j :: 0 <= i < j < |entries| ==> entries[i].name != entries[j].name
    ensures NoDup(Paths(Into(t, path, entries)))
  {
    if entries != [] {
      var e, rest := entries[0], entries[1..];
      IntoNoDup(t, path, rest);
      var more := Into(t, path, rest);
      forall i | 0 <= i < |more| ensures more[i].path != path + [e.name] {
        assert more[i] in more;
        IntoShape(t, path, rest, more[i]);
        var name := more[i].path[|path|];
        IntoHops(t, path, rest, name, more[i].dir);
        assert (path + [e.name])[|path|] == e.name;
        var e' :| e' in rest && e'.name == name;
        var j :| 0 <= j < |rest| && rest[j] == e';
        assert entries[j + 1] == e';
      }
      if Into(t, path, entries) != more {
        NoDupCons(path + [e.name], Paths(more));
        assert Paths(Into(t, path, entries)) == [path + [e.name]] + Paths(more) by {
          assert Into(t, path, entries)[1..] == more;
        }
      }
    }
  }

  lemma {:induction false} NoDupCons(p: Path, ps: seq<Path>)
    requires NoDup(ps) && p !in ps
    ensures NoDup([p] + ps)
  {
  }

  lemma {:induction false} PathsConcat(a: seq<Visit>, b: seq<Visit>)
    ensures Paths(a + b) == Paths(a) + Paths(b)
  {
  }

  /** Walks from distinct paths of one length visit distinct paths. */
  lemma {:induction false} WalkNoDup(t: Tree, maxDepth: int, todo: seq<Visit>, n: nat)
    requires UniqueNames(t) && NoDup(Paths(todo)) && forall v :: v in todo ==> |v.path| == n
    ensures NoDup(Paths(Walk(t, maxDepth, todo)))
    decreases MaxFuel(maxDepth, todo), 1, |todo|
  {
    if todo != [] {
      var v, rest := todo[0], todo[1..];
      assert v in todo && Paths(todo)[1..] == Paths(rest);
      assert NoDup(Paths(rest)) by {
        assert forall i :: 0 <= i < |rest| ==> Paths(rest)[i] == Paths(todo)[i + 1];
      }
      WalkFromNoDup(t, maxDepth, v);
      WalkNoDup(t, maxDepth, rest, n);
      var a, b := WalkFrom(t, maxDepth, v), Walk(t, maxDepth, rest);
      PathsConcat(a, b);
      forall i, j | 0 <= i < |a| && 0 <= j < |b| ensures a[i].path != b[j].path {
        StartsDiffer(t, maxDepth, todo, n, a[i], b[j]);
      }
      DisjointNoDup(Paths(a), Paths(b));
    }
  }

  lemma {:induction false} StartsDiffer(t: Tree, maxDepth: int, todo: seq<Visit>, n: nat, w: Visit, w': Visit)
    requires todo != [] && NoDup(Paths(todo)) && forall v :: v in todo ==> |v.path| == n
    requires w in WalkFrom(t, maxDepth, todo[0]) && w' in Walk(t, maxDepth, todo[1..])
    ensures w.path != w'.path
  {
    var v := todo[0];
    var _, names := WalkFromSound(t, maxDepth, v, w);
    var v', _, names' := WalkSound(t, maxDepth, todo[1..], w');
    var k :| 0 <= k < |todo| - 1 && todo[1..][k] == v';
    assert todo[k + 1] == v' && v in todo && v' in todo;
    assert Paths(todo)[0] == v.path && Paths(todo)[k + 1] == v'.path;
    assert w.path[..n] == v.path && w'.path[..n] == v'.path;
  }

  lemma {:induction false} DisjointNoDup(a: seq<Path>, b: seq<Path>)
    requires NoDup(a) && NoDup(b) && forall i, j :: 0 <= i < |a| && 0 <= j < |b| ==> a[i] != b[j]
    ensures NoDup(a + b)
  {
  }

  lemma {:induction false} WalkFromNoDup(t: Tree, maxDepth: int, v: Visit)
    requires UniqueNames(t)
    ensures NoDup(Paths(WalkFrom(t, maxDepth, v)))
    decreases Fuel(maxDepth, v.path), 0, 0
  {
    BelowFuel(t, maxDepth, v);
    var below := Below(t, maxDepth, v);
    if below != [] {
      IntoNoDup(t, v.path, t.list(v.dir));
      WalkNoDup(t, maxDepth, below, |v.path| + 1);
      var more := Walk(t, maxDepth, below);
      forall i | 0 <= i < |more| ensures more[i].path != v.path {
        var child, _, names := WalkSound(t, maxDepth, below, more[i]);
        assert |more[i].path| > |v.path|;
      }
      NoDupCons(v.path, Paths(more));
      assert ([v] + more)[1..] == more;
    }
  }

  lemma {:induction false} ReposNoDup(t: Tree, visits: seq<Visit>)
    requires NoDup(Paths(visits))
    ensures NoDup(Repos(t, visits))
    ensures forall p :: p in Repos(t, visits) ==> p in Paths(visits)
  {
    if visits != [] {
      var rest := visits[1..];
      assert Paths(visits)[1..] == Paths(rest) && Paths(visits)[0] == visits[0].path;
      assert forall i :: 0 <= i < |rest| ==> Paths(rest)[i] == Paths(visits)[i + 1];
      ReposNoDup(t, rest);
      if HasGit(t, visits[0].dir) {
        NoDupCons(visits[0].path, Repos(t, rest));
      }
      assert Paths(visits) == [visits[0].path] + Paths(rest);
    }
  }

  lemma {:induction false} ReportedOnce(t: Tree, maxDepth: int, root: Dir)
    requires UniqueNames(t)
    ensures NoDup(AllRepos(t, maxDepth, root))
  {
    WalkNoDup(t, maxDepth, [Visit([], root)], 0);
    ReposNoDup(t, Walk(t, maxDepth, [Visit([], root)]));
  }

  // ---- Each directory is reported once ----------------------------------------------------------------

  /** At most one permitted hop leads into a directory, and none into the root: no link is followed twice. */
  ghost predicate OneWayIn(t: Tree, root: Dir)
  {
    && (forall d, n: string, d', n': string, to :: Hop(t, d, n, to) && Hop(t, d', n', to) ==> d == d' && n == n')
    && (forall d, n: string :: !Hop(t, d, n, root))
  }

  /** The path leads from the root to the directory by permitted hops. */
  ghost predicate LeadsTo(t: Tree, root: Dir, names: Path, d: Dir)
  {
    exists dirs :: Chain(t, dirs, names) && dirs[0] == root && dirs[|names|] == d
  }

  lemma {:induction false} ChainCut(t: Tree, dirs: seq<Dir>, names: Path, i: nat)
    requires Chain(t, dirs, names) && i <= |names|
    ensures Chain(t, dirs[..i + 1], names[..i]) && Chain(t, dirs[i..], names[i..])
  {
    var d, n := dirs[i..], names[i..];
    forall k | 0 <= k < |n| ensures Hop(t, d[k], n[k], d[k + 1]) && !HasGit(t, d[k]) {
      assert Hop(t, dirs[i + k], names[i + k], dirs[i + k + 1]);
    }
    var d', n' := dirs[..i + 1], names[..i];
    forall k | 0 <= k < i ensures Hop(t, d'[k], n'[k], d'[k + 1]) && !HasGit(t, d'[k]) {
      assert Hop(t, dirs[k], names[k], dirs[k + 1]);
    }
  }

  lemma {:induction false} ChainGlue(t: Tree, dirs: seq<Dir>, names: Path, dirs': seq<Dir>, names': Path)
    requires Chain(t, dirs, names) && Chain(t, dirs', names') && dirs[|names|] == dirs'[0]
    ensures Chain(t, dirs[..|names|] + dirs', names + names')
  {
    var d, n := dirs[..|names|] + dirs', names + names';
    forall k | 0 <= k < |n| ensures Hop(t, d[k], n[k], d[k + 1]) && !HasGit(t, d[k]) {
      if k < |names| {
        assert Hop(t, dirs[k], names[k], dirs[k + 1]);
      } else {
        assert Hop(t, dirs'[k - |names|], names'[k - |names|], dirs'[k - |names| + 1]);
      }
    }
  }

  /** Two chains from the root to one directory. */
  ghost predicate Meet(t: Tree, root: Dir, dp: seq<Dir>, p: Path, dq: seq<Dir>, q: Path)
  {
    Chain(t, dp, p) && Chain(t, dq, q) && dp[0] == dq[0] == root && dp[|p|] == dq[|q|]
  }

  /** The two come to that directory by different hops, or one starts there. */
  ghost predicate HopsDiffer(dp: seq<Dir>, p: Path, dq: seq<Dir>, q: Path)
    requires |dp| == |p| + 1 && |dq| == |q| + 1
  {
    && (p != [] || q != [])
    && (p == [] || q == [] || dp[|p| - 1] != dq[|q| - 1] || p[|p| - 1] != q[|q| - 1])
  }

  /** A chain from `d` to a repository. */
  ghost predicate LeadsOn(t: Tree, d: Dir, ds: seq<Dir>, s: Path)
  {
    Chain(t, ds, s) && ds[0] == d && HasGit(t, ds[|s|])
  }

  /** At most `most` permitted hops lead from `d` to a repository. */
  ghost predicate RepoWithin(t: Tree, d: Dir, most: int)
  {
    exists ds, s: Path :: LeadsOn(t, d, ds, s) && |s| <= most
  }

  ghost predicate Forks(t: Tree, root: Dir, levels: nat, dp: seq<Dir>, p: Path, dq: seq<Dir>, q: Path)
  {
    && Meet(t, root, dp, p, dq, q) && HopsDiffer(dp, p, dq, q)
    && RepoWithin(t, dp[|p|], levels - if |p| <= |q| then |q| else |p|)
  }

  /**
   * Two ways from the root fork off and meet again, and a repository lies at or below the meeting
   * point, within the levels by either way.
   */
  ghost predicate Fork(t: Tree, root: Dir, levels: nat)
  {
    exists dp, p: Path, dq, q: Path :: Forks(t, root, levels, dp, p, dq, q)
  }

  /** Where two different chains to one directory meet for good. */
  lemma {:induction false} Parting(t: Tree, root: Dir, dp: seq<Dir>, p: Path, dq: seq<Dir>, q: Path)
    returns (i: nat, j: nat)
    requires Meet(t, root, dp, p, dq, q) && p != q
    ensures i <= |p| && j <= |q| && p[i..] == q[j..]
    ensures Meet(t, root, dp[..i + 1], p[..i], dq[..j + 1], q[..j])
    ensures HopsDiffer(dp[..i + 1], p[..i], dq[..j + 1], q[..j])
  {
    i, j := |p|, |q|;
    while i > 0 && j > 0 && dp[i - 1] == dq[j - 1] && p[i - 1] == q[j - 1]
      invariant i <= |p| && j <= |q| && |p| - i == |q| - j
      invariant dp[i] == dq[j] && p[i..] == q[j..]
    {
      assert p[i - 1..] == [p[i - 1]] + p[i..] && q[j - 1..] == [q[j - 1]] + q[j..];
      i, j := i - 1, j - 1;
    }
    ChainCut(t, dp, p, i);
    ChainCut(t, dq, q, j);
    assert i == 0 ==> p == p[i..];
    assert j == 0 ==> q == q[j..];
  }

  /** Where only one way leads into each directory, as on a tree without links, no repository is reported twice. */
  lemma {:induction false} DirectoryReportedOnce(t: Tree, maxDepth: int, root: Dir, p: Path, q: Path, d: Dir)
    requires OneWayIn(t, root) && p in AllRepos(t, maxDepth, root) && q in AllRepos(t, maxDepth, root)
    requires LeadsTo(t, root, p, d) && LeadsTo(t, root, q, d)
    ensures p == q
  {
    var dp :| Chain(t, dp, p) && dp[0] == root && dp[|p|] == d;
    var dq :| Chain(t, dq, q) && dq[0] == root && dq[|q|] == d;
    if p != q {
      var i, j := Parting(t, root, dp, p, dq, q);
      OneWayMeet(t, root, dp[..i + 1], p[..i], dq[..j + 1], q[..j]);
    }
  }

  lemma {:induction false} OneWayMeet(t: Tree, root: Dir, dp: seq<Dir>, p: Path, dq: seq<Dir>, q: Path)
    requires OneWayIn(t, root) && Meet(t, root, dp, p, dq, q)
    ensures !HopsDiffer(dp, p, dq, q)
  {
    assert p != [] ==> Hop(t, dp[|p| - 1], p[|p| - 1], dp[|p| - 1 + 1]);
    assert q != [] ==> Hop(t, dq[|q| - 1], q[|q| - 1], dq[|q| - 1 + 1]);
  }

  /** The directory is reported under two paths. */
  ghost predicate ReportedTwice(t: Tree, maxDepth: int, root: Dir, p: Path, q: Path, d: Dir)
  {
    && p != q && p in AllRepos(t, maxDepth, root) && q in AllRepos(t, maxDepth, root)
    && LeadsTo(t, root, p, d) && LeadsTo(t, root, q, d)
  }

  lemma {:induction false} ReportedIsRepo(t: Tree, maxDepth: int, root: Dir, dirs: seq<Dir>, p: Path)
    requires UniqueNames(t) && p in AllRepos(t, maxDepth, root) && Chain(t, dirs, p) && dirs[0] == root
    ensures HasGit(t, dirs[|p|]) && |p| <= Levels(maxDepth)
  {
    ReportsExactly(t, maxDepth, root, p);
    var dirs' :| Chain(t, dirs', p) && dirs'[0] == root && HasGit(t, dirs'[|p|]);
    ChainUnique(t, dirs, p, dirs', p, |p|);
  }

  lemma {:induction false} TwiceForks(t: Tree, maxDepth: int, root: Dir, p: Path, q: Path, d: Dir)
    requires UniqueNames(t) && ReportedTwice(t, maxDepth, root, p, q, d)
    ensures Fork(t, root, Levels(maxDepth))
  {
    var dp :| Chain(t, dp, p) && dp[0] == root && dp[|p|] == d;
    var dq :| Chain(t, dq, q) && dq[0] == root && dq[|q|] == d;
    ReportedIsRepo(t, maxDepth, root, dp, p);
    ReportedIsRepo(t, maxDepth, root, dq, q);
    var i, j := Parting(t, root, dp, p, dq, q);
    PartingForks(t, root, Levels(maxDepth), dp, p, dq, q, i, j);
    assert Forks(t, root, Levels(maxDepth), dp[..i + 1], p[..i], dq[..j + 1], q[..j]);
  }

  lemma {:induction false} PartingForks(t: Tree, root: Dir, levels: nat, dp: seq<Dir>, p: Path, dq: seq<Dir>, q: Path,
                                        i: nat, j: nat)
    requires Chain(t, dp, p) && |dq| == |q| + 1 && HasGit(t, dp[|p|]) && |p| <= levels && |q| <= levels
    requires i <= |p| && j <= |q| && |p| - i == |q| - j
    requires Meet(t, root, dp[..i + 1], p[..i], dq[..j + 1], q[..j])
    requires HopsDiffer(dp[..i + 1], p[..i], dq[..j + 1], q[..j])
    ensures Forks(t, root, levels, dp[..i + 1], p[..i], dq[..j + 1], q[..j])
  {
    ChainCut(t, dp, p, i);
    assert dp[i..][|p[i..]|] == dp[|p|];
    assert LeadsOn(t, dp[i], dp[i..], p[i..]);
    assert RepoWithin(t, dp[i], levels - if i <= j then j else i);
    assert dp[..i + 1][i] == dp[i];
  }

  /** A way on from the end of a chain to a repository within the levels is reported. */
  lemma {:induction false} ReportedOn(t: Tree, maxDepth: int, root: Dir, dp: seq<Dir>, p: Path, ds: seq<Dir>, s: Path)
    requires Chain(t, dp, p) && dp[0] == root && LeadsOn(t, dp[|p|], ds, s)
    requires |p| + |s| <= Levels(maxDepth)
    ensures p + s in AllRepos(t, maxDepth, root) && LeadsTo(t, root, p + s, ds[|s|])
  {
    ChainGlue(t, dp, p, ds, s);
    var dirs := dp[..|p|] + ds;
    assert dirs[0] == root && dirs[|p + s|] == ds[|s|];
    assert Discoverable(t, root, p + s);
    ReportsExactly(t, maxDepth, root, p + s);
  }

  lemma {:induction false} ForkNames(t: Tree, root: Dir, dp: seq<Dir>, p: Path, dq: seq<Dir>, q: Path)
    requires UniqueNames(t) && Meet(t, root, dp, p, dq, q) && HopsDiffer(dp, p, dq, q)
    ensures p != q
  {
    if p == q {
      ChainUnique(t, dp, p, dq, q, |p| - 1);
    }
  }

  lemma {:induction false} ForkOn(t: Tree, maxDepth: int, root: Dir, dp: seq<Dir>, p: Path, dq: seq<Dir>, q: Path,
                                  ds: seq<Dir>, s: Path)
    requires UniqueNames(t) && Meet(t, root, dp, p, dq, q) && HopsDiffer(dp, p, dq, q)
    requires LeadsOn(t, dp[|p|], ds, s) && |p| + |s| <= Levels(maxDepth) && |q| + |s| <= Levels(maxDepth)
    ensures ReportedTwice(t, maxDepth, root, p + s, q + s, ds[|s|])
  {
    ReportedOn(t, maxDepth, root, dp, p, ds, s);
    ReportedOn(t, maxDepth, root, dq, q, ds, s);
    ForkNames(t, root, dp, p, dq, q);
    SameEnd(p, q, s);
  }

  lemma {:induction false} SameEnd(p: Path, q: Path, s: Path)
    requires p != q
    ensures p + s != q + s
  {
    if |p| == |q| {
      assert (p + s)[..|p|] == p && (q + s)[..|q|] == q;
    }
  }

  lemma {:induction false} ForkReports(t: Tree, maxDepth: int, root: Dir, dp: seq<Dir>, p: Path, dq: seq<Dir>, q: Path)
    requires UniqueNames(t) && Forks(t, root, Levels(maxDepth), dp, p, dq, q)
    ensures exists p', q', d :: ReportedTwice(t, maxDepth, root, p', q', d)
  {
    var ds, s: Path :| LeadsOn(t, dp[|p|], ds, s) && |s| <= Levels(maxDepth) - if |p| <= |q| then |q| else |p|;
    ForkOn(t, maxDepth, root, dp, p, dq, q, ds, s);
  }

  /** A directory is reported under two paths exactly when two ways to a repository fork off and meet again. */
  lemma {:induction false} ReportedTwiceIff(t: Tree, maxDepth: int, root: Dir)
    requires UniqueNames(t)
    ensures (exists p, q, d :: ReportedTwice(t, maxDepth, root, p, q, d)) <==> Fork(t, root, Levels(maxDepth))
  {
    if p, q, d :| ReportedTwice(t, maxDepth, root, p, q, d) {
      TwiceForks(t, maxDepth, root, p, q, d);
    }
    if dp, p: Path, dq, q: Path :| Forks(t, root, Levels(maxDepth), dp, p, dq, q) {
      ForkReports(t, maxDepth, root, dp, p, dq, q);
    }
  }

  /** Two links to one repository from the same directory have it reported under both names. */
  lemma {:induction false} LinkedTwiceReportedTwice(t: Tree, maxDepth: int, root: Dir, a: string, b: string, d: Dir)
    requires maxDepth >= 2 && a != b && HasGit(t, d) && !HasGit(t, root)
    requires Hop(t, root, a, d) && Hop(t, root, b, d)
    ensures [a] in AllRepos(t, maxDepth, root) && [b] in AllRepos(t, maxDepth, root) && [a] != [b]
    ensures LeadsTo(t, root, [a], d) && LeadsTo(t, root, [b], d)
  {
    assert [a][0] != [b][0];
    assert Chain(t, [root, d], [a]) && Chain(t, [root, d], [b]);
    ReportsExactly(t, maxDepth, root, [a]);
    ReportsExactly(t, maxDepth, root, [b]);
  }
}
