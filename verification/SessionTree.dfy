/**
 * The session tree printer: a depth-limited depth-first search with one shared visited
 * set, over whatever child lists the store holds, cycles included.
 */
module SessionTree {
  import opened Seqs

  datatype Session = Session(id: string)

  // One printed line: the session and the depth it is indented by.
  datatype Line = Line(session: Session, depth: nat)

  // The store's child lists.
  type Children = Session -> seq<Session>

  datatype Tree = Tree(visited: set<Session>, lines: seq<Line>)

  function Levels(maxDepth: int, depth: nat): nat
  {
    if depth > maxDepth then 0 else maxDepth - depth + 1
  }

  /** What rendering `s` at `depth` adds, given the sessions already visited. */
  function Render(g: Children, maxDepth: int, s: Session, depth: nat, visited: set<Session>): Tree
    decreases Levels(maxDepth, depth), 0, 0
  {
    if depth > maxDepth || s in visited then Tree(visited, [])
    else
      var below := RenderAll(g, maxDepth, g(s), depth + 1, visited + {s});
      Tree(below.visited, [Line(s, depth)] + below.lines)
  }

  function RenderAll(g: Children, maxDepth: int, ss: seq<Session>, depth: nat, visited: set<Session>): Tree
    decreases Levels(maxDepth, depth), 1, |ss|
  {
    if ss == [] then Tree(visited, [])
    else
      var first := Render(g, maxDepth, ss[0], depth, visited);
      var rest := RenderAll(g, maxDepth, ss[1..], depth, first.visited);
      Tree(rest.visited, first.lines + rest.lines)
  }

  lemma {:induction false} RenderFrom(g: Children, maxDepth: int, ss: seq<Session>, i: nat, depth: nat,
                                      visited: set<Session>)
    requires i < |ss|
    ensures var first := Render(g, maxDepth, ss[i], depth, visited);
            var rest := RenderAll(g, maxDepth, ss[i + 1..], depth, first.visited);
            RenderAll(g, maxDepth, ss[i..], depth, visited) == Tree(rest.visited, first.lines + rest.lines)
  {
    assert ss[i..][1..] == ss[i + 1..];
  }

  class TreePrinter {
    const children: Children
    const maxDepth: int
    var visited: set<Session>
    var lines: seq<Line>

    constructor (children: Children, maxDepth: int)
      ensures this.children == children && this.maxDepth == maxDepth && visited == {} && lines == []
    {
      this.children, this.maxDepth := children, maxDepth;
      visited, lines := {}, [];
    }

    method RenderNode(s: Session, depth: nat)
      modifies this
      ensures var tree := Render(children, maxDepth, s, depth, old(visited));
              visited == tree.visited && lines == old(lines) + tree.lines
      decreases Levels(maxDepth, depth)
    {
      if depth > maxDepth || s in visited {
        return;
      }
      visited := visited + {s};
      lines := lines + [Line(s, depth)];
      var ss := children(s);
      ghost var before, visited0 := lines, visited;
      var i := 0;
      assert ss[0..] == ss;
      while i < |ss|
        invariant i <= |ss|
        invariant var all := RenderAll(children, maxDepth, ss, depth + 1, visited0);
                  var rest := RenderAll(children, maxDepth, ss[i..], depth + 1, visited);
                  all.visited == rest.visited && before + all.lines == lines + rest.lines
      {
        ghost var first := Render(children, maxDepth, ss[i], depth + 1, visited);
        RenderFrom(children, maxDepth, ss, i, depth + 1, visited);
        Associative(lines, first.lines, RenderAll(children, maxDepth, ss[i + 1..], depth + 1, first.visited).lines);
        RenderNode(ss[i], depth + 1);
        i := i + 1;
      }
      Associative(old(lines), [Line(s, depth)], RenderAll(children, maxDepth, ss, depth + 1, visited0).lines);
    }

    /** The whole command: one node at depth 0, nothing visited yet. */
    method RenderTree(root: Session)
      modifies this
      ensures lines == old(lines) + Printed(children, maxDepth, root)
    {
      visited := {};
      RenderNode(root, 0);
    }
  }

  function Printed(g: Children, maxDepth: int, root: Session): seq<Line>
  {
    Render(g, maxDepth, root, 0, {}).lines
  }

  function Sessions(lines: seq<Line>): seq<Session>
  {
    if lines == [] then [] else [lines[0].session] + Sessions(lines[1..])
  }

  lemma {:induction false} SessionsConcat(a: seq<Line>, b: seq<Line>)
    ensures Sessions(a + b) == Sessions(a) + Sessions(b)
  {
    if a == [] {
      assert a + b == b;
    } else {
      assert (a + b)[1..] == a[1..] + b;
      SessionsConcat(a[1..], b);
    }
  }

  lemma {:induction false} SessionsIn(lines: seq<Line>, s: Session)
    ensures s in Sessions(lines) <==> exists d: nat :: Line(s, d) in lines
  {
    if lines != [] {
      SessionsIn(lines[1..], s);
      assert lines == [lines[0]] + lines[1..];
      if s == lines[0].session {
        assert Line(s, lines[0].depth) in lines;
      }
    }
  }

  // ---- Reachability, said without the search ------------------------------------------

  ghost predicate IsPath(g: Children, p: seq<Session>)
  {
    p != [] && forall i :: 0 <= i < |p| - 1 ==> p[i + 1] in g(p[i])
  }

  ghost predicate PathTo(g: Children, p: seq<Session>, root: Session, s: Session)
  {
    IsPath(g, p) && p[0] == root && p[|p| - 1] == s
  }

  /** `s` can be reached from `root` in at most `n` hops. */
  ghost predicate Within(g: Children, root: Session, s: Session, n: int)
  {
    exists p :: PathTo(g, p, root, s) && |p| - 1 <= n
  }

  ghost predicate Reachable(g: Children, root: Session, s: Session)
  {
    exists p :: PathTo(g, p, root, s)
  }

  // ---- What every call keeps ------------------------------------------------------------

  /** Each line is new, the lines are what the visited set grew by, and no session repeats. */
  ghost predicate Fresh(before: set<Session>, t: Tree)
  {
    && t.visited == before + Elements(Sessions(t.lines))
    && NoDup(Sessions(t.lines))
    && (forall s :: s in Sessions(t.lines) ==> s !in before)
  }

  /** A printed session above the last level has all its children visited. */
  ghost predicate Closed(g: Children, maxDepth: int, t: Tree)
  {
    forall l, c :: l in t.lines && l.depth < maxDepth && c in g(l.session) ==> c in t.visited
  }

  lemma {:induction false} RenderFresh(g: Children, maxDepth: int, s: Session, depth: nat, visited: set<Session>)
    ensures Fresh(visited, Render(g, maxDepth, s, depth, visited))
    decreases Levels(maxDepth, depth), 0, 0
  {
    if depth <= maxDepth && s !in visited {
      var below := RenderAll(g, maxDepth, g(s), depth + 1, visited + {s});
      RenderAllFresh(g, maxDepth, g(s), depth + 1, visited + {s});
      SessionsConcat([Line(s, depth)], below.lines);
      assert Sessions([Line(s, depth)] + below.lines) == [s] + Sessions(below.lines);
    }
  }

  lemma {:induction false} RenderAllFresh(g: Children, maxDepth: int, ss: seq<Session>, depth: nat,
                                          visited: set<Session>)
    ensures Fresh(visited, RenderAll(g, maxDepth, ss, depth, visited))
    decreases Levels(maxDepth, depth), 1, |ss|
  {
    if ss != [] {
      var first := Render(g, maxDepth, ss[0], depth, visited);
      var rest := RenderAll(g, maxDepth, ss[1..], depth, first.visited);
      RenderFresh(g, maxDepth, ss[0], depth, visited);
      RenderAllFresh(g, maxDepth, ss[1..], depth, first.visited);
      SessionsConcat(first.lines, rest.lines);
      NoDupConcat(Sessions(first.lines), Sessions(rest.lines));
    }
  }

  lemma {:induction false} NoDupConcat(a: seq<Session>, b: seq<Session>)
    requires NoDup(a) && NoDup(b) && forall x :: x in b ==> x !in a
    ensures NoDup(a + b)
    ensures Elements(a + b) == Elements(a) + Elements(b)
  {
    assert forall x :: x in a + b <==> x in a || x in b;
    var c := a + b;
    forall i, j | 0 <= i < j < |c| ensures c[i] != c[j] {
      if i < |a| <= j {
        assert c[i] == a[i] && c[j] == b[j - |a|] && b[j - |a|] in b && a[i] in a;
      } else if i >= |a| {
        assert c[i] == b[i - |a|] && c[j] == b[j - |a|];
      }
    }
  }

  lemma {:induction false} RenderClosed(g: Children, maxDepth: int, s: Session, depth: nat, visited: set<Session>)
    ensures Closed(g, maxDepth, Render(g, maxDepth, s, depth, visited))
    ensures depth <= maxDepth ==> s in Render(g, maxDepth, s, depth, visited).visited
    decreases Levels(maxDepth, depth), 0, 0
  {
    if depth <= maxDepth && s !in visited {
      RenderAllClosed(g, maxDepth, g(s), depth + 1, visited + {s});
      RenderAllFresh(g, maxDepth, g(s), depth + 1, visited + {s});
    }
  }

  lemma {:induction false} RenderAllClosed(g: Children, maxDepth: int, ss: seq<Session>, depth: nat,
                                           visited: set<Session>)
    ensures Closed(g, maxDepth, RenderAll(g, maxDepth, ss, depth, visited))
    ensures depth <= maxDepth ==> forall s :: s in ss ==> s in RenderAll(g, maxDepth, ss, depth, visited).visited
    decreases Levels(maxDepth, depth), 1, |ss|
  {
    if ss != [] {
      var first := Render(g, maxDepth, ss[0], depth, visited);
      RenderClosed(g, maxDepth, ss[0], depth, visited);
      RenderAllClosed(g, maxDepth, ss[1..], depth, first.visited);
      RenderAllFresh(g, maxDepth, ss[1..], depth, first.visited);
      assert ss == [ss[0]] + ss[1..];
    }
  }

  /** `p` is a simple path from the start of `stack` to `l`, through visited sessions only. */
  ghost predicate Traced(g: Children, maxDepth: int, stack: seq<Session>, visited: set<Session>, l: Line,
                         p: seq<Session>)
  {
    && IsPath(g, p) && NoDup(p) && Elements(p) <= visited
    && |p| == l.depth + 1 && l.depth <= maxDepth && p[l.depth] == l.session
    && (stack != [] ==> p[0] == stack[0])
  }

  /** The call stack of the search, before it enters a session at depth |stack|. */
  ghost predicate Stack(g: Children, stack: seq<Session>, visited: set<Session>)
  {
    (stack != [] ==> IsPath(g, stack)) && NoDup(stack) && Elements(stack) <= visited
  }

  ghost predicate AllTraced(g: Children, maxDepth: int, stack: seq<Session>, t: Tree)
  {
    forall l :: l in t.lines ==> exists p :: Traced(g, maxDepth, stack, t.visited, l, p)
  }

  lemma {:induction false} PathSnoc(g: Children, p: seq<Session>, s: Session)
    requires IsPath(g, p) && s in g(p[|p| - 1])
    ensures IsPath(g, p + [s])
  {
    var q := p + [s];
    forall i | 0 <= i < |q| - 1 ensures q[i + 1] in g(q[i]) {
      if i < |p| - 1 {
        assert q[i] == p[i] && q[i + 1] == p[i + 1];
      }
    }
  }

  lemma {:induction false} RenderTraced(g: Children, maxDepth: int, s: Session, stack: seq<Session>,
                                        visited: set<Session>)
    requires Stack(g, stack, visited) && (stack != [] ==> s in g(stack[|stack| - 1]))
    ensures AllTraced(g, maxDepth, stack + [s], Render(g, maxDepth, s, |stack|, visited))
    decreases Levels(maxDepth, |stack|), 0, 0
  {
    if |stack| <= maxDepth && s !in visited {
      var stack' := stack + [s];
      var below := RenderAll(g, maxDepth, g(s), |stack'|, visited + {s});
      if stack != [] {
        PathSnoc(g, stack, s);
      }
      forall x | x in stack ensures x != s {
        assert x in Elements(stack);
      }
      assert Stack(g, stack', visited + {s});
      RenderAllTraced(g, maxDepth, g(s), stack', visited + {s});
      RenderAllFresh(g, maxDepth, g(s), |stack'|, visited + {s});
      assert Traced(g, maxDepth, stack', below.visited, Line(s, |stack|), stack');
      assert AllTraced(g, maxDepth, stack', below);
    }
  }

  lemma {:induction false} RenderAllTraced(g: Children, maxDepth: int, ss: seq<Session>, stack: seq<Session>,
                                           visited: set<Session>)
    requires Stack(g, stack, visited) && stack != [] && (forall s :: s in ss ==> s in g(stack[|stack| - 1]))
    ensures AllTraced(g, maxDepth, stack, RenderAll(g, maxDepth, ss, |stack|, visited))
    decreases Levels(maxDepth, |stack|), 1, |ss|
  {
    if ss != [] {
      var first := Render(g, maxDepth, ss[0], |stack|, visited);
      var rest := RenderAll(g, maxDepth, ss[1..], |stack|, first.visited);
      assert ss[0] in ss;
      RenderTraced(g, maxDepth, ss[0], stack, visited);
      RenderFresh(g, maxDepth, ss[0], |stack|, visited);
      assert forall s :: s in ss[1..] ==> s in ss;
      RenderAllTraced(g, maxDepth, ss[1..], stack, first.visited);
      RenderAllFresh(g, maxDepth, ss[1..], |stack|, first.visited);
      TracedConcat(g, maxDepth, stack, ss[0], first, rest);
    }
  }

  lemma {:induction false} TracedConcat(g: Children, maxDepth: int, stack: seq<Session>, s: Session, first: Tree,
                                        rest: Tree)
    requires stack != [] && first.visited <= rest.visited
    requires AllTraced(g, maxDepth, stack + [s], first) && AllTraced(g, maxDepth, stack, rest)
    ensures AllTraced(g, maxDepth, stack, Tree(rest.visited, first.lines + rest.lines))
  {
    forall l | l in first.lines ensures exists p :: Traced(g, maxDepth, stack, rest.visited, l, p) {
      var p :| Traced(g, maxDepth, stack + [s], first.visited, l, p);
      assert Traced(g, maxDepth, stack, rest.visited, l, p);
    }
  }

  // ---- Main results ----------------------------------------------------------------------

  /**
   * No session is printed twice, and a session printed at depth d is reached from the root
   * by a simple path of exactly d hops through printed sessions.
   */
  lemma {:induction false} PrintedOnceOnPath(g: Children, maxDepth: int, root: Session)
    ensures NoDup(Sessions(Printed(g, maxDepth, root)))
    ensures forall l :: l in Printed(g, maxDepth, root) ==>
              l.depth <= maxDepth && exists p ::
                PathTo(g, p, root, l.session) && |p| - 1 == l.depth && NoDup(p)
                && forall s :: s in p ==> s in Sessions(Printed(g, maxDepth, root))
  {
    var t := Render(g, maxDepth, root, 0, {});
    RenderFresh(g, maxDepth, root, 0, {});
    RenderTraced(g, maxDepth, root, [], {});
    forall l | l in t.lines
      ensures l.depth <= maxDepth && exists p ::
                PathTo(g, p, root, l.session) && |p| - 1 == l.depth && NoDup(p)
                && forall s :: s in p ==> s in Sessions(t.lines)
    {
      var p :| Traced(g, maxDepth, [] + [root], t.visited, l, p);
      assert PathTo(g, p, root, l.session);
      forall s | s in p ensures s in Sessions(t.lines) {
        assert s in Elements(p);
      }
    }
  }

  /** The nearest line above line `i` that is one level up shows a parent of its session. */
  ghost predicate HasParent(g: Children, lines: seq<Line>, i: nat)
    requires i < |lines|
  {
    exists j :: 0 <= j < i && lines[j].depth + 1 == lines[i].depth && lines[i].session in g(lines[j].session)
                && forall k :: j < k < i ==> lines[k].depth >= lines[i].depth
  }

  lemma {:induction false} HasParentWithin(g: Children, a: seq<Line>, b: seq<Line>, c: seq<Line>, all: seq<Line>,
                                           i: nat)
    requires all == a + b + c && i < |b| && HasParent(g, b, i)
    ensures HasParent(g, all, |a| + i)
  {
    var j :| 0 <= j < i && b[j].depth + 1 == b[i].depth && b[i].session in g(b[j].session)
             && forall k :: j < k < i ==> b[k].depth >= b[i].depth;
    assert all[|a| + j] == b[j] && all[|a| + i] == b[i];
    forall k | |a| + j < k < |a| + i ensures all[k].depth >= all[|a| + i].depth {
      assert all[k] == b[k - |a|];
    }
  }

  /** A subtree's own line comes first, and the lines below it are nested. */
  ghost predicate Nested(g: Children, lines: seq<Line>, s: Session, depth: nat)
  {
    lines != [] ==>
      lines[0] == Line(s, depth) && forall i :: 0 < i < |lines| ==> lines[i].depth > depth && HasParent(g, lines, i)
  }

  ghost predicate NestedOrTop(g: Children, lines: seq<Line>, ss: seq<Session>, depth: nat, i: nat)
    requires i < |lines|
  {
    lines[i].depth >= depth && (HasParent(g, lines, i) || (lines[i].depth == depth && lines[i].session in ss))
  }

  ghost predicate AllNested(g: Children, lines: seq<Line>, ss: seq<Session>, depth: nat)
  {
    forall i :: 0 <= i < |lines| ==> NestedOrTop(g, lines, ss, depth, i)
  }

  lemma {:induction false} RenderNested(g: Children, maxDepth: int, s: Session, depth: nat, visited: set<Session>)
    ensures Nested(g, Render(g, maxDepth, s, depth, visited).lines, s, depth)
    decreases Levels(maxDepth, depth), 0, 0
  {
    if depth <= maxDepth && s !in visited {
      var below := RenderAll(g, maxDepth, g(s), depth + 1, visited + {s}).lines;
      RenderAllNested(g, maxDepth, g(s), depth + 1, visited + {s});
      UnderParent(g, s, depth, below);
    }
  }

  lemma {:induction false} UnderParent(g: Children, s: Session, depth: nat, below: seq<Line>)
    requires AllNested(g, below, g(s), depth + 1)
    ensures Nested(g, [Line(s, depth)] + below, s, depth)
  {
    var lines := [Line(s, depth)] + below;
    forall i | 0 < i < |lines| ensures lines[i].depth > depth && HasParent(g, lines, i) {
      UnderParentAt(g, s, depth, below, lines, i - 1);
    }
  }

  lemma {:induction false} UnderParentAt(g: Children, s: Session, depth: nat, below: seq<Line>, lines: seq<Line>,
                                         i: nat)
    requires AllNested(g, below, g(s), depth + 1) && lines == [Line(s, depth)] + below && i < |below|
    ensures lines[i + 1].depth > depth && HasParent(g, lines, i + 1)
  {
    var level := depth + 1;
    assert lines[i + 1] == below[i] && NestedOrTop(g, below, g(s), level, i);
    if HasParent(g, below, i) {
      assert lines == [Line(s, depth)] + below + [];
      HasParentWithin(g, [Line(s, depth)], below, [], lines, i);
    } else {
      forall k | 0 < k < i + 1 ensures lines[k].depth >= lines[i + 1].depth {
        assert lines[k] == below[k - 1] && NestedOrTop(g, below, g(s), level, k - 1);
      }
      assert lines[0] == Line(s, depth);
    }
  }

  lemma {:induction false} RenderAllNested(g: Children, maxDepth: int, ss: seq<Session>, depth: nat,
                                           visited: set<Session>)
    ensures AllNested(g, RenderAll(g, maxDepth, ss, depth, visited).lines, ss, depth)
    decreases Levels(maxDepth, depth), 1, |ss|
  {
    if ss != [] {
      var first := Render(g, maxDepth, ss[0], depth, visited);
      var rest := RenderAll(g, maxDepth, ss[1..], depth, first.visited);
      RenderNested(g, maxDepth, ss[0], depth, visited);
      RenderAllNested(g, maxDepth, ss[1..], depth, first.visited);
      SideBySide(g, first.lines, rest.lines, ss, depth);
    }
  }

  lemma {:induction false} SideBySide(g: Children, a: seq<Line>, b: seq<Line>, ss: seq<Session>, depth: nat)
    requires ss != [] && Nested(g, a, ss[0], depth) && AllNested(g, b, ss[1..], depth)
    ensures AllNested(g, a + b, ss, depth)
  {
    forall i | 0 <= i < |a + b| ensures NestedOrTop(g, a + b, ss, depth, i) {
      if i < |a| {
        NestedAt(g, a, ss[0], depth, i);
        FirstSide(g, a, b, a + b, ss, depth, i);
      } else {
        SecondSide(g, a, b, a + b, ss, depth, i - |a|);
      }
    }
  }

  lemma {:induction false} NestedAt(g: Children, lines: seq<Line>, s: Session, depth: nat, i: nat)
    requires Nested(g, lines, s, depth) && i < |lines|
    ensures lines[i].depth >= depth
    ensures if i == 0 then lines[i] == Line(s, depth) else HasParent(g, lines, i)
  {
  }

  lemma {:induction false} FirstSide(g: Children, a: seq<Line>, b: seq<Line>, all: seq<Line>, ss: seq<Session>,
                                     depth: nat, i: nat)
    requires all == a + b && i < |a| && a[i].depth >= depth
    requires if i == 0 then a[i].depth == depth && a[i].session in ss else HasParent(g, a, i)
    ensures NestedOrTop(g, all, ss, depth, i)
  {
    assert all[i] == a[i];
    if i > 0 {
      HasParentWithin(g, [], a, b, all, i);
    }
  }

  lemma {:induction false} SecondSide(g: Children, a: seq<Line>, b: seq<Line>, all: seq<Line>, ss: seq<Session>,
                                      depth: nat, i: nat)
    requires all == a + b && i < |b| && ss != [] && AllNested(g, b, ss[1..], depth)
    ensures NestedOrTop(g, all, ss, depth, |a| + i)
  {
    assert NestedOrTop(g, b, ss[1..], depth, i) && all[|a| + i] == b[i];
    if HasParent(g, b, i) {
      HasParentWithin(g, a, b, [], all, i);
    }
  }

  /** The indentation tells the truth: below the root, the line it hangs under is a parent. */
  lemma {:induction false} IndentationShowsParent(g: Children, maxDepth: int, root: Session)
    ensures var lines := Printed(g, maxDepth, root);
            (maxDepth >= 0 ==> lines != [] && lines[0] == Line(root, 0))
            && forall i :: 0 < i < |lines| ==> HasParent(g, lines, i)
  {
    RenderNested(g, maxDepth, root, 0, {});
  }

  /** `a` is listed before `b`. */
  ghost predicate ListedBefore(ss: seq<Session>, a: Session, b: Session)
  {
    exists x, y :: 0 <= x < y < |ss| && ss[x] == a && ss[y] == b
  }

  /** Lines `j` and `k` stand one level below line `i`, with nothing between that ends what hangs under it. */
  ghost predicate Siblings(lines: seq<Line>, i: nat, j: nat, k: nat)
  {
    && i < j < k < |lines| && lines[j].depth == lines[k].depth == lines[i].depth + 1
    && forall m :: i < m <= k ==> lines[m].depth > lines[i].depth
  }

  ghost predicate SiblingsListed(g: Children, lines: seq<Line>, i: nat, j: nat, k: nat)
  {
    Siblings(lines, i, j, k) ==> ListedBefore(g(lines[i].session), lines[j].session, lines[k].session)
  }

  ghost predicate SiblingsInOrder(g: Children, lines: seq<Line>)
  {
    forall i: nat, j: nat, k: nat :: SiblingsListed(g, lines, i, j, k)
  }

  ghost predicate TopsListed(lines: seq<Line>, ss: seq<Session>, depth: nat, j: nat, k: nat)
  {
    j < k < |lines| && lines[j].depth == lines[k].depth == depth ==>
      ListedBefore(ss, lines[j].session, lines[k].session)
  }

  ghost predicate TopsInOrder(lines: seq<Line>, ss: seq<Session>, depth: nat)
  {
    forall j: nat, k: nat :: TopsListed(lines, ss, depth, j, k)
  }

  lemma {:induction false} RenderInOrder(g: Children, maxDepth: int, s: Session, depth: nat, visited: set<Session>)
    ensures SiblingsInOrder(g, Render(g, maxDepth, s, depth, visited).lines)
    decreases Levels(maxDepth, depth), 0, 0
  {
    if depth <= maxDepth && s !in visited {
      var below := RenderAll(g, maxDepth, g(s), depth + 1, visited + {s}).lines;
      RenderAllInOrder(g, maxDepth, g(s), depth + 1, visited + {s});
      UnderOne(g, s, depth, below);
    }
  }

  lemma {:induction false} UnderOne(g: Children, s: Session, depth: nat, below: seq<Line>)
    requires SiblingsInOrder(g, below) && TopsInOrder(below, g(s), depth + 1)
    ensures SiblingsInOrder(g, [Line(s, depth)] + below)
  {
    forall i: nat, j: nat, k: nat ensures SiblingsListed(g, [Line(s, depth)] + below, i, j, k) {
      if 0 < i < j < k <= |below| {
        assert SiblingsListed(g, below, i - 1, j - 1, k - 1);
        assert [Line(s, depth)] + below + [] == [Line(s, depth)] + below;
        SiblingsShift(g, [Line(s, depth)], below, [], i, j, k);
      } else if i == 0 < j < k {
        assert TopsListed(below, g(s), depth + 1, j - 1, k - 1);
      }
    }
  }

  lemma {:induction false} RenderAllInOrder(g: Children, maxDepth: int, ss: seq<Session>, depth: nat,
                                            visited: set<Session>)
    ensures SiblingsInOrder(g, RenderAll(g, maxDepth, ss, depth, visited).lines)
    ensures TopsInOrder(RenderAll(g, maxDepth, ss, depth, visited).lines, ss, depth)
    decreases Levels(maxDepth, depth), 1, |ss|
  {
    if ss != [] {
      var first := Render(g, maxDepth, ss[0], depth, visited);
      var rest := RenderAll(g, maxDepth, ss[1..], depth, first.visited);
      RenderInOrder(g, maxDepth, ss[0], depth, visited);
      RenderAllInOrder(g, maxDepth, ss[1..], depth, first.visited);
      RenderNested(g, maxDepth, ss[0], depth, visited);
      RenderAllNested(g, maxDepth, ss[1..], depth, first.visited);
      SiblingsSideBySide(g, first.lines, rest.lines, ss, depth);
      TopsSideBySide(g, first.lines, rest.lines, ss, depth);
    }
  }

  lemma {:induction false} TopOf(g: Children, lines: seq<Line>, ss: seq<Session>, depth: nat, i: nat)
    requires AllNested(g, lines, ss, depth) && i < |lines|
    ensures lines[i].depth >= depth
    ensures lines[i].depth == depth ==> lines[i].session in ss
    ensures lines[0].depth == depth
  {
    assert NestedOrTop(g, lines, ss, depth, i) && NestedOrTop(g, lines, ss, depth, 0);
    forall j | 0 <= j < |lines| ensures lines[j].depth >= depth {
      assert NestedOrTop(g, lines, ss, depth, j);
    }
  }

  lemma {:induction false} SiblingsShift(g: Children, a: seq<Line>, b: seq<Line>, c: seq<Line>, i: nat, j: nat, k: nat)
    requires |a| <= i < j < k < |a| + |b| && SiblingsListed(g, b, i - |a|, j - |a|, k - |a|)
    ensures SiblingsListed(g, a + b + c, i, j, k)
  {
    var lines, n := a + b + c, |a|;
    if Siblings(lines, i, j, k) {
      forall m | i - n < m <= k - n ensures b[m].depth > b[i - n].depth {
        assert lines[m + n] == b[m];
      }
    }
  }

  lemma {:induction false} SiblingsSideBySide(g: Children, a: seq<Line>, b: seq<Line>, ss: seq<Session>, depth: nat)
    requires ss != [] && Nested(g, a, ss[0], depth) && AllNested(g, b, ss[1..], depth)
    requires SiblingsInOrder(g, a) && SiblingsInOrder(g, b)
    ensures SiblingsInOrder(g, a + b)
  {
    assert [] + a + b == a + b && a + b + [] == a + b;
    forall i: nat, j: nat, k: nat ensures SiblingsListed(g, a + b, i, j, k) {
      if i < j < k < |a| {
        assert SiblingsListed(g, a, i, j, k);
        SiblingsShift(g, [], a, b, i, j, k);
      } else if |a| <= i < j < k < |a| + |b| {
        assert SiblingsListed(g, b, i - |a|, j - |a|, k - |a|);
        SiblingsShift(g, a, b, [], i, j, k);
      } else if i < j < k < |a| + |b| {
        NotAcross(g, a, b, ss, depth, i, j, k);
      }
    }
  }

  lemma {:induction false} NotAcross(g: Children, a: seq<Line>, b: seq<Line>, ss: seq<Session>, depth: nat, i: nat,
                                     j: nat, k: nat)
    requires ss != [] && Nested(g, a, ss[0], depth) && AllNested(g, b, ss[1..], depth)
    requires i < |a| <= k < |a| + |b|
    ensures !Siblings(a + b, i, j, k)
  {
    TopOf(g, b, ss[1..], depth, 0);
    NestedAt(g, a, ss[0], depth, i);
    assert (a + b)[|a|] == b[0] && (a + b)[i] == a[i];
  }

  lemma {:induction false} TopsSideBySide(g: Children, a: seq<Line>, b: seq<Line>, ss: seq<Session>, depth: nat)
    requires ss != [] && Nested(g, a, ss[0], depth) && AllNested(g, b, ss[1..], depth)
    requires TopsInOrder(b, ss[1..], depth)
    ensures TopsInOrder(a + b, ss, depth)
  {
    forall j: nat, k: nat ensures TopsListed(a + b, ss, depth, j, k) {
      if |a| <= j < k {
        assert TopsListed(b, ss[1..], depth, j - |a|, k - |a|);
        TopsShift(a, b, ss, depth, j, k);
      } else if j < |a| <= k < |a| + |b| {
        NestedAt(g, a, ss[0], depth, j);
        TopOf(g, b, ss[1..], depth, k - |a|);
        TopsAcross(a, b, ss, depth, j, k);
      } else if j < k < |a| {
        assert a[k].depth > depth && (a + b)[k] == a[k];
      }
    }
  }

  lemma {:induction false} TopsShift(a: seq<Line>, b: seq<Line>, ss: seq<Session>, depth: nat, j: nat, k: nat)
    requires ss != [] && |a| <= j < k && TopsListed(b, ss[1..], depth, j - |a|, k - |a|)
    ensures TopsListed(a + b, ss, depth, j, k)
  {
    var lines, rest := a + b, ss[1..];
    if k < |lines| && lines[j].depth == lines[k].depth == depth {
      var x, y :| 0 <= x < y < |rest| && rest[x] == lines[j].session && rest[y] == lines[k].session;
      assert ss[x + 1] == rest[x] && ss[y + 1] == rest[y];
    }
  }

  lemma {:induction false} TopsAcross(a: seq<Line>, b: seq<Line>, ss: seq<Session>, depth: nat, j: nat, k: nat)
    requires ss != [] && j < |a| <= k < |a| + |b|
    requires a[j].depth == depth ==> a[j].session == ss[0]
    requires b[k - |a|].depth == depth ==> b[k - |a|].session in ss[1..]
    ensures TopsListed(a + b, ss, depth, j, k)
  {
    var lines, rest := a + b, ss[1..];
    if lines[j].depth == lines[k].depth == depth {
      var y :| 0 <= y < |rest| && rest[y] == lines[k].session;
      assert ss[y + 1] == rest[y];
    }
  }

  /** What hangs under one line is printed in the order in which its children are listed. */
  lemma {:induction false} ChildrenInOrder(g: Children, maxDepth: int, root: Session)
    ensures SiblingsInOrder(g, Printed(g, maxDepth, root))
  {
    RenderInOrder(g, maxDepth, root, 0, {});
  }

  /** The printed sessions are exactly those within `maxDepth` hops. */
  ghost predicate Complete(g: Children, maxDepth: nat, root: Session)
  {
    forall s :: s in Sessions(Printed(g, maxDepth, root)) <==> Within(g, root, s, maxDepth)
  }

  /** Sessions printed on the last level hide no child that lies within the limit. */
  ghost predicate LastLevelHidesNothing(g: Children, maxDepth: nat, root: Session)
  {
    forall u, c :: Line(u, maxDepth) in Printed(g, maxDepth, root) && c in g(u) && Within(g, root, c, maxDepth) ==>
      c in Sessions(Printed(g, maxDepth, root))
  }

  /**
   * On any graph everything printed is within `maxDepth` hops.  The printout is complete
   * exactly when the last level hides nothing: there is no other way to lose a session.
   */
  lemma {:induction false} CompleteUnlessHidden(g: Children, maxDepth: nat, root: Session)
    ensures forall s :: s in Sessions(Printed(g, maxDepth, root)) ==> Within(g, root, s, maxDepth)
    ensures Complete(g, maxDepth, root) <==> LastLevelHidesNothing(g, maxDepth, root)
  {
    var t := Render(g, maxDepth, root, 0, {});
    PrintedOnceOnPath(g, maxDepth, root);
    forall s | s in Sessions(t.lines) ensures Within(g, root, s, maxDepth) {
      SessionsIn(t.lines, s);
      var d: nat :| Line(s, d) in t.lines;
      var p :| PathTo(g, p, root, s) && |p| - 1 == d;
    }
    if LastLevelHidesNothing(g, maxDepth, root) {
      RenderWhole(g, maxDepth, root);
      forall s | Within(g, root, s, maxDepth) ensures s in Sessions(t.lines) {
        var p :| PathTo(g, p, root, s) && |p| - 1 <= maxDepth;
        forall j | 0 < j < |p| && Line(p[j - 1], maxDepth) in t.lines ensures p[j] in Sessions(t.lines) {
          assert p[j - 1 + 1] in g(p[j - 1]);
          PrefixWithin(g, p, j, maxDepth);
        }
        PathPrinted(g, maxDepth, t, p, |p| - 1);
      }
    }
  }

  lemma {:induction false} PrefixWithin(g: Children, p: seq<Session>, j: nat, n: int)
    requires IsPath(g, p) && j < |p| && j <= n
    ensures Within(g, p[0], p[j], n)
  {
    var q := p[..j + 1];
    assert forall i :: 0 <= i < j ==> p[i + 1] in g(p[i]);
    assert PathTo(g, q, p[0], p[j]);
  }

  /** The facts about one whole printout that the arguments below need. */
  lemma {:induction false} RenderWhole(g: Children, maxDepth: nat, root: Session)
    ensures var t := Render(g, maxDepth, root, 0, {});
            && t.visited == Elements(Sessions(t.lines)) && root in t.visited && Closed(g, maxDepth, t)
            && forall l :: l in t.lines ==> l.depth <= maxDepth
  {
    RenderFresh(g, maxDepth, root, 0, {});
    RenderClosed(g, maxDepth, root, 0, {});
    PrintedOnceOnPath(g, maxDepth, root);
  }

  /** Along a path from the root, only a hop out of the last level can leave the printout. */
  lemma {:induction false} PathPrinted(g: Children, maxDepth: nat, t: Tree, p: seq<Session>, i: nat)
    requires t.visited == Elements(Sessions(t.lines)) && Closed(g, maxDepth, t)
    requires forall l :: l in t.lines ==> l.depth <= maxDepth
    requires IsPath(g, p) && p[0] in t.visited && i < |p|
    requires forall j :: 0 < j < |p| && Line(p[j - 1], maxDepth) in t.lines ==> p[j] in Sessions(t.lines)
    ensures p[i] in Sessions(t.lines)
  {
    if i > 0 {
      PathPrinted(g, maxDepth, t, p, i - 1);
      SessionsIn(t.lines, p[i - 1]);
      var d: nat :| Line(p[i - 1], d) in t.lines;
      assert p[i - 1 + 1] in g(p[i - 1]);
      if d < maxDepth {
        assert Line(p[i - 1], d).depth < maxDepth;
        assert p[i] in t.visited;
      }
    }
  }

  // ---- A condition on the graph alone -----------------------------------------------------

  /**
   * No session is entered at the limit by a detour that misses one of its children: each
   * simple path of exactly `maxDepth` hops from the root to a session that is also within
   * `maxDepth - 1` hops goes through every child of that session.
   */
  ghost predicate NoLongDetour(g: Children, maxDepth: nat, root: Session)
  {
    forall p, c :: Detour(g, maxDepth, root, p) && c in g(p[|p| - 1]) ==> c in p
  }

  ghost predicate Detour(g: Children, maxDepth: nat, root: Session, p: seq<Session>)
  {
    IsPath(g, p) && p[0] == root && |p| - 1 == maxDepth && NoDup(p) && Within(g, root, p[|p| - 1], maxDepth - 1)
  }

  /** Without such detours the printout is complete, in whatever order the children are listed. */
  lemma {:induction false} CompleteWithoutDetours(g: Children, maxDepth: nat, root: Session)
    requires NoLongDetour(g, maxDepth, root)
    ensures Complete(g, maxDepth, root)
  {
    var t := Render(g, maxDepth, root, 0, {});
    CompleteUnlessHidden(g, maxDepth, root);
    RenderWhole(g, maxDepth, root);
    forall s | Within(g, root, s, maxDepth) ensures s in Sessions(t.lines) {
      var q :| PathTo(g, q, root, s) && |q| - 1 <= maxDepth;
      forall j | 0 < j < |q| && Line(q[j - 1], maxDepth) in t.lines ensures q[j] in Sessions(t.lines) {
        LastLevelChild(g, maxDepth, root, q, j);
      }
      PathPrinted(g, maxDepth, t, q, |q| - 1);
    }
  }

  lemma {:induction false} LastLevelChild(g: Children, maxDepth: nat, root: Session, q: seq<Session>, j: nat)
    requires NoLongDetour(g, maxDepth, root)
    requires IsPath(g, q) && q[0] == root && |q| - 1 <= maxDepth
    requires 0 < j < |q| && Line(q[j - 1], maxDepth) in Printed(g, maxDepth, root)
    ensures q[j] in Sessions(Printed(g, maxDepth, root))
  {
    var lines, l := Printed(g, maxDepth, root), Line(q[j - 1], maxDepth);
    PrintedOnceOnPath(g, maxDepth, root);
    var p :| PathTo(g, p, root, l.session) && |p| - 1 == l.depth && NoDup(p)
             && forall s :: s in p ==> s in Sessions(lines);
    PrefixWithin(g, q, j - 1, maxDepth - 1);
    assert q[j - 1 + 1] in g(q[j - 1]);
    assert Detour(g, maxDepth, root, p);
  }

  /** The same child lists, but with the sessions along `p` listed first. */
  function Along(g: Children, p: seq<Session>): Children
  {
    (s: Session) =>
      var n := NextOn(p, s);
      if n.Some? && n.value in g(s) then [n.value] + Remove(g(s), n.value) else g(s)
  }

  function NextOn(p: seq<Session>, s: Session): Option<Session>
  {
    if |p| < 2 then None else if p[0] == s then Some(p[1]) else NextOn(p[1..], s)
  }

  lemma {:induction false} NextOnAt(p: seq<Session>, i: nat)
    requires NoDup(p) && i + 1 < |p|
    ensures NextOn(p, p[i]) == Some(p[i + 1])
  {
    if i > 0 {
      assert NoDup(p[1..]) by {
        assert forall k :: 0 <= k < |p| - 1 ==> p[1..][k] == p[k + 1];
      }
      NextOnAt(p[1..], i - 1);
      assert p[1..][i - 1] == p[i] && p[1..][i] == p[i + 1];
    }
  }

  /** The search follows a simple path whose sessions are always listed first. */
  lemma {:induction false} FollowsPath(g: Children, maxDepth: int, p: seq<Session>, i: nat, visited: set<Session>)
    requires i < |p| && |p| - 1 <= maxDepth && NoDup(p) && forall k :: i <= k < |p| ==> p[k] !in visited
    requires forall k :: 0 <= k < |p| - 1 ==> g(p[k]) != [] && g(p[k])[0] == p[k + 1]
    ensures Line(p[|p| - 1], |p| - 1) in Render(g, maxDepth, p[i], i, visited).lines
    decreases |p| - i
  {
    if i < |p| - 1 {
      FollowsPath(g, maxDepth, p, i + 1, visited + {p[i]});
    }
  }

  /**
   * The condition is tight: a detour that misses a child with no other parent hides that
   * child, although it is within the limit, as soon as the sessions along it are listed first.
   */
  lemma {:induction false} DetourHidesOnlyChild(g: Children, maxDepth: nat, root: Session, p: seq<Session>, c: Session)
    requires Detour(g, maxDepth, root, p) && c in g(p[|p| - 1]) && c !in p
    requires forall s :: c in g(s) ==> s == p[|p| - 1]
    ensures var g' := Along(g, p);
            && (forall s, x :: x in g'(s) <==> x in g(s))
            && Within(g', root, c, maxDepth) && c !in Sessions(Printed(g', maxDepth, root))
  {
    var g', u := Along(g, p), p[|p| - 1];
    forall s, x ensures x in g'(s) <==> x in g(s) {
      AlongSame(g, p, s, x);
    }
    LastOnPath(g, g', p);
    HiddenBelowLast(g', maxDepth, root, u, c);
    ChildWithin(g, g', maxDepth, root, u, c);
  }

  lemma {:induction false} LastOnPath(g: Children, g': Children, p: seq<Session>)
    requires IsPath(g, p) && NoDup(p) && g' == Along(g, p)
    ensures Line(p[|p| - 1], |p| - 1) in Printed(g', |p| - 1, p[0])
  {
    forall k | 0 <= k < |p| - 1 ensures g'(p[k]) != [] && g'(p[k])[0] == p[k + 1] {
      NextOnAt(p, k);
      assert p[k + 1] in g(p[k]);
    }
    FollowsPath(g', |p| - 1, p, 0, {});
  }

  lemma {:induction false} AlongSame(g: Children, p: seq<Session>, s: Session, x: Session)
    ensures x in Along(g, p)(s) <==> x in g(s)
  {
    var n := NextOn(p, s);
    if n.Some? && n.value in g(s) {
      RemoveElements(g(s), n.value);
    }
  }

  lemma {:induction false} ChildWithin(g: Children, g': Children, maxDepth: nat, root: Session, u: Session, c: Session)
    requires forall s, x :: x in g'(s) <==> x in g(s)
    requires Within(g, root, u, maxDepth - 1) && c in g(u)
    ensures Within(g', root, c, maxDepth)
  {
    var q :| PathTo(g, q, root, u) && |q| - 1 <= maxDepth - 1;
    assert IsPath(g', q);
    PathSnoc(g', q, c);
    assert PathTo(g', q + [c], root, c);
  }

  lemma {:induction false} HiddenBelowLast(g: Children, maxDepth: nat, root: Session, u: Session, c: Session)
    requires Line(u, maxDepth) in Printed(g, maxDepth, root) && c != root && forall s :: c in g(s) ==> s == u
    ensures c !in Sessions(Printed(g, maxDepth, root))
  {
    var lines := Printed(g, maxDepth, root);
    PrintedOnceOnPath(g, maxDepth, root);
    SessionsIn(lines, c);
    forall d: nat ensures Line(c, d) !in lines {
      if Line(c, d) in lines {
        var l := Line(c, d);
        var p :| PathTo(g, p, root, l.session) && |p| - 1 == l.depth && NoDup(p)
                 && forall s :: s in p ==> s in Sessions(lines);
        IndentationShowsParent(g, maxDepth, root);
        var i :| 0 <= i < |lines| && lines[i] == l;
        assert HasParent(g, lines, i);
        var j :| 0 <= j < i && lines[j].depth + 1 == lines[i].depth && lines[i].session in g(lines[j].session);
        LineUnique(lines, lines[j], Line(u, maxDepth));
      }
    }
  }

  lemma {:induction false} LineUnique(lines: seq<Line>, a: Line, b: Line)
    requires NoDup(Sessions(lines)) && a in lines && b in lines && a.session == b.session
    ensures a == b
  {
    SessionsAt(lines);
    var i :| 0 <= i < |lines| && lines[i] == a;
    var j :| 0 <= j < |lines| && lines[j] == b;
    assert Sessions(lines)[i] == Sessions(lines)[j];
  }

  lemma {:induction false} SessionsAt(lines: seq<Line>)
    ensures |Sessions(lines)| == |lines| && forall i :: 0 <= i < |lines| ==> Sessions(lines)[i] == lines[i].session
  {
    if lines != [] {
      SessionsAt(lines[1..]);
    }
  }

  /** Any path can be cut down to a simple one. */
  lemma {:induction false} Shorten(g: Children, p: seq<Session>) returns (q: seq<Session>)
    requires IsPath(g, p)
    ensures IsPath(g, q) && q[0] == p[0] && q[|q| - 1] == p[|p| - 1] && NoDup(q)
    decreases |p|
  {
    if NoDup(p) {
      return p;
    }
    var i, j :| 0 <= i < j < |p| && p[i] == p[j];
    var r := p[..i] + p[j..];
    forall k | 0 <= k < |r| - 1 ensures r[k + 1] in g(r[k]) {
      CutHop(g, p, i, j, k);
    }
    q := Shorten(g, r);
  }

  lemma {:induction false} CutHop(g: Children, p: seq<Session>, i: nat, j: nat, k: nat)
    requires IsPath(g, p) && i < j < |p| && p[i] == p[j] && k + 1 < i + |p| - j
    ensures (p[..i] + p[j..])[k + 1] in g((p[..i] + p[j..])[k])
  {
    var m := if k < i then k else k - i + j;
    assert p[m + 1] in g(p[m]);
  }

  /**
   * With `maxDepth` at least the number of reachable sessions minus one, every reachable
   * session is printed.  `all` is any finite set with the root that is closed under children.
   */
  lemma {:induction false} DeepEnoughPrintsAll(g: Children, maxDepth: nat, root: Session, all: set<Session>)
    requires root in all && (forall s, c :: s in all && c in g(s) ==> c in all)
    requires maxDepth >= |all| - 1
    ensures NoLongDetour(g, maxDepth, root)
    ensures forall s :: s in Sessions(Printed(g, maxDepth, root)) <==> Reachable(g, root, s)
  {
    forall p, c | Detour(g, maxDepth, root, p) && c in g(p[|p| - 1]) ensures c in p {
      StaysInside(g, all, p);
      NoDupCardinality(p);
      FullSubset(Elements(p), all);
      assert p[|p| - 1] in Elements(p);
      assert c in Elements(p);
    }
    CompleteWithoutDetours(g, maxDepth, root);
    forall s ensures Within(g, root, s, maxDepth) <==> Reachable(g, root, s) {
      if Reachable(g, root, s) {
        var p :| PathTo(g, p, root, s);
        var q := Shorten(g, p);
        StaysInside(g, all, q);
        NoDupCardinality(q);
        SubsetSize(Elements(q), all);
        assert PathTo(g, q, root, s);
      }
    }
  }

  lemma {:induction false} StaysInside(g: Children, all: set<Session>, p: seq<Session>)
    requires IsPath(g, p) && p[0] in all && (forall s, c :: s in all && c in g(s) ==> c in all)
    ensures Elements(p) <= all
  {
    var i := 0;
    while i < |p|
      invariant i <= |p| && forall j :: 0 <= j < i ==> p[j] in all
    {
      assert i > 0 ==> p[i - 1] in all && p[i - 1 + 1] in g(p[i - 1]);
      i := i + 1;
    }
  }

  /** When no session has two parents the printout is complete at every depth limit. */
  lemma {:induction false} SingleParentsComplete(g: Children, maxDepth: nat, root: Session)
    requires forall a, b, c :: c in g(a) && c in g(b) ==> a == b
    ensures NoLongDetour(g, maxDepth, root) && Complete(g, maxDepth, root)
  {
    forall p ensures !Detour(g, maxDepth, root, p) {
      NoDetours(g, maxDepth, root, p);
    }
    CompleteWithoutDetours(g, maxDepth, root);
  }

  lemma {:induction false} NoDetours(g: Children, maxDepth: nat, root: Session, p: seq<Session>)
    requires forall a, b, c :: c in g(a) && c in g(b) ==> a == b
    ensures !Detour(g, maxDepth, root, p)
  {
    if IsPath(g, p) && p[0] == root && |p| - 1 == maxDepth && Within(g, root, p[|p| - 1], maxDepth - 1) {
      var q :| PathTo(g, q, root, p[|p| - 1]) && |q| - 1 <= maxDepth - 1;
      RootRecurs(g, p, q);
    }
  }

  lemma {:induction false} RootRecurs(g: Children, p: seq<Session>, q: seq<Session>)
    requires forall a, b, c :: c in g(a) && c in g(b) ==> a == b
    requires IsPath(g, p) && IsPath(g, q) && |q| < |p| && p[|p| - 1] == q[|q| - 1] && p[0] == q[0]
    ensures !NoDup(p)
  {
    OnlyOneWayBack(g, p, q);
    assert p[|p| - |q|] == p[|p| - |q|..][0];
  }

  /** With single parents, two paths to one session agree as far back as the shorter goes. */
  lemma {:induction false} OnlyOneWayBack(g: Children, p: seq<Session>, q: seq<Session>)
    requires forall a, b, d :: d in g(a) && d in g(b) ==> a == b
    requires IsPath(g, p) && IsPath(g, q) && |q| <= |p| && p[|p| - 1] == q[|q| - 1]
    ensures q == p[|p| - |q|..]
  {
    var m, n := |p| - 1, |q| - 1;
    if n > 0 {
      assert q[n - 1 + 1] in g(q[n - 1]) && p[m - 1 + 1] in g(p[m - 1]);
      OnlyOneWayBack(g, p[..m], q[..n]);
      assert q == q[..n] + [q[n]] && p[|p| - |q|..] == p[..m][m - n..] + [p[m]];
    }
  }

  /** The graph r -> a, b; a -> b; b -> c. */
  function Diamond(s: Session): seq<Session>
  {
    if s == Session("r") then [Session("a"), Session("b")]
    else if s == Session("a") then [Session("b")]
    else if s == Session("b") then [Session("c")]
    else []
  }

  lemma {:induction false} RenderOne(g: Children, maxDepth: int, s: Session, depth: nat, visited: set<Session>)
    ensures RenderAll(g, maxDepth, [s], depth, visited) == Render(g, maxDepth, s, depth, visited)
  {
    assert [s][1..] == [];
    var first := Render(g, maxDepth, s, depth, visited);
    assert RenderAll(g, maxDepth, [], depth, first.visited) == Tree(first.visited, []);
    assert first.lines + [] == first.lines;
  }

  /** Entered by way of a, b stands on the last level, and its child is cut off. */
  lemma {:induction false} DiamondLeft()
    ensures var r, a, b := Session("r"), Session("a"), Session("b");
            Render(Diamond, 2, a, 1, {r}) == Tree({r, a, b}, [Line(a, 1), Line(b, 2)])
  {
    var r, a, b, c := Session("r"), Session("a"), Session("b"), Session("c");
    assert {r} + {a} == {r, a} && {r, a} + {b} == {r, a, b};
    RenderOne(Diamond, 2, c, 3, {r, a, b});
    assert Render(Diamond, 2, c, 3, {r, a, b}) == Tree({r, a, b}, []);
    assert Render(Diamond, 2, b, 2, {r, a}) == Tree({r, a, b}, [Line(b, 2)]);
    RenderOne(Diamond, 2, b, 2, {r, a});
  }

  lemma {:induction false} DiamondPrinted()
    ensures Printed(Diamond, 2, Session("r")) == [Line(Session("r"), 0), Line(Session("a"), 1), Line(Session("b"), 2)]
  {
    var r, a, b := Session("r"), Session("a"), Session("b");
    DiamondLeft();
    RenderOne(Diamond, 2, b, 1, {r, a, b});
    assert Render(Diamond, 2, b, 1, {r, a, b}) == Tree({r, a, b}, []);
    assert [a, b][1..] == [b];
    assert RenderAll(Diamond, 2, [a, b], 1, {r}) == Tree({r, a, b}, [Line(a, 1), Line(b, 2)]);
    assert {} + {r} == {r};
  }

  /**
   * A shared child can be lost: entered first by the long route it sits on the last level,
   * and its own child, two hops from the root, is never printed.
   */
  lemma {:induction false} SharedChildCanHideOthers()
    ensures Within(Diamond, Session("r"), Session("c"), 2)
    ensures Session("c") !in Sessions(Printed(Diamond, 2, Session("r")))
  {
    var r, b, c := Session("r"), Session("b"), Session("c");
    DiamondPrinted();
    SessionsIn(Printed(Diamond, 2, r), c);
    assert PathTo(Diamond, [r, b, c], r, c);
  }
}
