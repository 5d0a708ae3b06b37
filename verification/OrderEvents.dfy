/** The procedure that computes the order: edges with their in-degrees, then a heap of what is ready. */
module OrderEvents {
  import opened Seqs
  import opened Ordering
  import opened CausalOrder

  // Successor lists, and for each event the number of times it occurs in them.
  datatype Graph = Graph(succ: seq<seq<nat>>, indeg: seq<nat>)

  function InDegree(succ: seq<seq<nat>>, j: nat): nat
  {
    if succ == [] then 0 else InDegree(succ[..|succ| - 1], j) + Occurrences(succ[|succ| - 1], j)
  }

  ghost predicate Linked(g: Graph, i: nat, j: nat)
  {
    i < |g.succ| && j in g.succ[i]
  }

  ghost predicate Sound(g: Graph, n: nat)
  {
    && |g.succ| == n && |g.indeg| == n
    && (forall i: nat, j: nat :: Linked(g, i, j) ==> j < n)
    && (forall j: nat :: j < n ==> g.indeg[j] == InDegree(g.succ, j))
  }

  function NoSuccessors(n: nat): (succ: seq<seq<nat>>)
    ensures |succ| == n && forall i :: 0 <= i < n ==> succ[i] == []
  {
    if n == 0 then [] else NoSuccessors(n - 1) + [[]]
  }

  function Zeros(n: nat): (r: seq<nat>)
    ensures |r| == n && forall i :: 0 <= i < n ==> r[i] == 0
  {
    if n == 0 then [] else Zeros(n - 1) + [0]
  }

  lemma {:induction false} NoneLinked(n: nat, j: nat)
    ensures InDegree(NoSuccessors(n), j) == 0
  {
    if n > 0 {
      NoneLinked(n - 1, j);
      assert NoSuccessors(n)[..n - 1] == NoSuccessors(n - 1);
    }
  }

  lemma {:induction false} InDegreeUpdate(succ: seq<seq<nat>>, a: nat, s: seq<nat>, j: nat)
    requires a < |succ|
    ensures InDegree(succ[a := s], j) + Occurrences(succ[a], j) == InDegree(succ, j) + Occurrences(s, j)
  {
    var n := |succ| - 1;
    if a < n {
      InDegreeUpdate(succ[..n], a, s, j);
      assert succ[a := s][..n] == succ[..n][a := s];
    } else {
      assert succ[a := s][..n] == succ[..n];
    }
  }

  lemma {:induction false} OneOccurrence(b: nat, j: nat)
    ensures Occurrences([b], j) == if b == j then 1 else 0
  {
    assert [b][1..] == [];
  }

  method AddEdge(g: Graph, a: nat, b: nat, ghost n: nat) returns (r: Graph)
    requires Sound(g, n) && a < n && b < n
    ensures Sound(r, n)
    ensures forall i: nat, j: nat :: Linked(r, i, j) <==> Linked(g, i, j) || (i == a && j == b)
  {
    r := Graph(g.succ[a := g.succ[a] + [b]], g.indeg[b := g.indeg[b] + 1]);
    forall i: nat, j: nat ensures Linked(r, i, j) <==> Linked(g, i, j) || (i == a && j == b) {
      assert i == a ==> (j in r.succ[a] <==> j in g.succ[a] || j == b);
    }
    forall j: nat | j < n ensures r.indeg[j] == InDegree(r.succ, j) {
      InDegreeUpdate(g.succ, a, g.succ[a] + [b], j);
      OccurrencesConcat(g.succ[a], [b], j);
      OneOccurrence(b, j);
    }
  }

  // ---- The first event of each invocation -------------------------------------------------------------

  ghost predicate FirstBelow(es: seq<Event>, n: nat, invocation: string, i: nat)
  {
    && i < n <= |es| && es[i].invocation == invocation
    && forall k: nat :: k < n && es[k].invocation == invocation && k != i ==> Before(es, i, k)
  }

  method FirstOfInvocation(es: seq<Event>) returns (first: map<string, nat>)
    ensures "" !in first
    ensures forall v :: v in first ==> IsFirst(es, v, first[v])
    ensures forall i :: 0 <= i < |es| && es[i].invocation != "" ==> es[i].invocation in first
  {
    first := map[];
    for n := 0 to |es|
      invariant "" !in first
      invariant forall v :: v in first ==> FirstBelow(es, n, v, first[v])
      invariant forall i :: 0 <= i < n && es[i].invocation != "" ==> es[i].invocation in first
    {
      var v := es[n].invocation;
      if v == "" {
        continue;
      }
      if v in first {
        KeyTotal(es[n], es[first[v]]);
        forall k: nat | k < n ensures Before(es, n, first[v]) && Before(es, first[v], k) ==> Before(es, n, k) {
          BeforeTransitive(es, n, first[v], k);
        }
      }
      if v !in first || KeyLess(es[n], es[first[v]]) {
        first := first[v := n];
      }
    }
  }

  // ---- Host chains -----------------------------------------------------------------------------------------

  function OfHost(es: seq<Event>, n: nat, host: string): seq<nat>
    requires n <= |es|
  {
    if n == 0 then [] else OfHost(es, n - 1, host) + if es[n - 1].host == host then [n - 1] else []
  }

  function Hosts(es: seq<Event>): seq<string>
  {
    if es == [] then []
    else
      var before, h := Hosts(es[..|es| - 1]), es[|es| - 1].host;
      if h in before then before else before + [h]
  }

  lemma {:induction false} OfHostIs(es: seq<Event>, n: nat, host: string)
    requires n <= |es|
    ensures forall i: nat :: i in OfHost(es, n, host) <==> i < n && es[i].host == host
    ensures NoDup(OfHost(es, n, host))
  {
    if n > 0 {
      OfHostIs(es, n - 1, host);
    }
  }

  lemma {:induction false} HostsIs(es: seq<Event>)
    ensures forall h :: h in Hosts(es) <==> exists e :: e in es && e.host == h
  {
    if es != [] {
      var n := |es| - 1;
      HostsIs(es[..n]);
      assert es == es[..n] + [es[n]];
      assert es[n] in es && forall e :: e in es[..n] ==> e in es;
    }
  }

  /** The events of one host in the order of its chain. */
  ghost predicate IsChain(es: seq<Event>, host: string, s: seq<nat>)
  {
    && Sorted(ByChain(es), s) && InRange(s, |es|)
    && forall i: nat :: i in s <==> i < |es| && es[i].host == host
  }

  lemma {:induction false} SortedChain(es: seq<Event>, host: string)
    ensures IsChain(es, host, Sort(ByChain(es), OfHost(es, |es|, host)))
  {
    OfHostIs(es, |es|, host);
    OrdersTotal(es);
    SortSorted(ByChain(es), OfHost(es, |es|, host), |es|);
  }

  lemma {:induction false} NeighboursAreEdges(es: seq<Event>, host: string, s: seq<nat>, p: nat)
    requires IsChain(es, host, s) && p + 1 < |s|
    ensures ChainEdge(es, s[p], s[p + 1])
  {
    ChainPlaces(es, host, s, p, p + 1);
    forall k: nat | k < |es| && es[k].host == host ensures !(ChainBefore(es, s[p], k) && ChainBefore(es, k, s[p + 1])) {
      var q: nat :| q < |s| && s[q] == k;
      ChainPlaces(es, host, s, p, q);
      ChainPlaces(es, host, s, q, p + 1);
    }
  }

  lemma {:induction false} EdgesAreNeighbours(es: seq<Event>, host: string, s: seq<nat>, i: nat, j: nat)
    returns (p: nat)
    requires IsChain(es, host, s) && ChainEdge(es, i, j) && es[i].host == host
    ensures p + 1 < |s| && s[p] == i && s[p + 1] == j
  {
    p :| 0 <= p < |s| && s[p] == i;
    var q: nat :| q < |s| && s[q] == j;
    ChainPlaces(es, host, s, p, q);
    if q > p + 1 {
      NoSkipping(es, host, s, p, q);
    }
  }

  lemma {:induction false} NoSkipping(es: seq<Event>, host: string, s: seq<nat>, p: nat, q: nat)
    requires IsChain(es, host, s) && p + 1 < q < |s|
    ensures !ChainEdge(es, s[p], s[q])
  {
    var k := s[p + 1];
    ChainPlaces(es, host, s, p, p + 1);
    ChainPlaces(es, host, s, p + 1, q);
    assert k < |es| && es[k].host == es[s[p]].host && ChainBefore(es, s[p], k) && ChainBefore(es, k, s[q]);
  }

  /** Along the chain, the order is the order of the places. */
  lemma {:induction false} ChainPlaces(es: seq<Event>, host: string, s: seq<nat>, p: nat, q: nat)
    requires IsChain(es, host, s) && p < |s| && q < |s|
    ensures s[p] < |es| && s[q] < |es| && es[s[p]].host == es[s[q]].host == host
    ensures ChainBefore(es, s[p], s[q]) <==> p < q
  {
    assert s[p] in s && s[q] in s;
    BeforeTotal(es, s[p], s[q]);
    if p < q {
      assert ByChain(es)(s[p], s[q]);
    } else if q < p {
      assert ByChain(es)(s[q], s[p]);
    }
  }

  ghost predicate HostDone(es: seq<Event>, hosts: seq<string>, i: nat, j: nat)
  {
    i < |es| && es[i].host in hosts && ChainEdge(es, i, j)
  }

  ghost predicate Neighbours(s: seq<nat>, m: nat, i: nat, j: nat)
  {
    exists p :: 0 <= p < m && p + 1 < |s| && s[p] == i && s[p + 1] == j
  }

  method AddChain(es: seq<Event>, g: Graph, host: string) returns (r: Graph)
    requires Sound(g, |es|)
    ensures Sound(r, |es|)
    ensures forall i: nat, j: nat :: Linked(r, i, j) <==>
              Linked(g, i, j) || (i < |es| && es[i].host == host && ChainEdge(es, i, j))
  {
    var s := Sort(ByChain(es), OfHost(es, |es|, host));
    SortedChain(es, host);
    r := g;
    var p := 0;
    while p + 1 < |s|
      invariant p == 0 || p < |s|
      invariant Sound(r, |es|)
      invariant forall i: nat, j: nat :: Linked(r, i, j) <==> Linked(g, i, j) || Neighbours(s, p, i, j)
    {
      assert s[p] in s && s[p + 1] in s;
      ghost var before := r;
      r := AddEdge(r, s[p], s[p + 1], |es|);
      forall i: nat, j: nat
        ensures Neighbours(s, p + 1, i, j) <==> Neighbours(s, p, i, j) || (i == s[p] && j == s[p + 1])
      {
        NeighboursMore(s, p, i, j);
      }
      p := p + 1;
    }
    forall i: nat, j: nat ensures Neighbours(s, p, i, j) <==> i < |es| && es[i].host == host && ChainEdge(es, i, j) {
      ChainNeighbours(es, host, s, p, i, j);
    }
  }

  lemma {:induction false} NeighboursMore(s: seq<nat>, p: nat, i: nat, j: nat)
    requires p + 1 < |s|
    ensures Neighbours(s, p + 1, i, j) <==> Neighbours(s, p, i, j) || (i == s[p] && j == s[p + 1])
  {
    if Neighbours(s, p, i, j) {
      var q :| 0 <= q < p && q + 1 < |s| && s[q] == i && s[q + 1] == j;
      assert q < p + 1;
    }
  }

  lemma {:induction false} ChainNeighbours(es: seq<Event>, host: string, s: seq<nat>, p: nat, i: nat, j: nat)
    requires IsChain(es, host, s) && p + 1 >= |s|
    ensures Neighbours(s, p, i, j) <==> i < |es| && es[i].host == host && ChainEdge(es, i, j)
  {
    if Neighbours(s, p, i, j) {
      var q :| 0 <= q < p && q + 1 < |s| && s[q] == i && s[q + 1] == j;
      assert s[q] in s;
      NeighboursAreEdges(es, host, s, q);
    } else if i < |es| && es[i].host == host && ChainEdge(es, i, j) {
      var q := EdgesAreNeighbours(es, host, s, i, j);
    }
  }

  method BuildGraph(es: seq<Event>) returns (g: Graph)
    ensures Sound(g, |es|)
    ensures forall i: nat, j: nat :: i < |es| ==> (Linked(g, i, j) <==> Edge(es, i, j))
  {
    var first := FirstOfInvocation(es);
    g := Graph(NoSuccessors(|es|), Zeros(|es|));
    forall j: nat ensures InDegree(NoSuccessors(|es|), j) == 0 {
      NoneLinked(|es|, j);
    }
    var hosts := Hosts(es);
    HostsIs(es);
    for h := 0 to |hosts|
      invariant Sound(g, |es|)
      invariant forall i: nat, j: nat :: Linked(g, i, j) <==> HostDone(es, hosts[..h], i, j)
    {
      assert hosts[..h + 1] == hosts[..h] + [hosts[h]];
      g := AddChain(es, g, hosts[h]);
    }
    assert hosts[..|hosts|] == hosts;
    forall i: nat, j: nat | i < |es| ensures HostDone(es, hosts, i, j) <==> ChainEdge(es, i, j) {
      assert es[i] in es;
    }
    g := AddSpawns(es, g, first);
  }

  method AddSpawns(es: seq<Event>, g: Graph, first: map<string, nat>) returns (r: Graph)
    requires Sound(g, |es|)
    requires "" !in first && (forall v :: v in first ==> IsFirst(es, v, first[v]))
    requires forall i :: 0 <= i < |es| && es[i].invocation != "" ==> es[i].invocation in first
    ensures Sound(r, |es|)
    ensures forall i: nat, j: nat :: Linked(r, i, j) <==> Linked(g, i, j) || SpawnEdge(es, i, j)
  {
    r := g;
    for k := 0 to |es|
      invariant Sound(r, |es|)
      invariant forall i: nat, j: nat :: Linked(r, i, j) <==> Linked(g, i, j) || (j < k && SpawnEdge(es, i, j))
    {
      var cause := es[k].cause;
      forall i: nat ensures SpawnEdge(es, i, k) <==> cause in first && i == first[cause] && i != k {
        SpawnIs(es, first, i, k);
      }
      if cause in first && first[cause] != k {
        r := AddEdge(r, first[cause], k, |es|);
      }
    }
  }

  lemma {:induction false} SpawnIs(es: seq<Event>, first: map<string, nat>, i: nat, k: nat)
    requires k < |es| && "" !in first && (forall v :: v in first ==> IsFirst(es, v, first[v]))
    requires forall i :: 0 <= i < |es| && es[i].invocation != "" ==> es[i].invocation in first
    ensures SpawnEdge(es, i, k) <==> es[k].cause in first && i == first[es[k].cause] && i != k
  {
    var cause := es[k].cause;
    if SpawnEdge(es, i, k) {
      assert es[i].invocation == cause;
      BeforeTotal(es, i, first[cause]);
    }
  }

  // ---- Emitting what is ready --------------------------------------------------------------------------------

  /** How often `j` is a successor of events that are not out yet. */
  function Waiting(succ: seq<seq<nat>>, out: seq<nat>, j: nat): nat
  {
    if succ == [] then 0
    else
      var n := |succ| - 1;
      Waiting(succ[..n], out, j) + if n in out then 0 else Occurrences(succ[n], j)
  }

  lemma {:induction false} WaitingZero(succ: seq<seq<nat>>, out: seq<nat>, j: nat)
    ensures Waiting(succ, out, j) == 0 <==> forall i :: 0 <= i < |succ| && j in succ[i] ==> i in out
  {
    if succ != [] {
      var n := |succ| - 1;
      WaitingZero(succ[..n], out, j);
      OccurrencesPositive(succ[n], j);
    }
  }

  lemma {:induction false} WaitingNone(succ: seq<seq<nat>>, j: nat)
    ensures Waiting(succ, [], j) == InDegree(succ, j)
  {
    if succ != [] {
      WaitingNone(succ[..|succ| - 1], j);
    }
  }

  lemma {:induction false} WaitingLess(succ: seq<seq<nat>>, out: seq<nat>, i: nat, j: nat)
    requires i !in out
    ensures Waiting(succ, out, j) == Waiting(succ, out + [i], j) + if i < |succ| then Occurrences(succ[i], j) else 0
  {
    if succ != [] {
      var n := |succ| - 1;
      WaitingLess(succ[..n], out, i, j);
    }
  }

  method PopLeast(es: seq<Event>, heap: set<nat>) returns (least: nat)
    requires heap != {} && forall i :: i in heap ==> i < |es|
    ensures least in heap && forall k :: k in heap ==> k == least || Before(es, least, k)
  {
    least :| least in heap;
    var rest := heap - {least};
    while rest != {}
      invariant rest <= heap && least in heap
      invariant forall k :: k in heap - rest ==> k == least || Before(es, least, k)
      decreases |rest|
    {
      var i :| i in rest;
      BeforeTotal(es, i, least);
      forall k ensures Before(es, i, least) && Before(es, least, k) ==> Before(es, i, k) {
        BeforeTransitive(es, i, least, k);
      }
      if Before(es, i, least) {
        least := i;
      }
      rest := rest - {i};
    }
  }

  /** The counters and the heap after the events `out` and, of the next one's successors, the first `t`. */
  ghost predicate Counted(succ: seq<seq<nat>>, indeg: seq<nat>, heap: set<nat>, out: seq<nat>, left: seq<nat>)
  {
    && |indeg| == |succ|
    && (forall j: nat :: j < |succ| ==> indeg[j] == Waiting(succ, out, j) + Occurrences(left, j))
    && (forall j: nat :: j in heap <==> j < |succ| && j !in out && indeg[j] == 0)
    && forall j: nat :: j < |succ| && j in out ==> Waiting(succ, out, j) == 0 && Occurrences(left, j) == 0
  }

  method Release(succ: seq<seq<nat>>, indeg: seq<nat>, heap: set<nat>, out: seq<nat>, i: nat)
    returns (indeg': seq<nat>, heap': set<nat>)
    requires i < |succ| && i !in out && i in heap && Counted(succ, indeg, heap, out, [])
    requires forall x :: x in succ[i] ==> x < |succ|
    ensures Counted(succ, indeg', heap', out + [i], [])
  {
    var todo := succ[i];
    indeg', heap' := indeg, heap - {i};
    forall j: nat | j < |succ| ensures indeg'[j] == Waiting(succ, out + [i], j) + Occurrences(todo, j) {
      WaitingLess(succ, out, i, j);
    }
    forall j: nat | j < |succ| && j in out + [i] ensures Waiting(succ, out + [i], j) == 0 && Occurrences(todo, j) == 0 {
      WaitingLess(succ, out, i, j);
      assert Occurrences<nat>([], j) == 0;
    }
    assert todo[0..] == todo;
    for t := 0 to |todo|
      invariant Counted(succ, indeg', heap', out + [i], todo[t..])
    {
      var j := todo[t];
      assert j in todo && todo[t..][0] == j && todo[t..][1..] == todo[t + 1..];
      indeg' := indeg'[j := indeg'[j] - 1];
      if indeg'[j] == 0 {
        heap' := heap' + {j};
      }
    }
    assert todo[|todo|..] == [];
  }

  method EmitReady(es: seq<Event>, g: Graph) returns (out: seq<nat>)
    requires Sound(g, |es|) && forall i: nat, j: nat :: i < |es| ==> (Linked(g, i, j) <==> Edge(es, i, j))
    ensures Emits(es, out) && Stuck(es, out)
  {
    var indeg := g.indeg;
    var heap: set<nat> := set i: nat | i < |es| && g.indeg[i] == 0;
    out := [];
    forall j: nat ensures Waiting(g.succ, [], j) == InDegree(g.succ, j) {
      WaitingNone(g.succ, j);
    }
    while heap != {}
      invariant Emits(es, out) && Counted(g.succ, indeg, heap, out, [])
      decreases |es| - |out|
    {
      var i := PopLeast(es, heap);
      forall k: nat ensures k in heap <==> Ready(es, out, k) {
        HeapIsReady(es, g, indeg, heap, out, k);
      }
      EmitsMore(es, out, i);
      forall x | x in g.succ[i] ensures x < |es| {
        assert Linked(g, i, x);
      }
      indeg, heap := Release(g.succ, indeg, heap, out, i);
      out := out + [i];
      EmitsFits(es, out);
    }
    forall k: nat ensures !Ready(es, out, k) {
      HeapIsReady(es, g, indeg, heap, out, k);
    }
  }

  lemma {:induction false} HeapIsReady(es: seq<Event>, g: Graph, indeg: seq<nat>, heap: set<nat>, out: seq<nat>, k: nat)
    requires Sound(g, |es|) && forall i: nat, j: nat :: i < |es| ==> (Linked(g, i, j) <==> Edge(es, i, j))
    requires Counted(g.succ, indeg, heap, out, [])
    ensures k in heap <==> Ready(es, out, k)
  {
    WaitingZero(g.succ, out, k);
    forall i: nat | i < |es| ensures k in g.succ[i] <==> Edge(es, i, k) {
      assert Linked(g, i, k) <==> Edge(es, i, k);
    }
  }

  lemma {:induction false} EmitsMore(es: seq<Event>, out: seq<nat>, i: nat)
    requires Emits(es, out) && IsNext(es, out, i)
    ensures Emits(es, out + [i])
  {
    var more := out + [i];
    forall p | 0 <= p < |more| ensures IsNext(es, more[..p], more[p]) {
      if p < |out| {
        assert more[..p] == out[..p] && IsNext(es, out[..p], out[p]);
      } else {
        assert more[..p] == out;
      }
    }
  }

  lemma {:induction false} EmitsFits(es: seq<Event>, out: seq<nat>)
    requires Emits(es, out)
    ensures |out| <= |es|
  {
    EmitsNoDup(es, out);
    NoDupCardinality(out);
    UpToIs(|es|);
    SubsetSize(Elements(out), UpTo(|es|));
  }

  /** The places of the events in the order in which they are returned. */
  method OrderPlaces(es: seq<Event>) returns (order: seq<nat>, ghost out: seq<nat>)
    ensures IsOrder(es, out, order)
    ensures IsPermutation(es, order) && LeastFirst(es, order)
    ensures Acyclic(es) ==> PrecedenceKept(es, order)
  {
    if |es| <= 1 {
      order := if es == [] then [] else [0];
      out := order;
      OneOrNone(es, order);
      Returned(es, out, order);
      return;
    }
    var g := BuildGraph(es);
    var ready := EmitReady(es, g);
    order, out := ready, ready;
    if |ready| < |es| {
      order := ready + Rest(es, ready);
    } else {
      NothingMissing(es, out);
      assert out + [] == out;
    }
    Returned(es, out, order);
  }

  lemma {:induction false} Returned(es: seq<Event>, out: seq<nat>, order: seq<nat>)
    requires IsOrder(es, out, order)
    ensures IsPermutation(es, order) && LeastFirst(es, order)
    ensures Acyclic(es) ==> PrecedenceKept(es, order)
  {
    OrderIsLeastFirst(es, out, order);
    if Acyclic(es) {
      OrderKeepsPrecedence(es, out, order);
    }
  }

  lemma {:induction false} OneOrNone(es: seq<Event>, order: seq<nat>)
    requires |es| <= 1 && order == if es == [] then [] else [0]
    ensures IsOrder(es, order, order)
  {
    if es != [] {
      BeforeTotal(es, 0, 0);
      assert order[..0] == [] && IsNext(es, [], 0);
    }
    EmitsNoDup(es, order);
    NothingMissing(es, order);
    assert order + [] == order;
  }

  lemma {:induction false} NothingMissing(es: seq<Event>, out: seq<nat>)
    requires Emits(es, out) && |out| >= |es|
    ensures Rest(es, out) == []
  {
    RestIs(es, out);
    EmitsNoDup(es, out);
    NothingElse(es, out, Rest(es, out));
  }

  lemma {:induction false} NothingElse(es: seq<Event>, out: seq<nat>, rest: seq<nat>)
    requires NoDup(out) && InRange(out, |es|) && |out| >= |es|
    requires forall i: nat :: i in rest <==> i < |es| && i !in out
    ensures rest == []
  {
    NoDupCardinality(out);
    UpToIs(|es|);
    FullSubset(Elements(out), UpTo(|es|));
    forall i: nat | i < |es| ensures i in out {
      assert i in UpTo(|es|) && i in Elements(out);
    }
    HeadIn(rest);
  }
}
