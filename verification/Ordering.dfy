/**
 * One total order for the events of a correlation gathered from many hosts: each host's own
 * sequence, causes before effects, and ties broken by a key.  Events are named by their place
 * in the input.
 */
module Ordering {
  import opened Seqs

  // A missing field reads as "" or 0.
  datatype Event = Event(time: string, host: string, sequence: int, id: string, invocation: string, cause: string)

  // ---- The key and the orders it gives --------------------------------------------------------------

  predicate TextLess(a: string, b: string)
  {
    if b == "" then false
    else if a == "" then true
    else if a[0] != b[0] then a[0] < b[0]
    else TextLess(a[1..], b[1..])
  }

  lemma {:induction false} TextTotal(a: string, b: string)
    ensures !(TextLess(a, b) && TextLess(b, a)) && !TextLess(a, a)
    ensures TextLess(a, b) || TextLess(b, a) || a == b
  {
    if a != "" {
      TextTotal(a[1..], if b == "" then "" else b[1..]);
      if b != "" && a[0] == b[0] && a[1..] == b[1..] {
        assert a == [a[0]] + a[1..] && b == [b[0]] + b[1..];
      }
    }
  }

  lemma {:induction false} TextTransitive(a: string, b: string, c: string)
    requires TextLess(a, b) && TextLess(b, c)
    ensures TextLess(a, c)
  {
    if a != "" && a[0] == b[0] && b[0] == c[0] {
      TextTransitive(a[1..], b[1..], c[1..]);
    }
  }

  /** Time, host, sequence, id, compared in this order. */
  predicate KeyLess(a: Event, b: Event)
  {
    TextLess(a.time, b.time) || (a.time == b.time &&
    (TextLess(a.host, b.host) || (a.host == b.host &&
    (a.sequence < b.sequence || (a.sequence == b.sequence && TextLess(a.id, b.id))))))
  }

  predicate SameKey(a: Event, b: Event)
  {
    a.time == b.time && a.host == b.host && a.sequence == b.sequence && a.id == b.id
  }

  lemma {:induction false} KeyTotal(a: Event, b: Event)
    ensures !(KeyLess(a, b) && KeyLess(b, a)) && !KeyLess(a, a)
    ensures KeyLess(a, b) || KeyLess(b, a) || SameKey(a, b)
    ensures SameKey(a, b) ==> !KeyLess(a, b)
  {
    TextTotal(a.time, b.time);
    TextTotal(a.host, b.host);
    TextTotal(a.id, b.id);
  }

  lemma {:induction false} KeyTransitive(a: Event, b: Event, c: Event)
    requires (KeyLess(a, b) || SameKey(a, b)) && (KeyLess(b, c) || SameKey(b, c))
    ensures if SameKey(a, b) && SameKey(b, c) then SameKey(a, c) else KeyLess(a, c)
  {
    if TextLess(a.time, b.time) && TextLess(b.time, c.time) {
      TextTransitive(a.time, b.time, c.time);
    }
    if TextLess(a.host, b.host) && TextLess(b.host, c.host) {
      TextTransitive(a.host, b.host, c.host);
    }
    if TextLess(a.id, b.id) && TextLess(b.id, c.id) {
      TextTransitive(a.id, b.id, c.id);
    }
  }

  /** By key, and by place in the input where the keys are the same. */
  predicate Before(es: seq<Event>, i: nat, j: nat)
  {
    i < |es| && j < |es| && (KeyLess(es[i], es[j]) || (SameKey(es[i], es[j]) && i < j))
  }

  /** The order of one host's events: by sequence first. */
  predicate ChainBefore(es: seq<Event>, i: nat, j: nat)
  {
    && i < |es| && j < |es|
    && (es[i].sequence < es[j].sequence || (es[i].sequence == es[j].sequence && Before(es, i, j)))
  }

  lemma {:induction false} BeforeTotal(es: seq<Event>, i: nat, j: nat)
    requires i < |es| && j < |es|
    ensures !(Before(es, i, j) && Before(es, j, i)) && !Before(es, i, i)
    ensures Before(es, i, j) || Before(es, j, i) || i == j
    ensures !(ChainBefore(es, i, j) && ChainBefore(es, j, i)) && !ChainBefore(es, i, i)
    ensures ChainBefore(es, i, j) || ChainBefore(es, j, i) || i == j
  {
    KeyTotal(es[i], es[j]);
    KeyTotal(es[i], es[i]);
  }

  lemma {:induction false} BeforeTransitive(es: seq<Event>, i: nat, j: nat, k: nat)
    ensures Before(es, i, j) && Before(es, j, k) ==> Before(es, i, k)
    ensures ChainBefore(es, i, j) && ChainBefore(es, j, k) ==> ChainBefore(es, i, k)
  {
    if Before(es, i, j) && Before(es, j, k) {
      KeyTransitive(es[i], es[j], es[k]);
      KeyTotal(es[i], es[k]);
    }
  }

  // ---- Sorting ----------------------------------------------------------------------------------------

  type Less = (nat, nat) -> bool

  function ByKey(es: seq<Event>): Less
  {
    (i: nat, j: nat) => Before(es, i, j)
  }

  function ByChain(es: seq<Event>): Less
  {
    (i: nat, j: nat) => ChainBefore(es, i, j)
  }

  function Insert(less: Less, x: nat, s: seq<nat>): seq<nat>
  {
    if s == [] || less(x, s[0]) then [x] + s else [s[0]] + Insert(less, x, s[1..])
  }

  /** What the library's sort returns, for an order without ties. */
  function Sort(less: Less, s: seq<nat>): seq<nat>
  {
    if s == [] then [] else Insert(less, s[0], Sort(less, s[1..]))
  }

  ghost predicate Sorted(less: Less, s: seq<nat>)
  {
    forall i, j :: 0 <= i < j < |s| ==> less(s[i], s[j])
  }

  /** A strict total order on the indices below `n`. */
  ghost predicate Total(less: Less, n: nat)
  {
    && (forall i: nat :: i < n ==> !less(i, i))
    && (forall i: nat, j: nat :: i < n && j < n ==> less(i, j) || less(j, i) || i == j)
    && (forall i: nat, j: nat, k: nat :: i < n && j < n && k < n && less(i, j) && less(j, k) ==> less(i, k))
  }

  ghost predicate InRange(s: seq<nat>, n: nat)
  {
    forall x :: x in s ==> x < n
  }

  lemma {:induction false} OrdersTotal(es: seq<Event>)
    ensures Total(ByKey(es), |es|) && Total(ByChain(es), |es|)
  {
    forall i: nat, j: nat | i < |es| && j < |es|
      ensures Before(es, i, j) || Before(es, j, i) || i == j
      ensures ChainBefore(es, i, j) || ChainBefore(es, j, i) || i == j
      ensures !Before(es, i, i) && !ChainBefore(es, i, i)
    {
      BeforeTotal(es, i, j);
    }
    forall i: nat, j: nat, k: nat
      ensures Before(es, i, j) && Before(es, j, k) ==> Before(es, i, k)
      ensures ChainBefore(es, i, j) && ChainBefore(es, j, k) ==> ChainBefore(es, i, k)
    {
      BeforeTransitive(es, i, j, k);
    }
  }

  lemma {:induction false} InsertSorted(less: Less, x: nat, s: seq<nat>, n: nat)
    requires Total(less, n) && x < n && InRange(s, n) && Sorted(less, s) && x !in s
    ensures Sorted(less, Insert(less, x, s))
    ensures forall y :: y in Insert(less, x, s) <==> y == x || y in s
    ensures |Insert(less, x, s)| == |s| + 1
  {
    if s != [] {
      var rest := s[1..];
      assert s == [s[0]] + rest;
      assert s[0] in s && forall y :: y in s <==> y == s[0] || y in rest;
      assert forall i :: 0 <= i < |rest| ==> rest[i] == s[i + 1] && less(s[0], rest[i]);
      if less(x, s[0]) {
        PrependSorted(less, x, s, n);
      } else {
        InsertSorted(less, x, rest, n);
        PrependSorted(less, s[0], Insert(less, x, rest), n);
      }
    }
  }

  lemma {:induction false} PrependSorted(less: Less, x: nat, s: seq<nat>, n: nat)
    requires Total(less, n) && x < n && InRange(s, n) && Sorted(less, s)
    requires (forall y :: y in s ==> less(x, y)) || (s != [] && less(x, s[0]))
    ensures Sorted(less, [x] + s)
  {
    forall i | 0 <= i < |s| ensures less(x, s[i]) {
      assert s[i] in s && s[0] in s;
    }
  }

  lemma {:induction false} SortSorted(less: Less, s: seq<nat>, n: nat)
    requires Total(less, n) && InRange(s, n) && NoDup(s)
    ensures Sorted(less, Sort(less, s)) && |Sort(less, s)| == |s|
    ensures forall y :: y in Sort(less, s) <==> y in s
  {
    if s != [] {
      var rest := s[1..];
      assert s == [s[0]] + rest;
      assert s[0] in s && forall y :: y in s <==> y == s[0] || y in rest;
      assert forall i :: 0 <= i < |rest| ==> rest[i] == s[i + 1];
      SortSorted(less, rest, n);
      InsertSorted(less, s[0], Sort(less, rest), n);
    }
  }

  lemma {:induction false} SortedNoDup(less: Less, s: seq<nat>, n: nat)
    requires Total(less, n) && InRange(s, n) && Sorted(less, s)
    ensures NoDup(s)
  {
    forall i, j | 0 <= i < j < |s| ensures s[i] != s[j] {
      assert s[i] in s;
    }
  }

  // ---- What must come before what ------------------------------------------------------------------------

  /** The next event of the same host. */
  ghost predicate ChainEdge(es: seq<Event>, i: nat, j: nat)
  {
    && ChainBefore(es, i, j) && es[i].host == es[j].host
    && forall k: nat :: k < |es| && es[k].host == es[i].host ==> !(ChainBefore(es, i, k) && ChainBefore(es, k, j))
  }

  /** The first event of the invocation, by key. */
  ghost predicate IsFirst(es: seq<Event>, invocation: string, i: nat)
  {
    && i < |es| && es[i].invocation == invocation
    && forall k: nat :: k < |es| && es[k].invocation == invocation && k != i ==> Before(es, i, k)
  }

  /** The event `j` was caused by the invocation that begins with `i`. */
  ghost predicate SpawnEdge(es: seq<Event>, i: nat, j: nat)
  {
    i != j && j < |es| && es[j].cause != "" && IsFirst(es, es[j].cause, i)
  }

  ghost predicate Edge(es: seq<Event>, i: nat, j: nat)
  {
    ChainEdge(es, i, j) || SpawnEdge(es, i, j)
  }

  // ---- The order --------------------------------------------------------------------------------------------

  /** Not out yet, and everything that must come before it is. */
  ghost predicate Ready(es: seq<Event>, out: seq<nat>, j: nat)
  {
    j < |es| && j !in out && forall i: nat :: i < |es| && Edge(es, i, j) ==> i in out
  }

  ghost predicate IsNext(es: seq<Event>, out: seq<nat>, i: nat)
  {
    Ready(es, out, i) && forall k: nat :: Ready(es, out, k) ==> k == i || Before(es, i, k)
  }

  /** Each event in turn is the least, by key, of those that are ready. */
  ghost predicate Emits(es: seq<Event>, out: seq<nat>)
  {
    forall p :: 0 <= p < |out| ==> IsNext(es, out[..p], out[p])
  }

  ghost predicate Stuck(es: seq<Event>, out: seq<nat>)
  {
    forall i: nat :: !Ready(es, out, i)
  }

  function Missing(n: nat, out: seq<nat>): seq<nat>
  {
    if n == 0 then [] else Missing(n - 1, out) + if n - 1 in out then [] else [n - 1]
  }

  /** What is left over when nothing is ready, by key. */
  function Rest(es: seq<Event>, out: seq<nat>): seq<nat>
  {
    Sort(ByKey(es), Missing(|es|, out))
  }

  /** The places of the input in the order in which the events are returned; the first `|out|` were ready in turn. */
  ghost predicate IsOrder(es: seq<Event>, out: seq<nat>, order: seq<nat>)
  {
    Emits(es, out) && Stuck(es, out) && order == out + Rest(es, out)
  }

  lemma {:induction false} MissingIs(n: nat, out: seq<nat>)
    ensures forall i: nat :: i in Missing(n, out) <==> i < n && i !in out
    ensures NoDup(Missing(n, out))
  {
    if n > 0 {
      MissingIs(n - 1, out);
    }
  }

  lemma {:induction false} EmitsNoDup(es: seq<Event>, out: seq<nat>)
    requires Emits(es, out)
    ensures NoDup(out) && InRange(out, |es|)
  {
    forall p | 0 <= p < |out| ensures out[p] < |es| && out[p] !in out[..p] {
      assert IsNext(es, out[..p], out[p]);
    }
    forall i, j | 0 <= i < j < |out| ensures out[i] != out[j] {
      assert out[..j][i] == out[i];
    }
  }

  lemma {:induction false} RestIs(es: seq<Event>, out: seq<nat>)
    ensures forall i: nat :: i in Rest(es, out) <==> i < |es| && i !in out
    ensures Sorted(ByKey(es), Rest(es, out)) && NoDup(Rest(es, out))
  {
    MissingIs(|es|, out);
    OrdersTotal(es);
    SortSorted(ByKey(es), Missing(|es|, out), |es|);
    SortedNoDup(ByKey(es), Rest(es, out), |es|);
  }

  /** Every event is returned exactly once, cycles or not. */
  lemma {:induction false} OrderIsPermutation(es: seq<Event>, out: seq<nat>, order: seq<nat>)
    requires IsOrder(es, out, order)
    ensures NoDup(order) && forall i: nat :: i in order <==> i < |es|
  {
    EmitsNoDup(es, out);
    RestIs(es, out);
    var rest := Rest(es, out);
    forall i, j | 0 <= i < j < |order| ensures order[i] != order[j] {
      if i < |out| <= j {
        assert order[j] == rest[j - |out|] && rest[j - |out|] in rest && out[i] in out;
      } else if i >= |out| {
        assert order[i] == rest[i - |out|] && order[j] == rest[j - |out|];
      }
    }
  }

  /** In the order, `i` stands before `j`. */
  ghost predicate Precedes(order: seq<nat>, i: nat, j: nat)
  {
    exists p, q :: 0 <= p < q < |order| && order[p] == i && order[q] == j
  }

  /** An event that was ready in its turn comes after everything that must come before it. */
  lemma {:induction false} ReadyEdgesKept(es: seq<Event>, out: seq<nat>, i: nat, j: nat)
    requires Emits(es, out) && j in out && i < |es| && Edge(es, i, j)
    ensures Precedes(out, i, j)
  {
    var q :| 0 <= q < |out| && out[q] == j;
    assert IsNext(es, out[..q], out[q]);
    assert i in out[..q];
    var p :| 0 <= p < q && out[..q][p] == i;
    assert out[p] == i;
  }

  // ---- Cycles -------------------------------------------------------------------------------------------------

  /** Each event must come before the next, and the last is the first again. */
  ghost predicate IsCycle(es: seq<Event>, c: seq<nat>)
  {
    |c| >= 2 && c[0] == c[|c| - 1] && (forall k :: 0 <= k < |c| ==> c[k] < |es|)
    && forall k :: 0 <= k < |c| - 1 ==> Edge(es, c[k], c[k + 1])
  }

  ghost predicate Acyclic(es: seq<Event>)
  {
    forall c :: !IsCycle(es, c)
  }

  /** From an event left over one can go back as far as one likes without leaving what is left over. */
  lemma {:induction false} WalkBack(es: seq<Event>, out: seq<nat>, i: nat, n: nat) returns (c: seq<nat>)
    requires Stuck(es, out) && i < |es| && i !in out
    ensures |c| == n + 1 && c[n] == i
    ensures forall k :: 0 <= k <= n ==> c[k] < |es| && c[k] !in out
    ensures forall k :: 0 <= k < n ==> Edge(es, c[k], c[k + 1])
    decreases n
  {
    if n == 0 {
      return [i];
    }
    assert !Ready(es, out, i);
    var h: nat :| h < |es| && Edge(es, h, i) && h !in out;
    var before := WalkBack(es, out, h, n - 1);
    c := before + [i];
  }

  lemma {:induction false} LongWalkRepeats(c: seq<nat>, n: nat)
    requires |c| > n && forall k :: 0 <= k < |c| ==> c[k] < n
    ensures !NoDup(c)
  {
    if NoDup(c) {
      NoDupCardinality(c);
      UpToIs(n);
      assert forall x :: x in c ==> x in UpTo(n);
      SubsetSize(Elements(c), UpTo(n));
    }
  }

  function UpTo(n: nat): set<nat>
  {
    if n == 0 then {} else UpTo(n - 1) + {n - 1}
  }

  lemma {:induction false} UpToIs(n: nat)
    ensures |UpTo(n)| == n && forall i: nat :: i in UpTo(n) <==> i < n
  {
    if n > 0 {
      UpToIs(n - 1);
    }
  }

  lemma {:induction false} StuckHasCycle(es: seq<Event>, out: seq<nat>, i: nat) returns (c: seq<nat>)
    requires Stuck(es, out) && i < |es| && i !in out
    ensures IsCycle(es, c)
  {
    var w := WalkBack(es, out, i, |es|);
    LongWalkRepeats(w, |es|);
    var p, q :| 0 <= p < q < |w| && w[p] == w[q];
    c := w[p..q + 1];
    forall k | 0 <= k < |c| - 1 ensures Edge(es, c[k], c[k + 1]) {
      assert c[k] == w[p + k] && c[k + 1] == w[p + k + 1];
    }
  }

  /** Around a cycle everything would have to come before itself. */
  lemma {:induction false} CycleNotEmitted(es: seq<Event>, out: seq<nat>, c: seq<nat>, k: nat) returns (p: nat, q: nat)
    requires Emits(es, out) && IsCycle(es, c) && k < |c| && forall x :: x in c ==> x in out
    ensures p < |out| && q < |out| && out[p] == c[0] && out[q] == c[k] && p + k <= q
  {
    if k == 0 {
      assert c[0] in c;
      p :| 0 <= p < |out| && out[p] == c[0];
      q := p;
    } else {
      var r;
      p, r := CycleNotEmitted(es, out, c, k - 1);
      assert c[k - 1 + 1] in c && Edge(es, c[k - 1], c[k - 1 + 1]);
      ReadyEdgesKept(es, out, c[k - 1], c[k]);
      var p', q' :| 0 <= p' < q' < |out| && out[p'] == c[k - 1] && out[q'] == c[k];
      EmitsNoDup(es, out);
      q := q';
    }
  }

  /** Everything is ready in its turn if and only if nothing has to come before itself. */
  lemma {:induction false} AllReadyIffAcyclic(es: seq<Event>, out: seq<nat>)
    requires Emits(es, out) && Stuck(es, out)
    ensures (forall i :: 0 <= i < |es| ==> i in out) <==> Acyclic(es)
  {
    EmitsNoDup(es, out);
    if forall i :: 0 <= i < |es| ==> i in out {
      forall c ensures !IsCycle(es, c) {
        if IsCycle(es, c) {
          var p, q := CycleNotEmitted(es, out, c, |c| - 1);
        }
      }
    } else {
      var i :| 0 <= i < |es| && i !in out;
      var c := StuckHasCycle(es, out, i);
    }
  }

  lemma {:induction false} PrecedesIn(out: seq<nat>, rest: seq<nat>, i: nat, j: nat)
    requires Precedes(out, i, j)
    ensures Precedes(out + rest, i, j)
  {
    var p, q :| 0 <= p < q < |out| && out[p] == i && out[q] == j;
    assert (out + rest)[p] == i && (out + rest)[q] == j;
  }

  /** The order keeps all edges if and only if there is no cycle. */
  lemma {:induction false} EdgesKeptIffAcyclic(es: seq<Event>, out: seq<nat>, order: seq<nat>)
    requires IsOrder(es, out, order)
    ensures Acyclic(es) <==> forall i: nat, j: nat :: i < |es| && j < |es| && Edge(es, i, j) ==> Precedes(order, i, j)
  {
    OrderIsPermutation(es, out, order);
    AllReadyIffAcyclic(es, out);
    if Acyclic(es) {
      forall i: nat, j: nat | i < |es| && j < |es| && Edge(es, i, j) ensures Precedes(order, i, j) {
        ReadyEdgesKept(es, out, i, j);
        PrecedesIn(out, Rest(es, out), i, j);
      }
    } else {
      var c :| IsCycle(es, c);
      CycleBreaksOrder(es, order, c);
    }
  }

  lemma {:induction false} CycleBreaksOrder(es: seq<Event>, order: seq<nat>, c: seq<nat>)
    requires NoDup(order) && IsCycle(es, c) && forall x :: x in c ==> x in order
    ensures exists k :: 0 <= k < |c| - 1 && !Precedes(order, c[k], c[k + 1])
  {
    if forall k :: 0 <= k < |c| - 1 ==> Precedes(order, c[k], c[k + 1]) {
      var p, q := Climb(order, c, |c| - 1);
    }
  }

  lemma {:induction false} Climb(order: seq<nat>, c: seq<nat>, k: nat) returns (p: nat, q: nat)
    requires NoDup(order) && k < |c| && c[0] in order
    requires forall i :: 0 <= i < |c| - 1 ==> Precedes(order, c[i], c[i + 1])
    ensures p < |order| && q < |order| && order[p] == c[0] && order[q] == c[k] && p + k <= q
  {
    if k == 0 {
      p :| 0 <= p < |order| && order[p] == c[0];
      q := p;
    } else {
      var r;
      p, r := Climb(order, c, k - 1);
      assert Precedes(order, c[k - 1], c[k - 1 + 1]);
      var p', q' :| 0 <= p' < q' < |order| && order[p'] == c[k - 1] && order[q'] == c[k];
      q := q';
    }
  }

  // ---- Causes before effects -------------------------------------------------------------------------------

  ghost function Between(es: seq<Event>, i: nat, j: nat): set<nat>
  {
    set k | k in UpTo(|es|) && k < |es| && i < |es| && es[k].host == es[i].host && ChainBefore(es, i, k)
        && ChainBefore(es, k, j)
  }

  lemma {:induction false} BetweenShrinks(es: seq<Event>, i: nat, k: nat, j: nat)
    requires i < |es| && j < |es| && k in Between(es, i, j)
    ensures |Between(es, i, k)| < |Between(es, i, j)| && |Between(es, k, j)| < |Between(es, i, j)|
  {
    var all, left, right := Between(es, i, j), Between(es, i, k), Between(es, k, j);
    BeforeTotal(es, k, k);
    forall x | x in left ensures x in all {
      BeforeTransitive(es, x, k, j);
    }
    forall x | x in right ensures x in all {
      BeforeTransitive(es, i, k, x);
    }
    SubsetSize(left, all - {k});
    SubsetSize(right, all - {k});
  }

  lemma {:induction false} PrecedesTransitive(order: seq<nat>, i: nat, j: nat, k: nat)
    requires NoDup(order) && Precedes(order, i, j) && Precedes(order, j, k)
    ensures Precedes(order, i, k)
  {
    var p, q :| 0 <= p < q < |order| && order[p] == i && order[q] == j;
    var q', r :| 0 <= q' < r < |order| && order[q'] == j && order[r] == k;
    assert q == q';
  }

  lemma {:induction false} ChainKept(es: seq<Event>, order: seq<nat>, i: nat, j: nat)
    requires NoDup(order)
    requires forall a: nat, b: nat :: a < |es| && b < |es| && Edge(es, a, b) ==> Precedes(order, a, b)
    requires i < |es| && j < |es| && es[i].host == es[j].host && ChainBefore(es, i, j)
    ensures Precedes(order, i, j)
    decreases |Between(es, i, j)|
  {
    if ChainEdge(es, i, j) {
      assert Edge(es, i, j);
    } else {
      var k: nat :| k < |es| && es[k].host == es[i].host && ChainBefore(es, i, k) && ChainBefore(es, k, j);
      UpToIs(|es|);
      assert k in Between(es, i, j);
      BetweenShrinks(es, i, k, j);
      ChainKept(es, order, i, k);
      ChainKept(es, order, k, j);
      PrecedesTransitive(order, i, k, j);
    }
  }

  /**
   * Without a cycle, each host's events come in its own sequence, and every event comes after
   * the first event of the invocation that caused it.
   */
  lemma {:induction false} CausallyConsistent(es: seq<Event>, out: seq<nat>, order: seq<nat>, i: nat, j: nat)
    requires IsOrder(es, out, order) && Acyclic(es) && i < |es| && j < |es|
    ensures es[i].host == es[j].host && es[i].sequence < es[j].sequence ==> Precedes(order, i, j)
    ensures es[j].cause != "" && IsFirst(es, es[j].cause, i) && i != j ==> Precedes(order, i, j)
  {
    EdgesKeptIffAcyclic(es, out, order);
    OrderIsPermutation(es, out, order);
    if es[i].host == es[j].host && es[i].sequence < es[j].sequence {
      ChainKept(es, order, i, j);
    }
    if SpawnEdge(es, i, j) {
      assert Edge(es, i, j);
    }
  }

  /** Events with the same key, which no tiebreak tells apart, stay in the order of the input. */
  lemma {:induction false} TiesFollowInput(es: seq<Event>, out: seq<nat>, order: seq<nat>, i: nat, j: nat)
    requires IsOrder(es, out, order) && Acyclic(es) && i < j < |es| && SameKey(es[i], es[j])
    ensures Precedes(order, i, j)
  {
    EdgesKeptIffAcyclic(es, out, order);
    OrderIsPermutation(es, out, order);
    ChainKept(es, order, i, j);
  }
}
