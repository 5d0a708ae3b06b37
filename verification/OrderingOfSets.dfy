/** With distinct keys the order is that of the set of events: how the input lists them plays no part. */
module OrderingOfSets {
  import opened Seqs
  import opened Ordering

  ghost predicate DistinctKeys(es: seq<Event>)
  {
    forall i, j :: 0 <= i < j < |es| ==> !SameKey(es[i], es[j])
  }

  ghost predicate SameMembers(a: seq<Event>, b: seq<Event>)
  {
    forall e :: e in a <==> e in b
  }

  /** The events at these places. */
  function At(es: seq<Event>, places: seq<nat>): (r: seq<Event>)
    requires InRange(places, |es|)
    ensures |r| == |places|
    ensures forall p :: 0 <= p < |r| ==> places[p] in places && r[p] == es[places[p]]
  {
    if places == [] then []
    else
      var n := |places| - 1;
      assert places[n] in places;
      assert forall x :: x in places[..n] ==> x in places;
      At(es, places[..n]) + [es[places[n]]]
  }

  // ---- The same notions for events instead of places ------------------------------------------------

  predicate ChainLess(a: Event, b: Event)
  {
    a.sequence < b.sequence || (a.sequence == b.sequence && KeyLess(a, b))
  }

  ghost predicate EventEdge(es: seq<Event>, a: Event, b: Event)
  {
    || (ChainLess(a, b) && a.host == b.host
        && forall c :: c in es && c.host == a.host ==> !(ChainLess(a, c) && ChainLess(c, b)))
    || (a != b && b.cause != "" && a.invocation == b.cause
        && forall c :: c in es && c.invocation == b.cause && c != a ==> KeyLess(a, c))
  }

  ghost predicate EventReady(es: seq<Event>, done: seq<Event>, b: Event)
  {
    b in es && b !in done && forall a :: a in es && EventEdge(es, a, b) ==> a in done
  }

  lemma {:induction false} DistinctPlaces(es: seq<Event>, i: nat, j: nat)
    requires DistinctKeys(es) && i < |es| && j < |es|
    ensures es[i] == es[j] <==> i == j
    ensures Before(es, i, j) <==> KeyLess(es[i], es[j])
    ensures ChainBefore(es, i, j) <==> ChainLess(es[i], es[j])
  {
    KeysDiffer(es, i, j);
    KeyTotal(es[i], es[j]);
  }

  lemma {:induction false} KeysDiffer(es: seq<Event>, i: nat, j: nat)
    requires DistinctKeys(es) && i < |es| && j < |es|
    ensures i != j ==> !SameKey(es[i], es[j])
  {
    if j < i {
      assert !SameKey(es[j], es[i]);
    }
  }

  lemma {:induction false} ChainIsEvent(es: seq<Event>, i: nat, j: nat)
    requires DistinctKeys(es) && i < |es| && j < |es|
    ensures ChainEdge(es, i, j) <==>
            ChainLess(es[i], es[j]) && es[i].host == es[j].host
            && forall c :: c in es && c.host == es[i].host ==> !(ChainLess(es[i], c) && ChainLess(c, es[j]))
  {
    DistinctPlaces(es, i, j);
    forall k: nat | k < |es|
      ensures ChainBefore(es, i, k) <==> ChainLess(es[i], es[k])
      ensures ChainBefore(es, k, j) <==> ChainLess(es[k], es[j])
    {
      DistinctPlaces(es, i, k);
      DistinctPlaces(es, k, j);
    }
    if c :| c in es && c.host == es[i].host && ChainLess(es[i], c) && ChainLess(c, es[j]) {
      var k: nat :| k < |es| && es[k] == c;
      assert ChainBefore(es, i, k) && ChainBefore(es, k, j);
    }
  }

  lemma {:induction false} SpawnIsEvent(es: seq<Event>, i: nat, j: nat)
    requires DistinctKeys(es) && i < |es| && j < |es|
    ensures SpawnEdge(es, i, j) <==>
            es[i] != es[j] && es[j].cause != "" && es[i].invocation == es[j].cause
            && forall c :: c in es && c.invocation == es[j].cause && c != es[i] ==> KeyLess(es[i], c)
  {
    DistinctPlaces(es, i, j);
    forall k: nat | k < |es| ensures (Before(es, i, k) <==> KeyLess(es[i], es[k])) && (es[k] == es[i] <==> k == i) {
      DistinctPlaces(es, i, k);
    }
    if c :| c in es && c.invocation == es[j].cause && c != es[i] && !KeyLess(es[i], c) {
      var k: nat :| k < |es| && es[k] == c;
      assert !Before(es, i, k);
    }
  }

  lemma {:induction false} EdgeIsEvent(es: seq<Event>, i: nat, j: nat)
    requires DistinctKeys(es) && i < |es| && j < |es|
    ensures Edge(es, i, j) <==> EventEdge(es, es[i], es[j])
  {
    ChainIsEvent(es, i, j);
    SpawnIsEvent(es, i, j);
  }

  lemma {:induction false} PlaceIn(es: seq<Event>, out: seq<nat>, j: nat)
    requires DistinctKeys(es) && InRange(out, |es|) && j < |es|
    ensures es[j] in At(es, out) <==> j in out
  {
    if es[j] in At(es, out) {
      var p :| 0 <= p < |out| && At(es, out)[p] == es[j];
      assert out[p] in out;
      DistinctPlaces(es, out[p], j);
    }
    if j in out {
      var p :| 0 <= p < |out| && out[p] == j;
      assert At(es, out)[p] == es[j];
    }
  }

  lemma {:induction false} ReadyIsEvent(es: seq<Event>, out: seq<nat>, j: nat)
    requires DistinctKeys(es) && InRange(out, |es|) && j < |es|
    ensures Ready(es, out, j) <==> EventReady(es, At(es, out), es[j])
  {
    PlaceIn(es, out, j);
    forall i: nat | i < |es|
      ensures (Edge(es, i, j) <==> EventEdge(es, es[i], es[j])) && (es[i] in At(es, out) <==> i in out)
    {
      EdgeIsEvent(es, i, j);
      PlaceIn(es, out, i);
    }
    if a :| a in es && EventEdge(es, a, es[j]) && a !in At(es, out) {
      var i: nat :| i < |es| && es[i] == a;
      assert Edge(es, i, j) && i !in out;
    }
  }

  lemma {:induction false} EdgesOfMembers(es: seq<Event>, fs: seq<Event>, a: Event, b: Event)
    requires SameMembers(es, fs)
    ensures EventEdge(es, a, b) <==> EventEdge(fs, a, b)
  {
  }

  lemma {:induction false} ReadyOfMembers(es: seq<Event>, fs: seq<Event>, done: seq<Event>, b: Event)
    requires SameMembers(es, fs)
    ensures EventReady(es, done, b) <==> EventReady(fs, done, b)
  {
    forall a ensures EventEdge(es, a, b) <==> EventEdge(fs, a, b) {
      EdgesOfMembers(es, fs, a, b);
    }
  }

  // ---- The two orders side by side -----------------------------------------------------------------------

  /** What is ready in one listing is ready in the other, at some place. */
  lemma {:induction false} ReadyThere(es: seq<Event>, out: seq<nat>, fs: seq<Event>, out': seq<nat>, i: nat)
    returns (j: nat)
    requires DistinctKeys(es) && DistinctKeys(fs) && SameMembers(es, fs)
    requires InRange(out, |es|) && InRange(out', |fs|) && At(es, out) == At(fs, out') && Ready(es, out, i)
    ensures Ready(fs, out', j) && fs[j] == es[i]
  {
    ReadyIsEvent(es, out, i);
    ReadyOfMembers(es, fs, At(es, out), es[i]);
    assert es[i] in fs;
    j :| 0 <= j < |fs| && fs[j] == es[i];
    ReadyIsEvent(fs, out', j);
  }

  lemma {:induction false} NextSame(es: seq<Event>, out: seq<nat>, fs: seq<Event>, out': seq<nat>, i: nat, j: nat)
    requires DistinctKeys(es) && DistinctKeys(fs) && SameMembers(es, fs)
    requires InRange(out, |es|) && InRange(out', |fs|) && At(es, out) == At(fs, out')
    requires IsNext(es, out, i) && IsNext(fs, out', j)
    ensures es[i] == fs[j]
  {
    var j' := ReadyThere(es, out, fs, out', i);
    var i' := ReadyThere(fs, out', es, out, j);
    DistinctPlaces(fs, j, j');
    DistinctPlaces(es, i, i');
    KeyTotal(es[i], fs[j]);
  }

  /** The first `p` events out are the same. */
  ghost predicate SoFar(es: seq<Event>, out: seq<nat>, fs: seq<Event>, out': seq<nat>, p: nat)
    requires p <= |out| && p <= |out'|
  {
    InRange(out[..p], |es|) && InRange(out'[..p], |fs|) && At(es, out[..p]) == At(fs, out'[..p])
  }

  lemma {:induction false} OneMore(es: seq<Event>, out: seq<nat>, fs: seq<Event>, out': seq<nat>, p: nat)
    requires DistinctKeys(es) && DistinctKeys(fs) && SameMembers(es, fs)
    requires p < |out| && p < |out'| && SoFar(es, out, fs, out', p)
    requires IsNext(es, out[..p], out[p]) && IsNext(fs, out'[..p], out'[p])
    ensures SoFar(es, out, fs, out', p + 1)
  {
    NextSame(es, out[..p], fs, out'[..p], out[p], out'[p]);
    AtSnoc(es, out, p + 1);
    AtSnoc(fs, out', p + 1);
  }

  lemma {:induction false} EmittedSame(es: seq<Event>, out: seq<nat>, fs: seq<Event>, out': seq<nat>, p: nat)
    requires DistinctKeys(es) && DistinctKeys(fs) && SameMembers(es, fs)
    requires Emits(es, out) && Emits(fs, out') && p <= |out| && p <= |out'|
    ensures SoFar(es, out, fs, out', p)
  {
    var k := 0;
    while k < p
      invariant k <= p && SoFar(es, out, fs, out', k)
    {
      EmitsAt(es, out, k);
      EmitsAt(fs, out', k);
      OneMore(es, out, fs, out', k);
      k := k + 1;
    }
  }

  lemma {:induction false} EmitsAt(es: seq<Event>, out: seq<nat>, p: nat)
    requires Emits(es, out) && p < |out|
    ensures IsNext(es, out[..p], out[p])
  {
  }

  lemma {:induction false} AtSnoc(es: seq<Event>, out: seq<nat>, p: nat)
    requires 0 < p <= |out| && InRange(out[..p - 1], |es|) && out[p - 1] < |es|
    ensures InRange(out[..p], |es|) && At(es, out[..p]) == At(es, out[..p - 1]) + [es[out[p - 1]]]
  {
    assert out[..p] == out[..p - 1] + [out[p - 1]];
    assert out[..p][..p - 1] == out[..p - 1];
  }

  lemma {:induction false} NoLonger(es: seq<Event>, out: seq<nat>, fs: seq<Event>, out': seq<nat>)
    requires DistinctKeys(es) && DistinctKeys(fs) && SameMembers(es, fs)
    requires InRange(out, |es|) && InRange(out', |fs|) && Emits(es, out) && Emits(fs, out') && Stuck(es, out)
    ensures |out'| <= |out|
  {
    if |out| < |out'| {
      var p := |out|;
      EmittedSame(es, out, fs, out', p);
      assert out[..p] == out;
      assert IsNext(fs, out'[..p], out'[p]);
      var i := ReadyThere(fs, out'[..p], es, out, out'[p]);
    }
  }

  ghost predicate SortedEvents(a: seq<Event>)
  {
    forall i, j :: 0 <= i < j < |a| ==> KeyLess(a[i], a[j])
  }

  lemma {:induction false} SortedUnique(a: seq<Event>, b: seq<Event>)
    requires SortedEvents(a) && SortedEvents(b) && SameMembers(a, b)
    ensures a == b
  {
    HeadIn(a);
    HeadIn(b);
    if a != [] && b != [] {
      KeyTotal(a[0], b[0]);
      SortedTail(a);
      SortedTail(b);
      SortedUnique(a[1..], b[1..]);
    }
  }

  lemma {:induction false} SortedTail(a: seq<Event>)
    requires SortedEvents(a) && a != []
    ensures SortedEvents(a[1..]) && forall e :: e in a[1..] <==> e in a && e != a[0]
  {
    var rest := a[1..];
    assert a == [a[0]] + rest;
    assert forall i :: 0 <= i < |rest| ==> rest[i] == a[i + 1] && KeyLess(a[0], rest[i]);
    KeyTotal(a[0], a[0]);
  }

  lemma {:induction false} RestMembers(es: seq<Event>, out: seq<nat>)
    requires DistinctKeys(es) && InRange(out, |es|)
    ensures InRange(Rest(es, out), |es|) && SortedEvents(At(es, Rest(es, out)))
    ensures forall e :: e in At(es, Rest(es, out)) <==> e in es && e !in At(es, out)
  {
    RestIs(es, out);
    var rest := Rest(es, out);
    forall p, q | 0 <= p < q < |rest| ensures KeyLess(es[rest[p]], es[rest[q]]) {
      assert rest[p] in rest && rest[q] in rest && ByKey(es)(rest[p], rest[q]);
      DistinctPlaces(es, rest[p], rest[q]);
    }
    forall e ensures e in At(es, rest) <==> e in es && e !in At(es, out) {
      if e in At(es, rest) {
        var p :| 0 <= p < |rest| && At(es, rest)[p] == e;
        assert rest[p] in rest;
        PlaceIn(es, out, rest[p]);
      } else if e in es {
        var i: nat :| i < |es| && es[i] == e;
        PlaceIn(es, rest, i);
        PlaceIn(es, out, i);
      }
    }
  }

  /**
   * Two listings of the same events are put into the same order, cycles or not, if no two of
   * the events have the same key.
   */
  lemma {:induction false} OrderIsOfTheSet(es: seq<Event>, out: seq<nat>, order: seq<nat>, fs: seq<Event>,
                                           out': seq<nat>, order': seq<nat>)
    requires DistinctKeys(es) && DistinctKeys(fs) && SameMembers(es, fs)
    requires IsOrder(es, out, order) && IsOrder(fs, out', order')
    ensures InRange(order, |es|) && InRange(order', |fs|) && At(es, order) == At(fs, order')
  {
    EmitsNoDup(es, out);
    EmitsNoDup(fs, out');
    NoLonger(es, out, fs, out');
    NoLonger(fs, out', es, out);
    EmittedSame(es, out, fs, out', |out|);
    assert out[..|out|] == out && out'[..|out|] == out';
    RestMembers(es, out);
    RestMembers(fs, out');
    SortedUnique(At(es, Rest(es, out)), At(fs, Rest(fs, out')));
    AtConcat(es, out, Rest(es, out), order);
    AtConcat(fs, out', Rest(fs, out'), order');
  }

  lemma {:induction false} AtConcat(es: seq<Event>, a: seq<nat>, b: seq<nat>, c: seq<nat>)
    requires c == a + b && InRange(a, |es|) && InRange(b, |es|)
    ensures InRange(c, |es|) && At(es, c) == At(es, a) + At(es, b)
  {
    assert forall x :: x in c ==> x in a || x in b;
  }

  // ---- Where keys tie ---------------------------------------------------------------------------------------

  /** Place by place the same keys. */
  ghost predicate SameKeys(es: seq<Event>, fs: seq<Event>)
  {
    |es| == |fs| && forall k :: 0 <= k < |es| ==> SameKey(es[k], fs[k])
  }

  /** Of two places with one key the order has the earlier place first. */
  ghost predicate TiesKept(es: seq<Event>, order: seq<nat>)
  {
    && NoDup(order) && (forall i: nat :: i in order <==> i < |es|)
    && forall i: nat, j: nat :: i < j < |es| && SameKey(es[i], es[j]) ==> Precedes(order, i, j)
  }

  lemma {:induction false} AcyclicKeepsTies(es: seq<Event>, out: seq<nat>, order: seq<nat>)
    requires IsOrder(es, out, order) && Acyclic(es)
    ensures TiesKept(es, order)
  {
    OrderIsPermutation(es, out, order);
    forall i: nat, j: nat | i < j < |es| && SameKey(es[i], es[j]) ensures Precedes(order, i, j) {
      TiesFollowInput(es, out, order, i, j);
    }
  }

  /** A place that stands at `p` in one order but not in the other, and comes first there of its key, stands earlier. */
  lemma {:induction false} TiedBefore(fs: seq<Event>, order: seq<nat>, a: nat, p: nat) returns (q: nat)
    requires TiesKept(fs, order) && p < |order| && a < order[p] < |fs| && SameKey(fs[a], fs[order[p]])
    ensures q < p && order[q] == a
  {
    var q', r :| 0 <= q' < r < |order| && order[q'] == a && order[r] == order[p];
    assert r == p;
    q := q';
  }

  /** The two orders give the same events. */
  ghost predicate Matched(es: seq<Event>, order: seq<nat>, fs: seq<Event>, order': seq<nat>)
  {
    && |order| == |order'|
    && forall k :: 0 <= k < |order| ==> order[k] < |es| && order'[k] < |fs| && es[order[k]] == fs[order'[k]]
  }

  lemma {:induction false} AtMatched(es: seq<Event>, order: seq<nat>, fs: seq<Event>, order': seq<nat>)
    requires InRange(order, |es|) && InRange(order', |fs|) && At(es, order) == At(fs, order')
    ensures Matched(es, order, fs, order')
  {
    var a, b := At(es, order), At(fs, order');
    assert |order| == |a| == |b| == |order'|;
    forall k | 0 <= k < |order| ensures order[k] < |es| && order'[k] < |fs| && es[order[k]] == fs[order'[k]] {
      assert order[k] in order && order'[k] in order';
      assert a[k] == b[k];
    }
  }

  /** Orders that keep the ties of two such listings, and give the same events, have the same place at `p`. */
  lemma {:induction false} SamePlaceAt(es: seq<Event>, order: seq<nat>, fs: seq<Event>, order': seq<nat>, p: nat)
    requires SameKeys(es, fs) && TiesKept(es, order) && TiesKept(fs, order') && Matched(es, order, fs, order')
    requires p < |order|
    ensures order[p] == order'[p]
    decreases p
  {
    var a, b := order[p], order'[p];
    assert SameKey(es[a], fs[a]) && SameKey(es[b], fs[b]);
    if a < b {
      var q := TiedBefore(fs, order', a, p);
      SamePlaceAt(es, order, fs, order', q);
    } else if b < a {
      var q := TiedBefore(es, order, b, p);
      SamePlaceAt(es, order, fs, order', q);
    }
  }

  lemma {:induction false} SameListing(es: seq<Event>, order: seq<nat>, fs: seq<Event>, order': seq<nat>)
    requires SameKeys(es, fs) && TiesKept(es, order) && TiesKept(fs, order') && Matched(es, order, fs, order')
    ensures es == fs
  {
    forall i: nat | i < |es| ensures es[i] == fs[i] {
      assert i in order;
      var p :| 0 <= p < |order| && order[p] == i;
      SamePlaceAt(es, order, fs, order', p);
    }
  }

  /** Two listings without cycles that differ, but not in their keys, are put into different orders. */
  lemma {:induction false} SameOrderSameListing(es: seq<Event>, out: seq<nat>, order: seq<nat>, fs: seq<Event>,
                                                out': seq<nat>, order': seq<nat>)
    requires IsOrder(es, out, order) && IsOrder(fs, out', order') && Acyclic(es) && Acyclic(fs) && SameKeys(es, fs)
    requires InRange(order, |es|) && InRange(order', |fs|) && At(es, order) == At(fs, order')
    ensures es == fs
  {
    AcyclicKeepsTies(es, out, order);
    AcyclicKeepsTies(fs, out', order');
    AtMatched(es, order, fs, order');
    SameListing(es, order, fs, order');
  }

  lemma {:induction false} Swapped(es: seq<Event>, i: nat, j: nat, fs: seq<Event>)
    requires i < j < |es| && SameKey(es[i], es[j]) && es[i] != es[j] && fs == es[i := es[j]][j := es[i]]
    ensures SameKeys(es, fs) && es != fs
  {
    assert fs[i] == es[j] && fs[j] == es[i];
    forall k | 0 <= k < |es| ensures SameKey(es[k], fs[k]) {
      assert k != i && k != j ==> fs[k] == es[k];
    }
  }

  /**
   * So two different events with one key give different orders when they are swapped, on
   * listings without cycles: there the order is that of the set only for distinct keys.
   */
  lemma {:induction false} SwappedTiesDiffer(es: seq<Event>, out: seq<nat>, order: seq<nat>, i: nat, j: nat,
                                             fs: seq<Event>, out': seq<nat>, order': seq<nat>)
    requires i < j < |es| && SameKey(es[i], es[j]) && es[i] != es[j] && fs == es[i := es[j]][j := es[i]]
    requires IsOrder(es, out, order) && IsOrder(fs, out', order') && Acyclic(es) && Acyclic(fs)
    ensures InRange(order, |es|) && InRange(order', |fs|) && At(es, order) != At(fs, order')
  {
    Swapped(es, i, j, fs);
    OrderIsPermutation(es, out, order);
    OrderIsPermutation(fs, out', order');
    if At(es, order) == At(fs, order') {
      SameOrderSameListing(es, out, order, fs, out', order');
    }
  }
}
