/**
 * The causal order said by the fields of the events alone: texts by their first differing
 * character, the key field by field, and what must come before what.
 */
module CausalOrder {
  import opened Seqs
  import opened Ordering

  /** `a` stops where `b` goes on, or has the smaller character at the first place where they differ. */
  ghost predicate TextBelow(a: string, b: string)
  {
    exists k: nat :: k <= |a| && k < |b| && a[..k] == b[..k] && (k == |a| || a[k] < b[k])
  }

  /** Time, then host, then sequence, then id. */
  ghost predicate KeyBelow(a: Event, b: Event)
  {
    || TextBelow(a.time, b.time)
    || (a.time == b.time && TextBelow(a.host, b.host))
    || (a.time == b.time && a.host == b.host && a.sequence < b.sequence)
    || (a.time == b.time && a.host == b.host && a.sequence == b.sequence && TextBelow(a.id, b.id))
  }

  /** The smaller key, or the same key earlier in the input. */
  ghost predicate ComesFirst(es: seq<Event>, i: nat, j: nat)
    requires i < |es| && j < |es|
  {
    var a, b := es[i], es[j];
    || KeyBelow(a, b)
    || (a.time == b.time && a.host == b.host && a.sequence == b.sequence && a.id == b.id && i < j)
  }

  /** An earlier event of the same host, or the first event of the invocation that caused `j`. */
  ghost predicate MustPrecede(es: seq<Event>, i: nat, j: nat)
    requires i < |es| && j < |es|
  {
    || (es[i].host == es[j].host
        && (es[i].sequence < es[j].sequence || (es[i].sequence == es[j].sequence && ComesFirst(es, i, j))))
    || (i != j && es[j].cause != "" && es[i].invocation == es[j].cause
        && forall k: nat :: k < |es| && k != i && es[k].invocation == es[j].cause ==> ComesFirst(es, i, k))
  }

  ghost predicate Clear(es: seq<Event>, done: seq<nat>, j: nat)
    requires j < |es|
  {
    forall k: nat :: k < |es| && MustPrecede(es, k, j) ==> k in done
  }

  ghost predicate IsPermutation(es: seq<Event>, order: seq<nat>)
  {
    NoDup(order) && forall i: nat :: i in order <==> i < |es|
  }

  /** At no place stands an event for which one that comes first could have been put there. */
  ghost predicate LeastFirst(es: seq<Event>, order: seq<nat>)
    requires IsPermutation(es, order)
  {
    forall p, q :: 0 <= p < q < |order| ==> LeastAt(es, order, p, q)
  }

  ghost predicate LeastAt(es: seq<Event>, order: seq<nat>, p: nat, q: nat)
    requires IsPermutation(es, order) && p < q < |order|
  {
    assert order[p] in order && order[q] in order;
    Clear(es, order[..p], order[q]) ==> ComesFirst(es, order[p], order[q])
  }

  ghost predicate PrecedenceKept(es: seq<Event>, order: seq<nat>)
  {
    forall i: nat, j: nat :: i < |es| && j < |es| && MustPrecede(es, i, j) ==> Precedes(order, i, j)
  }

  // ---- The comparisons of the model, in these terms ------------------------------------------------

  lemma {:induction false} TextMeaning(a: string, b: string)
    ensures TextLess(a, b) <==> TextBelow(a, b)
  {
    if b != "" {
      if a == "" || a[0] != b[0] {
        FirstDiffers(a, b);
      } else {
        TextMeaning(a[1..], b[1..]);
        TextBelowCons(a, b);
      }
    }
  }

  lemma {:induction false} FirstDiffers(a: string, b: string)
    requires b != "" && (a == "" || a[0] != b[0])
    ensures TextBelow(a, b) <==> a == "" || a[0] < b[0]
  {
    assert a[..0] == b[..0];
    forall k: nat | 0 < k <= |a| && k < |b| ensures a[..k] != b[..k] {
      assert a[..k][0] != b[..k][0];
    }
  }

  lemma {:induction false} TextBelowCons(a: string, b: string)
    requires a != "" && b != "" && a[0] == b[0]
    ensures TextBelow(a, b) <==> TextBelow(a[1..], b[1..])
  {
    if k: nat :| k <= |a| && k < |b| && a[..k] == b[..k] && (k == |a| || a[k] < b[k]) {
      assert a[1..][..k - 1] == a[..k][1..] && b[1..][..k - 1] == b[..k][1..];
    }
    var c, d := a[1..], b[1..];
    if k: nat :| k <= |c| && k < |d| && c[..k] == d[..k] && (k == |c| || c[k] < d[k]) {
      assert a[..k + 1] == [a[0]] + c[..k] && b[..k + 1] == [b[0]] + d[..k];
    }
  }

  lemma {:induction false} KeyMeaning(a: Event, b: Event)
    ensures KeyLess(a, b) <==> KeyBelow(a, b)
  {
    TextMeaning(a.time, b.time);
    TextMeaning(a.host, b.host);
    TextMeaning(a.id, b.id);
  }

  lemma {:induction false} BeforeMeaning(es: seq<Event>, i: nat, j: nat)
    requires i < |es| && j < |es|
    ensures Before(es, i, j) <==> ComesFirst(es, i, j)
  {
    KeyMeaning(es[i], es[j]);
  }

  lemma {:induction false} FirstMeaning(es: seq<Event>, invocation: string, i: nat)
    requires i < |es|
    ensures IsFirst(es, invocation, i) <==>
            es[i].invocation == invocation
            && forall k: nat :: k < |es| && k != i && es[k].invocation == invocation ==> ComesFirst(es, i, k)
  {
    forall k: nat | k < |es| ensures Before(es, i, k) <==> ComesFirst(es, i, k) {
      BeforeMeaning(es, i, k);
    }
  }

  /** What must precede an event: an earlier one of its chain, or the first of the invocation that caused it. */
  lemma {:induction false} PrecedeMeaning(es: seq<Event>, i: nat, j: nat)
    requires i < |es| && j < |es|
    ensures MustPrecede(es, i, j) <==> (es[i].host == es[j].host && ChainBefore(es, i, j)) || SpawnEdge(es, i, j)
  {
    BeforeMeaning(es, i, j);
    FirstMeaning(es, es[j].cause, i);
  }

  lemma {:induction false} ClearIsReady(es: seq<Event>, done: seq<nat>, j: nat)
    requires j < |es| && Clear(es, done, j) && j !in done
    ensures Ready(es, done, j)
  {
    forall i: nat | i < |es| && Edge(es, i, j) ensures i in done {
      PrecedeMeaning(es, i, j);
    }
  }

  // ---- The order that is returned ---------------------------------------------------------------------

  lemma {:induction false} LeastAtPlace(es: seq<Event>, out: seq<nat>, order: seq<nat>, p: nat, q: nat)
    requires IsOrder(es, out, order) && IsPermutation(es, order) && p < q < |order|
    ensures LeastAt(es, order, p, q)
  {
    assert order[p] in order && order[q] in order;
    if Clear(es, order[..p], order[q]) {
      BeforeMeaning(es, order[p], order[q]);
      if p < |out| {
        assert order[..p] == out[..p] && order[p] == out[p];
        assert IsNext(es, out[..p], out[p]);
        assert order[q] !in order[..p];
        ClearIsReady(es, order[..p], order[q]);
      } else {
        RestIs(es, out);
        var rest := Rest(es, out);
        assert order[p] == rest[p - |out|] && order[q] == rest[q - |out|];
        assert ByKey(es)(order[p], order[q]);
      }
    }
  }

  /** Whenever everything that must precede an event was already out, what came out instead comes first by key. */
  lemma {:induction false} OrderIsLeastFirst(es: seq<Event>, out: seq<nat>, order: seq<nat>)
    requires IsOrder(es, out, order)
    ensures IsPermutation(es, order) && LeastFirst(es, order)
  {
    OrderIsPermutation(es, out, order);
    forall p, q | 0 <= p < q < |order| ensures LeastAt(es, order, p, q) {
      LeastAtPlace(es, out, order, p, q);
    }
  }

  /** Without a cycle everything comes after all that must precede it. */
  lemma {:induction false} OrderKeepsPrecedence(es: seq<Event>, out: seq<nat>, order: seq<nat>)
    requires IsOrder(es, out, order) && Acyclic(es)
    ensures PrecedenceKept(es, order)
  {
    EdgesKeptIffAcyclic(es, out, order);
    OrderIsPermutation(es, out, order);
    forall i: nat, j: nat | i < |es| && j < |es| && MustPrecede(es, i, j) ensures Precedes(order, i, j) {
      PrecedeMeaning(es, i, j);
      if SpawnEdge(es, i, j) {
        assert Edge(es, i, j);
      } else {
        ChainKept(es, order, i, j);
      }
    }
  }

  lemma {:induction false} AllBefore(es: seq<Event>, order: seq<nat>, p: nat)
    requires IsPermutation(es, order) && PrecedenceKept(es, order) && p < |order|
    ensures order[p] in order && Clear(es, order[..p], order[p])
  {
    assert order[p] in order;
    forall k: nat | k < |es| && MustPrecede(es, k, order[p]) ensures k in order[..p] {
      var a, b :| 0 <= a < b < |order| && order[a] == k && order[b] == order[p];
      assert b == p && order[..p][a] == k;
    }
  }

  lemma {:induction false} FoundLater(es: seq<Event>, order: seq<nat>, order': seq<nat>, p: nat) returns (q: nat)
    requires IsPermutation(es, order) && IsPermutation(es, order')
    requires p < |order| && p < |order'| && order[..p] == order'[..p] && order[p] != order'[p]
    ensures p < q < |order| && order[q] == order'[p]
  {
    assert order'[p] in order' && order'[p] in order;
    q :| 0 <= q < |order| && order[q] == order'[p];
    assert forall i :: 0 <= i < p ==> order[..p][i] == order[i] && order'[..p][i] == order'[i];
  }

  lemma {:induction false} SameAt(es: seq<Event>, order: seq<nat>, order': seq<nat>, p: nat)
    requires IsPermutation(es, order) && LeastFirst(es, order) && PrecedenceKept(es, order)
    requires IsPermutation(es, order') && LeastFirst(es, order') && PrecedenceKept(es, order')
    requires p < |order| && p < |order'| && order[..p] == order'[..p]
    ensures order[p] == order'[p]
  {
    AllBefore(es, order, p);
    AllBefore(es, order', p);
    if order[p] != order'[p] {
      var q := FoundLater(es, order, order', p);
      var q' := FoundLater(es, order', order, p);
      assert LeastAt(es, order, p, q) && LeastAt(es, order', p, q');
      BeforeMeaning(es, order[p], order'[p]);
      BeforeMeaning(es, order'[p], order[p]);
      BeforeTotal(es, order[p], order'[p]);
    }
  }

  lemma {:induction false} SameLength(es: seq<Event>, order: seq<nat>, order': seq<nat>)
    requires IsPermutation(es, order) && IsPermutation(es, order')
    ensures |order| == |order'|
  {
    NoDupCardinality(order);
    NoDupCardinality(order');
    assert Elements(order) == Elements(order');
  }

  /** Only one arrangement of the events keeps all precedence and puts the least first: the one returned. */
  lemma {:induction false} OnlyOrder(es: seq<Event>, out: seq<nat>, order: seq<nat>, other: seq<nat>)
    requires IsOrder(es, out, order) && Acyclic(es)
    requires IsPermutation(es, other)
    ensures LeastFirst(es, other) && PrecedenceKept(es, other) <==> other == order
  {
    OrderIsLeastFirst(es, out, order);
    OrderKeepsPrecedence(es, out, order);
    if LeastFirst(es, other) && PrecedenceKept(es, other) {
      SameLength(es, order, other);
      var p := 0;
      while p < |order|
        invariant p <= |order| && order[..p] == other[..p]
      {
        SameAt(es, order, other, p);
        assert order[..p + 1] == order[..p] + [order[p]] && other[..p + 1] == other[..p] + [other[p]];
        p := p + 1;
      }
      assert order == order[..p] && other == other[..p];
    }
  }

  /** Events of different hosts without causes come out by time, and by host at one time. */
  lemma {:induction false} UnrelatedByTime(es: seq<Event>, out: seq<nat>, order: seq<nat>, p: nat, q: nat)
    requires IsOrder(es, out, order) && p < q < |order|
    requires forall i, j :: 0 <= i < j < |es| ==> es[i].host != es[j].host
    requires forall i :: 0 <= i < |es| ==> es[i].cause == ""
    ensures order[p] < |es| && order[q] < |es|
    ensures var a, b := es[order[p]], es[order[q]];
            TextBelow(a.time, b.time) || (a.time == b.time && TextBelow(a.host, b.host))
  {
    OrderIsLeastFirst(es, out, order);
    assert order[p] in order && order[q] in order && order[p] != order[q];
    assert LeastAt(es, order, p, q);
    forall k: nat | k < |es| ensures !MustPrecede(es, k, order[q]) {
      BeforeMeaning(es, order[q], order[q]);
      BeforeTotal(es, order[q], order[q]);
      assert k != order[q] ==> es[k].host != es[order[q]].host;
    }
  }
}
