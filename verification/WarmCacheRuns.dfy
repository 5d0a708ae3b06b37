/**
 * Every interleaving of concurrent `_cached` calls.  Each lock-protected section is one
 * atomic step; the unlocked build and the release of evicted models are separate steps.
 */
module WarmCacheRuns {
  import opened Seqs
  import opened WarmCache

  // Where one call stands.
  datatype Call =
    | Looking(key: Key)
    | Building(key: Key)
    | Inserting(key: Key, model: Model)
    | Releasing(key: Key, model: Model, evicted: seq<Model>)
    | Returned(key: Key, model: Model)
    | Raised(key: Key)

  datatype State = State(
    cache: Dict,
    calls: seq<Call>,
    touches: seq<Key>,        // history: keys in the order they were hit or stored
    builtFor: seq<Key>,       // history: builtFor[id] is the key object id was built for
    released: seq<nat>,       // history: objects handed to the release routine
    overwritten: seq<nat>)    // history: objects replaced under their own key

  datatype Action =
    | Arrive(key: Key)
    | LookUp(call: nat)
    | Build(call: nat, isNone: bool)
    | BuildRaises(call: nat)
    | Store(call: nat)
    | Release(call: nat)
    | Return(call: nat)

  const Init := State([], [], [], [], [], [])

  predicate Enabled(s: State, a: Action)
  {
    match a
    case Arrive(_) => true
    case LookUp(c) => c < |s.calls| && s.calls[c].Looking?
    case Build(c, _) => c < |s.calls| && s.calls[c].Building?
    case BuildRaises(c) => c < |s.calls| && s.calls[c].Building?
    case Store(c) => c < |s.calls| && s.calls[c].Inserting?
    case Release(c) => c < |s.calls| && s.calls[c].Releasing? && s.calls[c].evicted != []
    case Return(c) => c < |s.calls| && s.calls[c].Releasing? && s.calls[c].evicted == []
  }

  /** One atomic step; an action that is not enabled changes nothing. */
  function Next(bound: nat, s: State, a: Action): State
  {
    if !Enabled(s, a) then s else
    match a
    case Arrive(k) => s.(calls := s.calls + [Looking(k)])
    case LookUp(c) =>
      var k := s.calls[c].key;
      var (hit, cache) := LookupSection(s.cache, k);
      if hit.Some? then
        s.(cache := cache, calls := s.calls[c := Returned(k, hit.value)], touches := s.touches + [k])
      else
        s.(calls := s.calls[c := Building(k)])
    case Build(c, isNone) =>
      var k := s.calls[c].key;
      s.(calls := s.calls[c := Inserting(k, Model(|s.builtFor|, isNone))], builtFor := s.builtFor + [k])
    case BuildRaises(c) => s.(calls := s.calls[c := Raised(s.calls[c].key)])
    case Store(c) =>
      var Inserting(k, m) := s.calls[c];
      var (cache, evicted) := InsertSection(bound, s.cache, k, m);
      s.(cache := cache, calls := s.calls[c := Releasing(k, m, evicted)], touches := s.touches + [k],
         overwritten := s.overwritten + Under(s.cache, k))
    case Release(c) =>
      var Releasing(k, m, evicted) := s.calls[c];
      var n := |evicted| - 1;
      s.(calls := s.calls[c := Releasing(k, m, evicted[..n])], released := s.released + [evicted[n].id])
    case Return(c) => s.(calls := s.calls[c := Returned(s.calls[c].key, s.calls[c].model)])
  }

  /** Where the interleaving `acts` leads from `s`. */
  function Run(bound: nat, s: State, acts: seq<Action>): State
    decreases |acts|
  {
    if acts == [] then s else Run(bound, Next(bound, s, acts[0]), acts[1..])
  }

  // ---- Least recently used, said without the dictionary ---------------------------

  /** The keys touched after the last touch of `k`. */
  ghost function Since(touches: seq<Key>, k: Key): set<Key>
  {
    set i | 0 <= i < |touches| && k !in touches[i..] :: touches[i]
  }

  /** Distinct touched keys, least recently touched first. */
  function Recency(touches: seq<Key>): seq<Key>
  {
    if touches == [] then []
    else
      var n := |touches| - 1;
      Remove(Recency(touches[..n]), touches[n]) + [touches[n]]
  }

  lemma {:induction false} SinceSnoc(touches: seq<Key>, x: Key, k: Key)
    ensures Since(touches + [x], k) == if x == k then {} else Since(touches, k) + {x}
  {
    var t := touches + [x];
    forall i | 0 <= i < |t|
      ensures k in t[i..] <==> x == k || (i < |touches| && k in touches[i..])
    {
      assert i < |touches| ==> t[i..] == touches[i..] + [x];
      assert i == |touches| ==> t[i..] == [x];
    }
    if x != k {
      forall y | y in Since(touches, k) ensures y in Since(t, k) {
        var i :| 0 <= i < |touches| && k !in touches[i..] && touches[i] == y;
        assert t[i] == y && k !in t[i..];
      }
      assert t[|touches|] == x;
    }
  }

  lemma {:induction false} RecencyMeaning(touches: seq<Key>)
    ensures NoDup(Recency(touches))
    ensures forall k :: k in Recency(touches) <==> k in touches
    ensures forall p :: 0 <= p < |Recency(touches)| ==>
              Elements(Recency(touches)[p + 1..]) == Since(touches, Recency(touches)[p])
  {
    if touches != [] {
      var before, x := touches[..|touches| - 1], touches[|touches| - 1];
      RecencyMeaning(before);
      RemoveNoDup(Recency(before), x);
      RemoveElements(Recency(before), x);
      assert touches == before + [x];
      RecencyStep(before, x, Recency(before));
    }
  }

  lemma {:induction false} RecencyStep(before: seq<Key>, x: Key, prev: seq<Key>)
    requires NoDup(prev)
    requires forall p :: 0 <= p < |prev| ==> Elements(prev[p + 1..]) == Since(before, prev[p])
    ensures var r := Remove(prev, x) + [x];
            forall p :: 0 <= p < |r| ==> Elements(r[p + 1..]) == Since(before + [x], r[p])
  {
    var cut := Remove(prev, x);
    var r := cut + [x];
    RemoveElements(prev, x);
    forall p | 0 <= p < |r| ensures Elements(r[p + 1..]) == Since(before + [x], r[p]) {
      SinceSnoc(before, x, r[p]);
      if p < |cut| {
        assert r[p] == cut[p] && cut[p] in prev;
        var q :| 0 <= q < |prev| && prev[q] == cut[p];
        TailTouched(prev, x, p, q);
      } else {
        assert r[p + 1..] == [];
      }
    }
  }

  /** What stands after a key once `x` has been moved to the end. */
  lemma {:induction false} TailTouched(prev: seq<Key>, x: Key, p: nat, q: nat)
    requires NoDup(prev) && q < |prev| && p < |Remove(prev, x)| && Remove(prev, x)[p] == prev[q]
    ensures Elements((Remove(prev, x) + [x])[p + 1..]) == Elements(prev[q + 1..]) - {x} + {x}
  {
    var cut := Remove(prev, x);
    TailOfRemoved(prev, x, p, q);
    RemoveElements(prev[q + 1..], x);
    ElementsSnoc(cut[p + 1..], x);
    assert (cut + [x])[p + 1..] == cut[p + 1..] + [x];
  }

  lemma {:induction false} ElementsSnoc(s: seq<Key>, x: Key)
    ensures Elements(s + [x]) == Elements(s) + {x}
  {
    var t := s + [x];
    assert forall y :: y in t <==> y in s || y == x;
  }

  lemma {:induction false} TailOfRemoved(s: seq<Key>, x: Key, p: nat, q: nat)
    requires NoDup(s) && q < |s| && p < |Remove(s, x)| && Remove(s, x)[p] == s[q]
    ensures Remove(s, x)[p + 1..] == Remove(s[q + 1..], x)
  {
    assert s == s[..q] + [s[q]] + s[q + 1..];
    RemoveElements(s, x);
    assert s[q] != x;
    RemoveConcat(s[..q] + [s[q]], s[q + 1..], x);
    RemoveConcat(s[..q], [s[q]], x);
    assert Remove([s[q]], x) == [s[q]];
    var left := Remove(s[..q], x);
    assert Remove(s, x) == left + [s[q]] + Remove(s[q + 1..], x);
    RemoveNoDup(s, x);
    assert Remove(s, x)[|left|] == s[q];
    assert p == |left|;
  }

  /** The last `bound` keys by recency are those with fewer than `bound` keys touched since. */
  lemma {:induction false} RecentlyUsed(touches: seq<Key>, bound: nat, k: Key)
    ensures k in LastN(Recency(touches), bound) <==> k in touches && |Since(touches, k)| < bound
  {
    var r := Recency(touches);
    RecencyMeaning(touches);
    assert k in touches <==> k in Elements(r);
    if k in r {
      var p :| 0 <= p < |r| && r[p] == k;
      NoDupCardinality(r[p + 1..]);
      assert |Since(touches, k)| == |r| - p - 1;
      if |r| > bound {
        if p >= |r| - bound {
          assert LastN(r, bound)[p - (|r| - bound)] == k;
        } else {
          assert forall q :: |r| - bound <= q < |r| ==> r[q] != k;
        }
      }
    }
  }

  // ---- Steps keep the recency order ------------------------------------------------

  /** Touching `k` in a list of the `bound` most recent keys, and in the whole list. */
  lemma {:induction false} TouchLastN(r: seq<Key>, bound: nat, k: Key)
    requires NoDup(r)
    ensures LastN(Remove(LastN(r, bound), k) + [k], bound) == LastN(Remove(r, k) + [k], bound)
  {
    if |r| > bound {
      var a, b := r[..|r| - bound], r[|r| - bound..];
      assert r == a + b;
      RemoveConcat(a, b, k);
      RemoveNoDup(b, k);
      var rest := Remove(b, k) + [k];
      assert Remove(r, k) + [k] == Remove(a, k) + rest;
      if k in b {
        DisjointHalves(a, b, k);
        RemoveAbsent(a, k);
      } else {
        assert |rest| == bound + 1;
      }
    }
  }

  lemma {:induction false} RecencySnoc(touches: seq<Key>, k: Key)
    ensures Recency(touches + [k]) == Remove(Recency(touches), k) + [k]
  {
    assert (touches + [k])[..|touches|] == touches;
  }

  lemma {:induction false} DisjointHalves(a: seq<Key>, b: seq<Key>, k: Key)
    requires NoDup(a + b) && k in b
    ensures k !in a
  {
    var j :| 0 <= j < |b| && b[j] == k;
    forall i | 0 <= i < |a| ensures a[i] != k {
      assert (a + b)[i] == a[i] && (a + b)[|a| + j] == k;
    }
  }

  ghost predicate Ordered(bound: nat, s: State)
  {
    Keys(s.cache) == LastN(Recency(s.touches), bound)
  }

  lemma {:induction false} KeysLastN(d: Dict, n: nat)
    ensures Keys(LastN(d, n)) == LastN(Keys(d), n)
  {
    if |d| > n {
      var cut := |d| - n;
      assert d == d[..cut] + d[cut..];
      KeysConcat(d[..cut], d[cut..]);
    }
  }

  lemma {:induction false} OrderedNoDup(bound: nat, d: Dict, touches: seq<Key>)
    requires Keys(d) == LastN(Recency(touches), bound)
    ensures NoDup(Keys(d)) && |d| <= bound
  {
    RecencyMeaning(touches);
  }

  /** Both sections touch their key: a hit because it was resident, a store always. */
  lemma {:induction false} StoreKeys(bound: nat, d: Dict, r: seq<Key>, k: Key, m: Model)
    requires NoDup(r) && Keys(d) == LastN(r, bound)
    ensures Keys(InsertSection(bound, d, k, m).0) == LastN(Remove(r, k) + [k], bound)
  {
    MovedToEnd(d, k, m);
    KeysLastN(Without(d, k) + [Entry(k, m)], bound);
    TouchLastN(r, bound, k);
  }

  lemma {:induction false} MovedToEnd(d: Dict, k: Key, m: Model)
    ensures Keys(Without(d, k) + [Entry(k, m)]) == Remove(Keys(d), k) + [k]
  {
    WithoutKeys(d, k);
    KeysConcat(Without(d, k), [Entry(k, m)]);
  }

  lemma {:induction false} HitKeys(bound: nat, d: Dict, r: seq<Key>, k: Key)
    requires NoDup(r) && Keys(d) == LastN(r, bound)
    requires LookupSection(d, k).0.Some?
    ensures Keys(LookupSection(d, k).1) == LastN(Remove(r, k) + [k], bound)
  {
    MovedToEnd(d, k, Get(d, k).value);
    RemoveNoDup(Keys(d), k);
    TouchLastN(r, bound, k);
  }

  // ---- Accounting ------------------------------------------------------------------

  function CountModels(ms: seq<Model>, id: nat): nat
  {
    if ms == [] then 0 else (if ms[0].id == id then 1 else 0) + CountModels(ms[1..], id)
  }

  /** How often object `id` is held by calls between build and store. */
  function Pending(calls: seq<Call>, id: nat): nat
  {
    if calls == [] then 0
    else (if calls[0].Inserting? && calls[0].model.id == id then 1 else 0) + Pending(calls[1..], id)
  }

  /** How often object `id` stands in eviction lists not yet drained. */
  function Awaiting(calls: seq<Call>, id: nat): nat
  {
    if calls == [] then 0
    else (if calls[0].Releasing? then CountModels(calls[0].evicted, id) else 0) + Awaiting(calls[1..], id)
  }

  function Resident(s: State, id: nat): nat
  {
    CountEntries(s.cache, id)
  }

  function Places(s: State, id: nat): nat
  {
    Pending(s.calls, id) + Resident(s, id) + Awaiting(s.calls, id)
      + Occurrences(s.released, id) + Occurrences(s.overwritten, id)
  }

  lemma {:induction false} PlacesUpdate(calls: seq<Call>, i: nat, c: Call, id: nat)
    requires i < |calls|
    ensures Pending(calls[i := c], id) + Pending([calls[i]], id) == Pending(calls, id) + Pending([c], id)
    ensures Awaiting(calls[i := c], id) + Awaiting([calls[i]], id) == Awaiting(calls, id) + Awaiting([c], id)
  {
    if i > 0 {
      assert calls[i := c][1..] == calls[1..][i - 1 := c];
      PlacesUpdate(calls[1..], i - 1, c, id);
    } else {
      assert calls[i := c][1..] == calls[1..];
    }
  }

  lemma {:induction false} PlacesSnoc(calls: seq<Call>, k: Key, id: nat)
    ensures Pending(calls + [Looking(k)], id) == Pending(calls, id)
    ensures Awaiting(calls + [Looking(k)], id) == Awaiting(calls, id)
  {
    if calls != [] {
      assert (calls + [Looking(k)])[1..] == calls[1..] + [Looking(k)];
      PlacesSnoc(calls[1..], k, id);
    }
  }

  lemma {:induction false} CountConcat(a: seq<Model>, b: seq<Model>, id: nat)
    ensures CountModels(a + b, id) == CountModels(a, id) + CountModels(b, id)
  {
    if a == [] {
      assert a + b == b;
    } else {
      assert (a + b)[1..] == a[1..] + b;
      CountConcat(a[1..], b, id);
    }
  }

  lemma {:induction false} ModelsConcat(a: Dict, b: Dict)
    ensures Models(a + b) == Models(a) + Models(b)
  {
    if a == [] {
      assert a + b == b;
    } else {
      assert (a + b)[1..] == a[1..] + b;
      ModelsConcat(a[1..], b);
    }
  }

  function CountEntries(d: Dict, id: nat): nat
  {
    CountModels(Models(d), id)
  }

  lemma {:induction false} CountEntriesConcat(a: Dict, b: Dict, id: nat)
    ensures CountEntries(a + b, id) == CountEntries(a, id) + CountEntries(b, id)
  {
    ModelsConcat(a, b);
    CountConcat(Models(a), Models(b), id);
  }

  lemma {:induction false} CountOne(e: Entry, id: nat)
    ensures CountEntries([e], id) == Occurrences([e.model.id], id)
  {
    assert Models([e]) == [e.model];
    var ms, ids := [e.model], [e.model.id];
    assert CountModels(ms, id) == (if ms[0].id == id then 1 else 0) + CountModels(ms[1..], id);
    assert Occurrences(ids, id) == (if ids[0] == id then 1 else 0) + Occurrences(ids[1..], id);
  }

  /** Taking `k` out of the dictionary takes out exactly the object it overwrites. */
  lemma {:induction false} WithoutCount(d: Dict, k: Key, id: nat)
    ensures CountEntries(d, id) == CountEntries(Without(d, k), id) + Occurrences(Under(d, k), id)
  {
    if d != [] {
      WithoutCount(d[1..], k, id);
      assert d == [d[0]] + d[1..];
      CountEntriesConcat([d[0]], d[1..], id);
      if d[0].key == k {
        OccurrencesConcat([d[0].model.id], Under(d[1..], k), id);
        assert Without(d, k) == Without(d[1..], k);
        CountOne(d[0], id);
      } else {
        CountEntriesConcat([d[0]], Without(d[1..], k), id);
        assert Under(d, k) == Under(d[1..], k);
      }
    }
  }

  lemma {:induction false} InsertCount(bound: nat, d: Dict, k: Key, m: Model, id: nat)
    ensures CountEntries(InsertSection(bound, d, k, m).0, id)
              + CountModels(InsertSection(bound, d, k, m).1, id) + Occurrences(Under(d, k), id)
         == CountEntries(d, id) + CountModels([m], id)
  {
    var all := Without(d, k) + [Entry(k, m)];
    WithoutCount(d, k, id);
    CountEntriesConcat(Without(d, k), [Entry(k, m)], id);
    assert all == BeforeLastN(all, bound) + LastN(all, bound);
    CountEntriesConcat(BeforeLastN(all, bound), LastN(all, bound), id);
  }

  /** A hit moves one entry and so leaves every count alone. */
  lemma {:induction false} LookupCount(d: Dict, k: Key, id: nat)
    requires NoDup(Keys(d))
    ensures CountEntries(LookupSection(d, k).1, id) == CountEntries(d, id)
  {
    if LookupSection(d, k).0.Some? {
      var m := Get(d, k).value;
      WithoutCount(d, k, id);
      CountEntriesConcat(Without(d, k), [Entry(k, m)], id);
      UnderGet(d, k);
      CountOne(Entry(k, m), id);
    }
  }

  lemma {:induction false} UnderGet(d: Dict, k: Key)
    requires NoDup(Keys(d))
    ensures Under(d, k) == if Get(d, k).Some? then [Get(d, k).value.id] else []
  {
    if d != [] {
      assert Keys(d)[1..] == Keys(d[1..]);
      UnderGet(d[1..], k);
      if d[0].key == k {
        forall i | 0 <= i < |d[1..]| ensures Keys(d[1..])[i] != k {
          assert Keys(d)[0] == k && Keys(d)[i + 1] == Keys(d[1..])[i];
        }
      }
    }
  }

  ghost predicate Conserved(s: State)
  {
    forall id: nat :: Places(s, id) == if id < |s.builtFor| then 1 else 0
  }

  lemma {:induction false} StepPlaces(bound: nat, s: State, a: Action, id: nat)
    requires NoDup(Keys(s.cache))
    ensures Places(Next(bound, s, a), id)
         == Places(s, id) + if Enabled(s, a) && a.Build? && id == |s.builtFor| then 1 else 0
  {
    if !Enabled(s, a) {
    } else if a.Arrive? {
      PlacesSnoc(s.calls, a.key, id);
    } else if a.Store? {
      StorePlaces(bound, s, a.call, id);
    } else if a.Release? {
      ReleasePlaces(bound, s, a.call, id);
    } else {
      PlacesUpdate(s.calls, a.call, Next(bound, s, a).calls[a.call], id);
      if a.LookUp? {
        LookupCount(s.cache, s.calls[a.call].key, id);
      }
    }
  }

  lemma {:induction false} StorePlaces(bound: nat, s: State, c: nat, id: nat)
    requires Enabled(s, Store(c))
    ensures Places(Next(bound, s, Store(c)), id) == Places(s, id)
  {
    var Inserting(k, m) := s.calls[c];
    var evicted := InsertSection(bound, s.cache, k, m).1;
    PlacesUpdate(s.calls, c, Releasing(k, m, evicted), id);
    InsertCount(bound, s.cache, k, m, id);
    OccurrencesConcat(s.overwritten, Under(s.cache, k), id);
  }

  lemma {:induction false} ReleasePlaces(bound: nat, s: State, c: nat, id: nat)
    requires Enabled(s, Release(c))
    ensures Places(Next(bound, s, Release(c)), id) == Places(s, id)
  {
    var Releasing(k, m, evicted) := s.calls[c];
    var n := |evicted| - 1;
    PlacesUpdate(s.calls, c, Releasing(k, m, evicted[..n]), id);
    assert evicted == evicted[..n] + [evicted[n]];
    CountConcat(evicted[..n], [evicted[n]], id);
    OccurrencesConcat(s.released, [evicted[n].id], id);
  }

  // ---- Objects stay with the key they were built for -------------------------------

  ghost predicate BuiltFor(builtFor: seq<Key>, k: Key, m: Model)
  {
    m.id < |builtFor| && builtFor[m.id] == k
  }

  ghost predicate FaithfulCall(builtFor: seq<Key>, c: Call)
  {
    && (c.Inserting? || c.Releasing? || c.Returned? ==> BuiltFor(builtFor, c.key, c.model))
    && (c.Releasing? ==> |c.evicted| <= 1)
  }

  ghost predicate Faithful(s: State)
  {
    && (forall e :: e in s.cache ==> BuiltFor(s.builtFor, e.key, e.model))
    && (forall c :: 0 <= c < |s.calls| ==> FaithfulCall(s.builtFor, s.calls[c]))
  }

  /** A step of one call that only keeps entries. */
  lemma {:induction false} CallFaithful(s: State, s': State, c: nat)
    requires Faithful(s) && c < |s.calls| && |s'.calls| == |s.calls| && s'.builtFor == s.builtFor
    requires forall e :: e in s'.cache ==> e in s.cache
    requires s'.calls == s.calls[c := s'.calls[c]] && FaithfulCall(s.builtFor, s'.calls[c])
    ensures Faithful(s')
  {
  }

  lemma {:induction false} LookUpFaithful(bound: nat, s: State, c: nat)
    requires Enabled(s, LookUp(c)) && Faithful(s)
    ensures Faithful(Next(bound, s, LookUp(c)))
  {
    HitEntries(s.cache, s.calls[c].key);
    CallFaithful(s, Next(bound, s, LookUp(c)), c);
  }

  /** Every entry of either section's outcome was there before or is the one stored. */
  lemma {:induction false} StepFaithful(bound: nat, s: State, a: Action)
    requires Faithful(s) && |s.cache| <= bound
    ensures Faithful(Next(bound, s, a))
  {
    if !Enabled(s, a) {
    } else if a.LookUp? {
      LookUpFaithful(bound, s, a.call);
    } else if a.Store? {
      StoreFaithful(bound, s, a.call);
    } else if a.Build? {
      BuildFaithful(bound, s, a.call, a.isNone);
    } else if a.Arrive? {
    } else {
      assert FaithfulCall(s.builtFor, s.calls[a.call]);
      CallFaithful(s, Next(bound, s, a), a.call);
    }
  }

  lemma {:induction false} BuildFaithful(bound: nat, s: State, c: nat, isNone: bool)
    requires Enabled(s, Build(c, isNone)) && Faithful(s)
    ensures Faithful(Next(bound, s, Build(c, isNone)))
  {
    var s' := Next(bound, s, Build(c, isNone));
    forall i | 0 <= i < |s'.calls| ensures FaithfulCall(s'.builtFor, s'.calls[i]) {
      assert FaithfulCall(s.builtFor, s.calls[i]);
    }
  }

  lemma {:induction false} StoreFaithful(bound: nat, s: State, c: nat)
    requires Enabled(s, Store(c)) && Faithful(s) && |s.cache| <= bound
    ensures Faithful(Next(bound, s, Store(c)))
  {
    var Inserting(k, m) := s.calls[c];
    StoreEntries(bound, s.cache, k, m);
    assert FaithfulCall(s.builtFor, s.calls[c]);
  }

  lemma {:induction false} HitEntries(d: Dict, k: Key)
    ensures forall e :: e in LookupSection(d, k).1 ==> e in d
    ensures LookupSection(d, k).0.Some? ==> Entry(k, LookupSection(d, k).0.value) in d
  {
    WithoutEntries(d, k);
  }

  lemma {:induction false} StoreEntries(bound: nat, d: Dict, k: Key, m: Model)
    ensures forall e :: e in InsertSection(bound, d, k, m).0 ==> e in d || e == Entry(k, m)
    ensures |d| <= bound ==> |InsertSection(bound, d, k, m).1| <= 1
  {
    WithoutEntries(d, k);
    var all := Without(d, k) + [Entry(k, m)];
    assert forall e :: e in LastN(all, bound) ==> e in all;
  }

  ghost predicate Inv(bound: nat, s: State)
  {
    Ordered(bound, s) && Conserved(s) && Faithful(s)
  }

  lemma {:induction false} StepOrdered(bound: nat, s: State, a: Action)
    requires Ordered(bound, s)
    ensures Ordered(bound, Next(bound, s, a))
  {
    if Enabled(s, a) && (a.LookUp? || a.Store?) {
      var k := s.calls[a.call].key;
      RecencyMeaning(s.touches);
      RecencySnoc(s.touches, k);
      if a.Store? {
        StoreKeys(bound, s.cache, Recency(s.touches), k, s.calls[a.call].model);
      } else if LookupSection(s.cache, k).0.Some? {
        HitKeys(bound, s.cache, Recency(s.touches), k);
      }
    }
  }

  lemma {:induction false} StepKeepsInv(bound: nat, s: State, a: Action)
    requires Inv(bound, s)
    ensures Inv(bound, Next(bound, s, a))
  {
    StepOrdered(bound, s, a);
    OrderedNoDup(bound, s.cache, s.touches);
    StepFaithful(bound, s, a);
    var s' := Next(bound, s, a);
    forall id: nat ensures Places(s', id) == if id < |s'.builtFor| then 1 else 0 {
      StepPlaces(bound, s, a, id);
    }
  }

  lemma {:induction false} RunKeepsInv(bound: nat, s: State, acts: seq<Action>)
    requires Inv(bound, s)
    ensures Inv(bound, Run(bound, s, acts))
    decreases |acts|
  {
    if acts != [] {
      StepKeepsInv(bound, s, acts[0]);
      RunKeepsInv(bound, Next(bound, s, acts[0]), acts[1..]);
    }
  }

  // ---- Main results ------------------------------------------------------------------

  /**
   * After every interleaving a key is resident exactly when it was touched and fewer than
   * `bound` other keys were touched since, and the entries stand in order of last touch.
   */
  lemma {:induction false} LeastRecentlyUsed(bound: nat, acts: seq<Action>)
    ensures var s := Run(bound, Init, acts);
            && |s.cache| <= bound
            && NoDup(Keys(s.cache))
            && (forall k :: k in Keys(s.cache) <==> k in s.touches && |Since(s.touches, k)| < bound)
            && (forall i, j :: 0 <= i < j < |s.cache| ==> s.cache[j].key in Since(s.touches, s.cache[i].key))
  {
    var s := Run(bound, Init, acts);
    RunKeepsInv(bound, Init, acts);
    OrderedNoDup(bound, s.cache, s.touches);
    forall k ensures k in Keys(s.cache) <==> k in s.touches && |Since(s.touches, k)| < bound {
      RecentlyUsed(s.touches, bound, k);
    }
    CacheSince(bound, s.cache, s.touches);
  }

  lemma {:induction false} CacheSince(bound: nat, d: Dict, touches: seq<Key>)
    requires Keys(d) == LastN(Recency(touches), bound)
    ensures forall i, j :: 0 <= i < j < |d| ==> d[j].key in Since(touches, d[i].key)
  {
    RecencyMeaning(touches);
    var r := Recency(touches);
    var skip := |r| - |Keys(d)|;
    assert Keys(d) == r[skip..];
    forall i, j | 0 <= i < j < |d| ensures d[j].key in Since(touches, d[i].key) {
      InTail(r, skip + i, skip + j);
      assert r[skip + i] == d[i].key && r[skip + j] == d[j].key;
    }
  }

  lemma {:induction false} InTail(r: seq<Key>, i: nat, j: nat)
    requires i < j < |r|
    ensures r[j] in Elements(r[i + 1..])
  {
    assert r[i + 1..][j - i - 1] == r[j];
  }

  /**
   * Every object ever built is in exactly one place: pending insert, resident, awaiting
   * release, released, or overwritten.
   */
  lemma {:induction false} ExactlyOnePlace(bound: nat, acts: seq<Action>, id: nat)
    ensures var s := Run(bound, Init, acts);
            Pending(s.calls, id) + Resident(s, id) + Awaiting(s.calls, id)
              + Occurrences(s.released, id) + Occurrences(s.overwritten, id)
            == if id < |s.builtFor| then 1 else 0
  {
    RunKeepsInv(bound, Init, acts);
    assert Places(Run(bound, Init, acts), id) == if id < |Run(bound, Init, acts).builtFor| then 1 else 0;
  }

  /** No object is released twice, and a released object is neither resident nor pending. */
  lemma {:induction false} ReleasedOnce(bound: nat, acts: seq<Action>)
    ensures var s := Run(bound, Init, acts);
            && NoDup(s.released)
            && (forall id :: id in s.released ==>
                  Resident(s, id) == 0 && Pending(s.calls, id) == 0 && id !in s.overwritten)
  {
    var s := Run(bound, Init, acts);
    forall id
      ensures Occurrences(s.released, id) <= 1
      ensures id in s.released ==>
                Resident(s, id) == 0 && Pending(s.calls, id) == 0 && id !in s.overwritten
    {
      ExactlyOnePlace(bound, acts, id);
      OccurrencesPositive(s.released, id);
      OccurrencesPositive(s.overwritten, id);
    }
    OnceNoDup(s.released);
  }

  /** A call only ever returns an object that was built for the key it asked for. */
  lemma {:induction false} ReturnsOwnKey(bound: nat, acts: seq<Action>, c: nat)
    requires c < |Run(bound, Init, acts).calls| && Run(bound, Init, acts).calls[c].Returned?
    ensures var s := Run(bound, Init, acts);
            BuiltFor(s.builtFor, s.calls[c].key, s.calls[c].model)
  {
    RunKeepsInv(bound, Init, acts);
    var s := Run(bound, Init, acts);
    assert FaithfulCall(s.builtFor, s.calls[c]);
  }

  /**
   * Storing a key evicts nothing, or exactly the least recently touched key: never the
   * one just stored, and every key left resident was touched after the victim.
   */
  lemma {:induction false} VictimIsLeastRecent(bound: nat, acts: seq<Action>, c: nat)
    requires bound > 0
    requires Enabled(Run(bound, Init, acts), Store(c))
    ensures var s := Run(bound, Init, acts);
            var s' := Next(bound, s, Store(c));
            var k := s.calls[c].key;
            var full := |s.cache| == bound && k !in Keys(s.cache);
            && s'.cache != [] && s'.cache[|s'.cache| - 1] == Entry(k, s.calls[c].model)
            && (!full ==> s'.calls[c].evicted == [] && s'.cache == Without(s.cache, k) + [Entry(k, s.calls[c].model)])
            && (full ==>
                  && s'.calls[c].evicted == [s.cache[0].model]
                  && s'.cache == s.cache[1..] + [Entry(k, s.calls[c].model)]
                  && (forall e :: e in s'.cache ==> e.key in Since(s'.touches, s.cache[0].key)))
  {
    var s := Run(bound, Init, acts);
    var k, m := s.calls[c].key, s.calls[c].model;
    RunKeepsInv(bound, Init, acts);
    OrderedNoDup(bound, s.cache, s.touches);
    SectionEvicts(bound, s.cache, k, m);
    if |s.cache| == bound && k !in Keys(s.cache) {
      VictimOldest(bound, s, k, m);
    }
  }

  lemma {:induction false} SectionEvicts(bound: nat, d: Dict, k: Key, m: Model)
    requires bound > 0 && |d| <= bound && NoDup(Keys(d))
    ensures InsertSection(bound, d, k, m) ==
              if |d| == bound && k !in Keys(d) then (d[1..] + [Entry(k, m)], [d[0].model])
              else (Without(d, k) + [Entry(k, m)], [])
  {
    WithoutEntries(d, k);
    WithoutKeys(d, k);
    RemoveNoDup(Keys(d), k);
    var all := Without(d, k) + [Entry(k, m)];
    if |d| == bound && k !in Keys(d) {
      assert all == d + [Entry(k, m)];
      assert BeforeLastN(all, bound) == [d[0]] && LastN(all, bound) == d[1..] + [Entry(k, m)];
      assert Models([d[0]]) == [d[0].model];
    } else {
      assert |all| <= bound;
      assert BeforeLastN(all, bound) == [];
    }
  }

  lemma {:induction false} VictimOldest(bound: nat, s: State, k: Key, m: Model)
    requires bound > 0 && Ordered(bound, s) && |s.cache| == bound && k !in Keys(s.cache)
    ensures forall e :: e in s.cache[1..] + [Entry(k, m)] ==> e.key in Since(s.touches + [k], s.cache[0].key)
  {
    CacheSince(bound, s.cache, s.touches);
    assert Keys(s.cache)[0] != k;
    SinceSnoc(s.touches, k, s.cache[0].key);
  }

  /** A call between its miss and its store. */
  ghost predicate Loading(c: Call)
  {
    c.Building? || c.Inserting?
  }

  /** No two calls load the same key at once, and no factory returned None. */
  ghost predicate NoDoubleLoad(s: State)
  {
    && (forall i, j :: 0 <= i < j < |s.calls| && Loading(s.calls[i]) && Loading(s.calls[j]) ==>
          s.calls[i].key != s.calls[j].key)
    && (forall i :: 0 <= i < |s.calls| && s.calls[i].Inserting? ==> !s.calls[i].model.isNone)
  }

  ghost predicate NeverDoubleLoads(bound: nat, s: State, acts: seq<Action>)
    decreases |acts|
  {
    NoDoubleLoad(s) && (acts != [] ==> NeverDoubleLoads(bound, Next(bound, s, acts[0]), acts[1..]))
  }

  /** A key being loaded is not resident, so storing it cannot overwrite. */
  ghost predicate LoadsOnlyAbsent(s: State)
  {
    && s.overwritten == []
    && (forall e :: e in s.cache ==> !e.model.isNone)
    && (forall c :: 0 <= c < |s.calls| && Loading(s.calls[c]) ==> s.calls[c].key !in Keys(s.cache))
  }

  /** Nothing is ever overwritten in a run that never loads one key twice at once. */
  lemma {:induction false} NoOverwrite(bound: nat, acts: seq<Action>)
    requires NeverDoubleLoads(bound, Init, acts)
    ensures Run(bound, Init, acts).overwritten == []
  {
    NoOverwriteFrom(bound, Init, acts);
  }

  lemma {:induction false} NoOverwriteFrom(bound: nat, s: State, acts: seq<Action>)
    requires Ordered(bound, s) && LoadsOnlyAbsent(s) && NeverDoubleLoads(bound, s, acts)
    ensures Run(bound, s, acts).overwritten == []
    decreases |acts|
  {
    if acts != [] {
      StepOrdered(bound, s, acts[0]);
      NoOverwriteStep(bound, s, acts[0]);
      NoOverwriteFrom(bound, Next(bound, s, acts[0]), acts[1..]);
    }
  }

  lemma {:induction false} NewKeysOnly(d: Dict, d': Dict, k: Key)
    requires forall e :: e in d' && e.key != k ==> e in d
    ensures forall k' :: k' in Keys(d') && k' != k ==> k' in Keys(d)
  {
    forall k' | k' in Keys(d') && k' != k ensures k' in Keys(d) {
      var p :| 0 <= p < |d'| && Keys(d')[p] == k';
      assert d'[p] in d;
      var q :| 0 <= q < |d| && d[q] == d'[p];
      assert Keys(d)[q] == k';
    }
  }

  lemma {:induction false} NoOverwriteStep(bound: nat, s: State, a: Action)
    requires NoDoubleLoad(s) && LoadsOnlyAbsent(s)
    ensures LoadsOnlyAbsent(Next(bound, s, a))
  {
    if Enabled(s, a) && a.LookUp? {
      NoOverwriteLookUp(bound, s, a.call);
    } else if Enabled(s, a) && a.Store? {
      NoOverwriteStore(bound, s, a.call);
    }
  }

  lemma {:induction false} NoOverwriteLookUp(bound: nat, s: State, c: nat)
    requires Enabled(s, LookUp(c)) && LoadsOnlyAbsent(s)
    ensures LoadsOnlyAbsent(Next(bound, s, LookUp(c)))
  {
    var k := s.calls[c].key;
    var s' := Next(bound, s, LookUp(c));
    HitEntries(s.cache, k);
    NewKeysOnly(s.cache, s'.cache, k);
    forall i | 0 <= i < |s'.calls| && Loading(s'.calls[i]) ensures s'.calls[i].key !in Keys(s'.cache) {
      if i != c {
        assert s'.calls[i] == s.calls[i];
      }
    }
  }

  lemma {:induction false} NoOverwriteStore(bound: nat, s: State, c: nat)
    requires Enabled(s, Store(c)) && NoDoubleLoad(s) && LoadsOnlyAbsent(s)
    ensures LoadsOnlyAbsent(Next(bound, s, Store(c)))
  {
    var k, m := s.calls[c].key, s.calls[c].model;
    var s' := Next(bound, s, Store(c));
    StoreEntries(bound, s.cache, k, m);
    UnderAbsent(s.cache, k);
    NewKeysOnly(s.cache, s'.cache, k);
    assert Loading(s.calls[c]);
    forall i | 0 <= i < |s'.calls| && Loading(s'.calls[i]) ensures s'.calls[i].key !in Keys(s'.cache) {
      assert i != c && s'.calls[i] == s.calls[i];
    }
  }

  lemma {:induction false} UnderAbsent(d: Dict, k: Key)
    requires k !in Keys(d)
    ensures Under(d, k) == []
  {
    if d != [] {
      assert Keys(d)[0] in Keys(d) && Keys(d)[1..] == Keys(d[1..]);
      UnderAbsent(d[1..], k);
    }
  }

  lemma {:induction false} UnderResident(d: Dict, k: Key)
    requires k in Keys(d)
    ensures Under(d, k) != []
  {
    if d[0].key != k {
      assert Keys(d)[1..] == Keys(d[1..]);
      UnderResident(d[1..], k);
    }
  }

  /** The guard of the branch that overwrites: `k` was touched, and fewer than `bound` other keys since. */
  ghost predicate RecentlyTouched(bound: nat, touches: seq<Key>, k: Key)
  {
    k in touches && |Since(touches, k)| < bound
  }

  lemma {:induction false} StoreOverwrites(bound: nat, s: State, c: nat)
    requires Ordered(bound, s) && Enabled(s, Store(c))
    ensures var s' := Next(bound, s, Store(c));
            && |s'.overwritten| >= |s.overwritten|
            && (s'.overwritten != s.overwritten <==> RecentlyTouched(bound, s.touches, s.calls[c].key))
            && (s'.overwritten == s.overwritten <==> |s'.overwritten| == |s.overwritten|)
  {
    var k := s.calls[c].key;
    RecentlyUsed(s.touches, bound, k);
    if k in Keys(s.cache) {
      UnderResident(s.cache, k);
    } else {
      UnderAbsent(s.cache, k);
    }
  }

  /**
   * In every reachable state, a store replaces an object that is never released if and only
   * if its key has been touched with fewer than `bound` other keys touched since.
   */
  lemma {:induction false} StoreOverwritesIff(bound: nat, acts: seq<Action>, c: nat)
    requires Enabled(Run(bound, Init, acts), Store(c))
    ensures var s := Run(bound, Init, acts);
            Next(bound, s, Store(c)).overwritten != s.overwritten <==> RecentlyTouched(bound, s.touches, s.calls[c].key)
  {
    RunKeepsInv(bound, Init, acts);
    StoreOverwrites(bound, Run(bound, Init, acts), c);
  }

  ghost predicate StoresOnlyAbsent(bound: nat, s: State, acts: seq<Action>)
    decreases |acts|
  {
    acts == [] ||
    ((acts[0].Store? && Enabled(s, acts[0]) ==> !RecentlyTouched(bound, s.touches, s.calls[acts[0].call].key)) &&
     StoresOnlyAbsent(bound, Next(bound, s, acts[0]), acts[1..]))
  }

  lemma {:induction false} OverwrittenGrows(bound: nat, s: State, acts: seq<Action>)
    requires Ordered(bound, s)
    ensures |Run(bound, s, acts).overwritten| >= |s.overwritten|
    ensures |Run(bound, s, acts).overwritten| == |s.overwritten| <==> StoresOnlyAbsent(bound, s, acts)
    decreases |acts|
  {
    if acts != [] {
      StepOrdered(bound, s, acts[0]);
      OverwrittenGrows(bound, Next(bound, s, acts[0]), acts[1..]);
      if acts[0].Store? && Enabled(s, acts[0]) {
        StoreOverwrites(bound, s, acts[0].call);
      }
    }
  }

  /** A run overwrites nothing if and only if none of its stores finds its key recently touched. */
  lemma {:induction false} NothingOverwrittenIff(bound: nat, acts: seq<Action>)
    ensures Run(bound, Init, acts).overwritten == [] <==> StoresOnlyAbsent(bound, Init, acts)
  {
    OverwrittenGrows(bound, Init, acts);
  }

  /** Two overlapping loads of one key do overwrite: the earlier object is never released. */
  lemma {:induction false} DoubleLoadOverwrites(k: Key)
    ensures exists acts ::
              var s := Run(MAX_CACHED_MODELS, Init, acts);
              s.overwritten == [0] && s.released == [] && s.cache == [Entry(k, Model(1, false))]
  {
    var N := MAX_CACHED_MODELS;
    var m0, m1 := Model(0, false), Model(1, false);
    var arrive, look := [Arrive(k), Arrive(k)], [LookUp(0), LookUp(1)];
    var build, store := [Build(0, false), Build(1, false)], [Store(0), Store(1)];
    var s2 := Init.(calls := [Looking(k), Looking(k)]);
    var s4 := Init.(calls := [Building(k), Building(k)]);
    var s6 := Init.(calls := [Inserting(k, m0), Inserting(k, m1)], builtFor := [k, k]);
    RunTwo(N, Init, Arrive(k), Arrive(k));
    RunTwo(N, s2, LookUp(0), LookUp(1));
    RunTwo(N, s4, Build(0, false), Build(1, false));
    assert Run(N, Init, arrive) == s2 && Run(N, s2, look) == s4 && Run(N, s4, build) == s6;
    RunConcat(N, Init, arrive, look);
    RunConcat(N, Init, arrive + look, build);
    RunConcat(N, Init, arrive + look + build, store);
    OverlappingStores(k);
  }

  lemma {:induction false} OverlappingStores(k: Key)
    ensures var s := Init.(calls := [Inserting(k, Model(0, false)), Inserting(k, Model(1, false))], builtFor := [k, k]);
            var s' := Run(MAX_CACHED_MODELS, s, [Store(0), Store(1)]);
            s'.overwritten == [0] && s'.released == [] && s'.cache == [Entry(k, Model(1, false))]
  {
    var m0, m1 := Model(0, false), Model(1, false);
    var s := Init.(calls := [Inserting(k, m0), Inserting(k, m1)], builtFor := [k, k]);
    RunTwo(MAX_CACHED_MODELS, s, Store(0), Store(1));
    SectionEvicts(MAX_CACHED_MODELS, [], k, m0);
    assert Without([], k) == [];
    var s1 := Next(MAX_CACHED_MODELS, s, Store(0));
    assert s1.cache == [Entry(k, m0)] && s1.calls[1] == Inserting(k, m1);
    assert Keys(s1.cache) == [k];
    SectionEvicts(MAX_CACHED_MODELS, s1.cache, k, m1);
    assert Without([Entry(k, m0)], k) == [] && Under([Entry(k, m0)], k) == [0] by {
      assert [Entry(k, m0)][1..] == [];
    }
  }

  lemma {:induction false} RunTwo(bound: nat, s: State, a: Action, b: Action)
    ensures Run(bound, s, [a, b]) == Next(bound, Next(bound, s, a), b)
  {
    assert [a, b][1..] == [b] && [b][1..] == [];
    assert Run(bound, Next(bound, s, a), [b]) == Run(bound, Next(bound, Next(bound, s, a), b), []);
  }

  lemma {:induction false} RunConcat(bound: nat, s: State, a: seq<Action>, b: seq<Action>)
    ensures Run(bound, s, a + b) == Run(bound, Run(bound, s, a), b)
    decreases |a|
  {
    if a == [] {
      assert a + b == b;
    } else {
      assert (a + b)[1..] == a[1..] + b;
      RunConcat(bound, Next(bound, s, a[0]), a[1..], b);
    }
  }

  // ---- One caller at a time: a larger bound never hurts ---------------------------------

  /** One uncontended call: hit, or build and store. */
  function Serve(bound: nat, d: Dict, k: Key, m: Model): Dict
  {
    if LookupSection(d, k).0.Some? then LookupSection(d, k).1 else InsertSection(bound, d, k, m).0
  }

  /** The cache after the requests `ks`; object identities play no part here. */
  function ServeAll(bound: nat, d: Dict, ks: seq<Key>): Dict
    decreases |ks|
  {
    if ks == [] then d else ServeAll(bound, Serve(bound, d, ks[0], Model(0, false)), ks[1..])
  }

  /** How many of the requests `ks` have to load a model. */
  function Loads(bound: nat, d: Dict, ks: seq<Key>): nat
    decreases |ks|
  {
    if ks == [] then 0 else
    var rest := Loads(bound, Serve(bound, d, ks[0], Model(0, false)), ks[1..]);
    if LookupSection(d, ks[0]).0.Some? then rest else rest + 1
  }

  /** `d` holds the `bound` most recent keys of `touches`, each with a real model. */
  ghost predicate WarmExactly(bound: nat, d: Dict, touches: seq<Key>)
  {
    Keys(d) == LastN(Recency(touches), bound) && forall e :: e in d ==> !e.model.isNone
  }

  lemma {:induction false} ServeWarm(bound: nat, d: Dict, before: seq<Key>, k: Key)
    requires WarmExactly(bound, d, before)
    ensures WarmExactly(bound, Serve(bound, d, k, Model(0, false)), before + [k])
    ensures LookupSection(d, k).0.Some? <==> k in before && |Since(before, k)| < bound
  {
    RecencyMeaning(before);
    RecencySnoc(before, k);
    RecentlyUsed(before, bound, k);
    if LookupSection(d, k).0.Some? {
      HitKeys(bound, d, Recency(before), k);
      HitEntries(d, k);
    } else {
      StoreKeys(bound, d, Recency(before), k, Model(0, false));
      StoreEntries(bound, d, k, Model(0, false));
    }
  }

  lemma {:induction false} ServeAllWarm(bound: nat, d: Dict, before: seq<Key>, ks: seq<Key>, all: seq<Key>)
    requires WarmExactly(bound, d, before) && all == before + ks
    ensures WarmExactly(bound, ServeAll(bound, d, ks), all)
    decreases |ks|
  {
    if ks == [] {
      assert all == before;
    } else {
      ServeWarm(bound, d, before, ks[0]);
      ServeAllWarm(bound, Serve(bound, d, ks[0], Model(0, false)), before + [ks[0]], ks[1..], all);
    }
  }

  /** Inclusion: whatever is warm with the smaller bound is warm with the larger one. */
  lemma {:induction false} LargerCacheIncludes(bound: nat, larger: nat, ks: seq<Key>, k: Key)
    requires bound <= larger
    requires k in Keys(ServeAll(bound, [], ks))
    ensures k in Keys(ServeAll(larger, [], ks))
  {
    ServeAllWarm(bound, [], [], ks, ks);
    ServeAllWarm(larger, [], [], ks, ks);
    RecentlyUsed(ks, bound, k);
    RecentlyUsed(ks, larger, k);
  }

  /** Hence a larger bound never causes more model loads on the same requests. */
  lemma {:induction false} LargerCacheLoadsLess(bound: nat, larger: nat, ks: seq<Key>)
    requires bound <= larger
    ensures Loads(larger, [], ks) <= Loads(bound, [], ks)
  {
    LoadsLess(bound, larger, [], [], [], ks);
  }

  lemma {:induction false} LoadsLess(bound: nat, larger: nat, d: Dict, d': Dict, before: seq<Key>, ks: seq<Key>)
    requires bound <= larger && WarmExactly(bound, d, before) && WarmExactly(larger, d', before)
    ensures Loads(larger, d', ks) <= Loads(bound, d, ks)
    decreases |ks|
  {
    if ks != [] {
      ServeWarm(bound, d, before, ks[0]);
      ServeWarm(larger, d', before, ks[0]);
      LoadsLess(bound, larger, Serve(bound, d, ks[0], Model(0, false)), Serve(larger, d', ks[0], Model(0, false)),
                before + [ks[0]], ks[1..]);
    }
  }
}
