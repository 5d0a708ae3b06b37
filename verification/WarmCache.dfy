/**
 * The bounded warm-model cache: an ordered dictionary used under a lock in two
 * separate sections, with an unlocked build between them and the release of evicted
 * models after them.
 */
module WarmCache {
  import opened Seqs

  // The tuple that names a model: task, model, device, ...
  datatype Key = Key(parts: seq<string>)

  const MAX_CACHED_MODELS: nat := 4

  // What a factory returned.  `id` is the identity of the object; a factory may also
  // return Python's None, which the cache stores but never treats as a hit.
  datatype Model = Model(id: nat, isNone: bool)

  datatype Entry = Entry(key: Key, model: Model)

  // The ordered dictionary, least recently touched entry first.
  type Dict = seq<Entry>

  function Keys(d: Dict): (ks: seq<Key>)
    ensures |ks| == |d|
    ensures forall i :: 0 <= i < |d| ==> ks[i] == d[i].key
  {
    if d == [] then [] else [d[0].key] + Keys(d[1..])
  }

  function Models(d: Dict): (ms: seq<Model>)
    ensures |ms| == |d|
    ensures forall i :: 0 <= i < |d| ==> ms[i] == d[i].model
  {
    if d == [] then [] else [d[0].model] + Models(d[1..])
  }

  // ---- Primitives of the ordered dictionary -----------------------------------------

  function Get(d: Dict, k: Key): (r: Option<Model>)
    ensures r.Some? <==> k in Keys(d)
    ensures r.Some? ==> Entry(k, r.value) in d
  {
    if d == [] then None
    else if d[0].key == k then Some(d[0].model)
    else Get(d[1..], k)
  }

  /** Assignment to a key: in place when present, at the end when new. */
  function SetItem(d: Dict, k: Key, m: Model): (r: Dict)
    ensures Get(r, k) == Some(m)
  {
    if d == [] then [Entry(k, m)]
    else if d[0].key == k then [Entry(k, m)] + d[1..]
    else [d[0]] + SetItem(d[1..], k, m)
  }

  function Without(d: Dict, k: Key): Dict
  {
    if d == [] then [] else (if d[0].key == k then [] else [d[0]]) + Without(d[1..], k)
  }

  /** The objects, at most one in an ordered dictionary, stored under `k`. */
  function Under(d: Dict, k: Key): seq<nat>
  {
    if d == [] then [] else (if d[0].key == k then [d[0].model.id] else []) + Under(d[1..], k)
  }

  lemma {:induction false} SetItemWithout(d: Dict, k: Key, m: Model)
    requires NoDup(Keys(d))
    ensures Without(SetItem(d, k, m), k) == Without(d, k)
  {
    if d != [] {
      assert Keys(d)[1..] == Keys(d[1..]);
      if d[0].key == k {
        assert SetItem(d, k, m)[1..] == d[1..];
      } else {
        assert SetItem(d, k, m)[1..] == SetItem(d[1..], k, m);
        SetItemWithout(d[1..], k, m);
      }
    }
  }

  lemma {:induction false} WithoutKeys(d: Dict, k: Key)
    ensures Keys(Without(d, k)) == Remove(Keys(d), k)
  {
    if d != [] {
      WithoutKeys(d[1..], k);
      assert Keys(d)[1..] == Keys(d[1..]);
      KeysConcat(if d[0].key == k then [] else [d[0]], Without(d[1..], k));
    }
  }

  lemma {:induction false} KeysConcat(a: Dict, b: Dict)
    ensures Keys(a + b) == Keys(a) + Keys(b)
  {
    if a == [] {
      assert a + b == b;
    } else {
      assert (a + b)[1..] == a[1..] + b;
      KeysConcat(a[1..], b);
    }
  }

  lemma {:induction false} WithoutEntries(d: Dict, k: Key)
    ensures forall e :: e in Without(d, k) <==> e in d && e.key != k
    ensures |Without(d, k)| <= |d|
    ensures k !in Keys(d) ==> Without(d, k) == d
  {
    if d != [] {
      var first, rest := d[0], d[1..];
      assert d == [first] + rest;
      WithoutEntries(rest, k);
      assert Without(d, k) == (if first.key == k then [] else [first]) + Without(rest, k);
      if k !in Keys(d) {
        assert Keys(d)[0] in Keys(d) && Keys(d)[1..] == Keys(rest);
      }
    }
  }

  // ---- The two locked sections as functions of the dictionary --------------------

  /** First section: a present, non-None model is a hit and moves to the end. */
  function LookupSection(d: Dict, k: Key): (Option<Model>, Dict)
  {
    var got := Get(d, k);
    if got.Some? && !got.value.isNone then
      (got, Without(d, k) + [Entry(k, got.value)])
    else
      (None, d)
  }

  /** Second section: store at the end, then drop from the front down to `bound`. */
  function InsertSection(bound: nat, d: Dict, k: Key, m: Model): (Dict, seq<Model>)
  {
    var all := Without(d, k) + [Entry(k, m)];
    (LastN(all, bound), Models(BeforeLastN(all, bound)))
  }

  lemma {:induction false} LookupKeepsOthers(d: Dict, k: Key)
    ensures var (hit, d') := LookupSection(d, k);
            && (forall e: Entry :: e.key != k ==> (e in d' <==> e in d))
            && Remove(Keys(d'), k) == Remove(Keys(d), k)
  {
    WithoutEntries(d, k);
    WithoutKeys(d, k);
    RemoveElements(Keys(d), k);
    RemoveAbsent(Remove(Keys(d), k), k);
    if LookupSection(d, k).0.Some? {
      var e := Entry(k, Get(d, k).value);
      KeysConcat(Without(d, k), [e]);
      RemoveConcat(Remove(Keys(d), k), [k], k);
      assert Keys([e]) == [k] && Remove([k], k) == [];
    }
  }

  function BeforeLastN(d: Dict, n: nat): Dict
  {
    d[..|d| - |LastN(d, n)|]
  }

  // ---- The cache object -----------------------------------------------------------

  class Cache {
    const bound: nat
    var entries: Dict

    constructor (bound: nat)
      ensures entries == [] && this.bound == bound
    {
      this.bound := bound;
      entries := [];
    }

    method MoveToEnd(k: Key)
      requires k in Keys(entries)
      modifies this
      ensures entries == Without(old(entries), k) + [Entry(k, Get(old(entries), k).value)]
    {
      entries := Without(entries, k) + [Entry(k, Get(entries, k).value)];
    }

    method PopFirst() returns (e: Entry)
      requires entries != []
      modifies this
      ensures e == old(entries)[0] && entries == old(entries)[1..]
    {
      e := entries[0];
      entries := entries[1..];
    }

    /** A hit moves its own entry to the end; every other entry, and the order among them, stays. */
    method Lookup(k: Key) returns (hit: Option<Model>)
      modifies this
      ensures (hit, entries) == LookupSection(old(entries), k)
      ensures hit.None? ==> entries == old(entries)
      ensures hit.None? <==> k !in Keys(old(entries)) || Get(old(entries), k).value.isNone
      ensures hit.Some? ==>
                Entry(k, hit.value) in old(entries) && entries != [] && entries[|entries| - 1] == Entry(k, hit.value)
      ensures forall e: Entry :: e.key != k ==> (e in entries <==> e in old(entries))
      ensures Remove(Keys(entries), k) == Remove(Keys(old(entries)), k)
    {
      LookupKeepsOthers(entries, k);
      hit := Get(entries, k);
      if hit.Some? && !hit.value.isNone {
        MoveToEnd(k);
      } else {
        hit := None;
      }
    }

    /** Pop the oldest entries until at most `bound` are left. */
    method Overflow() returns (evicted: seq<Model>)
      modifies this
      ensures entries == LastN(old(entries), bound)
      ensures evicted == Models(BeforeLastN(old(entries), bound))
    {
      ghost var all := entries;
      evicted := [];
      while |entries| > bound
        invariant |evicted| <= |all| && entries == all[|evicted|..]
        invariant evicted == Models(all[..|evicted|])
        invariant evicted != [] ==> |entries| >= bound
      {
        ModelsSnoc(all, |evicted|);
        var e := PopFirst();
        evicted := evicted + [e.model];
      }
    }

    method Insert(k: Key, m: Model) returns (evicted: seq<Model>)
      requires NoDup(Keys(entries))
      modifies this
      ensures (entries, evicted) == InsertSection(bound, old(entries), k, m)
    {
      SetItemWithout(entries, k, m);
      entries := SetItem(entries, k, m);
      MoveToEnd(k);
      evicted := Overflow();
    }

    /** One uncontended call; `built` is what the factory would return. */
    method Cached(k: Key, built: Model) returns (obj: Model, released: seq<Model>)
      requires NoDup(Keys(entries))
      modifies this
      ensures LookupSection(old(entries), k).0.Some? ==>
                obj == LookupSection(old(entries), k).0.value &&
                entries == LookupSection(old(entries), k).1 && released == []
      ensures LookupSection(old(entries), k).0.None? ==>
                obj == built && entries == InsertSection(bound, old(entries), k, built).0 &&
                released == Reverse(InsertSection(bound, old(entries), k, built).1)
    {
      released := [];
      var hit := Lookup(k);
      if hit.Some? {
        return hit.value, [];
      }
      obj := built;
      var evicted := Insert(k, obj);
      ghost var all := evicted;
      ghost var kept := entries;
      while evicted != []
        invariant entries == kept
        invariant evicted <= all && released == Reverse(all[|evicted|..])
        decreases |evicted|
      {
        ReverseSnoc(all, |evicted| - 1);
        released := released + [evicted[|evicted| - 1]];
        evicted := evicted[..|evicted| - 1];
      }
      assert all[0..] == all;
    }
  }

  function Reverse(s: seq<Model>): (r: seq<Model>)
    ensures |r| == |s| && forall i :: 0 <= i < |s| ==> r[i] == s[|s| - 1 - i]
  {
    if s == [] then [] else Reverse(s[1..]) + [s[0]]
  }

  lemma {:induction false} ReverseSnoc(s: seq<Model>, i: nat)
    requires i < |s|
    ensures Reverse(s[i..]) == Reverse(s[i + 1..]) + [s[i]]
  {
    assert s[i..][1..] == s[i + 1..];
  }

  lemma {:induction false} ModelsSnoc(d: Dict, n: nat)
    requires n < |d|
    ensures Models(d[..n + 1]) == Models(d[..n]) + [d[n].model]
  {
    if n > 0 {
      assert d[..n + 1][1..] == d[1..][..n] && d[..n][1..] == d[1..][..n - 1];
      ModelsSnoc(d[1..], n - 1);
    } else {
      assert d[..1] == [d[0]];
    }
  }
}
