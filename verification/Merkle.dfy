/**
 * Merkle trees over ordered leaves: the root, inclusion proofs and consistency proofs, and
 * the two verifiers that replay the recursive split.  SHA-256 is a parameter.
 */
module Merkle {

  type Bytes = seq<bv8>
  type Sha = Bytes -> Bytes

  const HASH_SIZE := 32

  ghost predicate Sized(sha: Sha)
  {
    forall x :: |sha(x)| == HASH_SIZE
  }

  function LeafBytes(data: Bytes): Bytes
  {
    [0] + data
  }

  function NodeBytes(left: Bytes, right: Bytes): Bytes
  {
    [1] + left + right
  }

  function LeafHash(sha: Sha, data: Bytes): Bytes
  {
    sha(LeafBytes(data))
  }

  function NodeHash(sha: Sha, left: Bytes, right: Bytes): Bytes
  {
    sha(NodeBytes(left, right))
  }

  // ---- Where a tree splits -------------------------------------------------------------------------

  predicate IsPowerOfTwo(k: nat)
  {
    k == 1 || (k > 1 && k % 2 == 0 && IsPowerOfTwo(k / 2))
  }

  /** The first of `k`, 2k, 4k, ... whose double is not below `n`. */
  function SplitFrom(k: nat, n: nat): (r: nat)
    requires 1 <= k < n
    ensures k <= r < n
    decreases n - k
  {
    if k * 2 < n then SplitFrom(k * 2, n) else k
  }

  function Split(n: nat): (k: nat)
    requires n >= 2
    ensures 1 <= k < n
  {
    SplitFrom(1, n)
  }

  method SplitLoop(n: nat) returns (k: nat)
    requires n >= 2
    ensures k == Split(n)
  {
    k := 1;
    while k * 2 < n
      invariant 1 <= k < n && SplitFrom(k, n) == Split(n)
      decreases n - k
    {
      k := k * 2;
    }
  }

  lemma {:induction false} SplitFromPower(k: nat, n: nat)
    requires 1 <= k < n && IsPowerOfTwo(k)
    ensures n <= 2 * SplitFrom(k, n) && IsPowerOfTwo(SplitFrom(k, n))
    decreases n - k
  {
    if k * 2 < n {
      SplitFromPower(k * 2, n);
    }
  }

  /** No power of two lies strictly between a power of two and its double. */
  lemma {:induction false} PowersApart(a: nat, b: nat)
    requires IsPowerOfTwo(a) && IsPowerOfTwo(b) && a < b
    ensures 2 * a <= b
  {
    if a > 1 {
      PowersApart(a / 2, b / 2);
    }
  }

  /** The split is the largest power of two below `n`: the only one that is at least half of `n`. */
  lemma {:induction false} SplitIs(n: nat, k: nat)
    requires 1 <= k < n <= 2 * k && IsPowerOfTwo(k)
    ensures Split(n) == k
  {
    SplitFromPower(1, n);
    if Split(n) < k {
      PowersApart(Split(n), k);
    } else if k < Split(n) {
      PowersApart(k, Split(n));
    }
  }

  // ---- Root and inclusion proofs -----------------------------------------------------------------

  function Root(sha: Sha, leaves: seq<Bytes>): Bytes
    decreases |leaves|
  {
    if leaves == [] then sha([])
    else if |leaves| == 1 then LeafHash(sha, leaves[0])
    else
      var k := Split(|leaves|);
      NodeHash(sha, Root(sha, leaves[..k]), Root(sha, leaves[k..]))
  }

  /** The siblings on the way up from a leaf, the lowest first. */
  function InclusionProof(sha: Sha, leaves: seq<Bytes>, index: nat): seq<Bytes>
    requires index < |leaves|
    decreases |leaves|
  {
    if |leaves| == 1 then []
    else
      var k := Split(|leaves|);
      if index < k then InclusionProof(sha, leaves[..k], index) + [Root(sha, leaves[k..])]
      else InclusionProof(sha, leaves[k..], index - k) + [Root(sha, leaves[..k])]
  }

  // What a replay leaves: a hash and the unread rest of the path, or nothing if the path ran out.
  datatype Walked = RanOut | Got(hash: Bytes, rest: seq<Bytes>)

  function Walk(sha: Sha, size: nat, index: nat, path: seq<Bytes>, leaf: Bytes): (w: Walked)
    requires index < size
    decreases size
  {
    if size == 1 then Got(leaf, path)
    else
      var k := Split(size);
      var below := if index < k then Walk(sha, k, index, path, leaf) else Walk(sha, size - k, index - k, path, leaf);
      Up(sha, index < k, below)
  }

  /** One level up: the next entry of the path is the sibling on the other side. */
  function Up(sha: Sha, fromLeft: bool, below: Walked): Walked
  {
    if below.RanOut? || below.rest == [] then RanOut
    else if fromLeft then Got(NodeHash(sha, below.hash, below.rest[0]), below.rest[1..])
    else Got(NodeHash(sha, below.rest[0], below.hash), below.rest[1..])
  }

  predicate VerifyInclusion(sha: Sha, root: Bytes, data: Bytes, index: int, size: int, path: seq<Bytes>)
  {
    if !(0 <= index < size) then false
    else
      var w := Walk(sha, size, index, path, LeafHash(sha, data));
      w.Got? && w.rest == [] && w.hash == root
  }

  lemma {:induction false} Regroup(a: seq<Bytes>, x: Bytes, more: seq<Bytes>)
    ensures a + [x] + more == a + ([x] + more) && ([x] + more)[1..] == more
  {
  }

  /** Replaying the proof built for a leaf gives the root, and leaves `more` unread. */
  ghost predicate Climbs(sha: Sha, leaves: seq<Bytes>, index: nat, leaf: Bytes, more: seq<Bytes>)
    requires index < |leaves|
  {
    Walk(sha, |leaves|, index, InclusionProof(sha, leaves, index) + more, leaf) == Got(Root(sha, leaves), more)
  }

  /** The replay of a built proof arrives at the root and reads exactly the proof. */
  lemma {:induction false} WalkBuilt(sha: Sha, leaves: seq<Bytes>, index: nat, more: seq<Bytes>)
    requires index < |leaves|
    ensures Climbs(sha, leaves, index, LeafHash(sha, leaves[index]), more)
    decreases |leaves|
  {
    if |leaves| == 1 {
      assert [] + more == more;
    } else {
      var k := Split(|leaves|);
      if index < k {
        assert leaves[..k][index] == leaves[index];
        WalkBuilt(sha, leaves[..k], index, [Root(sha, leaves[k..])] + more);
        ClimbsFromLeft(sha, leaves, index, LeafHash(sha, leaves[index]), more);
      } else {
        assert leaves[k..][index - k] == leaves[index];
        WalkBuilt(sha, leaves[k..], index - k, [Root(sha, leaves[..k])] + more);
        ClimbsFromRight(sha, leaves, index, LeafHash(sha, leaves[index]), more);
      }
    }
  }

  lemma {:induction false} ClimbsFromLeft(sha: Sha, leaves: seq<Bytes>, index: nat, leaf: Bytes, more: seq<Bytes>)
    requires |leaves| > 1 && index < Split(|leaves|)
    requires Climbs(sha, leaves[..Split(|leaves|)], index, leaf, [Root(sha, leaves[Split(|leaves|)..])] + more)
    ensures Climbs(sha, leaves, index, leaf, more)
  {
    var k := Split(|leaves|);
    RootSplits(sha, leaves);
    ProofSplits(sha, leaves, index, more);
    UpTo(sha, |leaves|, index, InclusionProof(sha, leaves, index) + more, leaf, Root(sha, leaves[..k]),
         Root(sha, leaves[k..]), more);
  }

  lemma {:induction false} ClimbsFromRight(sha: Sha, leaves: seq<Bytes>, index: nat, leaf: Bytes, more: seq<Bytes>)
    requires |leaves| > 1 && Split(|leaves|) <= index < |leaves|
    requires Climbs(sha, leaves[Split(|leaves|)..], index - Split(|leaves|), leaf,
                    [Root(sha, leaves[..Split(|leaves|)])] + more)
    ensures Climbs(sha, leaves, index, leaf, more)
  {
    var k := Split(|leaves|);
    RootSplits(sha, leaves);
    ProofSplits(sha, leaves, index, more);
    UpTo(sha, |leaves|, index, InclusionProof(sha, leaves, index) + more, leaf, Root(sha, leaves[..k]),
         Root(sha, leaves[k..]), more);
  }

  /** What the root of a tree is a hash of, byte by byte. */
  lemma {:induction false} RootIs(sha: Sha, leaves: seq<Bytes>, k: nat)
    ensures leaves == [] ==> Root(sha, leaves) == sha([])
    ensures |leaves| == 1 ==> Root(sha, leaves) == sha([0] + leaves[0])
    ensures 1 <= k < |leaves| <= 2 * k && IsPowerOfTwo(k) ==>
              Root(sha, leaves) == sha([1] + Root(sha, leaves[..k]) + Root(sha, leaves[k..]))
  {
    if 1 <= k < |leaves| <= 2 * k && IsPowerOfTwo(k) {
      SplitIs(|leaves|, k);
    }
  }

  lemma {:induction false} RootSplits(sha: Sha, leaves: seq<Bytes>)
    requires |leaves| > 1
    ensures var k := Split(|leaves|); Root(sha, leaves) == NodeHash(sha, Root(sha, leaves[..k]), Root(sha, leaves[k..]))
  {
  }

  lemma {:induction false} ProofSplits(sha: Sha, leaves: seq<Bytes>, index: nat, more: seq<Bytes>)
    requires |leaves| > 1 && index < |leaves|
    ensures var k := Split(|leaves|);
            InclusionProof(sha, leaves, index) + more ==
            if index < k then InclusionProof(sha, leaves[..k], index) + ([Root(sha, leaves[k..])] + more)
            else InclusionProof(sha, leaves[k..], index - k) + ([Root(sha, leaves[..k])] + more)
  {
    var k := Split(|leaves|);
    if index < k {
      Regroup(InclusionProof(sha, leaves[..k], index), Root(sha, leaves[k..]), more);
    } else {
      Regroup(InclusionProof(sha, leaves[k..], index - k), Root(sha, leaves[..k]), more);
    }
  }

  /** The last level of a replay, between a left and a right hash. */
  lemma {:induction false} UpTo(sha: Sha, size: nat, index: nat, path: seq<Bytes>, leaf: Bytes, left: Bytes,
                                right: Bytes, more: seq<Bytes>)
    requires index < size && size > 1
    requires var k := Split(size);
             if index < k then Walk(sha, k, index, path, leaf) == Got(left, [right] + more)
             else Walk(sha, size - k, index - k, path, leaf) == Got(right, [left] + more)
    ensures Walk(sha, size, index, path, leaf) == Got(NodeHash(sha, left, right), more)
  {
    Regroup([], left, more);
    Regroup([], right, more);
  }

  /** Every leaf of every tree is accepted with the proof built for it. */
  lemma {:induction false} BuiltProofIsAccepted(sha: Sha, leaves: seq<Bytes>, index: nat)
    requires index < |leaves|
    ensures VerifyInclusion(sha, Root(sha, leaves), leaves[index], index, |leaves|, InclusionProof(sha, leaves, index))
  {
    WalkBuilt(sha, leaves, index, []);
    assert InclusionProof(sha, leaves, index) + [] == InclusionProof(sha, leaves, index);
  }

  // ---- Nothing else is accepted -----------------------------------------------------------------------

  /** The number of siblings on the way up. */
  function Height(size: nat, index: nat): nat
    requires index < size
    decreases size
  {
    if size == 1 then 0
    else
      var k := Split(size);
      1 + if index < k then Height(k, index) else Height(size - k, index - k)
  }

  lemma {:induction false} WalkReads(sha: Sha, size: nat, index: nat, path: seq<Bytes>, leaf: Bytes)
    requires index < size
    ensures Walk(sha, size, index, path, leaf).Got? <==> Height(size, index) <= |path|
    ensures Walk(sha, size, index, path, leaf).Got? ==>
              Walk(sha, size, index, path, leaf).rest == path[Height(size, index)..]
    ensures Sized(sha) && |leaf| == HASH_SIZE && Walk(sha, size, index, path, leaf).Got? ==>
              |Walk(sha, size, index, path, leaf).hash| == HASH_SIZE
    decreases size
  {
    if size > 1 {
      var k := Split(size);
      if index < k {
        WalkReads(sha, k, index, path, leaf);
      } else {
        WalkReads(sha, size - k, index - k, path, leaf);
      }
    }
  }

  /** The byte strings that the replay hashes above the leaf. */
  function Hashed(sha: Sha, size: nat, index: nat, path: seq<Bytes>, leaf: Bytes): seq<Bytes>
    requires index < size
    decreases size
  {
    if size == 1 then []
    else
      var k := Split(size);
      var below := if index < k then Walk(sha, k, index, path, leaf) else Walk(sha, size - k, index - k, path, leaf);
      if below.RanOut? || below.rest == [] then []
      else
        (if index < k then Hashed(sha, k, index, path, leaf) else Hashed(sha, size - k, index - k, path, leaf))
        + [Above(index < k, below)]
  }

  function Above(fromLeft: bool, below: Walked): Bytes
    requires below.Got? && below.rest != []
  {
    if fromLeft then NodeBytes(below.hash, below.rest[0]) else NodeBytes(below.rest[0], below.hash)
  }

  /** No string of one list collides with a string of the other. */
  ghost predicate NoClash(sha: Sha, xs: seq<Bytes>, ys: seq<Bytes>)
  {
    forall x, y :: x in xs && y in ys && sha(x) == sha(y) ==> x == y
  }

  lemma {:induction false} NoClashInit(sha: Sha, xs: seq<Bytes>, x: Bytes, ys: seq<Bytes>, y: Bytes)
    requires NoClash(sha, xs + [x], ys + [y])
    ensures NoClash(sha, xs, ys) && (sha(x) == sha(y) ==> x == y)
  {
    assert forall z :: z in xs ==> z in xs + [x];
    assert forall z :: z in ys ==> z in ys + [y];
    assert x in xs + [x] && y in ys + [y];
  }

  /** Two nodes of the same bytes have the same children, if the left ones, or the right ones, are of one size. */
  lemma {:induction false} SameNode(a: Bytes, b: Bytes, c: Bytes, d: Bytes)
    requires NodeBytes(a, b) == NodeBytes(c, d) && (|a| == |c| || |b| == |d|)
    ensures a == c && b == d
  {
    var x, y := NodeBytes(a, b), NodeBytes(c, d);
    assert |a| == |c|;
    assert a == x[1..1 + |a|] && c == y[1..1 + |c|];
    assert b == x[1 + |a|..] && d == y[1 + |c|..];
  }

  /** One level: if the hashes above agree, so do the hashes below and the siblings. */
  lemma {:induction false} UpAgrees(sha: Sha, fromLeft: bool, v: Walked, w: Walked, xs: seq<Bytes>, ys: seq<Bytes>)
    requires v.Got? && w.Got? && v.rest != [] && w.rest != [] && |v.hash| == |w.hash|
    requires Up(sha, fromLeft, v).hash == Up(sha, fromLeft, w).hash
    requires NoClash(sha, xs + [Above(fromLeft, v)], ys + [Above(fromLeft, w)])
    ensures v.hash == w.hash && v.rest[0] == w.rest[0] && NoClash(sha, xs, ys)
  {
    NoClashInit(sha, xs, Above(fromLeft, v), ys, Above(fromLeft, w));
    if fromLeft {
      SameNode(v.hash, v.rest[0], w.hash, w.rest[0]);
    } else {
      SameNode(v.rest[0], v.hash, w.rest[0], w.hash);
    }
  }

  ghost predicate SameTop(sha: Sha, size: nat, index: nat, p: seq<Bytes>, q: seq<Bytes>, a: Bytes, b: Bytes)
    requires index < size
  {
    && Walk(sha, size, index, p, a).Got? && Walk(sha, size, index, q, b).Got?
    && Walk(sha, size, index, p, a).hash == Walk(sha, size, index, q, b).hash
    && NoClash(sha, Hashed(sha, size, index, p, a), Hashed(sha, size, index, q, b))
  }

  /** The subtree that `index` lies in, and its place there. */
  ghost predicate Within(size: nat, index: nat, s: nat, i: nat)
  {
    index < size && i < s < size
    && var k := Split(size); if index < k then s == k && i == index else s == size - k && i == index - k
  }

  lemma {:induction false} TopBelow(sha: Sha, size: nat, index: nat, p: seq<Bytes>, q: seq<Bytes>, a: Bytes, b: Bytes,
                                    s: nat, i: nat)
    requires size > 1 && Within(size, index, s, i) && Sized(sha) && |a| == |b| == HASH_SIZE
    requires SameTop(sha, size, index, p, q, a, b)
    ensures SameTop(sha, s, i, p, q, a, b)
    ensures Walk(sha, s, i, p, a).rest != [] && Walk(sha, s, i, q, b).rest != []
    ensures Walk(sha, s, i, p, a).rest[0] == Walk(sha, s, i, q, b).rest[0]
  {
    var v, w := Walk(sha, s, i, p, a), Walk(sha, s, i, q, b);
    WalkUp(sha, size, index, p, a, v);
    WalkUp(sha, size, index, q, b, w);
    WalkReads(sha, s, i, p, a);
    WalkReads(sha, s, i, q, b);
    UpAgrees(sha, index < Split(size), v, w, Hashed(sha, s, i, p, a), Hashed(sha, s, i, q, b));
  }

  lemma {:induction false} HeightBelow(size: nat, index: nat, s: nat, i: nat)
    requires Within(size, index, s, i)
    ensures Height(size, index) == 1 + Height(s, i)
  {
  }

  /** Two replays that arrive at one hash started from one leaf hash and read one path. */
  lemma {:induction false} Lockstep(sha: Sha, size: nat, index: nat, p: seq<Bytes>, q: seq<Bytes>, a: Bytes, b: Bytes)
    requires index < size && Sized(sha) && |a| == |b| == HASH_SIZE
    requires SameTop(sha, size, index, p, q, a, b)
    ensures Height(size, index) <= |p| && Height(size, index) <= |q|
    ensures a == b && p[..Height(size, index)] == q[..Height(size, index)]
    decreases size
  {
    if size > 1 {
      var k := Split(size);
      var s, i := if index < k then k else size - k, if index < k then index else index - k;
      TopBelow(sha, size, index, p, q, a, b, s, i);
      Lockstep(sha, s, i, p, q, a, b);
      assert Walk(sha, s, i, p, a).rest == p[Height(s, i)..] by {
        WalkReads(sha, s, i, p, a);
      }
      assert Walk(sha, s, i, q, b).rest == q[Height(s, i)..] by {
        WalkReads(sha, s, i, q, b);
      }
      HeightBelow(size, index, s, i);
      OneMore(p, q, Height(s, i));
    }
  }

  lemma {:induction false} WalkUp(sha: Sha, size: nat, index: nat, path: seq<Bytes>, leaf: Bytes, below: Walked)
    requires index < size && size > 1
    requires var k := Split(size);
             below == if index < k then Walk(sha, k, index, path, leaf) else Walk(sha, size - k, index - k, path, leaf)
    ensures Walk(sha, size, index, path, leaf) == Up(sha, index < Split(size), below)
  {
  }

  lemma {:induction false} OneMore(p: seq<Bytes>, q: seq<Bytes>, h: nat)
    requires h < |p| && h < |q| && p[..h] == q[..h] && p[h..][0] == q[h..][0]
    ensures p[..h + 1] == q[..h + 1]
  {
    assert p[..h + 1] == p[..h] + [p[h]] && q[..h + 1] == q[..h] + [q[h]];
  }

  /** All that the verifier hashes for one claim. */
  function Claimed(sha: Sha, data: Bytes, index: nat, size: nat, path: seq<Bytes>): seq<Bytes>
    requires index < size
  {
    Hashed(sha, size, index, path, LeafHash(sha, data)) + [LeafBytes(data)]
  }

  /**
   * Whatever the root is, two accepted claims about one index of one tree are the same claim
   * with the same proof, unless two of the byte strings hashed for them collide.
   */
  lemma {:induction false} AcceptedOnce(sha: Sha, root: Bytes, index: nat, size: nat, d: Bytes, p: seq<Bytes>, e: Bytes,
                                        q: seq<Bytes>)
    requires Sized(sha) && index < size
    requires VerifyInclusion(sha, root, d, index, size, p) && VerifyInclusion(sha, root, e, index, size, q)
    requires NoClash(sha, Claimed(sha, d, index, size, p), Claimed(sha, e, index, size, q))
    ensures d == e && p == q
  {
    var a, b := LeafHash(sha, d), LeafHash(sha, e);
    NoClashInit(sha, Hashed(sha, size, index, p, a), LeafBytes(d), Hashed(sha, size, index, q, b), LeafBytes(e));
    WalkReads(sha, size, index, p, a);
    WalkReads(sha, size, index, q, b);
    Lockstep(sha, size, index, p, q, a, b);
    assert LeafBytes(d)[1..] == d && LeafBytes(e)[1..] == e;
    assert p == p[..Height(size, index)] && q == q[..Height(size, index)];
  }

  /**
   * Against the root of a tree the verifier accepts exactly the leaf at the index with exactly
   * the proof built for it, unless its hashing collides with that of the tree.
   */
  lemma {:induction false} InclusionIff(sha: Sha, leaves: seq<Bytes>, index: nat, data: Bytes, path: seq<Bytes>)
    requires Sized(sha) && index < |leaves|
    requires NoClash(sha, Claimed(sha, data, index, |leaves|, path),
                     Claimed(sha, leaves[index], index, |leaves|, InclusionProof(sha, leaves, index)))
    ensures VerifyInclusion(sha, Root(sha, leaves), data, index, |leaves|, path) <==>
            data == leaves[index] && path == InclusionProof(sha, leaves, index)
  {
    BuiltProofIsAccepted(sha, leaves, index);
    if VerifyInclusion(sha, Root(sha, leaves), data, index, |leaves|, path) {
      AcceptedOnce(sha, Root(sha, leaves), index, |leaves|, data, path, leaves[index],
          InclusionProof(sha, leaves, index));
    }
  }

  // ---- Consistency proofs ----------------------------------------------------------------------------------

  function SubProof(sha: Sha, m: nat, leaves: seq<Bytes>, known: bool): seq<Bytes>
    requires 1 <= m <= |leaves|
    decreases |leaves|
  {
    if m == |leaves| then if known then [] else [Root(sha, leaves)]
    else
      var k := Split(|leaves|);
      if m <= k then SubProof(sha, m, leaves[..k], known) + [Root(sha, leaves[k..])]
      else SubProof(sha, m - k, leaves[k..], false) + [Root(sha, leaves[..k])]
  }

  function ConsistencyProof(sha: Sha, leaves: seq<Bytes>, m: nat): seq<Bytes>
    requires m <= |leaves|
  {
    if m == 0 || m == |leaves| then [] else SubProof(sha, m, leaves, true)
  }

  datatype Grown = Short | Both(older: Bytes, newer: Bytes, rest: seq<Bytes>)

  function Replay(sha: Sha, m: nat, n: nat, known: bool, path: seq<Bytes>, first: Bytes): Grown
    requires 1 <= m <= n
    decreases n
  {
    if m == n then
      if known then Both(first, first, path) else if path == [] then Short else Both(path[0], path[0], path[1..])
    else
      var k := Split(n);
      var below :=
        if m <= k then Replay(sha, m, k, known, path, first) else Replay(sha, m - k, n - k, false, path, first);
      Grow(sha, m <= k, below)
  }

  /** One level up: a new right subtree extends the newer tree only, a shared left one extends both. */
  function Grow(sha: Sha, fromLeft: bool, below: Grown): Grown
  {
    if below.Short? || below.rest == [] then Short
    else
      var sibling, rest := below.rest[0], below.rest[1..];
      if fromLeft then Both(below.older, NodeHash(sha, below.newer, sibling), rest)
      else Both(NodeHash(sha, sibling, below.older), NodeHash(sha, sibling, below.newer), rest)
  }

  predicate VerifyConsistency(sha: Sha, first: Bytes, second: Bytes, m: int, n: int, proof: seq<Bytes>)
  {
    if !(0 <= m <= n) then false
    else if m == 0 then proof == []
    else if m == n then proof == [] && first == second
    else
      var g := Replay(sha, m, n, true, proof, first);
      g.Both? && g.rest == [] && g.older == first && g.newer == second
  }

  /** A tree of more than `k` leaves splits where the whole tree does, if the whole tree splits at `k`. */
  lemma {:induction false} PrefixRoot(sha: Sha, leaves: seq<Bytes>, m: nat)
    requires 2 <= |leaves| && Split(|leaves|) < m <= |leaves|
    ensures var k := Split(|leaves|);
            Root(sha, leaves[..m]) == NodeHash(sha, Root(sha, leaves[..k]), Root(sha, leaves[k..][..m - k]))
  {
    var k := Split(|leaves|);
    SplitFromPower(1, |leaves|);
    SplitIs(m, k);
    assert leaves[..m][..k] == leaves[..k] && leaves[..m][k..] == leaves[k..][..m - k];
  }

  /** Replaying the proof built for `leaves` gives `older` and the root, and leaves `more` unread. */
  ghost predicate Replays(sha: Sha, m: nat, leaves: seq<Bytes>, known: bool, first: Bytes, more: seq<Bytes>,
                          older: Bytes)
    requires 1 <= m <= |leaves|
  {
    Replay(sha, m, |leaves|, known, SubProof(sha, m, leaves, known) + more, first)
        == Both(older, Root(sha, leaves), more)
  }

  lemma {:induction false} ReplayBuilt(sha: Sha, m: nat, leaves: seq<Bytes>, known: bool, first: Bytes,
                                       more: seq<Bytes>)
    requires 1 <= m <= |leaves| && (known ==> first == Root(sha, leaves[..m]))
    ensures Replays(sha, m, leaves, known, first, more, Root(sha, leaves[..m]))
    decreases |leaves|
  {
    if m == |leaves| {
      assert leaves[..m] == leaves && [] + more == more;
      assert ([Root(sha, leaves)] + more)[1..] == more;
    } else {
      var k := Split(|leaves|);
      if m <= k {
        assert leaves[..k][..m] == leaves[..m];
        ReplayBuilt(sha, m, leaves[..k], known, first, [Root(sha, leaves[k..])] + more);
        GrownLeft(sha, m, leaves, known, first, more, Root(sha, leaves[..m]));
      } else {
        ReplayBuilt(sha, m - k, leaves[k..], false, first, [Root(sha, leaves[..k])] + more);
        GrownRight(sha, m, leaves, known, first, more, Root(sha, leaves[k..][..m - k]));
        PrefixRoot(sha, leaves, m);
      }
    }
  }

  lemma {:induction false} GrownLeft(sha: Sha, m: nat, leaves: seq<Bytes>, known: bool, first: Bytes, more: seq<Bytes>,
                                     older: Bytes)
    requires |leaves| > 1 && 1 <= m <= Split(|leaves|)
    requires Replays(sha, m, leaves[..Split(|leaves|)], known, first,
                     [Root(sha, leaves[Split(|leaves|)..])] + more, older)
    ensures Replays(sha, m, leaves, known, first, more, older)
  {
    var k := Split(|leaves|);
    SubProofSplits(sha, m, leaves, known, more);
    RootSplits(sha, leaves);
    GrowTo(sha, m, |leaves|, known, SubProof(sha, m, leaves, known) + more, first, older,
           Root(sha, leaves[..k]), Root(sha, leaves[k..]), more);
  }

  lemma {:induction false} GrownRight(sha: Sha, m: nat, leaves: seq<Bytes>, known: bool, first: Bytes, more: seq<Bytes>,
                                      older: Bytes)
    requires |leaves| > 1 && Split(|leaves|) < m < |leaves|
    requires Replays(sha, m - Split(|leaves|), leaves[Split(|leaves|)..], false, first,
                     [Root(sha, leaves[..Split(|leaves|)])] + more, older)
    ensures Replays(sha, m, leaves, known, first, more, NodeHash(sha, Root(sha, leaves[..Split(|leaves|)]), older))
  {
    var k := Split(|leaves|);
    SubProofSplits(sha, m, leaves, known, more);
    RootSplits(sha, leaves);
    GrowTo(sha, m, |leaves|, known, SubProof(sha, m, leaves, known) + more, first, older,
           Root(sha, leaves[..k]), Root(sha, leaves[k..]), more);
  }

  lemma {:induction false} SubProofSplits(sha: Sha, m: nat, leaves: seq<Bytes>, known: bool, more: seq<Bytes>)
    requires 1 <= m < |leaves|
    ensures var k := Split(|leaves|);
            SubProof(sha, m, leaves, known) + more ==
            if m <= k then SubProof(sha, m, leaves[..k], known) + ([Root(sha, leaves[k..])] + more)
            else SubProof(sha, m - k, leaves[k..], false) + ([Root(sha, leaves[..k])] + more)
  {
    var k := Split(|leaves|);
    if m <= k {
      Regroup(SubProof(sha, m, leaves[..k], known), Root(sha, leaves[k..]), more);
    } else {
      Regroup(SubProof(sha, m - k, leaves[k..], false), Root(sha, leaves[..k]), more);
    }
  }

  lemma {:induction false} GrowTo(sha: Sha, m: nat, n: nat, known: bool, path: seq<Bytes>, first: Bytes, older: Bytes,
                                  left: Bytes, right: Bytes, more: seq<Bytes>)
    requires 1 <= m < n
    requires var k := Split(n);
             if m <= k then Replay(sha, m, k, known, path, first) == Both(older, left, [right] + more)
             else Replay(sha, m - k, n - k, false, path, first) == Both(older, right, [left] + more)
    ensures Replay(sha, m, n, known, path, first)
         == Both(if m <= Split(n) then older else NodeHash(sha, left, older), NodeHash(sha, left, right), more)
  {
    Regroup([], left, more);
    Regroup([], right, more);
  }

  /** Every prefix of every tree is accepted with the proof built for it. */
  lemma {:induction false} BuiltConsistencyIsAccepted(sha: Sha, leaves: seq<Bytes>, m: nat)
    requires m <= |leaves|
    ensures VerifyConsistency(sha, Root(sha, leaves[..m]), Root(sha, leaves), m, |leaves|,
              ConsistencyProof(sha, leaves, m))
  {
    if m == |leaves| {
      assert leaves[..m] == leaves;
    } else if m > 0 {
      ReplayBuilt(sha, m, leaves, true, Root(sha, leaves[..m]), []);
      assert SubProof(sha, m, leaves, true) + [] == SubProof(sha, m, leaves, true);
    }
  }

  function Entries(m: nat, n: nat, known: bool): nat
    requires 1 <= m <= n
    decreases n
  {
    if m == n then if known then 0 else 1
    else
      var k := Split(n);
      1 + if m <= k then Entries(m, k, known) else Entries(m - k, n - k, false)
  }

  /** Every entry is a hash by its size. */
  ghost predicate HashSized(path: seq<Bytes>)
  {
    forall i :: 0 <= i < |path| ==> |path[i]| == HASH_SIZE
  }

  /** The hash that a replay starts from, the known root or the first entry, is a hash by its size. */
  predicate BaseSized(m: nat, n: nat, known: bool, path: seq<Bytes>, first: Bytes)
    requires 1 <= m <= n
    decreases n
  {
    if m == n then if known then |first| == HASH_SIZE else path != [] && |path[0]| == HASH_SIZE
    else
      var k := Split(n);
      if m <= k then BaseSized(m, k, known, path, first) else BaseSized(m - k, n - k, false, path, first)
  }

  lemma {:induction false} SizedBase(m: nat, n: nat, known: bool, path: seq<Bytes>, first: Bytes)
    requires 1 <= m <= n && |first| == HASH_SIZE && HashSized(path) && Entries(m, n, known) <= |path|
    ensures BaseSized(m, n, known, path, first)
    decreases n
  {
    if m < n {
      var k := Split(n);
      if m <= k {
        SizedBase(m, k, known, path, first);
      } else {
        SizedBase(m - k, n - k, false, path, first);
      }
    }
  }

  lemma {:induction false} ReplayReads(sha: Sha, m: nat, n: nat, known: bool, path: seq<Bytes>, first: Bytes)
    requires 1 <= m <= n
    ensures Replay(sha, m, n, known, path, first).Both? <==> Entries(m, n, known) <= |path|
    ensures Replay(sha, m, n, known, path, first).Both? ==>
              Replay(sha, m, n, known, path, first).rest == path[Entries(m, n, known)..]
    ensures Sized(sha) && BaseSized(m, n, known, path, first) && Replay(sha, m, n, known, path, first).Both? ==>
              |Replay(sha, m, n, known, path, first).newer| == HASH_SIZE
    decreases n
  {
    if m < n {
      var k := Split(n);
      if m <= k {
        ReplayReads(sha, m, k, known, path, first);
      } else {
        ReplayReads(sha, m - k, n - k, false, path, first);
      }
    }
  }

  /** The byte strings that the replay hashes on the way to the newer root. */
  function Rehashed(sha: Sha, m: nat, n: nat, known: bool, path: seq<Bytes>, first: Bytes): seq<Bytes>
    requires 1 <= m <= n
    decreases n
  {
    if m == n then []
    else
      var k := Split(n);
      var below :=
        if m <= k then Replay(sha, m, k, known, path, first) else Replay(sha, m - k, n - k, false, path, first);
      if below.Short? || below.rest == [] then []
      else
        (if m <= k then Rehashed(sha, m, k, known, path, first) else Rehashed(sha, m - k, n - k, false, path, first))
        + [Above(m <= k, Newer(below))]
  }

  /** The replay as far as the newer tree is concerned. */
  function Newer(g: Grown): Walked
  {
    if g.Short? then RanOut else Got(g.newer, g.rest)
  }

  lemma {:induction false} GrowUp(sha: Sha, m: nat, n: nat, known: bool, path: seq<Bytes>, first: Bytes, below: Grown)
    requires 1 <= m < n
    requires var k := Split(n);
             below
             == if m <= k then Replay(sha, m, k, known, path, first) else Replay(sha, m - k, n - k, false, path, first)
    ensures Replay(sha, m, n, known, path, first) == Grow(sha, m <= Split(n), below)
    ensures Newer(Grow(sha, m <= Split(n), below)) == Up(sha, m <= Split(n), Newer(below))
  {
  }

  /** What two replays that arrive at one newer root have in common. */
  ghost predicate Agree(sha: Sha, m: nat, n: nat, known: bool, p: seq<Bytes>, q: seq<Bytes>, a: Bytes, b: Bytes)
    requires 1 <= m <= n
  {
    var h := Entries(m, n, known);
    && h <= |p| && h <= |q| && p[..h] == q[..h]
    && Replay(sha, m, n, known, p, a).Both? && Replay(sha, m, n, known, q, b).Both?
    && Replay(sha, m, n, known, p, a).older == Replay(sha, m, n, known, q, b).older
  }

  ghost predicate SameNewer(sha: Sha, m: nat, n: nat, known: bool, p: seq<Bytes>, q: seq<Bytes>, a: Bytes, b: Bytes)
    requires 1 <= m <= n
  {
    && Replay(sha, m, n, known, p, a).Both? && Replay(sha, m, n, known, q, b).Both?
    && Replay(sha, m, n, known, p, a).newer == Replay(sha, m, n, known, q, b).newer
    && NoClash(sha, Rehashed(sha, m, n, known, p, a), Rehashed(sha, m, n, known, q, b))
  }

  /** Two replays that arrive at one newer root agree on the older one and read one path. */
  lemma {:induction false} GrownLockstep(sha: Sha, m: nat, n: nat, known: bool, p: seq<Bytes>, q: seq<Bytes>, a: Bytes,
                                         b: Bytes)
    requires 1 <= m <= n && Sized(sha) && BaseSized(m, n, known, p, a) && BaseSized(m, n, known, q, b)
    requires SameNewer(sha, m, n, known, p, q, a, b)
    ensures Agree(sha, m, n, known, p, q, a, b)
    decreases n
  {
    ReplayReads(sha, m, n, known, p, a);
    ReplayReads(sha, m, n, known, q, b);
    if m == n {
      assert !known ==> p[..1] == [p[0]] && q[..1] == [q[0]];
    } else {
      var k := Split(n);
      var m', n', c := if m <= k then m else m - k, if m <= k then k else n - k, m <= k && known;
      SameBelow(sha, m, n, known, p, q, a, b, m', n', c);
      GrownLockstep(sha, m', n', c, p, q, a, b);
      AgreeAbove(sha, m, n, known, p, q, a, b, m', n', c);
    }
  }

  ghost predicate Below(m: nat, n: nat, known: bool, m': nat, n': nat, c: bool)
  {
    1 <= m < n && 1 <= m' <= n' < n
    && var k := Split(n); if m <= k then m' == m && n' == k && c == known else m' == m - k && n' == n - k && !c
  }

  lemma {:induction false} SameBelow(sha: Sha, m: nat, n: nat, known: bool, p: seq<Bytes>, q: seq<Bytes>, a: Bytes,
                                     b: Bytes, m': nat, n': nat, c: bool)
    requires Below(m, n, known, m', n', c)
    requires Sized(sha) && BaseSized(m', n', c, p, a) && BaseSized(m', n', c, q, b)
    requires SameNewer(sha, m, n, known, p, q, a, b)
    ensures SameNewer(sha, m', n', c, p, q, a, b)
    ensures Replay(sha, m', n', c, p, a).rest != [] && Replay(sha, m', n', c, q, b).rest != []
    ensures Replay(sha, m', n', c, p, a).rest[0] == Replay(sha, m', n', c, q, b).rest[0]
  {
    NewerBelow(sha, m, n, known, p, a, m', n', c);
    NewerBelow(sha, m, n, known, q, b, m', n', c);
    UpAgrees(sha, m <= Split(n), Newer(Replay(sha, m', n', c, p, a)), Newer(Replay(sha, m', n', c, q, b)),
             Rehashed(sha, m', n', c, p, a), Rehashed(sha, m', n', c, q, b));
  }

  /** One level of a replay that does not run out. */
  lemma {:induction false} NewerBelow(sha: Sha, m: nat, n: nat, known: bool, path: seq<Bytes>, first: Bytes, m': nat,
                                      n': nat, c: bool)
    requires Below(m, n, known, m', n', c) && Sized(sha) && BaseSized(m', n', c, path, first)
    requires Replay(sha, m, n, known, path, first).Both?
    ensures var below := Replay(sha, m', n', c, path, first);
            && below.Both? && below.rest != [] && |below.newer| == HASH_SIZE
            && Replay(sha, m, n, known, path, first) == Grow(sha, m <= Split(n), below)
            && Replay(sha, m, n, known, path, first).newer == Up(sha, m <= Split(n), Newer(below)).hash
            && Rehashed(sha, m, n, known, path, first)
               == Rehashed(sha, m', n', c, path, first) + [Above(m <= Split(n), Newer(below))]
  {
    var below := Replay(sha, m', n', c, path, first);
    GrowUp(sha, m, n, known, path, first, below);
    RehashedBelow(sha, m, n, known, path, first, m', n', c);
    assert |below.newer| == HASH_SIZE by {
      ReplayReads(sha, m', n', c, path, first);
    }
  }

  lemma {:induction false} RehashedBelow(sha: Sha, m: nat, n: nat, known: bool, path: seq<Bytes>, first: Bytes, m': nat,
                                         n': nat, c: bool)
    requires Below(m, n, known, m', n', c)
    ensures var below := Replay(sha, m', n', c, path, first);
            below.Both? && below.rest != [] ==>
              Rehashed(sha, m, n, known, path, first)
                == Rehashed(sha, m', n', c, path, first) + [Above(m <= Split(n), Newer(below))]
  {
  }

  lemma {:induction false} EntriesBelow(m: nat, n: nat, known: bool, m': nat, n': nat, c: bool)
    requires Below(m, n, known, m', n', c)
    ensures Entries(m, n, known) == 1 + Entries(m', n', c)
  {
  }

  lemma {:induction false} AgreeAbove(sha: Sha, m: nat, n: nat, known: bool, p: seq<Bytes>, q: seq<Bytes>, a: Bytes,
                                      b: Bytes, m': nat, n': nat, c: bool)
    requires Below(m, n, known, m', n', c)
    requires Agree(sha, m', n', c, p, q, a, b)
    requires Replay(sha, m', n', c, p, a).rest != [] && Replay(sha, m', n', c, q, b).rest != []
    requires Replay(sha, m', n', c, p, a).rest[0] == Replay(sha, m', n', c, q, b).rest[0]
    ensures Agree(sha, m, n, known, p, q, a, b)
  {
    GrowUp(sha, m, n, known, p, a, Replay(sha, m', n', c, p, a));
    GrowUp(sha, m, n, known, q, b, Replay(sha, m', n', c, q, b));
    EntriesBelow(m, n, known, m', n', c);
    var h := Entries(m', n', c);
    assert Replay(sha, m', n', c, p, a).rest == p[h..] by {
      ReplayReads(sha, m', n', c, p, a);
    }
    assert Replay(sha, m', n', c, q, b).rest == q[h..] by {
      ReplayReads(sha, m', n', c, q, b);
    }
    OneMore(p, q, h);
  }

  /**
   * Against the root of a tree, the accepted claims about its first `m` leaves whose replay
   * starts from a hash of the right size are exactly one: the root of those leaves with the
   * proof built for them, unless the hashing of the two collides.
   */
  lemma {:induction false} ConsistencyIff(sha: Sha, leaves: seq<Bytes>, m: nat, first: Bytes, proof: seq<Bytes>)
    requires Sized(sha) && 1 <= m <= |leaves|
    requires NoClash(sha, Rehashed(sha, m, |leaves|, true, proof, first),
                     Rehashed(sha, m, |leaves|, true, ConsistencyProof(sha, leaves, m), Root(sha, leaves[..m])))
    ensures first == Root(sha, leaves[..m]) && proof == ConsistencyProof(sha, leaves, m) <==>
            && VerifyConsistency(sha, first, Root(sha, leaves), m, |leaves|, proof)
            && BaseSized(m, |leaves|, true, proof, first)
  {
    BuiltConsistencyIsAccepted(sha, leaves, m);
    BuiltBase(sha, leaves, m);
    var n := |leaves|;
    if m == n {
      assert leaves[..m] == leaves;
    } else if VerifyConsistency(sha, first, Root(sha, leaves), m, n, proof) && BaseSized(m, n, true, proof, first) {
      var older, built := Root(sha, leaves[..m]), ConsistencyProof(sha, leaves, m);
      ReplayReads(sha, m, n, true, proof, first);
      ReplayReads(sha, m, n, true, built, older);
      GrownLockstep(sha, m, n, true, proof, built, first, older);
      assert proof == proof[..Entries(m, n, true)] && built == built[..Entries(m, n, true)];
    }
  }

  lemma {:induction false} BuiltBase(sha: Sha, leaves: seq<Bytes>, m: nat)
    requires Sized(sha) && 1 <= m <= |leaves|
    ensures BaseSized(m, |leaves|, true, ConsistencyProof(sha, leaves, m), Root(sha, leaves[..m]))
  {
    RootSized(sha, leaves[..m]);
    if m < |leaves| {
      BuiltConsistencyIsAccepted(sha, leaves, m);
      SubProofSized(sha, m, leaves, true);
      ReplayReads(sha, m, |leaves|, true, ConsistencyProof(sha, leaves, m), Root(sha, leaves[..m]));
      SizedBase(m, |leaves|, true, ConsistencyProof(sha, leaves, m), Root(sha, leaves[..m]));
    }
  }

  /** A claim about the first 0 leaves is accepted for every two roots, with the empty proof only. */
  lemma {:induction false} EmptyPrefixIff(sha: Sha, first: Bytes, second: Bytes, n: nat, proof: seq<Bytes>)
    ensures VerifyConsistency(sha, first, second, 0, n, proof) <==> proof == []
  {
  }

  /**
   * An entry need not be of hash size: one entry that joins two leaf hashes, followed by an
   * empty one, is accepted, and under the older root so accepted the leaf at 2 is not the later one.
   */
  lemma {:induction false} JoinedEntryIsAccepted(sha: Sha, a: Bytes, b: Bytes, c: Bytes, d: Bytes)
    requires Sized(sha) && c != d
    ensures var leaves := [a, b, c, d];
            var l, h, r := Root(sha, [a, b]), LeafHash(sha, c), LeafHash(sha, d);
            var first := NodeHash(sha, l, h + r);
            && VerifyConsistency(sha, first, Root(sha, leaves), 3, 4, [h + r, [], l])
            && !BaseSized(3, 4, true, [h + r, [], l], first)
            && VerifyInclusion(sha, first, d, 2, 3, [l + h]) && d != leaves[2]
  {
    var leaves := [a, b, c, d];
    var l, h, r := Root(sha, [a, b]), LeafHash(sha, c), LeafHash(sha, d);
    var first, proof := NodeHash(sha, l, h + r), [h + r, [], l];
    SplitIs(4, 2);
    SplitIs(3, 2);
    SplitIs(2, 1);
    JoinedReplay(sha, l, h, r);
    assert leaves[..2] == [a, b] && leaves[2..] == [c, d];
    assert [c, d][..1] == [c] && [c, d][1..] == [d];
    assert Root(sha, [c, d]) == NodeHash(sha, h, r);
    assert NodeBytes(l + h, r) == NodeBytes(l, h + r);
    assert Walk(sha, 3, 2, [l + h], r) == Got(NodeHash(sha, l + h, r), [l + h][1..]);
  }

  lemma {:induction false} JoinedReplay(sha: Sha, l: Bytes, h: Bytes, r: Bytes)
    ensures Replay(sha, 3, 4, true, [h + r, [], l], NodeHash(sha, l, h + r))
         == Both(NodeHash(sha, l, h + r), NodeHash(sha, l, NodeHash(sha, h, r)), [])
  {
    SplitIs(4, 2);
    SplitIs(2, 1);
    var first, path := NodeHash(sha, l, h + r), [h + r, [], l];
    assert path[1..] == [[], l] && [[], l][1..] == [l] && [l][1..] == [];
    assert Replay(sha, 1, 1, false, path, first) == Both(h + r, h + r, [[], l]);
    assert NodeBytes(h + r, []) == NodeBytes(h, r);
    assert Replay(sha, 1, 2, false, path, first) == Both(h + r, NodeHash(sha, h, r), [l]);
  }

  lemma {:induction false} RootSized(sha: Sha, leaves: seq<Bytes>)
    requires Sized(sha)
    ensures |Root(sha, leaves)| == HASH_SIZE
  {
  }

  lemma {:induction false} SubProofSized(sha: Sha, m: nat, leaves: seq<Bytes>, known: bool)
    requires Sized(sha) && 1 <= m <= |leaves|
    ensures HashSized(SubProof(sha, m, leaves, known))
    decreases |leaves|
  {
    if m == |leaves| {
      RootSized(sha, leaves);
    } else {
      var k := Split(|leaves|);
      if m <= k {
        SubProofSized(sha, m, leaves[..k], known);
        RootSized(sha, leaves[k..]);
      } else {
        SubProofSized(sha, m - k, leaves[k..], false);
        RootSized(sha, leaves[..k]);
      }
    }
  }

  /**
   * The log only grows: a leaf accepted under an older root is the leaf at that index of every
   * later tree that the older root is accepted to be a prefix of by a replay that starts from a
   * hash of the right size, unless some hashing collides.
   */
  lemma {:induction false} LeafStays(sha: Sha, leaves: seq<Bytes>, m: nat, first: Bytes, proof: seq<Bytes>, index: nat,
                                     data: Bytes, path: seq<Bytes>)
    requires Sized(sha) && index < m <= |leaves|
    requires VerifyConsistency(sha, first, Root(sha, leaves), m, |leaves|, proof)
    requires BaseSized(m, |leaves|, true, proof, first)
    requires VerifyInclusion(sha, first, data, index, m, path)
    requires NoClash(sha, Rehashed(sha, m, |leaves|, true, proof, first),
                     Rehashed(sha, m, |leaves|, true, ConsistencyProof(sha, leaves, m), Root(sha, leaves[..m])))
    requires NoClash(sha, Claimed(sha, data, index, m, path),
                     Claimed(sha, leaves[index], index, m, InclusionProof(sha, leaves[..m], index)))
    ensures data == leaves[index]
  {
    ConsistencyIff(sha, leaves, m, first, proof);
    assert leaves[..m][index] == leaves[index];
    InclusionIff(sha, leaves[..m], index, data, path);
  }

  // ---- Claims with any index and any sizes --------------------------------------------------------------------

  /** The byte strings that are hashed to build a root. */
  function TreeBytes(sha: Sha, leaves: seq<Bytes>): seq<Bytes>
    decreases |leaves|
  {
    if leaves == [] then [[]]
    else if |leaves| == 1 then [LeafBytes(leaves[0])]
    else
      var k := Split(|leaves|);
      TreeBytes(sha, leaves[..k]) + TreeBytes(sha, leaves[k..])
      + [NodeBytes(Root(sha, leaves[..k]), Root(sha, leaves[k..]))]
  }

  /** What is hashed last. */
  function TopBytes(sha: Sha, leaves: seq<Bytes>): Bytes
  {
    if leaves == [] then []
    else if |leaves| == 1 then LeafBytes(leaves[0])
    else NodeBytes(Root(sha, leaves[..Split(|leaves|)]), Root(sha, leaves[Split(|leaves|)..]))
  }

  /** The first byte tells leaves from nodes. */
  lemma {:induction false} TopStarts(sha: Sha, leaves: seq<Bytes>)
    ensures var top := TopBytes(sha, leaves);
            if leaves == [] then top == [] else top != [] && top[0] == if |leaves| == 1 then 0 else 1
  {
  }

  lemma {:induction false} RootIsTop(sha: Sha, leaves: seq<Bytes>)
    ensures Root(sha, leaves) == sha(TopBytes(sha, leaves)) && TopBytes(sha, leaves) in TreeBytes(sha, leaves)
  {
  }

  lemma {:induction false} NoClashBelow(sha: Sha, xs: seq<Bytes>, x: Bytes, leaves: seq<Bytes>)
    requires NoClash(sha, xs + [x], TreeBytes(sha, leaves))
    ensures NoClash(sha, xs, TreeBytes(sha, leaves))
    ensures sha(x) == Root(sha, leaves) ==> x == TopBytes(sha, leaves)
    ensures |leaves| > 1 ==> NoClash(sha, xs, TreeBytes(sha, leaves[..Split(|leaves|)]))
    ensures |leaves| > 1 ==> NoClash(sha, xs, TreeBytes(sha, leaves[Split(|leaves|)..]))
  {
    RootIsTop(sha, leaves);
    assert x in xs + [x];
    assert forall z :: z in xs ==> z in xs + [x];
  }

  /** The half of a tree on one side. */
  function Half(leaves: seq<Bytes>, left: bool): (half: seq<Bytes>)
    requires |leaves| > 1
    ensures 0 < |half| < |leaves|
  {
    if left then leaves[..Split(|leaves|)] else leaves[Split(|leaves|)..]
  }

  /** A node that is hashed to the root of a tree has the roots of the two halves below it. */
  lemma {:induction false} NodeOfTree(sha: Sha, fromLeft: bool, w: Walked, xs: seq<Bytes>, leaves: seq<Bytes>)
    requires Sized(sha) && w.Got? && w.rest != [] && |w.hash| == HASH_SIZE
    requires Up(sha, fromLeft, w).hash == Root(sha, leaves)
    requires NoClash(sha, xs + [Above(fromLeft, w)], TreeBytes(sha, leaves))
    ensures |leaves| > 1
    ensures w.hash == Root(sha, Half(leaves, fromLeft)) && w.rest[0] == Root(sha, Half(leaves, !fromLeft))
    ensures NoClash(sha, xs, TreeBytes(sha, Half(leaves, fromLeft)))
  {
    NoClashBelow(sha, xs, Above(fromLeft, w), leaves);
    var x := Above(fromLeft, w);
    TopStarts(sha, leaves);
    assert x == TopBytes(sha, leaves) && x[0] == 1;
    var left, right := Root(sha, Half(leaves, true)), Root(sha, Half(leaves, false));
    RootSized(sha, Half(leaves, true));
    RootSized(sha, Half(leaves, false));
    if fromLeft {
      SameNode(w.hash, w.rest[0], left, right);
    } else {
      SameNode(w.rest[0], w.hash, left, right);
    }
  }

  lemma {:induction false} WalkFromLeaf(sha: Sha, size: nat, index: nat, path: seq<Bytes>, data: Bytes,
                                        leaves: seq<Bytes>)
    requires Sized(sha) && index < size
    requires Walk(sha, size, index, path, LeafHash(sha, data)).Got?
    requires Walk(sha, size, index, path, LeafHash(sha, data)).hash == Root(sha, leaves)
    requires NoClash(sha, [LeafBytes(data)] + Hashed(sha, size, index, path, LeafHash(sha, data)),
                     TreeBytes(sha, leaves))
    ensures data in leaves
    decreases size
  {
    var leaf := LeafHash(sha, data);
    if size == 1 {
      assert [LeafBytes(data)] + [] == [] + [LeafBytes(data)];
      NoClashBelow(sha, [], LeafBytes(data), leaves);
      TopStarts(sha, leaves);
      assert LeafBytes(data)[0] == 0 && LeafBytes(data)[1..] == data;
      assert LeafBytes(leaves[0])[1..] == leaves[0];
    } else {
      var k := Split(size);
      var s, i := if index < k then k else size - k, if index < k then index else index - k;
      var below := Walk(sha, s, i, path, leaf);
      WalkUp(sha, size, index, path, leaf, below);
      WalkReads(sha, s, i, path, leaf);
      var hashed := Hashed(sha, s, i, path, leaf);
      assert [LeafBytes(data)] + (hashed + [Above(index < k, below)])
          == [LeafBytes(data)] + hashed + [Above(index < k, below)];
      NodeOfTree(sha, index < k, below, [LeafBytes(data)] + hashed, leaves);
      WalkFromLeaf(sha, s, i, path, data, Half(leaves, index < k));
    }
  }

  /**
   * Whatever index, size and path are claimed, only leaves of the tree are accepted against its
   * root, unless the claim's hashing collides with that of the tree.
   */
  lemma {:induction false} OnlyLeavesAreIncluded(sha: Sha, leaves: seq<Bytes>, data: Bytes, index: nat, size: nat,
                                                 path: seq<Bytes>)
    requires Sized(sha) && index < size
    requires VerifyInclusion(sha, Root(sha, leaves), data, index, size, path)
    requires NoClash(sha, Claimed(sha, data, index, size, path), TreeBytes(sha, leaves))
    ensures data in leaves
  {
    var hashed := Hashed(sha, size, index, path, LeafHash(sha, data));
    assert forall x :: x in [LeafBytes(data)] + hashed ==> x in hashed + [LeafBytes(data)];
    WalkFromLeaf(sha, size, index, path, data, leaves);
  }

  ghost predicate PrefixRootOf(sha: Sha, hash: Bytes, leaves: seq<Bytes>)
  {
    exists j: nat :: (0 < j || leaves == []) && j <= |leaves| && hash == Root(sha, leaves[..j])
  }

  lemma {:induction false} IsPrefixRoot(sha: Sha, hash: Bytes, leaves: seq<Bytes>, j: nat)
    requires 0 < j <= |leaves| && hash == Root(sha, leaves[..j])
    ensures PrefixRootOf(sha, hash, leaves)
  {
  }

  lemma {:induction false} PrefixOfHalf(sha: Sha, hash: Bytes, leaves: seq<Bytes>, left: bool)
    requires |leaves| > 1 && PrefixRootOf(sha, hash, Half(leaves, left))
    ensures PrefixRootOf(sha, if left then hash else NodeHash(sha, Root(sha, Half(leaves, true)), hash), leaves)
  {
    var half, k := Half(leaves, left), Split(|leaves|);
    var j: nat :| 0 < j <= |half| && hash == Root(sha, half[..j]);
    if left {
      assert half[..j] == leaves[..j];
      IsPrefixRoot(sha, hash, leaves, j);
    } else {
      PrefixRoot(sha, leaves, k + j);
      IsPrefixRoot(sha, NodeHash(sha, Root(sha, Half(leaves, true)), hash), leaves, k + j);
    }
  }

  lemma {:induction false} ReplayOfPrefix(sha: Sha, m: nat, n: nat, known: bool, path: seq<Bytes>, first: Bytes,
                                          leaves: seq<Bytes>)
    requires 1 <= m <= n && Sized(sha) && BaseSized(m, n, known, path, first)
    requires Replay(sha, m, n, known, path, first).Both?
    requires Replay(sha, m, n, known, path, first).newer == Root(sha, leaves)
    requires NoClash(sha, Rehashed(sha, m, n, known, path, first), TreeBytes(sha, leaves))
    ensures PrefixRootOf(sha, Replay(sha, m, n, known, path, first).older, leaves)
    decreases n
  {
    if m == n {
      assert leaves[..|leaves|] == leaves;
    } else {
      var k := Split(n);
      var m', n', c := if m <= k then m else m - k, if m <= k then k else n - k, m <= k && known;
      NewerBelow(sha, m, n, known, path, first, m', n', c);
      var below := Replay(sha, m', n', c, path, first);
      NodeOfTree(sha, m <= k, Newer(below), Rehashed(sha, m', n', c, path, first), leaves);
      ReplayOfPrefix(sha, m', n', c, path, first, Half(leaves, m <= k));
      PrefixOfHalf(sha, below.older, leaves, m <= k);
    }
  }

  /**
   * Whatever sizes are claimed, only roots of prefixes are accepted against the root of a tree
   * by a replay that starts from a hash of the right size, unless the hashing collides.
   */
  lemma {:induction false} OnlyPrefixesAreConsistent(sha: Sha, leaves: seq<Bytes>, first: Bytes, m: nat, n: nat,
                                                     proof: seq<Bytes>)
    requires Sized(sha) && 1 <= m <= n && BaseSized(m, n, true, proof, first)
    requires VerifyConsistency(sha, first, Root(sha, leaves), m, n, proof)
    requires NoClash(sha, Rehashed(sha, m, n, true, proof, first), TreeBytes(sha, leaves))
    ensures PrefixRootOf(sha, first, leaves)
  {
    if m == n {
      assert leaves[..|leaves|] == leaves;
    } else {
      ReplayOfPrefix(sha, m, n, true, proof, first, leaves);
    }
  }
}
