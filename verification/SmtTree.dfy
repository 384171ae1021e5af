/**
  The canonical sparse Merkle tree: the root hash as a function of the set of leaves alone, and the
  compressed proofs read off it, which the verifier's fold accepts.
 */
module SmtTree {
  import opened Basics
  import opened Smt

  type Leaves = map<Path, Digest>

  /** The hash of the subtree under prefix `q` in a tree of height `n`. */
  function Canon(h: Hash, m: Leaves, q: Path, n: nat): Digest
    requires |q| <= n
    decreases n - |q|
  {
    if |q| == n then (if q in m then m[q] else Empty(h))
    else Join(h, Canon(h, m, q + [false], n), Canon(h, m, q + [true], n))
  }

  /** No leaf or interior string, all of them 65 bytes, hashes to the sentinel. */
  ghost predicate SentinelIsUnique(h: Hash) {
    forall x: seq<Byte> {:trigger h(x)} | |x| == 65 :: h(x) != Empty(h)
  }

  /** Leaves sit at depth `n` and none of them is the sentinel. */
  ghost predicate Fits(h: Hash, m: Leaves, n: nat) {
    forall k | k in m :: |k| == n && m[k] != Empty(h)
  }

  // ----- which prefixes carry keys

  ghost predicate Occupied(ks: set<Path>, q: Path) {
    exists k :: k in ks && q <= k
  }

  ghost predicate Shared(ks: set<Path>, q: Path) {
    exists k, k' :: k in ks && k' in ks && k != k' && q <= k && q <= k'
  }

  /** `k` is the only key under `q`. */
  ghost predicate Alone(ks: set<Path>, q: Path, k: Path) {
    k in ks && q <= k && forall k' | k' in ks && q <= k' :: k' == k
  }

  lemma OccupiedIsAloneOrShared(ks: set<Path>, q: Path)
    requires Occupied(ks, q)
    ensures Shared(ks, q) || exists k :: Alone(ks, q, k)
  {
    var k :| k in ks && q <= k;
    if !Shared(ks, q) { assert Alone(ks, q, k); }
  }

  /** The position beside `path` at depth `d + 1`. */
  function Sib(path: Path, d: nat): (s: Path)
    requires d < |path|
    ensures |s| == d + 1
  {
    path[..d] + [!path[d]]
  }

  lemma SidesSplit(path: Path, d: nat, k: Path)
    requires d < |path| && path[..d] <= k && d < |k|
    ensures path[..d + 1] <= k <==> k[d] == path[d]
    ensures Sib(path, d) <= k <==> k[d] != path[d]
  {
    assert path[..d + 1] == path[..d] + [path[d]];
  }

  lemma PrefixOfPrefix(path: Path, d: nat, e: nat)
    requires d <= e <= |path|
    ensures path[..d] <= path[..e] && path[..e][..d] == path[..d]
  {
  }

  // ----- the canonical hash

  lemma {:induction false} CanonEmpty(h: Hash, m: Leaves, q: Path, n: nat)
    requires |q| <= n && !Occupied(m.Keys, q)
    ensures Canon(h, m, q, n) == Empty(h)
    decreases n - |q|
  {
    if |q| == n {
      assert q in m ==> q in m.Keys && q <= q;
    } else {
      CanonEmpty(h, m, q + [false], n);
      CanonEmpty(h, m, q + [true], n);
    }
  }

  lemma {:induction false} CanonOccupied(h: Hash, m: Leaves, q: Path, n: nat)
    requires |q| <= n && SentinelIsUnique(h) && Fits(h, m, n) && Occupied(m.Keys, q)
    ensures Canon(h, m, q, n) != Empty(h)
    decreases n - |q|
  {
    var k :| k in m.Keys && q <= k;
    if |q| == n {
      assert k == q;
    } else {
      if k[|q|] {
        assert q + [true] <= k;
        CanonOccupied(h, m, q + [true], n);
      } else {
        assert q + [false] <= k;
        CanonOccupied(h, m, q + [false], n);
      }
      assert NodeBytes(Canon(h, m, q + [false], n), Canon(h, m, q + [true], n)) != [];
    }
  }

  lemma {:induction false} CanonLocal(h: Hash, m: Leaves, m': Leaves, q: Path, n: nat)
    requires |q| <= n
    requires forall k | q <= k :: (k in m <==> k in m') && (k in m ==> m[k] == m'[k])
    ensures Canon(h, m, q, n) == Canon(h, m', q, n)
    decreases n - |q|
  {
    if |q| < n {
      CanonLocal(h, m, m', q + [false], n);
      CanonLocal(h, m, m', q + [true], n);
    }
  }

  lemma CanonParent(h: Hash, m: Leaves, path: Path, d: nat, n: nat)
    requires d < |path| <= n
    ensures Canon(h, m, path[..d], n) == Parent(h, path[d], Canon(h, m, path[..d + 1], n), Canon(h, m, Sib(path, d), n))
  {
    assert path[..d + 1] == path[..d] + [path[d]];
  }

  /** The register loop over a region with a single key: only empty siblings on the way up. */
  function FoldTail(h: Hash, hash: Digest, path: Path, from: nat, to: nat): Digest
    requires to <= from <= |path|
    decreases from
  {
    if from == to then hash
    else FoldTail(h, h(ParentBytes(path[from - 1], hash, Empty(h))), path, from - 1, to)
  }

  lemma FoldTailStep(h: Hash, hash: Digest, path: Path, from: nat, to: nat)
    requires to < from <= |path|
    ensures FoldTail(h, hash, path, from, to)
         == FoldTail(h, h(ParentBytes(path[from - 1], hash, Empty(h))), path, from - 1, to)
  {
  }

  lemma AloneHasEmptySibling(ks: set<Path>, k: Path, d: nat, e: nat)
    requires d <= e < |k| && Alone(ks, k[..d], k)
    ensures Alone(ks, k[..e], k) && !Occupied(ks, Sib(k, e))
  {
    PrefixOfPrefix(k, d, e);
    if Occupied(ks, Sib(k, e)) {
      var k' :| k' in ks && Sib(k, e) <= k';
      assert k[..e] <= k';
      assert k[..d] <= k';
      SidesSplit(k, e, k');
    }
    forall k' | k' in ks && k[..e] <= k' ensures k' == k { assert k[..d] <= k'; }
  }

  lemma {:induction false} CanonUnary(h: Hash, m: Leaves, k: Path, from: nat, to: nat, n: nat)
    requires SentinelIsUnique(h) && Fits(h, m, n) && to <= from <= n && k in m && Alone(m.Keys, k[..to], k)
    ensures Canon(h, m, k[..to], n) == FoldTail(h, Canon(h, m, k[..from], n), k, from, to)
    decreases from
  {
    if from > to {
      CanonUnary(h, m, k, from - 1, to, n);
      CanonStemStep(h, m, k, from, to, n);
      FoldTailStep(h, Canon(h, m, k[..from], n), k, from, to);
    }
  }

  lemma CanonStemStep(h: Hash, m: Leaves, k: Path, from: nat, to: nat, n: nat)
    requires SentinelIsUnique(h) && Fits(h, m, n) && to < from <= n && k in m && Alone(m.Keys, k[..to], k)
    ensures Canon(h, m, k[..from - 1], n) == h(ParentBytes(k[from - 1], Canon(h, m, k[..from], n), Empty(h)))
  {
    AloneHasEmptySibling(m.Keys, k, to, from - 1);
    CanonUnaryStep(h, m, k, from - 1, n);
  }

  lemma CanonUnaryStep(h: Hash, m: Leaves, k: Path, d: nat, n: nat)
    requires SentinelIsUnique(h) && Fits(h, m, n) && d < n && k in m && !Occupied(m.Keys, Sib(k, d))
    ensures Canon(h, m, k[..d], n) == h(ParentBytes(k[d], Canon(h, m, k[..d + 1], n), Empty(h)))
  {
    CanonEmpty(h, m, Sib(k, d), n);
    assert k in m.Keys && k[..d + 1] <= k;
    CanonOccupied(h, m, k[..d + 1], n);
    CanonParent(h, m, k, d, n);
  }

  // ----- proofs read off the tree

  /** Bit `d` tells whether the sibling at parent depth `d` is non-empty. */
  function Bitmap(h: Hash, m: Leaves, path: Path, n: nat): seq<bool>
    requires |path| == n
  {
    seq(n, d requires 0 <= d < n => Canon(h, m, Sib(path, d), n) != Empty(h))
  }

  /** The non-empty siblings at parent depths `depth - 1` down to 0. */
  function Siblings(h: Hash, m: Leaves, path: Path, depth: nat, n: nat): seq<Digest>
    requires depth <= |path| == n
    decreases depth
  {
    if depth == 0 then []
    else
      var s := Canon(h, m, Sib(path, depth - 1), n);
      (if s == Empty(h) then [] else [s]) + Siblings(h, m, path, depth - 1, n)
  }

  lemma {:induction false} FoldReachesRoot(h: Hash, m: Leaves, path: Path, depth: nat, n: nat)
    requires depth <= |path| == n
    ensures FoldFrom(h, path, Bitmap(h, m, path, n), Siblings(h, m, path, depth, n), Canon(h, m, path[..depth], n),
        depth)
         == Some(Canon(h, m, [], n))
    decreases depth
  {
    if depth > 0 {
      CanonParent(h, m, path, depth - 1, n);
      FoldReachesRoot(h, m, path, depth - 1, n);
      var s := Canon(h, m, Sib(path, depth - 1), n);
      if s == Empty(h) {
        assert Siblings(h, m, path, depth, n) == Siblings(h, m, path, depth - 1, n);
      } else {
        assert Siblings(h, m, path, depth, n)[1..] == Siblings(h, m, path, depth - 1, n);
      }
    }
  }

  /** Every slot has a proof of what it holds: its leaf, or nothing. */
  lemma ProofsAreComplete(h: Hash, m: Leaves, path: Path, n: nat)
    requires |path| == n
    ensures FoldFrom(h, path, Bitmap(h, m, path, n), Siblings(h, m, path, n, n),
                     if path in m then m[path] else Empty(h), n) == Some(Canon(h, m, [], n))
  {
    assert path[..n] == path;
    FoldReachesRoot(h, m, path, n, n);
  }
}
