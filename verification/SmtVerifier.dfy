/**
  The verifier's recipe, written out in bytes and levels: which bit of a hashed account steers which level,
  what is hashed on each level, and which of the listed siblings is used there.  The fold of Smt.dfy is
  proved to follow it.
 */
module SmtVerifier {
  import opened Basics
  import opened Smt

  // ----- paths spell out digests

  function Weight(p: Path, x: nat, w: nat): nat
    requires x < |p|
  {
    if p[x] then w else 0
  }

  lemma Quotient(n: nat, m: nat, q: nat, r: nat)
    requires n == q * m + r && r < m
    ensures n / m == q
  {
    var x := n / m;
    assert n == x * m + n % m;
    if x > q {
      Product(x, q + 1, m);
    } else if x < q {
      Product(q, x + 1, m);
    }
  }

  lemma Product(x: nat, y: nat, m: nat)
    requires x >= y
    ensures x * m >= y * m
  {
  }

  lemma HalfQuotient(b: nat, p: nat)
    requires p > 0
    ensures b / p / 2 == b / (2 * p)
  {
    var q := b / p;
    var half, r, rest := q / 2, q % 2, b % p;
    assert b == q * p + rest;
    assert q * p == half * (2 * p) + r * p;
    Product(1, r, p);
    Quotient(b, 2 * p, half, r * p + rest);
  }

  /** What is left of a byte above its last bits. */
  lemma Halved(b: nat, e: nat)
    ensures Power2(e) > 0 && b / Power2(e) / 2 == b / Power2(e + 1)
  {
    Power2Positive(e);
    HalfQuotient(b, Power2(e));
  }

  /** The number the first `i` bits of a byte spell. */
  function Spelled(p: Path, x: nat, i: nat): nat
    requires x + i <= |p|
  {
    if i == 0 then 0 else 2 * Spelled(p, x, i - 1) + Weight(p, x + i - 1, 1)
  }

  lemma PathBit(d: Digest, k: nat, i: nat)
    requires k < 32 && i < 8
    ensures Bits(d)[8 * k + i] == BitOf(d[k], i)
  {
    assert (8 * k + i) / 8 == k && (8 * k + i) % 8 == i;
  }

  lemma {:induction false} SpelledFront(d: Digest, k: nat, i: nat)
    requires k < 32 && i <= 8
    ensures Power2(8 - i) > 0 && Spelled(Bits(d), 8 * k, i) == d[k] / Power2(8 - i)
  {
    Power2Positive(8 - i);
    if i == 0 {
      assert Power2(4) == 16;
      assert Power2(8) == 16 * Power2(4);
    } else {
      SpelledFront(d, k, i - 1);
      PathBit(d, k, i - 1);
      Halved(d[k], 8 - i);
    }
  }

  /** Bit 0 is the most significant bit of byte 0, bit 255 the least significant of byte 31. */
  lemma BitsSpellBytes(d: Digest, k: nat)
    requires k < 32
    ensures var p, x := Bits(d), 8 * k;
      d[k] == Weight(p, x, 128) + Weight(p, x + 1, 64) + Weight(p, x + 2, 32) + Weight(p, x + 3, 16)
              + Weight(p, x + 4, 8) + Weight(p, x + 5, 4) + Weight(p, x + 6, 2) + Weight(p, x + 7, 1)
  {
    SpelledFront(d, k, 8);
    SpelledOut(Bits(d), 8 * k);
  }

  lemma SpelledOut(p: Path, x: nat)
    requires x + 8 <= |p|
    ensures Spelled(p, x, 8)
      == Weight(p, x, 128) + Weight(p, x + 1, 64) + Weight(p, x + 2, 32) + Weight(p, x + 3, 16)
         + Weight(p, x + 4, 8) + Weight(p, x + 5, 4) + Weight(p, x + 6, 2) + Weight(p, x + 7, 1)
  {
    assert Spelled(p, x, 1) == Weight(p, x, 1);
    assert Spelled(p, x, 2) == Weight(p, x, 2) + Weight(p, x + 1, 1);
    assert Spelled(p, x, 4) == 4 * Spelled(p, x, 2) + Weight(p, x + 2, 2) + Weight(p, x + 3, 1);
    assert Spelled(p, x, 6) == 4 * Spelled(p, x, 4) + Weight(p, x + 4, 2) + Weight(p, x + 5, 1);
    assert Spelled(p, x, 8) == 4 * Spelled(p, x, 6) + Weight(p, x + 6, 2) + Weight(p, x + 7, 1);
  }

  lemma BitsInjective(d: Digest, e: Digest)
    requires Bits(d) == Bits(e)
    ensures d == e
  {
    forall k: nat | k < 32 ensures d[k] == e[k] {
      BitsSpellBytes(d, k);
      BitsSpellBytes(e, k);
    }
  }

  // ----- the levels of a proof

  /** How many of the bits from `from` up to `to` are set. */
  function Count(present: seq<bool>, from: nat, to: nat): nat
    requires from <= to <= |present|
  {
    if from == to then 0 else Count(present, from, to - 1) + if present[to - 1] then 1 else 0
  }

  lemma {:induction false} CountWithin(present: seq<bool>, a: nat, b: nat, c: nat)
    requires a <= b <= c <= |present|
    ensures Count(present, a, c) == Count(present, a, b) + Count(present, b, c)
  {
    if b < c { CountWithin(present, a, b, c - 1); }
  }

  /** The sibling at depth `d`: deeper levels use theirs first, and none is listed for an empty subtree. */
  function SiblingAt(h: Hash, present: seq<bool>, siblings: seq<Digest>, d: nat, depth: nat): Digest
    requires d < depth <= |present| && Count(present, 0, depth) == |siblings|
  {
    CountWithin(present, 0, d, depth);
    CountWithin(present, d, d + 1, depth);
    if present[d] then siblings[Count(present, d + 1, depth)] else h([])
  }

  /** A node and its children; the child on the path is the right one when the bit is set. */
  ghost predicate Joins(h: Hash, bit: bool, below: Digest, sibling: Digest, above: Digest) {
    var left: Digest, right: Digest := if bit then sibling else below, if bit then below else sibling;
    above == if left == h([]) && right == h([]) then h([]) else h([1] + left + right)
  }

  /** The values at depths `d` and `d + 1` are a node and its child on the path. */
  ghost predicate Rung(h: Hash, path: Path, present: seq<bool>, siblings: seq<Digest>, vs: seq<Digest>, d: nat)
    requires d + 1 < |vs| <= |path| + 1 && |present| == |path| && Count(present, 0, |vs| - 1) == |siblings|
  {
    Joins(h, path[d], vs[d + 1], SiblingAt(h, present, siblings, d, |vs| - 1), vs[d])
  }

  /** The values on the way from depth `|vs| - 1` up to the root, with every sibling used once. */
  ghost predicate Climb(h: Hash, path: Path, present: seq<bool>, siblings: seq<Digest>, vs: seq<Digest>) {
    && 0 < |vs| <= |path| + 1 && |present| == |path| && Count(present, 0, |vs| - 1) == |siblings|
    && forall d: nat {:trigger Rung(h, path, present, siblings, vs, d)} | d + 1 < |vs| ::
         Rung(h, path, present, siblings, vs, d)
  }

  /** Some climb leads from the leaf to the root. */
  ghost predicate Leads(h: Hash, path: Path, present: seq<bool>, siblings: seq<Digest>, leaf: Digest, root: Digest) {
    exists vs :: Climb(h, path, present, siblings, vs) && |vs| == |path| + 1 && vs[|path|] == leaf && vs[0] == root
  }

  // ----- the fold climbs

  /** One level more at the bottom. */
  lemma ClimbLonger(h: Hash, path: Path, present: seq<bool>, siblings: seq<Digest>, vs: seq<Digest>, leaf: Digest)
    requires 0 < |vs| <= |path| == |present| && (present[|vs| - 1] ==> siblings != [])
    requires Climb(h, path, present, if present[|vs| - 1] then siblings[1..] else siblings, vs)
    requires Joins(h, path[|vs| - 1], leaf, if present[|vs| - 1] then siblings[0] else h([]), vs[|vs| - 1])
    ensures Climb(h, path, present, siblings, vs + [leaf])
  {
    var all, depth := vs + [leaf], |vs|;
    var rest := if present[depth - 1] then siblings[1..] else siblings;
    assert Count(present, 0, depth) == |siblings|;
    forall d: nat {:trigger Rung(h, path, present, siblings, all, d)} | d < depth
      ensures Rung(h, path, present, siblings, all, d)
    {
      if d < depth - 1 {
        assert Rung(h, path, present, rest, vs, d);
        SameSibling(h, present, siblings, rest, d, depth);
      } else {
        assert Count(present, depth, depth) == 0;
      }
    }
  }

  lemma SameSibling(h: Hash, present: seq<bool>, siblings: seq<Digest>, rest: seq<Digest>, d: nat, depth: nat)
    requires d + 1 < depth <= |present| && Count(present, 0, depth) == |siblings|
    requires rest == if present[depth - 1] && siblings != [] then siblings[1..] else siblings
    requires Count(present, 0, depth - 1) == |rest|
    ensures SiblingAt(h, present, siblings, d, depth) == SiblingAt(h, present, rest, d, depth - 1)
  {
    CountWithin(present, 0, d, depth);
    CountWithin(present, d, d + 1, depth);
    CountWithin(present, 0, d, depth - 1);
    CountWithin(present, d, d + 1, depth - 1);
  }

  lemma {:induction false} FoldClimbs(h: Hash, path: Path, present: seq<bool>, siblings: seq<Digest>, leaf: Digest,
        depth: nat) returns (vs: seq<Digest>)
    requires |path| == |present| && depth <= |path| && FoldFrom(h, path, present, siblings, leaf, depth).Some?
    ensures Climb(h, path, present, siblings, vs) && |vs| == depth + 1 && vs[depth] == leaf
    ensures FoldFrom(h, path, present, siblings, leaf, depth) == Some(vs[0])
    decreases depth
  {
    if depth == 0 {
      vs := [leaf];
    } else {
      var named := present[depth - 1];
      var s, rest := if named then siblings[0] else h([]), if named then siblings[1..] else siblings;
      vs := FoldClimbs(h, path, present, rest, Parent(h, path[depth - 1], leaf, s), depth - 1);
      ClimbLonger(h, path, present, siblings, vs, leaf);
      vs := vs + [leaf];
    }
  }

  /** The same climb without its lowest level. */
  lemma ClimbShorter(h: Hash, path: Path, present: seq<bool>, siblings: seq<Digest>, vs: seq<Digest>, rest: seq<Digest>)
    requires Climb(h, path, present, siblings, vs) && |vs| > 1
    requires rest == if present[|vs| - 2] && siblings != [] then siblings[1..] else siblings
    ensures Climb(h, path, present, rest, vs[..|vs| - 1])
  {
    var depth, front := |vs| - 1, vs[..|vs| - 1];
    assert Count(present, 0, depth - 1) == |rest|;
    forall d: nat {:trigger Rung(h, path, present, rest, front, d)} | d + 1 < depth
      ensures Rung(h, path, present, rest, front, d)
    {
      assert Rung(h, path, present, siblings, vs, d);
      SameSibling(h, present, siblings, rest, d, depth);
    }
  }

  lemma LowestLevel(h: Hash, path: Path, present: seq<bool>, siblings: seq<Digest>, vs: seq<Digest>)
    requires Climb(h, path, present, siblings, vs) && |vs| > 1
    ensures var depth := |vs| - 1;
      && (present[depth - 1] ==> siblings != [])
      && vs[depth - 1]
         == Parent(h, path[depth - 1], vs[depth], if present[depth - 1] then siblings[0] else h([]))
  {
    var depth := |vs| - 1;
    assert Count(present, depth, depth) == 0;
    assert Rung(h, path, present, siblings, vs, depth - 1);
  }

  lemma FoldOneLevel(h: Hash, path: Path, present: seq<bool>, siblings: seq<Digest>, leaf: Digest, above: Digest,
        rest: seq<Digest>, depth: nat)
    requires |path| == |present| && 0 < depth <= |path| && (present[depth - 1] ==> siblings != [])
    requires rest == if present[depth - 1] && siblings != [] then siblings[1..] else siblings
    requires above == Parent(h, path[depth - 1], leaf, if present[depth - 1] then siblings[0] else h([]))
    ensures FoldFrom(h, path, present, siblings, leaf, depth) == FoldFrom(h, path, present, rest, above, depth - 1)
  {
  }

  lemma {:induction false} ClimbFolds(h: Hash, path: Path, present: seq<bool>, siblings: seq<Digest>, vs: seq<Digest>)
    requires Climb(h, path, present, siblings, vs)
    ensures FoldFrom(h, path, present, siblings, vs[|vs| - 1], |vs| - 1) == Some(vs[0])
    decreases |vs|
  {
    var depth := |vs| - 1;
    if depth > 0 {
      var rest := if present[depth - 1] && siblings != [] then siblings[1..] else siblings;
      LowestLevel(h, path, present, siblings, vs);
      FoldOneLevel(h, path, present, siblings, vs[depth], vs[depth - 1], rest, depth);
      ClimbShorter(h, path, present, siblings, vs, rest);
      ClimbFolds(h, path, present, rest, vs[..depth]);
    }
  }

  lemma {:induction false} FoldNeedsAll(h: Hash, path: Path, present: seq<bool>, siblings: seq<Digest>, leaf: Digest,
        depth: nat)
    requires |path| == |present| && depth <= |path|
    ensures FoldFrom(h, path, present, siblings, leaf, depth).Some? <==> |siblings| == Count(present, 0, depth)
    decreases depth
  {
    if depth > 0 && (present[depth - 1] ==> siblings != []) {
      var named := present[depth - 1];
      var s, rest := if named then siblings[0] else h([]), if named then siblings[1..] else siblings;
      FoldNeedsAll(h, path, present, rest, Parent(h, path[depth - 1], leaf, s), depth - 1);
    }
  }

  /** The fold succeeds exactly when every sibling has its level, and then ends where the climb does. */
  lemma FoldExactly(h: Hash, path: Path, present: seq<bool>, siblings: seq<Digest>, leaf: Digest)
    requires |path| == |present|
    ensures var r := FoldFrom(h, path, present, siblings, leaf, |path|);
      && (r.Some? <==> |siblings| == Count(present, 0, |path|))
      && forall root :: r == Some(root) <==> Leads(h, path, present, siblings, leaf, root)
  {
    var r := FoldFrom(h, path, present, siblings, leaf, |path|);
    FoldNeedsAll(h, path, present, siblings, leaf, |path|);
    if r.Some? {
      var vs := FoldClimbs(h, path, present, siblings, leaf, |path|);
    }
    forall root | Leads(h, path, present, siblings, leaf, root) ensures r == Some(root) {
      var vs :| Climb(h, path, present, siblings, vs) && |vs| == |path| + 1 && vs[|path|] == leaf && vs[0] == root;
      ClimbFolds(h, path, present, siblings, vs);
    }
  }

  // ----- the strings hashed on the way

  /** The string hashed for the node at depth `d` of a climb. */
  ghost function RungBytes(h: Hash, path: Path, present: seq<bool>, siblings: seq<Digest>, vs: seq<Digest>, d: nat):
    seq<Byte>
    requires Climb(h, path, present, siblings, vs) && d + 1 < |vs|
  {
    var s := SiblingAt(h, present, siblings, d, |vs| - 1);
    if path[d] then [1] + s + vs[d + 1] else [1] + vs[d + 1] + s
  }

  ghost predicate SomeRung(h: Hash, path: Path, present: seq<bool>, siblings: seq<Digest>, vs: seq<Digest>,
        x: seq<Byte>)
    requires Climb(h, path, present, siblings, vs)
  {
    exists d: nat {:trigger RungBytes(h, path, present, siblings, vs, d)} ::
      d + 1 < |vs| && x == RungBytes(h, path, present, siblings, vs, d)
  }

  lemma RungBelow(h: Hash, path: Path, present: seq<bool>, siblings: seq<Digest>, vs: seq<Digest>, rest: seq<Digest>,
        d: nat)
    requires Climb(h, path, present, siblings, vs) && d + 2 < |vs|
    requires rest == if present[|vs| - 2] && siblings != [] then siblings[1..] else siblings
    requires Climb(h, path, present, rest, vs[..|vs| - 1])
    ensures RungBytes(h, path, present, rest, vs[..|vs| - 1], d) == RungBytes(h, path, present, siblings, vs, d)
  {
    SameSibling(h, present, siblings, rest, d, |vs| - 1);
  }

  /** The strings a fold is said to hash: the empty one, and the one of each node on the way. */
  lemma {:induction false} HashedExactly(h: Hash, path: Path, present: seq<bool>, siblings: seq<Digest>,
        vs: seq<Digest>, x: seq<Byte>)
    requires Climb(h, path, present, siblings, vs)
    ensures x in Hashed(h, path, present, siblings, vs[|vs| - 1], |vs| - 1) <==>
      x == [] || SomeRung(h, path, present, siblings, vs, x)
    decreases |vs|
  {
    var depth := |vs| - 1;
    if depth > 0 {
      var rest := if present[depth - 1] && siblings != [] then siblings[1..] else siblings;
      ClimbShorter(h, path, present, siblings, vs, rest);
      HashedExactly(h, path, present, rest, vs[..depth], x);
      LowestLevel(h, path, present, siblings, vs);
      HashedOneLevel(h, path, present, siblings, vs[depth], vs[depth - 1], rest, depth);
      LowestBytes(h, path, present, siblings, vs);
      RungsSplit(h, path, present, siblings, vs, rest, x);
    }
  }

  lemma HashedOneLevel(h: Hash, path: Path, present: seq<bool>, siblings: seq<Digest>, leaf: Digest, above: Digest,
        rest: seq<Digest>, depth: nat)
    requires |path| == |present| && 0 < depth <= |path| && (present[depth - 1] ==> siblings != [])
    requires rest == if present[depth - 1] && siblings != [] then siblings[1..] else siblings
    requires above == Parent(h, path[depth - 1], leaf, if present[depth - 1] then siblings[0] else h([]))
    ensures Hashed(h, path, present, siblings, leaf, depth)
      == {ParentBytes(path[depth - 1], leaf, if present[depth - 1] then siblings[0] else h([]))}
         + Hashed(h, path, present, rest, above, depth - 1)
  {
  }

  lemma LowestBytes(h: Hash, path: Path, present: seq<bool>, siblings: seq<Digest>, vs: seq<Digest>)
    requires Climb(h, path, present, siblings, vs) && |vs| > 1 && (present[|vs| - 2] ==> siblings != [])
    ensures var d := |vs| - 2;
      RungBytes(h, path, present, siblings, vs, d)
      == ParentBytes(path[d], vs[d + 1], if present[d] then siblings[0] else h([]))
  {
    assert Count(present, |vs| - 1, |vs| - 1) == 0;
  }

  lemma RungsSplit(h: Hash, path: Path, present: seq<bool>, siblings: seq<Digest>, vs: seq<Digest>, rest: seq<Digest>,
        x: seq<Byte>)
    requires Climb(h, path, present, siblings, vs) && |vs| > 1
    requires rest == if present[|vs| - 2] && siblings != [] then siblings[1..] else siblings
    requires Climb(h, path, present, rest, vs[..|vs| - 1])
    ensures SomeRung(h, path, present, siblings, vs, x) <==>
      x == RungBytes(h, path, present, siblings, vs, |vs| - 2) || SomeRung(h, path, present, rest, vs[..|vs| - 1], x)
  {
    var front := vs[..|vs| - 1];
    if SomeRung(h, path, present, siblings, vs, x) {
      var d: nat :| d + 1 < |vs| && x == RungBytes(h, path, present, siblings, vs, d);
      if d + 2 < |vs| { RungBelow(h, path, present, siblings, vs, rest, d); }
    }
    if SomeRung(h, path, present, rest, front, x) {
      var d: nat :| d + 1 < |front| && x == RungBytes(h, path, present, rest, front, d);
      RungBelow(h, path, present, siblings, vs, rest, d);
    }
  }

  // ----- the verifier

  /** The verifier's loop: parent depth from the leaf's parent down to 0, every sibling consumed. */
  method Fold(h: Hash, path: Path, leaf: Digest, present: seq<bool>, siblings: seq<Digest>) returns (r: Option<Digest>)
    requires |path| == |present|
    ensures r == FoldFrom(h, path, present, siblings, leaf, |path|)
  {
    var current: Digest, idx, parentDepth := leaf, 0, |path|;
    while parentDepth > 0
      invariant 0 <= parentDepth <= |path| && 0 <= idx <= |siblings|
      invariant FoldFrom(h, path, present, siblings, leaf, |path|)
        == FoldFrom(h, path, present, siblings[idx..], current, parentDepth)
    {
      parentDepth := parentDepth - 1;
      var sibling: Digest := h([]);
      if present[parentDepth] {
        if idx >= |siblings| { return None; }
        sibling := siblings[idx];
        assert siblings[idx..][1..] == siblings[idx + 1..];
        idx := idx + 1;
      }
      var left: Digest, right: Digest := current, sibling;
      if path[parentDepth] {
        left, right := sibling, current;
      }
      current := if left == h([]) && right == h([]) then h([]) else h([NODE_TAG] + left + right);
    }
    r := if idx != |siblings| then None else Some(current);
  }

  method VerifyProof(h: Hash, p: Proof, state: Digest, root: Digest) returns (ok: bool)
    requires |p.present| == 256
    ensures ok <==> Included(h, p, state, root)
    ensures ok <==> Leads(h, Bits(h(p.account)), p.present, p.siblings, h([0] + p.account + state), root)
  {
    var r := Fold(h, AccountPath(h, p.account), LeafHash(h, p.account, state), p.present, p.siblings);
    FoldExactly(h, AccountPath(h, p.account), p.present, p.siblings, LeafHash(h, p.account, state));
    ok := r == Some(root);
  }

  method VerifyExclusionProof(h: Hash, p: Proof, root: Digest) returns (ok: bool)
    requires |p.present| == 256
    ensures ok <==> Excluded(h, p, root)
    ensures ok <==> Leads(h, Bits(h(p.account)), p.present, p.siblings, h([]), root)
  {
    var r := Fold(h, AccountPath(h, p.account), h([]), p.present, p.siblings);
    FoldExactly(h, AccountPath(h, p.account), p.present, p.siblings, h([]));
    ok := r == Some(root);
  }
}
