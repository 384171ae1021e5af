/**
  The account sparse Merkle tree: hashing with domain tags, the canonical tree over a set of leaves, the
  compressed proofs of inclusion and exclusion and the fold that checks them.  The hash is a parameter;
  soundness is stated for any function that does not collide on the strings the proofs at hand hash.
 */
module Smt {
  import opened Basics

  type Digest = d: seq<Byte> | |d| == 32 witness seq(32, _ => 0)
  type Hash = seq<Byte> -> Digest
  type Path = seq<bool>

  const LEAF_TAG: Byte := 0
  const NODE_TAG: Byte := 1

  // ----- hashing

  function LeafBytes(key: Digest, value: Digest): seq<Byte> {
    [LEAF_TAG] + key + value
  }

  function NodeBytes(left: Digest, right: Digest): seq<Byte> {
    [NODE_TAG] + left + right
  }

  function Empty(h: Hash): Digest {
    h([])
  }

  function LeafHash(h: Hash, key: Digest, value: Digest): Digest {
    h(LeafBytes(key, value))
  }

  /** An interior node: two empty children collapse to the empty sentinel. */
  function Join(h: Hash, left: Digest, right: Digest): Digest {
    if left == Empty(h) && right == Empty(h) then Empty(h) else h(NodeBytes(left, right))
  }

  /** The children of a node, in order, from the child on the path and its sibling. */
  function Parent(h: Hash, right: bool, current: Digest, sibling: Digest): Digest {
    if right then Join(h, sibling, current) else Join(h, current, sibling)
  }

  function ParentBytes(right: bool, current: Digest, sibling: Digest): seq<Byte> {
    if right then NodeBytes(sibling, current) else NodeBytes(current, sibling)
  }

  lemma NodeBytesInjective(l: Digest, r: Digest, l': Digest, r': Digest)
    requires NodeBytes(l, r) == NodeBytes(l', r')
    ensures l == l' && r == r'
  {
    assert l == NodeBytes(l, r)[1..33] == NodeBytes(l', r')[1..33] == l';
    assert r == NodeBytes(l, r)[33..] == NodeBytes(l', r')[33..] == r';
  }

  lemma LeafBytesInjective(k: Digest, v: Digest, k': Digest, v': Digest)
    requires LeafBytes(k, v) == LeafBytes(k', v')
    ensures k == k' && v == v'
  {
    assert k == LeafBytes(k, v)[1..33] == LeafBytes(k', v')[1..33] == k';
    assert v == LeafBytes(k, v)[33..] == LeafBytes(k', v')[33..] == v';
  }

  // ----- paths: the bits of a digest, most significant first

  function Power2(e: nat): nat {
    if e == 0 then 1 else 2 * Power2(e - 1)
  }

  function BitOf(b: Byte, i: nat): bool
    requires i < 8
  {
    Power2Positive(7 - i);
    (b / Power2(7 - i)) % 2 == 1
  }

  lemma Power2Positive(e: nat)
    ensures Power2(e) > 0
  {
  }

  function Bits(d: Digest): (p: Path)
    ensures |p| == 256
  {
    seq(256, i requires 0 <= i < 256 => BitOf(d[i / 8], i % 8))
  }

  function AccountPath(h: Hash, account: Digest): Path {
    Bits(h(account))
  }

  // ----- folding a compressed proof

  /** Bitmap and siblings still to be used at `depth`: the siblings named by the bitmap, deepest first. */
  function FoldFrom(h: Hash, path: Path, present: seq<bool>, siblings: seq<Digest>, current: Digest,
                    depth: nat): Option<Digest>
    requires |path| == |present| && depth <= |path|
    decreases depth
  {
    if depth == 0 then (if siblings == [] then Some(current) else None)
    else if !present[depth - 1] then
      FoldFrom(h, path, present, siblings, Parent(h, path[depth - 1], current, Empty(h)), depth - 1)
    else if siblings == [] then None
    else FoldFrom(h, path, present, siblings[1..], Parent(h, path[depth - 1], current, siblings[0]), depth - 1)
  }

  // ----- soundness

  ghost predicate NoCollision(h: Hash, xs: set<seq<Byte>>) {
    forall x, y {:trigger h(x), h(y)} | x in xs && y in xs && h(x) == h(y) :: x == y
  }

  /** The strings a fold hashes from `depth` up, and the empty string behind the sentinel. */
  ghost function Hashed(h: Hash, path: Path, present: seq<bool>, siblings: seq<Digest>, current: Digest,
                        depth: nat): set<seq<Byte>>
    requires |path| == |present| && depth <= |path|
    decreases depth
  {
    if depth == 0 || (present[depth - 1] && siblings == []) then {[]}
    else
      var sibling, rest := if present[depth - 1] then siblings[0] else Empty(h),
          if present[depth - 1] then siblings[1..] else siblings;
      {ParentBytes(path[depth - 1], current, sibling)}
      + Hashed(h, path, present, rest, Parent(h, path[depth - 1], current, sibling), depth - 1)
  }

  lemma ParentDistinguishes(h: Hash, right: bool, a: Digest, sa: Digest, b: Digest, sb: Digest)
    requires a != b && Parent(h, right, a, sa) == Parent(h, right, b, sb)
    ensures !NoCollision(h, {[], ParentBytes(right, a, sa), ParentBytes(right, b, sb)})
  {
    var x, y := ParentBytes(right, a, sa), ParentBytes(right, b, sb);
    if x == y {
      if right { NodeBytesInjective(sa, a, sb, b); } else { NodeBytesInjective(a, sa, b, sb); }
    }
    assert x != [] && y != [];
  }

  /** Two folds along one path that meet at the root started from the same value. */
  lemma {:induction false} FoldsAgree(h: Hash, path: Path, depth: nat,
                                      presentA: seq<bool>, siblingsA: seq<Digest>, a: Digest,
                                      presentB: seq<bool>, siblingsB: seq<Digest>, b: Digest)
    requires |path| == |presentA| == |presentB| && depth <= |path|
    requires FoldFrom(h, path, presentA, siblingsA, a, depth).Some?
    requires FoldFrom(h, path, presentA, siblingsA, a, depth) == FoldFrom(h, path, presentB, siblingsB, b, depth)
    requires NoCollision(h,
        Hashed(h, path, presentA, siblingsA, a, depth) + Hashed(h, path, presentB, siblingsB, b, depth))
    ensures a == b
    decreases depth
  {
    if depth > 0 {
      var d := depth - 1;
      var sa, restA := if presentA[d] then siblingsA[0] else Empty(h),
          if presentA[d] then siblingsA[1..] else siblingsA;
      var sb, restB := if presentB[d] then siblingsB[0] else Empty(h),
          if presentB[d] then siblingsB[1..] else siblingsB;
      FoldsAgree(h, path, d, presentA, restA, Parent(h, path[d], a, sa), presentB, restB, Parent(h, path[d], b, sb));
      if a != b {
        ParentDistinguishes(h, path[d], a, sa, b, sb);
        EmptyStringHashed(h, path, presentA, restA, Parent(h, path[d], a, sa), d);
        assert false;
      }
    }
  }

  lemma {:induction false} EmptyStringHashed(h: Hash, path: Path, present: seq<bool>, siblings: seq<Digest>,
                                             current: Digest, depth: nat)
    requires |path| == |present| && depth <= |path|
    ensures [] in Hashed(h, path, present, siblings, current, depth)
    decreases depth
  {
    if depth > 0 && (present[depth - 1] ==> siblings != []) {
      var sibling, rest := if present[depth - 1] then siblings[0] else Empty(h),
          if present[depth - 1] then siblings[1..] else siblings;
      EmptyStringHashed(h, path, present, rest, Parent(h, path[depth - 1], current, sibling), depth - 1);
    }
  }

  /** Somewhere above `depth` the fold meets two empty children. */
  ghost predicate Collapses(h: Hash, path: Path, present: seq<bool>, siblings: seq<Digest>, current: Digest, depth: nat)
    requires |path| == |present| && depth <= |path|
    decreases depth
  {
    depth > 0 && (present[depth - 1] ==> siblings != []) &&
    var sibling, rest := if present[depth - 1] then siblings[0] else Empty(h),
        if present[depth - 1] then siblings[1..] else siblings;
    || (current == Empty(h) && sibling == Empty(h))
    || Collapses(h, path, present, rest, Parent(h, path[depth - 1], current, sibling), depth - 1)
  }

  lemma {:induction false} NoCollapseFromNonEmpty(h: Hash, path: Path, present: seq<bool>, siblings: seq<Digest>,
                                                  current: Digest, depth: nat)
    requires |path| == |present| && depth <= |path| && current != Empty(h)
    requires NoCollision(h, Hashed(h, path, present, siblings, current, depth))
    ensures !Collapses(h, path, present, siblings, current, depth)
    decreases depth
  {
    if depth > 0 && (present[depth - 1] ==> siblings != []) {
      var sibling, rest := if present[depth - 1] then siblings[0] else Empty(h),
          if present[depth - 1] then siblings[1..] else siblings;
      var bytes := ParentBytes(path[depth - 1], current, sibling);
      EmptyStringHashed(h, path, present, rest, Parent(h, path[depth - 1], current, sibling), depth - 1);
      assert bytes in Hashed(h, path, present, siblings, current, depth) && bytes != [];
      NoCollapseFromNonEmpty(h, path, present, rest, Parent(h, path[depth - 1], current, sibling), depth - 1);
    }
  }

  // ----- account proofs

  datatype Proof = Proof(account: Digest, present: seq<bool>, siblings: seq<Digest>)

  predicate Included(h: Hash, p: Proof, state: Digest, root: Digest)
    requires |p.present| == 256
  {
    FoldFrom(h, AccountPath(h, p.account), p.present, p.siblings, LeafHash(h, p.account, state), 256) == Some(root)
  }

  predicate Excluded(h: Hash, p: Proof, root: Digest)
    requires |p.present| == 256
  {
    FoldFrom(h, AccountPath(h, p.account), p.present, p.siblings, Empty(h), 256) == Some(root)
  }

  /** The strings hashed when `p` is checked for `state`. */
  ghost function InclusionBytes(h: Hash, p: Proof, state: Digest): set<seq<Byte>>
    requires |p.present| == 256
  {
    {LeafBytes(p.account, state)}
    + Hashed(h, AccountPath(h, p.account), p.present, p.siblings, LeafHash(h, p.account, state), 256)
  }

  ghost function ExclusionBytes(h: Hash, p: Proof): set<seq<Byte>>
    requires |p.present| == 256
  {
    Hashed(h, AccountPath(h, p.account), p.present, p.siblings, Empty(h), 256)
  }

  /** One account and one root: at most one state can be proved. */
  lemma InclusionIsUnique(h: Hash, p: Proof, q: Proof, state: Digest, state': Digest, root: Digest)
    requires |p.present| == 256 == |q.present| && p.account == q.account
    requires Included(h, p, state, root) && Included(h, q, state', root)
    requires NoCollision(h, InclusionBytes(h, p, state) + InclusionBytes(h, q, state'))
    ensures state == state'
  {
    var leaf, leaf' := LeafHash(h, p.account, state), LeafHash(h, p.account, state');
    FoldsAgree(h, AccountPath(h, p.account), 256, p.present, p.siblings, leaf, q.present, q.siblings, leaf');
    LeafBytesInjective(p.account, state, p.account, state');
  }

  /** One account and one root: membership and absence cannot both be proved. */
  lemma InclusionRefutesExclusion(h: Hash, p: Proof, q: Proof, state: Digest, root: Digest)
    requires |p.present| == 256 == |q.present| && p.account == q.account
    requires Included(h, p, state, root)
    requires NoCollision(h, InclusionBytes(h, p, state) + ExclusionBytes(h, q))
    ensures !Excluded(h, q, root)
  {
    if Excluded(h, q, root) {
      FoldsAgree(h, AccountPath(h, p.account), 256,
                 p.present, p.siblings, LeafHash(h, p.account, state), q.present, q.siblings, Empty(h));
      EmptyStringHashed(h, AccountPath(h, p.account), q.present, q.siblings, Empty(h), 256);
      assert false;
    }
  }

  /** The empty-collapse branch is unreachable when an inclusion proof is checked. */
  lemma InclusionNeverCollapses(h: Hash, p: Proof, state: Digest)
    requires |p.present| == 256 && NoCollision(h, InclusionBytes(h, p, state))
    ensures !Collapses(h, AccountPath(h, p.account), p.present, p.siblings, LeafHash(h, p.account, state), 256)
  {
    EmptyStringHashed(h, AccountPath(h, p.account), p.present, p.siblings, LeafHash(h, p.account, state), 256);
    assert LeafBytes(p.account, state) != [];
    NoCollapseFromNonEmpty(h, AccountPath(h, p.account), p.present, p.siblings, LeafHash(h, p.account, state), 256);
  }
}
