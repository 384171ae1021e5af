/**
  The Merkle tree over a list of record hashes: layers are combined pairwise and an odd last element is
  promoted unchanged.  `tag` is the prefix of every interior hash: empty in the first recipe, the node tag
  of the tree in the second.
 */
module SealMerkle {
  import opened Basics
  import opened Smt

  function Zero(): Digest {
    seq(32, _ => 0)
  }

  function Preimage(tag: seq<Byte>, left: Digest, right: Digest): seq<Byte> {
    tag + left + right
  }

  lemma PreimageInjective(tag: seq<Byte>, l: Digest, r: Digest, l': Digest, r': Digest)
    requires Preimage(tag, l, r) == Preimage(tag, l', r')
    ensures l == l' && r == r'
  {
    assert l == Preimage(tag, l, r)[|tag|..|tag| + 32] == Preimage(tag, l', r')[|tag|..|tag| + 32] == l';
    assert r == Preimage(tag, l, r)[|tag| + 32..] == Preimage(tag, l', r')[|tag| + 32..] == r';
  }

  function Combine(h: Hash, tag: seq<Byte>, left: Digest, right: Digest): Digest {
    h(Preimage(tag, left, right))
  }

  /** The bytes hashed for two nodes: the tag, the left one, the right one. */
  lemma PreimageLayout(tag: seq<Byte>, left: Digest, right: Digest)
    ensures var x, n := Preimage(tag, left, right), |tag|;
      |x| == n + 64 && x[..n] == tag && x[n..n + 32] == left && x[n + 32..] == right
  {
  }

  /** One layer up. */
  function Above(h: Hash, tag: seq<Byte>, layer: seq<Digest>): (up: seq<Digest>)
    ensures |up| == (|layer| + 1) / 2
  {
    if |layer| < 2 then layer else [Combine(h, tag, layer[0], layer[1])] + Above(h, tag, layer[2..])
  }

  /** The layer walk. */
  function RootOf(h: Hash, tag: seq<Byte>, hashes: seq<Digest>): Digest
    decreases |hashes|
  {
    if hashes == [] then Zero() else if |hashes| == 1 then hashes[0] else RootOf(h, tag, Above(h, tag, hashes))
  }

  // ----- the same tree from the top down

  ghost predicate PowerOfTwo(k: nat) {
    k == 1 || (k > 0 && k % 2 == 0 && PowerOfTwo(k / 2))
  }

  /** The largest power of two below `n`. */
  function Split(n: nat): (k: nat)
    requires 2 <= n
    ensures PowerOfTwo(k) && k < n <= 2 * k
  {
    if n == 2 then 1 else 2 * Split((n + 1) / 2)
  }

  /** A complete tree over the first power of two of the leaves, joined with the tree of the rest. */
  function Balanced(h: Hash, tag: seq<Byte>, hashes: seq<Digest>): Digest
    requires hashes != []
    decreases |hashes|
  {
    if |hashes| == 1 then hashes[0]
    else
      var k := Split(|hashes|);
      Combine(h, tag, Balanced(h, tag, hashes[..k]), Balanced(h, tag, hashes[k..]))
  }

  lemma {:induction false} AboveSplits(h: Hash, tag: seq<Byte>, a: seq<Digest>, b: seq<Digest>)
    requires |a| % 2 == 0
    ensures Above(h, tag, a + b) == Above(h, tag, a) + Above(h, tag, b)
  {
    if a == [] {
      assert a + b == b;
    } else {
      AboveSplits(h, tag, a[2..], b);
      var top := [Combine(h, tag, a[0], a[1])];
      assert (a + b)[2..] == a[2..] + b && (a + b)[0] == a[0] && (a + b)[1] == a[1];
      assert Above(h, tag, a + b) == top + Above(h, tag, a[2..] + b);
      assert top + (Above(h, tag, a[2..]) + Above(h, tag, b)) == (top + Above(h, tag, a[2..])) + Above(h, tag, b);
    }
  }

  lemma {:induction false} AboveKeepsBalanced(h: Hash, tag: seq<Byte>, hashes: seq<Digest>)
    requires 2 <= |hashes|
    ensures Balanced(h, tag, Above(h, tag, hashes)) == Balanced(h, tag, hashes)
    decreases |hashes|
  {
    var k := Split(|hashes|);
    if |hashes| == 2 {
      assert hashes[..1] == [hashes[0]] && hashes[1..] == [hashes[1]];
      assert Above(h, tag, hashes) == [Combine(h, tag, hashes[0], hashes[1])];
    } else {
      var a, b := hashes[..k], hashes[k..];
      var up := Above(h, tag, hashes);
      assert hashes == a + b;
      AboveSplits(h, tag, a, b);
      assert up[..k / 2] == Above(h, tag, a) && up[k / 2..] == Above(h, tag, b);
      AboveKeepsBalanced(h, tag, a);
      if |b| >= 2 { AboveKeepsBalanced(h, tag, b); }
    }
  }

  /** The layer walk builds the left-complete tree. */
  lemma {:induction false} RootIsBalanced(h: Hash, tag: seq<Byte>, hashes: seq<Digest>)
    requires hashes != []
    ensures RootOf(h, tag, hashes) == Balanced(h, tag, hashes)
    decreases |hashes|
  {
    if |hashes| > 1 {
      RootIsBalanced(h, tag, Above(h, tag, hashes));
      AboveKeepsBalanced(h, tag, hashes);
    }
  }

  /** The root of two or more leaves, in bytes: the tag and the roots of the two halves, the left one full. */
  lemma RootBytes(h: Hash, tag: seq<Byte>, hashes: seq<Digest>)
    requires |hashes| >= 2
    ensures exists k: nat {:trigger PowerOfTwo(k)} ::
      && PowerOfTwo(k) && k < |hashes| <= 2 * k
      && RootOf(h, tag, hashes) == h(tag + RootOf(h, tag, hashes[..k]) + RootOf(h, tag, hashes[k..]))
  {
    var k := Split(|hashes|);
    RootIsBalanced(h, tag, hashes);
    RootIsBalanced(h, tag, hashes[..k]);
    RootIsBalanced(h, tag, hashes[k..]);
  }

  // ----- what a root binds

  /** The strings hashed to build the tree. */
  ghost function Interior(h: Hash, tag: seq<Byte>, hashes: seq<Digest>): set<seq<Byte>>
    requires hashes != []
    decreases |hashes|
  {
    if |hashes| == 1 then {}
    else
      var k := Split(|hashes|);
      var a, b := hashes[..k], hashes[k..];
      {Preimage(tag, Balanced(h, tag, a), Balanced(h, tag, b))} + Interior(h, tag, a) + Interior(h, tag, b)
  }

  ghost predicate LooksInterior(tag: seq<Byte>, x: seq<Byte>) {
    tag <= x && |x| == |tag| + 64
  }

  ghost predicate HashOf(h: Hash, raw: set<seq<Byte>>, d: Digest) {
    exists x {:trigger h(x)} :: x in raw && h(x) == d
  }

  /** Every leaf is the hash of a raw string. */
  ghost predicate RawLeaves(h: Hash, hashes: seq<Digest>, raw: set<seq<Byte>>) {
    forall i {:trigger hashes[i]} | 0 <= i < |hashes| :: HashOf(h, raw, hashes[i])
  }

  ghost predicate Apart(tag: seq<Byte>, raw: set<seq<Byte>>) {
    forall x {:trigger x in raw} | x in raw :: !LooksInterior(tag, x)
  }

  /** A root of two or more leaves lies in the tagged domain: it is the hash of no raw leaf. */
  lemma InteriorIsNoLeaf(h: Hash, tag: seq<Byte>, hashes: seq<Digest>, raw: set<seq<Byte>>)
    requires 2 <= |hashes| && Apart(tag, raw) && NoCollision(h, raw + Interior(h, tag, hashes))
    ensures !HashOf(h, raw, Balanced(h, tag, hashes))
  {
    var k := Split(|hashes|);
    var p := Preimage(tag, Balanced(h, tag, hashes[..k]), Balanced(h, tag, hashes[k..]));
    assert p in Interior(h, tag, hashes) && LooksInterior(tag, p);
    forall x | x in raw ensures h(x) != h(p) {
      assert x in raw + Interior(h, tag, hashes) && p in raw + Interior(h, tag, hashes);
    }
  }

  lemma NoCollisionWithin(h: Hash, xs: set<seq<Byte>>, ys: set<seq<Byte>>)
    requires NoCollision(h, ys) && xs <= ys
    ensures NoCollision(h, xs)
  {
  }

  /** Trees with equal roots, of two or more leaves each, have halves with equal roots. */
  lemma HalvesAgree(h: Hash, tag: seq<Byte>, a: seq<Digest>, b: seq<Digest>, all: set<seq<Byte>>)
    requires 2 <= |a| && 2 <= |b| && Balanced(h, tag, a) == Balanced(h, tag, b)
    requires Interior(h, tag, a) <= all && Interior(h, tag, b) <= all && NoCollision(h, all)
    ensures var i, j := Split(|a|), Split(|b|);
      Balanced(h, tag, a[..i]) == Balanced(h, tag, b[..j]) && Balanced(h, tag, a[i..]) == Balanced(h, tag, b[j..])
  {
    var i, j := Split(|a|), Split(|b|);
    var p := Preimage(tag, Balanced(h, tag, a[..i]), Balanced(h, tag, a[i..]));
    var q := Preimage(tag, Balanced(h, tag, b[..j]), Balanced(h, tag, b[j..]));
    assert p in Interior(h, tag, a) && q in Interior(h, tag, b) && h(p) == h(q);
    PreimageInjective(tag, Balanced(h, tag, a[..i]), Balanced(h, tag, a[i..]), Balanced(h, tag, b[..j]),
        Balanced(h, tag, b[j..]));
  }

  lemma HalvesWithin(h: Hash, tag: seq<Byte>, a: seq<Digest>, all: set<seq<Byte>>)
    requires 2 <= |a| && Interior(h, tag, a) <= all
    ensures Interior(h, tag, a[..Split(|a|)]) <= all && Interior(h, tag, a[Split(|a|)..]) <= all
  {
  }

  /** Halves with equal roots belong to equal lists, if equal roots mean equal lists there. */
  lemma Rejoined(a: seq<Digest>, b: seq<Digest>, i: nat, j: nat)
    requires i <= |a| && j <= |b| && a[..i] == b[..j] && a[i..] == b[j..]
    ensures a == b
  {
    assert a == a[..i] + a[i..] && b == b[..j] + b[j..];
  }

  /** A tree whose leaves are raw and whose strings are among `all`. */
  ghost predicate Grounded(h: Hash, tag: seq<Byte>, a: seq<Digest>, raw: set<seq<Byte>>, all: set<seq<Byte>>) {
    a != [] && RawLeaves(h, a, raw) && Interior(h, tag, a) <= all
  }

  lemma HalvesGrounded(h: Hash, tag: seq<Byte>, a: seq<Digest>, raw: set<seq<Byte>>, all: set<seq<Byte>>)
    requires 2 <= |a| && Grounded(h, tag, a, raw, all)
    ensures Grounded(h, tag, a[..Split(|a|)], raw, all) && Grounded(h, tag, a[Split(|a|)..], raw, all)
  {
    HalvesWithin(h, tag, a, all);
  }

  ghost predicate Separated(h: Hash, tag: seq<Byte>, raw: set<seq<Byte>>, all: set<seq<Byte>>) {
    Apart(tag, raw) && raw <= all && NoCollision(h, all)
  }

  lemma SameKind(h: Hash, tag: seq<Byte>, a: seq<Digest>, b: seq<Digest>, raw: set<seq<Byte>>, all: set<seq<Byte>>)
    requires Grounded(h, tag, a, raw, all) && Grounded(h, tag, b, raw, all) && Separated(h, tag, raw, all)
    requires Balanced(h, tag, a) == Balanced(h, tag, b)
    ensures |a| == 1 ==> |b| == 1
  {
    if |b| > 1 {
      NoCollisionWithin(h, raw + Interior(h, tag, b), all);
      InteriorIsNoLeaf(h, tag, b, raw);
      assert HashOf(h, raw, a[0]);
    }
  }

  /** Raw leaves under one root: the same list, of the same length. */
  lemma {:induction false} BalancedBindsList(h: Hash, tag: seq<Byte>, a: seq<Digest>, b: seq<Digest>,
                                             raw: set<seq<Byte>>, all: set<seq<Byte>>)
    requires Grounded(h, tag, a, raw, all) && Grounded(h, tag, b, raw, all) && Separated(h, tag, raw, all)
    requires Balanced(h, tag, a) == Balanced(h, tag, b)
    ensures a == b
    decreases |a|
  {
    SameKind(h, tag, a, b, raw, all);
    SameKind(h, tag, b, a, raw, all);
    if |a| > 1 {
      HalvesAgree(h, tag, a, b, all);
      HalvesGrounded(h, tag, a, raw, all);
      HalvesGrounded(h, tag, b, raw, all);
      var i, j := Split(|a|), Split(|b|);
      BalancedBindsList(h, tag, a[..i], b[..j], raw, all);
      BalancedBindsList(h, tag, a[i..], b[j..], raw, all);
      Rejoined(a, b, i, j);
    }
  }

  /** The root of a list of raw record hashes determines the list, its length included. */
  lemma RootBindsList(h: Hash, tag: seq<Byte>, a: seq<Digest>, b: seq<Digest>, raw: set<seq<Byte>>)
    requires a != [] && b != [] && RootOf(h, tag, a) == RootOf(h, tag, b)
    requires RawLeaves(h, a, raw) && RawLeaves(h, b, raw) && Apart(tag, raw)
    requires NoCollision(h, raw + Interior(h, tag, a) + Interior(h, tag, b))
    ensures a == b
  {
    RootIsBalanced(h, tag, a);
    RootIsBalanced(h, tag, b);
    BalancedBindsList(h, tag, a, b, raw, raw + Interior(h, tag, a) + Interior(h, tag, b));
  }

  /** Without a bound on what leaves may be, a count has to be given beside the root. */
  lemma {:induction false} BalancedBindsCounted(h: Hash, tag: seq<Byte>, a: seq<Digest>, b: seq<Digest>,
                                                all: set<seq<Byte>>)
    requires a != [] && |a| == |b| && Balanced(h, tag, a) == Balanced(h, tag, b)
    requires Interior(h, tag, a) <= all && Interior(h, tag, b) <= all && NoCollision(h, all)
    ensures a == b
    decreases |a|
  {
    if |a| > 1 {
      HalvesAgree(h, tag, a, b, all);
      HalvesWithin(h, tag, a, all);
      HalvesWithin(h, tag, b, all);
      var i := Split(|a|);
      BalancedBindsCounted(h, tag, a[..i], b[..i], all);
      BalancedBindsCounted(h, tag, a[i..], b[i..], all);
      Rejoined(a, b, i, i);
    }
  }

  lemma RootBindsCountedList(h: Hash, tag: seq<Byte>, a: seq<Digest>, b: seq<Digest>)
    requires a != [] && |a| == |b| && RootOf(h, tag, a) == RootOf(h, tag, b)
    requires NoCollision(h, Interior(h, tag, a) + Interior(h, tag, b))
    ensures a == b
  {
    RootIsBalanced(h, tag, a);
    RootIsBalanced(h, tag, b);
    BalancedBindsCounted(h, tag, a, b, Interior(h, tag, a) + Interior(h, tag, b));
  }

  /**
    The trees go together: they split alike, and where one has a leaf and the other goes on, the leaf is
    the hash of what is below.
   */
  ghost predicate Meet(h: Hash, tag: seq<Byte>, a: seq<Digest>, b: seq<Digest>)
    requires a != [] && b != []
    decreases |a|
  {
    if |a| == 1 then a[0] == Balanced(h, tag, b)
    else if |b| == 1 then b[0] == Balanced(h, tag, a)
    else Meet(h, tag, a[..Split(|a|)], b[..Split(|b|)]) && Meet(h, tag, a[Split(|a|)..], b[Split(|b|)..])
  }

  lemma {:induction false} MeetingTreesShareRoot(h: Hash, tag: seq<Byte>, a: seq<Digest>, b: seq<Digest>)
    requires a != [] && b != [] && Meet(h, tag, a, b)
    ensures Balanced(h, tag, a) == Balanced(h, tag, b)
    decreases |a|
  {
    if |a| > 1 && |b| > 1 {
      MeetingTreesShareRoot(h, tag, a[..Split(|a|)], b[..Split(|b|)]);
      MeetingTreesShareRoot(h, tag, a[Split(|a|)..], b[Split(|b|)..]);
    }
  }

  lemma {:induction false} SharedRootMeets(h: Hash, tag: seq<Byte>, a: seq<Digest>, b: seq<Digest>, all: set<seq<Byte>>)
    requires a != [] && b != [] && Balanced(h, tag, a) == Balanced(h, tag, b)
    requires Interior(h, tag, a) <= all && Interior(h, tag, b) <= all && NoCollision(h, all)
    ensures Meet(h, tag, a, b)
    decreases |a|
  {
    if |a| > 1 && |b| > 1 {
      HalvesAgree(h, tag, a, b, all);
      HalvesWithin(h, tag, a, all);
      HalvesWithin(h, tag, b, all);
      SharedRootMeets(h, tag, a[..Split(|a|)], b[..Split(|b|)], all);
      SharedRootMeets(h, tag, a[Split(|a|)..], b[Split(|b|)..], all);
    }
  }

  /** Two lists of any leaves and lengths have one root exactly when their trees go together. */
  lemma RootsMeetExactly(h: Hash, tag: seq<Byte>, a: seq<Digest>, b: seq<Digest>)
    requires a != [] && b != [] && NoCollision(h, Interior(h, tag, a) + Interior(h, tag, b))
    ensures RootOf(h, tag, a) == RootOf(h, tag, b) <==> Meet(h, tag, a, b)
  {
    RootIsBalanced(h, tag, a);
    RootIsBalanced(h, tag, b);
    if Balanced(h, tag, a) == Balanced(h, tag, b) {
      SharedRootMeets(h, tag, a, b, Interior(h, tag, a) + Interior(h, tag, b));
    }
    if Meet(h, tag, a, b) { MeetingTreesShareRoot(h, tag, a, b); }
  }

  // ----- inclusion proofs

  datatype ProofNode = ProofNode(hash: Digest, isRight: bool)

  datatype MerkleProof = MerkleProof(leaf: Digest, siblings: seq<ProofNode>, root: Digest)

  function Step(tag: seq<Byte>, current: Digest, node: ProofNode): seq<Byte> {
    if node.isRight then Preimage(tag, current, node.hash) else Preimage(tag, node.hash, current)
  }

  function Walk(h: Hash, tag: seq<Byte>, leaf: Digest, siblings: seq<ProofNode>): Digest
    decreases |siblings|
  {
    if siblings == [] then leaf else Walk(h, tag, h(Step(tag, leaf, siblings[0])), siblings[1..])
  }

  /** The values on the way from the leaf to the root; a sibling on the right is hashed last. */
  ghost predicate Climb(h: Hash, tag: seq<Byte>, siblings: seq<ProofNode>, vs: seq<Digest>) {
    |vs| == |siblings| + 1 && forall i {:trigger siblings[i]} | 0 <= i < |siblings| ::
      vs[i + 1] == if siblings[i].isRight then h(tag + vs[i] + siblings[i].hash) else h(tag + siblings[i].hash + vs[i])
  }

  ghost predicate Leads(h: Hash, tag: seq<Byte>, leaf: Digest, siblings: seq<ProofNode>, root: Digest) {
    exists vs :: Climb(h, tag, siblings, vs) && vs[0] == leaf && vs[|siblings|] == root
  }

  lemma {:induction false} WalkClimbs(h: Hash, tag: seq<Byte>, leaf: Digest, siblings: seq<ProofNode>)
    returns (vs: seq<Digest>)
    ensures Climb(h, tag, siblings, vs) && vs[0] == leaf && vs[|siblings|] == Walk(h, tag, leaf, siblings)
    decreases |siblings|
  {
    if siblings == [] {
      vs := [leaf];
    } else {
      var rest := WalkClimbs(h, tag, h(Step(tag, leaf, siblings[0])), siblings[1..]);
      vs := [leaf] + rest;
      forall i {:trigger siblings[i]} | 0 <= i < |siblings|
        ensures vs[i + 1] == if siblings[i].isRight then h(tag + vs[i] + siblings[i].hash)
          else h(tag + siblings[i].hash + vs[i])
      {
        if i > 0 { assert siblings[1..][i - 1] == siblings[i]; }
      }
    }
  }

  lemma {:induction false} ClimbWalks(h: Hash, tag: seq<Byte>, siblings: seq<ProofNode>, vs: seq<Digest>)
    requires Climb(h, tag, siblings, vs)
    ensures vs[|siblings|] == Walk(h, tag, vs[0], siblings)
    decreases |siblings|
  {
    if siblings != [] {
      forall i {:trigger siblings[1..][i]} | 0 <= i < |siblings[1..]|
        ensures vs[1..][i + 1] == if siblings[1..][i].isRight then h(tag + vs[1..][i] + siblings[1..][i].hash)
          else h(tag + siblings[1..][i].hash + vs[1..][i])
      {
        assert siblings[1..][i] == siblings[i + 1];
      }
      assert vs[1] == h(Step(tag, vs[0], siblings[0])) by { assert siblings[0] == siblings[0]; }
      ClimbWalks(h, tag, siblings[1..], vs[1..]);
    }
  }

  lemma WalkExactly(h: Hash, tag: seq<Byte>, leaf: Digest, siblings: seq<ProofNode>, root: Digest)
    ensures Walk(h, tag, leaf, siblings) == root <==> Leads(h, tag, leaf, siblings, root)
  {
    var vs := WalkClimbs(h, tag, leaf, siblings);
    if Leads(h, tag, leaf, siblings, root) {
      var us :| Climb(h, tag, siblings, us) && us[0] == leaf && us[|siblings|] == root;
      ClimbWalks(h, tag, siblings, us);
    }
  }

  /** The sibling of a position, if it has one. */
  function Beside(layer: seq<Digest>, pos: nat): seq<ProofNode>
    requires pos < |layer|
  {
    if pos % 2 == 1 then [ProofNode(layer[pos - 1], false)]
    else if pos + 1 < |layer| then [ProofNode(layer[pos + 1], true)]
    else []
  }

  function PathOf(h: Hash, tag: seq<Byte>, layer: seq<Digest>, pos: nat): seq<ProofNode>
    requires pos < |layer|
    decreases |layer|
  {
    if |layer| == 1 then [] else Beside(layer, pos) + PathOf(h, tag, Above(h, tag, layer), pos / 2)
  }

  /** The node above a position. */
  lemma {:induction false} AboveAt(h: Hash, tag: seq<Byte>, layer: seq<Digest>, pos: nat)
    requires pos < |layer|
    ensures Above(h, tag, layer)[pos / 2] == Walk(h, tag, layer[pos], Beside(layer, pos))
    decreases |layer|
  {
    if |layer| >= 2 && pos >= 2 {
      AboveAt(h, tag, layer[2..], pos - 2);
      assert Beside(layer[2..], pos - 2) == Beside(layer, pos);
    }
  }

  lemma {:induction false} WalkInTwo(h: Hash, tag: seq<Byte>, leaf: Digest, a: seq<ProofNode>, b: seq<ProofNode>)
    ensures Walk(h, tag, leaf, a + b) == Walk(h, tag, Walk(h, tag, leaf, a), b)
    decreases |a|
  {
    if a == [] {
      assert a + b == b;
    } else {
      assert (a + b)[1..] == a[1..] + b;
      WalkInTwo(h, tag, h(Step(tag, leaf, a[0])), a[1..], b);
    }
  }

  /** The path of every position leads from its leaf to the root. */
  lemma {:induction false} PathReachesRoot(h: Hash, tag: seq<Byte>, layer: seq<Digest>, pos: nat)
    requires pos < |layer|
    ensures Walk(h, tag, layer[pos], PathOf(h, tag, layer, pos)) == RootOf(h, tag, layer)
    decreases |layer|
  {
    if |layer| > 1 {
      AboveAt(h, tag, layer, pos);
      WalkInTwo(h, tag, layer[pos], Beside(layer, pos), PathOf(h, tag, Above(h, tag, layer), pos / 2));
      PathReachesRoot(h, tag, Above(h, tag, layer), pos / 2);
    }
  }

  ghost predicate SameSides(a: seq<ProofNode>, b: seq<ProofNode>) {
    |a| == |b| && forall i {:trigger a[i]} | 0 <= i < |a| :: a[i].isRight == b[i].isRight
  }

  ghost function WalkBytes(h: Hash, tag: seq<Byte>, leaf: Digest, siblings: seq<ProofNode>): set<seq<Byte>>
    decreases |siblings|
  {
    if siblings == [] then {}
    else {Step(tag, leaf, siblings[0])} + WalkBytes(h, tag, h(Step(tag, leaf, siblings[0])), siblings[1..])
  }

  /** Proofs for one position and one root carry the same leaf and the same siblings. */
  lemma {:induction false} WalksAgree(h: Hash, tag: seq<Byte>, leaf: Digest, a: seq<ProofNode>, leaf': Digest,
                                      b: seq<ProofNode>)
    requires SameSides(a, b) && Walk(h, tag, leaf, a) == Walk(h, tag, leaf', b)
    requires NoCollision(h, WalkBytes(h, tag, leaf, a) + WalkBytes(h, tag, leaf', b))
    ensures leaf == leaf' && a == b
    decreases |a|
  {
    if a != [] {
      var x, y := Step(tag, leaf, a[0]), Step(tag, leaf', b[0]);
      NoCollisionWithin(h, WalkBytes(h, tag, h(x), a[1..]) + WalkBytes(h, tag, h(y), b[1..]),
                        WalkBytes(h, tag, leaf, a) + WalkBytes(h, tag, leaf', b));
      WalksAgree(h, tag, h(x), a[1..], h(y), b[1..]);
      assert x in WalkBytes(h, tag, leaf, a) && y in WalkBytes(h, tag, leaf', b);
      assert x == y;
      if a[0].isRight {
        PreimageInjective(tag, leaf, a[0].hash, leaf', b[0].hash);
      } else {
        PreimageInjective(tag, a[0].hash, leaf, b[0].hash, leaf');
      }
      assert a == [a[0]] + a[1..] && b == [b[0]] + b[1..];
    }
  }

  /** A proof along the path of a position, against the list's root, is for the leaf at that position. */
  lemma ProofBindsLeaf(h: Hash, tag: seq<Byte>, hashes: seq<Digest>, pos: nat, p: MerkleProof)
    requires pos < |hashes| && p.root == RootOf(h, tag, hashes) == Walk(h, tag, p.leaf, p.siblings)
    requires SameSides(p.siblings, PathOf(h, tag, hashes, pos))
    requires NoCollision(h, WalkBytes(h, tag, p.leaf, p.siblings)
                            + WalkBytes(h, tag, hashes[pos], PathOf(h, tag, hashes, pos)))
    ensures p.leaf == hashes[pos] && p.siblings == PathOf(h, tag, hashes, pos)
  {
    PathReachesRoot(h, tag, hashes, pos);
    WalksAgree(h, tag, p.leaf, p.siblings, hashes[pos], PathOf(h, tag, hashes, pos));
  }

  // ----- the loops

  lemma {:induction false} AboveEnd(h: Hash, tag: seq<Byte>, layer: seq<Digest>, i: nat)
    requires i % 2 == 0 && i < |layer|
    ensures i + 1 < |layer| ==>
      Above(h, tag, layer[..i + 2]) == Above(h, tag, layer[..i]) + [Combine(h, tag, layer[i], layer[i + 1])]
    ensures i + 1 == |layer| ==> Above(h, tag, layer) == Above(h, tag, layer[..i]) + [layer[i]]
  {
    if i + 1 < |layer| {
      assert layer[..i + 2] == layer[..i] + [layer[i], layer[i + 1]];
      AboveSplits(h, tag, layer[..i], [layer[i], layer[i + 1]]);
    } else {
      assert layer == layer[..i] + [layer[i]];
      AboveSplits(h, tag, layer[..i], [layer[i]]);
    }
  }

  method NextLayer(h: Hash, tag: seq<Byte>, layer: seq<Digest>) returns (next: seq<Digest>)
    ensures next == Above(h, tag, layer)
  {
    next := [];
    var i := 0;
    while i < |layer|
      invariant i % 2 == 0 && i <= |layer| + 1
      invariant next == Above(h, tag, if i < |layer| then layer[..i] else layer)
    {
      AboveEnd(h, tag, layer, i);
      if i + 1 < |layer| {
        next := next + [Combine(h, tag, layer[i], layer[i + 1])];
        assert i + 2 == |layer| ==> layer[..i + 2] == layer;
      } else {
        next := next + [layer[i]];
      }
      i := i + 2;
    }
  }

  method Root(h: Hash, tag: seq<Byte>, hashes: seq<Digest>) returns (root: Digest)
    ensures root == if hashes == [] then Zero() else Balanced(h, tag, hashes)
    ensures hashes == [] ==> forall i | 0 <= i < 32 :: root[i] == 0
  {
    if hashes == [] { return Zero(); }
    RootIsBalanced(h, tag, hashes);
    var layer := hashes;
    while |layer| > 1
      invariant layer != [] && RootOf(h, tag, layer) == RootOf(h, tag, hashes)
      decreases |layer|
    {
      layer := NextLayer(h, tag, layer);
    }
    root := layer[0];
  }

  /** The first position of a leaf. */
  method Position(hashes: seq<Digest>, leaf: Digest) returns (pos: nat)
    ensures pos <= |hashes| && leaf !in hashes[..pos] && (pos < |hashes| ==> hashes[pos] == leaf)
  {
    pos := 0;
    while pos < |hashes| && hashes[pos] != leaf
      invariant pos <= |hashes| && leaf !in hashes[..pos]
    {
      assert hashes[..pos + 1] == hashes[..pos] + [hashes[pos]];
      pos := pos + 1;
    }
  }

  /** A proof exists exactly for the leaves of the list, leads to the root and names the first position. */
  method Prove(h: Hash, tag: seq<Byte>, hashes: seq<Digest>, leaf: Digest) returns (r: Option<MerkleProof>)
    ensures r.Some? <==> leaf in hashes
    ensures r.Some? ==> r.value.leaf == leaf && r.value.root == RootOf(h, tag, hashes)
    ensures r.Some? ==> Walk(h, tag, leaf, r.value.siblings) == r.value.root
    ensures r.Some? ==> exists pos | 0 <= pos < |hashes| ::
      hashes[pos] == leaf && leaf !in hashes[..pos] && r.value.siblings == PathOf(h, tag, hashes, pos)
  {
    var idx := Position(hashes, leaf);
    if idx == |hashes| {
      assert hashes[..idx] == hashes;
      return None;
    }
    var root := Root(h, tag, hashes);
    RootIsBalanced(h, tag, hashes);
    var siblings: seq<ProofNode> := [];
    var layer, pos: nat := hashes, idx;
    while |layer| > 1
      invariant pos < |layer|
      invariant siblings + PathOf(h, tag, layer, pos) == PathOf(h, tag, hashes, idx)
      decreases |layer|
    {
      var next := NextLayer(h, tag, layer);
      assert siblings + (Beside(layer, pos) + PathOf(h, tag, next, pos / 2))
        == (siblings + Beside(layer, pos)) + PathOf(h, tag, next, pos / 2);
      if pos % 2 == 0 {
        if pos + 1 < |layer| {
          siblings := siblings + [ProofNode(layer[pos + 1], true)];
        } else {
          assert siblings + [] == siblings;
        }
      } else {
        siblings := siblings + [ProofNode(layer[pos - 1], false)];
      }
      layer, pos := next, pos / 2;
    }
    assert siblings + [] == siblings;
    PathReachesRoot(h, tag, hashes, idx);
    r := Some(MerkleProof(leaf, siblings, root));
  }

  method Verify(h: Hash, tag: seq<Byte>, proof: MerkleProof) returns (ok: bool)
    ensures ok <==> Walk(h, tag, proof.leaf, proof.siblings) == proof.root
    ensures ok <==> Leads(h, tag, proof.leaf, proof.siblings, proof.root)
  {
    WalkExactly(h, tag, proof.leaf, proof.siblings, proof.root);
    var current: Digest := proof.leaf;
    var i := 0;
    while i < |proof.siblings|
      invariant i <= |proof.siblings|
      invariant Walk(h, tag, proof.leaf, proof.siblings) == Walk(h, tag, current, proof.siblings[i..])
    {
      var node := proof.siblings[i];
      assert proof.siblings[i..][1..] == proof.siblings[i + 1..];
      current := if node.isRight then Combine(h, tag, current, node.hash) else Combine(h, tag, node.hash, current);
      i := i + 1;
    }
    ok := current == proof.root;
  }
}
