/**
  The account tree over a compact store, as it is updated in place.  `leaves` is what the tree stands
  for; every operation keeps the store exactly as compact as it should be and the root canonical.
 */
module SparseMerkleTree {
  import opened Basics
  import opened Smt
  import opened SmtVerifier
  import opened SmtTree
  import opened SmtCrown
  import opened SmtStore
  import opened SmtAccounts

  method FoldTailLoop(h: Hash, hash: Digest, path: Path, from: nat, to: nat) returns (r: Digest)
    requires to <= from <= |path|
    ensures r == FoldTail(h, hash, path, from, to)
  {
    r := hash;
    var d := from;
    while d > to
      invariant to <= d <= from && FoldTail(h, hash, path, from, to) == FoldTail(h, r, path, d, to)
    {
      d := d - 1;
      r := if path[d] then h(NodeBytes(h([]), r)) else h(NodeBytes(r, h([])));
    }
  }

  /** The first position at which two paths differ. */
  method FirstDiffBit(a: Path, b: Path) returns (s: nat)
    requires |a| == |b|
    ensures s <= |a| && a[..s] == b[..s] && (s < |a| ==> a[s] != b[s])
  {
    s := 0;
    while s < |a| && a[s] == b[s]
      invariant s <= |a| && a[..s] == b[..s]
    {
      assert a[..s + 1] == a[..s] + [a[s]] && b[..s + 1] == b[..s] + [b[s]];
      s := s + 1;
    }
  }

  class SparseMerkleTree {
    const h: Hash
    const depth: nat
    var rows: Rows
    var tops: Tops
    var values: map<Digest, Digest>
    ghost var leaves: Leaves

    ghost predicate Valid()
      reads this
    {
      1 <= depth && SentinelIsUnique(h) && Stored(h, leaves, rows, tops, depth)
    }

    constructor (hash: Hash, maxDepth: nat)
      requires 1 <= maxDepth && SentinelIsUnique(hash)
      ensures Valid() && h == hash && depth == maxDepth && leaves == map[] && values == map[]
    {
      h, depth, rows, tops, values, leaves := hash, maxDepth, map[], map[], map[], map[];
    }

    function GetNode(q: Path): Digest
      reads this
    {
      At(h, rows, q)
    }

    /** The root depends on the leaves alone. */
    method Root() returns (root: Digest)
      requires Valid()
      ensures root == Canon(h, leaves, [], depth)
    {
      root := GetNode([]);
      if [] !in rows {
        RootRow(leaves.Keys, depth);
        CanonEmpty(h, leaves, [], depth);
      }
    }

    /** Binary search for the deepest row on the path, then the leaf row and the marker decide. */
    method Resolve(path: Path) returns (site: Site)
      requires Valid() && |path| == depth
      ensures Resolved(leaves.Keys, path, site, depth)
    {
      RootRow(leaves.Keys, depth);
      if GetNode([]) == h([]) {
        if [] in rows { RowsAreOccupied(h, leaves, rows, tops, depth, []); }
        return EmptyTree;
      }
      RowsTellPath(h, leaves, rows, tops, path, depth);
      var lo := DeepestRow(h, rows, path);
      RowsReadKeys(h, leaves, rows, tops, path, lo, depth);
      SiteFromMarker(leaves.Keys, path, lo, depth, MarkerAt(tops, path[..lo]));
      site := SiteFrom(path, lo, GetNode(path) != h([]), MarkerAt(tops, path[..lo]));
    }

    // ----- updating

    method RecomputeFrom(path: Path, start: nat, ghost m: Leaves)
      requires 1 <= depth && SentinelIsUnique(h) && |path| == depth && start <= depth
      requires Placed(h, m, rows, tops, path, start, depth)
      modifies this`rows
      ensures Stored(h, m, rows, tops, depth)
    {
      var d := start;
      while d > 0
        invariant 0 <= d <= start && Placed(h, m, rows, tops, path, d, depth)
      {
        var parent := path[..d - 1];
        RecomputeHash(h, m, rows, tops, path, d, depth);
        RecomputePlaced(h, m, rows, tops, path, d, depth, parent);
        var left, right := GetNode(parent + [false]), GetNode(parent + [true]);
        var hash := if left == h([]) && right == h([]) then h([]) else h(NodeBytes(left, right));
        rows := if hash == h([]) then rows - {parent} else rows[parent := hash];
        d := d - 1;
      }
      PlacedAtRoot(h, m, rows, tops, path, depth);
    }

    /** The path follows a lone neighbour below its top: split at the parting bit and rewrite the run back up. */
    method SplitUnary(path: Path, leaf: Digest, topDepth: nat, neighbor: Path)
      requires Valid() && leaf != Empty(h) && Resolved(leaves.Keys, path, DivesIntoUnary(topDepth, neighbor), depth)
      modifies this`rows, this`tops
      ensures Placed(h, leaves[path := leaf], rows, tops, path, topDepth, depth)
    {
      ghost var before := rows;
      var s := FirstDiffBit(path, neighbor);
      DiveHolds(leaves.Keys, path, topDepth, neighbor, s, depth);
      SibOfNeighbor(path, neighbor, s);
      var hash, split := SplitRows(h, leaves, rows, tops, path, leaf, topDepth, neighbor, s, depth);
      DiveChained(h, leaves, path, leaf, topDepth, neighbor, s, depth);
      rows := ChainUp(h, leaves[path := leaf], before, split, path, topDepth, s, hash, depth);
      PlaceDive(h, leaves, before, tops, rows, path, leaf, topDepth, neighbor, s, depth);
      tops := tops[path[..s + 1] := path][neighbor[..s + 1] := neighbor] - {path[..topDepth]};
    }

    method PlaceInEmpty(path: Path, leaf: Digest)
      requires Valid() && leaf != Empty(h) && |path| == depth && leaves.Keys == {}
      modifies this`rows, this`tops
      ensures Placed(h, leaves[path := leaf], rows, tops, path, 0, depth)
    {
      PlaceFirst(h, path, leaf, depth);
      EmptyStore(h, leaves, rows, tops, depth);
      var top := FoldTailLoop(h, leaf, path, depth, 0);
      rows, tops := rows[path := leaf][[] := top], tops[[] := path];
    }

    method PlaceOver(path: Path, leaf: Digest, t: nat)
      requires Valid() && leaf != Empty(h) && Resolved(leaves.Keys, path, Resident(t), depth)
      modifies this`rows
      ensures Placed(h, leaves[path := leaf], rows, tops, path, t, depth)
    {
      PlaceResident(h, leaves, rows, tops, path, leaf, t, depth);
      LeafTop(h, rows, path, leaf, t, depth);
      var top := FoldTailLoop(h, leaf, path, depth, t);
      rows := if t < depth then rows[path := leaf][path[..t] := top] else rows[path := leaf];
    }

    method PlaceUnderBranch(path: Path, leaf: Digest, b: nat)
      requires Valid() && leaf != Empty(h) && Resolved(leaves.Keys, path, BranchAdjacent(b), depth)
      modifies this`rows, this`tops
      ensures Placed(h, leaves[path := leaf], rows, tops, path, b + 1, depth)
    {
      PlaceBeside(h, leaves, rows, tops, path, leaf, b, depth);
      var top := FoldTailLoop(h, leaf, path, depth, b + 1);
      rows, tops := rows[path := leaf][path[..b + 1] := top], tops[path[..b + 1] := path];
    }

    /** Place a leaf, fix the rows at and below the depth returned, and leave the rest to `RecomputeFrom`. */
    method PlaceLeaf(path: Path, leaf: Digest) returns (resume: nat)
      requires Valid() && |path| == depth && leaf != Empty(h)
      modifies this`rows, this`tops
      ensures resume <= depth && Placed(h, leaves[path := leaf], rows, tops, path, resume, depth)
    {
      var site := Resolve(path);
      match site
      case EmptyTree =>
        PlaceInEmpty(path, leaf);
        resume := 0;
      case Resident(t) =>
        PlaceOver(path, leaf, t);
        resume := t;
      case DivesIntoUnary(t, neighbor) =>
        SplitUnary(path, leaf, t, neighbor);
        resume := t;
      case BranchAdjacent(b) =>
        PlaceUnderBranch(path, leaf, b);
        resume := b + 1;
    }

    method UpdateAt(path: Path, account: Digest, stateHash: Digest)
      requires Valid() && |path| == depth
      modifies this
      ensures Valid() && leaves == old(leaves)[path := LeafHash(h, account, stateHash)]
      ensures values == old(values)[account := stateHash]
    {
      var leaf := LeafHash(h, account, stateHash);
      assert LeafBytes(account, stateHash) != [];
      if GetNode(path) == leaf && account in values && values[account] == stateHash {
        assert path in rows && rows[path] == leaves[path];
        return;
      }
      var resume := PlaceLeaf(path, leaf);
      values := values[account := stateHash];
      RecomputeFrom(path, resume, leaves[path := leaf]);
      leaves := leaves[path := leaf];
    }

    // ----- deleting

    /** Give the region that `path` shared with its lone neighbour to the neighbour. */
    method MergeUnary(path: Path, t: nat, neighbor: Path) returns (u: nat)
      requires Valid() && 0 < t && Resolved(leaves.Keys, path, Resident(t), depth)
      requires Alone(leaves.Keys, Sib(path, t - 1), neighbor)
      modifies this`rows, this`tops
      ensures u <= depth && Placed(h, leaves - {path}, rows, tops, path, u, depth)
    {
      RowsTell(h, leaves, rows, tops, path, t, depth);
      u := NextTop(h, leaves.Keys, rows, path, t);
      var sib := Sib(path, t - 1);
      Merged(h, leaves, rows, tops, path, u, neighbor, t, depth);
      var top := FoldTailLoop(h, GetNode(sib), neighbor, t, u);
      rows := (rows - DiveGone(path, u, t - 1, depth))[path[..u] := top];
      tops := (tops - {path[..t], sib})[path[..u] := neighbor];
    }

    /** Take a leaf out of the tree; `None` when no rows are left to recompute. */
    method RemoveLeaf(path: Path) returns (resume: Option<nat>)
      requires Valid() && |path| == depth
      modifies this`rows, this`tops
      ensures resume.Some? ==>
        resume.value <= depth && Placed(h, leaves - {path}, rows, tops, path, resume.value, depth)
      ensures resume.None? ==> Stored(h, leaves - {path}, rows, tops, depth)
    {
      var site := Resolve(path);
      if !site.Resident? {
        assert leaves - {path} == leaves;
        return None;
      }
      var t := site.top;
      if t == 0 {
        OnlyKey(h, leaves, rows, tops, path, depth);
        rows, tops := rows - {path, path[..0]}, tops - {path[..0]};
        return None;
      }
      var sib := Sib(path, t - 1);
      if sib in tops {
        var u := MergeUnary(path, t, tops[sib]);
        if u == 0 {
          PlacedAtRoot(h, leaves - {path}, rows, tops, path, depth);
          return None;
        }
        return Some(u);
      }
      LeafRemoved(h, leaves, path, depth);
      UndoBeside(leaves.Keys, path, t, depth);
      DropBeside(h, leaves, rows, tops, path, t, depth);
      rows, tops := rows - {path, path[..t]}, tops - {path[..t]};
      return Some(t);
    }

    method DeleteAt(path: Path, account: Digest)
      requires Valid() && |path| == depth
      modifies this
      ensures Valid() && leaves == old(leaves) - {path} && values == old(values) - {account}
    {
      if GetNode(path) == h([]) && account !in values {
        NoLeaf(h, leaves, rows, tops, path, depth);
        assert values - {account} == values;
        return;
      }
      var resume := RemoveLeaf(path);
      values := values - {account};
      if resume.Some? {
        RecomputeFrom(path, resume.value, leaves - {path});
      }
      leaves := leaves - {path};
    }

    // ----- proofs

    /** Siblings at parent depths `below - 1` down to 0, read from the store. */
    method ProbeSiblings(path: Path, below: nat, present: seq<bool>, siblings: seq<Digest>)
      returns (present': seq<bool>, siblings': seq<Digest>)
      requires Valid() && |path| == depth && Seeded(h, leaves, path, depth, present, siblings, below)
      ensures siblings' == Siblings(h, leaves, path, depth, depth)
      ensures present' == Bitmap(h, leaves, path, depth)
    {
      present', siblings' := present, siblings;
      var d := below;
      while d > 0
        invariant 0 <= d <= below && |present'| == depth
        invariant siblings' + Siblings(h, leaves, path, d, depth) == Siblings(h, leaves, path, depth, depth)
        invariant Shown(h, leaves, path, depth, present', d) && Unset(present', d)
      {
        d := d - 1;
        SiblingRead(h, leaves, rows, tops, path, d, depth);
        SiblingsSplit(h, leaves, path, d, depth, siblings');
        ghost var before := present';
        var sib := GetNode(Sib(path, d));
        if sib != h([]) {
          present', siblings' := present'[d := true], siblings' + [sib];
        }
        ShownStep(h, leaves, path, depth, before, d, present');
      }
      AllShown(h, leaves, path, depth, present');
    }

    /** The compressed proof of a slot: the same bitmap and siblings as the full tree gives. */
    method CollectSiblings(path: Path) returns (present: seq<bool>, siblings: seq<Digest>)
      requires Valid() && |path| == depth
      ensures present == Bitmap(h, leaves, path, depth) && siblings == Siblings(h, leaves, path, depth, depth)
    {
      present, siblings := seq(depth, _ => false), [];
      var below := 0;
      var site := Resolve(path);
      match site {
      case EmptyTree =>
        EmptySiblings(h, leaves, path, depth, present);
      case Resident(t) =>
        below := t;
        ResidentSiblings(h, leaves, path, t, depth, present);
      case DivesIntoUnary(t, neighbor) =>
        below := t;
        StemIsReady(h, leaves, rows, tops, path, t, neighbor, depth, present);
        present, siblings := StemSibling(h, leaves, rows, path, t, neighbor, depth, present);
      case BranchAdjacent(b) =>
        below := b + 1;
        BesideSiblings(h, leaves, path, b, depth, present);
      }
      present, siblings := ProbeSiblings(path, below, present, siblings);
    }

    // ----- accounts

    /** The tree stands for the account table. */
    ghost predicate Tracks()
      reads this
    {
      Valid() && depth == 256 && Tabled(h, values, leaves)
    }

    method Update(account: Digest, stateHash: Digest)
      requires Tracks() && Separate(h, values.Keys + {account})
      modifies this
      ensures Tracks() && values == old(values)[account := stateHash]
      ensures leaves == old(leaves)[Bits(h(account)) := h([0] + account + stateHash)]
    {
      UpdateTabled(h, values, leaves, account, stateHash);
      UpdateAt(AccountPath(h, account), account, stateHash);
    }

    method Delete(account: Digest)
      requires Tracks() && Separate(h, values.Keys + {account})
      modifies this
      ensures Tracks() && values == old(values) - {account} && leaves == old(leaves) - {Bits(h(account))}
    {
      DeleteTabled(h, values, leaves, account);
      DeleteAt(AccountPath(h, account), account);
    }

    /** Every account of the table, and no other, gets an inclusion proof, and it verifies. */
    method MakeProof(account: Digest) returns (r: Option<Proof>, root: Digest)
      requires Tracks()
      ensures root == Canon(h, leaves, [], depth)
      ensures r.Some? <==> account in values
      ensures r.Some? ==> |r.value.present| == 256 && r.value.account == account
      ensures r.Some? ==> Included(h, r.value, values[account], root)
      ensures r.Some? ==>
        Leads(h, Bits(h(account)), r.value.present, r.value.siblings, h([0] + account + values[account]), root)
    {
      root := Root();
      if account !in values { return None, root; }
      var present, siblings := CollectSiblings(AccountPath(h, account));
      ProofsAreComplete(h, leaves, AccountPath(h, account), depth);
      FoldExactly(h, AccountPath(h, account), present, siblings, LeafHash(h, account, values[account]));
      r := Some(Proof(account, present, siblings));
    }

    /** Every other account gets an exclusion proof, and it verifies. */
    method MakeExclusionProof(account: Digest) returns (r: Option<Proof>, root: Digest)
      requires Tracks() && Separate(h, values.Keys + {account})
      ensures root == Canon(h, leaves, [], depth)
      ensures r.Some? <==> account !in values
      ensures r.Some? ==> |r.value.present| == 256 && r.value.account == account
      ensures r.Some? ==> Excluded(h, r.value, root)
      ensures r.Some? ==> Leads(h, Bits(h(account)), r.value.present, r.value.siblings, h([]), root)
    {
      root := Root();
      if account in values { return None, root; }
      var present, siblings := CollectSiblings(AccountPath(h, account));
      AbsentSlot(h, values, leaves, account);
      ProofsAreComplete(h, leaves, AccountPath(h, account), depth);
      FoldExactly(h, AccountPath(h, account), present, siblings, Empty(h));
      r := Some(Proof(account, present, siblings));
    }
  }

  /** Write the two tops below the parting bit and the branch at it. */
  method SplitRows(h: Hash, ghost m: Leaves, rows: Rows, ghost tops: Tops, path: Path, leaf: Digest, ghost t: nat,
                   k: Path, s: nat, n: nat)
    returns (hash: Digest, rows': Rows)
    requires SentinelIsUnique(h) && Stored(h, m, rows, tops, n) && leaf != Empty(h) && Dive(m.Keys, path, t, k, s, n)
    ensures hash == Canon(h, m[path := leaf], path[..s], n)
    ensures Rewritten(h, m[path := leaf], rows, rows', DiveDue(path, s, s), {}, n)
  {
    LeafRow(h, m, rows, tops, k, n);
    SplitHolds(h, m, rows, path, leaf, t, k, s, n);
    var mine := FoldTailLoop(h, leaf, path, n, s + 1);
    var theirs := FoldTailLoop(h, At(h, rows, k), k, n, s + 1);
    hash := h(ParentBytes(path[s], mine, theirs));
    rows' := SplitAt(rows, path, leaf, k, s, mine, theirs, hash);
  }

  /** Whether the leaf is there, and the marker on the deepest row above it, decide. */
  function SiteFrom(path: Path, lo: nat, present: bool, marker: Option<Path>): Site {
    if present then if marker == Some(path) then Resident(lo) else Resident(|path|)
    else if marker.Some? && marker.value != path then DivesIntoUnary(lo, marker.value)
    else BranchAdjacent(lo)
  }

  function MarkerAt(tops: Tops, q: Path): Option<Path> {
    if q in tops then Some(tops[q]) else None
  }

  lemma SiteFromMarker(ks: set<Path>, path: Path, lo: nat, n: nat, marker: Option<Path>)
    requires Level(ks, n) && lo < n == |path| && Row(ks, path[..lo], n)
    requires forall d {:trigger path[..d]} | lo < d < n :: !Row(ks, path[..d], n)
    requires marker.Some? <==> Top(ks, path[..lo])
    requires marker.Some? ==> Alone(ks, path[..lo], marker.value)
    ensures Resolved(ks, path, SiteFrom(path, lo, path in ks, marker), n)
  {
    Boundary(ks, path, lo, n);
  }

  /** What the rows and markers on a path say about the keys. */
  lemma RowsReadKeys(h: Hash, m: Leaves, rows: Rows, tops: Tops, path: Path, lo: nat, n: nat)
    requires SentinelIsUnique(h) && Stored(h, m, rows, tops, n) && lo < n == |path| && path[..lo] in rows
    requires forall d {:trigger path[..d]} | lo < d < n :: path[..d] !in rows
    ensures Level(m.Keys, n) && Row(m.Keys, path[..lo], n)
    ensures forall d {:trigger path[..d]} | lo < d < n :: !Row(m.Keys, path[..d], n)
    ensures At(h, rows, path) != Empty(h) <==> path in m.Keys
    ensures MarkerAt(tops, path[..lo]).Some? <==> Top(m.Keys, path[..lo])
    ensures MarkerAt(tops, path[..lo]).Some? ==> Alone(m.Keys, path[..lo], MarkerAt(tops, path[..lo]).value)
  {
    if path in rows { RowsAreOccupied(h, m, rows, tops, n, path); }
    assert path in rows <==> Row(m.Keys, path, n);
  }

  /** On a path, above the leaf, a prefix has a row if a longer one has, and a row never reads as empty. */
  ghost predicate Searchable(h: Hash, rows: Rows, path: Path) {
    && path != [] && path[..0] in rows
    && (forall d {:trigger path[..d]} | 0 <= d < |path| && path[..d] in rows :: rows[path[..d]] != Empty(h))
    && (forall d, e {:trigger path[..d], path[..e]} | 0 <= d <= e < |path| && path[..e] in rows :: path[..d] in rows)
  }

  lemma RowsTellPath(h: Hash, m: Leaves, rows: Rows, tops: Tops, path: Path, n: nat)
    requires SentinelIsUnique(h) && Stored(h, m, rows, tops, n) && |path| == n > 0 && [] in rows
    ensures Searchable(h, rows, path)
  {
    assert path[..0] == [];
    forall d {:trigger path[..d]} | 0 <= d < n && path[..d] in rows ensures rows[path[..d]] != Empty(h) {
      RowsAreOccupied(h, m, rows, tops, n, path[..d]);
    }
    forall d, e {:trigger path[..d], path[..e]} | 0 <= d <= e < n && path[..e] in rows ensures path[..d] in rows {
      RowAbove(m.Keys, path, d, e, n);
    }
  }

  /** Binary search for the deepest row on the path above the leaf. */
  method DeepestRow(h: Hash, rows: Rows, path: Path) returns (lo: nat)
    requires Searchable(h, rows, path)
    ensures lo < |path| && path[..lo] in rows && forall d {:trigger path[..d]} | lo < d < |path| :: path[..d] !in rows
  {
    var hi := |path| - 1;
    lo := 0;
    while lo < hi
      invariant 0 <= lo <= hi < |path| && path[..lo] in rows
      invariant forall d {:trigger path[..d]} | hi < d < |path| :: path[..d] !in rows
    {
      var mid := lo + (hi - lo + 1) / 2;
      if At(h, rows, path[..mid]) != h([]) {
        lo := mid;
      } else {
        hi := mid - 1;
      }
    }
  }

  /** Along the path from `t` to `s` every sibling is empty. */
  ghost predicate Chained(h: Hash, m: Leaves, path: Path, t: nat, s: nat, n: nat)
    requires s < n == |path|
  {
    forall d {:trigger path[d]} | t <= d < s ::
      Canon(h, m, path[..d], n) == h(ParentBytes(path[d], Canon(h, m, path[..d + 1], n), Empty(h)))
  }

  lemma DiveChained(h: Hash, m: Leaves, path: Path, leaf: Digest, t: nat, k: Path, s: nat, n: nat)
    requires SentinelIsUnique(h) && Fits(h, m, n) && leaf != Empty(h) && Dive(m.Keys, path, t, k, s, n)
    ensures Chained(h, m[path := leaf], path, t, s, n)
  {
    forall d {:trigger path[d]} | t <= d < s
      ensures Canon(h, m[path := leaf], path[..d], n)
           == h(ParentBytes(path[d], Canon(h, m[path := leaf], path[..d + 1], n), Empty(h)))
    {
      DiveChain(h, m, path, leaf, t, k, s, n, d);
    }
  }

  /** Chain rows from just above the branch back up to the neighbour's old top. */
  method ChainUp(h: Hash, ghost m: Leaves, ghost before: Rows, split: Rows, path: Path, t: nat, s: nat,
                 branch: Digest, n: nat)
    returns (rows: Rows)
    requires t <= s < n == |path| && Chained(h, m, path, t, s, n) && branch == Canon(h, m, path[..s], n)
    requires Rewritten(h, m, before, split, DiveDue(path, s, s), {}, n)
    ensures Rewritten(h, m, before, rows, DiveDue(path, t, s), {}, n)
  {
    var hash, d := branch, s;
    rows := split;
    while d > t
      invariant t <= d <= s && hash == Canon(h, m, path[..d], n)
      invariant Rewritten(h, m, before, rows, DiveDue(path, d, s), {}, n)
    {
      d := d - 1;
      hash := h(ParentBytes(path[d], hash, h([])));
      SplitMore(h, m, before, rows, path, d, s, n);
      rows := rows[path[..d] := hash];
    }
  }

  /** The leaf, the two branches of the split and the node they join in. */
  function SplitAt(rows: Rows, path: Path, leaf: Digest, k: Path, s: nat, mine: Digest, theirs: Digest,
                   hash: Digest): Rows
    requires s < |path| && s < |k|
  {
    rows[path := leaf][path[..s + 1] := mine][k[..s + 1] := theirs][path[..s] := hash]
  }

  lemma SplitHolds(h: Hash, m: Leaves, rows: Rows, path: Path, leaf: Digest, t: nat, k: Path, s: nat, n: nat)
    requires SentinelIsUnique(h) && Fits(h, m, n) && leaf != Empty(h) && Dive(m.Keys, path, t, k, s, n) && |k| == n
    ensures var mine, theirs := FoldTail(h, leaf, path, n, s + 1), FoldTail(h, m[k], k, n, s + 1);
            var hash := h(ParentBytes(path[s], mine, theirs));
            && hash == Canon(h, m[path := leaf], path[..s], n)
            && Rewritten(h, m[path := leaf], rows, SplitAt(rows, path, leaf, k, s, mine, theirs, hash),
                DiveDue(path, s, s), {}, n)
  {
    DiveEnds(h, m, path, leaf, t, k, s, n);
    SibOfNeighbor(path, k, s);
    var mine, theirs := FoldTail(h, leaf, path, n, s + 1), FoldTail(h, m[k], k, n, s + 1);
    SplitStart(h, m[path := leaf], rows, path, leaf, k, mine, theirs, h(ParentBytes(path[s], mine, theirs)), s, n);
  }

  /** The sibling of a slot whose path dives into the stem of another leaf. */
  method StemSibling(h: Hash, ghost m: Leaves, rows: Rows, path: Path, ghost t: nat, k: Path, n: nat, blank: seq<bool>)
    returns (present: seq<bool>, siblings: seq<Digest>)
    requires StemReady(h, m, rows, path, t, k, n, blank)
    ensures Seeded(h, m, path, n, present, siblings, t)
  {
    var s := FirstDiffBit(path, k);
    assert Parts(path, k, s);
    var tail := FoldTailLoop(h, At(h, rows, k), k, n, s + 1);
    present, siblings := blank[s := true], [tail];
  }

  ghost predicate Parts(path: Path, k: Path, s: nat) {
    |path| == |k| && s <= |path| && path[..s] == k[..s] && (s < |path| ==> path[s] != k[s])
  }

  /** Wherever the path parts from the neighbour, the neighbour's stem is the one sibling below its top. */
  ghost predicate StemReady(h: Hash, m: Leaves, rows: Rows, path: Path, t: nat, k: Path, n: nat, blank: seq<bool>) {
    && |path| == n == |k| == |blank|
    && forall s: nat {:trigger Parts(path, k, s)} | Parts(path, k, s) ::
         s < n && Seeded(h, m, path, n, blank[s := true], [FoldTail(h, At(h, rows, k), k, n, s + 1)], t)
  }

  lemma StemIsReady(h: Hash, m: Leaves, rows: Rows, tops: Tops, path: Path, t: nat, k: Path, n: nat, blank: seq<bool>)
    requires SentinelIsUnique(h) && Stored(h, m, rows, tops, n) && Resolved(m.Keys, path, DivesIntoUnary(t, k), n)
    requires |blank| == n && Unset(blank, n)
    ensures StemReady(h, m, rows, path, t, k, n, blank)
  {
    StemLength(m.Keys, path, t, k, n, h, m);
    forall s: nat {:trigger Parts(path, k, s)} | Parts(path, k, s)
      ensures s < n && Seeded(h, m, path, n, blank[s := true], [FoldTail(h, At(h, rows, k), k, n, s + 1)], t)
    {
      StemSeeded(h, m, rows, tops, path, t, k, s, n, blank);
    }
  }

  lemma StemLength(ks: set<Path>, path: Path, t: nat, k: Path, n: nat, h: Hash, m: Leaves)
    requires ks == m.Keys && Fits(h, m, n) && Resolved(ks, path, DivesIntoUnary(t, k), n)
    ensures |k| == n == |path|
  {
    assert k in ks;
  }

  lemma StemSeeded(h: Hash, m: Leaves, rows: Rows, tops: Tops, path: Path, t: nat, k: Path, s: nat, n: nat,
                   blank: seq<bool>)
    requires SentinelIsUnique(h) && Stored(h, m, rows, tops, n) && Resolved(m.Keys, path, DivesIntoUnary(t, k), n)
    requires |blank| == n == |k| && Unset(blank, n) && s <= n && path[..s] == k[..s] && (s < n ==> path[s] != k[s])
    ensures s < n && Seeded(h, m, path, n, blank[s := true], [FoldTail(h, At(h, rows, k), k, n, s + 1)], t)
  {
    DiveHolds(m.Keys, path, t, k, s, n);
    LeafRow(h, m, rows, tops, k, n);
    DiveSiblings(h, m, path, t, k, s, n, blank, blank[s := true]);
  }

  // ----- the siblings of a path

  ghost predicate Branching(ks: set<Path>, path: Path, below: nat)
    requires below <= |path|
  {
    forall d {:trigger path[..d]} | 0 <= d < below :: Shared(ks, path[..d])
  }

  predicate Unset(present: seq<bool>, below: nat)
    requires below <= |present|
  {
    forall d {:trigger present[d]} | 0 <= d < below :: !present[d]
  }

  /** From depth `lo` on, the bits tell which siblings are non-empty. */
  ghost predicate Shown(h: Hash, m: Leaves, path: Path, n: nat, present: seq<bool>, lo: nat)
    requires lo <= |path| == n == |present|
  {
    forall d {:trigger present[d]} | lo <= d < n :: present[d] == (Canon(h, m, Sib(path, d), n) != Empty(h))
  }

  /** A proof that is complete from depth `below` on, and reads a branch row at each depth above. */
  ghost predicate Seeded(h: Hash, m: Leaves, path: Path, n: nat, present: seq<bool>, siblings: seq<Digest>, below: nat)
    requires |path| == n
  {
    && below <= n == |present| && Branching(m.Keys, path, below)
    && Shown(h, m, path, n, present, below) && Unset(present, below)
    && Siblings(h, m, path, n, n) == siblings + Siblings(h, m, path, below, n)
  }

  lemma AllShown(h: Hash, m: Leaves, path: Path, n: nat, present: seq<bool>)
    requires |path| == n == |present| && Shown(h, m, path, n, present, 0)
    ensures present == Bitmap(h, m, path, n)
  {
    forall d | 0 <= d < n ensures present[d] == Bitmap(h, m, path, n)[d] {}
  }

  lemma ShownStep(h: Hash, m: Leaves, path: Path, n: nat, present: seq<bool>, d: nat, next: seq<bool>)
    requires d < |path| == n == |present| && Unset(present, d + 1) && Shown(h, m, path, n, present, d + 1)
    requires next == if Canon(h, m, Sib(path, d), n) != Empty(h) then present[d := true] else present
    ensures Shown(h, m, path, n, next, d) && Unset(next, d)
  {
    forall e {:trigger next[e]} | d <= e < n ensures next[e] == (Canon(h, m, Sib(path, e), n) != Empty(h)) {
      assert present[e] == present[e];
    }
  }

  lemma SiblingsSplit(h: Hash, m: Leaves, path: Path, d: nat, n: nat, front: seq<Digest>)
    requires d < |path| == n
    ensures var s := Canon(h, m, Sib(path, d), n);
      front + Siblings(h, m, path, d + 1, n)
        == (if s != Empty(h) then front + [s] else front) + Siblings(h, m, path, d, n)
  {
    var s, rest := Canon(h, m, Sib(path, d), n), Siblings(h, m, path, d, n);
    if s != Empty(h) {
      assert front + ([s] + rest) == (front + [s]) + rest;
    } else {
      assert [] + rest == rest;
    }
  }

  /** No key off the path at depths `lo` to `hi - 1`: no siblings there. */
  ghost predicate Vacant(ks: set<Path>, path: Path, lo: nat, hi: nat)
    requires hi <= |path|
  {
    forall d {:trigger Sib(path, d)} | lo <= d < hi :: !Occupied(ks, Sib(path, d))
  }

  lemma {:induction false} SiblingsSkip(h: Hash, m: Leaves, path: Path, lo: nat, hi: nat, n: nat)
    requires lo <= hi <= |path| == n && Vacant(m.Keys, path, lo, hi)
    ensures Siblings(h, m, path, hi, n) == Siblings(h, m, path, lo, n)
    decreases hi
  {
    if lo < hi {
      CanonEmpty(h, m, Sib(path, hi - 1), n);
      SiblingsSplit(h, m, path, hi - 1, n, []);
      assert [] + Siblings(h, m, path, hi, n) == Siblings(h, m, path, hi, n);
      SiblingsSkip(h, m, path, lo, hi - 1, n);
    }
  }

  lemma VacantShown(h: Hash, m: Leaves, path: Path, lo: nat, n: nat, present: seq<bool>)
    requires lo <= |path| == n == |present| && Vacant(m.Keys, path, lo, n) && Unset(present, n)
    ensures Shown(h, m, path, n, present, lo)
  {
    forall d {:trigger present[d]} | lo <= d < n ensures present[d] == (Canon(h, m, Sib(path, d), n) != Empty(h)) {
      CanonEmpty(h, m, Sib(path, d), n);
    }
  }

  /** Nothing off the path from `below` on: nothing to collect there. */
  lemma VacantSeeded(h: Hash, m: Leaves, path: Path, below: nat, n: nat, present: seq<bool>)
    requires below <= |path| == n == |present| && Unset(present, n)
    requires Branching(m.Keys, path, below) && Vacant(m.Keys, path, below, n)
    ensures Seeded(h, m, path, n, present, [], below)
  {
    SiblingsSkip(h, m, path, below, n, n);
    VacantShown(h, m, path, below, n, present);
    assert [] + Siblings(h, m, path, below, n) == Siblings(h, m, path, below, n);
  }

  lemma EmptySiblings(h: Hash, m: Leaves, path: Path, n: nat, present: seq<bool>)
    requires m.Keys == {} && |path| == n == |present| && Unset(present, n)
    ensures Seeded(h, m, path, n, present, [], 0)
  {
    VacantSeeded(h, m, path, 0, n, present);
  }

  lemma ResidentSiblings(h: Hash, m: Leaves, path: Path, t: nat, n: nat, present: seq<bool>)
    requires Level(m.Keys, n) && Resolved(m.Keys, path, Resident(t), n) && |present| == n && Unset(present, n)
    ensures Seeded(h, m, path, n, present, [], t)
  {
    TopFacts(m.Keys, path, t, path);
    forall d {:trigger Sib(path, d)} | t <= d < n ensures !Occupied(m.Keys, Sib(path, d)) {
      AloneHasEmptySibling(m.Keys, path, t, d);
    }
    VacantSeeded(h, m, path, t, n, present);
  }

  lemma BesideSiblings(h: Hash, m: Leaves, path: Path, b: nat, n: nat, present: seq<bool>)
    requires Level(m.Keys, n) && Resolved(m.Keys, path, BranchAdjacent(b), n) && |present| == n && Unset(present, n)
    ensures Seeded(h, m, path, n, present, [], b + 1)
  {
    BesideBranching(m.Keys, path, b, n);
    BesideVacant(m.Keys, path, b, n);
    VacantSeeded(h, m, path, b + 1, n, present);
  }

  lemma BesideBranching(ks: set<Path>, path: Path, b: nat, n: nat)
    requires Resolved(ks, path, BranchAdjacent(b), n)
    ensures Branching(ks, path, b + 1)
  {
    forall d {:trigger path[..d]} | 0 <= d < b + 1 ensures Shared(ks, path[..d]) { SharedAbove(ks, path, d, b); }
  }

  lemma BesideVacant(ks: set<Path>, path: Path, b: nat, n: nat)
    requires Resolved(ks, path, BranchAdjacent(b), n)
    ensures Vacant(ks, path, b + 1, n)
  {
    forall d {:trigger Sib(path, d)} | b + 1 <= d < n ensures !Occupied(ks, Sib(path, d)) {
      if Occupied(ks, Sib(path, d)) { OccupiedAbove(ks, path, b, d); }
    }
  }

  lemma OccupiedAbove(ks: set<Path>, path: Path, b: nat, d: nat)
    requires b + 1 <= d < |path| && Occupied(ks, Sib(path, d))
    ensures Occupied(ks, path[..b + 1])
  {
    var k :| k in ks && Sib(path, d) <= k;
    assert path[..b + 1] == Sib(path, d)[..b + 1];
    assert path[..b + 1] <= k;
  }

  lemma DiveVacant(ks: set<Path>, path: Path, t: nat, k: Path, s: nat, n: nat)
    requires Dive(ks, path, t, k, s, n)
    ensures Branching(ks, path, t) && Vacant(ks, path, s + 1, n) && Vacant(ks, path, t, s)
  {
    DiveFacts(ks, path, t, k, s, n);
    forall d {:trigger Sib(path, d)} | t <= d < n && d != s ensures !Occupied(ks, Sib(path, d)) {
      DiveSiblingVacant(ks, path, t, k, s, n, d);
    }
  }

  lemma DiveSibling(h: Hash, m: Leaves, path: Path, t: nat, k: Path, s: nat, n: nat)
    requires SentinelIsUnique(h) && Fits(h, m, n) && Dive(m.Keys, path, t, k, s, n)
    ensures Canon(h, m, Sib(path, s), n) == FoldTail(h, m[k], k, n, s + 1) != Empty(h)
  {
    DiveFacts(m.Keys, path, t, k, s, n);
    CanonUnary(h, m, k, n, s + 1, n);
    assert k[..n] == k;
    assert k in m.Keys && Sib(path, s) <= k;
    CanonOccupied(h, m, Sib(path, s), n);
  }

  lemma DiveSiblings(h: Hash, m: Leaves, path: Path, t: nat, k: Path, s: nat, n: nat, blank: seq<bool>,
                     present: seq<bool>)
    requires SentinelIsUnique(h) && Fits(h, m, n) && Dive(m.Keys, path, t, k, s, n)
    requires |blank| == n && Unset(blank, n) && present == blank[s := true]
    ensures Seeded(h, m, path, n, present, [FoldTail(h, m[k], k, n, s + 1)], t)
  {
    DiveVacant(m.Keys, path, t, k, s, n);
    DiveSibling(h, m, path, t, k, s, n);
    SiblingsSkip(h, m, path, s + 1, n, n);
    SiblingsSkip(h, m, path, t, s, n);
    DiveShown(h, m, path, t, s, n, blank, present);
  }

  /** One sibling at the split, none elsewhere. */
  lemma DiveShown(h: Hash, m: Leaves, path: Path, t: nat, s: nat, n: nat, blank: seq<bool>, present: seq<bool>)
    requires t <= s < n == |path| == |blank| && Unset(blank, n) && present == blank[s := true]
    requires Vacant(m.Keys, path, s + 1, n) && Vacant(m.Keys, path, t, s) && Canon(h, m, Sib(path, s), n) != Empty(h)
    ensures Shown(h, m, path, n, present, t)
  {
    forall d {:trigger present[d]} | t <= d < n ensures present[d] == (Canon(h, m, Sib(path, d), n) != Empty(h)) {
      if d != s { CanonEmpty(h, m, Sib(path, d), n); }
    }
  }

  lemma SiblingProbe(h: Hash, m: Leaves, rows: Rows, tops: Tops, path: Path, t: nat, d: nat, n: nat)
    requires SentinelIsUnique(h) && Stored(h, m, rows, tops, n) && Resolved(m.Keys, path, Resident(t), n) && d < t
    ensures Occupied(m.Keys, Sib(path, d)) <==> At(h, rows, Sib(path, d)) != Empty(h)
  {
    TopFacts(m.Keys, path, t, path);
    SiblingRead(h, m, rows, tops, path, d, n);
  }

  lemma NoLeaf(h: Hash, m: Leaves, rows: Rows, tops: Tops, path: Path, n: nat)
    requires SentinelIsUnique(h) && Stored(h, m, rows, tops, n) && |path| == n && At(h, rows, path) == Empty(h)
    ensures m - {path} == m
  {
    if path in rows { RowsAreOccupied(h, m, rows, tops, n, path); }
    assert path in rows <==> path in m;
  }

  /** Reading a sibling's row tells whether any key lies there. */
  ghost predicate Telling(h: Hash, ks: set<Path>, rows: Rows, path: Path, t: nat)
    requires t <= |path|
  {
    forall d {:trigger Sib(path, d)} | 0 <= d < t ::
        Occupied(ks, Sib(path, d)) <==> At(h, rows, Sib(path, d)) != Empty(h)
  }

  lemma RowsTell(h: Hash, m: Leaves, rows: Rows, tops: Tops, path: Path, t: nat, n: nat)
    requires SentinelIsUnique(h) && Stored(h, m, rows, tops, n) && Resolved(m.Keys, path, Resident(t), n)
    ensures t <= |path| && Telling(h, m.Keys, rows, path, t)
  {
    forall d {:trigger Sib(path, d)} | 0 <= d < t
      ensures Occupied(m.Keys, Sib(path, d)) <==> At(h, rows, Sib(path, d)) != Empty(h)
    {
      SiblingProbe(h, m, rows, tops, path, t, d, n);
    }
  }

  /** The lowest depth from which, without `path`, its lone neighbour is on its own. */
  method NextTop(h: Hash, ghost ks: set<Path>, rows: Rows, path: Path, t: nat) returns (u: nat)
    requires 0 < t <= |path| && Telling(h, ks, rows, path, t)
    ensures u < t && (u == 0 || Occupied(ks, Sib(path, u - 1))) && Vacant(ks, path, u, t - 1)
  {
    u := t - 1;
    while u > 0
      invariant 0 <= u < t && Vacant(ks, path, u, t - 1)
    {
      if At(h, rows, Sib(path, u - 1)) != h([]) { return; }
      u := u - 1;
    }
  }

  lemma Merged(h: Hash, m: Leaves, rows: Rows, tops: Tops, path: Path, u: nat, k: Path, t: nat, n: nat)
    requires SentinelIsUnique(h) && Stored(h, m, rows, tops, n)
    requires u < t && Resolved(m.Keys, path, Resident(t), n) && Alone(m.Keys, Sib(path, t - 1), k)
    requires u == 0 || Occupied(m.Keys, Sib(path, u - 1))
    requires Vacant(m.Keys, path, u, t - 1)
    ensures |k| == n && Sib(path, t - 1) in rows
    ensures Placed(h, m - {path},
        (rows - DiveGone(path, u, t - 1, n))[path[..u] := FoldTail(h, At(h, rows, Sib(path, t - 1)), k, t, u)],
                   (tops - {path[..t], Sib(path, t - 1)})[path[..u] := k], path, u, n)
  {
    LeafRemoved(h, m, path, n);
    UndoDive(m.Keys, path, u, k, t, n);
    assert m.Keys - {path} == (m - {path}).Keys;
    DropDive(h, m, rows, tops, path, u, k, t - 1, n);
  }

  /** Beside a shared prefix the sibling row, or its absence, is the sibling's hash. */
  lemma SiblingRead(h: Hash, m: Leaves, rows: Rows, tops: Tops, path: Path, d: nat, n: nat)
    requires SentinelIsUnique(h) && Stored(h, m, rows, tops, n) && d < n == |path| && Shared(m.Keys, path[..d])
    ensures At(h, rows, Sib(path, d)) == Canon(h, m, Sib(path, d), n)
    ensures Occupied(m.Keys, Sib(path, d)) <==> At(h, rows, Sib(path, d)) != Empty(h)
  {
    assert Sib(path, d)[..d] == path[..d];
    ReadChild(h, m, rows, tops, [], 0, n, Sib(path, d));
    if Occupied(m.Keys, Sib(path, d)) {
      CanonOccupied(h, m, Sib(path, d), n);
    } else {
      CanonEmpty(h, m, Sib(path, d), n);
    }
  }

  lemma OnlyKey(h: Hash, m: Leaves, rows: Rows, tops: Tops, path: Path, n: nat)
    requires Stored(h, m, rows, tops, n) && Resolved(m.Keys, path, Resident(0), n)
    ensures Stored(h, m - {path}, rows - {path, path[..0]}, tops - {path[..0]}, n)
  {
    TopFacts(m.Keys, path, 0, path);
    assert m.Keys == {path} by { forall k | k in m.Keys ensures k == path { assert path[..0] <= k; } }
    assert (m - {path}).Keys == {};
    forall q | |q| <= n { FirstKey(path, n, q); }
    forall q ensures q !in rows - {path, path[..0]} {}
  }

  lemma UndoBeside(ks: set<Path>, path: Path, t: nat, n: nat)
    requires Level(ks, n) && 0 < t && Resolved(ks, path, Resident(t), n) && !Top(ks, Sib(path, t - 1))
    ensures Resolved(ks - {path}, path, BranchAdjacent(t - 1), n)
  {
    var sib, js := Sib(path, t - 1), ks - {path};
    TopFacts(ks, path, t, path);
    SiblingOccupied(ks, path, t, n);
    OccupiedIsAloneOrShared(ks, sib);
    assert sib[..t - 1] == path[..t - 1];
    assert js + {path} == ks;
    OffSib(path, t - 1);
    OffPath(js, path, sib, path);
    var a, b :| a in js && b in js && a != b && sib <= a && sib <= b;
    assert path[..t - 1] <= a && path[..t - 1] <= b;
  }

  /** The deepest branch above a top has the top on one side and other keys on the other. */
  lemma SiblingOccupied(ks: set<Path>, path: Path, t: nat, n: nat)
    requires Level(ks, n) && 0 < t && Resolved(ks, path, Resident(t), n)
    ensures Occupied(ks, Sib(path, t - 1))
  {
    TopFacts(ks, path, t, path);
    assert Shared(ks, path[..t - 1]);
    var a, b :| a in ks && b in ks && a != b && path[..t - 1] <= a && path[..t - 1] <= b;
    SidesSplit(path, t - 1, a);
    SidesSplit(path, t - 1, b);
  }

  lemma UndoDive(ks: set<Path>, path: Path, u: nat, k: Path, t: nat, n: nat)
    requires Level(ks, n) && u < t && Resolved(ks, path, Resident(t), n) && Alone(ks, Sib(path, t - 1), k)
    requires u == 0 || Occupied(ks, Sib(path, u - 1))
    requires forall d | u <= d < t - 1 :: !Occupied(ks, Sib(path, d))
    ensures Dive(ks - {path}, path, u, k, t - 1, n)
  {
    var js, sib := ks - {path}, Sib(path, t - 1);
    OffSib(path, t - 1);
    assert path[..t - 1] == sib[..t - 1] == k[..t - 1];
    assert k in js && k[t - 1] == sib[t - 1];
    assert path[..u] == path[..t - 1][..u] == k[..t - 1][..u];
    forall j | j in js && path[..u] <= j ensures j == k { OnlyNeighbor(ks, path, u, k, t, n, j, u); }
    assert Alone(js, path[..u], k);
    if u > 0 { SharedBelow(ks, path, u, k); }
  }

  lemma SharedBelow(ks: set<Path>, path: Path, u: nat, k: Path)
    requires 0 < u <= |path| && Occupied(ks, Sib(path, u - 1)) && k in ks - {path} && path[..u] <= k
    ensures Shared(ks - {path}, path[..u][..u - 1])
  {
    var j :| j in ks && Sib(path, u - 1) <= j;
    OffSib(path, u - 1);
    assert path[..u][..u - 1] == path[..u - 1];
    assert Sib(path, u - 1)[u - 1] != path[u - 1] && k[u - 1] == path[..u][u - 1] == path[u - 1];
    assert j[u - 1] == Sib(path, u - 1)[u - 1];
    assert path[..u - 1] <= j && path[..u - 1] <= k && j != k && j in ks - {path};
  }

  lemma {:induction false} OnlyNeighbor(ks: set<Path>, path: Path, u: nat, k: Path, t: nat, n: nat, j: Path, e: nat)
    requires Level(ks, n) && u <= e < t && Resolved(ks, path, Resident(t), n) && Alone(ks, Sib(path, t - 1), k)
    requires forall d | u <= d < t - 1 :: !Occupied(ks, Sib(path, d))
    requires j in ks && j != path && path[..e] <= j
    ensures j == k
    decreases t - e
  {
    TopFacts(ks, path, t, path);
    SidesSplit(path, e, j);
    if path[..e + 1] <= j && e + 1 < t {
      OnlyNeighbor(ks, path, u, k, t, n, j, e + 1);
    }
  }

  lemma RootRow(ks: set<Path>, n: nat)
    requires 1 <= n
    ensures Row(ks, [], n) <==> ks != {}
    ensures Occupied(ks, []) <==> ks != {}
  {
    if k :| k in ks {
      assert [] <= k;
      OccupiedIsAloneOrShared(ks, []);
    }
  }

  lemma PlacedAtRoot(h: Hash, m: Leaves, rows: Rows, tops: Tops, path: Path, n: nat)
    requires Placed(h, m, rows, tops, path, 0, n)
    ensures Stored(h, m, rows, tops, n)
  {
  }

  lemma EmptyStore(h: Hash, m: Leaves, rows: Rows, tops: Tops, n: nat)
    requires Stored(h, m, rows, tops, n) && m.Keys == {}
    ensures m == map[] && rows == map[] && tops == map[]
  {
    forall q ensures q !in rows && q !in tops {
      assert !Row(m.Keys, q, n) && !Top(m.Keys, q);
    }
  }

  lemma DiveHolds(ks: set<Path>, path: Path, t: nat, k: Path, s: nat, n: nat)
    requires Level(ks, n) && Resolved(ks, path, DivesIntoUnary(t, k), n)
    requires |k| == n && s <= n && path[..s] == k[..s] && (s < n ==> path[s] != k[s])
    ensures Dive(ks, path, t, k, s, n)
  {
    assert path[..n] == path && k[..n] == k;
  }

  lemma SibOfNeighbor(path: Path, k: Path, s: nat)
    requires s < |path| == |k| && path[..s] == k[..s] && path[s] != k[s]
    ensures Sib(path, s) == k[..s + 1]
  {
  }

  /** When a key's top is its leaf, writing the top again changes nothing. */
  lemma LeafTop(h: Hash, rows: Rows, path: Path, leaf: Digest, t: nat, n: nat)
    requires t <= n == |path|
    ensures t == n ==> rows[path := leaf][path[..t] := FoldTail(h, leaf, path, n, t)] == rows[path := leaf]
  {
    assert path[..n] == path;
  }

  lemma LeafRow(h: Hash, m: Leaves, rows: Rows, tops: Tops, k: Path, n: nat)
    requires Stored(h, m, rows, tops, n) && k in m
    ensures |k| == n && k in rows && rows[k] == m[k]
  {
  }

  lemma SplitStart(h: Hash, m: Leaves, rows: Rows, path: Path, leaf: Digest, k: Path, mine: Digest, theirs: Digest,
                   hash: Digest, s: nat, n: nat)
    requires s < n == |path| == |k| && path in m && m[path] == leaf && Sib(path, s) == k[..s + 1]
    requires mine == Canon(h, m, path[..s + 1], n) && theirs == Canon(h, m, Sib(path, s), n)
    requires hash == Canon(h, m, path[..s], n)
    ensures Rewritten(h, m, rows, SplitAt(rows, path, leaf, k, s, mine, theirs, hash), DiveDue(path, s, s), {}, n)
  {
    CanonLeaf(h, m, path, n);
    assert path[..n] == path;
    assert DiveDue(path, s, s) == {path, Sib(path, s), path[..s], path[..s + 1]};
  }

  lemma SplitMore(h: Hash, m: Leaves, rows: Rows, rows': Rows, path: Path, d: nat, s: nat, n: nat)
    requires d < s < n == |path| && Rewritten(h, m, rows, rows', DiveDue(path, d + 1, s), {}, n)
    ensures Rewritten(h, m, rows, rows'[path[..d] := Canon(h, m, path[..d], n)], DiveDue(path, d, s), {}, n)
  {
    RewriteOne(h, m, rows, rows', DiveDue(path, d + 1, s), {}, n, path[..d]);
    assert Run(path, d, s + 1) == Run(path, d + 1, s + 1) + {path[..d]};
    assert DiveDue(path, d, s) == DiveDue(path, d + 1, s) + {path[..d]};
  }
}
