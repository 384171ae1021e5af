/**
  The compact (v2) store of the account tree: only the rows of SmtCrown.dfy are kept, each update or
  delete touches the rows along one path, and the root is always the canonical root of the leaves.
 */
module SmtStore {
  import opened Smt
  import opened SmtTree
  import opened SmtCrown

  type Rows = map<Path, Digest>
  type Tops = map<Path, Path>

  /** The rows are exactly those due, and hold the canonical hashes; each top names its key. */
  ghost predicate Stored(h: Hash, m: Leaves, rows: Rows, tops: Tops, n: nat) {
    Placed(h, m, rows, tops, [], 0, n)
  }

  /**
    `Stored`, except that the rows of `path` above `depth` may hold old hashes.  Those prefixes are all
    shared, so their rows are due.
   */
  ghost predicate Placed(h: Hash, m: Leaves, rows: Rows, tops: Tops, path: Path, depth: nat, n: nat) {
    && Fits(h, m, n) && depth <= |path|
    && (forall q {:trigger q in rows} :: q in rows <==> Row(m.Keys, q, n))
    && (forall q {:trigger rows[q]} | q in rows && !(q <= path && |q| < depth) ::
        |q| <= n && rows[q] == Canon(h, m, q, n))
    && (forall q {:trigger q in tops} :: q in tops <==> |q| <= n && Top(m.Keys, q))
    && (forall q {:trigger tops[q]} | q in tops :: Alone(m.Keys, q, tops[q]))
    && (forall e {:trigger path[..e]} | 0 <= e < depth :: Shared(m.Keys, path[..e]))
  }

  function At(h: Hash, rows: Rows, q: Path): Digest {
    if q in rows then rows[q] else Empty(h)
  }

  // ----- recomputing the rows above a change

  /** Under a shared prefix, reading a child row (or its absence) reads the canonical hash. */
  lemma ReadChild(h: Hash, m: Leaves, rows: Rows, tops: Tops, path: Path, depth: nat, n: nat, q: Path)
    requires SentinelIsUnique(h) && Placed(h, m, rows, tops, path, depth, n)
    requires 0 < |q| <= n && Shared(m.Keys, q[..|q| - 1]) && !(q <= path && |q| < depth)
    ensures At(h, rows, q) == Canon(h, m, q, n)
  {
    ChildRow(m.Keys, q[..|q| - 1], q, n);
    if q !in rows { CanonEmpty(h, m, q, n); }
  }

  lemma RecomputeHash(h: Hash, m: Leaves, rows: Rows, tops: Tops, path: Path, depth: nat, n: nat)
    requires SentinelIsUnique(h) && Placed(h, m, rows, tops, path, depth, n) && |path| == n && depth > 0
    ensures Join(h, At(h, rows, path[..depth - 1] + [false]), At(h, rows, path[..depth - 1] + [true]))
         == Canon(h, m, path[..depth - 1], n) != Empty(h)
  {
    var p := path[..depth - 1];
    assert Shared(m.Keys, p);
    forall b: bool ensures At(h, rows, p + [b]) == Canon(h, m, p + [b], n) {
      assert (p + [b])[..depth - 1] == p;
      ReadChild(h, m, rows, tops, path, depth, n, p + [b]);
    }
    var k :| k in m.Keys && p <= k;
    CanonOccupied(h, m, p, n);
  }

  lemma RecomputePlaced(h: Hash, m: Leaves, rows: Rows, tops: Tops, path: Path, depth: nat, n: nat, p: Path)
    requires Placed(h, m, rows, tops, path, depth, n) && |path| == n && depth > 0 && p == path[..depth - 1]
    ensures Placed(h, m, rows[p := Canon(h, m, p, n)], tops, path, depth - 1, n)
  {
    assert Shared(m.Keys, p) && Row(m.Keys, p, n) && p in rows;
    forall q | q <= path && |q| < depth && q != p ensures |q| < depth - 1 {
      assert q == path[..|q|];
    }
  }

  // ----- one change at a time

  /** `rows'` is `rows` without `gone` and with canonical hashes at `due`. */
  ghost predicate Rewritten(h: Hash, m: Leaves, rows: Rows, rows': Rows, due: set<Path>, gone: set<Path>, n: nat) {
    && rows'.Keys == rows.Keys - gone + due
    && (forall q {:trigger q in due} | q in due :: |q| <= n && rows'[q] == Canon(h, m, q, n))
    && (forall q {:trigger rows'[q]} | q in rows' && q !in due :: q in rows && rows'[q] == rows[q])
  }

  /** `m'` differs from `m` at `path` only. */
  ghost predicate SameElsewhere(m: Leaves, m': Leaves, path: Path) {
    forall k | k != path :: (k in m <==> k in m') && (k in m ==> m[k] == m'[k])
  }

  ghost predicate TopsOf(ks: set<Path>, tops: Tops, n: nat) {
    && (forall q {:trigger q in tops} :: q in tops <==> |q| <= n && Top(ks, q))
    && (forall q {:trigger tops[q]} | q in tops :: Alone(ks, q, tops[q]))
  }

  lemma PlaceBy(h: Hash, m: Leaves, m': Leaves, rows: Rows, tops: Tops, rows': Rows, tops': Tops,
                path: Path, depth: nat, n: nat, due: set<Path>, gone: set<Path>)
    requires Stored(h, m, rows, tops, n) && Fits(h, m', n) && |path| == n && depth <= n
    requires SameElsewhere(m, m', path) && Rewritten(h, m', rows, rows', due, gone, n) && TopsOf(m'.Keys, tops', n)
    requires RowsChange(m.Keys, m'.Keys, path, depth, n, due, gone)
    ensures Placed(h, m', rows', tops', path, depth, n)
  {
    forall q | q in rows' && !(q <= path && |q| < depth) ensures |q| <= n && rows'[q] == Canon(h, m', q, n) {
      if q !in due {
        assert q in rows && Row(m.Keys, q, n);
        assert rows[q] == Canon(h, m, q, n);
        assert !(q <= path);
        CanonLocal(h, m, m', q, n);
      }
    }
  }

  lemma RewriteOne(h: Hash, m: Leaves, rows: Rows, rows': Rows, due: set<Path>, gone: set<Path>, n: nat, q: Path)
    requires Rewritten(h, m, rows, rows', due, gone, n) && |q| <= n
    ensures Rewritten(h, m, rows, rows'[q := Canon(h, m, q, n)], due + {q}, gone, n)
  {
  }

  // ----- where a path meets the store

  datatype Site =
    | EmptyTree
    | Resident(top: nat)
    | DivesIntoUnary(top: nat, neighbor: Path)
    | BranchAdjacent(boundary: nat)

  ghost predicate Resolved(ks: set<Path>, path: Path, site: Site, n: nat) {
    match site
    case EmptyTree => ks == {}
    case Resident(t) => path in ks && t <= n == |path| && Top(ks, path[..t])
    case DivesIntoUnary(t, k) => path !in ks && t < n == |path| && Top(ks, path[..t]) && Alone(ks, path[..t], k)
    case BranchAdjacent(b) => path !in ks && b < n == |path| && Shared(ks, path[..b]) && !Occupied(ks, path[..b + 1])
  }

  /** What the deepest row above the leaf, and the marker on it, say about a path. */
  lemma Boundary(ks: set<Path>, path: Path, b: nat, n: nat)
    requires Level(ks, n) && b < n == |path| && Row(ks, path[..b], n)
    requires forall d {:trigger path[..d]} | b < d < n :: !Row(ks, path[..d], n)
    ensures Top(ks, path[..b]) <==> !Shared(ks, path[..b])
    ensures path in ks && !Top(ks, path[..b]) ==> Top(ks, path[..n])
    ensures path !in ks && !Top(ks, path[..b]) ==> !Occupied(ks, path[..b + 1])
  {
    assert path[..n] == path;
    assert path[..b + 1][..b] == path[..b];
    if Shared(ks, path[..b]) {
      ChildRow(ks, path[..b], path[..b + 1], n);
      if path in ks {
        assert path[..b + 1] <= path;
        OccupiedIsAloneOrShared(ks, path[..b + 1]);
      }
    }
  }

  lemma RowsAreOccupied(h: Hash, m: Leaves, rows: Rows, tops: Tops, n: nat, q: Path)
    requires SentinelIsUnique(h) && Stored(h, m, rows, tops, n) && q in rows
    ensures |q| <= n && rows[q] != Empty(h)
  {
    assert rows[q] == Canon(h, m, q, n) && Row(m.Keys, q, n);
    assert Occupied(m.Keys, q) by { if |q| == n { assert q <= q; } }
    CanonOccupied(h, m, q, n);
  }

  /** `path[..n]` is the leaf itself. */
  lemma CanonLeaf(h: Hash, m: Leaves, k: Path, n: nat)
    requires k in m && |k| == n
    ensures Canon(h, m, k[..n], n) == m[k]
  {
    assert k[..n] == k;
  }

  lemma PlaceFirst(h: Hash, path: Path, leaf: Digest, n: nat)
    requires SentinelIsUnique(h) && |path| == n && leaf != Empty(h)
    ensures Stored(h, map[path := leaf], map[path := leaf][[] := FoldTail(h, leaf, path, n, 0)], map[[] := path], n)
  {
    var m: Leaves := map[path := leaf];
    assert m.Keys == {path};
    forall q | |q| <= n
      ensures (Top(m.Keys, q) <==> q == []) && (Row(m.Keys, q, n) <==> q == path || q == [])
    {
      FirstKey(path, n, q);
    }
    assert Alone(m.Keys, [], path) && path[..0] == [];
    CanonUnary(h, m, path, n, 0, n);
    CanonLeaf(h, m, path, n);
    if n == 0 { assert path == []; }
  }

  /** The claims of `PlaceBy` that are about keys alone. */
  ghost predicate RowsChange(ks: set<Path>, ks': set<Path>, path: Path, depth: nat, n: nat, due: set<Path>,
                             gone: set<Path>) {
    && depth <= |path|
    && (forall q {:trigger Row(ks', q, n)} :: Row(ks', q, n) <==> (Row(ks, q, n) && q !in gone) || q in due)
    && (forall q {:trigger Row(ks, q, n)} | Row(ks, q, n) && q !in gone && q !in due && q <= path :: |q| < depth)
    && (forall e {:trigger path[..e]} | 0 <= e < depth :: Shared(ks', path[..e]))
  }

  lemma ResidentRows(ks: set<Path>, path: Path, t: nat, n: nat)
    requires Resolved(ks, path, Resident(t), n)
    ensures RowsChange(ks, ks, path, t, n, {path, path[..t]}, {})
  {
    TopFacts(ks, path, t, path);
    assert path[..n] == path;
    forall q | Row(ks, q, n) && q !in {path, path[..t]} && q <= path ensures |q| < t {
      assert q == path[..|q|];
      if |q| > t { NoRowInside(ks, path, t, q, n); }
    }
  }

  /** A lone key has no rows between its top and its leaf. */
  lemma NoRowInside(ks: set<Path>, path: Path, t: nat, q: Path, n: nat)
    requires t < |q| < n == |path| && q == path[..|q|] && Alone(ks, path[..t], path)
    ensures !Row(ks, q, n)
  {
    AloneBelow(ks, path[..t], q, path);
    AloneBelow(ks, path[..t], q[..|q| - 1], path);
  }

  /** Writing a lone key's leaf and top. */
  lemma RewriteTail(h: Hash, m: Leaves, rows: Rows, path: Path, t: nat, n: nat)
    requires SentinelIsUnique(h) && Fits(h, m, n) && t <= n == |path| && path in m && Alone(m.Keys, path[..t], path)
    ensures Rewritten(h, m, rows, rows[path := m[path]][path[..t] := FoldTail(h, m[path], path, n, t)],
        {path, path[..t]}, {}, n)
  {
    CanonUnary(h, m, path, n, t, n);
    CanonLeaf(h, m, path, n);
    assert path[..n] == path;
  }

  lemma LeafAdded(h: Hash, m: Leaves, path: Path, leaf: Digest, n: nat)
    requires Fits(h, m, n) && |path| == n && leaf != Empty(h)
    ensures Fits(h, m[path := leaf], n) && SameElsewhere(m, m[path := leaf], path)
    ensures m[path := leaf].Keys == m.Keys + {path} && Level(m.Keys, n) && Level(m.Keys + {path}, n)
    ensures path in m ==> m[path := leaf].Keys == m.Keys
  {
  }

  lemma StoredTops(h: Hash, m: Leaves, rows: Rows, tops: Tops, n: nat)
    requires Stored(h, m, rows, tops, n)
    ensures Level(m.Keys, n) && TopsOf(m.Keys, tops, n)
  {
  }

  /** A leaf written with the top row of its stem. */
  lemma PlaceTail(h: Hash, m: Leaves, m': Leaves, rows: Rows, tops: Tops, tops': Tops, path: Path, leaf: Digest,
                  t: nat, n: nat)
    requires SentinelIsUnique(h) && Stored(h, m, rows, tops, n) && leaf != Empty(h) && m' == m[path := leaf]
    requires t <= n == |path| && Alone(m'.Keys, path[..t], path) && TopsOf(m'.Keys, tops', n)
    requires RowsChange(m.Keys, m'.Keys, path, t, n, {path, path[..t]}, {})
    ensures Placed(h, m', rows[path := leaf][path[..t] := FoldTail(h, leaf, path, n, t)], tops', path, t, n)
  {
    LeafAdded(h, m, path, leaf, n);
    RewriteTail(h, m', rows, path, t, n);
    PlaceBy(h, m, m', rows, tops, rows[path := leaf][path[..t] := FoldTail(h, leaf, path, n, t)], tops', path, t, n,
        {path, path[..t]}, {});
  }

  lemma PlaceResident(h: Hash, m: Leaves, rows: Rows, tops: Tops, path: Path, leaf: Digest, t: nat, n: nat)
    requires SentinelIsUnique(h) && Stored(h, m, rows, tops, n) && leaf != Empty(h)
    requires Resolved(m.Keys, path, Resident(t), n)
    ensures Placed(h, m[path := leaf], rows[path := leaf][path[..t] := FoldTail(h, leaf, path, n, t)], tops, path, t, n)
  {
    StoredTops(h, m, rows, tops, n);
    assert m[path := leaf].Keys == m.Keys;
    TopFacts(m.Keys, path, t, path);
    ResidentRows(m.Keys, path, t, n);
    PlaceTail(h, m, m[path := leaf], rows, tops, tops, path, leaf, t, n);
  }

  lemma BesideRows(ks: set<Path>, path: Path, b: nat, n: nat)
    requires Level(ks, n) && Resolved(ks, path, BranchAdjacent(b), n)
    ensures RowsChange(ks, ks + {path}, path, b + 1, n, {path, path[..b + 1]}, {})
    ensures RowsChange(ks + {path}, ks, path, b + 1, n, {}, {path, path[..b + 1]})
  {
    forall q | |q| <= n
      ensures Row(ks + {path}, q, n) <==> Row(ks, q, n) || q in {path, path[..b + 1]}
      ensures q <= path ==> (Row(ks, q, n) <==> |q| <= b)
    {
      BesideBranch(ks, path, b, n, q);
    }
    forall e | 0 <= e < b + 1 ensures Shared(ks, path[..e]) && Shared(ks + {path}, path[..e]) {
      SharedAbove(ks, path, e, b);
      OnPath(ks, path, path[..e]);
    }
  }

  lemma PlaceBeside(h: Hash, m: Leaves, rows: Rows, tops: Tops, path: Path, leaf: Digest, b: nat, n: nat)
    requires SentinelIsUnique(h) && Stored(h, m, rows, tops, n) && leaf != Empty(h)
    requires Resolved(m.Keys, path, BranchAdjacent(b), n)
    ensures Placed(h, m[path := leaf], rows[path := leaf][path[..b + 1] := FoldTail(h, leaf, path, n, b + 1)],
                   tops[path[..b + 1] := path], path, b + 1, n)
  {
    StoredTops(h, m, rows, tops, n);
    BesideAlone(m.Keys, path, b, n);
    BesideRows(m.Keys, path, b, n);
    BesideTops(m.Keys, tops, path, b, n);
    assert m[path := leaf].Keys == m.Keys + {path};
    PlaceTail(h, m, m[path := leaf], rows, tops, tops[path[..b + 1] := path], path, leaf, b + 1, n);
  }

  lemma BesideAlone(ks: set<Path>, path: Path, b: nat, n: nat)
    requires Resolved(ks, path, BranchAdjacent(b), n)
    ensures Alone(ks + {path}, path[..b + 1], path)
  {
    OnPath(ks, path, path[..b + 1]);
  }

  lemma BesideTops(ks: set<Path>, tops: Tops, path: Path, b: nat, n: nat)
    requires Level(ks, n) && TopsOf(ks, tops, n) && Resolved(ks, path, BranchAdjacent(b), n)
    ensures TopsOf(ks + {path}, tops[path[..b + 1] := path], n)
  {
    var tops' := tops[path[..b + 1] := path];
    OnPath(ks, path, path[..b + 1]);
    forall q | |q| <= n
      ensures Top(ks + {path}, q) <==> Top(ks, q) || q == path[..b + 1]
    {
      BesideBranch(ks, path, b, n, q);
    }
    forall q | q in tops' ensures Alone(ks + {path}, q, tops'[q]) {
      if q != path[..b + 1] {
        assert Alone(ks, q, tops[q]);
        assert Top(ks + {path}, q);
        if q <= path { OnPath(ks, path, q); } else { OffPath(ks, path, q, tops[q]); }
      }
    }
  }

  lemma BesideTopsGone(ks: set<Path>, tops: Tops, path: Path, b: nat, n: nat)
    requires Level(ks, n) && Resolved(ks, path, BranchAdjacent(b), n) && TopsOf(ks + {path}, tops, n)
    ensures TopsOf(ks, tops - {path[..b + 1]}, n)
  {
    var tops' := tops - {path[..b + 1]};
    forall q {:trigger q in tops'} ensures q in tops' <==> |q| <= n && Top(ks, q) {
      if |q| <= n { BesideBranch(ks, path, b, n, q); }
    }
    forall q {:trigger tops'[q]} | q in tops' ensures Alone(ks, q, tops'[q]) {
      assert Alone(ks + {path}, q, tops[q]) && Top(ks, q);
      if q <= path { OnPath(ks, path, q); } else { OffPath(ks, path, q, tops[q]); }
    }
  }

  // ----- splitting a lone key's region, and undoing it

  /** The rows written when `path` dives: its leaf, the neighbour's new top, and the run down to its own top. */
  function DiveDue(path: Path, t: nat, s: nat): set<Path>
    requires s < |path|
  {
    {path, Sib(path, s)} + Run(path, t, s + 1)
  }

  /** The rows dropped when it is deleted again; the neighbour's top survives only as a leaf. */
  function DiveGone(path: Path, t: nat, s: nat, n: nat): set<Path>
    requires s < |path|
  {
    {path} + Run(path, t + 1, s + 1) + if s + 1 < n then {Sib(path, s)} else {}
  }

  lemma InDive(path: Path, t: nat, s: nat, n: nat, q: Path)
    requires s < n == |path|
    ensures q in DiveDue(path, t, s) <==> q == path || q == Sib(path, s) || (q <= path && t <= |q| <= s + 1)
    ensures q in DiveGone(path, t, s, n) <==>
      q == path || (q == Sib(path, s) && s + 1 < n) || (q <= path && t < |q| <= s + 1)
  {
    if q <= path { assert q == path[..|q|]; }
  }

  lemma DiveRows(ks: set<Path>, path: Path, t: nat, k: Path, s: nat, n: nat)
    requires Dive(ks, path, t, k, s, n)
    ensures RowsChange(ks, ks + {path}, path, t, n, DiveDue(path, t, s), {})
  {
    forall q {:trigger Row(ks + {path}, q, n)}
      ensures Row(ks + {path}, q, n) <==> Row(ks, q, n) || q in DiveDue(path, t, s)
    {
      InDive(path, t, s, n, q);
      if |q| <= n { DiveBranch(ks, path, t, k, s, n, q); }
    }
    forall q {:trigger Row(ks, q, n)} | Row(ks, q, n) && q !in DiveDue(path, t, s) && q <= path ensures |q| < t {
      InDive(path, t, s, n, q);
      DiveBranch(ks, path, t, k, s, n, q);
    }
    DiveFacts(ks, path, t, k, s, n);
    forall e {:trigger path[..e]} | 0 <= e < t ensures Shared(ks + {path}, path[..e]) { OnPath(ks, path, path[..e]); }
  }

  lemma DiveRowsGone(ks: set<Path>, path: Path, t: nat, k: Path, s: nat, n: nat)
    requires Dive(ks, path, t, k, s, n)
    ensures RowsChange(ks + {path}, ks, path, t, n, {path[..t]}, DiveGone(path, t, s, n))
  {
    forall q {:trigger Row(ks, q, n)}
      ensures Row(ks, q, n) <==> (Row(ks + {path}, q, n) && q !in DiveGone(path, t, s, n)) || q in {path[..t]}
    {
      if |q| <= n {
        DiveBranch(ks, path, t, k, s, n, q);
        DiveGoneRow(ks, path, t, k, s, n, q);
        InDive(path, t, s, n, q);
      }
    }
    forall q {:trigger Row(ks + {path}, q, n)}
      | Row(ks + {path}, q, n) && q !in DiveGone(path, t, s, n) && q !in {path[..t]} && q <= path
      ensures |q| < t
    {
      assert q == path[..|q|];
      InDive(path, t, s, n, q);
      DiveBranch(ks, path, t, k, s, n, q);
    }
    TopFacts(ks, path, t, k);
  }

  lemma DiveGoneRow(ks: set<Path>, path: Path, t: nat, k: Path, s: nat, n: nat, q: Path)
    requires Dive(ks, path, t, k, s, n) && |q| <= n
    ensures q in DiveGone(path, t, s, n) ==> !Row(ks, q, n)
    ensures Row(ks, path[..t], n)
    ensures q in DiveDue(path, t, s) && q !in DiveGone(path, t, s, n) && q != path[..t] ==> Row(ks, q, n)
  {
    DiveBranch(ks, path, t, k, s, n, path[..t]);
    InDive(path, t, s, n, q);
    if q <= path { DiveBranch(ks, path, t, k, s, n, q); }
    DiveSibRow(ks, path, t, k, s, n);
  }

  /** Beside the parting bit there is only the neighbour, whose top is higher up. */
  lemma DiveSibRow(ks: set<Path>, path: Path, t: nat, k: Path, s: nat, n: nat)
    requires Dive(ks, path, t, k, s, n)
    ensures Row(ks, Sib(path, s), n) <==> s + 1 == n
    ensures !Top(ks, Sib(path, s))
  {
    DiveFacts(ks, path, t, k, s, n);
    var q := Sib(path, s);
    assert q[..s] == path[..s] && Alone(ks, path[..s], k);
    if s + 1 == n { assert q == k; }
  }

  lemma DiveTops(ks: set<Path>, tops: Tops, path: Path, t: nat, k: Path, s: nat, n: nat)
    requires Dive(ks, path, t, k, s, n) && TopsOf(ks, tops, n)
    ensures TopsOf(ks + {path}, tops[path[..s + 1] := path][Sib(path, s) := k] - {path[..t]}, n)
  {
    var tops' := tops[path[..s + 1] := path][Sib(path, s) := k] - {path[..t]};
    DiveFacts(ks, path, t, k, s, n);
    DiveBranchOnPath(ks, path, t, k, s, n, s + 1);
    forall q {:trigger q in tops'} ensures q in tops' <==> |q| <= n && Top(ks + {path}, q) {
      if |q| <= n { DiveBranch(ks, path, t, k, s, n, q); }
    }
    forall q {:trigger tops'[q]} | q in tops' ensures Alone(ks + {path}, q, tops'[q]) {
      if q == path[..s + 1] {
        OnPath(ks, path, q);
      } else if q == Sib(path, s) {
        OffSib(path, s);
        OffPath(ks, path, q, k);
      } else {
        assert Alone(ks, q, tops[q]) && Top(ks + {path}, q);
        if q <= path { OnPath(ks, path, q); } else { OffPath(ks, path, q, tops[q]); }
      }
    }
  }

  lemma OffSib(path: Path, s: nat)
    requires s < |path|
    ensures !(Sib(path, s) <= path)
  {
    assert Sib(path, s)[s] != path[s];
  }

  lemma DiveTopsGone(ks: set<Path>, tops: Tops, path: Path, t: nat, k: Path, s: nat, n: nat)
    requires Dive(ks, path, t, k, s, n) && TopsOf(ks + {path}, tops, n)
    ensures TopsOf(ks, (tops - {path[..s + 1], Sib(path, s)})[path[..t] := k], n)
  {
    var tops' := (tops - {path[..s + 1], Sib(path, s)})[path[..t] := k];
    forall q {:trigger q in tops'} ensures q in tops' <==> |q| <= n && Top(ks, q) {
      DiveTopGone(ks, tops, path, t, k, s, n, q);
    }
    forall q {:trigger tops'[q]} | q in tops' ensures Alone(ks, q, tops'[q]) {
      if q != path[..t] { TopKeepsKey(ks, path, q, tops[q]); }
    }
  }

  lemma DiveTopGone(ks: set<Path>, tops: Tops, path: Path, t: nat, k: Path, s: nat, n: nat, q: Path)
    requires Dive(ks, path, t, k, s, n) && TopsOf(ks + {path}, tops, n)
    ensures q in (tops - {path[..s + 1], Sib(path, s)})[path[..t] := k] <==> |q| <= n && Top(ks, q)
  {
    DiveBranchOnPath(ks, path, t, k, s, n, s + 1);
    DiveSibRow(ks, path, t, k, s, n);
    if |q| <= n { DiveBranch(ks, path, t, k, s, n, q); }
  }

  /** A top that stays keeps its key when `path` goes. */
  lemma TopKeepsKey(ks: set<Path>, path: Path, q: Path, k: Path)
    requires path !in ks && Alone(ks + {path}, q, k) && Top(ks, q)
    ensures Alone(ks, q, k)
  {
    if q <= path { OnPath(ks, path, q); } else { OffPath(ks, path, q, k); }
  }

  // ----- the hashes along a dive

  lemma DiveEnds(h: Hash, m: Leaves, path: Path, leaf: Digest, t: nat, k: Path, s: nat, n: nat)
    requires SentinelIsUnique(h) && Fits(h, m, n) && leaf != Empty(h) && Dive(m.Keys, path, t, k, s, n)
    ensures var m' := m[path := leaf];
            var mine, theirs := Canon(h, m', path[..s + 1], n), Canon(h, m', Sib(path, s), n);
            && mine == FoldTail(h, leaf, path, n, s + 1) && theirs == FoldTail(h, m[k], k, n, s + 1)
            && Canon(h, m', path[..s], n) == h(ParentBytes(path[s], mine, theirs))
  {
    var m' := m[path := leaf];
    LeafAdded(h, m, path, leaf, n);
    DiveFacts(m.Keys, path, t, k, s, n);
    OnPath(m.Keys, path, path[..s + 1]);
    OffSib(path, s);
    OffPath(m.Keys, path, Sib(path, s), k);
    CanonUnary(h, m', path, n, s + 1, n);
    CanonUnary(h, m', k, n, s + 1, n);
    CanonLeaf(h, m', path, n);
    CanonLeaf(h, m', k, n);
    CanonParent(h, m', path, s, n);
    assert k in m'.Keys && Sib(path, s) <= k;
    CanonOccupied(h, m', Sib(path, s), n);
  }

  lemma DiveChain(h: Hash, m: Leaves, path: Path, leaf: Digest, t: nat, k: Path, s: nat, n: nat, d: nat)
    requires SentinelIsUnique(h) && Fits(h, m, n) && leaf != Empty(h) && Dive(m.Keys, path, t, k, s, n) && t <= d < s
    ensures Canon(h, m[path := leaf], path[..d], n)
         == h(ParentBytes(path[d], Canon(h, m[path := leaf], path[..d + 1], n), Empty(h)))
  {
    LeafAdded(h, m, path, leaf, n);
    DiveSiblingVacant(m.Keys, path, t, k, s, n, d);
    OffSib(path, d);
    OffPath(m.Keys, path, Sib(path, d), k);
    CanonUnaryStep(h, m[path := leaf], path, d, n);
  }

  lemma PlaceDive(h: Hash, m: Leaves, rows: Rows, tops: Tops, rows': Rows, path: Path, leaf: Digest, t: nat, k: Path,
                  s: nat, n: nat)
    requires Stored(h, m, rows, tops, n) && leaf != Empty(h) && Dive(m.Keys, path, t, k, s, n)
    requires Rewritten(h, m[path := leaf], rows, rows', DiveDue(path, t, s), {}, n)
    ensures Placed(h, m[path := leaf], rows', tops[path[..s + 1] := path][Sib(path, s) := k] - {path[..t]}, path, t, n)
  {
    LeafAdded(h, m, path, leaf, n);
    DiveRows(m.Keys, path, t, k, s, n);
    DiveTops(m.Keys, tops, path, t, k, s, n);
    PlaceBy(h, m, m[path := leaf], rows, tops, rows', tops[path[..s + 1] := path][Sib(path, s) := k] - {path[..t]},
            path, t, n, DiveDue(path, t, s), {});
  }

  // ----- deletion

  lemma LeafRemoved(h: Hash, m: Leaves, path: Path, n: nat)
    requires Fits(h, m, n) && path in m
    ensures Fits(h, m - {path}, n) && SameElsewhere(m, m - {path}, path)
    ensures (m - {path}).Keys + {path} == m.Keys && Level(m.Keys, n) && Level((m - {path}).Keys, n)
  {
  }

  /** The deepest branch above a key's top still branches without it. */
  lemma DropBeside(h: Hash, m: Leaves, rows: Rows, tops: Tops, path: Path, t: nat, n: nat)
    requires Stored(h, m, rows, tops, n) && path in m
    requires 0 < t && Resolved((m - {path}).Keys, path, BranchAdjacent(t - 1), n)
    ensures Placed(h, m - {path}, rows - {path, path[..t]}, tops - {path[..t]}, path, t, n)
  {
    var m' := m - {path};
    LeafRemoved(h, m, path, n);
    BesideRows(m'.Keys, path, t - 1, n);
    BesideTopsGone(m'.Keys, tops, path, t - 1, n);
    PlaceBy(h, m, m', rows, tops, rows - {path, path[..t]}, tops - {path[..t]}, path, t, n, {}, {path, path[..t]});
  }

  /** Without `path` its lone neighbour `k` has the region to itself from `u` on. */
  lemma DropDive(h: Hash, m: Leaves, rows: Rows, tops: Tops, path: Path, u: nat, k: Path, s: nat, n: nat)
    requires SentinelIsUnique(h) && Stored(h, m, rows, tops, n) && path in m
    requires Dive((m - {path}).Keys, path, u, k, s, n)
    ensures Sib(path, s) in rows
    ensures Placed(h, m - {path},
        (rows - DiveGone(path, u, s, n))[path[..u] := FoldTail(h, rows[Sib(path, s)], k, s + 1, u)],
                   (tops - {path[..s + 1], Sib(path, s)})[path[..u] := k], path, u, n)
  {
    var m' := m - {path};
    LeafRemoved(h, m, path, n);
    DropDiveHash(h, m, rows, tops, path, u, k, s, n);
    DiveRowsGone(m'.Keys, path, u, k, s, n);
    DiveTopsGone(m'.Keys, tops, path, u, k, s, n);
    PlaceBy(h, m, m', rows, tops,
        (rows - DiveGone(path, u, s, n))[path[..u] := FoldTail(h, rows[Sib(path, s)], k, s + 1, u)],
            (tops - {path[..s + 1], Sib(path, s)})[path[..u] := k], path, u, n, {path[..u]}, DiveGone(path, u, s, n));
  }

  lemma DropDiveHash(h: Hash, m: Leaves, rows: Rows, tops: Tops, path: Path, u: nat, k: Path, s: nat, n: nat)
    requires SentinelIsUnique(h) && Stored(h, m, rows, tops, n) && path in m
    requires Dive((m - {path}).Keys, path, u, k, s, n)
    ensures Sib(path, s) in rows && FoldTail(h, rows[Sib(path, s)], k, s + 1, u) == Canon(h, m - {path}, path[..u], n)
  {
    var m', q := m - {path}, Sib(path, s);
    LeafRemoved(h, m, path, n);
    DiveBranch(m'.Keys, path, u, k, s, n, q);
    assert q in rows && rows[q] == Canon(h, m, q, n);
    OffSib(path, s);
    CanonLocal(h, m, m', q, n);
    DiveTail(h, m', path, u, k, s, n);
  }

  lemma DiveTail(h: Hash, m: Leaves, path: Path, u: nat, k: Path, s: nat, n: nat)
    requires SentinelIsUnique(h) && Fits(h, m, n) && Dive(m.Keys, path, u, k, s, n)
    ensures FoldTail(h, Canon(h, m, Sib(path, s), n), k, s + 1, u) == Canon(h, m, path[..u], n)
  {
    DiveFacts(m.Keys, path, u, k, s, n);
    assert path[..u] == k[..u] by { assert path[..u] == path[..s][..u] && k[..u] == k[..s][..u]; }
    CanonUnary(h, m, k, s + 1, u, n);
  }
}
