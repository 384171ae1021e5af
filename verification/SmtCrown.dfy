/**
  Which rows a compact store keeps.  A prefix has a row when two keys share it, or when it is the first
  prefix that a single key has to itself (that key's top); leaves always have one.  Adding or removing a
  key changes the rows along its own path only, as stated here case by case.
 */
module SmtCrown {
  import opened Smt
  import opened SmtTree

  ghost predicate Top(ks: set<Path>, q: Path) {
    && (exists k :: Alone(ks, q, k))
    && (q == [] || Shared(ks, q[..|q| - 1]))
  }

  ghost predicate Row(ks: set<Path>, q: Path, n: nat) {
    |q| <= n && if |q| == n then q in ks else Shared(ks, q) || Top(ks, q)
  }

  ghost predicate Level(ks: set<Path>, n: nat) {
    forall k | k in ks :: |k| == n
  }

  lemma SharedAbove(ks: set<Path>, path: Path, d: nat, e: nat)
    requires d <= e <= |path| && Shared(ks, path[..e])
    ensures Shared(ks, path[..d])
  {
    var k, k' :| k in ks && k' in ks && k != k' && path[..e] <= k && path[..e] <= k';
    assert path[..d] <= k && path[..d] <= k';
  }

  lemma AloneBelow(ks: set<Path>, q: Path, x: Path, k: Path)
    requires Alone(ks, q, k) && q <= x <= k
    ensures Alone(ks, x, k) && !Shared(ks, x)
  {
  }

  /** Below a shared prefix every occupied child has a row. */
  lemma ChildRow(ks: set<Path>, q: Path, x: Path, n: nat)
    requires Level(ks, n) && |x| == |q| + 1 <= n && q <= x && Shared(ks, q)
    ensures Occupied(ks, x) <==> Row(ks, x, n)
  {
    assert x[..|x| - 1] == q;
    if Occupied(ks, x) {
      OccupiedIsAloneOrShared(ks, x);
      if |x| == n {
        var k :| k in ks && x <= k;
        assert k == x;
      }
    }
    if Row(ks, x, n) && |x| == n { assert x <= x; }
  }

  /** Rows along a path form an unbroken run from the root. */
  lemma RowAbove(ks: set<Path>, path: Path, d: nat, e: nat, n: nat)
    requires Level(ks, n) && d <= e < n <= |path| && Row(ks, path[..e], n)
    ensures Row(ks, path[..d], n)
  {
    if d < e {
      if Shared(ks, path[..e]) {
        SharedAbove(ks, path, d, e);
      } else {
        assert path[..e][..e - 1] == path[..e - 1];
        SharedAbove(ks, path, d, e - 1);
      }
    }
  }

  /** A key's top, and the shared run above it. */
  lemma TopFacts(ks: set<Path>, path: Path, t: nat, k: Path)
    requires t <= |path| && Top(ks, path[..t]) && k in ks && path[..t] <= k
    ensures Alone(ks, path[..t], k)
    ensures forall e | 0 <= e < t :: Shared(ks, path[..e])
  {
    if t > 0 {
      assert path[..t][..t - 1] == path[..t - 1];
      forall e | 0 <= e < t ensures Shared(ks, path[..e]) { SharedAbove(ks, path, e, t - 1); }
    }
  }

  // ----- adding the key `path` to the keys `ks`

  lemma OffPath(ks: set<Path>, path: Path, q: Path, k: Path)
    requires !(q <= path)
    ensures Shared(ks + {path}, q) <==> Shared(ks, q)
    ensures Alone(ks + {path}, q, k) <==> Alone(ks, q, k)
    ensures Occupied(ks + {path}, q) <==> Occupied(ks, q)
  {
    if Shared(ks, q) {
      var a, b :| a in ks && b in ks && a != b && q <= a && q <= b;
      assert a in ks + {path} && b in ks + {path};
    }
  }

  lemma OnPath(ks: set<Path>, path: Path, q: Path)
    requires path !in ks && q <= path
    ensures Shared(ks + {path}, q) <==> Occupied(ks, q)
    ensures (exists k :: Alone(ks + {path}, q, k)) <==> !Occupied(ks, q)
    ensures !Occupied(ks, q) ==> Alone(ks + {path}, q, path)
  {
    if Occupied(ks, q) {
      var k :| k in ks && q <= k;
      assert k in ks + {path} && path in ks + {path};
      forall j | Alone(ks + {path}, q, j) ensures false {}
    } else {
      assert Alone(ks + {path}, q, path);
    }
  }

  lemma TopOnPath(ks: set<Path>, path: Path, e: nat)
    requires path !in ks && e <= |path|
    ensures Top(ks + {path}, path[..e]) <==> !Occupied(ks, path[..e]) && (e == 0 || Occupied(ks, path[..e - 1]))
  {
    OnPath(ks, path, path[..e]);
    if e > 0 {
      assert path[..e][..e - 1] == path[..e - 1];
      OnPath(ks, path, path[..e - 1]);
    }
  }

  lemma RowOnPath(ks: set<Path>, path: Path, e: nat, n: nat)
    requires path !in ks && e <= |path| == n
    ensures Row(ks + {path}, path[..e], n) <==> e == n || e == 0 || Occupied(ks, path[..e - 1])
  {
    TopOnPath(ks, path, e);
    OnPath(ks, path, path[..e]);
    if Occupied(ks, path[..e]) && e > 0 {
      var k :| k in ks && path[..e] <= k;
      assert path[..e - 1] <= k;
    }
    if e == n { assert path[..e] == path; }
  }

  /** Off the path, tops can only appear beside a prefix that was occupied but not shared. */
  lemma TopOffPath(ks: set<Path>, path: Path, q: Path)
    requires path !in ks && !(q <= path)
    ensures !(q[..|q| - 1] <= path) ==> (Top(ks + {path}, q) <==> Top(ks, q))
    ensures q[..|q| - 1] <= path ==> (Top(ks + {path}, q) <==> exists k :: Alone(ks, q, k))
  {
    var p := q[..|q| - 1];
    forall k { OffPath(ks, path, q, k); }
    if p <= path {
      OnPath(ks, path, p);
      if k :| Alone(ks, q, k) { assert p <= k; }
    } else {
      forall k { OffPath(ks, path, p, k); }
    }
  }

  /** A child of a path prefix that is off the path is the sibling. */
  lemma OffPathChild(path: Path, q: Path)
    requires !(q <= path) && q[..|q| - 1] <= path && |q| <= |path|
    ensures q == Sib(path, |q| - 1)
  {
    var e := |q| - 1;
    assert q == q[..e] + [q[e]] && path[..e] == q[..e];
    var longer := path[..e + 1];
    assert longer <= path && (q[e] == path[e] ==> q == longer);
  }

  lemma VacantBelow(ks: set<Path>, path: Path, d: nat, e: nat)
    requires d <= e <= |path| && !Occupied(ks, path[..d])
    ensures !Occupied(ks, path[..e])
  {
    forall k | k in ks && path[..e] <= k ensures path[..d] <= k {}
  }

  /** The first key of a tree. */
  lemma FirstKey(path: Path, n: nat, q: Path)
    requires |path| == n && |q| <= n
    ensures Top({path}, q) <==> q == []
    ensures Row({path}, q, n) <==> q == path || q == []
  {
    if q == [] { assert Alone({path}, q, path); }
  }

  /** `path` leaves the tree just below the shared prefix of length `b`: its top goes one level under it. */
  lemma BesideBranch(ks: set<Path>, path: Path, b: nat, n: nat, q: Path)
    requires Level(ks, n) && |path| == n && path !in ks && |q| <= n
    requires b < n && Shared(ks, path[..b]) && !Occupied(ks, path[..b + 1])
    ensures Top(ks + {path}, q) <==> Top(ks, q) || q == path[..b + 1]
    ensures Row(ks + {path}, q, n) <==> Row(ks, q, n) || q == path || q == path[..b + 1]
    ensures q <= path ==> (Row(ks, q, n) <==> |q| <= b)
  {
    if q <= path {
      var e := |q|;
      assert q == path[..e];
      if e <= b { SharedAbove(ks, path, e, b); } else { VacantBelow(ks, path, b + 1, e); }
      if e > b + 1 { VacantBelow(ks, path, b + 1, e - 1); }
      if 0 < e <= b + 1 { SharedAbove(ks, path, e - 1, b); }
      RowOnPath(ks, path, e, n);
      TopOnPath(ks, path, e);
    } else {
      BesideBranchOffPath(ks, path, b, n, q);
    }
  }

  lemma BesideBranchOffPath(ks: set<Path>, path: Path, b: nat, n: nat, q: Path)
    requires Level(ks, n) && |path| == n && path !in ks && |q| <= n && !(q <= path)
    requires b < n && Shared(ks, path[..b]) && !Occupied(ks, path[..b + 1])
    ensures Top(ks + {path}, q) <==> Top(ks, q)
    ensures Row(ks + {path}, q, n) <==> Row(ks, q, n)
  {
    TopOffPath(ks, path, q);
    forall k { OffPath(ks, path, q, k); }
    var e := |q| - 1;
    if q[..e] <= path {
      assert q[..e] == path[..e];
      if e <= b {
        SharedAbove(ks, path, e, b);
      } else {
        VacantBelow(ks, path, b + 1, e);
        forall k | k in ks && q <= k ensures path[..e] <= k {}
      }
    }
  }

  /** The prefixes of `path` of lengths `lo` to `hi`. */
  function Run(path: Path, lo: nat, hi: nat): set<Path>
    requires hi <= |path|
  {
    set e | lo <= e <= hi :: path[..e]
  }

  /** `path` follows the lone key `k` below its top at `t` and parts from it at bit `s`. */
  ghost predicate Dive(ks: set<Path>, path: Path, t: nat, k: Path, s: nat, n: nat) {
    && Level(ks, n) && |path| == n && path !in ks && k in ks
    && t <= s < n && Top(ks, path[..t]) && Alone(ks, path[..t], k)
    && path[..s] == k[..s] && path[s] != k[s]
  }

  lemma DiveFacts(ks: set<Path>, path: Path, t: nat, k: Path, s: nat, n: nat)
    requires Dive(ks, path, t, k, s, n)
    ensures forall e {:trigger path[..e]} | 0 <= e <= s :: Occupied(ks, path[..e])
    ensures forall e {:trigger path[..e]} | s < e <= n :: !Occupied(ks, path[..e])
    ensures forall e {:trigger path[..e]} | 0 <= e < t :: Shared(ks, path[..e])
    ensures forall e {:trigger path[..e]} | t <= e <= s :: Alone(ks, path[..e], k)
    ensures Sib(path, s) == k[..s + 1] && Alone(ks, Sib(path, s), k)
  {
    TopFacts(ks, path, t, k);
    forall e {:trigger path[..e]} | 0 <= e <= s ensures path[..e] <= k { assert path[..e] == path[..s][..e]; }
    DiveLeaves(ks, path, t, k, s, n);
    forall e {:trigger path[..e]} | s < e <= n ensures !Occupied(ks, path[..e]) { VacantBelow(ks, path, s + 1, e); }
    forall e {:trigger path[..e]} | t <= e <= s
      ensures Alone(ks, path[..e], k)
    {
      AloneBelow(ks, path[..t], path[..e], k);
    }
    AloneBelow(ks, path[..t], Sib(path, s), k);
  }

  /** Where the path leaves the lone key's stem it leaves the tree. */
  lemma DiveLeaves(ks: set<Path>, path: Path, t: nat, k: Path, s: nat, n: nat)
    requires Dive(ks, path, t, k, s, n)
    ensures !Occupied(ks, path[..s + 1]) && Sib(path, s) == k[..s + 1]
  {
    forall j | j in ks ensures path[..s + 1] <= j ==> path[..t] <= j && j[s] == path[s] {}
  }

  /** Splitting a lone key's region: the shared run grows down to `s`, and two new tops hang under it. */
  lemma DiveBranch(ks: set<Path>, path: Path, t: nat, k: Path, s: nat, n: nat, q: Path)
    requires Dive(ks, path, t, k, s, n) && |q| <= n
    ensures Top(ks + {path}, q) <==> (Top(ks, q) && q != path[..t]) || q == path[..s + 1] || q == Sib(path, s)
    ensures Row(ks + {path}, q, n) <==>
      Row(ks, q, n) || q == path || q == Sib(path, s) || (q <= path && t <= |q| <= s + 1)
    ensures q <= path ==> (Row(ks, q, n) <==> |q| <= t)
  {
    DiveFacts(ks, path, t, k, s, n);
    if q <= path {
      var e := |q|;
      assert q == path[..e];
      RowOnPath(ks, path, e, n);
      TopOnPath(ks, path, e);
      DiveBranchOnPath(ks, path, t, k, s, n, e);
    } else {
      DiveBranchOffPath(ks, path, t, k, s, n, q);
    }
  }

  lemma DiveBranchOnPath(ks: set<Path>, path: Path, t: nat, k: Path, s: nat, n: nat, e: nat)
    requires Dive(ks, path, t, k, s, n) && e <= n
    ensures Row(ks, path[..e], n) <==> e <= t
    ensures Top(ks, path[..e]) <==> e == t
    ensures path[..e] != Sib(path, s)
  {
    DiveFacts(ks, path, t, k, s, n);
    if t < e <= s + 1 {
      assert path[..e][..e - 1] == path[..e - 1];
      assert Alone(ks, path[..e - 1], k);
    }
    if e == s + 1 { assert path[..e][s] == path[s]; }
  }

  lemma DiveSiblingVacant(ks: set<Path>, path: Path, t: nat, k: Path, s: nat, n: nat, e: nat)
    requires Dive(ks, path, t, k, s, n) && t <= e < n && e != s
    ensures !Occupied(ks, Sib(path, e))
  {
    if e < s {
      forall j | j in ks ensures Sib(path, e) <= j ==> path[..t] <= j && j[e] != path[e] {}
      assert k[e] == k[..s][e] == path[..s][e] == path[e];
    } else {
      DiveFacts(ks, path, t, k, s, n);
      forall j | j in ks ensures Sib(path, e) <= j ==> path[..e] <= j {}
    }
  }

  lemma DiveBranchOffPath(ks: set<Path>, path: Path, t: nat, k: Path, s: nat, n: nat, q: Path)
    requires Dive(ks, path, t, k, s, n) && |q| <= n && !(q <= path)
    ensures Top(ks + {path}, q) <==> Top(ks, q) || q == Sib(path, s)
    ensures Row(ks + {path}, q, n) <==> Row(ks, q, n) || q == Sib(path, s)
  {
    var e := |q| - 1;
    if q[..e] <= path {
      assert q[..e] == path[..e];
      OffPathChild(path, q);
      if e == s {
        DiveBranchAtSplit(ks, path, t, k, s, n);
      } else {
        DiveBranchBeside(ks, path, t, k, s, n, e);
      }
    } else {
      if |q| == s + 1 { assert Sib(path, s)[..s] == path[..s]; }
      DiveBranchElsewhere(ks, path, q, n);
    }
  }

  /** Away from the path nothing changes. */
  lemma DiveBranchElsewhere(ks: set<Path>, path: Path, q: Path, n: nat)
    requires path !in ks && |q| <= n == |path| && q != [] && !(q <= path) && !(q[..|q| - 1] <= path)
    ensures Top(ks + {path}, q) <==> Top(ks, q)
    ensures Row(ks + {path}, q, n) <==> Row(ks, q, n)
  {
    TopOffPath(ks, path, q);
    forall j { OffPath(ks, path, q, j); }
  }

  /** The sibling at the split becomes a top. */
  lemma DiveBranchAtSplit(ks: set<Path>, path: Path, t: nat, k: Path, s: nat, n: nat)
    requires Dive(ks, path, t, k, s, n)
    ensures Top(ks + {path}, Sib(path, s)) && Row(ks + {path}, Sib(path, s), n)
  {
    var q := Sib(path, s);
    DiveFacts(ks, path, t, k, s, n);
    OffPath(ks, path, q, k);
    assert q[..s] == path[..s] && k in ks + {path} && path in ks + {path} && path[..s] <= path && path[..s] <= k;
    assert s + 1 == n ==> q == k;
  }

  /** The other siblings of the path stay as they were. */
  lemma DiveBranchBeside(ks: set<Path>, path: Path, t: nat, k: Path, s: nat, n: nat, e: nat)
    requires Dive(ks, path, t, k, s, n) && e < n && e != s
    ensures Top(ks + {path}, Sib(path, e)) <==> Top(ks, Sib(path, e))
    ensures Row(ks + {path}, Sib(path, e), n) <==> Row(ks, Sib(path, e), n)
  {
    var q := Sib(path, e);
    assert q[e] != path[e];
    TopOffPath(ks, path, q);
    forall j { OffPath(ks, path, q, j); }
    if e < t {
      TopFacts(ks, path, t, k);
      assert q[..e] == path[..e];
    } else {
      DiveSiblingVacant(ks, path, t, k, s, n, e);
    }
  }
}
