/**
  Which files hold only test code: the children declared behind a test attribute and everything
  declared, either way, below them.
 */
module TestFiles {

  type File(==, !new)

  type Children = map<File, set<File>>

  function Of(m: Children, f: File): set<File> {
    if f in m then m[f] else {}
  }

  function Below(gated: Children, plain: Children, f: File): set<File> {
    Of(gated, f) + Of(plain, f)
  }

  /** Every child of every file. */
  function Named(m: Children): set<File> {
    set p, f | p in m && f in m[p] :: f
  }

  function Universe(gated: Children, plain: Children): set<File> {
    Named(gated) + Named(plain)
  }

  /** The files declared below a file of the set are in the set. */
  ghost predicate Closed(gated: Children, plain: Children, s: set<File>) {
    forall f {:trigger f in s} | f in s :: Below(gated, plain, f) <= s
  }

  /** The set holds every child that a file of the set declares in this way. */
  ghost predicate ClosedUnder(m: Children, s: set<File>) {
    forall f, g {:trigger f in s, g in m[f]} | f in s && f in m && g in m[f] :: g in s
  }

  /** The set holds every child that any file declares in this way. */
  ghost predicate HoldsChildren(m: Children, s: set<File>) {
    forall f, g {:trigger g in m[f]} | f in m && g in m[f] :: g in s
  }

  /** Closed under both kinds of declaration, and holding the test-gated children. */
  ghost predicate TestClosed(gated: Children, plain: Children, s: set<File>) {
    HoldsChildren(gated, s) && ClosedUnder(gated, s) && ClosedUnder(plain, s)
  }

  lemma ClosedExactly(gated: Children, plain: Children, s: set<File>)
    ensures Named(gated) <= s && Closed(gated, plain, s) <==> TestClosed(gated, plain, s)
  {
    if TestClosed(gated, plain, s) {
      forall f | f in s ensures Below(gated, plain, f) <= s {
        forall g | g in Below(gated, plain, f) ensures g in s {}
      }
    }
    if Named(gated) <= s && Closed(gated, plain, s) {
      forall f, g | f in gated && g in gated[f] ensures g in s { assert g in Named(gated); }
      forall f, g | f in s && f in gated && g in gated[f] ensures g in s { assert g in Below(gated, plain, f); }
      forall f, g | f in s && f in plain && g in plain[f] ensures g in s { assert g in Below(gated, plain, f); }
    }
  }

  /** A chain of declarations from a test-gated child. */
  ghost predicate Chain(gated: Children, plain: Children, c: seq<File>) {
    && c != [] && c[0] in Named(gated)
    && forall i {:trigger c[i]} | 0 < i < |c| :: c[i] in Below(gated, plain, c[i - 1])
  }

  ghost predicate Reached(gated: Children, plain: Children, f: File) {
    exists c {:trigger Chain(gated, plain, c)} :: Chain(gated, plain, c) && c[|c| - 1] == f
  }

  lemma ReachedBelow(gated: Children, plain: Children, f: File, g: File)
    requires Reached(gated, plain, f) && g in Below(gated, plain, f)
    ensures Reached(gated, plain, g)
  {
    var c :| Chain(gated, plain, c) && c[|c| - 1] == f;
    var d := c + [g];
    forall i {:trigger d[i]} | 0 < i < |d| ensures d[i] in Below(gated, plain, d[i - 1]) {
      assert i < |c| ==> c[i] in Below(gated, plain, c[i - 1]);
    }
    assert Chain(gated, plain, d);
  }

  lemma SeedReached(gated: Children, plain: Children, f: File)
    requires f in Named(gated)
    ensures Reached(gated, plain, f)
  {
    assert Chain(gated, plain, [f]);
  }

  lemma {:induction false} ChainStays(gated: Children, plain: Children, c: seq<File>, s: set<File>, i: nat)
    requires Chain(gated, plain, c) && i < |c| && Named(gated) <= s && Closed(gated, plain, s)
    ensures c[i] in s
    decreases i
  {
    if i > 0 {
      ChainStays(gated, plain, c, s, i - 1);
      assert c[i] in Below(gated, plain, c[i - 1]);
    }
  }

  /** The reached files are the least closed set that holds the test-gated children. */
  lemma ReachedIsLeast(gated: Children, plain: Children, reached: set<File>)
    requires forall f {:trigger f in reached} :: f in reached <==> Reached(gated, plain, f)
    ensures TestClosed(gated, plain, reached)
    ensures forall s | TestClosed(gated, plain, s) :: reached <= s
  {
    forall f | f in Named(gated) ensures f in reached { SeedReached(gated, plain, f); }
    forall f, g | f in reached && g in Below(gated, plain, f) ensures g in reached { ReachedBelow(gated, plain, f, g); }
    ClosedExactly(gated, plain, reached);
    forall s, f | TestClosed(gated, plain, s) && f in reached ensures f in s {
      ClosedExactly(gated, plain, s);
      var c :| Chain(gated, plain, c) && c[|c| - 1] == f;
      ChainStays(gated, plain, c, s, |c| - 1);
    }
  }

  lemma BelowNamed(gated: Children, plain: Children, f: File)
    ensures Below(gated, plain, f) <= Universe(gated, plain)
  {
  }

  lemma Progress(universe: set<File>, excluded: set<File>, f: File)
    requires f in universe && f !in excluded
    ensures |universe - (excluded + {f})| < |universe - excluded|
  {
    assert universe - excluded == (universe - (excluded + {f})) + {f};
  }

  /** What is found so far: named files, all reached, and nothing below an excluded file is missed. */
  ghost predicate Working(gated: Children, plain: Children, excluded: set<File>, frontier: set<File>) {
    && Named(gated) <= excluded + frontier <= Universe(gated, plain)
    && (forall f {:trigger f in excluded} | f in excluded :: Below(gated, plain, f) <= excluded + frontier)
    && (forall f {:trigger Reached(gated, plain, f)} | f in excluded + frontier :: Reached(gated, plain, f))
  }

  lemma Begin(gated: Children, plain: Children)
    ensures Working(gated, plain, {}, Named(gated))
  {
    forall f {:trigger Reached(gated, plain, f)} | f in {} + Named(gated)
      ensures Reached(gated, plain, f)
    {
      SeedReached(gated, plain, f);
    }
  }

  lemma Seen(gated: Children, plain: Children, excluded: set<File>, frontier: set<File>, f: File)
    requires Working(gated, plain, excluded, frontier) && f in frontier && f in excluded
    ensures Working(gated, plain, excluded, frontier - {f})
  {
    assert excluded + (frontier - {f}) == excluded + frontier;
  }

  lemma Exclude(gated: Children, plain: Children, excluded: set<File>, frontier: set<File>, f: File)
    requires Working(gated, plain, excluded, frontier) && f in frontier
    ensures Working(gated, plain, excluded + {f}, frontier - {f} + Below(gated, plain, f))
  {
    var all := (excluded + {f}) + (frontier - {f} + Below(gated, plain, f));
    assert all == (excluded + frontier) + Below(gated, plain, f);
    BelowNamed(gated, plain, f);
    assert Reached(gated, plain, f);
    forall g {:trigger Reached(gated, plain, g)} | g in all ensures Reached(gated, plain, g) {
      if g !in excluded + frontier { ReachedBelow(gated, plain, f, g); }
    }
  }

  lemma Finish(gated: Children, plain: Children, excluded: set<File>)
    requires Working(gated, plain, excluded, {})
    ensures forall f {:trigger f in excluded} :: f in excluded <==> Reached(gated, plain, f)
  {
    assert excluded + {} == excluded;
    forall f {:trigger f in excluded} ensures f in excluded <==> Reached(gated, plain, f) {
      if Reached(gated, plain, f) {
        var c :| Chain(gated, plain, c) && c[|c| - 1] == f;
        ChainStays(gated, plain, c, excluded, |c| - 1);
      }
    }
  }

  /** Whatever order the frontier is popped in, the result is the files reached. */
  method TestOnlyFiles(gated: Children, plain: Children) returns (excluded: set<File>)
    ensures forall f {:trigger f in excluded} :: f in excluded <==> Reached(gated, plain, f)
    ensures TestClosed(gated, plain, excluded)
    ensures forall s | TestClosed(gated, plain, s) :: excluded <= s
  {
    excluded := {};
    var frontier := Named(gated);
    Begin(gated, plain);
    while frontier != {}
      invariant Working(gated, plain, excluded, frontier)
      decreases |Universe(gated, plain) - excluded|, |frontier|
    {
      var f :| f in frontier;
      if f in excluded {
        Seen(gated, plain, excluded, frontier, f);
        frontier := frontier - {f};
      } else {
        Exclude(gated, plain, excluded, frontier, f);
        Progress(Universe(gated, plain), excluded, f);
        frontier := frontier - {f} + Below(gated, plain, f);
        excluded := excluded + {f};
      }
    }
    Finish(gated, plain, excluded);
    ReachedIsLeast(gated, plain, excluded);
  }
}
