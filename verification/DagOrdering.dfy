/**
  Sorting ids by a key, and why giving up the largest groups first gives up the fewest groups
  (`prune_orphan_edges`).
 */
module DagOrdering {
  import opened Dag

  ghost predicate Ascending(order: seq<Id>, key: map<Id, real>)
    requires Elems(order) <= key.Keys
  {
    forall i, j | 0 <= i < j < |order| :: order[i] in key && order[j] in key && key[order[i]] <= key[order[j]]
  }

  ghost predicate Smallest(x: Id, ids: set<Id>, key: map<Id, real>)
    requires ids <= key.Keys
  {
    x in ids && forall y | y in ids :: key[x] <= key[y]
  }

  lemma {:induction false} SmallestExists(ids: set<Id>, key: map<Id, real>) returns (x: Id)
    requires ids != {} && ids <= key.Keys
    ensures Smallest(x, ids, key)
  {
    x :| x in ids;
    if ids != {x} {
      var rest := SmallestExists(ids - {x}, key);
      x := if key[x] <= key[rest] then x else rest;
    }
  }

  /** The ids in order of their key; equal keys may come out in either order. */
  method SortBy(key: map<Id, real>) returns (order: seq<Id>)
    ensures Enumerates(order, key.Keys) && Ascending(order, key)
  {
    order := [];
    var todo := key.Keys;
    while todo != {}
      invariant todo <= key.Keys && Enumerates(order, key.Keys - todo) && Ascending(order, key)
      invariant forall i, y | 0 <= i < |order| && y in todo :: order[i] in key && key[order[i]] <= key[y]
      decreases todo
    {
      ghost var least := SmallestExists(todo, key);
      assert Smallest(least, todo, key);
      var x :| x in todo && forall y | y in todo :: key[x] <= key[y];
      ElemsSnoc(order + [x]);
      assert (order + [x])[..|order|] == order;
      forall i | 0 <= i < |order| ensures order[i] != x { assert order[i] in Elems(order); }
      order, todo := order + [x], todo - {x};
    }
  }

  lemma {:induction false} EnumeratesSize<T>(order: seq<T>, xs: set<T>)
    requires Enumerates(order, xs)
    ensures |order| == |xs|
  {
    if order != [] {
      var rest, x := order[..|order| - 1], order[|order| - 1];
      ElemsSnoc(order);
      assert x !in Elems(rest);
      EnumeratesSize(rest, xs - {x});
    }
  }

  // ----- the number of waiting edges

  ghost function WeightOf(m: map<Id, set<Id>>, ks: set<Id>): nat
    requires ks <= m.Keys
  {
    if ks == {} then 0 else var k :| k in ks; |m[k]| + WeightOf(m, ks - {k})
  }

  ghost function Weight(m: map<Id, set<Id>>): nat {
    WeightOf(m, m.Keys)
  }

  lemma {:induction false} WeightSplit(m: map<Id, set<Id>>, ks: set<Id>, k: Id)
    requires ks <= m.Keys && k in ks
    ensures WeightOf(m, ks) == |m[k]| + WeightOf(m, ks - {k})
  {
    var j :| j in ks && WeightOf(m, ks) == |m[j]| + WeightOf(m, ks - {j});
    if j != k {
      WeightSplit(m, ks - {j}, k);
      WeightSplit(m, ks - {k}, j);
      assert ks - {j} - {k} == ks - {k} - {j};
    }
  }

  lemma {:induction false} WeightLocal(m: map<Id, set<Id>>, m': map<Id, set<Id>>, ks: set<Id>)
    requires ks <= m.Keys && ks <= m'.Keys && forall k | k in ks :: m[k] == m'[k]
    ensures WeightOf(m, ks) == WeightOf(m', ks)
  {
    if ks != {} {
      var k :| k in ks;
      WeightSplit(m, ks, k);
      WeightSplit(m', ks, k);
      WeightLocal(m, m', ks - {k});
    }
  }

  /** Dropping groups drops exactly their edges. */
  lemma {:induction false} WeightWithout(m: map<Id, set<Id>>, ks: set<Id>)
    requires ks <= m.Keys
    ensures Weight(m - ks) + WeightOf(m, ks) == Weight(m)
  {
    if ks == {} {
      assert m - ks == m;
    } else {
      var k :| k in ks;
      WeightWithout(m, ks - {k});
      WeightSplit(m, ks, k);
      var wide := m - (ks - {k});
      WeightSplit(wide, wide.Keys, k);
      assert (m - ks).Keys == wide.Keys - {k};
      WeightLocal(wide, m - ks, wide.Keys - {k});
    }
  }

  // ----- largest first

  ghost predicate LargestFirst(order: seq<Id>, m: map<Id, set<Id>>) {
    && Enumerates(order, m.Keys)
    && forall i, j {:trigger order[i], order[j]} | 0 <= i < j < |order| :: |At(m, order[j])| <= |At(m, order[i])|
  }

  /** The weight of the first `j` groups of the list. */
  ghost function Front(m: map<Id, set<Id>>, order: seq<Id>, j: nat): nat
    requires j <= |order|
  {
    if j == 0 then 0 else Front(m, order, j - 1) + |At(m, order[j - 1])|
  }

  lemma {:induction false} FrontGrows(m: map<Id, set<Id>>, order: seq<Id>, i: nat, j: nat)
    requires i <= j <= |order|
    ensures Front(m, order, i) <= Front(m, order, j)
  {
    if i < j { FrontGrows(m, order, i, j - 1); }
  }

  lemma PrefixSnoc(order: seq<Id>, m: map<Id, set<Id>>, j: nat)
    requires LargestFirst(order, m) && j < |order|
    ensures order[j] in m && Elems(order[..j + 1]) == Elems(order[..j]) + {order[j]} && order[j] !in Elems(order[..j])
  {
    assert order[j] in Elems(order);
    ElemsSnoc(order[..j + 1]);
    assert order[..j + 1][..j] == order[..j];
  }

  /** One group more. */
  lemma OneGroup(m: map<Id, set<Id>>, ks: set<Id>, x: Id)
    requires ks <= m.Keys && x in ks
    ensures WeightOf(m, ks) == |At(m, x)| + WeightOf(m, ks - {x}) && |ks| == |ks - {x}| + 1
  {
    WeightSplit(m, ks, x);
    assert ks == (ks - {x}) + {x};
  }

  lemma WeightOfMore(m: map<Id, set<Id>>, ks: set<Id>, x: Id)
    requires ks <= m.Keys && x in m && x !in ks
    ensures WeightOf(m, ks + {x}) == WeightOf(m, ks) + |At(m, x)|
  {
    OneGroup(m, ks + {x}, x);
    assert ks + {x} - {x} == ks;
  }

  ghost function FrontSet(order: seq<Id>, j: nat): set<Id>
    requires j <= |order|
  {
    if j == 0 then {} else FrontSet(order, j - 1) + {order[j - 1]}
  }

  lemma {:induction false} FrontSetIs(order: seq<Id>, j: nat)
    requires j <= |order|
    ensures FrontSet(order, j) == Elems(order[..j])
  {
    if j > 0 {
      FrontSetIs(order, j - 1);
      ElemsSnoc(order[..j]);
      assert order[..j][..j - 1] == order[..j - 1];
    }
  }

  /** The group at `i` is there and not among those before it. */
  ghost predicate Fresh(m: map<Id, set<Id>>, order: seq<Id>, i: nat)
    requires i < |order|
  {
    order[i] in m && order[i] !in FrontSet(order, i)
  }

  lemma {:induction false} FrontSetWeight(m: map<Id, set<Id>>, order: seq<Id>, j: nat)
    requires j <= |order| && forall i: nat {:trigger Fresh(m, order, i)} | i < j :: Fresh(m, order, i)
    ensures FrontSet(order, j) <= m.Keys && WeightOf(m, FrontSet(order, j)) == Front(m, order, j)
  {
    if j > 0 {
      FrontSetWeight(m, order, j - 1);
      assert Fresh(m, order, j - 1);
      WeightOfMore(m, FrontSet(order, j - 1), order[j - 1]);
    }
  }

  lemma FrontIsWeight(m: map<Id, set<Id>>, order: seq<Id>, j: nat)
    requires LargestFirst(order, m) && j <= |order|
    ensures Elems(order[..j]) <= m.Keys && WeightOf(m, Elems(order[..j])) == Front(m, order, j)
  {
    forall i: nat {:trigger Fresh(m, order, i)} | i < j ensures Fresh(m, order, i) {
      PrefixSnoc(order, m, i);
      FrontSetIs(order, i);
    }
    FrontSetWeight(m, order, j);
    FrontSetIs(order, j);
  }

  /** No choice of groups outweighs equally many taken from the front of the list. */
  lemma LaterIsLighter(m: map<Id, set<Id>>, order: seq<Id>, i: nat, j: nat)
    requires LargestFirst(order, m) && i <= j < |order|
    ensures order[j] in m && |m[order[j]]| <= |At(m, order[i])|
  {
    assert order[j] in Elems(order);
  }

  lemma {:induction false} FrontIsHeaviest(m: map<Id, set<Id>>, order: seq<Id>, n: nat, ks: set<Id>)
    requires LargestFirst(order, m) && n <= |order| && ks <= m.Keys && ks <= Elems(order[..n])
    ensures |ks| <= n && WeightOf(m, ks) <= Front(m, order, |ks|)
  {
    if n == 0 {
      assert ks == {};
    } else {
      PrefixSnoc(order, m, n - 1);
      if order[n - 1] in ks {
        FrontIsHeaviest(m, order, n - 1, ks - {order[n - 1]});
        HeaviestNext(m, order, n, ks);
      } else {
        FrontIsHeaviest(m, order, n - 1, ks);
      }
    }
  }

  lemma HeaviestNext(m: map<Id, set<Id>>, order: seq<Id>, n: nat, ks: set<Id>)
    requires LargestFirst(order, m) && 0 < n <= |order| && ks <= m.Keys && order[n - 1] in ks
    requires var less := ks - {order[n - 1]}; |less| <= n - 1 && WeightOf(m, less) <= Front(m, order, |less|)
    ensures |ks| <= n && WeightOf(m, ks) <= Front(m, order, |ks|)
  {
    OneGroup(m, ks, order[n - 1]);
    LaterIsLighter(m, order, |ks| - 1, n - 1);
  }

  /** A front that only just reaches `target` is no larger than any other choice that reaches it. */
  lemma FewestGroups(m: map<Id, set<Id>>, order: seq<Id>, i: nat, target: nat, ks: set<Id>)
    requires LargestFirst(order, m) && 1 <= i <= |order| && Front(m, order, i - 1) < target
    requires ks <= m.Keys && WeightOf(m, ks) >= target
    ensures i <= |ks|
  {
    if |ks| < i {
      assert order[..|order|] == order;
      FrontIsHeaviest(m, order, |order|, ks);
      FrontGrows(m, order, |ks|, i - 1);
      assert false;
    }
  }
}
