/**
  Reachability along the edges of the index, and the breadth-first walks that compute it: `ancestors`,
  `descendants` and their capped forms are these two methods applied to one of the two edge maps.
 */
module DagPaths {
  import opened Dag

  /** There is a path of exactly `k` edges from `x` to `y`. */
  ghost predicate Steps(adj: map<Id, set<Id>>, x: Id, y: Id, k: nat) {
    if k == 0 then x == y else exists m :: m in At(adj, x) && Steps(adj, m, y, k - 1)
  }

  /** There is a path of 1 to `d` edges from `x` to `y`. */
  ghost predicate Within(adj: map<Id, set<Id>>, x: Id, y: Id, d: nat) {
    exists k: nat :: 1 <= k <= d && Steps(adj, x, y, k)
  }

  lemma {:induction false} StepsSnoc(adj: map<Id, set<Id>>, x: Id, y: Id, z: Id, k: nat)
    requires Steps(adj, x, y, k) && z in At(adj, y)
    ensures Steps(adj, x, z, k + 1)
  {
    if k == 0 {
      assert Steps(adj, z, z, 0);
    } else {
      var m :| m in At(adj, x) && Steps(adj, m, y, k - 1);
      StepsSnoc(adj, m, y, z, k - 1);
    }
  }

  lemma {:induction false} StepsLast(adj: map<Id, set<Id>>, x: Id, z: Id, k: nat) returns (y: Id)
    requires 1 <= k && Steps(adj, x, z, k)
    ensures Steps(adj, x, y, k - 1) && z in At(adj, y)
  {
    var m :| m in At(adj, x) && Steps(adj, m, z, k - 1);
    if k == 1 {
      y := x;
    } else {
      y := StepsLast(adj, m, z, k - 1);
    }
  }

  // ----- the state of a walk

  /** Every neighbour of `v`, which was reached in `d` edges, has been reached in at most one more. */
  ghost predicate Expanded(adj: map<Id, set<Id>>, dist: map<Id, nat>, v: Id, d: nat, max: nat) {
    d < max ==> forall w | w in At(adj, v) :: w in dist && dist[w] <= d + 1
  }

  /** The queue is ordered by depth, holds discovered records, and depths found so far stay within one of its head. */
  ghost predicate Queued(id: Id, dist: map<Id, nat>, queue: seq<(Id, nat)>, low: nat) {
    && (forall i {:trigger queue[i]} | 0 <= i < |queue| :: low <= queue[i].1)
    && (forall i {:trigger queue[i]} | 0 <= i < |queue| ::
          queue[i] == (id, 0) || (queue[i].0 in dist && queue[i].1 == dist[queue[i].0]))
    && (forall i, j {:trigger queue[i], queue[j]} | 0 <= i < j < |queue| :: queue[i].1 <= queue[j].1)
    && (forall v | v in dist :: dist[v] <= low + 1)
  }

  ghost predicate Reached(adj: map<Id, set<Id>>, id: Id, dist: map<Id, nat>, max: nat) {
    forall v | v in dist :: 1 <= dist[v] <= max && Steps(adj, id, v, dist[v])
  }

  /** Every record discovered is open (queued, or being expanded) or has been expanded. */
  ghost predicate Pending(adj: map<Id, set<Id>>, id: Id, dist: map<Id, nat>, open: set<(Id, nat)>, max: nat) {
    && (forall v | v in dist :: (v, dist[v]) in open || Expanded(adj, dist, v, dist[v], max))
    && ((id, 0) in open || Expanded(adj, dist, id, 0, max))
  }

  /** Once everything nearer than `bound` is expanded, everything within `bound` edges is discovered. */
  lemma {:induction false} FoundWithin(adj: map<Id, set<Id>>, id: Id, dist: map<Id, nat>, bound: nat, max: nat, v: Id,
                                       k: nat)
    requires forall u | u in dist && dist[u] < bound :: Expanded(adj, dist, u, dist[u], max)
    requires 0 < bound ==> Expanded(adj, dist, id, 0, max)
    requires 1 <= k <= bound && k <= max && Steps(adj, id, v, k)
    ensures v in dist && dist[v] <= k
  {
    var y := StepsLast(adj, id, v, k);
    if k > 1 {
      FoundWithin(adj, id, dist, bound, max, y, k - 1);
    }
  }

  /** Every record that can ever be discovered. */
  ghost function Universe(adj: map<Id, set<Id>>): set<Id> {
    set k, v | k in adj && v in adj[k] :: v
  }

  ghost function Left(adj: map<Id, set<Id>>, visited: set<Id>): nat {
    |Universe(adj) - visited|
  }

  lemma LeftShrinks(adj: map<Id, set<Id>>, a: set<Id>, b: set<Id>)
    requires a <= b <= Universe(adj)
    ensures Left(adj, b) < Left(adj, a) || a == b
  {
    if a != b {
      assert (Universe(adj) - b) + (b - a) == Universe(adj) - a;
      assert b - a != {};
    }
  }

  lemma ExpandedGrows(adj: map<Id, set<Id>>, dist: map<Id, nat>, v: Id, d: nat, max: nat, w: Id, e: nat)
    requires Expanded(adj, dist, v, d, max) && w !in dist
    ensures Expanded(adj, dist[w := e], v, d, max)
  {
  }

  lemma DiscoverPending(adj: map<Id, set<Id>>, id: Id, dist: map<Id, nat>, open: set<(Id, nat)>, max: nat, w: Id,
                        d: nat)
    requires Pending(adj, id, dist, open, max) && w !in dist
    ensures Pending(adj, id, dist[w := d], open + {(w, d)}, max)
  {
    var dist', open' := dist[w := d], open + {(w, d)};
    forall v | v in dist' ensures (v, dist'[v]) in open' || Expanded(adj, dist', v, dist'[v], max) {
      if v != w && Expanded(adj, dist, v, dist[v], max) {
        ExpandedGrows(adj, dist, v, dist[v], max, w, d);
      }
    }
    if Expanded(adj, dist, id, 0, max) {
      ExpandedGrows(adj, dist, id, 0, max, w, d);
    }
  }

  lemma DiscoverQueued(id: Id, dist: map<Id, nat>, queue: seq<(Id, nat)>, at: nat, w: Id)
    requires Queued(id, dist, queue, at) && w !in dist
    ensures Queued(id, dist[w := at + 1], queue + [(w, at + 1)], at)
  {
  }

  /** The walk, with `cur` at depth `at` being expanded. */
  ghost predicate Expanding(adj: map<Id, set<Id>>, id: Id, dist: map<Id, nat>, queue: seq<(Id, nat)>, cur: Id,
                            at: nat, max: nat) {
    && Reached(adj, id, dist, max) && Queued(id, dist, queue, at)
    && Pending(adj, id, dist, Elems(queue) + {(cur, at)}, max)
    && Steps(adj, id, cur, at)
  }

  /** The walk between two expansions. */
  ghost predicate Walking(adj: map<Id, set<Id>>, id: Id, dist: map<Id, nat>, queue: seq<(Id, nat)>, max: nat) {
    && Reached(adj, id, dist, max)
    && (queue != [] ==> Queued(id, dist, queue, queue[0].1))
    && Pending(adj, id, dist, Elems(queue), max)
  }

  lemma Start(adj: map<Id, set<Id>>, id: Id, max: nat)
    ensures Walking(adj, id, map[], [(id, 0)], max)
  {
    assert [(id, 0)][0] in Elems([(id, 0)]);
  }

  lemma Pop(adj: map<Id, set<Id>>, id: Id, dist: map<Id, nat>, queue: seq<(Id, nat)>, max: nat)
    requires Walking(adj, id, dist, queue, max) && queue != []
    ensures Expanding(adj, id, dist, queue[1..], queue[0].0, queue[0].1, max)
  {
    ElemsPop(queue);
    QueuedRest(id, dist, queue);
    assert queue[0] == (queue[0].0, queue[0].1);
  }

  lemma ElemsPop(queue: seq<(Id, nat)>)
    requires queue != []
    ensures Elems(queue) == Elems(queue[1..]) + {queue[0]}
  {
    assert queue == [queue[0]] + queue[1..];
  }

  lemma QueuedRest(id: Id, dist: map<Id, nat>, queue: seq<(Id, nat)>)
    requires queue != [] && Queued(id, dist, queue, queue[0].1)
    ensures Queued(id, dist, queue[1..], queue[0].1)
  {
  }

  lemma Discover(adj: map<Id, set<Id>>, id: Id, dist: map<Id, nat>, queue: seq<(Id, nat)>, cur: Id, at: nat, max: nat,
                 w: Id)
    requires Expanding(adj, id, dist, queue, cur, at, max) && at < max && w in At(adj, cur) && w !in dist
    ensures Expanding(adj, id, dist[w := at + 1], queue + [(w, at + 1)], cur, at, max)
  {
    StepsSnoc(adj, id, cur, w, at);
    DiscoverQueued(id, dist, queue, at, w);
    DiscoverPending(adj, id, dist, Elems(queue) + {(cur, at)}, max, w, at + 1);
    ElemsPush(queue, (w, at + 1), (cur, at));
  }

  lemma ElemsPush<T>(queue: seq<T>, x: T, c: T)
    ensures Elems(queue + [x]) + {c} == Elems(queue) + {c} + {x}
  {
    ElemsSnoc(queue + [x]);
    assert (queue + [x])[..|queue|] == queue;
  }

  lemma Close(adj: map<Id, set<Id>>, id: Id, dist: map<Id, nat>, queue: seq<(Id, nat)>, cur: Id, at: nat, max: nat)
    requires Expanding(adj, id, dist, queue, cur, at, max) && Expanded(adj, dist, cur, at, max)
    ensures Walking(adj, id, dist, queue, max)
  {
  }

  lemma Finish(adj: map<Id, set<Id>>, id: Id, dist: map<Id, nat>, max: nat)
    requires Walking(adj, id, dist, [], max)
    ensures forall v :: v in dist <==> Within(adj, id, v, max)
  {
    forall v, k: nat | 1 <= k <= max && Steps(adj, id, v, k) ensures v in dist {
      FoundWithin(adj, id, dist, max, max, v, k);
    }
  }

  /** Nothing left out is nearer than anything found. */
  ghost predicate Nearest(adj: map<Id, set<Id>>, id: Id, found: set<Id>, max: nat) {
    forall x, y, k: nat {:trigger x in found, Steps(adj, id, y, k)} |
      x in found && y !in found && 1 <= k <= max && Steps(adj, id, y, k) :: Within(adj, id, x, k)
  }

  lemma ExpandingIsNearest(adj: map<Id, set<Id>>, id: Id, dist: map<Id, nat>, queue: seq<(Id, nat)>, cur: Id, at: nat,
                           max: nat)
    requires Expanding(adj, id, dist, queue, cur, at, max)
    ensures Nearest(adj, id, dist.Keys, max)
  {
    forall u | u in dist && dist[u] < at ensures Expanded(adj, dist, u, dist[u], max) {
      assert (u, dist[u]) !in Elems(queue);
    }
    assert 0 < at ==> (id, 0) !in Elems(queue);
    forall x, y, k: nat | x in dist.Keys && y !in dist.Keys && 1 <= k <= max && Steps(adj, id, y, k)
      ensures Within(adj, id, x, k)
    {
      if k <= at {
        FoundWithin(adj, id, dist, at, max, y, k);
      }
      assert dist[x] <= k;
    }
  }

  // ----- the walks

  /** The inner loop of a walk: discover the neighbours of `current` that are new. */
  method Expand(adj: map<Id, set<Id>>, id: Id, max: nat, current: Id, depth: nat, visited: set<Id>,
        queue: seq<(Id, nat)>, ghost dist: map<Id, nat>)
    returns (visited': set<Id>, queue': seq<(Id, nat)>, ghost dist': map<Id, nat>)
    requires visited == dist.Keys <= Universe(adj)
    requires Expanding(adj, id, dist, queue, current, depth, max)
    ensures visited <= visited' == dist'.Keys <= Universe(adj)
    ensures visited' == visited ==> queue' == queue
    ensures Walking(adj, id, dist', queue', max)
  {
    visited', queue', dist' := visited, queue, dist;
    if depth < max && current in adj {
      var todo := adj[current];
      while todo != {}
        invariant todo <= adj[current]
        invariant visited <= visited' == dist'.Keys <= Universe(adj)
        invariant visited' == visited ==> queue' == queue
        invariant Expanding(adj, id, dist', queue', current, depth, max)
        invariant forall w | w in adj[current] - todo :: w in dist' && dist'[w] <= depth + 1
        decreases todo
      {
        var next :| next in todo;
        todo := todo - {next};
        if next !in visited' {
          Discover(adj, id, dist', queue', current, depth, max, next);
          visited', queue' := visited' + {next}, queue' + [(next, depth + 1)];
          dist' := dist'[next := depth + 1];
        }
      }
    }
    Close(adj, id, dist', queue', current, depth, max);
  }

  /** `ancestors` and `descendants`: exactly the records 1 to `max` edges away, on any graph, cyclic ones included. */
  method Walk(adj: map<Id, set<Id>>, id: Id, max: nat) returns (visited: set<Id>)
    ensures forall v :: v in visited <==> Within(adj, id, v, max)
  {
    visited := {};
    var queue: seq<(Id, nat)> := [(id, 0)];
    ghost var dist: map<Id, nat> := map[];
    Start(adj, id, max);
    while queue != []
      invariant visited == dist.Keys <= Universe(adj)
      invariant Walking(adj, id, dist, queue, max)
      decreases Left(adj, visited), |queue|
    {
      var (current, depth) := queue[0];
      Pop(adj, id, dist, queue, max);
      queue := queue[1..];
      ghost var before := visited;
      visited, queue, dist := Expand(adj, id, max, current, depth, visited, queue, dist);
      LeftShrinks(adj, before, visited);
    }
    Finish(adj, id, dist, max);
  }

  /** The inner loop of a capped walk: as `Expand`, but gives up once `cap` records are held. */
  method ExpandCapped(adj: map<Id, set<Id>>, id: Id, max: nat, cap: nat, current: Id, depth: nat, visited: set<Id>,
                      queue: seq<(Id, nat)>, ghost dist: map<Id, nat>)
    returns (visited': set<Id>, queue': seq<(Id, nat)>, full: bool, ghost dist': map<Id, nat>)
    requires visited == dist.Keys <= Universe(adj) && |visited| <= cap
    requires Expanding(adj, id, dist, queue, current, depth, max)
    ensures visited <= visited' == dist'.Keys <= Universe(adj)
    ensures !full ==> |visited'| <= cap && Walking(adj, id, dist', queue', max)
    ensures visited' == visited ==> queue' == queue
    ensures full ==> |visited'| == cap && Expanding(adj, id, dist', queue', current, depth, max)
  {
    visited', queue', full, dist' := visited, queue, false, dist;
    if depth < max && current in adj {
      var todo := adj[current];
      while todo != {}
        invariant todo <= adj[current]
        invariant visited <= visited' == dist'.Keys <= Universe(adj) && |visited'| <= cap
        invariant visited' == visited ==> queue' == queue
        invariant Expanding(adj, id, dist', queue', current, depth, max)
        invariant forall w | w in adj[current] - todo :: w in dist' && dist'[w] <= depth + 1
        decreases todo
      {
        var next :| next in todo;
        if |visited'| >= cap {
          full := true;
          return;
        }
        todo := todo - {next};
        if next !in visited' {
          Discover(adj, id, dist', queue', current, depth, max, next);
          visited', queue' := visited' + {next}, queue' + [(next, depth + 1)];
          dist' := dist'[next := depth + 1];
        }
      }
    }
    Close(adj, id, dist', queue', current, depth, max);
  }

  /**
    `ancestors_capped` and `descendants_capped`: never more than `cap` records; the whole answer when not
    truncated; and when truncated exactly `cap` records, none of them farther than one left out.
   */
  method WalkCapped(adj: map<Id, set<Id>>, id: Id, max: nat, cap: nat) returns (visited: set<Id>, truncated: bool)
    ensures |visited| <= cap
    ensures !truncated ==> forall v :: v in visited <==> Within(adj, id, v, max)
    ensures truncated ==> |visited| == cap && (forall v | v in visited :: Within(adj, id, v, max))
    ensures truncated ==> Nearest(adj, id, visited, max)
  {
    visited := {};
    var queue: seq<(Id, nat)> := [(id, 0)];
    ghost var dist: map<Id, nat> := map[];
    Start(adj, id, max);
    while queue != []
      invariant visited == dist.Keys <= Universe(adj) && |visited| <= cap
      invariant Walking(adj, id, dist, queue, max)
      decreases Left(adj, visited), |queue|
    {
      var (current, depth) := queue[0];
      Pop(adj, id, dist, queue, max);
      queue := queue[1..];
      ghost var before := visited;
      visited, queue, truncated, dist := ExpandCapped(adj, id, max, cap, current, depth, visited, queue, dist);
      if truncated {
        ExpandingIsNearest(adj, id, dist, queue, current, depth, max);
        return;
      }
      LeftShrinks(adj, before, visited);
    }
    truncated := false;
    Finish(adj, id, dist, max);
  }
}
