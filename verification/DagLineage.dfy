/**
  Ancestry over whole runs: without external links `ancestors` and `descendants` are each other's
  converse, and strict inserts never close a cycle.
 */
module DagLineage {
  import opened Basics
  import opened Dag
  import opened DagIndices
  import opened DagPaths

  // ----- mirroring over runs

  predicate Internal(ops: seq<Op>) {
    forall op | op in ops :: !op.ExternalOp?
  }

  lemma RelinkMirrored(s: State, p: Id)
    requires Mirrored(s)
    ensures Mirrored(Relink(s, p))
  {
    var cs := At(s.orphans, p) * s.nodes;
    if cs != {} { AttachMirrored(s, Relink(s, p), p, cs); }
  }

  lemma {:induction false} RelinkAllMirrored(s: State, order: seq<Id>)
    requires Mirrored(s)
    ensures Mirrored(RelinkAll(s, order))
  {
    if order != [] {
      RelinkAllMirrored(s, order[..|order| - 1]);
      RelinkMirrored(RelinkAll(s, order[..|order| - 1]), order[|order| - 1]);
    }
  }

  lemma RemoveMirrored(s: State, r: State, id: Id)
    requires Sound(s) && Mirrored(s) && r == Remove(s, id)
    ensures Mirrored(r)
  {
    if id in s.nodes {
      RemoveEdges(s, id);
      forall p, c {:trigger p in At(r.parents, c)} | p in At(r.parents, c) ensures c in At(r.children, p) {
        assert p in At(s.parents, c);
      }
    }
  }

  lemma {:induction false} EvictAllMirrored(s: State, order: seq<Id>)
    requires Sound(s) && Mirrored(s)
    ensures Mirrored(EvictAll(s, order))
  {
    if order != [] {
      var t := EvictAll(s, order[..|order| - 1]);
      EvictAllMirrored(s, order[..|order| - 1]);
      EvictAllKeepsSound(s, order[..|order| - 1]);
      RemoveMirrored(t, Remove(t, order[|order| - 1]), order[|order| - 1]);
    }
  }

  lemma InsertMirrored(s: State, id: Id, ps: seq<Id>, ts: real, zone: Option<Zone>)
    requires Sound(s) && Mirrored(s) && id !in s.nodes
    ensures Mirrored(InsertTolerant(Register(s, id, zone), id, ps, ts))
  {
    RegisterKeepsZones(s, id, zone);
    ClaimAllEffect(Register(s, id, zone), ps, id);
    ClaimedMirrored(s, InsertTolerant(Register(s, id, zone), id, ps, ts), id, Elems(ps) * s.nodes);
  }

  lemma StepMirrored(s: State, op: Op)
    requires Sound(s) && Mirrored(s) && !op.ExternalOp?
    ensures Mirrored(Apply(s, op))
  {
    match op
    case InsertOp(id, ps, ts, zone) =>
      if Accepts(s, id, ps) {
        AcceptedInsertIsTolerant(Register(s, id, zone), id, ps, ts);
        InsertMirrored(s, id, ps, ts, zone);
      }
    case TolerantOp(id, ps, ts, zone) => if id !in s.nodes { InsertMirrored(s, id, ps, ts, zone); }
    case RelinkOp(p) => RelinkMirrored(s, p);
    case ReindexOp(order) => RelinkAllMirrored(s, order);
    case RemoveOp(id) => RemoveMirrored(s, Remove(s, id), id);
    case EvictOp(order) => EvictAllMirrored(s, order);
    case _ =>
  }

  lemma {:induction false} RunMirrored(ops: seq<Op>)
    requires LegalRun(EMPTY, ops) && Internal(ops)
    ensures Sound(Run(EMPTY, ops)) && Mirrored(Run(EMPTY, ops))
  {
    if ops == [] {
      assert ZoneIndex({}, map[]) == map[];
    } else {
      var rest, op := ops[..|ops| - 1], ops[|ops| - 1];
      RunMirrored(rest);
      assert op in ops;
      StepMirrored(Run(EMPTY, rest), op);
      StepKeepsSound(Run(EMPTY, rest), op);
    }
  }

  // ----- walking one edge map backwards is walking the other

  lemma {:induction false} StepsReverse(a: map<Id, set<Id>>, b: map<Id, set<Id>>, x: Id, y: Id, k: nat)
    requires forall p, c {:trigger p in At(a, c)} :: p in At(a, c) ==> c in At(b, p)
    requires Steps(a, x, y, k)
    ensures Steps(b, y, x, k)
  {
    if k > 0 {
      var m :| m in At(a, x) && Steps(a, m, y, k - 1);
      StepsReverse(a, b, m, y, k - 1);
      StepsSnoc(b, y, m, x, k - 1);
    }
  }

  /** `x` is among the ancestors of `y` exactly when `y` is among the descendants of `x`. */
  lemma AncestorsMirrorDescendants(ops: seq<Op>, x: Id, y: Id, d: nat)
    requires LegalRun(EMPTY, ops) && Internal(ops)
    ensures Within(Run(EMPTY, ops).parents, y, x, d) <==> Within(Run(EMPTY, ops).children, x, y, d)
  {
    var s := Run(EMPTY, ops);
    RunMirrored(ops);
    if Within(s.parents, y, x, d) {
      var k: nat :| 1 <= k <= d && Steps(s.parents, y, x, k);
      StepsReverse(s.parents, s.children, y, x, k);
    }
    if Within(s.children, x, y, d) {
      var k: nat :| 1 <= k <= d && Steps(s.children, x, y, k);
      StepsReverse(s.children, s.parents, x, y, k);
    }
  }

  // ----- strict inserts keep the graph acyclic

  /** No tolerant inserts and no external links. */
  predicate Strict(ops: seq<Op>) {
    forall op | op in ops :: !op.ExternalOp? && !op.TolerantOp?
  }

  /** `rank` grows strictly from parent to child, and stays below `bound`. */
  ghost predicate Ranked(s: State, rank: map<Id, nat>, bound: nat) {
    && s.nodes <= rank.Keys
    && (forall c | c in rank :: rank[c] < bound)
    && (forall p, c {:trigger p in At(s.parents, c)} | p in At(s.parents, c) ::
        p in rank && c in rank && rank[p] < rank[c])
  }

  lemma InsertRanked(s: State, t: State, id: Id, present: set<Id>, rank: map<Id, nat>, bound: nat)
    requires Sound(s) && Mirrored(s) && id !in s.nodes && present <= s.nodes && t.nodes == s.nodes + {id}
    requires t.parents == if present == {} then s.parents else s.parents[id := present]
    requires Ranked(s, rank, bound)
    ensures Ranked(t, rank[id := bound], bound + 1)
  {
    forall p, c {:trigger p in At(t.parents, c)} | p in At(t.parents, c)
      ensures p in rank[id := bound] && c in rank[id := bound] && rank[id := bound][p] < rank[id := bound][c]
    {
      if c != id {
        assert p in At(s.parents, c) && c in At(s.children, p);
      }
    }
  }

  lemma RemoveRanked(s: State, r: State, id: Id, rank: map<Id, nat>, bound: nat)
    requires Sound(s) && Ranked(s, rank, bound) && r == Remove(s, id)
    ensures Ranked(r, rank, bound)
  {
    if id in s.nodes { RemoveEdges(s, id); }
  }

  lemma {:induction false} EvictAllRanked(s: State, order: seq<Id>, rank: map<Id, nat>, bound: nat)
    requires Sound(s) && Ranked(s, rank, bound) && s.orphans == map[]
    ensures Ranked(EvictAll(s, order), rank, bound) && EvictAll(s, order).orphans == map[]
  {
    if order != [] {
      var t := EvictAll(s, order[..|order| - 1]);
      EvictAllRanked(s, order[..|order| - 1], rank, bound);
      EvictAllKeepsSound(s, order[..|order| - 1]);
      RemoveRanked(t, Remove(t, order[|order| - 1]), order[|order| - 1], rank, bound);
    }
  }

  lemma {:induction false} NothingToRelink(s: State, order: seq<Id>)
    requires s.orphans == map[]
    ensures RelinkAll(s, order) == s
  {
    if order != [] { NothingToRelink(s, order[..|order| - 1]); }
  }

  lemma StrictInsertRanked(s: State, id: Id, ps: seq<Id>, ts: real, zone: Option<Zone>, rank: map<Id, nat>, bound: nat)
    requires Sound(s) && Mirrored(s) && Ranked(s, rank, bound) && s.orphans == map[] && Accepts(s, id, ps)
    ensures Ranked(Insert(Register(s, id, zone), id, ps, ts), rank[id := bound], bound + 1)
    ensures Insert(Register(s, id, zone), id, ps, ts).orphans == map[]
  {
    var s1 := Register(s, id, zone);
    RegisterKeepsZones(s, id, zone);
    WireAllIsClaimAll(s1, ps, id);
    ClaimAllEffect(s1, ps, id);
    assert Elems(ps) - s.nodes == {};
    assert WireAll(s1, ps, id).orphans.Keys == {};
    InsertRanked(s, Insert(s1, id, ps, ts), id, Elems(ps) * s.nodes, rank, bound);
  }

  lemma StepRanked(s: State, op: Op, rank: map<Id, nat>, bound: nat)
    returns (rank': map<Id, nat>, bound': nat)
    requires Sound(s) && Mirrored(s) && Ranked(s, rank, bound) && s.orphans == map[]
    requires !op.ExternalOp? && !op.TolerantOp?
    ensures Ranked(Apply(s, op), rank', bound') && Apply(s, op).orphans == map[]
  {
    rank', bound' := rank, bound;
    match op
    case InsertOp(id, ps, ts, zone) =>
      if Accepts(s, id, ps) {
        StrictInsertRanked(s, id, ps, ts, zone, rank, bound);
        rank', bound' := rank[id := bound], bound + 1;
      }
    case ReindexOp(order) => NothingToRelink(s, order);
    case RemoveOp(id) => RemoveRanked(s, Remove(s, id), id, rank, bound);
    case EvictOp(order) => EvictAllRanked(s, order, rank, bound);
    case _ =>
  }

  lemma {:induction false} RunRanked(ops: seq<Op>) returns (rank: map<Id, nat>, bound: nat)
    requires LegalRun(EMPTY, ops) && Strict(ops)
    ensures Ranked(Run(EMPTY, ops), rank, bound) && Run(EMPTY, ops).orphans == map[]
  {
    if ops == [] {
      rank, bound := map[], 0;
    } else {
      var rest, op := ops[..|ops| - 1], ops[|ops| - 1];
      rank, bound := RunRanked(rest);
      assert op in ops;
      RunMirrored(rest);
      rank, bound := StepRanked(Run(EMPTY, rest), op, rank, bound);
    }
  }

  lemma {:induction false} RankDrops(s: State, rank: map<Id, nat>, bound: nat, x: Id, y: Id, k: nat)
    requires Ranked(s, rank, bound) && 1 <= k && Steps(s.parents, x, y, k)
    ensures x in rank && y in rank && rank[y] < rank[x]
  {
    var m :| m in At(s.parents, x) && Steps(s.parents, m, y, k - 1);
    if k > 1 { RankDrops(s, rank, bound, m, y, k - 1); }
  }

  /** In a strict run no record is its own ancestor, at any depth. */
  lemma StrictRunsAreAcyclic(ops: seq<Op>, x: Id, d: nat)
    requires LegalRun(EMPTY, ops) && Strict(ops)
    ensures !Within(Run(EMPTY, ops).parents, x, x, d)
  {
    var s := Run(EMPTY, ops);
    var rank, bound := RunRanked(ops);
    if Within(s.parents, x, x, d) {
      var k: nat :| 1 <= k <= d && Steps(s.parents, x, x, k);
      RankDrops(s, rank, bound, x, x, k);
      assert false;
    }
  }
}
