/**
  Records may arrive in any order and more than once, with single-parent relinks mixed in: after one
  final `reindex_orphans` the index depends only on which records arrived, and no claimed edge is lost.
 */
module DagArrival {
  import opened Basics
  import opened Dag
  import opened DagIndices

  datatype Record = Record(claims: seq<Id>, ts: real, zone: Option<Zone>)

  // ----- the settled state, straight from the records

  predicate Claims(rs: map<Id, Record>, p: Id, c: Id) {
    c in rs && p in rs[c].claims
  }

  function Claimants(rs: map<Id, Record>, p: Id): set<Id> {
    set c | c in rs && Claims(rs, p, c)
  }

  function ClaimedIds(rs: map<Id, Record>): set<Id> {
    set c, p | c in rs && p in rs[c].claims :: p
  }

  function ClaimsPresent(rs: map<Id, Record>, c: Id): set<Id> {
    set p | p in rs && Claims(rs, p, c)
  }

  function Times(rs: map<Id, Record>): map<Id, real> {
    map c | c in rs :: rs[c].ts
  }

  function Zones(rs: map<Id, Record>): map<Id, Zone> {
    map c | c in rs && rs[c].zone.Some? :: rs[c].zone.value
  }

  /**
    Wired edges are the claims with both ends present, waiting edges the claims whose parent is absent;
    everything else follows from the records or from the graph.
   */
  function Settled(rs: map<Id, Record>): State {
    Rebuild(EMPTY.(
      children := map p | p in rs.Keys * ClaimedIds(rs) :: Claimants(rs, p),
      parents := map c | c in rs && ClaimsPresent(rs, c) != {} :: ClaimsPresent(rs, c),
      nodes := rs.Keys,
      timestamps := Times(rs),
      orphans := map p | p in ClaimedIds(rs) - rs.Keys :: Claimants(rs, p),
      zoneOf := Zones(rs)))
  }

  // ----- runs of arrivals

  /** Tolerant inserts and single-parent relinks, in any order. */
  predicate Arrival(ops: seq<Op>) {
    forall op | op in ops :: op.TolerantOp? || op.RelinkOp?
  }

  /** The records a run delivers; of several deliveries of one id the first counts. */
  function Delivered(ops: seq<Op>): map<Id, Record> {
    if ops == [] then map[]
    else
      var rs := Delivered(ops[..|ops| - 1]);
      match ops[|ops| - 1]
      case TolerantOp(id, ps, ts, zone) => if id in rs then rs else rs[id := Record(ps, ts, zone)]
      case _ => rs
  }

  ghost predicate NoEmptyGroup(m: map<Id, set<Id>>) {
    forall k | k in m :: m[k] != {}
  }

  /** Every claim is either wired or waiting, and nothing else is. */
  ghost predicate Kept(s: State, rs: map<Id, Record>) {
    forall p, c {:trigger Claims(rs, p, c)} :: Claims(rs, p, c) <==> c in At(s.children, p) || c in At(s.orphans, p)
  }

  ghost predicate Edges(s: State, rs: map<Id, Record>) {
    && Mirrored(s) && Kept(s, rs)
    && NoEmptyGroup(s.children) && NoEmptyGroup(s.parents) && NoEmptyGroup(s.orphans)
  }

  ghost predicate Booked(s: State, rs: map<Id, Record>) {
    && s.nodes == rs.Keys
    && s.timestamps == Times(rs) && s.zoneOf == Zones(rs)
    && s.finalized == map[] && s.epoch == 0
  }

  ghost predicate Arrived(s: State, rs: map<Id, Record>) {
    Sound(s) && Edges(s, rs) && Booked(s, rs)
  }

  lemma TolerantKeepsArrived(s: State, rs: map<Id, Record>, id: Id, r: Record)
    requires Arrived(s, rs) && id !in rs
    ensures Arrived(InsertTolerant(Register(s, id, r.zone), id, r.claims, r.ts), rs[id := r])
  {
    var s1 := Register(s, id, r.zone);
    TolerantKeepsSound(s, id, r.claims, r.ts, r.zone);
    RegisterKeepsZones(s, id, r.zone);
    var t := InsertTolerant(s1, id, r.claims, r.ts);
    TolerantKeepsEdges(s, s1, t, rs, id, r);
    TolerantKeepsBooked(s, s1, t, rs, id, r);
  }

  lemma TolerantKeepsEdges(s: State, s1: State, t: State, rs: map<Id, Record>, id: Id, r: Record)
    requires Edges(s, rs) && id !in rs && id !in s.nodes && id !in s.parents
    requires s1 == Register(s, id, r.zone) && s1.zoneTips == ZoneIndex(s1.tips, s1.zoneOf)
    requires t == InsertTolerant(s1, id, r.claims, r.ts)
    ensures Edges(t, rs[id := r])
  {
    var present, absent := Elems(r.claims) * s.nodes, Elems(r.claims) - s.nodes;
    TolerantWires(s, s1, t, id, r, present, absent);
    assert present + absent == Elems(r.claims);
    ArrivalKeepsEdges(s, t, rs, id, r, present, absent);
  }

  lemma TolerantWires(s: State, s1: State, t: State, id: Id, r: Record, present: set<Id>, absent: set<Id>)
    requires id !in s.nodes && id !in s.parents
    requires s1 == Register(s, id, r.zone) && s1.zoneTips == ZoneIndex(s1.tips, s1.zoneOf)
    requires t == InsertTolerant(s1, id, r.claims, r.ts)
    requires present == Elems(r.claims) * s.nodes && absent == Elems(r.claims) - s.nodes
    ensures Grown(s.children, t.children, present, id) && Grown(s.orphans, t.orphans, absent, id)
    ensures t.parents == if present == {} then s.parents else s.parents[id := present]
  {
    ClaimAllEffect(s1, r.claims, id);
  }

  lemma TolerantKeepsBooked(s: State, s1: State, t: State, rs: map<Id, Record>, id: Id, r: Record)
    requires Booked(s, rs) && id !in rs && id !in s.nodes && id !in s.parents
    requires s1 == Register(s, id, r.zone) && s1.zoneTips == ZoneIndex(s1.tips, s1.zoneOf)
    requires t == InsertTolerant(s1, id, r.claims, r.ts)
    ensures Booked(t, rs[id := r])
  {
    ClaimAllEffect(s1, r.claims, id);
    ArrivalBooks(s, t, rs, id, r);
  }

  lemma ArrivalBooks(s: State, t: State, rs: map<Id, Record>, id: Id, r: Record)
    requires Booked(s, rs) && id !in rs
    requires t.nodes == s.nodes + {id} && t.timestamps == s.timestamps[id := r.ts]
    requires t.zoneOf == Register(s, id, r.zone).zoneOf && t.finalized == s.finalized && t.epoch == s.epoch
    ensures Booked(t, rs[id := r])
  {
    assert t.timestamps == Times(rs[id := r]);
    assert t.zoneOf == Zones(rs[id := r]);
  }

  lemma ArrivalKeepsEdges(s: State, t: State, rs: map<Id, Record>, id: Id, r: Record, present: set<Id>, absent: set<Id>)
    requires Edges(s, rs) && id !in rs && id !in s.parents
    requires present + absent == Elems(r.claims)
    requires Grown(s.children, t.children, present, id) && Grown(s.orphans, t.orphans, absent, id)
    requires t.parents == if present == {} then s.parents else s.parents[id := present]
    ensures Edges(t, rs[id := r])
  {
    ClaimedMirrored(s, t, id, present);
    forall p, c {:trigger Claims(rs[id := r], p, c)}
      ensures Claims(rs[id := r], p, c) <==> c in At(t.children, p) || c in At(t.orphans, p)
    {
      assert Claims(rs, p, c) <==> c in At(s.children, p) || c in At(s.orphans, p);
      if c == id { assert p in r.claims <==> p in present + absent; }
    }
    GrownNoEmpty(s.children, t.children, present, id);
    GrownNoEmpty(s.orphans, t.orphans, absent, id);
  }

  lemma GrownNoEmpty(m: map<Id, set<Id>>, m': map<Id, set<Id>>, ks: set<Id>, v: Id)
    requires Grown(m, m', ks, v) && NoEmptyGroup(m)
    ensures NoEmptyGroup(m')
  {
    forall k | k in m' ensures m'[k] != {} {
      if k in ks {
        assert v in At(m', k);
      } else {
        var x :| x in m[k];
        assert x in At(m', k);
      }
    }
  }

  lemma RelinkKeepsArrived(s: State, rs: map<Id, Record>, p: Id)
    requires Arrived(s, rs) && Legal(s, RelinkOp(p))
    ensures Arrived(Relink(s, p), rs) && Relink(s, p).orphans == s.orphans - {p}
  {
    RelinkKeepsSound(s, p);
    RelinkKeepsEdges(s, Relink(s, p), rs, p);
  }

  lemma RelinkKeepsEdges(s: State, t: State, rs: map<Id, Record>, p: Id)
    requires Edges(s, rs) && s.nodes == rs.Keys && t == Relink(s, p)
    ensures Edges(t, rs)
  {
    var cs := At(s.orphans, p) * s.nodes;
    forall c | c in At(s.orphans, p) ensures c in cs { assert Claims(rs, p, c); }
    if cs == {} {
      assert p !in s.orphans;
      assert t == s;
    } else {
      AttachMirrored(s, t, p, cs);
      forall q, c {:trigger Claims(rs, q, c)}
        ensures Claims(rs, q, c) <==> c in At(t.children, q) || c in At(t.orphans, q) {}
    }
  }

  lemma {:induction false} RelinkAllKeepsArrived(s: State, rs: map<Id, Record>, order: seq<Id>)
    requires Arrived(s, rs) && AllPresent(s.nodes, order)
    ensures Arrived(RelinkAll(s, order), rs) && RelinkAll(s, order).orphans == s.orphans - Elems(order)
  {
    if order != [] {
      RelinkAllKeepsArrived(s, rs, order[..|order| - 1]);
      RelinkKeepsArrived(RelinkAll(s, order[..|order| - 1]), rs, order[|order| - 1]);
      ElemsSnoc(order);
    }
  }

  lemma {:induction false} RunArrives(ops: seq<Op>)
    requires Arrival(ops) && LegalRun(EMPTY, ops)
    ensures Arrived(Run(EMPTY, ops), Delivered(ops))
  {
    if ops == [] {
      assert ZoneIndex({}, map[]) == map[];
    } else {
      var rest, op := ops[..|ops| - 1], ops[|ops| - 1];
      RunArrives(rest);
      assert op in ops;
      if op.RelinkOp? {
        RelinkKeepsArrived(Run(EMPTY, rest), Delivered(rest), op.parent);
      } else if op.id !in Delivered(rest) {
        TolerantKeepsArrived(Run(EMPTY, rest), Delivered(rest), op.id, Record(op.claims, op.ts, op.zone));
      }
    }
  }

  lemma ClaimantsAre(s: State, rs: map<Id, Record>, p: Id)
    requires Kept(s, rs)
    ensures Claimants(rs, p) == At(s.children, p) + At(s.orphans, p)
    ensures p in ClaimedIds(rs) <==> Claimants(rs, p) != {}
  {
    forall c ensures c in Claimants(rs, p) <==> c in At(s.children, p) + At(s.orphans, p) {
      assert Claims(rs, p, c) <==> c in At(s.children, p) || c in At(s.orphans, p);
    }
    if p in ClaimedIds(rs) {
      var c :| c in rs && p in rs[c].claims;
      assert c in Claimants(rs, p);
    }
  }

  lemma ParentsAre(s: State, rs: map<Id, Record>, c: Id)
    requires Sound(s) && Edges(s, rs) && s.nodes == rs.Keys && s.orphans.Keys !! s.nodes
    ensures At(s.parents, c) == ClaimsPresent(rs, c)
  {
    forall p ensures p in At(s.parents, c) <==> p in rs && Claims(rs, p, c) {
      assert p in At(s.parents, c) <==> c in At(s.children, p);
    }
  }

  lemma ChildrenAre(s: State, rs: map<Id, Record>)
    requires Kept(s, rs) && NoEmptyGroup(s.children) && s.children.Keys <= s.nodes == rs.Keys
    requires s.orphans.Keys !! s.nodes
    ensures s.children == map p | p in rs.Keys * ClaimedIds(rs) :: Claimants(rs, p)
  {
    forall p | p in rs ensures (p in s.children <==> p in ClaimedIds(rs)) && Claimants(rs, p) == At(s.children, p) {
      ClaimantsAre(s, rs, p);
    }
  }

  lemma OrphansAre(s: State, rs: map<Id, Record>)
    requires Kept(s, rs) && NoEmptyGroup(s.orphans) && s.children.Keys <= s.nodes == rs.Keys
    requires s.orphans.Keys !! s.nodes
    ensures s.orphans == map p | p in ClaimedIds(rs) - rs.Keys :: Claimants(rs, p)
  {
    forall p | p !in rs ensures (p in s.orphans <==> p in ClaimedIds(rs)) && Claimants(rs, p) == At(s.orphans, p) {
      ClaimantsAre(s, rs, p);
    }
  }

  lemma ParentsMapIs(s: State, rs: map<Id, Record>)
    requires Sound(s) && Edges(s, rs) && s.nodes == rs.Keys && s.orphans.Keys !! s.nodes
    ensures s.parents == map c | c in rs && ClaimsPresent(rs, c) != {} :: ClaimsPresent(rs, c)
  {
    forall c ensures At(s.parents, c) == ClaimsPresent(rs, c) {
      ParentsAre(s, rs, c);
    }
  }

  lemma ArrivedIsSettled(s: State, rs: map<Id, Record>)
    requires Arrived(s, rs) && s.orphans.Keys !! s.nodes
    ensures s == Settled(rs)
  {
    SoundIsExact(s);
    ChildrenAre(s, rs);
    OrphansAre(s, rs);
    ParentsMapIs(s, rs);
    RebuildLocal(s, Settled(rs));
  }

  /** Whatever the order, `reindex_orphans` in any hash order ends in the settled state. */
  lemma ArrivalSettles(ops: seq<Op>, order: seq<Id>)
    requires Arrival(ops) && LegalRun(EMPTY, ops)
    requires Elems(order) == Run(EMPTY, ops).orphans.Keys * Run(EMPTY, ops).nodes
    ensures RelinkAll(Run(EMPTY, ops), order) == Settled(Delivered(ops))
  {
    var s := Run(EMPTY, ops);
    RunArrives(ops);
    forall i | 0 <= i < |order| ensures order[i] in s.nodes { assert order[i] in Elems(order); }
    RelinkAllKeepsArrived(s, Delivered(ops), order);
    RelinkAllKeepsSound(s, order);
    ArrivedIsSettled(RelinkAll(s, order), Delivered(ops));
  }

  /** Two runs that deliver the same records agree once each has called `reindex_orphans`. */
  lemma ArrivalOrderIrrelevant(a: seq<Op>, b: seq<Op>, orderA: seq<Id>, orderB: seq<Id>)
    requires Arrival(a) && Arrival(b) && LegalRun(EMPTY, a) && LegalRun(EMPTY, b)
    requires Delivered(a) == Delivered(b)
    requires Elems(orderA) == Run(EMPTY, a).orphans.Keys * Run(EMPTY, a).nodes
    requires Elems(orderB) == Run(EMPTY, b).orphans.Keys * Run(EMPTY, b).nodes
    ensures Apply(Run(EMPTY, a), ReindexOp(orderA)) == Apply(Run(EMPTY, b), ReindexOp(orderB))
  {
    ArrivalSettles(a, orderA);
    ArrivalSettles(b, orderB);
  }
}
