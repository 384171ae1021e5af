/**
  What each operation does to the index, told edge by edge: which child, parent and waiting edges there are
  afterwards, which records, zones and marks.  The frontiers follow from the edges, so this says it all.
 */
module DagEffects {
  import opened Basics
  import opened Dag
  import opened DagIndices
  import opened DagEviction
  import opened DagOrdering

  ghost predicate Child(s: State, p: Id, c: Id) {
    p in s.children && c in s.children[p]
  }

  ghost predicate Parent(s: State, c: Id, p: Id) {
    c in s.parents && p in s.parents[c]
  }

  ghost predicate Waits(s: State, p: Id, c: Id) {
    p in s.orphans && c in s.orphans[p]
  }

  ghost predicate TipOf(s: State, z: Zone, n: Id) {
    z in s.zoneTips && n in s.zoneTips[z]
  }

  /** Roots have no parent, tips no child, and the tips of a zone are the tips registered there. */
  lemma FrontiersExactly(s: State)
    requires Sound(s)
    ensures forall n {:trigger n in s.roots} :: n in s.roots <==> n in s.nodes && forall p :: !Parent(s, n, p)
    ensures forall n {:trigger n in s.tips} :: n in s.tips <==> n in s.nodes && forall c :: !Child(s, n, c)
    ensures forall z, n {:trigger TipOf(s, z, n)} ::
      TipOf(s, z, n) <==> n in s.tips && n in s.zoneOf && s.zoneOf[n] == z
    ensures forall z | z in s.zoneTips :: s.zoneTips[z] != {}
  {
    forall n {:trigger n in s.roots} ensures n in s.roots <==> n in s.nodes && forall p :: !Parent(s, n, p) {
      if n in s.nodes && n !in s.roots {
        var p :| p in At(s.parents, n);
        assert Parent(s, n, p);
      }
    }
    forall n {:trigger n in s.tips} ensures n in s.tips <==> n in s.nodes && forall c :: !Child(s, n, c) {
      if n in s.nodes && n !in s.tips {
        var c :| c in At(s.children, n);
        assert Child(s, n, c);
      }
    }
    forall z | z in s.zoneTips ensures s.zoneTips[z] != {} {
      var n :| n in s.tips && n in s.zoneOf && s.zoneOf[n] == z;
      assert n in s.zoneTips[z];
    }
  }

  // ----- inserting

  ghost predicate SameEdges(s: State, t: State) {
    t.children == s.children && t.parents == s.parents && t.orphans == s.orphans
  }

  ghost predicate SameRecords(s: State, t: State) {
    t.nodes == s.nodes && t.timestamps == s.timestamps && t.zoneOf == s.zoneOf
  }

  ghost predicate SameMarks(s: State, t: State) {
    t.finalized == s.finalized && t.epoch == s.epoch
  }

  /** The record is there, with an edge to every claimed parent that is, waiting for every other. */
  ghost predicate Inserts(s: State, t: State, id: Id, ps: seq<Id>, ts: real, zone: Option<Zone>) {
    && t.nodes == s.nodes + {id} && t.timestamps == s.timestamps[id := ts] && SameMarks(s, t)
    && t.zoneOf == (if zone.Some? then s.zoneOf[id := zone.value] else s.zoneOf)
    && (forall p, c {:trigger Child(t, p, c)} ::
        Child(t, p, c) <==> Child(s, p, c) || (c == id && p in ps && p in s.nodes))
    && (forall c, p {:trigger Parent(t, c, p)} ::
        Parent(t, c, p) <==> Parent(s, c, p) || (c == id && p in ps && p in s.nodes))
    && (forall p, c {:trigger Waits(t, p, c)} ::
        Waits(t, p, c) <==> Waits(s, p, c) || (c == id && p in ps && p !in s.nodes))
  }

  /** The same, on whole maps. */
  ghost predicate Grows(s: State, t: State, id: Id, present: set<Id>, absent: set<Id>) {
    && Grown(s.children, t.children, present, id) && Grown(s.orphans, t.orphans, absent, id)
    && t.parents == if present == {} then s.parents else s.parents[id := present]
  }

  lemma GrownEdge(m: map<Id, set<Id>>, m': map<Id, set<Id>>, ks: set<Id>, v: Id, k: Id, x: Id)
    requires Grown(m, m', ks, v)
    ensures (k in m' && x in m'[k]) <==> (k in m && x in m[k]) || (k in ks && x == v)
  {
    assert x in At(m', k) <==> x in At(m, k) || (k in ks && x == v);
  }

  lemma GrownEdges(s: State, t: State, id: Id, ps: seq<Id>)
    requires id !in s.parents && Grows(s, t, id, Elems(ps) * s.nodes, Elems(ps) - s.nodes)
    ensures forall p, c {:trigger Child(t, p, c)} ::
      Child(t, p, c) <==> Child(s, p, c) || (c == id && p in ps && p in s.nodes)
    ensures forall c, p {:trigger Parent(t, c, p)} ::
      Parent(t, c, p) <==> Parent(s, c, p) || (c == id && p in ps && p in s.nodes)
    ensures forall p, c {:trigger Waits(t, p, c)} ::
      Waits(t, p, c) <==> Waits(s, p, c) || (c == id && p in ps && p !in s.nodes)
  {
    forall p, c {:trigger Child(t, p, c)}
      ensures Child(t, p, c) <==> Child(s, p, c) || (c == id && p in ps && p in s.nodes)
    {
      GrownEdge(s.children, t.children, Elems(ps) * s.nodes, id, p, c);
    }
    forall c, p {:trigger Parent(t, c, p)}
      ensures Parent(t, c, p) <==> Parent(s, c, p) || (c == id && p in ps && p in s.nodes)
    {
      assert p in ps && p in s.nodes <==> p in Elems(ps) * s.nodes;
    }
    forall p, c {:trigger Waits(t, p, c)}
      ensures Waits(t, p, c) <==> Waits(s, p, c) || (c == id && p in ps && p !in s.nodes)
    {
      GrownEdge(s.orphans, t.orphans, Elems(ps) - s.nodes, id, p, c);
    }
  }

  lemma TolerantGrows(s: State, id: Id, ps: seq<Id>, ts: real, zone: Option<Zone>)
    requires Sound(s) && id !in s.nodes
    ensures var t := InsertTolerant(Register(s, id, zone), id, ps, ts);
      && Grows(s, t, id, Elems(ps) * s.nodes, Elems(ps) - s.nodes)
      && t.nodes == s.nodes + {id} && t.timestamps == s.timestamps[id := ts] && SameMarks(s, t)
      && t.zoneOf == (if zone.Some? then s.zoneOf[id := zone.value] else s.zoneOf)
  {
    RegisterKeepsZones(s, id, zone);
    ClaimAllEffect(Register(s, id, zone), ps, id);
  }

  lemma TolerantInserts(s: State, id: Id, ps: seq<Id>, ts: real, zone: Option<Zone>)
    requires Sound(s) && id !in s.nodes
    ensures Inserts(s, InsertTolerant(Register(s, id, zone), id, ps, ts), id, ps, ts, zone)
  {
    TolerantGrows(s, id, ps, ts, zone);
    GrownEdges(s, InsertTolerant(Register(s, id, zone), id, ps, ts), id, ps);
  }

  // ----- the other operations

  /** A present record moves to the zone; nothing else changes but the tips listed per zone. */
  ghost predicate Rezones(s: State, t: State, id: Id, zone: Zone) {
    if id !in s.nodes then t == s
    else
      && t == s.(zoneOf := s.zoneOf[id := zone], zoneTips := t.zoneTips)
      && (forall z {:trigger TipOf(t, z, id)} :: TipOf(t, z, id) <==> z == zone && id in s.tips)
      && (forall z, n {:trigger TipOf(t, z, n)} | n != id :: TipOf(t, z, n) <==> TipOf(s, z, n))
  }

  lemma ZoneExactly(s: State, id: Id, zone: Zone)
    requires Sound(s)
    ensures Rezones(s, SetNodeZone(s, id, zone), id, zone)
  {
    ZoneKeepsSound(s, id, zone);
    FrontiersExactly(s);
    FrontiersExactly(SetNodeZone(s, id, zone));
  }

  ghost predicate LinksExternally(s: State, t: State, child: Id, parent: Id) {
    && SameRecords(s, t) && SameMarks(s, t) && t.children == s.children
    && (forall c, p {:trigger Parent(t, c, p)} :: Parent(t, c, p) <==> Parent(s, c, p) || (c == child && p == parent))
    && (forall p, c {:trigger Waits(t, p, c)} :: Waits(t, p, c) <==> Waits(s, p, c) && !(p == parent && c == child))
  }

  /** Present records that wait for one of the parents are wired to it, and no one waits for them any more. */
  ghost predicate Relinks(s: State, t: State, ps: set<Id>) {
    && SameRecords(s, t) && SameMarks(s, t)
    && (forall p, c {:trigger Child(t, p, c)} ::
        Child(t, p, c) <==> Child(s, p, c) || (p in ps && Waits(s, p, c) && c in s.nodes))
    && (forall c, p {:trigger Parent(t, c, p)} ::
        Parent(t, c, p) <==> Parent(s, c, p) || (p in ps && Waits(s, p, c) && c in s.nodes))
    && (forall p, c {:trigger Waits(t, p, c)} :: Waits(t, p, c) <==> Waits(s, p, c) && p !in ps)
  }

  lemma RelinkEdges(s: State, p: Id, cs: set<Id>)
    ensures var t := Attach(s, p, cs);
      && (forall q, c {:trigger Child(t, q, c)} :: Child(t, q, c) <==> Child(s, q, c) || (q == p && c in cs))
      && (forall c, q {:trigger Parent(t, c, q)} :: Parent(t, c, q) <==> Parent(s, c, q) || (q == p && c in cs))
  {
  }

  lemma RelinkExactly(s: State, p: Id)
    ensures Relinks(s, Relink(s, p), {p})
  {
    var cs := At(s.orphans, p) * s.nodes;
    assert forall c :: c in cs <==> Waits(s, p, c) && c in s.nodes;
    RelinkEdges(s.(orphans := s.orphans - {p}), p, cs);
  }

  lemma TakenEdge(m: map<Id, set<Id>>, k: Id, v: Id, j: Id, x: Id)
    ensures var m' := Take(m, k, v); (j in m' && x in m'[j]) <==> j in m && x in m[j] && !(j == k && x == v)
  {
    if k in m && x in m[k] && x != v { assert x in m[k] - {v}; }
  }

  lemma ExternalExactly(s: State, child: Id, parent: Id)
    ensures LinksExternally(s, LinkExternal(s, child, parent), child, parent)
  {
    var t := LinkExternal(s, child, parent);
    forall p, c {:trigger Waits(t, p, c)} ensures Waits(t, p, c) <==> Waits(s, p, c) && !(p == parent && c == child) {
      TakenEdge(s.orphans, parent, child, p, c);
    }
  }

  lemma {:induction false} RelinkAllExactly(s: State, order: seq<Id>)
    ensures Relinks(s, RelinkAll(s, order), Elems(order))
  {
    if order != [] {
      var t, p := RelinkAll(s, order[..|order| - 1]), order[|order| - 1];
      RelinkAllExactly(s, order[..|order| - 1]);
      RelinkExactly(t, p);
      ElemsSnoc(order);
    }
  }

  /** The records are gone with their edges; a link to an external parent stays, and so do edges that wait elsewhere. */
  ghost predicate Drops(s: State, t: State, gone: set<Id>) {
    && t.nodes == s.nodes - gone && t.timestamps == s.timestamps - gone && t.zoneOf == s.zoneOf - gone
    && t.epoch == s.epoch
    && (forall p, c {:trigger Child(t, p, c)} :: Child(t, p, c) <==> Child(s, p, c) && p !in gone && c !in gone)
    && (forall c, p {:trigger Parent(t, c, p)} ::
        Parent(t, c, p) <==> Parent(s, c, p) && c !in gone && !(p in gone && Child(s, p, c)))
    && (forall p, c {:trigger Waits(t, p, c)} :: Waits(t, p, c) <==> Waits(s, p, c) && p !in gone)
  }

  lemma RestrictDrops(s: State, gone: set<Id>)
    ensures Drops(s, Restrict(s, gone), gone) && Restrict(s, gone).finalized == s.finalized
  {
  }

  lemma RemoveDrops(s: State, id: Id)
    requires Sound(s)
    ensures Drops(s, Remove(s, id), {id}) && Remove(s, id).finalized == s.finalized
  {
    RestrictNothing(s);
    RemoveExtendsRestrict(s, {}, id);
    assert {} + {id} == {id};
    RestrictDrops(s, {id});
  }

  // ----- any operation

  ghost predicate Effect(s: State, op: Op, t: State) {
    match op
    case InsertOp(id, ps, ts, zone) =>
      if id !in s.nodes && (forall p | p in ps :: p in s.nodes) then Inserts(s, t, id, ps, ts, zone) else t == s
    case TolerantOp(id, ps, ts, zone) => if id !in s.nodes then Inserts(s, t, id, ps, ts, zone) else t == s
    case ZoneOp(id, zone) => Rezones(s, t, id, zone)
    case ExternalOp(c, p) => LinksExternally(s, t, c, p)
    case RelinkOp(p) => Relinks(s, t, {p})
    case ReindexOp(order) => Relinks(s, t, Elems(order))
    case DropWaitingOp(groups) =>
      && SameRecords(s, t) && SameMarks(s, t) && t.children == s.children && t.parents == s.parents
      && forall p, c {:trigger Waits(t, p, c)} :: Waits(t, p, c) <==> Waits(s, p, c) && p !in groups
    case RemoveOp(id) => Drops(s, t, {id}) && t.finalized == s.finalized
    case EvictOp(order) => Drops(s, t, Elems(order)) && t.finalized == s.finalized - Elems(order)
    case FinalizeOp(id, at) =>
      && SameEdges(s, t) && SameRecords(s, t) && t.epoch == s.epoch
      && t.finalized == if id in s.nodes then s.finalized[id := at] else s.finalized
    case EpochOp(at) =>
      && SameEdges(s, t) && SameRecords(s, t) && t.finalized == s.finalized
      && at <= t.epoch && s.epoch <= t.epoch && t.epoch in {at, s.epoch}
  }

  lemma InsertEffect(s: State, op: Op)
    requires Sound(s) && (op.InsertOp? || op.TolerantOp?)
    ensures Effect(s, op, Apply(s, op))
  {
    assert AllPresent(s.nodes, op.claims) <==> forall p | p in op.claims :: p in s.nodes;
    if op.InsertOp? && Accepts(s, op.id, op.claims) {
      AcceptedInsertIsTolerant(Register(s, op.id, op.zone), op.id, op.claims, op.ts);
    }
    if op.id !in s.nodes { TolerantInserts(s, op.id, op.claims, op.ts, op.zone); }
  }

  lemma EvictDrops(s: State, order: seq<Id>)
    requires Sound(s)
    ensures Drops(s, EvictAll(s, order), Elems(order)) && EvictAll(s, order).finalized == s.finalized - Elems(order)
  {
    EvictAllIsRestrict(s, order);
    RestrictDrops(s, Elems(order));
  }

  lemma MarkEffect(s: State, op: Op)
    requires op.DropWaitingOp? || op.FinalizeOp? || op.EpochOp?
    ensures Effect(s, op, Apply(s, op))
  {
  }

  /** From a sound state every legal operation leaves a sound state with exactly these edges, records and marks. */
  lemma StepExactly(s: State, op: Op)
    requires Sound(s) && Legal(s, op)
    ensures Sound(Apply(s, op)) && Effect(s, op, Apply(s, op))
  {
    StepKeepsSound(s, op);
    match op
    case InsertOp(_, _, _, _) => InsertEffect(s, op);
    case TolerantOp(_, _, _, _) => InsertEffect(s, op);
    case ZoneOp(id, zone) => ZoneExactly(s, id, zone);
    case ExternalOp(c, p) => ExternalExactly(s, c, p);
    case RelinkOp(p) => RelinkExactly(s, p);
    case ReindexOp(order) => RelinkAllExactly(s, order);
    case RemoveOp(id) => RemoveDrops(s, id);
    case EvictOp(order) => EvictDrops(s, order);
    case _ => MarkEffect(s, op);
  }

  // ----- counts

  function AbsentPlaces(nodes: set<Id>, ps: seq<Id>): set<nat> {
    set i: nat | i < |ps| && ps[i] !in nodes
  }

  /** The count of missing parents is that of the places in the list that name an absent record. */
  lemma {:induction false} MissingExactly(nodes: set<Id>, ps: seq<Id>)
    ensures Missing(nodes, ps) == |AbsentPlaces(nodes, ps)|
    decreases |ps|
  {
    if ps != [] {
      var qs, n := ps[..|ps| - 1], |ps| - 1;
      MissingExactly(nodes, qs);
      if ps[n] in nodes {
        assert AbsentPlaces(nodes, ps) == AbsentPlaces(nodes, qs);
      } else {
        assert AbsentPlaces(nodes, ps) == AbsentPlaces(nodes, qs) + {n};
      }
    }
  }

  /** The edges of some keys, as pairs. */
  function Pairs(m: map<Id, set<Id>>, ks: set<Id>): set<(Id, Id)> {
    set p, c | p in m && p in ks && c in m[p] :: (p, c)
  }

  lemma {:induction false} GroupPairs(m: map<Id, set<Id>>, k: Id, cs: set<Id>)
    ensures |set c | c in cs :: (k, c)| == |cs|
  {
    if cs != {} {
      var x :| x in cs;
      GroupPairs(m, k, cs - {x});
      assert (set c | c in cs :: (k, c)) == (set c | c in cs - {x} :: (k, c)) + {(k, x)};
    }
  }

  /** The weight of groups is the number of their edges. */
  lemma {:induction false} WeightPairs(m: map<Id, set<Id>>, ks: set<Id>)
    requires ks <= m.Keys
    ensures WeightOf(m, ks) == |Pairs(m, ks)|
  {
    if ks == {} {
      assert Pairs(m, ks) == {};
    } else {
      var k :| k in ks;
      WeightSplit(m, ks, k);
      WeightPairs(m, ks - {k});
      GroupPairs(m, k, m[k]);
      var group := set c | c in m[k] :: (k, c);
      assert Pairs(m, ks) == Pairs(m, ks - {k}) + group && Pairs(m, ks - {k}) !! group;
    }
  }
}
