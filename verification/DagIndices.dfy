/**
  The maintained indices never drift: whatever mix of operations is run, roots, tips and per-zone tips
  are what `rebuild_indices` would compute from the graph.
 */
module DagIndices {
  import opened Basics
  import opened Dag

  /** `rebuild_indices` would change nothing. */
  ghost predicate Exact(s: State) {
    Rebuild(s) == s
  }

  /** The representation invariant behind `Exact`. */
  ghost predicate Sound(s: State) {
    && s.children.Keys <= s.nodes && s.parents.Keys <= s.nodes
    && (forall p, c {:trigger c in At(s.children, p)} | c in At(s.children, p) :: c in s.nodes && p in At(s.parents, c))
    && s.timestamps.Keys == s.nodes && s.zoneOf.Keys <= s.nodes
    && s.tips <= s.nodes && s.roots <= s.nodes
    && (forall n {:trigger n in s.tips} | n in s.nodes :: n in s.tips <==> At(s.children, n) == {})
    && (forall n {:trigger n in s.roots} | n in s.nodes :: n in s.roots <==> At(s.parents, n) == {})
    && s.zoneTips == ZoneIndex(s.tips, s.zoneOf)
  }

  lemma SoundIsExact(s: State)
    requires Sound(s)
    ensures Exact(s)
  {
    assert s.tips == TipsOf(s);
    assert s.roots == RootsOf(s);
  }

  lemma RebuildLocal(s: State, t: State)
    requires s == t.(roots := s.roots, tips := s.tips, zoneTips := s.zoneTips)
    ensures Rebuild(s) == Rebuild(t)
  {
    assert TipsOf(s) == TipsOf(t) && RootsOf(s) == RootsOf(t);
  }

  /**
    What a call must respect for the indices to survive it: an external link needs its child to be
    indexed, a single-parent relink needs its parent to be indexed unless nothing present waits for it.
    The implementation checks neither.
   */
  predicate Legal(s: State, op: Op) {
    match op
    case ExternalOp(c, _) => c in s.nodes
    case RelinkOp(p) => p in s.nodes || At(s.orphans, p) * s.nodes == {}
    case ReindexOp(order) => AllPresent(s.nodes, order)
    case _ => true
  }

  predicate LegalRun(s: State, ops: seq<Op>) {
    ops == [] || (LegalRun(s, ops[..|ops| - 1]) && Legal(Run(s, ops[..|ops| - 1]), ops[|ops| - 1]))
  }

  // ----- the zone shadow as a function of the frontier

  lemma ZoneIndexAdd(tips: set<Id>, zoneOf: map<Id, Zone>, id: Id)
    ensures ZoneAdd(ZoneIndex(tips, zoneOf), zoneOf, id) == ZoneIndex(tips + {id}, zoneOf)
  {
    ZoneIndexAddAll(tips, zoneOf, {id});
    var a, b := ZoneAdd(ZoneIndex(tips, zoneOf), zoneOf, id), ZoneAddAll(ZoneIndex(tips, zoneOf), zoneOf, {id});
    assert ZonesOf({id}, zoneOf) == if id in zoneOf then {zoneOf[id]} else {};
    forall z | z in a ensures a[z] == b[z] {
      assert InZone({id}, zoneOf, z) == if id in zoneOf && zoneOf[id] == z then {id} else {};
    }
    assert a == b;
  }

  lemma ZoneIndexAddAll(tips: set<Id>, zoneOf: map<Id, Zone>, ids: set<Id>)
    ensures ZoneAddAll(ZoneIndex(tips, zoneOf), zoneOf, ids) == ZoneIndex(tips + ids, zoneOf)
  {
    var a, b := ZoneAddAll(ZoneIndex(tips, zoneOf), zoneOf, ids), ZoneIndex(tips + ids, zoneOf);
    assert ZonesOf(tips + ids, zoneOf) == ZonesOf(tips, zoneOf) + ZonesOf(ids, zoneOf);
    forall z | z in a ensures a[z] == b[z] {
      assert TipsFor(ZoneIndex(tips, zoneOf), z) == InZone(tips, zoneOf, z);
      assert InZone(tips + ids, zoneOf, z) == InZone(tips, zoneOf, z) + InZone(ids, zoneOf, z);
    }
  }

  lemma ZoneIndexDrop(tips: set<Id>, zoneOf: map<Id, Zone>, id: Id)
    ensures ZoneDrop(ZoneIndex(tips, zoneOf), zoneOf, id) == ZoneIndex(tips - {id}, zoneOf)
  {
    var full, b := ZoneIndex(tips, zoneOf), ZoneIndex(tips - {id}, zoneOf);
    forall z ensures InZone(tips - {id}, zoneOf, z) == InZone(tips, zoneOf, z) - {id} {}
    forall z ensures z in b <==> z in full && full[z] - {id} != {} {
      if z in full && full[z] - {id} != {} {
        var n :| n in full[z] - {id};
        assert n in tips - {id} && zoneOf[n] == z;
      }
    }
    var a := ZoneDrop(full, zoneOf, id);
    forall z | z in a ensures a[z] == full[z] - {id} {}
    assert a == b;
  }

  lemma ZoneIndexLocal(tips: set<Id>, zoneOf: map<Id, Zone>, zoneOf': map<Id, Zone>)
    requires forall n | n in tips :: (n in zoneOf <==> n in zoneOf') && (n in zoneOf ==> zoneOf[n] == zoneOf'[n])
    ensures ZoneIndex(tips, zoneOf) == ZoneIndex(tips, zoneOf')
  {
    assert ZonesOf(tips, zoneOf) == ZonesOf(tips, zoneOf');
    forall z ensures InZone(tips, zoneOf, z) == InZone(tips, zoneOf', z) {}
  }

  // ----- insertion

  /** `m'` is `m` with `v` added under every key of `ks`. */
  ghost predicate Grown(m: map<Id, set<Id>>, m': map<Id, set<Id>>, ks: set<Id>, v: Id) {
    && m'.Keys == m.Keys + ks
    && forall k, x {:trigger x in At(m', k)} :: x in At(m', k) <==> x in At(m, k) || (k in ks && x == v)
  }

  lemma GrownPut(m: map<Id, set<Id>>, m': map<Id, set<Id>>, ks: set<Id>, v: Id, k: Id)
    requires Grown(m, m', ks, v)
    ensures Grown(m, Put(m', k, v), ks + {k}, v)
  {
    forall j, x ensures x in At(Put(m', k, v), j) <==> x in At(m, j) || (j in ks + {k} && x == v) {
      assert x in At(m', j) <==> x in At(m, j) || (j in ks && x == v);
    }
  }

  /** What `ClaimAll` leaves behind for a record `c` not yet indexed. */
  ghost predicate Claimed(s: State, r: State, c: Id, present: set<Id>, absent: set<Id>) {
    && r == s.(children := r.children, parents := r.parents, orphans := r.orphans,
               tips := r.tips, zoneTips := r.zoneTips)
    && Grown(s.children, r.children, present, c)
    && r.parents == (if present == {} then s.parents else s.parents[c := present])
    && Grown(s.orphans, r.orphans, absent, c)
    && r.tips == s.tips - present
    && r.zoneTips == ZoneIndex(s.tips - present, s.zoneOf)
  }

  lemma {:induction false} ClaimAllEffect(s: State, ps: seq<Id>, c: Id)
    requires c !in s.parents && s.zoneTips == ZoneIndex(s.tips, s.zoneOf)
    ensures Claimed(s, ClaimAll(s, ps, c), c, Elems(ps) * s.nodes, Elems(ps) - s.nodes)
  {
    if ps == [] {
      assert s.tips - {} == s.tips;
    } else {
      var qs, p := ps[..|ps| - 1], ps[|ps| - 1];
      ElemsSnoc(ps);
      ClaimAllEffect(s, qs, c);
      if p in s.nodes {
        WireStep(s, ClaimAll(s, qs, c), c, Elems(qs) * s.nodes, Elems(qs) - s.nodes, p);
        assert Elems(ps) * s.nodes == Elems(qs) * s.nodes + {p} && Elems(ps) - s.nodes == Elems(qs) - s.nodes;
      } else {
        GrownPut(s.orphans, ClaimAll(s, qs, c).orphans, Elems(qs) - s.nodes, c, p);
        assert Elems(ps) * s.nodes == Elems(qs) * s.nodes && Elems(ps) - s.nodes == Elems(qs) - s.nodes + {p};
      }
    }
  }

  lemma WireStep(s: State, r: State, c: Id, present: set<Id>, absent: set<Id>, p: Id)
    requires c !in s.parents && Claimed(s, r, c, present, absent)
    ensures Claimed(s, Wire(r, p, c), c, present + {p}, absent)
  {
    GrownPut(s.children, r.children, present, c, p);
    ZoneIndexDrop(s.tips - present, s.zoneOf, p);
    assert s.tips - present - {p} == s.tips - (present + {p});
    assert Put(r.parents, c, p) == s.parents[c := present + {p}];
  }

  lemma {:induction false} WireAllIsClaimAll(s: State, ps: seq<Id>, c: Id)
    requires AllPresent(s.nodes, ps)
    ensures WireAll(s, ps, c) == ClaimAll(s, ps, c) && WireAll(s, ps, c).nodes == s.nodes
  {
    if ps != [] { WireAllIsClaimAll(s, ps[..|ps| - 1], c); }
  }

  lemma {:induction false} MissingCounts(nodes: set<Id>, ps: seq<Id>)
    ensures Missing(nodes, ps) <= |ps|
    ensures Missing(nodes, ps) == |ps| <==> Elems(ps) * nodes == {}
    ensures Missing(nodes, ps) == 0 <==> AllPresent(nodes, ps)
  {
    if ps != [] {
      MissingCounts(nodes, ps[..|ps| - 1]);
      ElemsSnoc(ps);
      assert ps == ps[..|ps| - 1] + [ps[|ps| - 1]];
      var p := ps[|ps| - 1];
      assert Elems(ps) * nodes == Elems(ps[..|ps| - 1]) * nodes + {p} * nodes;
      if p in nodes {
        assert p in Elems(ps) * nodes;
      } else {
        assert {p} * nodes == {};
      }
    }
  }

  /** A strict insert that is accepted is the tolerant insert. */
  lemma AcceptedInsertIsTolerant(s: State, id: Id, ps: seq<Id>, ts: real)
    requires Accepts(s, id, ps)
    ensures Insert(s, id, ps, ts) == InsertTolerant(s, id, ps, ts)
  {
    WireAllIsClaimAll(s, ps, id);
    MissingCounts(s.nodes, ps);
  }

  lemma RegisterKeepsZones(s: State, id: Id, zone: Option<Zone>)
    requires s.zoneTips == ZoneIndex(s.tips, s.zoneOf) && id !in s.tips
    ensures Register(s, id, zone).zoneTips == ZoneIndex(s.tips, Register(s, id, zone).zoneOf)
  {
    ZoneIndexLocal(s.tips, s.zoneOf, Register(s, id, zone).zoneOf);
  }

  lemma TolerantKeepsSound(s: State, id: Id, ps: seq<Id>, ts: real, zone: Option<Zone>)
    requires Sound(s) && id !in s.nodes
    ensures Sound(InsertTolerant(Register(s, id, zone), id, ps, ts))
  {
    var s1 := Register(s, id, zone);
    RegisterKeepsZones(s, id, zone);
    ClaimAllEffect(s1, ps, id);
    MissingCounts(s.nodes, ps);
    ClaimedNodeKeepsSound(s, s1, ClaimAll(s1, ps, id), id, ts, Elems(ps) * s.nodes, Elems(ps) - s.nodes);
  }

  lemma ClaimedNodeKeepsSound(s: State, s1: State, r: State, id: Id, ts: real, present: set<Id>, absent: set<Id>)
    requires Sound(s) && id !in s.nodes && present <= s.nodes
    requires s1 == s.(zoneOf := s1.zoneOf) && s1.zoneOf.Keys <= s.nodes + {id}
    requires Claimed(s1, r, id, present, absent)
    ensures Sound(AddNode(r, id, ts, present == {}))
  {
    var t := AddNode(r, id, ts, present == {});
    ZoneIndexAdd(s.tips - present, s1.zoneOf, id);
    ClaimedEdges(s, t, id, present);
    ClaimedTips(s, t, id, present);
    ClaimedRoots(s, t, id, present);
  }

  lemma ClaimedEdges(s: State, t: State, id: Id, present: set<Id>)
    requires Sound(s) && id !in s.nodes && t.nodes == s.nodes + {id}
    requires Grown(s.children, t.children, present, id)
    requires t.parents == if present == {} then s.parents else s.parents[id := present]
    ensures forall p, c {:trigger c in At(t.children, p)} | c in At(t.children, p) ::
        c in t.nodes && p in At(t.parents, c)
  {
    forall p, c {:trigger c in At(t.children, p)} | c in At(t.children, p)
      ensures c in t.nodes && p in At(t.parents, c)
    {
      if c in At(s.children, p) {
        assert p in At(s.parents, c) && c in s.nodes;
      }
    }
  }

  lemma ClaimedTips(s: State, t: State, id: Id, present: set<Id>)
    requires Sound(s) && id !in s.nodes && Grown(s.children, t.children, present, id) && present <= s.nodes
    requires t.nodes == s.nodes + {id} && t.tips == s.tips - present + {id}
    ensures forall n {:trigger n in t.tips} | n in t.nodes :: n in t.tips <==> At(t.children, n) == {}
  {
    forall n {:trigger n in t.tips} | n in t.nodes ensures n in t.tips <==> At(t.children, n) == {} {
      if n in t.tips {
        assert n != id ==> At(s.children, n) == {};
      } else if n in present {
        assert id in At(t.children, n);
      } else {
        var c :| c in At(s.children, n);
        assert c in At(t.children, n);
      }
    }
  }

  lemma ClaimedRoots(s: State, t: State, id: Id, present: set<Id>)
    requires Sound(s) && id !in s.nodes && t.nodes == s.nodes + {id}
    requires t.parents == if present == {} then s.parents else s.parents[id := present]
    requires t.roots == s.roots + if present == {} then {id} else {}
    ensures forall n {:trigger n in t.roots} | n in t.nodes :: n in t.roots <==> At(t.parents, n) == {}
  {
    forall n {:trigger n in t.roots} | n in t.nodes ensures n in t.roots <==> At(t.parents, n) == {} {
      assert n != id ==> (n in s.roots <==> At(s.parents, n) == {});
    }
  }

  lemma InsertKeepsSound(s: State, id: Id, ps: seq<Id>, ts: real, zone: Option<Zone>)
    requires Sound(s) && Accepts(s, id, ps)
    ensures Sound(Insert(Register(s, id, zone), id, ps, ts))
  {
    AcceptedInsertIsTolerant(Register(s, id, zone), id, ps, ts);
    TolerantKeepsSound(s, id, ps, ts, zone);
  }

  // ----- zones, external links, relinks

  lemma ZoneKeepsSound(s: State, id: Id, zone: Zone)
    requires Sound(s)
    ensures Sound(SetNodeZone(s, id, zone))
  {
    if id in s.nodes {
      var zoneOf := s.zoneOf[id := zone];
      ZoneIndexDrop(s.tips, s.zoneOf, id);
      ZoneIndexLocal(s.tips - {id}, s.zoneOf, zoneOf);
      ZoneIndexAdd(s.tips - {id}, zoneOf, id);
      if id in s.tips {
        assert s.tips - {id} + {id} == s.tips;
      } else {
        assert s.tips - {id} == s.tips;
      }
    }
  }

  lemma ExternalKeepsSound(s: State, c: Id, p: Id)
    requires Sound(s) && c in s.nodes
    ensures Sound(LinkExternal(s, c, p))
  {
    var r := LinkExternal(s, c, p);
    assert p in At(r.parents, c);
    forall q, d | d in At(r.children, q) ensures d in r.nodes && q in At(r.parents, d) {
      assert q in At(s.parents, d);
    }
  }

  lemma RelinkKeepsSound(s: State, p: Id)
    requires Sound(s) && Legal(s, RelinkOp(p))
    ensures Sound(Relink(s, p)) && Relink(s, p).nodes == s.nodes
  {
    var cs := At(s.orphans, p) * s.nodes;
    var r := Relink(s, p);
    if cs == {} {
      UnrelatedFieldsKeepSound(s, r);
    } else {
      var c0 :| c0 in cs;
      assert c0 in At(r.children, p);
      ZoneIndexDrop(s.tips, s.zoneOf, p);
      forall c, q ensures q in At(r.parents, c) <==> q in At(s.parents, c) || (c in cs && q == p) {}
      forall q, d | d in At(r.children, q) ensures d in r.nodes && q in At(r.parents, d) {
        if d in At(s.children, q) { assert q in At(s.parents, d); }
      }
    }
  }

  lemma {:induction false} RelinkAllKeepsSound(s: State, order: seq<Id>)
    requires Sound(s) && AllPresent(s.nodes, order)
    ensures Sound(RelinkAll(s, order)) && RelinkAll(s, order).nodes == s.nodes
  {
    if order != [] {
      RelinkAllKeepsSound(s, order[..|order| - 1]);
      RelinkKeepsSound(RelinkAll(s, order[..|order| - 1]), order[|order| - 1]);
    }
  }

  // ----- removal

  /** Under the invariant, removal takes `id` out of every child set and out of the parent sets that mirror it. */
  lemma RemoveEdges(s: State, id: Id)
    requires Sound(s) && id in s.nodes
    ensures forall p, c {:trigger c in At(Remove(s, id).children, p)} ::
              c in At(Remove(s, id).children, p) <==> c in At(s.children, p) && p != id && c != id
    ensures forall c, p {:trigger p in At(Remove(s, id).parents, c)} :: p in At(Remove(s, id).parents, c) <==>
              p in At(s.parents, c) && c != id && !(p == id && c in At(s.children, id))
  {
    forall p | p != id && id in At(s.children, p) ensures p in At(s.parents, id) {}
  }

  lemma RemoveZones(s: State, id: Id)
    requires s.zoneTips == ZoneIndex(s.tips, s.zoneOf) && id in s.nodes
    ensures Remove(s, id).zoneTips == ZoneIndex(Remove(s, id).tips, Remove(s, id).zoneOf)
  {
    ZoneIndexDrop(s.tips, s.zoneOf, id);
    ZoneIndexLocal(s.tips - {id}, s.zoneOf, s.zoneOf - {id});
    ZoneIndexAddAll(s.tips - {id}, s.zoneOf - {id}, Freed(s, id));
  }

  lemma RemoveFrontiers(s: State, r: State, id: Id)
    requires Sound(s) && id in s.nodes && r == Remove(s, id)
    ensures r.tips <= r.nodes && r.roots <= r.nodes
    ensures forall n {:trigger n in r.tips} | n in r.nodes :: n in r.tips <==> At(r.children, n) == {}
    ensures forall n {:trigger n in r.roots} | n in r.nodes :: n in r.roots <==> At(r.parents, n) == {}
  {
    forall n {:trigger n in r.tips} | n in r.nodes ensures n in r.tips <==> At(r.children, n) == {} {
      if id in At(s.children, n) { assert n in At(s.parents, id); }
      assert n in s.tips <==> At(s.children, n) == {};
    }
    forall n {:trigger n in r.roots} | n in r.nodes ensures n in r.roots <==> At(r.parents, n) == {} {
      assert n in s.roots <==> At(s.parents, n) == {};
    }
  }

  lemma RemoveKeepsSound(s: State, id: Id)
    requires Sound(s)
    ensures Sound(Remove(s, id))
  {
    var r := Remove(s, id);
    if id in s.nodes {
      RemoveEdges(s, id);
      RemoveZones(s, id);
      forall q, d {:trigger d in At(r.children, q)} | d in At(r.children, q)
        ensures d in r.nodes && q in At(r.parents, d)
      {
        assert d in At(s.children, q) && q in At(s.parents, d);
      }
      RemoveFrontiers(s, r, id);
    } else {
      UnrelatedFieldsKeepSound(s, r);
    }
  }

  lemma {:induction false} EvictAllKeepsSound(s: State, order: seq<Id>)
    requires Sound(s)
    ensures Sound(EvictAll(s, order))
  {
    if order != [] {
      var t := EvictAll(s, order[..|order| - 1]);
      EvictAllKeepsSound(s, order[..|order| - 1]);
      RemoveKeepsSound(t, order[|order| - 1]);
      UnrelatedFieldsKeepSound(Remove(t, order[|order| - 1]), EvictAll(s, order));
    }
  }

  lemma UnrelatedFieldsKeepSound(s: State, r: State)
    requires Sound(s) && r == s.(orphans := r.orphans, finalized := r.finalized, epoch := r.epoch)
    ensures Sound(r)
  {
  }

  // ----- mirroring: the edge maps agree in both directions, unless external links are made

  ghost predicate Mirrored(s: State) {
    forall p, c {:trigger p in At(s.parents, c)} :: p in At(s.parents, c) ==> c in At(s.children, p)
  }

  lemma ClaimedMirrored(s: State, t: State, id: Id, present: set<Id>)
    requires Mirrored(s) && id !in s.parents && Grown(s.children, t.children, present, id)
    requires t.parents == if present == {} then s.parents else s.parents[id := present]
    ensures Mirrored(t)
  {
    forall p, c {:trigger p in At(t.parents, c)} | p in At(t.parents, c) ensures c in At(t.children, p) {
      if c != id { assert p in At(s.parents, c); }
    }
  }

  lemma AttachMirrored(s: State, t: State, p: Id, cs: set<Id>)
    requires Mirrored(s) && cs != {} && t.children == Attach(s, p, cs).children && t.parents == Attach(s, p, cs).parents
    ensures Mirrored(t)
  {
    forall q, c {:trigger q in At(t.parents, c)} | q in At(t.parents, c) ensures c in At(t.children, q) {
      if q in At(s.parents, c) { assert c in At(s.children, q); }
    }
  }

  // ----- whole runs

  lemma StepKeepsSound(s: State, op: Op)
    requires Sound(s) && Legal(s, op)
    ensures Sound(Apply(s, op))
  {
    match op
    case InsertOp(id, ps, ts, zone) => if Accepts(s, id, ps) { InsertKeepsSound(s, id, ps, ts, zone); }
    case TolerantOp(id, ps, ts, zone) => if id !in s.nodes { TolerantKeepsSound(s, id, ps, ts, zone); }
    case ZoneOp(id, zone) => ZoneKeepsSound(s, id, zone);
    case ExternalOp(c, p) => ExternalKeepsSound(s, c, p);
    case RelinkOp(p) => RelinkKeepsSound(s, p);
    case ReindexOp(order) => RelinkAllKeepsSound(s, order);
    case RemoveOp(id) => RemoveKeepsSound(s, id);
    case EvictOp(order) => EvictAllKeepsSound(s, order);
    case _ => UnrelatedFieldsKeepSound(s, Apply(s, op));
  }

  lemma {:induction false} RunKeepsSound(s: State, ops: seq<Op>)
    requires Sound(s) && LegalRun(s, ops)
    ensures Sound(Run(s, ops))
  {
    if ops != [] {
      RunKeepsSound(s, ops[..|ops| - 1]);
      StepKeepsSound(Run(s, ops[..|ops| - 1]), ops[|ops| - 1]);
    }
  }

  /** In every reachable state `rebuild_indices` changes nothing. */
  lemma IndicesNeverDrift(ops: seq<Op>)
    requires LegalRun(EMPTY, ops)
    ensures Exact(Run(EMPTY, ops))
  {
    assert ZoneIndex({}, map[]) == map[];
    assert Sound(EMPTY);
    RunKeepsSound(EMPTY, ops);
    SoundIsExact(Run(EMPTY, ops));
  }

  /** Some legal continuation of `s` ends with indices that `rebuild_indices` would change. */
  ghost predicate CanDrift(s: State) {
    exists more :: LegalRun(s, more) && !Exact(Run(s, more))
  }

  /**
    `Legal` is exact: the two unchecked calls, made outside it, always open a run that ends in drift.
    (`reindex_orphans` filters its parents itself.)
   */
  lemma LegalExactlyWhenNoDrift(s: State, op: Op)
    requires Sound(s) && (op.ReindexOp? ==> AllPresent(s.nodes, op.order))
    ensures Legal(s, op) <==> !CanDrift(Apply(s, op))
  {
    var t := Apply(s, op);
    if Legal(s, op) {
      StepKeepsSound(s, op);
      forall more | LegalRun(t, more) ensures Exact(Run(t, more)) {
        RunKeepsSound(t, more);
        SoundIsExact(Run(t, more));
      }
    } else {
      var id := if op.ExternalOp? then op.child else op.parent;
      var late := InsertOp(id, [], 0.0, None);
      var u := Apply(t, late);
      assert Run(t, [late]) == u by { assert [late][..0] == []; }
      assert LegalRun(t, [late]);
      if op.ExternalOp? {
        assert op.parent in At(u.parents, id) && id in u.roots;
        assert id !in RootsOf(u);
      } else {
        assert At(s.orphans, id) * s.nodes <= At(u.children, id) && id in u.tips;
        assert id !in TipsOf(u);
      }
    }
  }
}
