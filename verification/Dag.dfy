/**
  The in-memory DAG index (src/dag.rs) as a value: the struct's eleven fields and one function per
  mutating operation.  Every function is defined on every value of the fields, reachable or not; what
  reachable values satisfy is proved in the modules that import this one.  The class in DagIndex.dfy
  performs the same updates in place.
 */
module Dag {
  import opened Basics

  // Record ids and zone ids are only ever compared for equality.
  type Id(==, !new)
  type Zone(==, !new)

  datatype State = State(
    children: map<Id, set<Id>>,
    parents: map<Id, set<Id>>,
    nodes: set<Id>,
    timestamps: map<Id, real>,
    orphans: map<Id, set<Id>>,
    finalized: map<Id, nat>,
    epoch: nat,
    roots: set<Id>,
    tips: set<Id>,
    zoneOf: map<Id, Zone>,
    zoneTips: map<Zone, set<Id>>)

  const EMPTY := State(map[], map[], {}, map[], map[], map[], 0, {}, {}, map[], map[])

  const HOT_EPOCH_WINDOW: nat := 3

  // ----- map-of-sets helpers: `get`, `entry().or_default().insert()`, remove-and-prune

  function At(m: map<Id, set<Id>>, k: Id): set<Id> {
    if k in m then m[k] else {}
  }

  function Put(m: map<Id, set<Id>>, k: Id, v: Id): map<Id, set<Id>> {
    m[k := At(m, k) + {v}]
  }

  function Take(m: map<Id, set<Id>>, k: Id, v: Id): map<Id, set<Id>> {
    if k !in m then m
    else if m[k] - {v} == {} then m - {k}
    else m[k := m[k] - {v}]
  }

  // ----- the per-zone shadow of the frontier

  function TipsFor(zoneTips: map<Zone, set<Id>>, z: Zone): set<Id> {
    if z in zoneTips then zoneTips[z] else {}
  }

  function ZoneAdd(zoneTips: map<Zone, set<Id>>, zoneOf: map<Id, Zone>, id: Id): map<Zone, set<Id>> {
    if id !in zoneOf then zoneTips
    else zoneTips[zoneOf[id] := TipsFor(zoneTips, zoneOf[id]) + {id}]
  }

  function ZoneDrop(zoneTips: map<Zone, set<Id>>, zoneOf: map<Id, Zone>, id: Id): map<Zone, set<Id>> {
    if id !in zoneOf || zoneOf[id] !in zoneTips then zoneTips
    else if zoneTips[zoneOf[id]] - {id} == {} then zoneTips - {zoneOf[id]}
    else zoneTips[zoneOf[id] := zoneTips[zoneOf[id]] - {id}]
  }

  // ----- the derived indices, computed from scratch

  function RootsOf(s: State): set<Id> {
    set n | n in s.nodes && At(s.parents, n) == {}
  }

  function TipsOf(s: State): set<Id> {
    set n | n in s.nodes && At(s.children, n) == {}
  }

  function ZonesOf(ids: set<Id>, zoneOf: map<Id, Zone>): set<Zone> {
    set n | n in ids && n in zoneOf :: zoneOf[n]
  }

  function InZone(ids: set<Id>, zoneOf: map<Id, Zone>, z: Zone): set<Id> {
    set n | n in ids && n in zoneOf && zoneOf[n] == z
  }

  function ZoneIndex(tips: set<Id>, zoneOf: map<Id, Zone>): map<Zone, set<Id>> {
    map z | z in ZonesOf(tips, zoneOf) :: InZone(tips, zoneOf, z)
  }

  function Rebuild(s: State): State {
    s.(roots := RootsOf(s), tips := TipsOf(s), zoneTips := ZoneIndex(TipsOf(s), s.zoneOf))
  }

  // ----- wiring

  /** Parent `p` gains child `c`: both edge maps, and `p` leaves the frontier. */
  function Wire(s: State, p: Id, c: Id): State {
    s.(children := Put(s.children, p, c),
       parents := Put(s.parents, c, p),
       tips := s.tips - {p},
       zoneTips := ZoneDrop(s.zoneTips, s.zoneOf, p))
  }

  function WireAll(s: State, ps: seq<Id>, c: Id): State {
    if ps == [] then s else Wire(WireAll(s, ps[..|ps| - 1], c), ps[|ps| - 1], c)
  }

  /** A claimed parent is wired when present and recorded as a waiting edge when not. */
  function Claim(s: State, p: Id, c: Id): State {
    if p in s.nodes then Wire(s, p, c) else s.(orphans := Put(s.orphans, p, c))
  }

  function ClaimAll(s: State, ps: seq<Id>, c: Id): State {
    if ps == [] then s else Claim(ClaimAll(s, ps[..|ps| - 1], c), ps[|ps| - 1], c)
  }

  function AddNode(s: State, id: Id, ts: real, isRoot: bool): State {
    s.(nodes := s.nodes + {id},
       timestamps := s.timestamps[id := ts],
       tips := s.tips + {id},
       zoneTips := ZoneAdd(s.zoneTips, s.zoneOf, id),
       roots := if isRoot then s.roots + {id} else s.roots)
  }

  function Missing(nodes: set<Id>, ps: seq<Id>): nat {
    if ps == [] then 0
    else Missing(nodes, ps[..|ps| - 1]) + if ps[|ps| - 1] in nodes then 0 else 1
  }

  predicate AllPresent(nodes: set<Id>, ps: seq<Id>) {
    forall i | 0 <= i < |ps| :: ps[i] in nodes
  }

  predicate Accepts(s: State, id: Id, ps: seq<Id>) {
    id !in s.nodes && AllPresent(s.nodes, ps)
  }

  function Insert(s: State, id: Id, ps: seq<Id>, ts: real): State {
    if Accepts(s, id, ps) then AddNode(WireAll(s, ps, id), id, ts, ps == []) else s
  }

  function InsertTolerant(s: State, id: Id, ps: seq<Id>, ts: real): State {
    if id in s.nodes then s
    else AddNode(ClaimAll(s, ps, id), id, ts, Missing(s.nodes, ps) == |ps|)
  }

  function Register(s: State, id: Id, zone: Option<Zone>): State {
    if zone.Some? then s.(zoneOf := s.zoneOf[id := zone.value]) else s
  }

  function SetNodeZone(s: State, id: Id, zone: Zone): State {
    if id !in s.nodes then s
    else
      var dropped := ZoneDrop(s.zoneTips, s.zoneOf, id);
      var zoneOf := s.zoneOf[id := zone];
      s.(zoneOf := zoneOf,
         zoneTips := if id in s.tips then ZoneAdd(dropped, zoneOf, id) else dropped)
  }

  function LinkExternal(s: State, c: Id, p: Id): State {
    s.(parents := Put(s.parents, c, p), roots := s.roots - {c}, orphans := Take(s.orphans, p, c))
  }

  // ----- re-linking

  function AddParent(parents: map<Id, set<Id>>, p: Id, cs: set<Id>): map<Id, set<Id>> {
    map c | c in parents.Keys + cs :: if c in cs then At(parents, c) + {p} else At(parents, c)
  }

  /** `Wire` for each child of the set `cs`, each of which then stops being a root. */
  function Attach(s: State, p: Id, cs: set<Id>): State {
    if cs == {} then s
    else
      s.(children := s.children[p := At(s.children, p) + cs],
         parents := AddParent(s.parents, p, cs),
         tips := s.tips - {p},
         zoneTips := ZoneDrop(s.zoneTips, s.zoneOf, p),
         roots := s.roots - cs)
  }

  function Relink(s: State, p: Id): State {
    Attach(s.(orphans := s.orphans - {p}), p, At(s.orphans, p) * s.nodes)
  }

  function RelinkAll(s: State, ps: seq<Id>): State {
    if ps == [] then s else Relink(RelinkAll(s, ps[..|ps| - 1]), ps[|ps| - 1])
  }

  // ----- removal

  /** `m` with `v` taken out of the sets of the keys `ks`; an emptied set stays in the map. */
  function DropFrom(m: map<Id, set<Id>>, ks: set<Id>, v: Id): map<Id, set<Id>> {
    map k | k in m :: if k in ks then m[k] - {v} else m[k]
  }

  /** Parents of `id` that are left without children and are still present. */
  function Freed(s: State, id: Id): set<Id> {
    set p | p in At(s.parents, id) && p in s.children && s.children[p] - {id} == {} && p in s.nodes && p != id
  }

  /** Children of `id` that are left without parents and are still present. */
  function Bereft(s: State, id: Id): set<Id> {
    set c | c in At(s.children, id) && c in s.parents && s.parents[c] - {id} == {} && c in s.nodes && c != id
  }

  function ZoneAddAll(zoneTips: map<Zone, set<Id>>, zoneOf: map<Id, Zone>, ids: set<Id>): map<Zone, set<Id>> {
    map z | z in zoneTips.Keys + ZonesOf(ids, zoneOf) :: TipsFor(zoneTips, z) + InZone(ids, zoneOf, z)
  }

  function Remove(s: State, id: Id): State {
    if id !in s.nodes then s.(orphans := s.orphans - {id})
    else
      s.(orphans := s.orphans - {id},
         nodes := s.nodes - {id},
         timestamps := s.timestamps - {id},
         zoneOf := s.zoneOf - {id},
         children := DropFrom(s.children - {id}, At(s.parents, id), id),
         parents := DropFrom(s.parents - {id}, At(s.children, id), id),
         tips := s.tips - {id} + Freed(s, id),
         zoneTips := ZoneAddAll(ZoneDrop(s.zoneTips, s.zoneOf, id), s.zoneOf - {id}, Freed(s, id)),
         roots := s.roots - {id} + Bereft(s, id))
  }

  /** Removal as the eviction methods do it: the finalization mark goes too. */
  function Evict(s: State, id: Id): State {
    var r := Remove(s, id);
    r.(finalized := r.finalized - {id})
  }

  function EvictAll(s: State, ids: seq<Id>): State {
    if ids == [] then s else Evict(EvictAll(s, ids[..|ids| - 1]), ids[|ids| - 1])
  }

  // ----- runs

  /**
    One call on the index.  `Reindex` and `EvictMany` carry the order in which the implementation's
    hash iteration happens to visit the ids; `DropWaiting` carries the parent groups given up by
    `prune_orphan_edges` or `remove_orphan_parent`.
   */
  datatype Op =
    | InsertOp(id: Id, claims: seq<Id>, ts: real, zone: Option<Zone>)
    | TolerantOp(id: Id, claims: seq<Id>, ts: real, zone: Option<Zone>)
    | ZoneOp(id: Id, newZone: Zone)
    | ExternalOp(child: Id, parent: Id)
    | RelinkOp(parent: Id)
    | ReindexOp(order: seq<Id>)
    | DropWaitingOp(groups: set<Id>)
    | RemoveOp(id: Id)
    | EvictOp(order: seq<Id>)
    | FinalizeOp(id: Id, at: nat)
    | EpochOp(at: nat)

  function Apply(s: State, op: Op): State {
    match op
    case InsertOp(id, ps, ts, zone) =>
      if Accepts(s, id, ps) then Insert(Register(s, id, zone), id, ps, ts) else s
    case TolerantOp(id, ps, ts, zone) =>
      if id in s.nodes then s else InsertTolerant(Register(s, id, zone), id, ps, ts)
    case ZoneOp(id, zone) => SetNodeZone(s, id, zone)
    case ExternalOp(c, p) => LinkExternal(s, c, p)
    case RelinkOp(p) => Relink(s, p)
    case ReindexOp(order) => RelinkAll(s, order)
    case DropWaitingOp(groups) => s.(orphans := s.orphans - groups)
    case RemoveOp(id) => Remove(s, id)
    case EvictOp(order) => EvictAll(s, order)
    case FinalizeOp(id, at) => if id in s.nodes then s.(finalized := s.finalized[id := at]) else s
    case EpochOp(at) => if at > s.epoch then s.(epoch := at) else s
  }

  function Run(s: State, ops: seq<Op>): State {
    if ops == [] then s else Apply(Run(s, ops[..|ops| - 1]), ops[|ops| - 1])
  }

  // ----- sequences that enumerate a set

  function Elems<T>(xs: seq<T>): set<T> {
    set x | x in xs
  }

  predicate Enumerates<T(==)>(order: seq<T>, xs: set<T>) {
    && Elems(order) == xs
    && forall i, j | 0 <= i < j < |order| :: order[i] != order[j]
  }

  lemma ElemsSnoc<T>(xs: seq<T>)
    requires xs != []
    ensures Elems(xs) == Elems(xs[..|xs| - 1]) + {xs[|xs| - 1]}
  {
    assert xs == xs[..|xs| - 1] + [xs[|xs| - 1]];
  }
}
