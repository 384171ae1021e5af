/**
  The index as the implementation keeps it: a struct whose maps and sets are updated in place, each
  method tied to the function of Dag.dfy that says what it computes.  No method assumes anything about
  the fields; what holds of reachable states is stated under `Sound`.
 */
module DagIndex {
  import opened Basics
  import opened Dag
  import opened DagIndices
  import opened DagEviction
  import opened DagEffects
  import opened DagOrdering
  import opened DagPaths

  datatype InsertResult = Inserted | DuplicateRecord(id: Id) | MissingParent(id: Id)

  /** What a strict insert answers: a known id, else the first absent parent in list order, else success. */
  ghost predicate Answers(nodes: set<Id>, id: Id, parentIds: seq<Id>, r: InsertResult) {
    match r
    case Inserted => id !in nodes && AllPresent(nodes, parentIds)
    case DuplicateRecord(x) => x == id && id in nodes
    case MissingParent(x) =>
      id !in nodes && exists i {:trigger parentIds[i]} ::
        0 <= i < |parentIds| && parentIds[i] == x && x !in nodes && AllPresent(nodes, parentIds[..i])
  }

  class DagIndex {
    var children: map<Id, set<Id>>
    var parents: map<Id, set<Id>>
    var nodes: set<Id>
    var timestamps: map<Id, real>
    var orphanEdges: map<Id, set<Id>>
    var finalizedEpoch: map<Id, nat>
    var currentEpoch: nat
    var rootsIdx: set<Id>
    var tipsIdx: set<Id>
    var nodeZone: map<Id, Zone>
    var tipsPerZone: map<Zone, set<Id>>

    ghost function Value(): State
      reads this
    {
      State(children, parents, nodes, timestamps, orphanEdges, finalizedEpoch, currentEpoch,
            rootsIdx, tipsIdx, nodeZone, tipsPerZone)
    }

    constructor ()
      ensures Value() == EMPTY
    {
      children, parents, nodes, timestamps := map[], map[], {}, map[];
      orphanEdges, finalizedEpoch, currentEpoch := map[], map[], 0;
      rootsIdx, tipsIdx, nodeZone, tipsPerZone := {}, {}, map[], map[];
    }

    // ----- indices

    method TipsPerZoneInsert(id: Id)
      modifies this`tipsPerZone
      ensures tipsPerZone == ZoneAdd(old(tipsPerZone), nodeZone, id)
    {
      if id in nodeZone {
        var zone := nodeZone[id];
        tipsPerZone := tipsPerZone[zone := (if zone in tipsPerZone then tipsPerZone[zone] else {}) + {id}];
      }
    }

    method TipsPerZoneRemove(id: Id)
      modifies this`tipsPerZone
      ensures tipsPerZone == ZoneDrop(old(tipsPerZone), nodeZone, id)
    {
      if id in nodeZone && nodeZone[id] in tipsPerZone {
        var zone := nodeZone[id];
        tipsPerZone := tipsPerZone[zone := tipsPerZone[zone] - {id}];
        if tipsPerZone[zone] == {} {
          tipsPerZone := tipsPerZone - {zone};
        }
      }
    }

    method RebuildIndices()
      modifies this`rootsIdx, this`tipsIdx, this`tipsPerZone
      ensures Value() == Rebuild(old(Value()))
    {
      ghost var roots, tips := RootsOf(Value()), TipsOf(Value());
      rootsIdx, tipsIdx, tipsPerZone := {}, {}, map[];
      assert ZoneIndex({}, nodeZone) == map[];
      var todo := nodes;
      while todo != {}
        invariant todo <= nodes
        invariant rootsIdx == roots - todo && tipsIdx == tips - todo
        invariant tipsPerZone == ZoneIndex(tipsIdx, nodeZone)
        decreases todo
      {
        var id :| id in todo;
        assert id in roots <==> id !in parents || parents[id] == {};
        assert id in tips <==> id !in children || children[id] == {};
        LessLeft(roots, todo, id);
        LessLeft(tips, todo, id);
        todo := todo - {id};
        if id !in parents || parents[id] == {} {
          rootsIdx := rootsIdx + {id};
        }
        if id !in children || children[id] == {} {
          ZoneIndexAdd(tipsIdx, nodeZone, id);
          tipsIdx := tipsIdx + {id};
          TipsPerZoneInsert(id);
        }
      }
      assert roots - todo == roots && tips - todo == tips;
    }

    // ----- insertion

    method WireEdge(p: Id, c: Id)
      modifies this
      ensures Value() == Wire(old(Value()), p, c)
    {
      children := children[p := (if p in children then children[p] else {}) + {c}];
      parents := parents[c := (if c in parents then parents[c] else {}) + {p}];
      tipsIdx := tipsIdx - {p};
      TipsPerZoneRemove(p);
    }

    method AddRecord(id: Id, timestamp: real, isRoot: bool)
      modifies this
      ensures Value() == AddNode(old(Value()), id, timestamp, isRoot)
    {
      nodes := nodes + {id};
      timestamps := timestamps[id := timestamp];
      tipsIdx := tipsIdx + {id};
      TipsPerZoneInsert(id);
      if isRoot {
        rootsIdx := rootsIdx + {id};
      }
    }

    /** The checks made before a strict insert touches anything; a missing parent is reported in list order. */
    method Admit(id: Id, parentIds: seq<Id>) returns (r: InsertResult)
      ensures r.Inserted? <==> Accepts(Value(), id, parentIds)
      ensures Answers(nodes, id, parentIds, r)
    {
      if id in nodes {
        return DuplicateRecord(id);
      }
      for i := 0 to |parentIds|
        invariant AllPresent(nodes, parentIds[..i])
      {
        if parentIds[i] !in nodes {
          return MissingParent(parentIds[i]);
        }
      }
      assert parentIds[..|parentIds|] == parentIds;
      return Inserted;
    }

    method Insert(id: Id, parentIds: seq<Id>, timestamp: real) returns (r: InsertResult)
      modifies this
      ensures r.Inserted? <==> old(Accepts(Value(), id, parentIds))
      ensures Answers(old(nodes), id, parentIds, r)
      ensures Value() == Dag.Insert(old(Value()), id, parentIds, timestamp)
      ensures Value() == Apply(old(Value()), InsertOp(id, parentIds, timestamp, None))
      ensures old(Sound(Value())) ==> Effect(old(Value()), InsertOp(id, parentIds, timestamp, None), Value())
    {
      if Sound(Value()) { StepExactly(Value(), InsertOp(id, parentIds, timestamp, None)); }
      r := Admit(id, parentIds);
      if !r.Inserted? { return; }
      ghost var s := Value();
      for i := 0 to |parentIds|
        invariant Value() == WireAll(s, parentIds[..i], id)
      {
        assert parentIds[..i + 1][..i] == parentIds[..i];
        WireEdge(parentIds[i], id);
      }
      assert parentIds[..|parentIds|] == parentIds;
      AddRecord(id, timestamp, parentIds == []);
    }

    method InsertWithZone(id: Id, parentIds: seq<Id>, timestamp: real, zone: Zone) returns (r: InsertResult)
      modifies this
      ensures r.Inserted? <==> old(Accepts(Value(), id, parentIds))
      ensures Answers(old(nodes), id, parentIds, r)
      ensures Value() == Apply(old(Value()), InsertOp(id, parentIds, timestamp, Some(zone)))
      ensures old(Sound(Value())) ==> Effect(old(Value()), InsertOp(id, parentIds, timestamp, Some(zone)), Value())
    {
      if Sound(Value()) { StepExactly(Value(), InsertOp(id, parentIds, timestamp, Some(zone))); }
      r := Admit(id, parentIds);
      if !r.Inserted? { return; }
      nodeZone := nodeZone[id := zone];
      r := Insert(id, parentIds, timestamp);
    }

    method InsertTolerant(id: Id, parentIds: seq<Id>, timestamp: real) returns (missing: nat)
      modifies this
      ensures missing == if old(id in nodes) then 0 else |AbsentPlaces(old(nodes), parentIds)|
      ensures Value() == Dag.InsertTolerant(old(Value()), id, parentIds, timestamp)
      ensures Value() == Apply(old(Value()), TolerantOp(id, parentIds, timestamp, None))
      ensures old(Sound(Value())) ==> Effect(old(Value()), TolerantOp(id, parentIds, timestamp, None), Value())
    {
      if Sound(Value()) { StepExactly(Value(), TolerantOp(id, parentIds, timestamp, None)); }
      MissingExactly(nodes, parentIds);
      missing := 0;
      if id in nodes { return; }
      ghost var s := Value();
      for i := 0 to |parentIds|
        invariant Value() == ClaimAll(s, parentIds[..i], id) && nodes == s.nodes
        invariant missing == Missing(s.nodes, parentIds[..i])
      {
        var pid := parentIds[i];
        assert parentIds[..i + 1][..i] == parentIds[..i];
        if pid in nodes {
          WireEdge(pid, id);
        } else {
          orphanEdges := orphanEdges[pid := (if pid in orphanEdges then orphanEdges[pid] else {}) + {id}];
          missing := missing + 1;
        }
      }
      assert parentIds[..|parentIds|] == parentIds;
      AddRecord(id, timestamp, parentIds == [] || missing == |parentIds|);
    }

    method InsertTolerantWithZone(id: Id, parentIds: seq<Id>, timestamp: real, zone: Zone) returns (missing: nat)
      modifies this
      ensures missing == if old(id in nodes) then 0 else |AbsentPlaces(old(nodes), parentIds)|
      ensures Value() == Apply(old(Value()), TolerantOp(id, parentIds, timestamp, Some(zone)))
      ensures old(Sound(Value())) ==> Effect(old(Value()), TolerantOp(id, parentIds, timestamp, Some(zone)), Value())
    {
      if Sound(Value()) { StepExactly(Value(), TolerantOp(id, parentIds, timestamp, Some(zone))); }
      if id in nodes { return 0; }
      nodeZone := nodeZone[id := zone];
      missing := InsertTolerant(id, parentIds, timestamp);
    }

    method RegisterZone(id: Id, zone: Zone)
      modifies this
      ensures Value() == SetNodeZone(old(Value()), id, zone)
      ensures old(Sound(Value())) ==> Rezones(old(Value()), Value(), id, zone)
    {
      ghost var s := Value();
      if id !in nodes { return; }
      TipsPerZoneRemove(id);
      nodeZone := nodeZone[id := zone];
      if id in tipsIdx {
        TipsPerZoneInsert(id);
      }
      assert Value() == SetNodeZone(s, id, zone);
      if Sound(s) { ZoneExactly(s, id, zone); }
    }

    // ----- waiting edges

    /** `childId` no longer waits for `parentId`. */
    method StopWaiting(parentId: Id, childId: Id)
      modifies this`orphanEdges
      ensures orphanEdges == Take(old(orphanEdges), parentId, childId)
    {
      if parentId in orphanEdges {
        orphanEdges := orphanEdges[parentId := orphanEdges[parentId] - {childId}];
        if orphanEdges[parentId] == {} {
          orphanEdges := orphanEdges - {parentId};
        }
      }
    }

    method LinkExternalParent(childId: Id, parentId: Id)
      modifies this
      ensures Value() == LinkExternal(old(Value()), childId, parentId)
      ensures LinksExternally(old(Value()), Value(), childId, parentId)
    {
      ExternalExactly(Value(), childId, parentId);
      parents := parents[childId := (if childId in parents then parents[childId] else {}) + {parentId}];
      rootsIdx := rootsIdx - {childId};
      StopWaiting(parentId, childId);
    }

    method AttachEdge(p: Id, c: Id, ghost s: State, ghost done: set<Id>)
      requires Value() == Attach(s, p, done)
      modifies this
      ensures Value() == Attach(s, p, done + {c})
    {
      AttachOne(s, p, done, c);
      WireEdge(p, c);
      rootsIdx := rootsIdx - {c};
    }

    method RelinkSingleParent(parentId: Id) returns (linked: nat)
      modifies this
      ensures Value() == Relink(old(Value()), parentId) && Relinks(old(Value()), Value(), {parentId})
      ensures linked == |At(old(orphanEdges), parentId) * old(nodes)|
    {
      linked := 0;
      RelinkExactly(Value(), parentId);
      if parentId !in orphanEdges {
        assert orphanEdges - {parentId} == orphanEdges;
        return;
      }
      var todo := orphanEdges[parentId];
      orphanEdges := orphanEdges - {parentId};
      ghost var s, all, done := Value(), todo, {};
      while todo != {}
        invariant todo <= all && done <= all * s.nodes && done !! todo
        invariant forall c | c in all && c in s.nodes :: c in todo || c in done
        invariant Value() == Attach(s, parentId, done) && linked == |done|
        decreases todo
      {
        var cid :| cid in todo;
        todo := todo - {cid};
        if cid in nodes {
          AttachEdge(parentId, cid, s, done);
          done := done + {cid};
          linked := linked + 1;
        }
      }
      assert done == all * s.nodes;
    }

    method ReindexOrphans() returns (linked: nat, ghost order: seq<Id>)
      modifies this
      ensures Enumerates(order, old(orphanEdges.Keys * nodes))
      ensures Value() == RelinkAll(old(Value()), order) && Relinks(old(Value()), Value(), old(orphanEdges.Keys * nodes))
      ensures linked == Weight(Ready(old(Value()))) == |ReadyPairs(old(Value()))|
    {
      linked, order := 0, [];
      ghost var s := Value();
      var todo := orphanEdges.Keys * nodes;
      ghost var all := todo;
      assert Ready(s).Keys == todo;
      while todo != {}
        invariant todo <= all && Enumerates(order, all - todo)
        invariant Value() == RelinkAll(s, order) && linked + WeightOf(Ready(s), todo) == Weight(Ready(s))
        decreases todo
      {
        var pid :| pid in todo;
        ReindexStep(s, order, all, todo, pid);
        var n := RelinkSingleParent(pid);
        linked, order, todo := linked + n, order + [pid], todo - {pid};
      }
      RelinkAllExactly(s, order);
      ReadyCounted(s);
    }

    /** The number of waiting edges. */
    method OrphanCount() returns (count: nat)
      ensures count == Weight(orphanEdges)
    {
      count := 0;
      var todo := orphanEdges.Keys;
      while todo != {}
        invariant todo <= orphanEdges.Keys
        invariant count + WeightOf(orphanEdges, todo) == Weight(orphanEdges)
        decreases todo
      {
        var k :| k in todo;
        WeightSplit(orphanEdges, todo, k);
        count, todo := count + |orphanEdges[k]|, todo - {k};
      }
    }

    method RemoveOrphanParent(parentId: Id) returns (removed: nat)
      modifies this`orphanEdges
      ensures orphanEdges == old(orphanEdges) - {parentId}
      ensures removed + Weight(orphanEdges) == Weight(old(orphanEdges))
    {
      if parentId in orphanEdges {
        WeightWithout(orphanEdges, {parentId});
        WeightSplit(orphanEdges, {parentId}, parentId);
        assert {parentId} - {parentId} == {};
        removed := |orphanEdges[parentId]|;
        orphanEdges := orphanEdges - {parentId};
      } else {
        removed := 0;
        assert orphanEdges - {parentId} == orphanEdges;
      }
    }

    method LargestGroupsFirst() returns (order: seq<Id>)
      ensures LargestFirst(order, orphanEdges)
    {
      var key := map k | k in orphanEdges :: -(|orphanEdges[k]| as real);
      order := SortBy(key);
      forall i | 0 <= i < |order| ensures order[i] in orphanEdges { assert order[i] in Elems(order); }
    }

    /** Drop groups from the front of the list until `target` edges are gone. */
    method DropFront(order: seq<Id>, target: nat) returns (removed: nat, ghost i: nat)
      requires LargestFirst(order, orphanEdges)
      modifies this`orphanEdges
      ensures i <= |order| && orphanEdges == old(orphanEdges) - Elems(order[..i])
      ensures removed == Front(old(orphanEdges), order, i)
      ensures i > 0 ==> Front(old(orphanEdges), order, i - 1) < target
      ensures i == |order| || target <= removed
    {
      orphanEdges, removed, i := DropGroups(orphanEdges, order, target);
    }

    /**
      At most `maxEntries` waiting edges are left, the result counts the edges dropped, and no choice of
      parent groups that gets there drops fewer groups.
     */
    method PruneOrphanEdges(maxEntries: nat) returns (removed: nat, ghost dropped: set<Id>)
      modifies this`orphanEdges
      ensures dropped <= old(orphanEdges).Keys && orphanEdges == old(orphanEdges) - dropped
      ensures Weight(orphanEdges) <= maxEntries
      ensures removed + Weight(orphanEdges) == Weight(old(orphanEdges))
      ensures forall ks: set<Id> | ks <= old(orphanEdges).Keys && Weight(old(orphanEdges) - ks) <= maxEntries ::
          |dropped| <= |ks|
    {
      ghost var m := orphanEdges;
      removed, dropped := 0, {};
      var current := OrphanCount();
      assert m - {} == m;
      if current <= maxEntries { return; }
      var order := LargestGroupsFirst();
      ghost var i;
      removed, i := DropFront(order, current - maxEntries);
      dropped := Elems(order[..i]);
      assert order[..|order|] == order;
      FrontIsWeight(m, order, |order|);
      PruneEnough(m, order, i, maxEntries);
    }

    // ----- removal

    /** Take `id` out of the child sets of `ps`; a parent left without children is a tip again. */
    method LeaveParents(id: Id, ps: set<Id>)
      modifies this`children, this`tipsIdx, this`tipsPerZone
      ensures children == DropFrom(old(children), ps, id)
      ensures tipsIdx == old(tipsIdx) + Emptied(old(children), ps, id) * nodes
      ensures tipsPerZone == ZoneAddAll(old(tipsPerZone), nodeZone, Emptied(old(children), ps, id) * nodes)
    {
      ghost var m, zones := children, tipsPerZone;
      ghost var freed: set<Id>, gone: set<Id> := {}, {};
      DropFromStep(m, {}, id, id);
      ZoneAddAllNone(zones, nodeZone);
      var todo := ps;
      while todo != {}
        invariant todo <= ps && gone == ps - todo && children == DropFrom(m, gone, id)
        invariant freed == Emptied(m, gone, id) * nodes
        invariant tipsIdx == old(tipsIdx) + freed && tipsPerZone == ZoneAddAll(zones, nodeZone, freed)
        decreases todo
      {
        var pid :| pid in todo;
        DropFromStep(m, gone, id, pid);
        FreedStep(m, gone, id, pid, nodes);
        todo, gone := todo - {pid}, gone + {pid};
        if pid in children {
          children := children[pid := children[pid] - {id}];
          if children[pid] == {} && pid in nodes {
            ZoneAddAllOne(zones, nodeZone, freed, pid);
            tipsIdx := tipsIdx + {pid};
            TipsPerZoneInsert(pid);
            freed := freed + {pid};
          }
        }
      }
      assert ps - {} == ps;
    }

    /** Take `id` out of the parent sets of `cs`; a child left without parents becomes a root. */
    method LeaveChildren(id: Id, cs: set<Id>)
      modifies this`parents, this`rootsIdx
      ensures parents == DropFrom(old(parents), cs, id)
      ensures rootsIdx == old(rootsIdx) + Emptied(old(parents), cs, id) * nodes
    {
      ghost var m := parents;
      DropFromStep(m, {}, id, id);
      var todo := cs;
      while todo != {}
        invariant todo <= cs && parents == DropFrom(m, cs - todo, id)
        invariant rootsIdx == old(rootsIdx) + Emptied(m, cs - todo, id) * nodes
        decreases todo
      {
        var cid :| cid in todo;
        DropFromStep(m, cs - todo, id, cid);
        assert cs - (todo - {cid}) == cs - todo + {cid};
        todo := todo - {cid};
        if cid in parents {
          parents := parents[cid := parents[cid] - {id}];
          if parents[cid] == {} && cid in nodes {
            rootsIdx := rootsIdx + {cid};
          }
        }
      }
      assert cs - {} == cs;
    }

    /** Drop everything about `id` except its edges. */
    method Unlist(id: Id)
      modifies this
      ensures Value() == old(Value()).(
                nodes := old(nodes) - {id}, timestamps := old(timestamps) - {id}, roots := old(rootsIdx) - {id},
                tips := old(tipsIdx) - {id}, zoneOf := old(nodeZone) - {id},
                zoneTips := ZoneDrop(old(tipsPerZone), old(nodeZone), id))
    {
      nodes := nodes - {id};
      timestamps := timestamps - {id};
      rootsIdx := rootsIdx - {id};
      tipsIdx := tipsIdx - {id};
      TipsPerZoneRemove(id);
      nodeZone := nodeZone - {id};
    }

    /** Drop the edges of `id`, parents' side first. */
    method Unlink(id: Id, ghost ps: set<Id>, ghost cs: set<Id>)
      requires ps == At(parents, id) && cs == At(DropFrom(children, ps, id), id)
      modifies this`children, this`parents, this`tipsIdx, this`tipsPerZone, this`rootsIdx
      ensures children == DropFrom(old(children), ps, id) - {id}
      ensures parents == DropFrom(old(parents) - {id}, cs, id)
      ensures tipsIdx == old(tipsIdx) + Emptied(old(children), ps, id) * nodes
      ensures tipsPerZone == ZoneAddAll(old(tipsPerZone), nodeZone, Emptied(old(children), ps, id) * nodes)
      ensures rootsIdx == old(rootsIdx) + Emptied(old(parents) - {id}, cs, id) * nodes
    {
      var parentIds := if id in parents then parents[id] else {};
      parents := parents - {id};
      LeaveParents(id, parentIds);
      var childIds := if id in children then children[id] else {};
      children := children - {id};
      LeaveChildren(id, childIds);
    }

    method Remove(id: Id)
      modifies this
      ensures Value() == Dag.Remove(old(Value()), id)
      ensures old(Sound(Value())) ==> Sound(Value()) && Drops(old(Value()), Value(), {id})
    {
      if Sound(Value()) { StepExactly(Value(), RemoveOp(id)); }
      ghost var s := Value();
      orphanEdges := orphanEdges - {id};
      if id !in nodes { return; }
      Unlist(id);
      ghost var ps := At(parents, id);
      ghost var cs := At(DropFrom(children, ps, id), id);
      Unlink(id, ps, cs);
      RemoveAssembled(s, Value(), id, ps, cs);
    }

    // ----- finality

    method MarkFinalized(id: Id, epoch: nat)
      modifies this`finalizedEpoch
      ensures Value() == Apply(old(Value()), FinalizeOp(id, epoch))
      ensures Effect(old(Value()), FinalizeOp(id, epoch), Value())
    {
      if id in nodes {
        finalizedEpoch := finalizedEpoch[id := epoch];
      }
    }

    method SetCurrentEpoch(epoch: nat)
      modifies this`currentEpoch
      ensures Value() == Apply(old(Value()), EpochOp(epoch)) && Effect(old(Value()), EpochOp(epoch), Value())
    {
      if epoch > currentEpoch {
        currentEpoch := epoch;
      }
    }

    // ----- eviction

    method EvictOne(id: Id)
      modifies this
      ensures Value() == Evict(old(Value()), id)
    {
      Remove(id);
      finalizedEpoch := finalizedEpoch - {id};
    }

    /** Evict a list of ids, in the order given. */
    method EvictList(order: seq<Id>)
      modifies this
      ensures Value() == EvictAll(old(Value()), order)
      ensures old(Sound(Value())) ==> Sound(Value()) && Evicted(old(Value()), Value(), Elems(order))
    {
      ghost var s := Value();
      for i := 0 to |order|
        invariant Value() == EvictAll(s, order[..i])
      {
        assert order[..i + 1][..i] == order[..i];
        EvictOne(order[i]);
      }
      assert order[..|order|] == order;
      if Sound(s) {
        EvictAllIsRestrict(s, order);
        EvictAllKeepsSound(s, order);
      }
    }

    /** Evict a set of ids, in whatever order hash iteration yields them. */
    method EvictSet(ids: set<Id>) returns (ghost order: seq<Id>)
      modifies this
      ensures Enumerates(order, ids) && Value() == EvictAll(old(Value()), order)
      ensures old(Sound(Value())) ==> Sound(Value()) && Evicted(old(Value()), Value(), ids)
    {
      var list := Listed(ids);
      EvictList(list);
      order := list;
    }

    method EvictOldEpochs() returns (count: nat, ghost order: seq<Id>)
      modifies this
      ensures Enumerates(order, StaleMarks(old(Value()))) && Value() == EvictAll(old(Value()), order)
      ensures count == |StaleMarks(old(Value()))|
      ensures old(Sound(Value())) ==> Sound(Value()) && Evicted(old(Value()), Value(), StaleMarks(old(Value())))
      ensures forall id {:trigger id in StaleMarks(old(Value()))} :: id in StaleMarks(old(Value())) <==>
        id in old(finalizedEpoch) && old(finalizedEpoch)[id] + 3 < old(currentEpoch)
    {
      var toEvict := {};
      if currentEpoch > HOT_EPOCH_WINDOW {
        var cutoff := currentEpoch - HOT_EPOCH_WINDOW;
        toEvict := set id | id in finalizedEpoch && finalizedEpoch[id] < cutoff;
      }
      assert toEvict == StaleMarks(Value());
      count := |toEvict|;
      order := EvictSet(toEvict);
    }

    method EvictFinalized(isFinalized: Id -> bool) returns (count: nat, ghost order: seq<Id>)
      modifies this
      ensures Enumerates(order, SettledRecords(old(Value()), isFinalized)) && Value() == EvictAll(old(Value()), order)
      ensures count == |SettledRecords(old(Value()), isFinalized)|
      ensures old(Sound(Value())) ==>
        Sound(Value()) && Evicted(old(Value()), Value(), SettledRecords(old(Value()), isFinalized))
      ensures forall id {:trigger id in SettledRecords(old(Value()), isFinalized)} ::
        id in SettledRecords(old(Value()), isFinalized) <==>
          id in old(nodes) && isFinalized(id)
          && !(id in old(finalizedEpoch) && old(currentEpoch) <= old(finalizedEpoch)[id] + 3)
    {
      var graceCutoff := if currentEpoch > HOT_EPOCH_WINDOW then currentEpoch - HOT_EPOCH_WINDOW else 0;
      var toEvict := set id | id in nodes && isFinalized(id)
                              && (id in finalizedEpoch ==> finalizedEpoch[id] < graceCutoff);
      assert toEvict == SettledRecords(Value(), isFinalized);
      count := |toEvict|;
      order := EvictSet(toEvict);
    }

    method EvictOlderThan(now: real, maxAgeSecs: real) returns (count: nat, ghost order: seq<Id>)
      modifies this
      ensures Enumerates(order, AgedRecords(old(Value()), now - maxAgeSecs)) && Value() == EvictAll(old(Value()), order)
      ensures count == |AgedRecords(old(Value()), now - maxAgeSecs)|
      ensures old(Sound(Value())) ==>
        Sound(Value()) && Evicted(old(Value()), Value(), AgedRecords(old(Value()), now - maxAgeSecs))
      ensures forall id {:trigger id in AgedRecords(old(Value()), now - maxAgeSecs)} ::
        id in AgedRecords(old(Value()), now - maxAgeSecs) <==>
          id in old(nodes) && id in old(finalizedEpoch)
          && (if id in old(timestamps) then old(timestamps)[id] else 0.0) + maxAgeSecs < now
    {
      var cutoff := now - maxAgeSecs;
      var toEvict := set id | id in nodes && id in finalizedEpoch
                              && (if id in timestamps then timestamps[id] else 0.0) < cutoff;
      assert toEvict == AgedRecords(Value(), cutoff);
      count := |toEvict|;
      order := EvictSet(toEvict);
    }

    /** In a reachable state exactly `maxRecords` records survive, none of them older than a record evicted. */
    method EvictToCap(maxRecords: nat) returns (evicted: nat, ghost gone: set<Id>)
      modifies this
      ensures old(|nodes|) <= maxRecords ==> evicted == 0 && Value() == old(Value())
      ensures old(Sound(Value()) && |nodes| > maxRecords) ==>
                && Sound(Value()) && Evicted(old(Value()), Value(), gone)
                && evicted == |gone| && |nodes| == maxRecords
                && (forall g, k | g in gone && k in nodes :: g in old(timestamps) && k in old(timestamps) &&
                                                           old(timestamps)[g] <= old(timestamps)[k])
    {
      evicted, gone := 0, {};
      if |nodes| <= maxRecords { return; }
      var excess := |nodes| - maxRecords;
      var byTime := SortBy(timestamps);
      var front := if excess <= |byTime| then byTime[..excess] else byTime;
      gone := Elems(front);
      ghost var s := Value();
      if Sound(s) { OldestFirst(s, byTime, excess); }
      EvictList(front);
      evicted := |front|;
    }

    // ----- walks

    method Ancestors(id: Id, maxDepth: nat) returns (found: set<Id>)
      ensures forall v :: v in found <==> Within(parents, id, v, maxDepth)
    {
      found := Walk(parents, id, maxDepth);
    }

    method Descendants(id: Id, maxDepth: nat) returns (found: set<Id>)
      ensures forall v :: v in found <==> Within(children, id, v, maxDepth)
    {
      found := Walk(children, id, maxDepth);
    }

    method AncestorsCapped(id: Id, maxDepth: nat, maxNodes: nat) returns (found: set<Id>, truncated: bool)
      ensures |found| <= maxNodes
      ensures !truncated ==> forall v :: v in found <==> Within(parents, id, v, maxDepth)
      ensures truncated ==> |found| == maxNodes && Nearest(parents, id, found, maxDepth)
      ensures forall v | v in found :: Within(parents, id, v, maxDepth)
    {
      found, truncated := WalkCapped(parents, id, maxDepth, maxNodes);
    }

    method DescendantsCapped(id: Id, maxDepth: nat, maxNodes: nat) returns (found: set<Id>, truncated: bool)
      ensures |found| <= maxNodes
      ensures !truncated ==> forall v :: v in found <==> Within(children, id, v, maxDepth)
      ensures truncated ==> |found| == maxNodes && Nearest(children, id, found, maxDepth)
      ensures forall v | v in found :: Within(children, id, v, maxDepth)
    {
      found, truncated := WalkCapped(children, id, maxDepth, maxNodes);
    }
  }

  /** The elements of a set in some order. */
  method Listed(ids: set<Id>) returns (order: seq<Id>)
    ensures Enumerates(order, ids)
  {
    order := SortBy(map id | id in ids :: 0.0);
  }

  lemma FrontSize(nodes: set<Id>, byTime: seq<Id>, excess: nat)
    requires Enumerates(byTime, nodes) && excess <= |nodes|
    ensures excess <= |byTime| && Elems(byTime[..excess]) <= nodes
    ensures |Elems(byTime[..excess])| == excess && |nodes - Elems(byTime[..excess])| == |nodes| - excess
  {
    EnumeratesSize(byTime, nodes);
    var front := byTime[..excess];
    EnumeratesSize(front, Elems(front));
    forall x | x in Elems(front) ensures x in nodes { assert x in Elems(byTime); }
    assert nodes == Elems(front) + (nodes - Elems(front));
  }

  lemma InFront(order: seq<Id>, n: nat, j: nat)
    requires j < n <= |order|
    ensures order[j] in Elems(order[..n])
  {
    assert order[..n][j] == order[j];
  }

  lemma FrontIsOlder(byTime: seq<Id>, times: map<Id, real>, excess: nat, g: Id, k: Id)
    requires Enumerates(byTime, times.Keys) && Ascending(byTime, times) && excess <= |byTime|
    requires g in Elems(byTime[..excess]) && k in times && k !in Elems(byTime[..excess])
    ensures g in times && times[g] <= times[k]
  {
    assert k in Elems(byTime);
    var i :| 0 <= i < excess && byTime[..excess][i] == g;
    var j: nat :| j < |byTime| && byTime[j] == k;
    assert byTime[i] == g && g in Elems(byTime);
    if j < excess { InFront(byTime, excess, j); }
  }

  lemma OldestFirst(s: State, byTime: seq<Id>, excess: nat)
    requires Sound(s) && Enumerates(byTime, s.timestamps.Keys) && Ascending(byTime, s.timestamps) && excess <= |s.nodes|
    ensures excess <= |byTime|
    ensures |Elems(byTime[..excess])| == excess && |s.nodes - Elems(byTime[..excess])| == |s.nodes| - excess
    ensures forall g, k | g in Elems(byTime[..excess]) && k in s.nodes - Elems(byTime[..excess]) ::
              g in s.timestamps && k in s.timestamps && s.timestamps[g] <= s.timestamps[k]
  {
    assert s.timestamps.Keys == s.nodes;
    FrontSize(s.nodes, byTime, excess);
    forall g, k | g in Elems(byTime[..excess]) && k in s.nodes - Elems(byTime[..excess])
      ensures g in s.timestamps && k in s.timestamps && s.timestamps[g] <= s.timestamps[k]
    {
      FrontIsOlder(byTime, s.timestamps, excess, g, k);
    }
  }

  function Emptied(m: map<Id, set<Id>>, ks: set<Id>, v: Id): set<Id> {
    set k | k in ks && k in m && m[k] - {v} == {}
  }

  lemma DropFromStep(m: map<Id, set<Id>>, ks: set<Id>, v: Id, k: Id)
    ensures DropFrom(m, {}, v) == m && Emptied(m, {}, v) == {}
    ensures k in m ==> DropFrom(m, ks + {k}, v) == DropFrom(m, ks, v)[k := DropFrom(m, ks, v)[k] - {v}]
    ensures k !in m ==> DropFrom(m, ks + {k}, v) == DropFrom(m, ks, v)
    ensures Emptied(m, ks + {k}, v) == Emptied(m, ks, v) + if k in m && m[k] - {v} == {} then {k} else {}
    ensures k in m ==> DropFrom(m, ks, v)[k] - {v} == m[k] - {v}
  {
    if k in m {
      assert m[k] - {v} - {v} == m[k] - {v};
    }
  }

  lemma FreedStep(m: map<Id, set<Id>>, ks: set<Id>, v: Id, k: Id, nodes: set<Id>)
    ensures Emptied(m, ks + {k}, v) * nodes
         == Emptied(m, ks, v) * nodes + if k in m && m[k] - {v} == {} && k in nodes then {k} else {}
  {
  }

  lemma ZoneAddAllNone(zoneTips: map<Zone, set<Id>>, zoneOf: map<Id, Zone>)
    ensures ZoneAddAll(zoneTips, zoneOf, {}) == zoneTips
  {
    forall z ensures InZone({}, zoneOf, z) == {} {}
    assert ZonesOf({}, zoneOf) == {};
    forall z | z in zoneTips ensures zoneTips[z] + {} == zoneTips[z] {}
  }

  lemma ZoneAddAllOne(zoneTips: map<Zone, set<Id>>, zoneOf: map<Id, Zone>, ids: set<Id>, id: Id)
    ensures ZoneAddAll(zoneTips, zoneOf, ids + {id}) == ZoneAdd(ZoneAddAll(zoneTips, zoneOf, ids), zoneOf, id)
  {
    var a, b := ZoneAddAll(zoneTips, zoneOf, ids + {id}), ZoneAdd(ZoneAddAll(zoneTips, zoneOf, ids), zoneOf, id);
    if id in zoneOf {
      assert ZonesOf(ids + {id}, zoneOf) == ZonesOf(ids, zoneOf) + {zoneOf[id]};
    } else {
      assert ZonesOf(ids + {id}, zoneOf) == ZonesOf(ids, zoneOf);
    }
    forall z | z in a ensures a[z] == b[z] { ZoneAddAllAt(zoneTips, zoneOf, ids, id, z); }
  }

  lemma ZoneAddAllAt(zoneTips: map<Zone, set<Id>>, zoneOf: map<Id, Zone>, ids: set<Id>, id: Id, z: Zone)
    ensures TipsFor(ZoneAddAll(zoneTips, zoneOf, ids + {id}), z) ==
            TipsFor(ZoneAdd(ZoneAddAll(zoneTips, zoneOf, ids), zoneOf, id), z)
  {
    if z !in ZonesOf(ids, zoneOf) { assert InZone(ids, zoneOf, z) == {}; }
    if id in zoneOf && zoneOf[id] == z {
      assert z in ZonesOf(ids + {id}, zoneOf);
      assert InZone(ids + {id}, zoneOf, z) == InZone(ids, zoneOf, z) + {id};
    } else {
      assert InZone(ids + {id}, zoneOf, z) == InZone(ids, zoneOf, z);
      assert z in ZonesOf(ids + {id}, zoneOf) <==> z in ZonesOf(ids, zoneOf);
    }
  }

  lemma RemoveAssembled(s: State, t: State, id: Id, ps: set<Id>, cs: set<Id>)
    requires id in s.nodes && ps == At(s.parents, id) && cs == At(DropFrom(s.children, ps, id), id)
    requires t.children == DropFrom(s.children, ps, id) - {id} && t.parents == DropFrom(s.parents - {id}, cs, id)
    requires t == s.(children := t.children, parents := t.parents, nodes := s.nodes - {id},
                     timestamps := s.timestamps - {id}, orphans := s.orphans - {id}, zoneOf := s.zoneOf - {id},
                     tips := s.tips - {id} + Emptied(s.children, ps, id) * (s.nodes - {id}),
                     roots := s.roots - {id} + Emptied(s.parents - {id}, cs, id) * (s.nodes - {id}),
                     zoneTips := ZoneAddAll(ZoneDrop(s.zoneTips, s.zoneOf, id), s.zoneOf - {id},
                                            Emptied(s.children, ps, id) * (s.nodes - {id})))
    ensures t == Dag.Remove(s, id)
  {
    assert Emptied(s.children, ps, id) * (s.nodes - {id}) == Freed(s, id);
    assert Emptied(s.parents - {id}, cs, id) * (s.nodes - {id}) == Bereft(s, id);
  }

  lemma AddParentOne(parents: map<Id, set<Id>>, p: Id, cs: set<Id>, c: Id)
    ensures AddParent(parents, p, cs + {c}) == Put(AddParent(parents, p, cs), c, p)
    ensures AddParent(parents, p, {}) == parents
  {
    var a, b := AddParent(parents, p, cs + {c}), Put(AddParent(parents, p, cs), c, p);
    forall x | x in a ensures a[x] == b[x] {
      if x == c && c in cs { assert At(parents, c) + {p} + {p} == At(parents, c) + {p}; }
    }
  }

  lemma LessLeft(all: set<Id>, todo: set<Id>, id: Id)
    requires id in todo
    ensures all - (todo - {id}) == if id in all then (all - todo) + {id} else all - todo
  {
  }

  lemma AttachOne(s: State, p: Id, cs: set<Id>, c: Id)
    ensures Attach(s, p, cs + {c}) ==
      var w := Wire(Attach(s, p, cs), p, c);
      w.(roots := w.roots - {c})
  {
    if cs == {} { AttachFirst(s, p, c); } else { AttachMore(s, p, cs, c); }
  }

  lemma AttachFirst(s: State, p: Id, c: Id)
    ensures Attach(s, p, {} + {c}) ==
      var w := Wire(s, p, c);
      w.(roots := w.roots - {c})
  {
    AddParentOne(s.parents, p, {}, c);
    assert {} + {c} == {c};
  }

  lemma AttachMore(s: State, p: Id, cs: set<Id>, c: Id)
    requires cs != {}
    ensures Attach(s, p, cs + {c}) ==
      var w := Wire(Attach(s, p, cs), p, c);
      w.(roots := w.roots - {c})
  {
    AddParentOne(s.parents, p, cs, c);
    ZoneDropTwice(s.zoneTips, s.zoneOf, p);
    assert At(s.children, p) + cs + {c} == At(s.children, p) + (cs + {c});
    assert s.roots - cs - {c} == s.roots - (cs + {c});
    assert s.tips - {p} - {p} == s.tips - {p};
  }

  lemma ZoneDropTwice(zoneTips: map<Zone, set<Id>>, zoneOf: map<Id, Zone>, id: Id)
    ensures ZoneDrop(ZoneDrop(zoneTips, zoneOf, id), zoneOf, id) == ZoneDrop(zoneTips, zoneOf, id)
  {
    var once := ZoneDrop(zoneTips, zoneOf, id);
    if id in zoneOf && zoneOf[id] in once {
      assert once[zoneOf[id]] - {id} == once[zoneOf[id]];
    }
  }

  /** Dropping one more group of the list. */
  lemma FrontStep(m: map<Id, set<Id>>, order: seq<Id>, k: nat)
    requires LargestFirst(order, m) && k < |order|
    ensures var left := m - Elems(order[..k]);
      && order[k] in left && left[order[k]] == At(m, order[k])
      && left - {order[k]} == m - Elems(order[..k + 1])
  {
    PrefixSnoc(order, m, k);
  }

  /** Drops groups from the front of the list until the target is met. */
  method DropGroups(m: map<Id, set<Id>>, order: seq<Id>, target: nat)
    returns (left: map<Id, set<Id>>, removed: nat, ghost i: nat)
    requires LargestFirst(order, m)
    ensures i <= |order| && left == m - Elems(order[..i]) && removed == Front(m, order, i)
    ensures i > 0 ==> Front(m, order, i - 1) < target
    ensures i == |order| || target <= removed
  {
    left, removed := m, 0;
    var k := 0;
    assert m - {} == m;
    while k < |order| && removed < target
      invariant 0 <= k <= |order| && left == m - Elems(order[..k]) && removed == Front(m, order, k)
      invariant k > 0 ==> Front(m, order, k - 1) < target
    {
      FrontStep(m, order, k);
      removed := removed + |left[order[k]]|;
      left := left - {order[k]};
      k := k + 1;
    }
    i := k;
  }

  /** A front that reaches the excess but not before its last group. */
  lemma PruneEnough(m: map<Id, set<Id>>, order: seq<Id>, i: nat, max: nat)
    requires LargestFirst(order, m) && 1 <= i <= |order| && max < Weight(m)
    requires Front(m, order, i - 1) < Weight(m) - max <= Front(m, order, i)
    ensures Elems(order[..i]) <= m.Keys && Weight(m - Elems(order[..i])) <= max
    ensures Front(m, order, i) + Weight(m - Elems(order[..i])) == Weight(m)
    ensures forall ks: set<Id> | ks <= m.Keys && Weight(m - ks) <= max :: |Elems(order[..i])| <= |ks|
  {
    FrontIsWeight(m, order, i);
    WeightWithout(m, Elems(order[..i]));
    EnumeratesSize(order[..i], Elems(order[..i]));
    forall ks: set<Id> | ks <= m.Keys && Weight(m - ks) <= max ensures |Elems(order[..i])| <= |ks| {
      WeightWithout(m, ks);
      FewestGroups(m, order, i, Weight(m) - max, ks);
    }
  }

  /** Per present parent, the present records that wait for it. */
  ghost function Ready(s: State): map<Id, set<Id>> {
    map p | p in s.orphans.Keys * s.nodes :: s.orphans[p] * s.nodes
  }

  /** Present records with the present parents they wait for. */
  ghost function ReadyPairs(s: State): set<(Id, Id)> {
    set p, c | p in s.orphans && p in s.nodes && c in s.orphans[p] && c in s.nodes :: (p, c)
  }

  lemma ReadyCounted(s: State)
    ensures Weight(Ready(s)) == |ReadyPairs(s)|
  {
    WeightPairs(Ready(s), Ready(s).Keys);
    assert Pairs(Ready(s), Ready(s).Keys) == ReadyPairs(s);
  }

  lemma ReindexStep(s: State, order: seq<Id>, all: set<Id>, todo: set<Id>, p: Id)
    requires Enumerates(order, all - todo) && p in todo && todo <= all && all == Ready(s).Keys
    ensures Enumerates(order + [p], all - (todo - {p}))
    ensures RelinkAll(s, order + [p]) == Relink(RelinkAll(s, order), p)
    ensures At(RelinkAll(s, order).orphans, p) * RelinkAll(s, order).nodes == Ready(s)[p]
    ensures WeightOf(Ready(s), todo) == |Ready(s)[p]| + WeightOf(Ready(s), todo - {p})
  {
    ElemsSnoc(order + [p]);
    assert (order + [p])[..|order|] == order;
    forall i | 0 <= i < |order| ensures order[i] != p { assert order[i] in Elems(order); }
    RelinkAllOrphans(s, order);
    WeightSplit(Ready(s), todo, p);
    assert p !in Elems(order);
  }

  /** Relinking takes whole groups and leaves the others alone. */
  lemma {:induction false} RelinkAllOrphans(s: State, order: seq<Id>)
    ensures RelinkAll(s, order).orphans == s.orphans - Elems(order) && RelinkAll(s, order).nodes == s.nodes
  {
    if order == [] {
      assert s.orphans - Elems(order) == s.orphans;
    } else {
      RelinkAllOrphans(s, order[..|order| - 1]);
      ElemsSnoc(order);
      assert s.orphans - Elems(order[..|order| - 1]) - {order[|order| - 1]} == s.orphans - Elems(order);
    }
  }
}
