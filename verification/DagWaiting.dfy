/**
  Wired edges and waiting edges.  Removal of a record leaves the edges it waits for in place, so a record
  that is removed, and inserted again once its parent has come, is both wired to it and waiting for it.
  That is the only way the two overlap.
 */
module DagWaiting {
  import opened Basics
  import opened Dag
  import opened DagIndices

  /** No edge is both wired and waiting. */
  ghost predicate Apart(s: State) {
    forall p, c {:trigger c in At(s.children, p)} | c in At(s.children, p) :: c !in At(s.orphans, p)
  }

  /** The call adds a record that a present parent of its claims already has waiting. */
  ghost predicate Reclaims(s: State, op: Op) {
    && ((op.InsertOp? && Accepts(s, op.id, op.claims)) || (op.TolerantOp? && op.id !in s.nodes))
    && exists p :: p in op.claims && p in s.nodes && op.id in At(s.orphans, p)
  }

  lemma ShrinkKeepsApart(s: State, t: State)
    requires Apart(s)
    requires forall p, c {:trigger c in At(t.children, p)} | c in At(t.children, p) :: c in At(s.children, p)
    requires forall p {:trigger At(t.orphans, p)} :: At(t.orphans, p) <= At(s.orphans, p)
    ensures Apart(t)
  {
    forall p, c {:trigger c in At(t.children, p)} | c in At(t.children, p) ensures c !in At(t.orphans, p) {
      assert c in At(s.children, p);
    }
  }

  lemma ClaimApartExactly(s: State, t: State, id: Id, ps: seq<Id>)
    requires Apart(s) && s.children.Keys <= s.nodes
    requires Grown(s.children, t.children, Elems(ps) * s.nodes, id)
    requires Grown(s.orphans, t.orphans, Elems(ps) - s.nodes, id)
    ensures Apart(t) <==> !exists p :: p in ps && p in s.nodes && id in At(s.orphans, p)
  {
    forall p | p in ps && p in s.nodes && id in At(s.orphans, p) ensures !Apart(t) {
      assert p in Elems(ps) * s.nodes;
      assert id in At(t.children, p) && id in At(t.orphans, p);
    }
    if !exists p :: p in ps && p in s.nodes && id in At(s.orphans, p) {
      forall p, c {:trigger c in At(t.children, p)} | c in At(t.children, p) ensures c !in At(t.orphans, p) {
        assert c in At(t.orphans, p) <==> c in At(s.orphans, p) || (p in Elems(ps) - s.nodes && c == id);
        if c in At(s.children, p) { assert p in s.nodes; }
      }
    }
  }

  lemma TolerantApartExactly(s: State, op: Op)
    requires Sound(s) && Apart(s) && op.TolerantOp? && op.id !in s.nodes
    ensures Apart(Apply(s, op)) <==> !Reclaims(s, op)
  {
    var r := Register(s, op.id, op.zone);
    RegisterKeepsZones(s, op.id, op.zone);
    ClaimAllEffect(r, op.claims, op.id);
    ClaimApartExactly(s, Apply(s, op), op.id, op.claims);
  }

  lemma InsertApartExactly(s: State, op: Op)
    requires Sound(s) && Apart(s) && op.InsertOp? && Accepts(s, op.id, op.claims)
    ensures Apart(Apply(s, op)) <==> !Reclaims(s, op)
  {
    AcceptedInsertIsTolerant(Register(s, op.id, op.zone), op.id, op.claims, op.ts);
    TolerantApartExactly(s, TolerantOp(op.id, op.claims, op.ts, op.zone));
  }

  lemma RelinkKeepsApart(s: State, p: Id)
    requires Apart(s)
    ensures Apart(Relink(s, p))
  {
    var t := Relink(s, p);
    forall q, c {:trigger c in At(t.children, q)} | c in At(t.children, q) ensures c !in At(t.orphans, q) {
      if q != p { assert c in At(s.children, q); }
    }
  }

  lemma {:induction false} RelinkAllKeepsApart(s: State, order: seq<Id>)
    requires Apart(s)
    ensures Apart(RelinkAll(s, order))
  {
    if order != [] {
      RelinkAllKeepsApart(s, order[..|order| - 1]);
      RelinkKeepsApart(RelinkAll(s, order[..|order| - 1]), order[|order| - 1]);
    }
  }

  lemma RemoveKeepsApart(s: State, id: Id)
    requires Apart(s)
    ensures Apart(Remove(s, id))
  {
    ShrinkKeepsApart(s, Remove(s, id));
  }

  lemma {:induction false} EvictAllKeepsApart(s: State, order: seq<Id>)
    requires Apart(s)
    ensures Apart(EvictAll(s, order))
  {
    if order != [] {
      var t := EvictAll(s, order[..|order| - 1]);
      EvictAllKeepsApart(s, order[..|order| - 1]);
      RemoveKeepsApart(t, order[|order| - 1]);
      ShrinkKeepsApart(Remove(t, order[|order| - 1]), EvictAll(s, order));
    }
  }

  /**
    A call keeps wired and waiting edges apart exactly when it does not insert a record some present parent has
    waiting.
   */
  lemma ApartExactly(s: State, op: Op)
    requires Sound(s) && Apart(s)
    ensures Apart(Apply(s, op)) <==> !Reclaims(s, op)
  {
    match op
    case InsertOp(id, ps, ts, zone) => if Accepts(s, id, ps) { InsertApartExactly(s, op); }
    case TolerantOp(id, ps, ts, zone) => if id !in s.nodes { TolerantApartExactly(s, op); }
    case RelinkOp(p) => RelinkKeepsApart(s, p);
    case ReindexOp(order) => RelinkAllKeepsApart(s, order);
    case RemoveOp(id) => RemoveKeepsApart(s, id);
    case EvictOp(order) => EvictAllKeepsApart(s, order);
    case _ => ShrinkKeepsApart(s, Apply(s, op));
  }

  /** A record that waits for its parent is removed, and inserted again after the parent came. */
  function Reinsertion(p: Id, c: Id): seq<Op> {
    [TolerantOp(c, [p], 0.0, None)] + [TolerantOp(p, [], 0.0, None)] + [RemoveOp(c)] + [TolerantOp(c, [p], 0.0, None)]
  }

  lemma RunSnoc(s: State, ops: seq<Op>, op: Op)
    ensures Run(s, ops + [op]) == Apply(Run(s, ops), op)
    ensures LegalRun(s, ops + [op]) <==> LegalRun(s, ops) && Legal(Run(s, ops), op)
  {
    assert (ops + [op])[..|ops|] == ops;
  }

  /** It ends up wired to the parent and waiting for it at once. */
  lemma RemovedWaiterOverlaps(p: Id, c: Id)
    requires p != c
    ensures LegalRun(EMPTY, Reinsertion(p, c))
    ensures var s := Run(EMPTY, Reinsertion(p, c)); c in At(s.children, p) && c in At(s.orphans, p)
  {
    var a, b, r := TolerantOp(c, [p], 0.0, None), TolerantOp(p, [], 0.0, None), RemoveOp(c);
    assert [] + [a] == [a];
    RunSnoc(EMPTY, [], a);
    OneClaim(EMPTY, p, c);
    var s1 := Run(EMPTY, [a]);
    assert c in At(s1.orphans, p) && s1.nodes == {c};
    RunSnoc(EMPTY, [a], b);
    var s2 := Run(EMPTY, [a] + [b]);
    assert s2.orphans == s1.orphans && s2.nodes == {c, p};
    RunSnoc(EMPTY, [a] + [b], r);
    var s3 := Run(EMPTY, [a] + [b] + [r]);
    assert c in At(s3.orphans, p) && s3.nodes == {p};
    RunSnoc(EMPTY, [a] + [b] + [r], a);
    OneClaim(s3, p, c);
  }

  lemma OneClaim(s: State, p: Id, c: Id)
    ensures ClaimAll(s, [p], c) == Claim(s, p, c)
  {
    assert [p][..0] == [];
  }

  // ----- runs

  /** Every record that waits is present. */
  ghost predicate WaitersPresent(s: State) {
    forall p, c {:trigger c in At(s.orphans, p)} | c in At(s.orphans, p) :: c in s.nodes
  }

  lemma TolerantWaiters(s: State, op: Op)
    requires Sound(s) && WaitersPresent(s) && op.TolerantOp? && op.id !in s.nodes
    ensures WaitersPresent(Apply(s, op))
  {
    var r, t := Register(s, op.id, op.zone), Apply(s, op);
    RegisterKeepsZones(s, op.id, op.zone);
    ClaimAllEffect(r, op.claims, op.id);
    forall p, c {:trigger c in At(t.orphans, p)} | c in At(t.orphans, p) ensures c in t.nodes {
      if c != op.id { assert c in At(s.orphans, p); }
    }
  }

  lemma RelinkWaiters(s: State, p: Id)
    requires WaitersPresent(s)
    ensures WaitersPresent(Relink(s, p)) && Relink(s, p).nodes == s.nodes
  {
    var t := Relink(s, p);
    forall q, c {:trigger c in At(t.orphans, q)} | c in At(t.orphans, q) ensures c in t.nodes {
      assert c in At(s.orphans, q);
    }
  }

  lemma {:induction false} RelinkAllWaiters(s: State, order: seq<Id>)
    requires WaitersPresent(s)
    ensures WaitersPresent(RelinkAll(s, order))
  {
    if order != [] {
      RelinkAllWaiters(s, order[..|order| - 1]);
      RelinkWaiters(RelinkAll(s, order[..|order| - 1]), order[|order| - 1]);
    }
  }

  lemma StepWaiters(s: State, op: Op)
    requires Sound(s) && WaitersPresent(s) && !op.RemoveOp? && !op.EvictOp?
    ensures WaitersPresent(Apply(s, op))
  {
    match op
    case InsertOp(id, ps, ts, zone) =>
      if Accepts(s, id, ps) {
        AcceptedInsertIsTolerant(Register(s, id, zone), id, ps, ts);
        TolerantWaiters(s, TolerantOp(id, ps, ts, zone));
      }
    case TolerantOp(id, ps, ts, zone) => if id !in s.nodes { TolerantWaiters(s, op); }
    case RelinkOp(p) => RelinkWaiters(s, p);
    case ReindexOp(order) => RelinkAllWaiters(s, order);
    case _ => ShrinkWaiters(s, Apply(s, op));
  }

  lemma ShrinkWaiters(s: State, t: State)
    requires WaitersPresent(s) && t.nodes == s.nodes
    requires forall p {:trigger At(t.orphans, p)} :: At(t.orphans, p) <= At(s.orphans, p)
    ensures WaitersPresent(t)
  {
    forall p, c {:trigger c in At(t.orphans, p)} | c in At(t.orphans, p) ensures c in t.nodes {
      assert c in At(s.orphans, p);
    }
  }

  ghost predicate NoRemovals(ops: seq<Op>) {
    forall i {:trigger ops[i]} | 0 <= i < |ops| :: !ops[i].RemoveOp? && !ops[i].EvictOp?
  }

  /** Without removals no edge is ever both wired and waiting. */
  lemma {:induction false} ApartWithoutRemovals(ops: seq<Op>)
    requires LegalRun(EMPTY, ops) && NoRemovals(ops)
    ensures Apart(Run(EMPTY, ops)) && WaitersPresent(Run(EMPTY, ops))
    decreases |ops|
  {
    if ops != [] {
      var front, op := ops[..|ops| - 1], ops[|ops| - 1];
      assert forall i {:trigger front[i]} | 0 <= i < |front| :: front[i] == ops[i];
      ApartWithoutRemovals(front);
      EmptyIsSound();
      RunKeepsSound(EMPTY, front);
      var s := Run(EMPTY, front);
      StepWaiters(s, op);
      ApartExactly(s, op);
    }
  }

  lemma EmptyIsSound()
    ensures Sound(EMPTY)
  {
    assert ZoneIndex({}, map[]) == map[];
  }
}
