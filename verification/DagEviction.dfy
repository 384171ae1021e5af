/**
  What a batch of removals computes, in closed form: it depends on the set of ids evicted and not on the
  order in which hash iteration visits them.
 */
module DagEviction {
  import opened Dag
  import opened DagIndices

  /**
    The index of the records outside `gone`; finalization marks are left alone. A link to an external parent
    survives that parent's eviction.
   */
  function Restrict(s: State, gone: set<Id>): State {
    Rebuild(s.(
      nodes := s.nodes - gone,
      timestamps := s.timestamps - gone,
      orphans := s.orphans - gone,
      zoneOf := s.zoneOf - gone,
      children := KeptChildren(s.children, gone),
      parents := KeptParents(s.parents, s.children, gone)))
  }

  function KeptChildren(children: map<Id, set<Id>>, gone: set<Id>): map<Id, set<Id>> {
    map p | p in children && p !in gone :: children[p] - gone
  }

  function KeptParents(parents: map<Id, set<Id>>, children: map<Id, set<Id>>, gone: set<Id>): map<Id, set<Id>> {
    map c | c in parents && c !in gone :: parents[c] - LostParents(children, gone, c)
  }

  function LostParents(children: map<Id, set<Id>>, gone: set<Id>, c: Id): set<Id> {
    set p | p in gone && c in At(children, p)
  }

  lemma RestrictNothing(s: State)
    requires Sound(s)
    ensures Restrict(s, {}) == s
  {
    SoundIsExact(s);
    var t := Restrict(s, {});
    forall p | p in s.children ensures s.children[p] - {} == s.children[p] {}
    forall c | c in s.parents ensures s.parents[c] - LostParents(s.children, {}, c) == s.parents[c] {}
    assert t.children == s.children;
    assert t.parents == s.parents;
    RebuildLocal(s, t);
  }

  // ----- one more eviction, field by field

  /** Under the invariant a removal is a restriction of both edge maps. */
  lemma RemoveIsKept(t: State, x: Id)
    requires Sound(t)
    ensures Remove(t, x).children == KeptChildren(t.children, {x})
    ensures Remove(t, x).parents == KeptParents(t.parents, t.children, {x})
    ensures Remove(t, x).nodes == t.nodes - {x} && Remove(t, x).timestamps == t.timestamps - {x}
    ensures Remove(t, x).zoneOf == t.zoneOf - {x} && Remove(t, x).orphans == t.orphans - {x}
  {
    RemoveIsKeptChildren(t, x);
    RemoveIsKeptParents(t, x);
    RemoveDropsKeys(t, x);
  }

  lemma RemoveDropsKeys(t: State, x: Id)
    requires Sound(t)
    ensures Remove(t, x).nodes == t.nodes - {x} && Remove(t, x).timestamps == t.timestamps - {x}
    ensures Remove(t, x).zoneOf == t.zoneOf - {x} && Remove(t, x).orphans == t.orphans - {x}
  {
  }

  lemma RemoveIsKeptChildren(t: State, x: Id)
    requires Sound(t)
    ensures Remove(t, x).children == KeptChildren(t.children, {x})
  {
    forall p | p in t.children && p != x ensures Remove(t, x).children[p] == t.children[p] - {x} {
      if x in t.children[p] { assert x in At(t.children, p); }
    }
  }

  lemma RemoveIsKeptParents(t: State, x: Id)
    requires Sound(t)
    ensures Remove(t, x).parents == KeptParents(t.parents, t.children, {x})
  {
    forall c ensures LostParents(t.children, {x}, c) == if c in At(t.children, x) then {x} else {} {}
    forall c | c in t.parents ensures t.parents[c] - {} == t.parents[c] {}
  }

  lemma KeptTwiceChildren(children: map<Id, set<Id>>, gone: set<Id>, x: Id)
    ensures KeptChildren(KeptChildren(children, gone), {x}) == KeptChildren(children, gone + {x})
  {
    forall p | p in children ensures children[p] - gone - {x} == children[p] - (gone + {x}) {}
  }

  lemma KeptTwiceParents(parents: map<Id, set<Id>>, children: map<Id, set<Id>>, gone: set<Id>, x: Id)
    ensures KeptParents(KeptParents(parents, children, gone), KeptChildren(children, gone), {x})
         == KeptParents(parents, children, gone + {x})
  {
    var kept := KeptChildren(children, gone);
    forall c | c in parents && c !in gone + {x}
      ensures parents[c] - LostParents(children, gone, c) - LostParents(kept, {x}, c)
           == parents[c] - LostParents(children, gone + {x}, c)
    {
      assert x !in gone ==> (c in At(kept, x) <==> c in At(children, x));
      assert LostParents(children, gone, c) + LostParents(kept, {x}, c) == LostParents(children, gone + {x}, c);
    }
  }

  lemma RemoveExtendsRestrict(s: State, gone: set<Id>, x: Id)
    requires Sound(s) && Sound(Restrict(s, gone))
    ensures Remove(Restrict(s, gone), x) == Restrict(s, gone + {x}) && Sound(Restrict(s, gone + {x}))
  {
    var t := Restrict(s, gone);
    RemoveKeepsSound(t, x);
    SoundIsExact(Remove(t, x));
    RemoveIsKept(t, x);
    RestrictedTwice(s, t, Remove(t, x), gone, x);
  }

  lemma RestrictedTwice(s: State, t: State, r: State, gone: set<Id>, x: Id)
    requires t == Restrict(s, gone) && Exact(r)
    requires r == t.(children := KeptChildren(t.children, {x}), parents := KeptParents(t.parents, t.children, {x}),
                     nodes := t.nodes - {x}, timestamps := t.timestamps - {x}, zoneOf := t.zoneOf - {x},
                     orphans := t.orphans - {x}, tips := r.tips, roots := r.roots, zoneTips := r.zoneTips)
    ensures r == Restrict(s, gone + {x})
  {
    KeptTwiceChildren(s.children, gone, x);
    KeptTwiceParents(s.parents, s.children, gone, x);
    RebuildLocal(r, Restrict(s, gone + {x}));
  }

  lemma RemoveIgnoresMarks(s: State, marks: map<Id, nat>, id: Id)
    ensures Remove(s.(finalized := marks), id) == Remove(s, id).(finalized := marks)
  {
    var t := s.(finalized := marks);
    assert Freed(t, id) == Freed(s, id) && Bereft(t, id) == Bereft(s, id);
  }

  /** Removing two records commutes exactly. */
  lemma RemovalsCommute(s: State, a: Id, b: Id)
    requires Sound(s)
    ensures Remove(Remove(s, a), b) == Remove(Remove(s, b), a)
  {
    RestrictNothing(s);
    RemoveExtendsRestrict(s, {}, a);
    RemoveExtendsRestrict(s, {}, b);
    RemoveExtendsRestrict(s, {} + {a}, b);
    RemoveExtendsRestrict(s, {} + {b}, a);
    assert {} + {a} + {b} == {} + {b} + {a};
  }

  /** Evicting a list of ids leaves the index of the others, and drops their finalization marks. */
  lemma {:induction false} EvictAllIsRestrict(s: State, order: seq<Id>)
    requires Sound(s)
    ensures Sound(Restrict(s, Elems(order)))
    ensures EvictAll(s, order) == Restrict(s, Elems(order)).(finalized := s.finalized - Elems(order))
  {
    if order == [] {
      RestrictNothing(s);
      assert Elems(order) == {};
    } else {
      var gone, x := Elems(order[..|order| - 1]), order[|order| - 1];
      EvictAllIsRestrict(s, order[..|order| - 1]);
      RemoveExtendsRestrict(s, gone, x);
      RemoveIgnoresMarks(Restrict(s, gone), s.finalized - gone, x);
      ElemsSnoc(order);
      assert s.finalized - gone - {x} == s.finalized - (gone + {x});
    }
  }

  /** The outcome of an eviction does not depend on hash iteration order. */
  lemma EvictionOrderIrrelevant(s: State, a: seq<Id>, b: seq<Id>)
    requires Sound(s) && Elems(a) == Elems(b)
    ensures EvictAll(s, a) == EvictAll(s, b)
  {
    EvictAllIsRestrict(s, a);
    EvictAllIsRestrict(s, b);
  }

  // ----- who goes

  /** Marks older than the hot window (`evict_old_epochs`); a mark may outlive its record. */
  function StaleMarks(s: State): set<Id> {
    set id | id in s.finalized && s.epoch > HOT_EPOCH_WINDOW && s.finalized[id] < s.epoch - HOT_EPOCH_WINDOW
  }

  /** Records finalized elsewhere and never marked, or marked before the grace window (`evict_finalized`). */
  function SettledRecords(s: State, isFinalized: Id -> bool): set<Id> {
    set id | id in s.nodes && isFinalized(id) && (id in s.finalized ==> s.finalized[id] < s.epoch - HOT_EPOCH_WINDOW)
  }

  /** Finalized records older than the cutoff (`evict_older_than`). */
  function AgedRecords(s: State, cutoff: real): set<Id> {
    set id | id in s.nodes && id in s.finalized && (if id in s.timestamps then s.timestamps[id] else 0.0) < cutoff
  }

  /** `t` is `s` with the records `gone` evicted. */
  ghost predicate Evicted(s: State, t: State, gone: set<Id>) {
    t == Restrict(s, gone).(finalized := s.finalized - gone)
  }
}
