/**
  Collaboration records and their two indices.  The log is the accepted records in the order they came;
  the indices answer every query as a scan of the log would.
 */
module Collaboration {
  import opened Basics

  datatype Participant = Participant(identity: string, signed: bool)

  datatype Record = Record(id: string, workHash: string, participants: seq<Participant>)

  datatype Refusal = NoParticipants | NoWorkHash | AlreadyRegistered

  type Index = map<string, seq<string>>

  function At(index: Index, k: string): seq<string> {
    if k in index then index[k] else []
  }

  function Push(index: Index, k: string, id: string): Index {
    index[k := At(index, k) + [id]]
  }

  /** The stored records an index entry names. */
  function Lookup(records: map<string, Record>, ids: seq<string>): seq<Record> {
    if ids == [] then []
    else Lookup(records, ids[..|ids| - 1]) + (if ids[|ids| - 1] in records then [records[ids[|ids| - 1]]] else [])
  }

  // ----- scans of the log

  function WithHash(log: seq<Record>, h: string): seq<Record> {
    if log == [] then []
    else WithHash(log[..|log| - 1], h) + (if log[|log| - 1].workHash == h then [log[|log| - 1]] else [])
  }

  /** Once for every slot the identity holds. */
  function Slots(r: Record, ps: seq<Participant>, who: string): seq<Record> {
    if ps == [] then []
    else Slots(r, ps[..|ps| - 1], who) + (if ps[|ps| - 1].identity == who then [r] else [])
  }

  function WithIdentity(log: seq<Record>, who: string): seq<Record> {
    if log == [] then []
    else WithIdentity(log[..|log| - 1], who) + Slots(log[|log| - 1], log[|log| - 1].participants, who)
  }

  function Ids(rs: seq<Record>): (ids: seq<string>)
    ensures |ids| == |rs| && forall i | 0 <= i < |rs| :: ids[i] == rs[i].id
  {
    seq(|rs|, i requires 0 <= i < |rs| => rs[i].id)
  }

  ghost predicate Holds(records: map<string, Record>, r: Record) {
    r.id in records && records[r.id] == r
  }

  ghost function IdSet(log: seq<Record>): set<string> {
    set i | 0 <= i < |log| :: log[i].id
  }

  /** The table holds the records of the log and no others, under their ids. */
  ghost predicate Tabled(records: map<string, Record>, log: seq<Record>) {
    && (forall i {:trigger log[i]} | 0 <= i < |log| :: Holds(records, log[i]))
    && records.Keys == IdSet(log)
    && (forall i, j {:trigger log[i], log[j]} | 0 <= i < j < |log| :: log[i].id != log[j].id)
  }

  ghost predicate ListsWork(byWork: Index, log: seq<Record>, h: string) {
    At(byWork, h) == Ids(WithHash(log, h))
  }

  ghost predicate ListsIdentity(byIdentity: Index, log: seq<Record>, who: string) {
    At(byIdentity, who) == Ids(WithIdentity(log, who))
  }

  ghost predicate Indexed(byWork: Index, byIdentity: Index, log: seq<Record>) {
    && (forall h :: ListsWork(byWork, log, h))
    && (forall h {:trigger byWork[h]} | h in byWork :: byWork[h] != [])
    && (forall who :: ListsIdentity(byIdentity, log, who))
  }

  lemma {:induction false} LookupIds(records: map<string, Record>, rs: seq<Record>)
    requires forall i {:trigger rs[i]} | 0 <= i < |rs| :: Holds(records, rs[i])
    ensures Lookup(records, Ids(rs)) == rs
    decreases |rs|
  {
    if rs != [] {
      var front, last := rs[..|rs| - 1], rs[|rs| - 1];
      assert Ids(rs)[..|rs| - 1] == Ids(front) && Ids(rs)[|rs| - 1] == last.id;
      forall i {:trigger front[i]} | 0 <= i < |front| ensures Holds(records, front[i]) { assert rs[i] == front[i]; }
      LookupIds(records, front);
    }
  }

  lemma {:induction false} HashFromLog(log: seq<Record>, h: string, i: nat)
    requires i < |WithHash(log, h)|
    ensures WithHash(log, h)[i] in log && WithHash(log, h)[i].workHash == h
    decreases |log|
  {
    if log != [] && i < |WithHash(log[..|log| - 1], h)| { HashFromLog(log[..|log| - 1], h, i); }
  }

  lemma {:induction false} SlotsFrom(r: Record, ps: seq<Participant>, who: string, i: nat)
    requires i < |Slots(r, ps, who)|
    ensures Slots(r, ps, who)[i] == r
    decreases |ps|
  {
    if ps != [] && i < |Slots(r, ps[..|ps| - 1], who)| { SlotsFrom(r, ps[..|ps| - 1], who, i); }
  }

  lemma {:induction false} IdentityFromLog(log: seq<Record>, who: string, i: nat)
    requires i < |WithIdentity(log, who)|
    ensures WithIdentity(log, who)[i] in log
    decreases |log|
  {
    if log != [] {
      var front, last := log[..|log| - 1], log[|log| - 1];
      if i < |WithIdentity(front, who)| {
        IdentityFromLog(front, who, i);
      } else {
        SlotsFrom(last, last.participants, who, i - |WithIdentity(front, who)|);
      }
    }
  }

  // ----- scans, by place

  ghost predicate Rising(at: seq<nat>) {
    forall i, j {:trigger at[i], at[j]} | 0 <= i < j < |at| :: at[i] < at[j]
  }

  /** `rs` is the records of the log at the places `at`, in order. */
  ghost predicate PickedAt(rs: seq<Record>, log: seq<Record>, at: seq<nat>) {
    && |at| == |rs| && Rising(at)
    && forall i {:trigger at[i]} | 0 <= i < |at| :: at[i] < |log| && rs[i] == log[at[i]]
  }

  lemma PickedMore(rs: seq<Record>, log: seq<Record>, at: seq<nat>, r: Record)
    requires PickedAt(rs, log, at)
    ensures PickedAt(rs, log + [r], at) && PickedAt(rs + [r], log + [r], at + [|log|])
  {
  }

  /** The scan for a hash picks exactly the places that hold it, in order. */
  lemma {:induction false} WithHashExactly(log: seq<Record>, h: string) returns (at: seq<nat>)
    ensures PickedAt(WithHash(log, h), log, at)
    ensures forall p: nat {:trigger p in at} :: p in at <==> p < |log| && log[p].workHash == h
    decreases |log|
  {
    if log == [] {
      at := [];
    } else {
      var front, r := log[..|log| - 1], log[|log| - 1];
      assert log == front + [r];
      at := WithHashExactly(front, h);
      PickedMore(WithHash(front, h), front, at, r);
      if r.workHash == h { at := at + [|front|]; }
    }
  }

  /** A slot: a record and one of its participants. */
  datatype Slot = Slot(record: nat, participant: nat)

  ghost predicate Before(a: Slot, b: Slot) {
    a.record < b.record || (a.record == b.record && a.participant < b.participant)
  }

  /** `rs` is the records of the slots `at`, in order. */
  ghost predicate SlottedAt(rs: seq<Record>, log: seq<Record>, at: seq<Slot>) {
    && |at| == |rs| && (forall i, j {:trigger at[i], at[j]} | 0 <= i < j < |at| :: Before(at[i], at[j]))
    && forall i {:trigger at[i]} | 0 <= i < |at| :: at[i].record < |log| && rs[i] == log[at[i].record]
  }

  ghost predicate Held(log: seq<Record>, s: Slot, who: string) {
    && s.record < |log| && s.participant < |log[s.record].participants|
    && log[s.record].participants[s.participant].identity == who
  }

  /** The slots of one record, the last of the log, up to a participant. */
  lemma {:induction false} SlotsExactly(front: seq<Record>, r: Record, k: nat, who: string, at: seq<Slot>)
    returns (more: seq<Slot>)
    requires k <= |r.participants| && SlottedAt(WithIdentity(front, who), front, at)
    ensures SlottedAt(WithIdentity(front, who) + Slots(r, r.participants[..k], who), front + [r], more)
    ensures forall s {:trigger s in more} ::
      s in more <==> s in at || (Held(front + [r], s, who) && s.record == |front| && s.participant < k)
    decreases k
  {
    var log, ps := front + [r], r.participants;
    if k == 0 {
      more := at;
      assert WithIdentity(front, who) + Slots(r, ps[..0], who) == WithIdentity(front, who);
    } else {
      more := SlotsExactly(front, r, k - 1, who, at);
      var found := WithIdentity(front, who) + Slots(r, ps[..k - 1], who);
      assert ps[..k][..k - 1] == ps[..k - 1];
      if ps[k - 1].identity == who {
        assert WithIdentity(front, who) + Slots(r, ps[..k], who) == found + [r];
        SlottedMore(found, front, r, more, k - 1, at, who);
        more := more + [Slot(|front|, k - 1)];
      }
    }
  }

  lemma SlottedMore(found: seq<Record>, front: seq<Record>, r: Record, more: seq<Slot>, k: nat, at: seq<Slot>,
        who: string)
    requires SlottedAt(found, front + [r], more) && SlottedAt(WithIdentity(front, who), front, at)
    requires forall s {:trigger s in more} ::
      s in more <==> s in at || (Held(front + [r], s, who) && s.record == |front| && s.participant < k)
    ensures SlottedAt(found + [r], front + [r], more + [Slot(|front|, k)])
  {
    forall i {:trigger more[i]} | 0 <= i < |more| ensures Before(more[i], Slot(|front|, k)) {
      assert more[i] in more;
    }
  }

  /** The scan for an identity picks exactly the slots it holds, record by record and in order. */
  lemma {:induction false} WithIdentityExactly(log: seq<Record>, who: string) returns (at: seq<Slot>)
    ensures SlottedAt(WithIdentity(log, who), log, at)
    ensures forall s {:trigger s in at} :: s in at <==> Held(log, s, who)
    decreases |log|
  {
    if log == [] {
      at := [];
    } else {
      var front, r := log[..|log| - 1], log[|log| - 1];
      assert log == front + [r];
      var before := WithIdentityExactly(front, who);
      assert r.participants[..|r.participants|] == r.participants;
      at := SlotsExactly(front, r, |r.participants|, who, before);
    }
  }

  // ----- the queries answer from the log

  /** Records for a work: each stored record with its hash once, in the order of registration. */
  lemma ForWorkScansLog(records: map<string, Record>, byWork: Index, byIdentity: Index, log: seq<Record>, h: string)
    requires Tabled(records, log) && Indexed(byWork, byIdentity, log)
    ensures Lookup(records, At(byWork, h)) == WithHash(log, h)
  {
    var rs := WithHash(log, h);
    assert ListsWork(byWork, log, h);
    forall i {:trigger rs[i]} | 0 <= i < |rs| ensures Holds(records, rs[i]) { HashFromLog(log, h, i); }
    LookupIds(records, rs);
  }

  lemma ForIdentityScansLog(records: map<string, Record>, byWork: Index, byIdentity: Index, log: seq<Record>,
                            who: string)
    requires Tabled(records, log) && Indexed(byWork, byIdentity, log)
    ensures Lookup(records, At(byIdentity, who)) == WithIdentity(log, who)
  {
    var rs := WithIdentity(log, who);
    assert ListsIdentity(byIdentity, log, who);
    forall i {:trigger rs[i]} | 0 <= i < |rs| ensures Holds(records, rs[i]) { IdentityFromLog(log, who, i); }
    LookupIds(records, rs);
  }

  ghost predicate HeldTwice(log: seq<Record>, h: string) {
    exists i, j {:trigger log[i], log[j]} :: 0 <= i < j < |log| && log[i].workHash == h == log[j].workHash
  }

  lemma {:induction false} HeldOnce(log: seq<Record>, h: string)
    ensures |WithHash(log, h)| >= 1 <==> exists i {:trigger log[i]} :: 0 <= i < |log| && log[i].workHash == h
    decreases |log|
  {
    if log != [] {
      var front := log[..|log| - 1];
      HeldOnce(front, h);
      forall i {:trigger log[i]} | 0 <= i < |front| ensures log[i] == front[i] {}
      if |WithHash(log, h)| >= 1 && log[|log| - 1].workHash != h {
        var i :| 0 <= i < |front| && front[i].workHash == h;
        assert log[i].workHash == h;
      }
    }
  }

  /** An index entry has two or more ids exactly when two stored records hold the hash. */
  lemma {:induction false} ConflictExactly(log: seq<Record>, h: string)
    ensures |WithHash(log, h)| > 1 <==> HeldTwice(log, h)
    decreases |log|
  {
    if log != [] {
      var front := log[..|log| - 1];
      ConflictExactly(front, h);
      HeldOnce(front, h);
      forall i {:trigger log[i]} | 0 <= i < |front| ensures log[i] == front[i] {}
      if |WithHash(log, h)| > 1 {
        if |WithHash(front, h)| > 1 {
          var i, j :| 0 <= i < j < |front| && front[i].workHash == h == front[j].workHash;
          assert log[i].workHash == h == log[j].workHash;
        } else {
          var i :| 0 <= i < |front| && front[i].workHash == h;
          assert log[i].workHash == h == log[|log| - 1].workHash;
        }
      }
      if HeldTwice(log, h) {
        var i, j :| 0 <= i < j < |log| && log[i].workHash == h == log[j].workHash;
        assert front[i].workHash == h;
        if j < |front| { assert front[j].workHash == h; }
      }
    }
  }

  ghost function Hashes(log: seq<Record>): set<string> {
    set i | 0 <= i < |log| :: log[i].workHash
  }

  ghost function Disputed(log: seq<Record>): set<string> {
    set h | h in Hashes(log) && HeldTwice(log, h)
  }

  function Crowded(index: Index): set<string> {
    set h | h in index && |index[h]| > 1
  }

  lemma CrowdedIsDisputed(byWork: Index, byIdentity: Index, log: seq<Record>)
    requires Indexed(byWork, byIdentity, log)
    ensures Crowded(byWork) == Disputed(log)
  {
    forall h ensures h in Crowded(byWork) <==> h in Disputed(log) {
      ConflictExactly(log, h);
      HeldOnce(log, h);
      assert ListsWork(byWork, log, h);
    }
  }

  // ----- registering

  function Refused(records: map<string, Record>, r: Record): Option<Refusal> {
    if r.participants == [] then Some(NoParticipants)
    else if r.workHash == "" then Some(NoWorkHash)
    else if r.id in records then Some(AlreadyRegistered)
    else None
  }

  lemma IdsConcat(a: seq<Record>, b: seq<Record>)
    ensures Ids(a + b) == Ids(a) + Ids(b)
  {
  }

  lemma WorkIndexed(byWork: Index, log: seq<Record>, r: Record, h: string)
    requires At(byWork, h) == Ids(WithHash(log, h))
    ensures At(Push(byWork, r.workHash, r.id), h) == Ids(WithHash(log + [r], h))
  {
    assert (log + [r])[..|log|] == log;
    IdsConcat(WithHash(log, h), [r]);
  }

  lemma IdentityIndexed(before: Index, after: Index, log: seq<Record>, r: Record, who: string)
    requires At(before, who) == Ids(WithIdentity(log, who))
    requires At(after, who) == At(before, who) + Ids(Slots(r, r.participants, who))
    ensures At(after, who) == Ids(WithIdentity(log + [r], who))
  {
    assert (log + [r])[..|log|] == log;
    IdsConcat(WithIdentity(log, who), Slots(r, r.participants, who));
  }

  lemma TabledMore(records: map<string, Record>, log: seq<Record>, r: Record)
    requires Tabled(records, log) && r.id !in records
    ensures Tabled(records[r.id := r], log + [r])
  {
    var log' := log + [r];
    forall id ensures id in records[r.id := r] <==> id in IdSet(log') {
      assert id in records <==> id in IdSet(log);
      if id in IdSet(log) {
        var i :| 0 <= i < |log| && log[i].id == id;
        assert log'[i].id == id;
      }
      assert log'[|log|] == r;
    }
    forall i {:trigger log'[i]} | 0 <= i < |log'| ensures Holds(records[r.id := r], log'[i]) {
      if i < |log| { assert Holds(records, log[i]); }
    }
    forall i, j {:trigger log'[i], log'[j]} | 0 <= i < j < |log'| ensures log'[i].id != log'[j].id {
      assert Holds(records, log[i]);
    }
  }

  lemma OneSlot(r: Record, ps: seq<Participant>, k: nat, who: string, before: seq<string>, index: Index)
    requires k < |ps| && At(index, who) == before + Ids(Slots(r, ps[..k], who))
    ensures At(Push(index, ps[k].identity, r.id), who) == before + Ids(Slots(r, ps[..k + 1], who))
  {
    assert ps[..k + 1][..k] == ps[..k];
    IdsConcat(Slots(r, ps[..k], who), [r]);
    if ps[k].identity == who {
      assert before + Ids(Slots(r, ps[..k], who)) + [r.id] == before + (Ids(Slots(r, ps[..k], who)) + Ids([r]));
    }
  }

  method IndexParticipants(index: Index, r: Record) returns (index': Index)
    ensures forall who {:trigger At(index', who)} ::
        At(index', who) == At(index, who) + Ids(Slots(r, r.participants, who))
  {
    index' := index;
    var k := 0;
    forall who {:trigger At(index', who)}
      ensures At(index', who) == At(index, who) + Ids(Slots(r, r.participants[..0], who)) {}
    while k < |r.participants|
      invariant k <= |r.participants|
      invariant forall who {:trigger At(index', who)} ::
          At(index', who) == At(index, who) + Ids(Slots(r, r.participants[..k], who))
    {
      ghost var now := index';
      index' := Push(index', r.participants[k].identity, r.id);
      forall who {:trigger At(index', who)}
        ensures At(index', who) == At(index, who) + Ids(Slots(r, r.participants[..k + 1], who))
      {
        assert At(now, who) == At(index, who) + Ids(Slots(r, r.participants[..k], who));
        OneSlot(r, r.participants, k, who, At(index, who), now);
      }
      k := k + 1;
    }
    assert r.participants[..k] == r.participants;
  }

  class CollaborationState {
    var records: map<string, Record>
    var byWork: Index
    var byIdentity: Index
    ghost var log: seq<Record>

    ghost predicate Valid()
      reads this
    {
      Tabled(records, log) && Indexed(byWork, byIdentity, log)
    }

    constructor ()
      ensures Valid() && log == []
    {
      records, byWork, byIdentity, log := map[], map[], map[], [];
    }

    method Register(r: Record) returns (refused: Option<Refusal>)
      requires Valid()
      modifies this
      ensures Valid() && refused == Refused(old(records), r)
      ensures refused == Some(NoParticipants) <==> |r.participants| == 0
      ensures refused == Some(NoWorkHash) <==> |r.participants| > 0 && |r.workHash| == 0
      ensures refused == Some(AlreadyRegistered) <==>
        |r.participants| > 0 && |r.workHash| > 0 && exists i :: 0 <= i < |old(log)| && old(log)[i].id == r.id
      ensures log == if refused.None? then old(log) + [r] else old(log)
      ensures refused.Some? ==> unchanged(this)
    {
      refused := Refused(records, r);
      TakenExactly(records, log, r.id);
      if refused.None? {
        records, byWork, byIdentity, log := Filed(records, byWork, byIdentity, log, r);
      }
    }

    method ForWork(h: string) returns (rs: seq<Record>)
      requires Valid()
      ensures rs == WithHash(log, h)
    {
      ForWorkScansLog(records, byWork, byIdentity, log, h);
      rs := Lookup(records, At(byWork, h));
    }

    method ForIdentity(who: string) returns (rs: seq<Record>)
      requires Valid()
      ensures rs == WithIdentity(log, who)
    {
      ForIdentityScansLog(records, byWork, byIdentity, log, who);
      rs := Lookup(records, At(byIdentity, who));
    }

    method ConflictCount() returns (n: nat)
      requires Valid()
      ensures n == |Disputed(log)|
    {
      CrowdedIsDisputed(byWork, byIdentity, log);
      n := |Crowded(byWork)|;
    }
  }

  lemma Extended(records: map<string, Record>, byWork: Index, byIdentity: Index, log: seq<Record>, r: Record,
                 table: map<string, Record>, work: Index, index: Index, longer: seq<Record>)
    requires Tabled(records, log) && Indexed(byWork, byIdentity, log) && r.id !in records
    requires table == records[r.id := r] && work == Push(byWork, r.workHash, r.id) && longer == log + [r]
    requires forall who {:trigger At(index, who)} ::
        At(index, who) == At(byIdentity, who) + Ids(Slots(r, r.participants, who))
    ensures Tabled(table, longer) && Indexed(work, index, longer)
  {
    TabledMore(records, log, r);
    forall h ensures ListsWork(work, longer, h) {
      assert ListsWork(byWork, log, h);
      WorkIndexed(byWork, log, r, h);
    }
    forall who ensures ListsIdentity(index, longer, who) {
      assert ListsIdentity(byIdentity, log, who);
      IdentityIndexed(byIdentity, index, log, r, who);
    }
  }

  /** A new record entered in the table and both indices. */
  method Filed(records: map<string, Record>, byWork: Index, byIdentity: Index, ghost log: seq<Record>, r: Record)
    returns (table: map<string, Record>, work: Index, index: Index, ghost longer: seq<Record>)
    requires Tabled(records, log) && Indexed(byWork, byIdentity, log) && r.id !in records
    ensures longer == log + [r] && Tabled(table, longer) && Indexed(work, index, longer)
  {
    work := Push(byWork, r.workHash, r.id);
    index := IndexParticipants(byIdentity, r);
    table := records[r.id := r];
    longer := log + [r];
    Extended(records, byWork, byIdentity, log, r, table, work, index, longer);
  }

  /** The records a replay accepts: each id's first well-formed record. */
  ghost function Accepted(rs: seq<Record>): seq<Record> {
    if rs == [] then []
    else
      var front, r := Accepted(rs[..|rs| - 1]), rs[|rs| - 1];
      if && r.participants != [] && r.workHash != ""
         && (forall i {:trigger front[i]} | 0 <= i < |front| :: front[i].id != r.id)
      then front + [r] else front
  }

  predicate WellFormed(r: Record) {
    |r.participants| > 0 && |r.workHash| > 0
  }

  /** The first well-formed record of its id. */
  ghost predicate FirstOfId(rs: seq<Record>, p: nat) {
    && p < |rs| && WellFormed(rs[p])
    && forall q {:trigger rs[q]} | 0 <= q < p && WellFormed(rs[q]) :: rs[q].id != rs[p].id
  }

  /** A replay picks exactly those, in order. */
  lemma {:induction false} AcceptedExactly(rs: seq<Record>) returns (at: seq<nat>)
    ensures PickedAt(Accepted(rs), rs, at)
    ensures forall p: nat {:trigger p in at} :: p in at <==> FirstOfId(rs, p)
    decreases |rs|
  {
    if rs == [] {
      at := [];
    } else {
      var front, r := rs[..|rs| - 1], rs[|rs| - 1];
      assert rs == front + [r];
      at := AcceptedExactly(front);
      PickedMore(Accepted(front), front, at, r);
      forall p: nat | p < |front| ensures FirstOfId(rs, p) <==> FirstOfId(front, p) { FirstOfIdFront(front, r, p); }
      FirstOfIdLast(front, r, at);
      if FirstOfId(rs, |front|) { at := at + [|front|]; }
    }
  }

  lemma FirstOfIdFront(front: seq<Record>, r: Record, p: nat)
    requires p < |front|
    ensures FirstOfId(front + [r], p) <==> FirstOfId(front, p)
  {
    forall q {:trigger front[q]} | 0 <= q < |front| ensures (front + [r])[q] == front[q] {}
  }

  lemma {:induction false} SomeFirstOfId(rs: seq<Record>, q: nat) returns (p: nat)
    requires q < |rs| && WellFormed(rs[q])
    ensures FirstOfId(rs, p) && p <= q && rs[p].id == rs[q].id
    decreases q
  {
    if FirstOfId(rs, q) {
      p := q;
    } else {
      var j :| 0 <= j < q && WellFormed(rs[j]) && rs[j].id == rs[q].id;
      p := SomeFirstOfId(rs, j);
    }
  }

  /** The replay takes the last record exactly when it is the first of its id. */
  lemma FirstOfIdLast(front: seq<Record>, r: Record, at: seq<nat>)
    requires PickedAt(Accepted(front), front, at)
    requires forall p: nat {:trigger p in at} :: p in at <==> FirstOfId(front, p)
    ensures Accepted(front + [r]) == if FirstOfId(front + [r], |front|) then Accepted(front) + [r] else Accepted(front)
  {
    var rs, taken := front + [r], Accepted(front);
    assert rs[..|front|] == front;
    if WellFormed(r) {
      if q :| 0 <= q < |front| && WellFormed(rs[q]) && rs[q].id == r.id {
        assert rs[q] == front[q];
        var p := SomeFirstOfId(front, q);
        assert p in at;
        var i :| 0 <= i < |at| && at[i] == p;
        assert taken[i].id == r.id;
      } else {
        forall i {:trigger taken[i]} | 0 <= i < |taken| ensures taken[i].id != r.id {
          assert at[i] in at;
          assert rs[at[i]] == front[at[i]];
        }
      }
    }
  }

  lemma TakenExactly(records: map<string, Record>, log: seq<Record>, id: string)
    requires Tabled(records, log)
    ensures id in records <==> exists i {:trigger log[i]} :: 0 <= i < |log| && log[i].id == id
  {
    assert id in records <==> id in IdSet(log);
  }

  method Rebuild(rs: seq<Record>) returns (state: CollaborationState)
    ensures fresh(state) && state.Valid() && state.log == Accepted(rs)
  {
    state := new CollaborationState();
    var i := 0;
    while i < |rs|
      invariant i <= |rs| && fresh(state) && state.Valid() && state.log == Accepted(rs[..i])
    {
      assert rs[..i + 1][..i] == rs[..i];
      TakenExactly(state.records, state.log, rs[i].id);
      var refused := state.Register(rs[i]);
      i := i + 1;
    }
    assert rs[..i] == rs;
  }
}
