/**
  A node as the fold of its records.  Every run, with whatever snapshots, failed writes and crashes, leaves
  the gate state of a list of records, and leaves in the blob that of another; comparing the lists tells when
  two nodes agree and when a restart opens a closed gate.
 */
module EmergencyHistory {
  import opened Emergency
  import opened EmergencyNode

  /** The record an act folds; one whose write was due and failed counts for nothing. */
  function SavedBy(a: Act): seq<Event> {
    match a
    case FoldHalt(h, now, true) => [HaltSeen(h, BoundedExpiry(h, now))]
    case FoldResume(r, true) => [ResumeSeen(r)]
    case _ => []
  }

  /** The records folded, winners and others, in order, with the windows they were given. */
  function Saved(acts: seq<Act>): seq<Event> {
    if acts == [] then [] else Saved(acts[..|acts| - 1]) + SavedBy(acts[|acts| - 1])
  }

  lemma SavedSnoc(acts: seq<Act>, a: Act)
    ensures Saved(acts + [a]) == Saved(acts) + SavedBy(a)
  {
    assert (acts + [a])[..|acts|] == acts;
  }

  /** A state taken over at a time, as a halt and a resume. */
  function Carried(s: State, now: Word): seq<Event> {
    [HaltSeen(Halt(FORMAT_VERSION, [], s.haltNonce, 0, 0, s.reason), BoundExpiry(s.expiry, now)),
     ResumeSeen(Resume(FORMAT_VERSION, [], s.resumeNonce, 0))]
  }

  function CutEvent(e: Event, now: Word): Event {
    match e
    case HaltSeen(h, expiry) => HaltSeen(h, BoundExpiry(expiry, now))
    case ResumeSeen(_) => e
  }

  /** The records with every window cut at the ceiling of a boot. */
  function Cut(es: seq<Event>, now: Word): (cut: seq<Event>)
    ensures |cut| == |es|
  {
    seq(|es|, i requires 0 <= i < |es| => CutEvent(es[i], now))
  }

  predicate Newer(s: State, e: Event) {
    match e
    case HaltSeen(h, _) => h.nonce > s.haltNonce
    case ResumeSeen(r) => r.haltNonce > s.resumeNonce
  }

  /** The records the blob stands for, and those the live state stands for. */
  datatype Records = Records(blob: seq<Event>, live: seq<Event>)

  /** A fold that wins writes the live state, so the blob then stands for all the live records. */
  function Noted(r: Records, n: Node, es: seq<Event>): Records {
    if es == [] then r
    else if Newer(n.live, es[0]) then Records(r.live + es, r.live + es)
    else Records(if Newer(n.durable, es[0]) then r.blob else r.blob + es, r.live + es)
  }

  function NextRecords(r: Records, n: Node, a: Act): Records {
    match a
    case Reboot(now) => r.(live := Cut(r.blob, now))
    case Adopt(s, now) => r.(live := r.live + Carried(s, now))
    case Put(s, saved) => if saved then r.(blob := Carried(s, U64 - 1)) else r
    case _ => Noted(r, n, SavedBy(a))
  }

  function History(acts: seq<Act>): Records {
    if acts == [] then Records([], [])
    else
      var front := acts[..|acts| - 1];
      NextRecords(History(front), Run(front), acts[|acts| - 1])
  }

  lemma HistorySnoc(acts: seq<Act>, a: Act)
    ensures History(acts + [a]) == NextRecords(History(acts), Run(acts), a)
  {
    assert (acts + [a])[..|acts|] == acts;
  }

  // ----- every run is the fold of its records

  lemma FoldSnoc(es: seq<Event>, e: Event)
    ensures FoldAll(CLEAR, es + [e]) == Apply(FoldAll(CLEAR, es), e)
  {
    assert (es + [e])[..|es|] == es;
  }

  lemma FoldCarried(es: seq<Event>, s: State, now: Word)
    ensures FoldAll(CLEAR, es + Carried(s, now)) == Load(FoldAll(CLEAR, es), s, now)
  {
    var c := Carried(s, now);
    FoldSnoc(es, c[0]);
    FoldSnoc(es + [c[0]], c[1]);
    assert es + c == es + [c[0]] + [c[1]];
  }

  /** Folding cut records gives the state cut. */
  lemma {:induction false} FoldCut(es: seq<Event>, now: Word)
    ensures var s := FoldAll(CLEAR, es);
      FoldAll(CLEAR, Cut(es, now)) == s.(expiry := BoundExpiry(s.expiry, now))
    decreases |es|
  {
    if es != [] {
      var front := es[..|es| - 1];
      FoldCut(front, now);
      assert Cut(es, now)[..|es| - 1] == Cut(front, now);
    }
  }

  /** States a boot cannot tell apart: without a halt, window and reason are not read. */
  ghost predicate BootsAs(s: State, t: State) {
    s == t || (s.haltNonce == t.haltNonce == 0 && s.resumeNonce == t.resumeNonce)
  }

  lemma BootRecords(r: Records, durable: State, now: Word)
    requires BootsAs(durable, FoldAll(CLEAR, r.blob))
    ensures Load(CLEAR, durable, now) == FoldAll(CLEAR, Cut(r.blob, now))
  {
    FoldCut(r.blob, now);
    RunCharacterised(r.blob);
  }

  lemma PutRecords(s: State)
    ensures BootsAs(s, FoldAll(CLEAR, Carried(s, U64 - 1)))
  {
    assert [] + Carried(s, U64 - 1) == Carried(s, U64 - 1);
    FoldCarried([], s, U64 - 1);
  }

  /** The live records fold to what the stores lead to, and the blob's to what a boot sees. */
  ghost predicate StandsFor(r: Records, n: Node) {
    Target(n) == FoldAll(CLEAR, r.live) && BootsAs(n.durable, FoldAll(CLEAR, r.blob))
  }

  lemma NotedFolds(r: Records, n: Node, e: Event)
    requires n.live == FoldAll(CLEAR, r.live) && BootsAs(n.durable, FoldAll(CLEAR, r.blob))
    ensures var q := Noted(r, n, [e]);
      && Apply(n.live, e) == FoldAll(CLEAR, q.live)
      && BootsAs(if Newer(n.live, e) then Apply(n.live, e) else n.durable, FoldAll(CLEAR, q.blob))
  {
    FoldSnoc(r.live, e);
    FoldSnoc(r.blob, e);
  }

  lemma NotedStands(r: Records, n: Node, a: Act)
    requires StandsFor(r, n) && Enabled(n, a) && (a.FoldHalt? || a.FoldResume? || a.Store?) && Inv(n)
    ensures StandsFor(NextRecords(r, n, a), Next(n, a))
  {
    match a
    case FoldHalt(h, now, true) => NotedFolds(r, n, HaltSeen(h, BoundedExpiry(h, now)));
    case FoldResume(x, true) => NotedFolds(r, n, ResumeSeen(x));
    case _ =>
  }

  lemma StepStands(r: Records, n: Node, a: Act)
    requires StandsFor(r, n) && Enabled(n, a) && Inv(n)
    ensures StandsFor(NextRecords(r, n, a), Next(n, a))
  {
    match a
    case Reboot(now) => BootRecords(r, n.durable, now);
    case Adopt(s, now) => FoldCarried(r.live, s, now);
    case Put(s, _) => PutRecords(s);
    case _ => NotedStands(r, n, a);
  }

  /** Through any snapshots, failed writes and crashes, a node is the fold of its records. */
  lemma {:induction false} NodeIsItsRecords(acts: seq<Act>)
    requires Legal(acts)
    ensures StandsFor(History(acts), Run(acts))
    decreases |acts|
  {
    if acts != [] {
      var front := acts[..|acts| - 1];
      NodeIsItsRecords(front);
      RunKeepsInv(front);
      StepStands(History(front), Run(front), acts[|acts| - 1]);
    }
  }

  /** At rest the nonces are the greatest of the records, and the window that of the first halt with the top one. */
  lemma NodeCharacterised(acts: seq<Act>)
    requires Legal(acts) && Run(acts).phase.Free?
    ensures var es, s := History(acts).live, Run(acts).live;
      TopHalt(es, s.haltNonce) && TopResume(es, s.resumeNonce) && WindowOf(es, s)
  {
    NodeIsItsRecords(acts);
    RunCharacterised(History(acts).live);
  }

  // ----- runs without snapshots keep every record

  ghost predicate Within(es: seq<Event>, clock: Word) {
    forall i {:trigger es[i]} | 0 <= i < |es| && es[i].HaltSeen? ::
      es[i].expiry <= SaturatingAdd(clock, MAX_HALT_DURATION)
  }

  lemma CutNothing(es: seq<Event>, now: Word)
    requires Within(es, now)
    ensures Cut(es, now) == es
  {
    forall i {:trigger es[i]} | 0 <= i < |es| ensures Cut(es, now)[i] == es[i] { }
  }

  lemma WithinNext(es: seq<Event>, a: Act, clock: Word, clock': Word)
    requires Within(es, clock) && clock <= clock' && (a.FoldHalt? ==> clock' == a.now)
    ensures Within(es + SavedBy(a), clock')
  {
    var all := es + SavedBy(a);
    forall i {:trigger all[i]} | 0 <= i < |all| && all[i].HaltSeen?
      ensures all[i].expiry <= SaturatingAdd(clock', MAX_HALT_DURATION)
    {
      if i < |es| { assert all[i] == es[i]; }
    }
  }

  lemma {:induction false} AllRecordsKept(acts: seq<Act>)
    requires Legal(acts) && NoSnapshots(acts)
    ensures History(acts) == Records(Saved(acts), Saved(acts)) && Within(Saved(acts), Run(acts).clock)
    decreases |acts|
  {
    if acts != [] {
      var front, a := acts[..|acts| - 1], acts[|acts| - 1];
      NoSnapshotsBefore(acts);
      AllRecordsKept(front);
      NoSnapshotsInStep(front);
      BlobNeverLags(front);
      WithinNext(Saved(front), a, Run(front).clock, Run(acts).clock);
      if a.Reboot? { CutNothing(Saved(front), a.now); }
    }
  }

  /** Without snapshots a node is the fold of its saved records, each halt cut at the ceiling when it came. */
  lemma NodeRefinesFold(acts: seq<Act>)
    requires Legal(acts) && NoSnapshots(acts)
    ensures Run(acts).durable == Target(Run(acts)) == FoldAll(CLEAR, Saved(acts))
  {
    AllRecordsKept(acts);
    NodeIsItsRecords(acts);
    NoSnapshotsInStep(acts);
  }

  // ----- agreement between nodes

  /**
    Any two nodes at rest: the nonces agree exactly when the greatest of their records do, and the gates
    exactly when the first top halts were given the same window besides.
   */
  lemma NodesAgreeExactly(a: seq<Act>, b: seq<Act>)
    requires Legal(a) && Run(a).phase.Free? && Legal(b) && Run(b).phase.Free?
    ensures var es, fs, s, t := History(a).live, History(b).live, Run(a).live, Run(b).live;
      && (s.haltNonce == t.haltNonce && s.resumeNonce == t.resumeNonce <==> SameTops(es, fs))
      && (s == t <==> SameTops(es, fs) && SameWindow(es, fs))
  {
    NodeIsItsRecords(a);
    NodeIsItsRecords(b);
    SameTopsExactly(History(a).live, History(b).live);
    RunsAgreeExactly(History(a).live, History(b).live);
  }

  /**
    Nodes without snapshots that saved the same records, in any order and at any times, through any
    crashes: the nonces always agree, and the gates exactly when the first top halts were cut alike.
   */
  lemma SameRecordsNodesAgree(a: seq<Act>, b: seq<Act>)
    requires Legal(a) && NoSnapshots(a) && Run(a).phase.Free?
    requires Legal(b) && NoSnapshots(b) && Run(b).phase.Free?
    requires SameRecords(Saved(a), Saved(b))
    ensures Run(a).live.haltNonce == Run(b).live.haltNonce && Run(a).live.resumeNonce == Run(b).live.resumeNonce
    ensures Run(a).live == Run(b).live <==> SameWindow(Saved(a), Saved(b))
  {
    NodeRefinesFold(a);
    NodeRefinesFold(b);
    SameRecordsAgree(Saved(a), Saved(b));
  }

  /** A fresh node that publishes the state of another at rest, and writes it, is in the same state. */
  lemma BootstrapMatches(acts: seq<Act>, now: Word)
    requires Legal(acts) && Run(acts).phase.Free? && Run(acts).clock <= now
    ensures var s := Run(acts).live;
      var m := Settle(Next(FRESH, Adopt(s, now)));
      m.live == s && m.owed == Loaded(s) && InStep(Next(m, Put(s, true)))
  {
    RunKeepsInv(acts);
    var s := Run(acts).live;
    var n := Next(FRESH, Adopt(s, now));
    StepKeepsInv(FRESH, Adopt(s, now));
    SettleReachesTarget(n);
    SettleLoads(n, s);
  }

  /** Two nodes give one halt the same window exactly when neither cuts it, or both cut it at the same time. */
  lemma WindowsAgreeExactly(h: Halt, t: Word, u: Word)
    ensures BoundedExpiry(h, t) == BoundedExpiry(h, u) <==>
      || SaturatingAdd(t, MAX_HALT_DURATION) == SaturatingAdd(u, MAX_HALT_DURATION)
      || EffectiveExpiry(h) <= Min(SaturatingAdd(t, MAX_HALT_DURATION), SaturatingAdd(u, MAX_HALT_DURATION))
  {
  }

  lemma OneHaltSaved(h: Halt, now: Word)
    ensures Saved(HaltAt(h, now)) == [HaltSeen(h, BoundedExpiry(h, now))]
  {
    var a := [FoldHalt(h, now, true)];
    assert [] + a == a;
    SavedSnoc([], FoldHalt(h, now, true));
    SavedSnoc(a, Store);
    SavedSnoc(a + [Store], Store);
    SavedSnoc(a + [Store] + [Store], Store);
  }

  /** A halt dated ahead, seen ten seconds apart: one record, two gates. */
  lemma NodesDisagree()
    ensures exists a, b ::
      && Legal(a) && NoSnapshots(a) && Run(a).phase.Free? && Legal(b) && NoSnapshots(b) && Run(b).phase.Free?
      && SameRecords(Saved(a), Saved(b)) && Run(b).live.expiry == Run(a).live.expiry + 10
  {
    var h := Halt(1, [], 1, 10000000, 3600, []);
    OneHalt(h, 0);
    OneHalt(h, 10);
    OneHaltSaved(h, 0);
    OneHaltSaved(h, 10);
    var a, b := HaltAt(h, 0), HaltAt(h, 10);
    forall k ensures HasHalt(Saved(a), k) <==> HasHalt(Saved(b), k) {
      assert Saved(a)[0].halt == h == Saved(b)[0].halt;
    }
    assert SameRecords(Saved(a), Saved(b));
  }

  // ----- a restart that opens a closed gate

  ghost predicate Unhalts(n: Node, boot: Word) {
    exists t: Word :: boot <= t && HaltedAt(n.live, t) && !HaltedAt(Next(n, Reboot(boot)).live, t)
  }

  /** When, from a boot on, a stored state leaves the gate open. */
  function OpenFrom(s: State, boot: Word): Word {
    var end := GateEnd(s.(expiry := BoundExpiry(s.expiry, boot)));
    if end < boot then boot else end
  }

  lemma UnhaltsExactly(n: Node, boot: Word)
    ensures Unhalts(n, boot) <==> HaltedAt(n.live, OpenFrom(n.durable, boot))
  {
    var m, t := Next(n, Reboot(boot)).live, OpenFrom(n.durable, boot);
    assert !HaltedAt(m, t) && boot <= t;
    if HaltedAt(n.live, t) {
      assert Unhalts(n, boot);
    }
  }

  lemma NotedLive(r: Records, n: Node, a: Act)
    requires a.FoldHalt? || a.FoldResume? || a.Store?
    ensures NextRecords(r, n, a).live == r.live + SavedBy(a)
  {
  }

  lemma {:induction false} HistoryOfFolds(acts: seq<Act>, mid: seq<Act>)
    requires FoldsOnly(mid)
    ensures History(acts + mid).live == History(acts).live + Saved(mid)
    decreases |mid|
  {
    if mid == [] {
      assert acts + mid == acts;
    } else {
      var front, a := mid[..|mid| - 1], mid[|mid| - 1];
      assert mid == front + [a];
      assert acts + mid == acts + front + [a];
      FoldsOnlyFront(front, a);
      HistoryOfFolds(acts, front);
      HistorySnoc(acts + front, a);
      NotedLive(History(acts + front), Run(acts + front), a);
      SavedSnoc(front, a);
    }
  }

  lemma FoldsOnlyFront(front: seq<Act>, a: Act)
    requires FoldsOnly(front + [a])
    ensures FoldsOnly(front) && (a.FoldHalt? || a.FoldResume? || a.Store?)
  {
    NoneAboveSnoc(front, a, CLEAR);
  }

  lemma AdoptedRecords(acts: seq<Act>, s: State, now: Word, mid: seq<Act>)
    requires FoldsOnly(mid)
    ensures History(acts + [Adopt(s, now)] + mid).live == History(acts).live + Carried(s, now) + Saved(mid)
  {
    HistorySnoc(acts, Adopt(s, now));
    HistoryOfFolds(acts + [Adopt(s, now)], mid);
  }

  /**
    A snapshot published, any folds, the snapshot written, then a restart: it opens a gate that was closed
    exactly when, among the node's earlier records, the snapshot and the folds, the first top halt is above
    every resume and outlasts the snapshot's own closure from the boot on.
   */
  lemma AdoptionUnhaltsExactly(acts: seq<Act>, s: State, now: Word, mid: seq<Act>, boot: Word)
    requires Legal(acts + [Adopt(s, now)] + mid + [Put(s, true)]) && FoldsOnly(mid)
    requires var n := Run(acts + [Adopt(s, now)] + mid + [Put(s, true)]); n.phase.Free? && n.clock <= boot
    ensures Unhalts(Run(acts + [Adopt(s, now)] + mid + [Put(s, true)]), boot) <==>
      exists i: nat :: Holding(History(acts).live + Carried(s, now) + Saved(mid), i, OpenFrom(s, boot))
  {
    var loaded := acts + [Adopt(s, now)];
    var all := loaded + mid;
    RunSnoc(all, Put(s, true));
    AdoptedRecords(acts, s, now, mid);
    NodeIsItsRecords(all);
    UnhaltsExactly(Run(all + [Put(s, true)]), boot);
    HaltedExactlyWhen(History(all).live, OpenFrom(s, boot));
  }
}
