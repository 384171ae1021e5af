/**
  The gate inside a node, step by step.  A fold holds the lock, writes the durable blob, then publishes
  expiry, reason and nonce one store at a time.  A snapshot is published first, under the lock, and
  written to the blob later, without it.  The ingest path reads without the lock, and the process may die
  between any two steps.  Steps interleave; each store is seen in the order it was made.
 */
module EmergencyNode {
  import opened Emergency

  /** The next store of whoever holds the lock; `next` is the state its stores lead to. */
  datatype Phase = Free | AtExpiry(next: State) | AtReason(next: State) | AtNonce(next: State) | AtResume(next: State)

  /** A snapshot that is being published, or is published and still has to be written to the blob. */
  datatype Owed = Nothing | Loading(state: State) | Loaded(state: State)

  datatype Node = Node(durable: State, live: State, phase: Phase, owed: Owed, clock: Word)

  const FRESH: Node := Node(CLEAR, CLEAR, Free, Nothing, 0)

  datatype Act =
    | FoldHalt(halt: Halt, now: Word, saved: bool)
    | FoldResume(resume: Resume, saved: bool)
    | Store
    | Reboot(now: Word)
    | Adopt(state: State, now: Word)
    | Put(state: State, saved: bool)

  function BoundedExpiry(h: Halt, now: Word): Word {
    BoundExpiry(EffectiveExpiry(h), now)
  }

  /** Merging a stored or received state into the atomics. */
  function Load(live: State, s: State, now: Word): State {
    Lifted(Won(live, s.haltNonce, BoundExpiry(s.expiry, now), s.reason), s.resumeNonce)
  }

  /** The state the stores under way lead to. */
  function Target(n: Node): State {
    if n.phase.Free? then n.live else n.phase.next
  }

  function StartHalt(n: Node, h: Halt, now: Word, saved: bool): Node {
    if h.nonce > n.live.haltNonce && saved then
      var next := State(h.nonce, n.live.resumeNonce, BoundedExpiry(h, now), h.reason);
      n.(durable := next, phase := AtExpiry(next), clock := now)
    else n.(clock := now)
  }

  function StartResume(n: Node, r: Resume, saved: bool): Node {
    if r.haltNonce > n.live.resumeNonce && saved then
      var next := n.live.(resumeNonce := r.haltNonce);
      n.(durable := next, phase := AtResume(next))
    else n
  }

  function StartLoad(n: Node, s: State, now: Word): Node {
    var next := Load(n.live, s, now);
    if next.haltNonce > n.live.haltNonce then n.(phase := AtExpiry(next), owed := Loading(s), clock := now)
    else if next.resumeNonce > n.live.resumeNonce then n.(phase := AtResume(next), owed := Loading(s), clock := now)
    else n.(owed := Loaded(s), clock := now)
  }

  function Released(n: Node): Node {
    n.(phase := Free, owed := if n.owed.Loading? then Loaded(n.owed.state) else n.owed)
  }

  /** The next store under the lock. */
  function Publish(n: Node): Node {
    match n.phase
    case Free => n
    case AtExpiry(x) => n.(live := n.live.(expiry := x.expiry), phase := AtReason(x))
    case AtReason(x) => n.(live := n.live.(reason := x.reason), phase := AtNonce(x))
    case AtNonce(x) =>
      var m := n.(live := n.live.(haltNonce := x.haltNonce), phase := AtResume(x));
      if x.resumeNonce > n.live.resumeNonce then m else Released(m)
    case AtResume(x) => Released(n.(live := n.live.(resumeNonce := x.resumeNonce)))
  }

  function Next(n: Node, a: Act): Node {
    match a
    case FoldHalt(h, now, saved) => StartHalt(n, h, now, saved)
    case FoldResume(r, saved) => StartResume(n, r, saved)
    case Store => Publish(n)
    case Reboot(now) => Node(n.durable, Load(CLEAR, n.durable, now), Free, Nothing, now)
    case Adopt(s, now) => StartLoad(n, s, now)
    case Put(s, saved) => n.(durable := if saved then s else n.durable, owed := Nothing)
  }

  /**
    Folds and loads wait for the lock, a snapshot is written once it is published, and the clock does not
    run backwards.  A snapshot may hold anything.
   */
  predicate Enabled(n: Node, a: Act) {
    match a
    case FoldHalt(_, now, _) => n.phase.Free? && n.clock <= now
    case FoldResume(_, _) => n.phase.Free?
    case Store => !n.phase.Free?
    case Reboot(now) => n.clock <= now
    case Adopt(_, now) => n.phase.Free? && n.owed.Nothing? && n.clock <= now
    case Put(s, _) => n.owed == Loaded(s)
  }

  function Run(acts: seq<Act>): Node {
    if acts == [] then FRESH else Next(Run(acts[..|acts| - 1]), acts[|acts| - 1])
  }

  predicate Legal(acts: seq<Act>) {
    acts == [] || (Legal(acts[..|acts| - 1]) && Enabled(Run(acts[..|acts| - 1]), acts[|acts| - 1]))
  }

  lemma RunSnoc(acts: seq<Act>, a: Act)
    ensures Run(acts + [a]) == Next(Run(acts), a)
    ensures Legal(acts + [a]) <==> Legal(acts) && Enabled(Run(acts), a)
  {
    assert (acts + [a])[..|acts|] == acts;
  }

  // ----- what every step keeps

  /** The atomics differ from the target only in the stores still to be made. */
  ghost predicate Underway(n: Node) {
    match n.phase
    case Free => true
    case AtExpiry(x) => n.live.haltNonce < x.haltNonce && n.live.resumeNonce <= x.resumeNonce
    case AtReason(x) =>
      n.live.haltNonce < x.haltNonce && n.live.resumeNonce <= x.resumeNonce && n.live.expiry == x.expiry
    case AtNonce(x) =>
      && n.live.haltNonce < x.haltNonce && n.live.resumeNonce <= x.resumeNonce
      && n.live.expiry == x.expiry && n.live.reason == x.reason
    case AtResume(x) => n.live == x.(resumeNonce := n.live.resumeNonce) && n.live.resumeNonce < x.resumeNonce
  }

  /** No window, published or about to be, outlasts the ceiling from the last act. */
  ghost predicate Bounded(n: Node) {
    && n.live.expiry <= SaturatingAdd(n.clock, MAX_HALT_DURATION)
    && Target(n).expiry <= SaturatingAdd(n.clock, MAX_HALT_DURATION)
    && (Target(n).haltNonce == 0 ==> Target(n).expiry == 0 && Target(n).reason == [])
  }

  ghost predicate NoNewer(s: State, t: State) {
    s.haltNonce <= t.haltNonce && s.resumeNonce <= t.resumeNonce
  }

  ghost predicate Inv(n: Node) {
    && Underway(n) && Bounded(n) && NoNewer(n.durable, Target(n))
    && (!n.owed.Nothing? ==> NoNewer(n.owed.state, Target(n)))
    && (n.owed.Loading? ==> !n.phase.Free?)
  }

  lemma StepKeepsInv(n: Node, a: Act)
    requires Inv(n) && Enabled(n, a)
    ensures Inv(Next(n, a))
  {
  }

  lemma {:induction false} RunKeepsInv(acts: seq<Act>)
    requires Legal(acts)
    ensures Inv(Run(acts))
    decreases |acts|
  {
    if acts != [] {
      RunKeepsInv(acts[..|acts| - 1]);
      StepKeepsInv(Run(acts[..|acts| - 1]), acts[|acts| - 1]);
    }
  }

  /**
    Nothing in the model holds the world back: in every reachable state the process may die at any later
    time, a published snapshot may be written whatever is under way, at rest any record may be folded,
    saved or not, and any snapshot adopted once none is owed.
   */
  lemma AnythingMayCome(acts: seq<Act>, a: Act)
    requires Legal(acts) && (a.Reboot? || a.FoldHalt? || a.Adopt? ==> Run(acts).clock <= a.now)
    requires
      || a.Reboot?
      || (a.Store? && !Run(acts).phase.Free?)
      || (a.Put? && Run(acts).owed == Loaded(a.state))
      || ((a.FoldHalt? || a.FoldResume?) && Run(acts).phase.Free?)
      || (a.Adopt? && Run(acts).phase.Free? && Run(acts).owed.Nothing?)
    ensures Legal(acts + [a]) && Run(acts + [a]) == Next(Run(acts), a)
  {
    RunSnoc(acts, a);
  }

  /** The backstop: thirty days after the node last acted the gate is open, whatever it was fed. */
  lemma GateClearsItself(acts: seq<Act>, t: Word)
    requires Legal(acts) && Run(acts).clock + MAX_HALT_DURATION <= t
    ensures !HaltedAt(Run(acts).live, t)
  {
    RunKeepsInv(acts);
  }

  // ----- refinement: the steps implement atomic operations

  /** The blob and the gate state, with every operation done at once. */
  datatype Whole = Whole(durable: State, state: State)

  function Atomic(w: Whole, a: Act): Whole {
    match a
    case FoldHalt(h, now, saved) =>
      if saved && h.nonce > w.state.haltNonce then
        var next := Apply(w.state, HaltSeen(h, BoundedExpiry(h, now)));
        Whole(next, next)
      else w
    case FoldResume(r, saved) =>
      if saved && r.haltNonce > w.state.resumeNonce then
        var next := Apply(w.state, ResumeSeen(r));
        Whole(next, next)
      else w
    case Store => w
    case Reboot(now) => w.(state := Load(CLEAR, w.durable, now))
    case Adopt(s, now) => w.(state := Load(w.state, s, now))
    case Put(s, saved) => if saved then w.(durable := s) else w
  }

  function AtomicRun(acts: seq<Act>): Whole {
    if acts == [] then Whole(CLEAR, CLEAR) else Atomic(AtomicRun(acts[..|acts| - 1]), acts[|acts| - 1])
  }

  /**
    Through all interleavings and crashes the blob, and what the stores lead to, are those of the atomic
    operations.
   */
  lemma {:induction false} NodeRefinesAtomic(acts: seq<Act>)
    requires Legal(acts)
    ensures AtomicRun(acts) == Whole(Run(acts).durable, Target(Run(acts)))
    decreases |acts|
  {
    if acts != [] {
      NodeRefinesAtomic(acts[..|acts| - 1]);
      RunKeepsInv(acts[..|acts| - 1]);
    }
  }

  /** The fold under way run to its end. */
  function Remaining(p: Phase): nat {
    match p
    case Free => 0
    case AtExpiry(_) => 4
    case AtReason(_) => 3
    case AtNonce(_) => 2
    case AtResume(_) => 1
  }

  function Settle(n: Node): Node
    decreases Remaining(n.phase)
  {
    if n.phase.Free? then n else Settle(Publish(n))
  }

  lemma {:induction false} SettleReachesTarget(n: Node)
    requires Inv(n)
    ensures Inv(Settle(n)) && Settle(n).live == Target(n) && Settle(n).durable == n.durable && Settle(n).phase.Free?
    decreases Remaining(n.phase)
  {
    if !n.phase.Free? {
      StepKeepsInv(n, Store);
      SettleReachesTarget(Publish(n));
    }
  }

  // ----- the blob against the gate

  /** The blob is behind what is published, or about to be. */
  ghost predicate Behind(n: Node) {
    n.durable.haltNonce < Target(n).haltNonce || n.durable.resumeNonce < Target(n).resumeNonce
  }

  /** The blob is behind what is published now. */
  ghost predicate Lags(n: Node) {
    n.durable.haltNonce < n.live.haltNonce || n.durable.resumeNonce < n.live.resumeNonce
  }

  lemma LagsOnlyBehind(n: Node)
    requires Inv(n)
    ensures Lags(n) ==> Behind(n)
    ensures n.phase.Free? ==> (Lags(n) <==> Behind(n))
  {
  }

  /** Which steps leave the blob behind. */
  ghost predicate FallsBehind(n: Node, a: Act) {
    match a
    case FoldHalt(h, _, saved) => Behind(n) && !(saved && h.nonce > n.live.haltNonce)
    case FoldResume(r, saved) => Behind(n) && !(saved && r.haltNonce > n.live.resumeNonce)
    case Store => Behind(n)
    case Reboot(_) => false
    case Adopt(s, _) => Behind(n) || !NoNewer(s, n.live)
    case Put(s, saved) => if saved then !NoNewer(Target(n), s) else Behind(n)
  }

  lemma BehindExactly(n: Node, a: Act)
    requires Inv(n) && Enabled(n, a)
    ensures Behind(Next(n, a)) <==> FallsBehind(n, a)
  {
  }

  ghost predicate NoSnapshots(acts: seq<Act>) {
    forall i {:trigger acts[i]} | 0 <= i < |acts| :: !acts[i].Adopt?
  }

  lemma NoSnapshotsBefore(acts: seq<Act>)
    requires NoSnapshots(acts) && acts != []
    ensures NoSnapshots(acts[..|acts| - 1]) && !acts[|acts| - 1].Adopt?
  {
    forall i {:trigger acts[..|acts| - 1][i]} | 0 <= i < |acts| - 1 ensures !acts[..|acts| - 1][i].Adopt? {
      assert acts[..|acts| - 1][i] == acts[i];
    }
  }

  /** Without snapshots the blob is never behind: not even between the stores of a fold. */
  lemma {:induction false} BlobNeverLags(acts: seq<Act>)
    requires Legal(acts) && NoSnapshots(acts)
    ensures !Behind(Run(acts)) && !Lags(Run(acts)) && Run(acts).owed.Nothing?
    decreases |acts|
  {
    if acts != [] {
      var front := acts[..|acts| - 1];
      NoSnapshotsBefore(acts);
      BlobNeverLags(front);
      RunKeepsInv(front);
      BehindExactly(Run(front), acts[|acts| - 1]);
      RunKeepsInv(acts);
      LagsOnlyBehind(Run(acts));
    }
  }

  /** A newer snapshot, once published, leaves the blob behind until it is written; dying there forgets it. */
  lemma PublishedBeforeWritten(n: Node, s: State, now: Word)
    requires Inv(n) && Enabled(n, Adopt(s, now)) && !NoNewer(s, n.live)
    ensures var m := Settle(Next(n, Adopt(s, now)));
      && m.owed == Loaded(s) && Lags(m) && m.durable == n.durable
      && Next(m, Reboot(now)).live == Load(CLEAR, n.durable, now)
  {
    var m := Next(n, Adopt(s, now));
    StepKeepsInv(n, Adopt(s, now));
    SettleReachesTarget(m);
    SettleLoads(m, s);
  }

  lemma {:induction false} SettleLoads(n: Node, s: State)
    requires Inv(n) && n.owed in {Loading(s), Loaded(s)}
    ensures Settle(n).owed == Loaded(s)
    decreases Remaining(n.phase)
  {
    if !n.phase.Free? {
      StepKeepsInv(n, Store);
      SettleLoads(Publish(n), s);
    }
  }

  /** Stores and folds, as they may come between publishing a snapshot and writing it. */
  ghost predicate FoldsOnly(acts: seq<Act>) {
    forall i {:trigger acts[i]} | 0 <= i < |acts| :: acts[i].Store? || acts[i].FoldHalt? || acts[i].FoldResume?
  }

  /** None of the folds saves a nonce above the snapshot's. */
  ghost predicate NoneAbove(acts: seq<Act>, s: State) {
    forall i {:trigger acts[i]} | 0 <= i < |acts| ::
      && (acts[i].FoldHalt? && acts[i].saved ==> acts[i].halt.nonce <= s.haltNonce)
      && (acts[i].FoldResume? && acts[i].saved ==> acts[i].resume.haltNonce <= s.resumeNonce)
  }

  lemma NoneAboveSnoc(mid: seq<Act>, a: Act, s: State)
    ensures FoldsOnly(mid + [a]) <==> FoldsOnly(mid) && (a.Store? || a.FoldHalt? || a.FoldResume?)
    ensures NoneAbove(mid + [a], s) <==> NoneAbove(mid, s) && NoneAbove([a], s)
  {
    var all := mid + [a];
    assert all[|mid|] == a == [a][0] && forall i {:trigger all[i]} {:trigger mid[i]} | 0 <= i < |mid| ::
        all[i] == mid[i];
  }

  lemma AboveStep(n: Node, a: Act, s: State)
    requires Inv(n) && Enabled(n, a) && (a.Store? || a.FoldHalt? || a.FoldResume?) && NoNewer(s, Target(n))
    ensures NoNewer(s, Target(Next(n, a)))
    ensures NoNewer(Target(Next(n, a)), s) <==> NoNewer(Target(n), s) && NoneAbove([a], s)
  {
    assert [a][0] == a;
  }

  lemma {:induction false} BetweenLoadAndPut(acts: seq<Act>, s: State, now: Word, mid: seq<Act>)
    requires Legal(acts + [Adopt(s, now)] + mid) && FoldsOnly(mid)
    ensures Legal(acts + [Adopt(s, now)])
    ensures var t := Target(Run(acts + [Adopt(s, now)] + mid));
      NoNewer(s, t) && (NoNewer(t, s) <==> NoNewer(Run(acts).live, s) && NoneAbove(mid, s))
    decreases |mid|
  {
    var base := acts + [Adopt(s, now)];
    if mid == [] {
      assert base + mid == base;
      RunSnoc(acts, Adopt(s, now));
      RunKeepsInv(acts);
    } else {
      var front, a := mid[..|mid| - 1], mid[|mid| - 1];
      assert mid == front + [a];
      assert base + mid == (base + front) + [a];
      NoneAboveSnoc(front, a, s);
      RunSnoc(base + front, a);
      BetweenLoadAndPut(acts, s, now, front);
      RunKeepsInv(base + front);
      AboveStep(Run(base + front), a, s);
    }
  }

  /**
    A snapshot published, any folds, then the snapshot written: the blob is in step exactly when the node
    was not ahead of the snapshot and no fold in between saved more.
   */
  lemma AdoptionExactly(acts: seq<Act>, s: State, now: Word, mid: seq<Act>)
    requires Legal(acts + [Adopt(s, now)] + mid + [Put(s, true)]) && FoldsOnly(mid)
    ensures !Behind(Run(acts + [Adopt(s, now)] + mid + [Put(s, true)])) <==>
      NoNewer(Run(acts).live, s) && NoneAbove(mid, s)
  {
    var all := acts + [Adopt(s, now)] + mid;
    RunSnoc(all, Put(s, true));
    RunKeepsInv(all);
    BetweenLoadAndPut(acts, s, now, mid);
    BehindExactly(Run(all), Put(s, true));
  }

  /** Publishing a window takes three stores. */
  lemma ThreeStores(acts: seq<Act>)
    requires Legal(acts) && Run(acts).phase.AtExpiry? && Inv(Run(acts))
    requires Run(acts).phase.next.resumeNonce == Run(acts).live.resumeNonce
    ensures var all, n := acts + [Store] + [Store] + [Store], Run(acts);
      Legal(all) && Run(all) == Released(n.(live := n.phase.next))
  {
    RunSnoc(acts, Store);
    RunSnoc(acts + [Store], Store);
    RunSnoc(acts + [Store] + [Store], Store);
  }

  function HaltAt(h: Halt, now: Word): seq<Act> {
    [FoldHalt(h, now, true)] + [Store] + [Store] + [Store]
  }

  /** One halt folded by a fresh node. */
  lemma OneHalt(h: Halt, now: Word)
    requires h.nonce > 0
    ensures Legal(HaltAt(h, now)) && NoSnapshots(HaltAt(h, now))
    ensures var s := State(h.nonce, 0, BoundedExpiry(h, now), h.reason);
      Run(HaltAt(h, now)) == Node(s, s, Free, Nothing, now)
  {
    assert [] + [FoldHalt(h, now, true)] == [FoldHalt(h, now, true)];
    RunSnoc([], FoldHalt(h, now, true));
    ThreeStores([FoldHalt(h, now, true)]);
  }

  function Adopted(s: State): seq<Act> {
    [Adopt(s, 0)] + [Store] + [Store] + [Store]
  }

  /** One snapshot with a halt and no resume published by a fresh node. */
  lemma OneSnapshot(s: State)
    requires s.haltNonce > 0 == s.resumeNonce
    ensures Legal(Adopted(s))
    ensures Run(Adopted(s)) == Node(CLEAR, s.(expiry := BoundExpiry(s.expiry, 0)), Free, Loaded(s), 0)
  {
    assert [] + [Adopt(s, 0)] == [Adopt(s, 0)];
    RunSnoc([], Adopt(s, 0));
    ThreeStores([Adopt(s, 0)]);
  }

  /**
    A halt folded between publishing a snapshot and writing it is lost from the blob, and a restart opens
    a gate that was closed.
   */
  lemma FoldLostToSnapshot() returns (acts: seq<Act>)
    ensures Legal(acts + [Reboot(15)]) && Legal(acts) && Run(acts).phase.Free? && Run(acts).owed.Nothing?
    ensures Run(acts).durable.haltNonce == 5 && Run(acts).live.haltNonce == 9
    ensures HaltedAt(Run(acts).live, 15) && !HaltedAt(Run(acts + [Reboot(15)]).live, 15)
  {
    var s, h := State(5, 0, 10, []), Halt(1, [], 9, 0, 20, []);
    OneSnapshot(s);
    RunSnoc(Adopted(s), FoldHalt(h, 0, true));
    acts := Adopted(s) + [FoldHalt(h, 0, true)];
    ThreeStores(acts);
    acts := acts + [Store] + [Store] + [Store];
    RunSnoc(acts, Put(s, true));
    acts := acts + [Put(s, true)];
    RunSnoc(acts, Reboot(15));
  }

  // ----- dying and booting

  /** Blob and target agree in full. */
  ghost predicate InStep(n: Node) {
    n.durable == Target(n)
  }

  /** Which steps leave them so; a saved fold always does, whatever came before. */
  ghost predicate FallsInStep(n: Node, a: Act) {
    match a
    case FoldHalt(h, _, saved) => InStep(n) || (saved && h.nonce > n.live.haltNonce)
    case FoldResume(r, saved) => InStep(n) || (saved && r.haltNonce > n.live.resumeNonce)
    case Store => InStep(n)
    case Reboot(now) =>
      if n.durable.haltNonce == 0 then n.durable.expiry == 0 && n.durable.reason == []
      else n.durable.expiry <= SaturatingAdd(now, MAX_HALT_DURATION)
    case Adopt(s, _) => InStep(n) && NoNewer(s, n.live)
    case Put(s, saved) => if saved then s == Target(n) else InStep(n)
  }

  lemma InStepExactly(n: Node, a: Act)
    requires Inv(n) && Enabled(n, a)
    ensures InStep(Next(n, a)) <==> FallsInStep(n, a)
  {
  }

  lemma {:induction false} NoSnapshotsInStep(acts: seq<Act>)
    requires Legal(acts) && NoSnapshots(acts)
    ensures InStep(Run(acts))
    decreases |acts|
  {
    if acts != [] {
      var front := acts[..|acts| - 1];
      NoSnapshotsBefore(acts);
      NoSnapshotsInStep(front);
      BlobNeverLags(front);
      RunKeepsInv(front);
      InStepExactly(Run(front), acts[|acts| - 1]);
    }
  }

  /** Dying and booting gives what the finished fold would have published exactly when the blob holds it. */
  lemma CrashExactly(acts: seq<Act>, now: Word)
    requires Legal(acts) && Run(acts).clock <= now
    ensures var n := Run(acts);
      Next(n, Reboot(now)).live == Settle(n).live <==>
        && !Behind(n)
        && (n.durable.haltNonce > 0 ==>
              BoundExpiry(n.durable.expiry, now) == Target(n).expiry && n.durable.reason == Target(n).reason)
  {
    RunKeepsInv(acts);
    SettleReachesTarget(Run(acts));
  }

  /** In step, dying anywhere in a fold and booting is as good as finishing it. */
  lemma CrashIsAtomic(acts: seq<Act>, now: Word)
    requires Legal(acts) && InStep(Run(acts)) && Run(acts).clock <= now
    ensures Next(Run(acts), Reboot(now)).live == Settle(Run(acts)).live
  {
    RunKeepsInv(acts);
    CrashExactly(acts, now);
  }

  /** When the gate opens, if nothing more happens. */
  function GateEnd(s: State): Word {
    if s.haltNonce > s.resumeNonce then s.expiry else 0
  }

  lemma SameGateExactly(s: State, t: State)
    ensures (forall x: Word :: HaltedAt(s, x) <==> HaltedAt(t, x)) <==> GateEnd(s) == GateEnd(t)
  {
    if GateEnd(s) < GateEnd(t) {
      assert HaltedAt(t, GateEnd(s)) && !HaltedAt(s, GateEnd(s));
    } else if GateEnd(t) < GateEnd(s) {
      assert HaltedAt(s, GateEnd(t)) && !HaltedAt(t, GateEnd(t));
    }
  }

  /** A restart at rest leaves the gate as it was, at every moment, exactly when the blob's cut window ends it then. */
  lemma RestartExactly(acts: seq<Act>, boot: Word)
    requires Legal(acts) && Run(acts).phase.Free? && Run(acts).clock <= boot
    ensures var n := Run(acts);
      (forall t: Word :: HaltedAt(Next(n, Reboot(boot)).live, t) <==> HaltedAt(n.live, t)) <==>
        GateEnd(n.durable.(expiry := BoundExpiry(n.durable.expiry, boot))) == GateEnd(n.live)
  {
    SameGateExactly(Next(Run(acts), Reboot(boot)).live, Run(acts).live);
  }

  lemma RestartKeepsGate(acts: seq<Act>, boot: Word)
    requires Legal(acts) && Run(acts).phase.Free? && Run(acts).clock <= boot && InStep(Run(acts))
    ensures forall t: Word :: HaltedAt(Next(Run(acts), Reboot(boot)).live, t) <==> HaltedAt(Run(acts).live, t)
  {
    RunKeepsInv(acts);
    RestartExactly(acts, boot);
  }

  /** No later boot gives a longer window exactly when the stored expiry is within the ceiling at this one. */
  lemma BootsNeverExtendExactly(n: Node, boot: Word)
    requires n.durable.haltNonce > 0
    ensures
      (forall later: Word | boot <= later :: Next(n, Reboot(later)).live.expiry <= Next(n, Reboot(boot)).live.expiry)
      <==> n.durable.expiry <= SaturatingAdd(boot, MAX_HALT_DURATION)
  {
    if n.durable.expiry > SaturatingAdd(boot, MAX_HALT_DURATION) {
      var later := boot + 1;
      assert Next(n, Reboot(later)).live.expiry > Next(n, Reboot(boot)).live.expiry;
    }
  }

  /** A snapshot dated far ahead, written as it came: every boot gives a later end. */
  lemma BootsCanExtend() returns (acts: seq<Act>)
    ensures Legal(acts + [Reboot(0)] + [Reboot(100)])
    ensures Run(acts + [Reboot(0)]).live.expiry + 100 == Run(acts + [Reboot(0)] + [Reboot(100)]).live.expiry
  {
    var s := State(5, 0, 10000000000, []);
    OneSnapshot(s);
    RunSnoc(Adopted(s), Put(s, true));
    acts := Adopted(s) + [Put(s, true)];
    RunSnoc(acts, Reboot(0));
    RunSnoc(acts + [Reboot(0)], Reboot(100));
  }
}
