/**
  The ingest path reads the gate without the lock: first the halt nonce, then the resume nonce, then the
  expiry, while folds, snapshots and stores go on.  What such a reader can see, and exactly when its answer
  is that of no moment it looked at.
 */
module EmergencyReader {
  import opened Emergency
  import opened EmergencyNode

  // ----- where a published expiry comes from

  /** The nonce of the halt whose expiry is published. */
  function ExpiryNonce(n: Node): Word {
    if n.phase.AtReason? || n.phase.AtNonce? then n.phase.next.haltNonce else n.live.haltNonce
  }

  /** At step `i` a halt with this nonce won, by a fold or a snapshot, and was given this expiry. */
  ghost predicate Gives(acts: seq<Act>, i: nat, nonce: Word, expiry: Word) {
    i < |acts| && Run(acts[..i]).live.haltNonce < nonce &&
    match acts[i]
    case FoldHalt(h, now, saved) => saved && h.nonce == nonce && expiry == BoundedExpiry(h, now)
    case Adopt(s, now) => s.haltNonce == nonce && expiry == BoundExpiry(s.expiry, now)
    case _ => false
  }

  /** The snapshot written at step `i` is what the boot at step `j` reads, and the window is cut then. */
  ghost predicate BootGives(acts: seq<Act>, i: nat, j: nat, nonce: Word, expiry: Word) {
    && i < j < |acts| && acts[i].Put? && acts[i].saved && acts[j].Reboot?
    && Run(acts[..j]).durable == acts[i].state
    && acts[i].state.haltNonce == nonce && expiry == BoundExpiry(acts[i].state.expiry, acts[j].now)
  }

  /** The expiry is the one a halt with this nonce was given, or there is no halt. */
  ghost predicate Traced(acts: seq<Act>, nonce: Word, expiry: Word) {
    || (nonce == 0 && expiry == 0)
    || (exists i: nat :: Gives(acts, i, nonce, expiry))
    || (exists i: nat, j: nat :: BootGives(acts, i, j, nonce, expiry))
  }

  ghost predicate WrittenAt(acts: seq<Act>, i: nat, s: State) {
    i < |acts| && acts[i].Put? && acts[i].saved && acts[i].state == s
  }

  /** The blob is a snapshot as it came, or its expiry is traced and within the ceiling. */
  ghost predicate BlobTraced(acts: seq<Act>, n: Node) {
    || (exists i: nat :: WrittenAt(acts, i, n.durable))
    || (Traced(acts, n.durable.haltNonce, n.durable.expiry)
        && n.durable.expiry <= SaturatingAdd(n.clock, MAX_HALT_DURATION))
  }

  ghost predicate AllTraced(acts: seq<Act>, n: Node) {
    && Traced(acts, ExpiryNonce(n), n.live.expiry) && Traced(acts, Target(n).haltNonce, Target(n).expiry)
    && BlobTraced(acts, n)
  }

  lemma TracedLater(acts: seq<Act>, a: Act, nonce: Word, expiry: Word)
    requires Traced(acts, nonce, expiry)
    ensures Traced(acts + [a], nonce, expiry)
  {
    var all := acts + [a];
    if i: nat :| Gives(acts, i, nonce, expiry) {
      assert all[..i] == acts[..i];
      assert Gives(all, i, nonce, expiry);
    } else if i: nat, j: nat :| BootGives(acts, i, j, nonce, expiry) {
      assert all[..j] == acts[..j];
      assert BootGives(all, i, j, nonce, expiry);
    }
  }

  lemma TracedNow(acts: seq<Act>, a: Act, nonce: Word, expiry: Word)
    requires Gives(acts + [a], |acts|, nonce, expiry)
    ensures Traced(acts + [a], nonce, expiry)
  {
  }

  lemma TracedBoot(acts: seq<Act>, n: Node, now: Word)
    requires n == Run(acts) && Inv(n) && BlobTraced(acts, n) && n.clock <= now && n.durable.haltNonce > 0
    ensures Traced(acts + [Reboot(now)], n.durable.haltNonce, BoundExpiry(n.durable.expiry, now))
  {
    var all := acts + [Reboot(now)];
    if i: nat :| WrittenAt(acts, i, n.durable) {
      assert all[..|acts|] == acts;
      assert BootGives(all, i, |acts|, n.durable.haltNonce, BoundExpiry(n.durable.expiry, now));
    } else {
      TracedLater(acts, Reboot(now), n.durable.haltNonce, n.durable.expiry);
    }
  }

  lemma BlobTracedLater(acts: seq<Act>, n: Node, a: Act, m: Node)
    requires BlobTraced(acts, n) && m.durable == n.durable && n.clock <= m.clock
    ensures BlobTraced(acts + [a], m)
  {
    if i: nat :| WrittenAt(acts, i, n.durable) {
      assert WrittenAt(acts + [a], i, m.durable);
    } else {
      TracedLater(acts, a, n.durable.haltNonce, n.durable.expiry);
    }
  }

  lemma BlobTracedPut(acts: seq<Act>, n: Node, s: State)
    requires n.durable == s
    ensures BlobTraced(acts + [Put(s, true)], n)
  {
    assert WrittenAt(acts + [Put(s, true)], |acts|, s);
  }

  lemma StepTraced(acts: seq<Act>, a: Act)
    requires Inv(Run(acts)) && AllTraced(acts, Run(acts)) && Enabled(Run(acts), a)
    ensures AllTraced(acts + [a], Next(Run(acts), a))
  {
    var n, m := Run(acts), Next(Run(acts), a);
    assert (acts + [a])[..|acts|] == acts;
    TracedLater(acts, a, ExpiryNonce(n), n.live.expiry);
    TracedLater(acts, a, Target(n).haltNonce, Target(n).expiry);
    if m.durable == n.durable { BlobTracedLater(acts, n, a, m); }
    match a
    case FoldHalt(h, now, saved) =>
      if saved && h.nonce > n.live.haltNonce { TracedNow(acts, a, h.nonce, BoundedExpiry(h, now)); }
    case Adopt(s, now) =>
      if s.haltNonce > n.live.haltNonce { TracedNow(acts, a, s.haltNonce, BoundExpiry(s.expiry, now)); }
    case Put(s, saved) => if saved { BlobTracedPut(acts, m, s); }
    case Reboot(now) => if n.durable.haltNonce > 0 { TracedBoot(acts, n, now); }
    case _ =>
  }

  lemma {:induction false} ExpiriesTraced(acts: seq<Act>)
    requires Legal(acts)
    ensures AllTraced(acts, Run(acts))
    decreases |acts|
  {
    if acts != [] {
      var front, a := acts[..|acts| - 1], acts[|acts| - 1];
      assert acts == front + [a];
      RunKeepsInv(front);
      ExpiriesTraced(front);
      StepTraced(front, a);
    }
  }

  // ----- the nonce and the expiry a reader sees

  /** The process lives on from step `k`. */
  ghost predicate Alive(acts: seq<Act>, k: nat) {
    forall i {:trigger acts[i]} | k <= i < |acts| :: !acts[i].Reboot?
  }

  lemma {:induction false} NoncesGrow(acts: seq<Act>, k: nat)
    requires Legal(acts) && k <= |acts| && Alive(acts, k)
    ensures Legal(acts[..k])
    ensures var n, m := Run(acts[..k]), Run(acts); NoNewer(n.live, m.live) && ExpiryNonce(n) <= ExpiryNonce(m)
    decreases |acts|
  {
    if k < |acts| {
      var front := acts[..|acts| - 1];
      assert acts[..k] == front[..k];
      assert forall i {:trigger front[i]} | k <= i < |front| :: front[i] == acts[i];
      NoncesGrow(front, k);
      RunKeepsInv(front);
    } else {
      assert acts[..k] == acts;
    }
  }

  /**
    A reader takes the nonce after `k` steps and the expiry later.  The expiry is the one given to a halt
    at least as new as the nonce it saw, when that halt won or was booted from.
   */
  lemma ReaderSeesMatchingExpiry(acts: seq<Act>, k: nat)
    requires Legal(acts) && k <= |acts| && Alive(acts, k)
    ensures var seen, m := Run(acts[..k]).live.haltNonce, Run(acts);
      seen <= ExpiryNonce(m) && Traced(acts, ExpiryNonce(m), m.live.expiry)
  {
    NoncesGrow(acts, k);
    RunKeepsInv(acts[..k]);
    ExpiriesTraced(acts);
  }

  lemma {:induction false} LegalPrefix(acts: seq<Act>, i: nat)
    requires Legal(acts) && i < |acts|
    ensures Legal(acts[..i]) && Enabled(Run(acts[..i]), acts[i])
    decreases |acts|
  {
    var front := acts[..|acts| - 1];
    if i < |front| {
      LegalPrefix(front, i);
      assert front[..i] == acts[..i];
    }
  }

  lemma NoPuts(acts: seq<Act>, i: nat)
    requires Legal(acts) && NoSnapshots(acts) && i < |acts|
    ensures !acts[i].Put? && !acts[i].Adopt?
  {
    LegalPrefix(acts, i);
    var front := acts[..i];
    assert forall j {:trigger front[j]} | 0 <= j < i :: front[j] == acts[j];
    BlobNeverLags(front);
  }

  /** Without snapshots, crashes or not, it is exactly what the winning fold of a halt at least as new computed. */
  lemma ReaderSeesFoldedExpiry(acts: seq<Act>, k: nat) returns (i: nat)
    requires Legal(acts) && NoSnapshots(acts) && k <= |acts| && Alive(acts, k) && Run(acts[..k]).live.haltNonce > 0
    ensures i < |acts| && acts[i].FoldHalt? && acts[i].saved
    ensures Run(acts[..k]).live.haltNonce <= acts[i].halt.nonce && Run(acts[..i]).live.haltNonce < acts[i].halt.nonce
    ensures Run(acts).live.expiry == BoundedExpiry(acts[i].halt, acts[i].now)
  {
    ReaderSeesMatchingExpiry(acts, k);
    var nonce, expiry := ExpiryNonce(Run(acts)), Run(acts).live.expiry;
    if p: nat, j: nat :| BootGives(acts, p, j, nonce, expiry) {
      NoPuts(acts, p);
      assert false;
    }
    i :| Gives(acts, i, nonce, expiry);
    NoPuts(acts, i);
  }

  // ----- the answer

  /** What a reader answers that takes the nonce of `a`, the resume of `b` and the expiry of `c`. */
  predicate Verdict(a: State, b: State, c: State, now: Word) {
    a.haltNonce > b.resumeNonce && now < c.expiry
  }

  /**
    Answered open though closed at every load: the halt seen was resumed before the second load, and
    a newer halt had closed the gate again.
   */
  predicate MissesHalt(a: State, b: State, c: State, now: Word) {
    && a.resumeNonce < a.haltNonce <= b.resumeNonce < b.haltNonce && c.resumeNonce < c.haltNonce
    && now < a.expiry && now < b.expiry && now < c.expiry
  }

  /**
    Answered closed though open at every load: the window of the halt seen had run out, and after the
    second load a new window was published with its resume.
   */
  predicate MissesResume(a: State, b: State, c: State, now: Word) {
    && b.resumeNonce < a.haltNonce && c.haltNonce <= c.resumeNonce
    && a.expiry <= now && b.expiry <= now < c.expiry
  }

  lemma AliveWithin(acts: seq<Act>, i: nat, j: nat)
    requires i <= j <= |acts| && Alive(acts, i)
    ensures Alive(acts[..j], i) && Alive(acts, j)
  {
    forall p {:trigger acts[..j][p]} | i <= p < j ensures !acts[..j][p].Reboot? { assert acts[..j][p] == acts[p]; }
  }

  /**
    A read that overlaps any number of folds and snapshots answers what the gate was at one of its three
    loads, except in exactly two cases; in both a resume and a new window were published while it ran.
    A read that stops after the second load is one with `j == |acts|`.
   */
  lemma ReadIsSomeInstantExactly(acts: seq<Act>, i: nat, j: nat, now: Word)
    requires Legal(acts) && i <= j <= |acts| && Alive(acts, i)
    ensures var a, b, c := Run(acts[..i]).live, Run(acts[..j]).live, Run(acts).live;
      && (Verdict(a, b, c, now) !in {HaltedAt(a, now), HaltedAt(b, now), HaltedAt(c, now)} <==>
          MissesHalt(a, b, c, now) || MissesResume(a, b, c, now))
      && (MissesHalt(a, b, c, now) || MissesResume(a, b, c, now) ==>
          a.resumeNonce < c.resumeNonce && (a.haltNonce < b.haltNonce || b.expiry < c.expiry))
  {
    AliveWithin(acts, i, j);
    NoncesGrow(acts, i);
    NoncesGrow(acts, j);
    assert acts[..j][..i] == acts[..i];
    NoncesGrow(acts[..j], i);
  }

  /**
    The last two loads are not ordered between themselves.  Taken the other way round, the expiry before
    the resume, only the first of the two cases is left.
   */
  lemma SwappedReadExactly(acts: seq<Act>, i: nat, j: nat, now: Word)
    requires Legal(acts) && i <= j <= |acts| && Alive(acts, i)
    ensures var a, b, c := Run(acts[..i]).live, Run(acts[..j]).live, Run(acts).live;
      Verdict(a, c, b, now) !in {HaltedAt(a, now), HaltedAt(b, now), HaltedAt(c, now)} <==>
        MissesHalt(a, c, b, now)
  {
    AliveWithin(acts, i, j);
    NoncesGrow(acts, i);
    NoncesGrow(acts, j);
    assert acts[..j][..i] == acts[..i];
    NoncesGrow(acts[..j], i);
  }

  // ----- both cases happen

  /** The process lives, and the gate is closed, or open, at every step from `i` on. */
  ghost predicate Steady(acts: seq<Act>, i: nat, now: Word, closed: bool) {
    && i <= |acts| && Legal(acts) && Alive(acts, i)
    && forall p {:trigger acts[..p]} | i <= p <= |acts| :: HaltedAt(Run(acts[..p]).live, now) == closed
  }

  lemma StaysSteady(acts: seq<Act>, a: Act, i: nat, now: Word, closed: bool)
    requires Steady(acts, i, now, closed) && Enabled(Run(acts), a) && !a.Reboot?
    requires HaltedAt(Next(Run(acts), a).live, now) == closed
    ensures Steady(acts + [a], i, now, closed) && Run(acts + [a]) == Next(Run(acts), a)
    ensures (acts + [a])[..i] == acts[..i]
  {
    var all := acts + [a];
    RunSnoc(acts, a);
    forall p {:trigger all[..p]} | i <= p <= |all| ensures HaltedAt(Run(all[..p]).live, now) == closed {
      if p <= |acts| { assert all[..p] == acts[..p]; } else { assert all[..p] == all; }
    }
  }

  lemma SteadyNow(acts: seq<Act>, i: nat, now: Word, closed: bool)
    requires Steady(acts, i, now, closed)
    ensures HaltedAt(Run(acts).live, now) == closed
  {
    assert acts[..|acts|] == acts;
  }

  /** Publishing a newer halt keeps a closed gate closed while its window is open, and an open one open if resumed. */
  lemma HaltStaysSteady(acts: seq<Act>, h: Halt, t: Word, i: nat, now: Word, closed: bool) returns (more: seq<Act>)
    requires Steady(acts, i, now, closed) && Run(acts).phase.Free? && Run(acts).clock <= t
    requires h.nonce > Run(acts).live.haltNonce
    requires if closed then now < BoundedExpiry(h, t) else h.nonce <= Run(acts).live.resumeNonce
    ensures Steady(more, i, now, closed) && more[..i] == acts[..i] && Run(more).phase.Free?
    ensures Run(more).live == State(h.nonce, Run(acts).live.resumeNonce, BoundedExpiry(h, t), h.reason)
  {
    SteadyNow(acts, i, now, closed);
    more := acts + [FoldHalt(h, t, true)];
    StaysSteady(acts, FoldHalt(h, t, true), i, now, closed);
    StaysSteady(more, Store, i, now, closed);
    more := more + [Store];
    StaysSteady(more, Store, i, now, closed);
    more := more + [Store];
    StaysSteady(more, Store, i, now, closed);
    more := more + [Store];
  }

  /** Publishing a resume keeps an open gate open, and a closed one closed if it is below the halt. */
  lemma ResumeStaysSteady(acts: seq<Act>, r: Resume, i: nat, now: Word, closed: bool) returns (more: seq<Act>)
    requires Steady(acts, i, now, closed) && Run(acts).phase.Free?
    requires Run(acts).live.resumeNonce < r.haltNonce && (closed ==> r.haltNonce < Run(acts).live.haltNonce)
    ensures Steady(more, i, now, closed) && more[..i] == acts[..i] && Run(more).phase.Free?
    ensures Run(more).live == Run(acts).live.(resumeNonce := r.haltNonce) && Run(more).clock == Run(acts).clock
  {
    SteadyNow(acts, i, now, closed);
    StaysSteady(acts, FoldResume(r, true), i, now, closed);
    more := acts + [FoldResume(r, true)];
    StaysSteady(more, Store, i, now, closed);
    more := more + [Store];
  }

  /** A node that folded one halt, read right after. */
  lemma StartSteady(h: Halt, now: Word)
    requires h.nonce > 0
    ensures Steady(HaltAt(h, 0), 4, now, now < BoundedExpiry(h, 0))
    ensures HaltAt(h, 0)[..4] == HaltAt(h, 0)
    ensures var s := State(h.nonce, 0, BoundedExpiry(h, 0), h.reason); Run(HaltAt(h, 0)) == Node(s, s, Free, Nothing, 0)
  {
    OneHalt(h, 0);
    assert HaltAt(h, 0)[..4] == HaltAt(h, 0);
  }

  /** A newer halt, then a resume of the first, before the second load: open is answered, the gate closed throughout. */
  lemma ReadMissesHalt() returns (acts: seq<Act>, i: nat, now: Word)
    ensures Steady(acts, i, now, true) && !Verdict(Run(acts[..i]).live, Run(acts).live, Run(acts).live, now)
  {
    var h2, h5, r := Halt(1, [], 2, 0, 100, []), Halt(1, [], 5, 0, 100, []), Resume(1, [], 3, 0);
    acts, i, now := HaltAt(h2, 0), 4, 50;
    StartSteady(h2, now);
    ghost var first := acts;
    acts := HaltStaysSteady(acts, h5, 0, i, now, true);
    acts := ResumeStaysSteady(acts, r, i, now, true);
    assert acts[..4] == first;
  }

  /**
    The first window has run out; a resume, then the halt it resumes, after the second load: closed is
    answered, the gate open throughout.
   */
  lemma ReadMissesResume() returns (acts: seq<Act>, i: nat, now: Word)
    ensures Steady(acts, i, now, false) && Verdict(Run(acts[..i]).live, Run(acts[..i]).live, Run(acts).live, now)
  {
    var h2, h5, r := Halt(1, [], 2, 0, 10, []), Halt(1, [], 5, 0, 100, []), Resume(1, [], 5, 0);
    acts, i, now := HaltAt(h2, 0), 4, 50;
    StartSteady(h2, now);
    ghost var first := acts;
    acts := ResumeStaysSteady(acts, r, i, now, false);
    acts := HaltStaysSteady(acts, h5, 0, i, now, false);
    assert acts[..4] == first;
  }
}
