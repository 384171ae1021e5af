/**
  The emergency circuit breaker: signed halts and resumes, folded by maximum nonce into the gate state,
  and their canonical byte encoding.  Authority and format checks happen before a record is folded.
 */
module Emergency {
  import opened Basics

  const U32: int := 0x1_0000_0000
  const U64: int := 0x1_0000_0000_0000_0000

  type Word = n: int | 0 <= n < U64

  const MAX_HALT_DURATION: Word := 30 * 24 * 3600
  const MAX_REASON_BYTES: nat := 1024
  const FORMAT_VERSION: Byte := 1

  datatype Halt = Halt(version: Byte, network: seq<Byte>, nonce: Word, issued: Word, maxDuration: Word,
    reason: seq<Byte>)

  datatype Resume = Resume(version: Byte, network: seq<Byte>, haltNonce: Word, issued: Word)

  datatype State = State(haltNonce: Word, resumeNonce: Word, expiry: Word, reason: seq<Byte>)

  const CLEAR: State := State(0, 0, 0, [])

  function Min(a: Word, b: Word): Word {
    if a < b then a else b
  }

  function SaturatingAdd(a: Word, b: Word): Word {
    if a + b < U64 then a + b else U64 - 1
  }

  predicate WellFormed(h: Halt) {
    h.version == FORMAT_VERSION && h.maxDuration > 0 && |h.reason| <= MAX_REASON_BYTES
  }

  function EffectiveExpiry(h: Halt): Word {
    SaturatingAdd(h.issued, Min(h.maxDuration, MAX_HALT_DURATION))
  }

  function BoundExpiry(expiry: Word, now: Word): Word {
    Min(expiry, SaturatingAdd(now, MAX_HALT_DURATION))
  }

  predicate HaltedAt(s: State, now: Word) {
    s.haltNonce > s.resumeNonce && now < s.expiry
  }

  // ----- folding

  /** A halt with its window wins when its nonce is new. */
  function Won(s: State, nonce: Word, expiry: Word, reason: seq<Byte>): State {
    if nonce > s.haltNonce then s.(haltNonce := nonce, expiry := expiry, reason := reason) else s
  }

  function Lifted(s: State, nonce: Word): State {
    if nonce > s.resumeNonce then s.(resumeNonce := nonce) else s
  }

  /** A record as it is folded: a halt comes with the window it is given. */
  datatype Event = HaltSeen(halt: Halt, expiry: Word) | ResumeSeen(resume: Resume)

  /** A halt with the window its issuer asked for. */
  function Seen(h: Halt): Event {
    HaltSeen(h, EffectiveExpiry(h))
  }

  function Apply(s: State, e: Event): State {
    match e
    case HaltSeen(h, expiry) => Won(s, h.nonce, expiry, h.reason)
    case ResumeSeen(r) => Lifted(s, r.haltNonce)
  }

  function FoldAll(s: State, es: seq<Event>): State {
    if es == [] then s else Apply(FoldAll(s, es[..|es| - 1]), es[|es| - 1])
  }

  class EmergencyState {
    var latestHaltNonce: Word
    var latestResumeNonce: Word
    var activeExpiry: Word
    var activeReason: seq<Byte>

    function Value(): State
      reads this
    {
      State(latestHaltNonce, latestResumeNonce, activeExpiry, activeReason)
    }

    constructor ()
      ensures Value() == CLEAR
    {
      latestHaltNonce, latestResumeNonce, activeExpiry, activeReason := 0, 0, 0, [];
    }

    method FoldHalt(h: Halt)
      modifies this
      ensures Value() == Apply(old(Value()), Seen(h))
    {
      if h.nonce > latestHaltNonce {
        latestHaltNonce := h.nonce;
        activeExpiry := EffectiveExpiry(h);
        activeReason := h.reason;
      }
    }

    method FoldResume(r: Resume)
      modifies this
      ensures Value() == Apply(old(Value()), ResumeSeen(r))
    {
      if r.haltNonce > latestResumeNonce {
        latestResumeNonce := r.haltNonce;
      }
    }
  }

  // ----- what a run leaves

  ghost predicate TopHalt(es: seq<Event>, n: Word) {
    && (forall i {:trigger es[i]} | 0 <= i < |es| && es[i].HaltSeen? :: es[i].halt.nonce <= n)
    && (n == 0 || exists i {:trigger es[i]} :: 0 <= i < |es| && es[i].HaltSeen? && es[i].halt.nonce == n)
  }

  ghost predicate TopResume(es: seq<Event>, n: Word) {
    && (forall i {:trigger es[i]} | 0 <= i < |es| && es[i].ResumeSeen? :: es[i].resume.haltNonce <= n)
    && (n == 0 || exists i {:trigger es[i]} :: 0 <= i < |es| && es[i].ResumeSeen? && es[i].resume.haltNonce == n)
  }

  /** The first of the halts with the top nonce. */
  ghost predicate FirstTop(es: seq<Event>, i: nat) {
    && i < |es| && es[i].HaltSeen? && es[i].halt.nonce > 0 && TopHalt(es, es[i].halt.nonce)
    && forall j {:trigger es[j]} | 0 <= j < i && es[j].HaltSeen? :: es[j].halt.nonce < es[i].halt.nonce
  }

  /** The window is that of the first halt with the top nonce; without one there is none. */
  ghost predicate WindowOf(es: seq<Event>, s: State) {
    if s.haltNonce == 0 then s.expiry == 0 && s.reason == []
    else exists i: nat {:trigger FirstTop(es, i)} ::
      FirstTop(es, i) && es[i].halt.nonce == s.haltNonce && s.expiry == es[i].expiry && s.reason == es[i].halt.reason
  }

  lemma FirstTopLater(es: seq<Event>, e: Event, i: nat)
    requires FirstTop(es, i) && (e.HaltSeen? ==> e.halt.nonce <= es[i].halt.nonce)
    ensures FirstTop(es + [e], i)
  {
    var all := es + [e];
    assert all[i] == es[i];
    forall j {:trigger all[j]} | 0 <= j < |all| && all[j].HaltSeen? ensures all[j].halt.nonce <= all[i].halt.nonce {
      assert j < |es| ==> all[j] == es[j];
    }
    forall j {:trigger all[j]} | 0 <= j < i && all[j].HaltSeen? ensures all[j].halt.nonce < all[i].halt.nonce {
      assert all[j] == es[j];
    }
  }

  lemma FirstTopNew(es: seq<Event>, e: Event, top: Word)
    requires TopHalt(es, top) && e.HaltSeen? && e.halt.nonce > top
    ensures FirstTop(es + [e], |es|)
  {
    var all := es + [e];
    forall j {:trigger all[j]} | 0 <= j < |es| && all[j].HaltSeen? ensures all[j].halt.nonce < e.halt.nonce {
      assert all[j] == es[j];
    }
    assert all[|es|] == e;
  }

  lemma TopResumeLater(es: seq<Event>, e: Event, top: Word)
    requires TopResume(es, top)
    ensures TopResume(es + [e], if e.ResumeSeen? && e.resume.haltNonce > top then e.resume.haltNonce else top)
  {
    var all := es + [e];
    assert all[|es|] == e && forall j {:trigger all[j]} | 0 <= j < |es| :: all[j] == es[j];
    if top != 0 {
      var i :| 0 <= i < |es| && es[i].ResumeSeen? && es[i].resume.haltNonce == top;
      assert all[i] == es[i];
    }
  }

  lemma TopHaltZero(es: seq<Event>, e: Event)
    requires TopHalt(es, 0) && (e.HaltSeen? ==> e.halt.nonce == 0)
    ensures TopHalt(es + [e], 0)
  {
    var all := es + [e];
    assert all[|es|] == e && forall j {:trigger all[j]} | 0 <= j < |es| :: all[j] == es[j];
  }

  /** After any records: the nonces are the maxima seen, and the window that of the first top halt. */
  lemma {:induction false} RunCharacterised(es: seq<Event>)
    ensures var s := FoldAll(CLEAR, es); TopHalt(es, s.haltNonce) && TopResume(es, s.resumeNonce) && WindowOf(es, s)
    decreases |es|
  {
    if es != [] {
      var front, e := es[..|es| - 1], es[|es| - 1];
      var t := FoldAll(CLEAR, front);
      assert es == front + [e];
      RunCharacterised(front);
      TopResumeLater(front, e, t.resumeNonce);
      if e.HaltSeen? && e.halt.nonce > t.haltNonce {
        FirstTopNew(front, e, t.haltNonce);
      } else if t.haltNonce == 0 {
        TopHaltZero(front, e);
      } else {
        var i: nat :| FirstTop(front, i) && front[i].halt.nonce == t.haltNonce && t.expiry == front[i].expiry
                      && t.reason == front[i].halt.reason;
        FirstTopLater(front, e, i);
        assert es[i] == front[i];
      }
    }
  }

  lemma TopHaltUnique(es: seq<Event>, m: Word, n: Word)
    requires TopHalt(es, m) && TopHalt(es, n)
    ensures m == n
  {
  }

  lemma TopResumeUnique(es: seq<Event>, m: Word, n: Word)
    requires TopResume(es, m) && TopResume(es, n)
    ensures m == n
  {
  }

  lemma FirstTopUnique(es: seq<Event>, i: nat, j: nat)
    requires FirstTop(es, i) && FirstTop(es, j)
    ensures i == j
  {
    TopHaltUnique(es, es[i].halt.nonce, es[j].halt.nonce);
  }

  lemma WindowIs(es: seq<Event>, s: State, i: nat)
    requires WindowOf(es, s) && TopHalt(es, s.haltNonce) && FirstTop(es, i)
    ensures s.haltNonce == es[i].halt.nonce && s.expiry == es[i].expiry && s.reason == es[i].halt.reason
  {
    TopHaltUnique(es, s.haltNonce, es[i].halt.nonce);
    var j: nat :| FirstTop(es, j) && es[j].halt.nonce == s.haltNonce && s.expiry == es[j].expiry
        && s.reason == es[j].halt.reason;
    FirstTopUnique(es, i, j);
  }

  // ----- the same records, in another order

  ghost predicate HasHalt(es: seq<Event>, h: Halt) {
    exists i {:trigger es[i]} :: 0 <= i < |es| && es[i].HaltSeen? && es[i].halt == h
  }

  ghost predicate HasResume(es: seq<Event>, r: Resume) {
    exists i {:trigger es[i]} :: 0 <= i < |es| && es[i].ResumeSeen? && es[i].resume == r
  }

  /** The same halts and resumes, whatever the order, the repeats and the windows. */
  ghost predicate SameRecords(a: seq<Event>, b: seq<Event>) {
    (forall h :: HasHalt(a, h) <==> HasHalt(b, h)) && (forall r :: HasResume(a, r) <==> HasResume(b, r))
  }

  lemma TopHaltShared(a: seq<Event>, b: seq<Event>, n: Word)
    requires SameRecords(a, b) && TopHalt(a, n)
    ensures TopHalt(b, n)
  {
    forall i {:trigger b[i]} | 0 <= i < |b| && b[i].HaltSeen? ensures b[i].halt.nonce <= n {
      assert HasHalt(b, b[i].halt) && HasHalt(a, b[i].halt);
    }
    if n != 0 {
      var i :| 0 <= i < |a| && a[i].HaltSeen? && a[i].halt.nonce == n;
      assert HasHalt(a, a[i].halt) && HasHalt(b, a[i].halt);
    }
  }

  lemma TopResumeShared(a: seq<Event>, b: seq<Event>, n: Word)
    requires SameRecords(a, b) && TopResume(a, n)
    ensures TopResume(b, n)
  {
    forall i {:trigger b[i]} | 0 <= i < |b| && b[i].ResumeSeen? ensures b[i].resume.haltNonce <= n {
      assert HasResume(b, b[i].resume) && HasResume(a, b[i].resume);
    }
    if n != 0 {
      var i :| 0 <= i < |a| && a[i].ResumeSeen? && a[i].resume.haltNonce == n;
      assert HasResume(a, a[i].resume) && HasResume(b, a[i].resume);
    }
  }

  /** The first top halts of the two runs carry the same window and reason. */
  ghost predicate SameWindow(a: seq<Event>, b: seq<Event>) {
    forall i: nat, j: nat {:trigger FirstTop(a, i), FirstTop(b, j)} | FirstTop(a, i) && FirstTop(b, j) ::
      a[i].expiry == b[j].expiry && a[i].halt.reason == b[j].halt.reason
  }

  /** The same greatest nonces. */
  ghost predicate SameTops(a: seq<Event>, b: seq<Event>) {
    (forall n :: TopHalt(a, n) <==> TopHalt(b, n)) && (forall n :: TopResume(a, n) <==> TopResume(b, n))
  }

  lemma SameTopsExactly(a: seq<Event>, b: seq<Event>)
    ensures var s, t := FoldAll(CLEAR, a), FoldAll(CLEAR, b);
      SameTops(a, b) <==> s.haltNonce == t.haltNonce && s.resumeNonce == t.resumeNonce
  {
    var s, t := FoldAll(CLEAR, a), FoldAll(CLEAR, b);
    RunCharacterised(a);
    RunCharacterised(b);
    if SameTops(a, b) {
      TopHaltUnique(b, s.haltNonce, t.haltNonce);
      TopResumeUnique(b, s.resumeNonce, t.resumeNonce);
    } else if s.haltNonce == t.haltNonce && s.resumeNonce == t.resumeNonce {
      forall n ensures TopHalt(a, n) <==> TopHalt(b, n) {
        if TopHalt(a, n) { TopHaltUnique(a, n, s.haltNonce); }
        if TopHalt(b, n) { TopHaltUnique(b, n, t.haltNonce); }
      }
      forall n ensures TopResume(a, n) <==> TopResume(b, n) {
        if TopResume(a, n) { TopResumeUnique(a, n, s.resumeNonce); }
        if TopResume(b, n) { TopResumeUnique(b, n, t.resumeNonce); }
      }
    }
  }

  /** Any two runs give the same state exactly when the greatest nonces and the first top halts' windows agree. */
  lemma RunsAgreeExactly(a: seq<Event>, b: seq<Event>)
    ensures FoldAll(CLEAR, a) == FoldAll(CLEAR, b) <==> SameTops(a, b) && SameWindow(a, b)
  {
    var s, t := FoldAll(CLEAR, a), FoldAll(CLEAR, b);
    RunCharacterised(a);
    RunCharacterised(b);
    SameTopsExactly(a, b);
    forall i: nat, j: nat {:trigger FirstTop(a, i), FirstTop(b, j)} | FirstTop(a, i) && FirstTop(b, j)
      ensures s.expiry == a[i].expiry && s.reason == a[i].halt.reason && t.expiry == b[j].expiry
      ensures t.reason == b[j].halt.reason
    {
      WindowIs(a, s, i);
      WindowIs(b, t, j);
    }
    if s.haltNonce == t.haltNonce != 0 {
      var i: nat :| FirstTop(a, i) && a[i].halt.nonce == s.haltNonce && s.expiry == a[i].expiry
          && s.reason == a[i].halt.reason;
      var j: nat :| FirstTop(b, j) && b[j].halt.nonce == t.haltNonce && t.expiry == b[j].expiry
          && t.reason == b[j].halt.reason;
    }
  }

  lemma SameRecordsSameTops(a: seq<Event>, b: seq<Event>)
    requires SameRecords(a, b)
    ensures SameTops(a, b)
  {
    forall n ensures TopHalt(a, n) <==> TopHalt(b, n) {
      if TopHalt(a, n) { TopHaltShared(a, b, n); }
      if TopHalt(b, n) { TopHaltShared(b, a, n); }
    }
    forall n ensures TopResume(a, n) <==> TopResume(b, n) {
      if TopResume(a, n) { TopResumeShared(a, b, n); }
      if TopResume(b, n) { TopResumeShared(b, a, n); }
    }
  }

  /** The same records: always the same nonces, and the same state exactly when the first top halts' windows agree. */
  lemma SameRecordsAgree(a: seq<Event>, b: seq<Event>)
    requires SameRecords(a, b)
    ensures var s, t := FoldAll(CLEAR, a), FoldAll(CLEAR, b);
      && s.haltNonce == t.haltNonce && s.resumeNonce == t.resumeNonce
      && (s == t <==> SameWindow(a, b))
  {
    SameRecordsSameTops(a, b);
    SameTopsExactly(a, b);
    RunsAgreeExactly(a, b);
  }

  /** Halts that share the top nonce, when it is positive, carry the same window and reason. */
  ghost predicate TopsAgree(es: seq<Event>) {
    forall i, j {:trigger es[i], es[j]} |
      && 0 <= i < |es| && 0 <= j < |es| && es[i].HaltSeen? && es[j].HaltSeen?
      && TopHalt(es, es[i].halt.nonce) && es[i].halt.nonce == es[j].halt.nonce > 0 ::
      es[i].expiry == es[j].expiry && es[i].halt.reason == es[j].halt.reason
  }

  ghost predicate SameEvents(a: seq<Event>, b: seq<Event>) {
    forall e {:trigger e in a} {:trigger e in b} :: e in a <==> e in b
  }

  lemma SameEventsHold(a: seq<Event>, b: seq<Event>)
    requires SameEvents(a, b)
    ensures forall h | HasHalt(a, h) :: HasHalt(b, h)
    ensures forall r | HasResume(a, r) :: HasResume(b, r)
  {
    forall h | HasHalt(a, h) ensures HasHalt(b, h) {
      var i :| 0 <= i < |a| && a[i].HaltSeen? && a[i].halt == h;
      assert a[i] in b;
    }
    forall r | HasResume(a, r) ensures HasResume(b, r) {
      var i :| 0 <= i < |a| && a[i].ResumeSeen? && a[i].resume == r;
      assert a[i] in b;
    }
  }

  lemma SameEventsSameWindow(a: seq<Event>, b: seq<Event>)
    requires SameEvents(a, b) && SameRecords(a, b) && TopsAgree(a)
    ensures SameWindow(a, b)
  {
    forall i: nat, j: nat {:trigger FirstTop(a, i), FirstTop(b, j)} | FirstTop(a, i) && FirstTop(b, j)
      ensures a[i].expiry == b[j].expiry && a[i].halt.reason == b[j].halt.reason
    {
      TopHaltShared(a, b, a[i].halt.nonce);
      TopHaltUnique(b, a[i].halt.nonce, b[j].halt.nonce);
      assert b[j] in a;
      var k :| 0 <= k < |a| && a[k] == b[j];
      assert a[k].halt.nonce == a[i].halt.nonce;
    }
  }

  /** The same records with the same windows, in any order and with any repeats: the same state. */
  lemma OrderIrrelevant(a: seq<Event>, b: seq<Event>)
    requires SameEvents(a, b) && TopsAgree(a)
    ensures FoldAll(CLEAR, a) == FoldAll(CLEAR, b)
  {
    SameEventsHold(a, b);
    SameEventsHold(b, a);
    SameEventsSameWindow(a, b);
    SameRecordsAgree(a, b);
  }

  /** A top halt put in front is the first. */
  lemma FrontIsFirst(a: seq<Event>, i: nat)
    requires i < |a| && a[i].HaltSeen? && a[i].halt.nonce > 0 && TopHalt(a, a[i].halt.nonce)
    ensures FirstTop([a[i]] + a, 0) && SameEvents(a, [a[i]] + a)
  {
    var all := [a[i]] + a;
    assert all[0] == a[i] && forall j {:trigger all[j]} | 0 < j < |all| :: all[j] == a[j - 1];
  }

  /** Two top halts that disagree: which is seen first decides. */
  lemma OrderMatters(a: seq<Event>, i: nat, j: nat)
    requires i < |a| && j < |a| && a[i].HaltSeen? && a[j].HaltSeen?
    requires TopHalt(a, a[i].halt.nonce) && a[i].halt.nonce == a[j].halt.nonce > 0
    requires !(a[i].expiry == a[j].expiry && a[i].halt.reason == a[j].halt.reason)
    ensures SameEvents(a, [a[i]] + a) && SameEvents(a, [a[j]] + a)
    ensures FoldAll(CLEAR, [a[i]] + a) != FoldAll(CLEAR, [a[j]] + a)
  {
    FrontIsFirst(a, i);
    FrontIsFirst(a, j);
    RunCharacterised([a[i]] + a);
    RunCharacterised([a[j]] + a);
    WindowIs([a[i]] + a, FoldAll(CLEAR, [a[i]] + a), 0);
    WindowIs([a[j]] + a, FoldAll(CLEAR, [a[j]] + a), 0);
  }

  /** The fold is order-independent exactly when the halts with the top nonce agree. */
  lemma OrderIrrelevantExactlyWhenTopsAgree(a: seq<Event>)
    ensures TopsAgree(a) <==> forall b | SameEvents(a, b) :: FoldAll(CLEAR, a) == FoldAll(CLEAR, b)
  {
    if TopsAgree(a) {
      forall b | SameEvents(a, b) ensures FoldAll(CLEAR, a) == FoldAll(CLEAR, b) { OrderIrrelevant(a, b); }
    } else {
      var i, j :| 0 <= i < |a| && 0 <= j < |a| && a[i].HaltSeen? && a[j].HaltSeen?
        && TopHalt(a, a[i].halt.nonce) && a[i].halt.nonce == a[j].halt.nonce > 0
        && !(a[i].expiry == a[j].expiry && a[i].halt.reason == a[j].halt.reason);
      OrderMatters(a, i, j);
    }
  }

  // ----- the gate

  /** The first top halt, above every resume, with its window open. */
  ghost predicate Holding(es: seq<Event>, i: nat, now: Word) {
    && FirstTop(es, i) && now < es[i].expiry
    && forall j {:trigger es[j]} | 0 <= j < |es| && es[j].ResumeSeen? :: es[j].resume.haltNonce < es[i].halt.nonce
  }

  /** The gate, read off the records: it is closed exactly while the first top halt holds it. */
  lemma HaltedExactlyWhen(es: seq<Event>, now: Word)
    ensures HaltedAt(FoldAll(CLEAR, es), now) <==> exists i: nat :: Holding(es, i, now)
  {
    var s := FoldAll(CLEAR, es);
    RunCharacterised(es);
    if HaltedAt(s, now) {
      var i: nat :| FirstTop(es, i) && es[i].halt.nonce == s.haltNonce && s.expiry == es[i].expiry
          && s.reason == es[i].halt.reason;
      assert Holding(es, i, now);
    }
    forall i: nat | Holding(es, i, now) ensures HaltedAt(s, now) { WindowIs(es, s, i); }
  }

  /** Once a resume is folded, halts it covers, however often replayed, never close the gate. */
  lemma {:induction false} ReplayIsInert(s: State, es: seq<Event>, now: Word)
    requires forall i {:trigger es[i]} | 0 <= i < |es| && es[i].HaltSeen? :: es[i].halt.nonce <= s.resumeNonce
    ensures HaltedAt(FoldAll(s, es), now) ==> HaltedAt(s, now)
    ensures var t := FoldAll(s, es);
      s.resumeNonce <= t.resumeNonce && (t.haltNonce <= t.resumeNonce || t.(resumeNonce := 0) == s.(resumeNonce := 0))
    decreases |es|
  {
    if es != [] {
      ReplayIsInert(s, es[..|es| - 1], now);
    }
  }

  /** Windows: capped at the ceiling from issue, and from observation; the second cap leaves an honest halt alone. */
  lemma ExpiryBounds(h: Halt, now: Word)
    ensures EffectiveExpiry(h) <= h.issued + MAX_HALT_DURATION
    ensures BoundExpiry(EffectiveExpiry(h), now) <= now + MAX_HALT_DURATION
    ensures BoundExpiry(EffectiveExpiry(h), now) < EffectiveExpiry(h) <==>
      now + MAX_HALT_DURATION < h.issued + Min(h.maxDuration, MAX_HALT_DURATION) && now + MAX_HALT_DURATION < U64 - 1
  {
  }

  /**
    A window is open exactly until the time asked for has passed since the issue, or thirty days have passed
    since the issue or since the halt was observed.
   */
  lemma WindowExactly(h: Halt, observed: Word, t: Word)
    ensures t < BoundExpiry(EffectiveExpiry(h), observed) <==>
      && t - h.issued < h.maxDuration && t - h.issued < 2592000 && t - observed < 2592000
      && t < 0xFFFF_FFFF_FFFF_FFFF
    ensures t < EffectiveExpiry(h) <==>
      t - h.issued < h.maxDuration && t - h.issued < 2592000 && t < 0xFFFF_FFFF_FFFF_FFFF
  {
  }
}
