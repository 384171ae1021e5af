/**
  Continuity scores: an identity's score grows with its age, shrinks while it is idle and never leaves
  the floor after its first active day.  Times are exact reals and the exponential is any function that
  behaves like it on the non-positive axis.
 */
module Continuity {

  type Exponential = real -> real

  /** What the scores need of the exponential: 1 at zero, positive, rising, and never steeper than 1. */
  ghost predicate Decay(exp: Exponential) {
    && exp(0.0) == 1.0
    && (forall x {:trigger exp(x)} | x <= 0.0 :: 0.0 < exp(x))
    && (forall x, y {:trigger exp(x), exp(y)} | x <= y <= 0.0 :: exp(x) <= exp(y) <= exp(x) + (y - x))
  }

  const DAY: real := 86400.0
  const MIN_SCORE: real := 0.05
  const MAX_GAP_DAYS: real := 30.0
  const RETENTION_DAYS: real := 90.0

  datatype Tracker = Tracker(
    firstSeen: real,
    lastSeen: real,
    consecutiveDays: nat,
    totalActiveDays: nat,
    gapCount: nat,
    longestGap: real,
    score: real)

  function Started(at: real): Tracker {
    Tracker(at, at, 0, 1, 0, 0.0, 0.0)
  }

  function Min(a: real, b: real): real {
    if a < b then a else b
  }

  function Max(a: real, b: real): real {
    if a < b then b else a
  }

  /** The score an identity of this age has earned, in days. */
  function Base(exp: Exponential, age: real): real {
    if age < 30.0 then 0.1 + (age - 1.0) / 29.0 * (0.4 - 0.1)
    else if age < 365.0 then 0.4 + (age - 30.0) / 335.0 * (0.8 - 0.4)
    else 0.8 + (1.0 - 0.8) * (1.0 - exp(-((age - 365.0) / 365.25) * 0.5))
  }

  function Penalty(gap: real, base: real): real {
    if gap > 1.0 then Min(gap * 0.02, base - MIN_SCORE) else 0.0
  }

  function ActivityFactor(active: nat, age: real): real {
    Min(active as real / Max(age, 1.0), 1.0)
  }

  /** What the gap leaves of the base. */
  function Rest(exp: Exponential, age: real, gap: real): real {
    Base(exp, age) - Penalty(gap, Base(exp, age))
  }

  function Adjusted(rest: real, factor: real, active: nat): real {
    Max(rest * factor, if active > 0 then MIN_SCORE else 0.0)
  }

  function Score(exp: Exponential, t: Tracker, now: real): real {
    var age := (now - t.firstSeen) / DAY;
    if age < 1.0 then 0.0
    else
      Adjusted(Rest(exp, age, (now - t.lastSeen) / DAY), ActivityFactor(t.totalActiveDays, age), t.totalActiveDays)
  }

  /** Activity at a time; earlier or equal times change nothing. */
  function Recorded(exp: Exponential, t: Tracker, at: real): Tracker {
    if at <= t.lastSeen then t
    else
      var gap := (at - t.lastSeen) / DAY;
      var u := t.(
        gapCount := if gap > 1.0 then t.gapCount + 1 else t.gapCount,
        longestGap := if gap > 1.0 && gap > t.longestGap then gap else t.longestGap,
        consecutiveDays := if gap > MAX_GAP_DAYS then 1 else t.consecutiveDays + 1,
        totalActiveDays := t.totalActiveDays + 1,
        lastSeen := at);
      u.(score := Score(exp, u, at))
  }

  /** What every history keeps. */
  ghost predicate Sound(exp: Exponential, t: Tracker) {
    && t.firstSeen <= t.lastSeen && t.totalActiveDays >= 1 && t.consecutiveDays < t.totalActiveDays + 1
    && t.gapCount < t.totalActiveDays && (t.gapCount == 0 <==> t.longestGap == 0.0)
    && (t.longestGap == 0.0 || t.longestGap > 1.0)
    && t.longestGap <= (t.lastSeen - t.firstSeen) / DAY && t.score == Score(exp, t, t.lastSeen)
  }

  lemma RecordedSound(exp: Exponential, t: Tracker, at: real)
    requires Sound(exp, t)
    ensures Sound(exp, Recorded(exp, t, at))
  {
  }

  /** The tracker of an identity first seen at `first` and active at `times` after that, in the order recorded. */
  function History(exp: Exponential, first: real, times: seq<real>): Tracker {
    if times == [] then Started(first) else Recorded(exp, History(exp, first, times[..|times| - 1]), times[|times| - 1])
  }

  lemma {:induction false} HistorySound(exp: Exponential, first: real, times: seq<real>)
    ensures Sound(exp, History(exp, first, times))
    decreases |times|
  {
    if times != [] {
      HistorySound(exp, first, times[..|times| - 1]);
      RecordedSound(exp, History(exp, first, times[..|times| - 1]), times[|times| - 1]);
    }
  }

  // ----- growth

  lemma YoungSlope(exp: Exponential, a: real, b: real)
    requires 1.0 <= a <= b <= 30.0 && Decay(exp)
    ensures 0.0 <= Base(exp, b) - Base(exp, a) <= (b - a) * 0.02
  {
    assert 0.1 + (30.0 - 1.0) / 29.0 * (0.4 - 0.1) == 0.4 + (30.0 - 30.0) / 335.0 * (0.8 - 0.4);
  }

  lemma EstablishedSlope(exp: Exponential, a: real, b: real)
    requires 30.0 <= a <= b <= 365.0 && Decay(exp)
    ensures 0.0 <= Base(exp, b) - Base(exp, a) <= (b - a) * 0.02
  {
    assert -((365.0 - 365.0) / 365.25) * 0.5 == 0.0;
  }

  lemma VeteranSlope(exp: Exponential, a: real, b: real)
    requires 365.0 <= a <= b && Decay(exp)
    ensures 0.0 <= Base(exp, b) - Base(exp, a) <= (b - a) * 0.02
  {
    var x, y := -((b - 365.0) / 365.25) * 0.5, -((a - 365.0) / 365.25) * 0.5;
    assert x <= y <= 0.0;
    assert exp(x) <= exp(y) <= exp(x) + (y - x);
  }

  lemma LateSlope(exp: Exponential, a: real, b: real)
    requires 30.0 <= a <= b && Decay(exp)
    ensures 0.0 <= Base(exp, b) - Base(exp, a) <= (b - a) * 0.02
  {
    if b <= 365.0 {
      EstablishedSlope(exp, a, b);
    } else if a >= 365.0 {
      VeteranSlope(exp, a, b);
    } else {
      EstablishedSlope(exp, a, 365.0);
      VeteranSlope(exp, 365.0, b);
    }
  }

  /** Age never earns more in a day than an idle day costs. */
  lemma BaseSlope(exp: Exponential, a: real, b: real)
    requires 1.0 <= a <= b && Decay(exp)
    ensures 0.0 <= Base(exp, b) - Base(exp, a) <= (b - a) * 0.02
  {
    if b <= 30.0 {
      YoungSlope(exp, a, b);
    } else if a >= 30.0 {
      LateSlope(exp, a, b);
    } else {
      YoungSlope(exp, a, 30.0);
      LateSlope(exp, 30.0, b);
    }
  }

  lemma BaseBounds(exp: Exponential, age: real)
    requires 1.0 <= age && Decay(exp)
    ensures 0.1 <= Base(exp, age) < 1.0
  {
    BaseSlope(exp, 1.0, age);
    if age >= 365.0 {
      var x := -((age - 365.0) / 365.25) * 0.5;
      assert x <= 0.0 && 0.0 < exp(x);
    }
  }

  // ----- idleness

  lemma Product(a: real, b: real, c: real, d: real)
    requires 0.0 <= a <= b && 0.0 <= c <= d
    ensures a * c <= b * d
  {
    assert a * c <= b * c;
    assert b * c <= b * d;
  }

  lemma QuotientFalls(n: real, a: real, b: real)
    requires 0.0 <= n && 0.0 < a <= b
    ensures 0.0 <= n / b <= n / a
  {
    var x, y := n / a, n / b;
    assert x * a == n && y * b == n;
    Product(a, b, y, y);
    assert (x - y) * a >= 0.0;
  }

  lemma FactorFalls(active: nat, a: real, b: real)
    requires 1.0 <= a <= b
    ensures 0.0 <= ActivityFactor(active, b) <= ActivityFactor(active, a) <= 1.0
  {
    QuotientFalls(active as real, a, b);
  }

  lemma RestFalls(exp: Exponential, a: real, b: real, gap: real, gap': real)
    requires Decay(exp) && 1.0 <= a <= b && 1.0 < gap && gap' - gap == b - a
    ensures MIN_SCORE <= Rest(exp, b, gap') <= Rest(exp, a, gap)
  {
    BaseSlope(exp, a, b);
    BaseBounds(exp, a);
    BaseBounds(exp, b);
  }

  lemma AdjustedFalls(r: real, f: real, r': real, f': real, active: nat)
    requires 0.0 <= r' <= r && 0.0 <= f' <= f
    ensures Adjusted(r', f', active) <= Adjusted(r, f, active)
  {
    Product(r', r, f', f);
  }

  lemma AdjustedBounds(r: real, f: real, active: nat)
    requires MIN_SCORE <= r && 0.0 <= f <= 1.0 && active > 0
    ensures MIN_SCORE <= Adjusted(r, f, active) <= r
  {
    Product(r, r, f, 1.0);
  }

  lemma DaysLater(from: real, t: real, u: real)
    requires t <= u
    ensures (u - from) / DAY - (t - from) / DAY == (u - t) / DAY >= 0.0
  {
  }

  /** Once idle for more than a day, a score never rises until the next activity. */
  lemma IdleScoreNeverRises(exp: Exponential, t: Tracker, now: real, later: real)
    requires Decay(exp) && Sound(exp, t) && now <= later && (now - t.lastSeen) / DAY > 1.0
    ensures Score(exp, t, later) <= Score(exp, t, now)
  {
    var a, b := (now - t.firstSeen) / DAY, (later - t.firstSeen) / DAY;
    var g, g' := (now - t.lastSeen) / DAY, (later - t.lastSeen) / DAY;
    DaysLater(t.firstSeen, now, later);
    DaysLater(t.lastSeen, now, later);
    assert a >= g;
    RestFalls(exp, a, b, g, g');
    FactorFalls(t.totalActiveDays, a, b);
    AdjustedFalls(Rest(exp, a, g), ActivityFactor(t.totalActiveDays, a), Rest(exp, b, g'),
        ActivityFactor(t.totalActiveDays, b), t.totalActiveDays);
  }

  /** From forty-seven and a half idle days on the score is exactly the floor. */
  lemma LongIdleIsFloor(exp: Exponential, t: Tracker, now: real)
    requires Decay(exp) && Sound(exp, t) && (now - t.lastSeen) / DAY >= 47.5
    ensures Score(exp, t, now) == MIN_SCORE
  {
    var age, gap := (now - t.firstSeen) / DAY, (now - t.lastSeen) / DAY;
    assert age >= gap;
    BaseBounds(exp, age);
    FactorFalls(t.totalActiveDays, age, age);
    assert Rest(exp, age, gap) == MIN_SCORE;
    AdjustedBounds(MIN_SCORE, ActivityFactor(t.totalActiveDays, age), t.totalActiveDays);
  }

  /** Twice a day, `n` times. */
  function TwiceDaily(n: nat): (times: seq<real>)
    ensures |times| == n
  {
    seq(n, i requires 0 <= i < n => (i + 1) as real * 0.5 * DAY)
  }

  lemma {:induction false} TwiceDailyHistory(exp: Exponential, n: nat)
    ensures var t := History(exp, 0.0, TwiceDaily(n));
      t.firstSeen == 0.0 && t.lastSeen == n as real * 0.5 * DAY && t.totalActiveDays == n + 1
  {
    if n > 0 {
      TwiceDailyHistory(exp, n - 1);
      assert TwiceDaily(n)[..n - 1] == TwiceDaily(n - 1) && TwiceDaily(n)[n - 1] == n as real * 0.5 * DAY;
    }
  }

  /** A history of the given length, active twice a day, read after an idle time. */
  lemma LongHistory(exp: Exponential, gap: real, n: nat) returns (now: real)
    requires Decay(exp) && 0.0 <= gap && n as real * 0.5 >= 365.0 + gap
    ensures var t := History(exp, 0.0, TwiceDaily(n));
      (now - t.lastSeen) / DAY == gap && Score(exp, t, now) == Rest(exp, n as real * 0.5 + gap, gap)
  {
    now := n as real * 0.5 * DAY + gap * DAY;
    TwiceDailyHistory(exp, n);
    var t, age := History(exp, 0.0, TwiceDaily(n)), n as real * 0.5 + gap;
    assert (now - t.firstSeen) / DAY == age && (now - t.lastSeen) / DAY == gap;
    BaseBounds(exp, age);
    FullyActive(age, t.totalActiveDays);
  }

  /** Some history scores above the floor after this idle time. */
  ghost predicate AboveFloorAfter(exp: Exponential, gap: real) {
    exists first, times, now {:trigger Score(exp, History(exp, first, times), now)} ::
      && (now - History(exp, first, times).lastSeen) / DAY == gap
      && Score(exp, History(exp, first, times), now) > MIN_SCORE
  }

  /** What the exponential must reach for a base that outlasts this idle time. */
  ghost predicate ReachesBelow(exp: Exponential, bound: real) {
    exists x {:trigger exp(x)} :: x <= 0.0 && exp(x) < bound
  }

  lemma AboveFloorIf(exp: Exponential, gap: real)
    requires Decay(exp) && 0.0 <= gap && (gap <= 1.0 || ReachesBelow(exp, (47.5 - gap) * 0.1))
    ensures AboveFloorAfter(exp, gap)
  {
    var x := 0.0;
    if gap > 1.0 { x :| x <= 0.0 && exp(x) < (47.5 - gap) * 0.1; }
    var n := (2.0 * (413.0 + gap - 730.5 * x)).Floor + 1;
    var now := LongHistory(exp, gap, n);
    OldBase(exp, n as real * 0.5 + gap, x);
    BaseBounds(exp, n as real * 0.5 + gap);
    assert Rest(exp, n as real * 0.5 + gap, gap) > MIN_SCORE;
    assert Score(exp, History(exp, 0.0, TwiceDaily(n)), now) > MIN_SCORE;
  }

  lemma AboveFloorOnlyIf(exp: Exponential, t: Tracker, now: real)
    requires Decay(exp) && Sound(exp, t) && (now - t.lastSeen) / DAY > 1.0 && Score(exp, t, now) > MIN_SCORE
    ensures ReachesBelow(exp, (47.5 - (now - t.lastSeen) / DAY) * 0.1)
  {
    var age, gap := (now - t.firstSeen) / DAY, (now - t.lastSeen) / DAY;
    assert age >= gap;
    BaseBounds(exp, age);
    FactorFalls(t.totalActiveDays, age, age);
    AdjustedBounds(Rest(exp, age, gap), ActivityFactor(t.totalActiveDays, age), t.totalActiveDays);
    assert Base(exp, age) - 0.02 * gap > MIN_SCORE;
    if age < 365.0 {
      YoungerBase(exp, age);
      assert exp(0.0) < (47.5 - gap) * 0.1;
    } else {
      var x := -((age - 365.0) / 365.25) * 0.5;
      assert x <= 0.0 && exp(x) < (47.5 - gap) * 0.1;
    }
  }

  lemma YoungerBase(exp: Exponential, age: real)
    requires Decay(exp) && 1.0 <= age < 365.0
    ensures Base(exp, age) <= 0.8
  {
    BaseSlope(exp, age, 365.0);
    assert -((365.0 - 365.0) / 365.25) * 0.5 == 0.0;
  }

  /**
    After an idle time some history still scores above the floor exactly when the idle time is within a
    day, or the exponential gets below a tenth of what it lacks of 47.5 days.
   */
  lemma AboveFloorExactly(exp: Exponential, gap: real)
    requires Decay(exp) && 0.0 <= gap
    ensures AboveFloorAfter(exp, gap) <==> gap <= 1.0 || ReachesBelow(exp, (47.5 - gap) * 0.1)
  {
    if gap <= 1.0 || ReachesBelow(exp, (47.5 - gap) * 0.1) {
      AboveFloorIf(exp, gap);
    } else if AboveFloorAfter(exp, gap) {
      var first, times, now :|
        && (now - History(exp, first, times).lastSeen) / DAY == gap
        && Score(exp, History(exp, first, times), now) > MIN_SCORE;
      HistorySound(exp, first, times);
      AboveFloorOnlyIf(exp, History(exp, first, times), now);
    }
  }

  /** The exponential gets below every positive bound, as the real one does. */
  ghost predicate Vanishing(exp: Exponential) {
    forall bound {:trigger ReachesBelow(exp, bound)} | bound > 0.0 :: ReachesBelow(exp, bound)
  }

  /** No idle time under 47.5 days brings every history to the floor. */
  lemma FloorNotBefore(exp: Exponential, gap: real)
    requires Decay(exp) && Vanishing(exp) && 0.0 <= gap
    ensures AboveFloorAfter(exp, gap) <==> gap < 47.5
  {
    AboveFloorExactly(exp, gap);
  }

  lemma OldBase(exp: Exponential, age: real, x: real)
    requires Decay(exp) && x <= 0.0 && age >= 413.0 - 730.5 * x
    ensures Base(exp, age) >= 1.0 - 0.2 * exp(x)
  {
    var y := -((age - 365.0) / 365.25) * 0.5;
    assert y <= x <= 0.0;
    assert exp(y) <= exp(x);
  }

  lemma FullyActive(age: real, active: nat)
    requires 1.0 <= age <= active as real
    ensures ActivityFactor(active, age) == 1.0
  {
    var q := active as real / age;
    assert q * age == active as real;
    if q < 1.0 { assert (1.0 - q) * age > 0.0; }
  }

  /** At all times a score is 0 in the first day, and between the floor and 1 afterwards. */
  lemma ScoreRange(exp: Exponential, t: Tracker, now: real)
    requires Decay(exp) && Sound(exp, t) && t.lastSeen <= now
    ensures Score(exp, t, now) == 0.0 <==> (now - t.firstSeen) / DAY < 1.0
    ensures (now - t.firstSeen) / DAY >= 1.0 ==> MIN_SCORE <= Score(exp, t, now) < 1.0
  {
    var age, gap := (now - t.firstSeen) / DAY, (now - t.lastSeen) / DAY;
    if age >= 1.0 {
      BaseBounds(exp, age);
      FactorFalls(t.totalActiveDays, age, age);
      assert MIN_SCORE <= Rest(exp, age, gap) < 1.0;
      AdjustedBounds(Rest(exp, age, gap), ActivityFactor(t.totalActiveDays, age), t.totalActiveDays);
    }
  }

  // ----- all identities

  type Trackers = map<string, Tracker>

  function ScoreOf(exp: Exponential, ts: Trackers, id: string, now: real): real {
    if id in ts then Score(exp, ts[id], now) else 0.0
  }

  function Kept(ts: Trackers, now: real): Trackers {
    map id | id in ts && ts[id].lastSeen >= now - RETENTION_DAYS * DAY :: ts[id]
  }

  ghost predicate AllSound(exp: Exponential, ts: Trackers) {
    forall id {:trigger ts[id]} | id in ts :: Sound(exp, ts[id])
  }

  /** Pruning drops only identities at the floor, and until they are next active raises no score. */
  lemma PruneLowersOnly(exp: Exponential, ts: Trackers, now: real, id: string, later: real)
    requires Decay(exp) && AllSound(exp, ts) && now <= later
    ensures id in ts && id !in Kept(ts, now) ==> Score(exp, ts[id], later) == MIN_SCORE
    ensures id in Kept(ts, now) ==> ScoreOf(exp, Kept(ts, now), id, later) == ScoreOf(exp, ts, id, later)
    ensures id !in Kept(ts, now) ==> ScoreOf(exp, Kept(ts, now), id, later) == 0.0 <= ScoreOf(exp, ts, id, later)
  {
    if id in ts && id !in Kept(ts, now) {
      assert (later - ts[id].lastSeen) / DAY > 90.0;
      LongIdleIsFloor(exp, ts[id], later);
    }
  }

  class ContinuityState {
    const exp: Exponential
    var trackers: Trackers

    ghost predicate Valid()
      reads this
    {
      AllSound(exp, trackers)
    }

    constructor (exponential: Exponential)
      ensures Valid() && exp == exponential && trackers == map[]
    {
      exp, trackers := exponential, map[];
    }

    method RecordActivity(id: string, at: real)
      requires Valid()
      modifies this
      ensures Valid()
      ensures trackers == old(trackers)[
        id := if id in old(trackers) then Recorded(exp, old(trackers)[id], at) else Started(at)]
      ensures forall other, now | other != id ::
          ScoreOf(exp, trackers, other, now) == old(ScoreOf(exp, trackers, other, now))
    {
      if id in trackers {
        RecordedSound(exp, trackers[id], at);
        trackers := trackers[id := Recorded(exp, trackers[id], at)];
      } else {
        trackers := trackers[id := Started(at)];
      }
    }

    method Cleanup(now: real) returns (dropped: nat)
      requires Valid()
      modifies this
      ensures Valid() && trackers == Kept(old(trackers), now) && dropped == |old(trackers)| - |trackers|
      ensures forall id {:trigger id in trackers} ::
        id in trackers <==> id in old(trackers) && now - old(trackers)[id].lastSeen <= 7776000.0
      ensures forall id | id in trackers :: trackers[id] == old(trackers)[id]
    {
      var before := |trackers|;
      KeptIsSmaller(trackers, now);
      trackers := Kept(trackers, now);
      dropped := before - |trackers|;
    }
  }

  lemma SubsetSize(a: set<string>, b: set<string>)
    requires a <= b
    ensures |a| <= |b|
  {
    if a != {} {
      var x :| x in a;
      SubsetSize(a - {x}, b - {x});
    }
  }

  lemma KeptIsSmaller(ts: Trackers, now: real)
    ensures |Kept(ts, now)| <= |ts|
  {
    SubsetSize(Kept(ts, now).Keys, ts.Keys);
  }
}
