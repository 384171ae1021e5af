/**
  Scores and trackers in closed form: the curve a fully active identity climbs, what idleness and missing
  days take from it, and what a tracker counts of the activity it was told.
 */
module ContinuityCurve {
  import opened Continuity

  // ----- the curve

  /** A straight line from 0.1 to 0.4 over a month, another to 0.8 over a year, then towards 1 for ever. */
  ghost predicate OnCurve(exp: Exponential, age: real, c: real) {
    && (1.0 <= age <= 30.0 ==> (c - 0.1) * 29.0 == (age - 1.0) * 0.3)
    && (30.0 <= age <= 365.0 ==> (c - 0.4) * 335.0 == (age - 30.0) * 0.4)
    && (365.0 <= age ==> 5.0 * (1.0 - c) == exp((365.0 - age) / 730.5))
  }

  lemma BaseOnCurve(exp: Exponential, age: real, c: real)
    requires Decay(exp) && 1.0 <= age
    ensures OnCurve(exp, age, c) <==> c == Base(exp, age)
  {
    assert -((age - 365.0) / 365.25) * 0.5 == (365.0 - age) / 730.5;
  }

  /** What an idle time leaves of `c`: all within a day, then a fiftieth less per day down to a twentieth. */
  ghost predicate Leaves(c: real, gap: real, r: real) {
    if gap <= 1.0 then r == c
    else if c - gap / 50.0 >= 1.0 / 20.0 then r == c - gap / 50.0
    else r == 1.0 / 20.0
  }

  /** What `n` active days in `age` days make of `r`: the share of active days, and no less than a twentieth. */
  ghost predicate Shares(r: real, n: nat, age: real, s: real) {
    if n as real >= age then s == r
    else if 20.0 * r * n as real >= age then s * age == r * n as real
    else s == 1.0 / 20.0
  }

  lemma LeavesRest(exp: Exponential, age: real, gap: real, r: real)
    requires Decay(exp) && 1.0 <= age && Leaves(Base(exp, age), gap, r)
    ensures r == Rest(exp, age, gap) >= 1.0 / 20.0
  {
    BaseBounds(exp, age);
  }

  lemma SharesAdjusted(r: real, n: nat, age: real)
    requires 1.0 <= age && r >= 1.0 / 20.0 && n > 0
    ensures Shares(r, n, age, Adjusted(r, ActivityFactor(n, age), n))
  {
    var q := n as real / age;
    assert q * age == n as real;
    if n as real >= age {
      FullyActive(age, n);
    } else {
      BelowOne(q, age);
      assert r * q * age == r * n as real;
      Compared(r * q, age, r * n as real);
    }
  }

  lemma BelowOne(q: real, age: real)
    requires age > 0.0 && q * age < age
    ensures q < 1.0
  {
  }

  lemma Compared(x: real, age: real, y: real)
    requires age > 0.0 && x * age == y
    ensures x >= 0.05 <==> 20.0 * y >= age
  {
    if x >= 0.05 { assert x * age >= 0.05 * age; } else { assert x * age < 0.05 * age; }
  }

  /** The score of any tracker, from its age, its idle time and its active days. */
  lemma ScoreExactly(exp: Exponential, t: Tracker, now: real, c: real, r: real)
    requires Decay(exp) && t.totalActiveDays > 0 && now - t.firstSeen >= 86400.0
    requires OnCurve(exp, (now - t.firstSeen) / 86400.0, c) && Leaves(c, (now - t.lastSeen) / 86400.0, r)
    ensures Shares(r, t.totalActiveDays, (now - t.firstSeen) / 86400.0, Score(exp, t, now))
  {
    var age, gap := (now - t.firstSeen) / DAY, (now - t.lastSeen) / DAY;
    BaseOnCurve(exp, age, c);
    LeavesRest(exp, age, gap, r);
    SharesAdjusted(r, t.totalActiveDays, age);
  }

  /** Active on as many days as it is old, and within the last day, an identity of any history is on the curve. */
  lemma ActiveIsOnCurve(exp: Exponential, first: real, times: seq<real>, now: real)
    requires Decay(exp) && now - first >= 86400.0
    requires var t := History(exp, first, times);
      now - t.lastSeen <= 86400.0 && t.totalActiveDays as real >= (now - first) / 86400.0
    ensures OnCurve(exp, (now - first) / 86400.0, Score(exp, History(exp, first, times), now))
  {
    var t, age := History(exp, first, times), (now - first) / 86400.0;
    HistorySound(exp, first, times);
    HistoryStarts(exp, first, times);
    BaseOnCurve(exp, age, Base(exp, age));
    assert (now - t.lastSeen) / 86400.0 <= 1.0;
    ScoreExactly(exp, t, now, Base(exp, age), Base(exp, age));
  }

  lemma {:induction false} HistoryStarts(exp: Exponential, first: real, times: seq<real>)
    ensures History(exp, first, times).firstSeen == first
    decreases |times|
  {
    if times != [] { HistoryStarts(exp, first, times[..|times| - 1]); }
  }

  // ----- what a tracker counts

  /** The times that were later than all before them. */
  ghost function Noted(first: real, times: seq<real>): seq<real> {
    if times == [] then []
    else
      var front, at := times[..|times| - 1], times[|times| - 1];
      if first < at && forall i | 0 <= i < |front| :: front[i] < at then Noted(first, front) + [at]
      else Noted(first, front)
  }

  /** Days between an activity and the one before. */
  function Gap(first: real, ns: seq<real>, i: nat): real
    requires i < |ns|
  {
    (ns[i] - if i == 0 then first else ns[i - 1]) / 86400.0
  }

  function GapsOver(first: real, ns: seq<real>, days: real): set<nat> {
    set i: nat | i < |ns| && Gap(first, ns, i) > days
  }

  function LastOf(first: real, ns: seq<real>): real {
    if ns == [] then first else ns[|ns| - 1]
  }

  /** The longest of the gaps over a day, or 0. */
  ghost predicate Longest(first: real, ns: seq<real>, longest: real) {
    && (forall i: nat {:trigger Gap(first, ns, i)} | i < |ns| && Gap(first, ns, i) > 1.0 ::
        Gap(first, ns, i) <= longest)
    && (longest == 0.0
        || exists i: nat {:trigger Gap(first, ns, i)} :: i < |ns| && Gap(first, ns, i) == longest > 1.0)
  }

  /** The activities since the last gap over thirty days, the one that ended it included. */
  ghost predicate Running(first: real, ns: seq<real>, k: nat) {
    && k <= |ns| && (ns != [] ==> k >= 1)
    && (forall i: nat {:trigger Gap(first, ns, i)} | |ns| - k < i < |ns| :: Gap(first, ns, i) <= 30.0)
    && (k < |ns| ==> Gap(first, ns, |ns| - k) > 30.0)
  }

  ghost predicate Tracks(t: Tracker, first: real, ns: seq<real>) {
    && t.firstSeen == first && t.lastSeen == LastOf(first, ns) && t.totalActiveDays == |ns| + 1
    && t.gapCount == |GapsOver(first, ns, 1.0)| && Longest(first, ns, t.longestGap)
    && Running(first, ns, t.consecutiveDays)
  }

  lemma GapSame(first: real, ns: seq<real>, at: real, i: nat)
    requires i < |ns|
    ensures Gap(first, ns + [at], i) == Gap(first, ns, i) && (ns + [at])[i] == ns[i]
  {
  }

  lemma GapsMore(first: real, ns: seq<real>, at: real, days: real)
    ensures |GapsOver(first, ns + [at], days)|
      == |GapsOver(first, ns, days)| + if (at - LastOf(first, ns)) / 86400.0 > days then 1 else 0
  {
    var all := ns + [at];
    forall i: nat | i < |ns| ensures Gap(first, all, i) == Gap(first, ns, i) { GapSame(first, ns, at, i); }
    assert Gap(first, all, |ns|) == (at - LastOf(first, ns)) / 86400.0;
    if (at - LastOf(first, ns)) / 86400.0 > days {
      assert GapsOver(first, all, days) == GapsOver(first, ns, days) + {|ns|};
    } else {
      assert GapsOver(first, all, days) == GapsOver(first, ns, days);
    }
  }

  lemma LongestMore(first: real, ns: seq<real>, at: real, longest: real)
    requires Longest(first, ns, longest)
    ensures var gap := (at - LastOf(first, ns)) / 86400.0;
      Longest(first, ns + [at], if gap > 1.0 && gap > longest then gap else longest)
  {
    var all, gap := ns + [at], (at - LastOf(first, ns)) / 86400.0;
    assert Gap(first, all, |ns|) == gap;
    forall i: nat {:trigger Gap(first, all, i)} | i < |ns| ensures Gap(first, all, i) == Gap(first, ns, i) {
      GapSame(first, ns, at, i);
    }
    if longest != 0.0 {
      var i: nat :| i < |ns| && Gap(first, ns, i) == longest > 1.0;
      assert Gap(first, all, i) == longest;
    }
  }

  lemma RunningMore(first: real, ns: seq<real>, at: real, k: nat)
    requires Running(first, ns, k)
    ensures Running(first, ns + [at], if (at - LastOf(first, ns)) / 86400.0 > 30.0 then 1 else k + 1)
  {
    var all := ns + [at];
    assert Gap(first, all, |ns|) == (at - LastOf(first, ns)) / 86400.0;
    forall i: nat {:trigger Gap(first, all, i)} | i < |ns| ensures Gap(first, all, i) == Gap(first, ns, i) {
      GapSame(first, ns, at, i);
    }
    if k < |ns| { assert Gap(first, all, |ns| - k) == Gap(first, ns, |ns| - k); }
  }

  lemma RecordTracks(exp: Exponential, t: Tracker, first: real, ns: seq<real>, at: real)
    requires Tracks(t, first, ns) && t.lastSeen < at
    ensures Tracks(Recorded(exp, t, at), first, ns + [at])
  {
    GapsMore(first, ns, at, 1.0);
    LongestMore(first, ns, at, t.longestGap);
    RunningMore(first, ns, at, t.consecutiveDays);
  }

  /** The last activity noted is the latest of all. */
  lemma {:induction false} NotedLast(first: real, times: seq<real>)
    ensures var last := LastOf(first, Noted(first, times));
      first <= last && (forall i | 0 <= i < |times| :: times[i] <= last) && (last == first || last in times)
    decreases |times|
  {
    if times != [] { NotedLast(first, times[..|times| - 1]); }
  }

  /** Every history: what the tracker counts is what the times say. */
  lemma {:induction false} HistoryExactly(exp: Exponential, first: real, times: seq<real>)
    ensures Tracks(History(exp, first, times), first, Noted(first, times))
    decreases |times|
  {
    if times == [] {
      assert GapsOver(first, [], 1.0) == {};
    } else {
      var front, at := times[..|times| - 1], times[|times| - 1];
      HistoryExactly(exp, first, front);
      NotedLast(first, front);
      var t := History(exp, first, front);
      if t.lastSeen < at { RecordTracks(exp, t, first, Noted(first, front), at); }
    }
  }
}
