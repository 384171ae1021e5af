/**
  A pruned identity that comes back: its score when started anew, against the score it would have had its
  tracker been kept.  Which is higher is decided by how much of its earlier life it was active.
 */
module ContinuityReturn {
  import opened Continuity

  // ----- arithmetic

  lemma Scale(a: real, b: real, k: real)
    requires a <= b && 0.0 <= k
    ensures a * k <= b * k
  {
  }

  lemma Strictly(a: real, b: real, k: real)
    requires a < b && 0.0 < k
    ensures a * k < b * k
  {
  }

  lemma QuotientAtLeast(f: real, x: real, y: real)
    requires 0.0 < y && f * y <= x
    ensures f <= x / y
  {
    var q := x / y;
    assert q * y == x;
    if f > q { Strictly(q, f, y); }
  }

  lemma AdjustedRises(r: real, f: real, r': real, f': real, n: nat, m: nat)
    requires 0.0 <= r <= r' && 0.0 <= f <= f' && 0 < n && 0 < m
    ensures Adjusted(r, f, n) <= Adjusted(r', f', m)
  {
    Product(r, r', f, f');
  }

  lemma AdjustedFully(r: real, active: nat)
    requires MIN_SCORE <= r
    ensures Adjusted(r, 1.0, active) == r
  {
  }

  lemma BelowShare(b: real, c: real, x: real, y: real, share: real, active: nat)
    requires 0.0 < y && 0.0 <= c && share * y <= x && b * y > c * x && b > MIN_SCORE
    ensures b > Adjusted(c, share, active)
  {
    Scale(share * y, x, c);
    assert c * share * y == share * y * c;
    if b <= c * share { Scale(b, c * share, y); }
  }

  /** Making up for it means growing by at least the dilution. */
  lemma Dilution(b: real, c: real, x: real, k: real, y: real, g: real)
    requires 0.0 < x && 0.0 < k && y == x + k && 0.1 <= b && b * y <= c * x && g * x <= 0.1 * k
    ensures c >= b + g
  {
    assert b * y == b * x + b * k;
    Scale(0.1, b, k);
    assert g * x <= b * k;
    assert b * x + g * x <= c * x;
    assert (b + g) * x == b * x + g * x;
    if c < b + g { Strictly(c, b + g, x); }
  }

  lemma SmallProduct(r: real, f: real)
    requires 0.0 <= r <= 1.0 && 0.0 <= f <= 0.003
    ensures r * f <= 0.003
  {
    Product(r, 1.0, f, 0.003);
  }

  lemma Sums(n: nat, a: nat, whole: nat)
    requires a >= 1
    ensures (n + a + a * whole) as real <= a as real * (1 + whole + n) as real
  {
    assert n <= a * n;
    assert a * (1 + whole + n) == a + a * whole + a * n;
    assert (a * (1 + whole + n)) as real == a as real * (1 + whole + n) as real;
  }

  lemma OneMore(k: nat, whole: nat)
    requires k > 0
    ensures 0 <= (k - 1) * whole && k * whole == (k - 1) * whole + whole
  {
  }

  lemma OneMoreGain(k: nat, g: real)
    requires k > 0
    ensures k as real * g == (k - 1) as real * g + g
  {
  }

  lemma ManyTimes(g: real) returns (j: nat)
    requires 0.0 < g
    ensures j as real * g >= 1.0
  {
    var q := 1.0 / g;
    assert q * g == 1.0;
    j := q.Floor + 1;
    Scale(q, j as real, g);
  }

  // ----- kept against started anew

  /** Further activity of a tracked identity. */
  function After(exp: Exponential, t: Tracker, times: seq<real>): Tracker {
    if times == [] then t else Recorded(exp, After(exp, t, times[..|times| - 1]), times[|times| - 1])
  }

  /** Kept or started anew, the tracker is as recent; kept, it is older and has the earlier activity besides. */
  lemma {:induction false} ComeBack(exp: Exponential, t: Tracker, back: real, times: seq<real>)
    requires Sound(exp, t) && t.lastSeen < back
    ensures var kept, anew := After(exp, Recorded(exp, t, back), times), After(exp, Started(back), times);
      && kept.lastSeen == anew.lastSeen && kept.firstSeen == t.firstSeen && anew.firstSeen == back
      && kept.totalActiveDays == t.totalActiveDays + anew.totalActiveDays && anew.totalActiveDays >= 1
      && back <= anew.lastSeen
    decreases |times|
  {
    if times != [] { ComeBack(exp, t, back, times[..|times| - 1]); }
  }

  lemma RestGrows(exp: Exponential, a: real, b: real, gap: real)
    requires Decay(exp) && 1.0 <= a <= b
    ensures MIN_SCORE <= Rest(exp, a, gap) <= Rest(exp, b, gap)
  {
    BaseSlope(exp, a, b);
    BaseBounds(exp, a);
    BaseBounds(exp, b);
  }

  function Ratio(t: Tracker, now: real): real {
    ActivityFactor(t.totalActiveDays, (now - t.firstSeen) / DAY)
  }

  /** An older tracker, as recent, with more activity. */
  ghost predicate Elder(kept: Tracker, anew: Tracker) {
    && kept.firstSeen <= anew.firstSeen && kept.lastSeen == anew.lastSeen
    && 0 < anew.totalActiveDays < kept.totalActiveDays
  }

  /** The ages, the gap, and what is left of the base for each. */
  lemma ElderRest(exp: Exponential, kept: Tracker, anew: Tracker, now: real)
    requires Decay(exp) && Elder(kept, anew) && (now - anew.firstSeen) / DAY >= 1.0
    ensures var a, b, gap := (now - anew.firstSeen) / DAY, (now - kept.firstSeen) / DAY, (now - kept.lastSeen) / DAY;
      1.0 <= a <= b && 0.0 <= Rest(exp, a, gap) <= Rest(exp, b, gap) && 0.0 <= Ratio(anew, now)
  {
    var a, b, gap := (now - anew.firstSeen) / DAY, (now - kept.firstSeen) / DAY, (now - kept.lastSeen) / DAY;
    assert a <= b;
    RestGrows(exp, a, b, gap);
    FactorFalls(anew.totalActiveDays, a, a);
  }

  /** Pruned and back, the identity scores higher than had it been kept. */
  ghost predicate Raised(exp: Exponential, t: Tracker, back: real, times: seq<real>, now: real) {
    Score(exp, After(exp, Started(back), times), now) > Score(exp, After(exp, Recorded(exp, t, back), times), now)
  }

  lemma SteadyNeverExceeded(exp: Exponential, kept: Tracker, anew: Tracker, now: real)
    requires Decay(exp) && Elder(kept, anew) && (now - anew.firstSeen) / DAY >= 1.0
    requires Ratio(kept, now) >= Ratio(anew, now)
    ensures Score(exp, anew, now) <= Score(exp, kept, now)
  {
    var a, b, gap := (now - anew.firstSeen) / DAY, (now - kept.firstSeen) / DAY, (now - kept.lastSeen) / DAY;
    ElderRest(exp, kept, anew, now);
    var n, m := anew.totalActiveDays, kept.totalActiveDays;
    AdjustedRises(Rest(exp, a, gap), ActivityFactor(n, a), Rest(exp, b, gap), ActivityFactor(m, b), n, m);
  }

  /** No rise while the identity's activity ratio overall is no lower than since it came back. */
  lemma SteadyPruneNeverRaises(exp: Exponential, t: Tracker, back: real, times: seq<real>, now: real)
    requires Decay(exp) && Sound(exp, t) && t.lastSeen < back
    requires Ratio(After(exp, Recorded(exp, t, back), times), now) >= Ratio(After(exp, Started(back), times), now)
    ensures !Raised(exp, t, back, times, now)
  {
    ComeBack(exp, t, back, times);
    if (now - back) / DAY >= 1.0 {
      SteadyNeverExceeded(exp, After(exp, Recorded(exp, t, back), times), After(exp, Started(back), times), now);
    }
  }

  // ----- active on all its days: never higher

  lemma FactorTimesAge(active: nat, age: real)
    requires 1.0 <= age
    ensures var f := ActivityFactor(active, age); 0.0 <= f <= 1.0 && f * age <= active as real
  {
    FactorFalls(active, age, age);
    var q := active as real / age;
    assert q * age == active as real;
    Scale(Min(q, 1.0), q, age);
  }

  lemma FactorAtLeast(f: real, active: nat, age: real)
    requires 1.0 <= age && f <= 1.0 && f * age <= active as real
    ensures f <= ActivityFactor(active, age)
  {
    QuotientAtLeast(f, active as real, age);
  }

  lemma FullDays(f: real, a: real, d: real, m: real, n: real)
    requires 0.0 <= d <= n && f <= 1.0 && f * a <= m
    ensures f * (a + d) <= n + m
  {
    Scale(f, 1.0, d);
    assert f * (a + d) == f * a + f * d;
  }

  /** Adding days that were all active never lowers the activity factor. */
  lemma FullDaysHelp(n: nat, d: real, m: nat, a: real)
    requires 1.0 <= a && 0.0 <= d <= n as real
    ensures ActivityFactor(m, a) <= ActivityFactor(n + m, a + d)
  {
    FactorTimesAge(m, a);
    FullDays(ActivityFactor(m, a), a, d, m as real, n as real);
    FactorAtLeast(ActivityFactor(m, a), n + m, a + d);
  }

  /** Back while its active days still make up its age, a pruned identity never scores higher. */
  lemma BusyNeverRaised(exp: Exponential, t: Tracker, back: real, times: seq<real>, now: real)
    requires Decay(exp) && Sound(exp, t) && t.lastSeen < back && t.totalActiveDays as real >= (back - t.firstSeen) / DAY
    ensures !Raised(exp, t, back, times, now)
  {
    ComeBack(exp, t, back, times);
    var anew, a, d := After(exp, Started(back), times), (now - back) / DAY, (back - t.firstSeen) / DAY;
    if a >= 1.0 {
      FullDaysHelp(t.totalActiveDays, d, anew.totalActiveDays, a);
      assert (now - t.firstSeen) / DAY == a + d;
      SteadyPruneNeverRaises(exp, t, back, times, now);
    }
  }

  // ----- active once a day from the return on

  /** Once a day, `k` times, after `back`. */
  function Daily(back: real, k: nat): (times: seq<real>)
    ensures |times| == k
  {
    seq(k, i requires 0 <= i < k => back + (i + 1) as real * DAY)
  }

  lemma {:induction false} DailyAfter(exp: Exponential, back: real, k: nat)
    ensures var t := After(exp, Started(back), Daily(back, k));
      t.firstSeen == back && t.lastSeen == back + k as real * DAY && t.totalActiveDays == k + 1
  {
    if k > 0 {
      DailyAfter(exp, back, k - 1);
      assert Daily(back, k)[..k - 1] == Daily(back, k - 1) && Daily(back, k)[k - 1] == back + k as real * DAY;
    }
  }

  /** A score within a day of the last activity has no penalty. */
  lemma RecentScore(exp: Exponential, t: Tracker, now: real, age: real)
    requires now == t.lastSeen + DAY && (now - t.firstSeen) / DAY == age >= 1.0
    ensures Score(exp, t, now)
      == Adjusted(Base(exp, age), ActivityFactor(t.totalActiveDays, age), t.totalActiveDays)
  {
    assert Penalty((now - t.lastSeen) / DAY, Base(exp, age)) == 0.0;
  }

  /** The score of an identity started at the return, `a` days later, active on each. */
  lemma DailyScore(exp: Exponential, back: real, a: nat)
    requires Decay(exp) && a >= 1
    ensures Score(exp, After(exp, Started(back), Daily(back, a - 1)), back + a as real * DAY) == Base(exp, a as real)
    ensures Base(exp, a as real) >= 0.1
  {
    DailyAfter(exp, back, a - 1);
    BaseBounds(exp, a as real);
    FullyActive(a as real, a);
    var now := back + a as real * DAY;
    assert (now - back) / DAY == a as real;
    RecentScore(exp, After(exp, Started(back), Daily(back, a - 1)), now, a as real);
    AdjustedFully(Base(exp, a as real), a);
  }

  lemma DaysSince(first: real, back: real, a: nat)
    ensures (back + a as real * DAY - first) / DAY == a as real + (back - first) / DAY
  {
  }

  /** The score it would have, had it been kept. */
  lemma DailyScoreKept(exp: Exponential, t: Tracker, back: real, d: real, a: nat)
    requires Sound(exp, t) && t.lastSeen < back && a >= 1 && d == (back - t.firstSeen) / DAY
    ensures var n, age := t.totalActiveDays + a, a as real + d;
      Score(exp, After(exp, Recorded(exp, t, back), Daily(back, a - 1)), back + a as real * DAY)
      == Adjusted(Base(exp, age), ActivityFactor(n, age), n)
  {
    DailyAfter(exp, back, a - 1);
    ComeBack(exp, t, back, Daily(back, a - 1));
    DaysSince(t.firstSeen, back, a);
    RecentScore(exp, After(exp, Recorded(exp, t, back), Daily(back, a - 1)), back + a as real * DAY, a as real + d);
  }

  // ----- a bounded curve is diluted sometime

  /** A curve with the bounds of the base. */
  ghost predicate Growing(f: real -> real) {
    && (forall x {:trigger f(x)} | 1.0 <= x :: 0.1 <= f(x) < 1.0)
    && (forall x, y {:trigger f(x), f(y)} | 1.0 <= x <= y :: f(x) <= f(y))
  }

  lemma BaseGrowing(exp: Exponential)
    requires Decay(exp)
    ensures Growing(age => Base(exp, age))
  {
    var f := age => Base(exp, age);
    forall x | 1.0 <= x ensures 0.1 <= f(x) < 1.0 { BaseBounds(exp, x); }
    forall x, y | 1.0 <= x <= y ensures f(x) <= f(y) { BaseSlope(exp, x, y); }
  }

  /** The curve makes up for the dilution after `a` days. */
  ghost predicate MakesUp(f: real -> real, n: nat, d: real, a: nat) {
    f(a as real) * (a as real + d) <= f(a as real + d) * (n + a) as real
  }

  ghost predicate AlwaysMakesUp(f: real -> real, n: nat, d: real) {
    forall a: nat {:trigger MakesUp(f, n, d, a)} | a >= 1 :: MakesUp(f, n, d, a)
  }

  ghost predicate GainsAt(f: real -> real, whole: nat, g: real, a: nat) {
    f((a + whole) as real) >= f(a as real) + g
  }

  /** Up to an age, every stretch of `whole` days gains at least `g`. */
  ghost predicate Gains(f: real -> real, whole: nat, g: real, top: nat) {
    forall a: nat {:trigger GainsAt(f, whole, g, a)} | 1 <= a <= top :: GainsAt(f, whole, g, a)
  }

  lemma MakingUpGains(f: real -> real, n: nat, d: real, a: nat, whole: nat, g: real, top: real)
    requires Growing(f) && n as real < d <= whole as real && MakesUp(f, n, d, a)
    requires a >= 1 && 0.0 <= g && (n + a) as real <= top && g * top <= 0.1 * (d - n as real)
    ensures GainsAt(f, whole, g, a)
  {
    Product(g, g, (n + a) as real, top);
    Dilution(f(a as real), f(a as real + d), (n + a) as real, d - n as real, a as real + d, g);
    assert f(a as real + d) <= f((a + whole) as real);
  }

  lemma GainsUpTo(f: real -> real, n: nat, d: real, whole: nat, g: real, top: nat)
    requires Growing(f) && n as real < d <= whole as real && AlwaysMakesUp(f, n, d)
    requires 0.0 <= g && g * (n + top) as real <= 0.1 * (d - n as real)
    ensures Gains(f, whole, g, top)
  {
    forall a: nat {:trigger GainsAt(f, whole, g, a)} | 1 <= a <= top ensures GainsAt(f, whole, g, a) {
      assert MakesUp(f, n, d, a);
      MakingUpGains(f, n, d, a, whole, g, (n + top) as real);
    }
  }

  /** Over `k` such stretches in a row, ending at `end`. */
  lemma {:induction false} GrowsInSteps(f: real -> real, a: nat, whole: nat, k: nat, end: nat, g: real)
    requires a >= 1 && end == a + k * whole && Gains(f, whole, g, end)
    ensures f(end as real) >= f(a as real) + k as real * g
    decreases k
  {
    if k > 0 {
      OneMore(k, whole);
      var before := end - whole;
      GrowsInSteps(f, a, whole, k - 1, before, g);
      assert GainsAt(f, whole, g, before) && before + whole == end;
      OneMoreGain(k, g);
    }
  }

  /** What is gained each time the age grows by the factor `1 + whole`. */
  function Gain(n: nat, d: real, whole: nat): real {
    0.1 * (d - n as real) / (1 + whole + n) as real
  }

  lemma GainIsPositive(n: nat, d: real, whole: nat)
    requires n as real < d
    ensures Gain(n, d, whole) > 0.0
  {
  }

  lemma GainSuffices(n: nat, d: real, a: nat, whole: nat, g: real)
    requires a >= 1 && n as real < d && a as real * g == Gain(n, d, whole)
    ensures 0.0 <= g && g * (n + a + a * whole) as real <= 0.1 * (d - n as real)
  {
    var factor, sum := (1 + whole + n) as real, (n + a + a * whole) as real;
    assert Gain(n, d, whole) * factor == 0.1 * (d - n as real);
    assert Gain(n, d, whole) > 0.0;
    assert g > 0.0;
    Sums(n, a, whole);
    assert g * (a as real * factor) == a as real * g * factor;
    Product(g, g, sum, a as real * factor);
  }

  lemma GrowsByGain(f: real -> real, n: nat, d: real, a: nat, whole: nat)
    requires Growing(f) && n as real < d <= whole as real && AlwaysMakesUp(f, n, d) && a >= 1
    ensures f((a + a * whole) as real) >= f(a as real) + Gain(n, d, whole)
  {
    var g, end := Gain(n, d, whole) / a as real, a + a * whole;
    assert a as real * g == Gain(n, d, whole);
    GainSuffices(n, d, a, whole, g);
    GainsUpTo(f, n, d, whole, g, end);
    GrowsInSteps(f, a, whole, a, end, g);
  }

  lemma {:induction false} Climbs(f: real -> real, n: nat, d: real, whole: nat, j: nat) returns (a: nat)
    requires Growing(f) && n as real < d <= whole as real && AlwaysMakesUp(f, n, d)
    ensures a >= 1 && f(a as real) >= j as real * Gain(n, d, whole)
  {
    if j == 0 {
      a := 1;
    } else {
      a := Climbs(f, n, d, whole, j - 1);
      GrowsByGain(f, n, d, a, whole);
      OneMoreGain(j, Gain(n, d, whole));
      OneMore(a, whole);
      a := a + a * whole;
    }
  }

  /** The curve stays below 1, so it cannot make up for the dilution for ever. */
  lemma MakesUpNotAlways(f: real -> real, n: nat, d: real)
    requires Growing(f) && n as real < d
    ensures !AlwaysMakesUp(f, n, d)
  {
    if AlwaysMakesUp(f, n, d) {
      var whole := d.Floor + 1;
      GainIsPositive(n, d, whole);
      var j := ManyTimes(Gain(n, d, whole));
      var a := Climbs(f, n, d, whole, j);
    }
  }

  lemma NotMadeUp(f: real -> real, n: nat, d: real, a: nat)
    requires Growing(f) && 0.0 <= d && a >= 1 && !MakesUp(f, n, d, a)
    ensures f(a as real) > Adjusted(f(a as real + d), ActivityFactor(n + a, a as real + d), n + a)
  {
    var age := a as real + d;
    FactorTimesAge(n + a, age);
    BelowShare(f(a as real), f(age), (n + a) as real, age, ActivityFactor(n + a, age), n + a);
  }

  lemma DilutedSometime(f: real -> real, n: nat, d: real) returns (a: nat)
    requires Growing(f) && n as real < d
    ensures a >= 1 && f(a as real) > Adjusted(f(a as real + d), ActivityFactor(n + a, a as real + d), n + a)
  {
    MakesUpNotAlways(f, n, d);
    a :| a >= 1 && !MakesUp(f, n, d, a);
    NotMadeUp(f, n, d, a);
  }

  // ----- the exact condition

  /**
    Back with fewer active days than its age, it scores higher than had it been kept when active once a
    day for long enough.
   */
  lemma DailyRaised(exp: Exponential, t: Tracker, back: real) returns (a: nat)
    requires Decay(exp) && Sound(exp, t) && t.lastSeen < back
    requires t.totalActiveDays as real < (back - t.firstSeen) / DAY
    ensures a >= 1 && Raised(exp, t, back, Daily(back, a - 1), back + a as real * DAY)
  {
    var f, n, d := age => Base(exp, age), t.totalActiveDays, (back - t.firstSeen) / DAY;
    BaseGrowing(exp);
    a := DilutedSometime(f, n, d);
    DailyScore(exp, back, a);
    DailyScoreKept(exp, t, back, d, a);
  }

  /**
    A pruned identity that comes back can score higher than had it been kept, after some further activity
    and at some time, exactly when it had fewer active days than its age in days at the return.
   */
  lemma PruneRaisesExactly(exp: Exponential, t: Tracker, back: real)
    requires Decay(exp) && Sound(exp, t) && t.lastSeen < back
    ensures (exists times, now :: Raised(exp, t, back, times, now)) <==>
      t.totalActiveDays as real < (back - t.firstSeen) / DAY
  {
    if t.totalActiveDays as real < (back - t.firstSeen) / DAY {
      var a := DailyRaised(exp, t, back);
    } else {
      forall times, now ensures !Raised(exp, t, back, times, now) { BusyNeverRaised(exp, t, back, times, now); }
    }
  }

  /** Seen once, back after a thousand days and again two days later: pruned it scores above 0.1, kept the floor. */
  lemma PruningCanRaise(exp: Exponential)
    requires Decay(exp)
    ensures var back, now := 1000.0 * DAY, 1002.0 * DAY;
      var kept, anew := After(exp, Recorded(exp, Started(0.0), back), [now]), After(exp, Started(back), [now]);
      Score(exp, kept, now) == MIN_SCORE && Score(exp, anew, now) > 0.1
  {
    var back, now := 1000.0 * DAY, 1002.0 * DAY;
    ComeBack(exp, Started(0.0), back, [now]);
    assert [now][..0] == [];
    var anew := After(exp, Started(back), [now]);
    assert anew.totalActiveDays == 2 && anew.lastSeen == now;
    BaseBounds(exp, 1002.0);
    assert ActivityFactor(3, 1002.0) <= 0.003;
    assert Rest(exp, 1002.0, 0.0) * ActivityFactor(3, 1002.0) <= 0.003 by {
      SmallProduct(Rest(exp, 1002.0, 0.0), ActivityFactor(3, 1002.0));
    }
    FullyActive(2.0, 2);
  }
}
