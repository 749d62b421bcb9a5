/**
 Guarantees of the starvation-honest clock over whole runs: deferral is bounded
 and comes first in every starved streak, the floor freezes under chronic
 starvation, and the judged clock never outruns wall time.
 */
module OwnTickTheorems {
  import opened Wrappers
  import opened OwnTickHealth

  // ---------------------------------------------------------------------
  // Deferral
  // ---------------------------------------------------------------------

  lemma {:induction false} StreakAdvances(s: Settings, ticks: seq<Instant>, lo: nat, hi: nat)
    requires lo <= hi < |ticks|
    requires forall i :: lo < i <= hi ==> Starved(s, ticks, i)
    ensures ticks[lo] <= ticks[hi]
  {
    if lo < hi {
      StreakAdvances(s, ticks, lo, hi - 1);
      assert Starved(s, ticks, hi);
    }
  }

  lemma MulSucc(n: nat, t: nat)
    ensures (n + 1) * t == n * t + t && Times(n + 1, t) == Times(n, t) + t
  {
  }

  /** Each starved tick is at least one threshold after the one before. */
  lemma {:induction false} StreakSpan(s: Settings, ticks: seq<Instant>, lo: nat, n: nat)
    requires lo + n < |ticks|
    requires forall i :: lo < i <= lo + n ==> Starved(s, ticks, i)
    ensures Times(n, s.threshold) <= ticks[lo + n] - ticks[lo]
  {
    if n > 0 {
      StreakSpan(s, ticks, lo, n - 1);
      assert Starved(s, ticks, lo + n);
      MulSucc(n - 1, s.threshold);
    }
  }

  /** However long the freeze, the tick that opens a streak defers. */
  lemma FirstStarvedTickDefers(s: Settings, ticks: seq<Instant>, lo: nat)
    requires lo < |ticks| && Opens(s, ticks, lo, lo)
    ensures Defers(s, ticks, lo)
  {
  }

  /** With escalation armed the deferring ticks of a streak are exactly those
      within the window, hence a prefix of it. */
  lemma DeferralIsTheWindow(s: Settings, ticks: seq<Instant>, lo: nat, i: nat)
    requires i < |ticks| && Opens(s, ticks, lo, i) && s.chronicAfter.Some?
    ensures Defers(s, ticks, i) <==> ticks[i] - ticks[lo] <= s.chronicAfter.value
  {
  }

  lemma DeferralIsAPrefix(s: Settings, ticks: seq<Instant>, lo: nat, i: nat, j: nat)
    requires i <= j < |ticks| && lo <= i && Opens(s, ticks, lo, j) && s.chronicAfter.Some?
    ensures Defers(s, ticks, j) ==> Defers(s, ticks, i)
  {
    OpensShorter(s, ticks, lo, i, j);
    StreakAdvances(s, ticks, i, j);
    DeferralIsTheWindow(s, ticks, lo, i);
    DeferralIsTheWindow(s, ticks, lo, j);
  }

  lemma OpensShorter(s: Settings, ticks: seq<Instant>, lo: nat, i: nat, j: nat)
    requires lo <= i <= j < |ticks| && Opens(s, ticks, lo, j)
    ensures Opens(s, ticks, lo, i)
  {
  }

  /** The deferring ticks of `lo..hi` are its first `n`. */
  ghost predicate DefersFirst(s: Settings, ticks: seq<Instant>, lo: nat, hi: nat, n: nat)
    requires hi < |ticks|
  {
    forall i: nat :: lo <= i <= hi ==> (Defers(s, ticks, i) <==> i < lo + n)
  }

  /** The ticks of a streak that defer are its first n, with n at least one and
      the n - 1 thresholds that separate them fitting the escalation window. */
  lemma DeferralIsBounded(s: Settings, ticks: seq<Instant>, lo: nat, hi: nat) returns (n: nat)
    requires lo <= hi < |ticks| && Opens(s, ticks, lo, hi) && s.chronicAfter.Some?
    ensures 1 <= n <= hi - lo + 1 && DefersFirst(s, ticks, lo, hi, n)
    ensures Times(n - 1, s.threshold) <= s.chronicAfter.value
  {
    var k := LastDeferOfStreak(s, ticks, lo, hi);
    n := k - lo + 1;
    forall i: nat | lo <= i <= hi ensures Defers(s, ticks, i) <==> i < lo + n {
      DefersUpTo(s, ticks, lo, hi, k, i);
    }
    OpensShorter(s, ticks, lo, k, hi);
    DeferringSpan(s, ticks, lo, k - lo);
  }

  lemma DefersUpTo(s: Settings, ticks: seq<Instant>, lo: nat, hi: nat, k: nat, i: nat)
    requires lo <= k <= hi < |ticks| && lo <= i <= hi && Opens(s, ticks, lo, hi) && s.chronicAfter.Some?
    requires Defers(s, ticks, k) && NoneDefers(s, ticks, k, hi)
    ensures Defers(s, ticks, i) <==> i <= k
  {
    if i <= k {
      OpensShorter(s, ticks, lo, k, hi);
      DeferralIsAPrefix(s, ticks, lo, i, k);
    }
  }

  /** A product kept by name. */
  function Times(n: int, t: nat): int {
    n * t
  }

  lemma DeferringSpan(s: Settings, ticks: seq<Instant>, lo: nat, n: nat)
    requires lo + n < |ticks| && Opens(s, ticks, lo, lo + n) && s.chronicAfter.Some? && Defers(s, ticks, lo + n)
    ensures Times(n, s.threshold) <= s.chronicAfter.value
  {
    DeferralIsTheWindow(s, ticks, lo, lo + n);
    StreakSpan(s, ticks, lo, n);
  }

  /** Without escalation every starved tick defers, for ever. */
  lemma PlainConstructorNeverEscalates(s: Settings, ticks: seq<Instant>, i: nat)
    requires i < |ticks| && s.chronicAfter.None?
    ensures !Chronic(s, ticks, i) && (Defers(s, ticks, i) <==> Starved(s, ticks, i))
  {
  }

  /** Every starved tick lies in a streak, so `DeferralIsBounded` covers every deferral. */
  lemma {:induction false} StreakHasAStart(s: Settings, ticks: seq<Instant>, i: nat) returns (lo: nat)
    requires i < |ticks| && Starved(s, ticks, i)
    ensures lo <= i && Opens(s, ticks, lo, i)
  {
    if Starved(s, ticks, i - 1) {
      lo := StreakHasAStart(s, ticks, i - 1);
    } else {
      lo := i;
    }
  }

  ghost predicate NoneDefers(s: Settings, ticks: seq<Instant>, k: nat, i: nat)
    requires i < |ticks|
  {
    forall j: nat :: k < j <= i ==> !Defers(s, ticks, j)
  }

  lemma NoneDefersExtends(s: Settings, ticks: seq<Instant>, k: nat, i: nat)
    requires 0 < i < |ticks| && NoneDefers(s, ticks, k, i - 1) && !Defers(s, ticks, i)
    ensures NoneDefers(s, ticks, k, i)
  {
  }

  lemma LoneTickDefers(s: Settings, ticks: seq<Instant>, lo: nat, i: nat)
    requires i < |ticks| && Opens(s, ticks, lo, i) && s.chronicAfter.Some? && !Defers(s, ticks, i)
    ensures lo < i && Opens(s, ticks, lo, i - 1)
  {
    DeferralIsTheWindow(s, ticks, lo, i);
    OpensShorter(s, ticks, lo, i - 1, i);
  }

  /** The last deferring tick of the streak that reaches `i`. */
  lemma {:induction false} LastDeferOfStreak(s: Settings, ticks: seq<Instant>, lo: nat, i: nat) returns (k: nat)
    requires i < |ticks| && Opens(s, ticks, lo, i) && s.chronicAfter.Some?
    ensures lo <= k <= i && Defers(s, ticks, k)
    ensures NoneDefers(s, ticks, k, i)
    decreases i
  {
    if Defers(s, ticks, i) {
      k := i;
    } else {
      LoneTickDefers(s, ticks, lo, i);
      k := LastDeferOfStreak(s, ticks, lo, i - 1);
      NoneDefersExtends(s, ticks, k, i);
    }
  }

  /** Under chronic starvation the floor is frozen inside the escalation window,
      so the silence of any anchor at or below it keeps growing with wall time. */
  lemma ChronicFloorIsFrozen(s: Settings, ticks: seq<Instant>, lo: nat, floor: Option<Instant>)
    requires ticks != [] && Opens(s, ticks, lo, |ticks| - 1)
    requires Chronic(s, ticks, |ticks| - 1) && IsFloor(s, ticks, floor)
    ensures floor.Some? && ticks[lo] <= floor.value <= ticks[lo] + s.chronicAfter.value < ticks[|ticks| - 1]
  {
    var i := |ticks| - 1;
    var k := LastDeferOfStreak(s, ticks, lo, i);
    FloorIsLastDefer(s, ticks, k, floor);
    OpensShorter(s, ticks, lo, k, i);
    DeferralIsTheWindow(s, ticks, lo, k);
    StreakAdvances(s, ticks, lo, k);
    ChronicByStart(s, ticks, lo, i);
  }

  lemma FloorIsLastDefer(s: Settings, ticks: seq<Instant>, k: nat, floor: Option<Instant>)
    requires k < |ticks| && Defers(s, ticks, k) && NoneDefers(s, ticks, k, |ticks| - 1) && IsFloor(s, ticks, floor)
    ensures floor == Some(ticks[k])
  {
    if floor.Some? {
      var f: nat :| LastDefer(s, ticks, f) && ticks[f] == floor.value;
      assert f <= k && k <= f;
    }
  }

  // ---------------------------------------------------------------------
  // The judged clock
  // ---------------------------------------------------------------------

  /** How many of the ticks after `i`, up to `j`, were starved. */
  function StarvedCount(s: Settings, ticks: seq<Instant>, i: nat, j: nat): nat
    requires i <= j < |ticks|
    decreases j
  {
    if i == j then 0 else StarvedCount(s, ticks, i, j - 1) + if Starved(s, ticks, j) then 1 else 0
  }

  /** The wall time of the healthy gaps between ticks `i` and `j`. */
  function HealthyTime(s: Settings, ticks: seq<Instant>, i: nat, j: nat): Duration
    requires i <= j < |ticks|
    decreases j
  {
    if i == j then 0
    else HealthyTime(s, ticks, i, j - 1) + if Starved(s, ticks, j) then 0 else Since(ticks[j - 1], ticks[j])
  }

  /** Over any window the judged clock gains every healthy gap in full and
      exactly one threshold per starved tick. */
  lemma {:induction false} JudgedWindow(s: Settings, ticks: seq<Instant>, i: nat, j: nat)
    requires i <= j < |ticks|
    ensures Judged(s, ticks, j + 1) - Judged(s, ticks, i + 1)
         == HealthyTime(s, ticks, i, j) + StarvedCount(s, ticks, i, j) * s.threshold
    decreases j
  {
    if i < j {
      JudgedWindow(s, ticks, i, j - 1);
      assert Judged(s, ticks, j + 1) == Judged(s, ticks, j) + Min(Since(ticks[j - 1], ticks[j]), s.threshold);
      MulSucc(StarvedCount(s, ticks, i, j - 1), s.threshold);
    }
  }

  /** One more tick: the gap in full up to the threshold, the threshold beyond it, and
      nothing when the clock went back. */
  lemma JudgedByGap(s: Settings, ticks: seq<Instant>, i: nat)
    requires 0 < i < |ticks|
    ensures var (gap, more) := (ticks[i] - ticks[i - 1], Judged(s, ticks, i + 1) - Judged(s, ticks, i));
            && (gap <= 0 ==> more == 0) && (0 <= gap <= s.threshold ==> more == gap)
            && (gap >= s.threshold ==> more == s.threshold)
            && (gap > s.threshold <==> Starved(s, ticks, i))
  {
  }

  lemma {:induction false} CappedGapsWithinWall(s: Settings, ticks: seq<Instant>, i: nat, j: nat)
    requires i <= j < |ticks| && NonDecreasing(ticks)
    ensures HealthyTime(s, ticks, i, j) + StarvedCount(s, ticks, i, j) * s.threshold <= ticks[j] - ticks[i]
    ensures HealthyTime(s, ticks, i, j) + StarvedCount(s, ticks, i, j) * s.threshold == ticks[j] - ticks[i]
            <==> StarvedCount(s, ticks, i, j) == 0
    decreases j
  {
    if i < j {
      CappedGapsWithinWall(s, ticks, i, j - 1);
      MulSucc(StarvedCount(s, ticks, i, j - 1), s.threshold);
    }
  }

  /** The judged clock never runs faster than wall time, and keeps pace with it
      exactly on the windows in which no tick was starved. */
  lemma JudgedNeverOutrunsWall(s: Settings, ticks: seq<Instant>, i: nat, j: nat)
    requires i <= j < |ticks| && NonDecreasing(ticks)
    ensures 0 <= Judged(s, ticks, j + 1) - Judged(s, ticks, i + 1) <= ticks[j] - ticks[i]
    ensures Judged(s, ticks, j + 1) - Judged(s, ticks, i + 1) == ticks[j] - ticks[i]
            <==> NoneStarved(s, ticks, i, j)
  {
    JudgedWindow(s, ticks, i, j);
    CappedGapsWithinWall(s, ticks, i, j);
    CountZero(s, ticks, i, j);
    ProductIsNat(StarvedCount(s, ticks, i, j), s.threshold);
  }

  lemma ProductIsNat(a: nat, b: nat)
    ensures a * b >= 0
  {
  }

  ghost predicate NoneStarved(s: Settings, ticks: seq<Instant>, i: nat, j: nat)
    requires i <= j < |ticks|
  {
    forall k: nat :: i < k <= j ==> !Starved(s, ticks, k)
  }

  lemma {:induction false} CountZero(s: Settings, ticks: seq<Instant>, i: nat, j: nat)
    requires i <= j < |ticks|
    ensures StarvedCount(s, ticks, i, j) == 0 <==> NoneStarved(s, ticks, i, j)
    decreases j
  {
    if i < j { CountZero(s, ticks, i, j - 1); }
  }

  /** Chronic starvation cannot hide a dead peer: whatever the bound, finitely
      many starved ticks carry the judged silence past it. */
  lemma JudgedSilencePassesAnyBound(s: Settings, ticks: seq<Instant>, i: nat, j: nat, bound: nat)
    requires i <= j < |ticks| && s.threshold > 0
    requires StarvedCount(s, ticks, i, j) > bound / s.threshold
    ensures Judged(s, ticks, j + 1) - Judged(s, ticks, i + 1) > bound
  {
    JudgedWindow(s, ticks, i, j);
    BelowNextMultiple(bound, s.threshold, StarvedCount(s, ticks, i, j));
  }

  lemma BelowNextMultiple(bound: nat, t: nat, n: nat)
    requires t > 0 && n > bound / t
    ensures bound < n * t
  {
    MulMonotone(bound / t + 1, n, t);
    MulSucc(bound / t, t);
  }

  lemma MulMonotone(a: nat, b: nat, t: nat)
    requires a <= b
    ensures a * t <= b * t
  {
  }
}
