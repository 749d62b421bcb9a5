/**
 The starvation-honest clock (crates/dynrunner-manager-distributed/src/own_tick_health.rs).

 Instants and durations are whole nanoseconds.  The class keeps the source's
 fields; `ticks` is the ghost history of every instant it was fed, and `Valid`
 says that each field is the stated function of that whole history.
 */
module OwnTickHealth {
  import opened Wrappers

  type Instant = int
  type Duration = nat

  const STARVATION_TICK_MULTIPLE: nat := 3

  /** `Duration::MAX`: 2^64 - 1 seconds and 999 999 999 nanoseconds. */
  const MAX_DURATION: nat := 18446744073709551615 * 1_000_000_000 + 999_999_999

  function SaturatingMul(d: Duration, k: nat): Duration {
    if d * k > MAX_DURATION then MAX_DURATION else d * k
  }

  /** `later.saturating_duration_since(earlier)`. */
  function Since(earlier: Instant, later: Instant): Duration {
    if later < earlier then 0 else later - earlier
  }

  function Min(a: nat, b: nat): nat {
    if a <= b then a else b
  }

  // ---------------------------------------------------------------------
  // What a history of ticks means
  // ---------------------------------------------------------------------

  datatype Settings = Settings(threshold: Duration, chronicAfter: Option<Duration>)

  predicate NonDecreasing(ticks: seq<Instant>) {
    forall i, j :: 0 <= i <= j < |ticks| ==> ticks[i] <= ticks[j]
  }

  /** Tick `i` came more than the threshold after its predecessor. */
  predicate Starved(s: Settings, ticks: seq<Instant>, i: nat)
    requires i < |ticks|
  {
    i > 0 && Since(ticks[i - 1], ticks[i]) > s.threshold
  }

  predicate AllStarved(s: Settings, ticks: seq<Instant>, lo: nat, hi: nat)
    requires hi < |ticks|
  {
    forall i :: lo <= i <= hi ==> Starved(s, ticks, i)
  }

  /** `lo` opens the streak of starved ticks that reaches `i`. */
  ghost predicate Opens(s: Settings, ticks: seq<Instant>, lo: nat, i: nat)
    requires i < |ticks|
  {
    lo <= i && AllStarved(s, ticks, lo, i) && (lo == 0 || !Starved(s, ticks, lo - 1))
  }

  /** The streak reaching `i` has outlived the escalation window. */
  ghost predicate Chronic(s: Settings, ticks: seq<Instant>, i: nat)
    requires i < |ticks|
  {
    s.chronicAfter.Some?
    && exists lo: nat :: Opens(s, ticks, lo, i) && Since(ticks[lo], ticks[i]) > s.chronicAfter.value
  }

  /** The DEFER verdict of tick `i`. */
  ghost predicate Defers(s: Settings, ticks: seq<Instant>, i: nat)
    requires i < |ticks|
  {
    Starved(s, ticks, i) && !Chronic(s, ticks, i)
  }

  /** The floor is the instant of the last tick that deferred. */
  ghost predicate IsFloor(s: Settings, ticks: seq<Instant>, floor: Option<Instant>) {
    match floor
    case None => forall i :: 0 <= i < |ticks| ==> !Defers(s, ticks, i)
    case Some(t) => exists i: nat :: LastDefer(s, ticks, i) && ticks[i] == t
  }

  ghost predicate LastDefer(s: Settings, ticks: seq<Instant>, i: nat) {
    i < |ticks| && Defers(s, ticks, i) && forall j :: i < j < |ticks| ==> !Defers(s, ticks, j)
  }

  /** What the judged clock reads after the first `n` ticks: every gap, capped. */
  function Judged(s: Settings, ticks: seq<Instant>, n: nat): Duration
    requires n <= |ticks|
  {
    if n <= 1 then 0
    else Judged(s, ticks, n - 1) + Min(Since(ticks[n - 2], ticks[n - 1]), s.threshold)
  }

  // Nothing about an earlier tick changes when another tick arrives.

  lemma StarvedExtends(s: Settings, ticks: seq<Instant>, now: Instant, i: nat)
    requires i < |ticks|
    ensures Starved(s, ticks + [now], i) == Starved(s, ticks, i)
  {
  }

  lemma OpensExtends(s: Settings, ticks: seq<Instant>, now: Instant, lo: nat, i: nat)
    requires i < |ticks|
    ensures Opens(s, ticks + [now], lo, i) == Opens(s, ticks, lo, i)
  {
    forall k: nat | k <= i ensures Starved(s, ticks + [now], k) == Starved(s, ticks, k) {
      StarvedExtends(s, ticks, now, k);
    }
  }

  lemma DefersExtends(s: Settings, ticks: seq<Instant>, now: Instant, i: nat)
    requires i < |ticks|
    ensures Chronic(s, ticks + [now], i) <==> Chronic(s, ticks, i)
    ensures Defers(s, ticks + [now], i) == Defers(s, ticks, i)
  {
    var after := ticks + [now];
    StarvedExtends(s, ticks, now, i);
    if Chronic(s, ticks, i) {
      var lo: nat :| Opens(s, ticks, lo, i) && Since(ticks[lo], ticks[i]) > s.chronicAfter.value;
      OpensExtends(s, ticks, now, lo, i);
      assert after[lo] == ticks[lo] && after[i] == ticks[i];
    }
    if Chronic(s, after, i) {
      var lo: nat :| Opens(s, after, lo, i) && Since(after[lo], after[i]) > s.chronicAfter.value;
      OpensExtends(s, ticks, now, lo, i);
      assert after[lo] == ticks[lo] && after[i] == ticks[i];
    }
  }

  lemma {:induction false} JudgedExtends(s: Settings, ticks: seq<Instant>, now: Instant, n: nat)
    requires n <= |ticks|
    ensures Judged(s, ticks + [now], n) == Judged(s, ticks, n)
  {
    if n > 1 { JudgedExtends(s, ticks, now, n - 1); }
  }

  // ---------------------------------------------------------------------
  // The authority
  // ---------------------------------------------------------------------

  predicate InterTickGapStarved(prevTick: Option<Instant>, now: Instant, threshold: Duration) {
    match prevTick
    case Some(prev) => Since(prev, now) > threshold
    case None => false
  }

  /** The five fields are the stated functions of the history. */
  ghost predicate Tracks(
    s: Settings, ticks: seq<Instant>, last: Option<Instant>, floor: Option<Instant>, judged: Duration,
    streak: Option<Instant>, chronic: bool)
  {
    && last == (if ticks == [] then None else Some(ticks[|ticks| - 1]))
    && IsFloor(s, ticks, floor)
    && judged == Judged(s, ticks, |ticks|)
    && (chronic <==> ticks != [] && Chronic(s, ticks, |ticks| - 1))
    && StreakMark(s, ticks, streak)
  }

  ghost predicate StreakMark(s: Settings, ticks: seq<Instant>, streak: Option<Instant>) {
    match streak
    case None => ticks != [] ==> !Starved(s, ticks, |ticks| - 1)
    case Some(t) => ticks != [] && exists lo: nat :: Opens(s, ticks, lo, |ticks| - 1) && ticks[lo] == t
  }

  class OwnTickHealth {
    const starvationThreshold: Duration
    const chronicAfter: Option<Duration>
    var lastTickAt: Option<Instant>
    var trustworthySince: Option<Instant>
    var judgedElapsed: Duration
    var starvedStreakSince: Option<Instant>
    var chronic: bool

    ghost var ticks: seq<Instant>

    ghost function S(): Settings {
      Settings(starvationThreshold, chronicAfter)
    }

    ghost predicate Valid()
      reads this
    {
      Tracks(S(), ticks, lastTickAt, trustworthySince, judgedElapsed, starvedStreakSince, chronic)
    }

    constructor (cadence: Duration, chronicAfter: Option<Duration>)
      ensures Valid() && ticks == []
      ensures starvationThreshold == SaturatingMul(cadence, STARVATION_TICK_MULTIPLE)
      ensures 3 * cadence < 18446744073709551616 * 1_000_000_000 ==> starvationThreshold == 3 * cadence
      ensures 3 * cadence >= 18446744073709551616 * 1_000_000_000 ==>
        starvationThreshold == 18446744073709551616 * 1_000_000_000 - 1
      ensures this.chronicAfter == chronicAfter
    {
      starvationThreshold := SaturatingMul(cadence, STARVATION_TICK_MULTIPLE);
      this.chronicAfter := chronicAfter;
      lastTickAt, trustworthySince, starvedStreakSince := None, None, None;
      judgedElapsed, chronic := 0, false;
      ticks := [];
    }

    /** Feeding a tick appends it to the history; the answer is that tick's verdict. */
    method ObserveTick(now: Instant) returns (defer: bool)
      requires Valid()
      modifies this
      ensures Valid() && ticks == old(ticks) + [now]
      ensures defer <==> Defers(S(), ticks, |ticks| - 1)
    {
      ghost var before := ticks;
      var gap := match lastTickAt case Some(prev) => Some(Since(prev, now)) case None => None;
      var starved := InterTickGapStarved(lastTickAt, now, starvationThreshold);
      NextTick(S(), before, now, lastTickAt, trustworthySince, judgedElapsed, starvedStreakSince, chronic);
      ticks := ticks + [now];
      lastTickAt := Some(now);
      if gap.Some? {
        judgedElapsed := judgedElapsed + Min(gap.value, starvationThreshold);
      }
      if !starved {
        starvedStreakSince := None;
        chronic := false;
        return false;
      }
      if starvedStreakSince.None? {
        starvedStreakSince := Some(now);
      }
      var streakSince := starvedStreakSince.value;
      chronic := chronicAfter.Some? && Since(streakSince, now) > chronicAfter.value;
      if !chronic {
        trustworthySince := Some(now);
      }
      return !chronic;
    }

    function JudgedElapsed(): (d: Duration)
      reads this
      requires Valid()
      ensures d == Judged(S(), ticks, |ticks|)
    {
      judgedElapsed
    }

    function InChronicStarvation(): (c: bool)
      reads this
      requires Valid()
      ensures c <==> ticks != [] && Chronic(S(), ticks, |ticks| - 1)
    {
      chronic
    }

    /** The anchor is raised to the last deferring tick and never lowered. */
    function TrustworthyAnchor(anchor: Instant): (r: Instant)
      reads this
      requires Valid()
      ensures r >= anchor
      ensures forall i: nat :: LastDefer(S(), ticks, i) ==> r == if ticks[i] > anchor then ticks[i] else anchor
      ensures (forall i :: 0 <= i < |ticks| ==> !Defers(S(), ticks, i)) ==> r == anchor
    {
      match trustworthySince
      case Some(floor) => if anchor < floor then floor else anchor
      case None => anchor
    }
  }

  lemma Carries(s: Settings, before: seq<Instant>, now: Instant)
    ensures forall i: nat :: i < |before| ==>
      Starved(s, before + [now], i) == Starved(s, before, i) && Defers(s, before + [now], i) == Defers(s, before, i)
  {
    forall i: nat | i < |before|
      ensures Starved(s, before + [now], i) == Starved(s, before, i) && Defers(s, before + [now], i) == Defers(s, before, i)
    {
      StarvedExtends(s, before, now, i);
      DefersExtends(s, before, now, i);
    }
  }

  lemma FloorStays(s: Settings, before: seq<Instant>, now: Instant, floor: Option<Instant>)
    requires IsFloor(s, before, floor) && !Defers(s, before + [now], |before|)
    ensures IsFloor(s, before + [now], floor)
  {
    Carries(s, before, now);
    if floor.Some? {
      var i: nat :| LastDefer(s, before, i) && before[i] == floor.value;
      assert LastDefer(s, before + [now], i);
    }
  }

  /** A starved tick either opens a streak or lengthens the current one. */
  lemma StreakGrows(s: Settings, before: seq<Instant>, now: Instant, streak: Option<Instant>)
    requires Starved(s, before + [now], |before|) && StreakMark(s, before, streak)
    ensures StreakMark(s, before + [now], Some(if streak.None? then now else streak.value))
  {
    Carries(s, before, now);
    var after := before + [now];
    if streak.None? {
      assert Opens(s, after, |before|, |before|);
    } else {
      var lo: nat :| Opens(s, before, lo, |before| - 1) && before[lo] == streak.value;
      assert Opens(s, after, lo, |before|) && after[lo] == streak.value;
    }
  }

  /** One tick: what the fields must become, and what the verdict must be. */
  lemma NextTick(
    s: Settings, ticks: seq<Instant>, now: Instant, last: Option<Instant>, floor: Option<Instant>, judged: Duration,
    streak: Option<Instant>, chronic: bool)
    requires Tracks(s, ticks, last, floor, judged, streak, chronic)
    ensures var after := ticks + [now];
            var judged' := judged + if last.Some? then Min(Since(last.value, now), s.threshold) else 0;
            var start := if streak.None? then now else streak.value;
            var chronic' := s.chronicAfter.Some? && Since(start, now) > s.chronicAfter.value;
            if !InterTickGapStarved(last, now, s.threshold) then
              Tracks(s, after, Some(now), floor, judged', None, false) && !Defers(s, after, |ticks|)
            else
              && Tracks(s, after, Some(now), if chronic' then floor else Some(now), judged', Some(start), chronic')
              && (Defers(s, after, |ticks|) <==> !chronic')
  {
    var after := ticks + [now];
    var i := |ticks|;
    JudgedExtends(s, ticks, now, i);
    assert InterTickGapStarved(last, now, s.threshold) <==> Starved(s, after, i);
    if Starved(s, after, i) {
      StreakGrows(s, ticks, now, streak);
      var lo: nat :| Opens(s, after, lo, i) && after[lo] == if streak.None? then now else streak.value;
      ChronicByStart(s, after, lo, i);
      if Defers(s, after, i) { assert LastDefer(s, after, i); }
    }
    if !Defers(s, after, i) { FloorStays(s, ticks, now, floor); }
  }

  lemma ChronicByStart(s: Settings, ticks: seq<Instant>, lo: nat, i: nat)
    requires i < |ticks| && Opens(s, ticks, lo, i)
    ensures Chronic(s, ticks, i) <==> s.chronicAfter.Some? && Since(ticks[lo], ticks[i]) > s.chronicAfter.value
  {
  }
}
