/**
 Per-iteration accounting of an operational loop
 (crates/dynrunner-manager-distributed/src/oploop_instrumentation.rs).

 The timing cursor has a single writer, so the block is a sequential object.
 `ops` is the ghost history of its calls; `Valid` says every counter is the
 stated function of that history.  Time accumulators wrap at 64 bits, as the
 atomics do; event counters are unbounded.
 */
module OpLoopStats {
  import opened Wrappers

  type Instant = int
  type Millis = nat

  const U64: nat := 0x1_0000_0000_0000_0000

  const STARVATION_WARN_ITER_THRESHOLD: nat := 10_000
  const STARVATION_WARN_MIN_ELAPSED: Millis := 30_000
  const STARVATION_WARN_COOLDOWN: Millis := 30_000
  const STATS_LINE_INTERVAL: Millis := 120_000

  datatype Op =
    | Begin(at: Instant)
    | Record(at: Instant, arm: nat, now: Millis)

  function Since(earlier: Instant, later: Instant): nat {
    if later < earlier then 0 else later - earlier
  }

  function Minus(a: nat, b: nat): nat {
    if a < b then 0 else a - b
  }

  // ---------------------------------------------------------------------
  // What a history of calls means
  // ---------------------------------------------------------------------

  function Front(ops: seq<Op>): seq<Op>
    requires ops != []
  {
    ops[..|ops| - 1]
  }

  function Final(ops: seq<Op>): Op
    requires ops != []
  {
    ops[|ops| - 1]
  }

  /** Time from each select to the win that immediately followed it. */
  function IdleTime(ops: seq<Op>): nat {
    if |ops| < 2 then 0
    else IdleTime(Front(ops)) +
         if Final(ops).Record? && Final(Front(ops)).Begin? then Since(Final(Front(ops)).at, Final(ops).at) else 0
  }

  /** Time from each win of `arm` to the select that immediately followed it. */
  function BodyTime(ops: seq<Op>, arm: nat): nat {
    if |ops| < 2 then 0
    else BodyTime(Front(ops), arm) +
         if Final(ops).Begin? && Final(Front(ops)).Record? && Final(Front(ops)).arm == arm
         then Since(Final(Front(ops)).at, Final(ops).at) else 0
  }

  /** Time between neighbouring calls that no accumulator receives: two selects,
      two wins, or a win of an unknown arm. */
  function LostTime(ops: seq<Op>, arms: nat): nat {
    if |ops| < 2 then 0
    else
      var a, b := Final(Front(ops)), Final(ops);
      LostTime(Front(ops), arms) +
      if (a.Begin? && b.Record?) || (a.Record? && b.Begin? && a.arm < arms) then 0 else Since(a.at, b.at)
  }

  function Wins(ops: seq<Op>, arm: nat): nat {
    if ops == [] then 0 else Wins(Front(ops), arm) + if Final(ops).Record? && Final(ops).arm == arm then 1 else 0
  }

  function Records(ops: seq<Op>): nat {
    if ops == [] then 0 else Records(Front(ops)) + if Final(ops).Record? then 1 else 0
  }

  /** Records after the last win of the inbox arm. */
  function SinceInbox(ops: seq<Op>, inbox: nat): nat {
    if ops == [] then 0
    else if Final(ops).Begin? then SinceInbox(Front(ops), inbox)
    else if Final(ops).arm == inbox then 0
    else SinceInbox(Front(ops), inbox) + 1
  }

  /** The clock at the last inbox win, or at construction. */
  function InboxClock(ops: seq<Op>, inbox: nat, born: Millis): Millis {
    if ops == [] then born
    else if Final(ops).Record? && Final(ops).arm == inbox then Final(ops).now
    else InboxClock(Front(ops), inbox, born)
  }

  /** Who won last; zero before anybody did. */
  function LastWinner(ops: seq<Op>): nat {
    if ops == [] then 0 else if Final(ops).Record? then Final(ops).arm else LastWinner(Front(ops))
  }

  lemma {:induction false} SinceInboxBounded(ops: seq<Op>, inbox: nat)
    ensures SinceInbox(ops, inbox) <= Records(ops)
  {
    if ops != [] { SinceInboxBounded(Front(ops), inbox); }
  }

  ghost predicate IsWin(ops: seq<Op>, arm: nat, i: int) {
    0 <= i < |ops| && ops[i].Record? && ops[i].arm == arm
  }

  ghost function WinsIn(ops: seq<Op>, arm: nat): set<int> {
    set i | 0 <= i < |ops| && IsWin(ops, arm, i)
  }

  lemma OneMoreWin(ops: seq<Op>, arm: nat)
    requires ops != []
    ensures WinsIn(ops, arm) == WinsIn(Front(ops), arm) + if IsWin(ops, arm, |ops| - 1) then {|ops| - 1} else {}
    ensures |ops| - 1 !in WinsIn(Front(ops), arm)
  {
    forall i | 0 <= i < |ops| - 1 ensures IsWin(ops, arm, i) <==> IsWin(Front(ops), arm, i) {
    }
  }

  /** A win is counted for each record of its arm, and for nothing else. */
  lemma {:induction false} WinsAreRecords(ops: seq<Op>, arm: nat)
    ensures Wins(ops, arm) == |WinsIn(ops, arm)|
  {
    if ops != [] {
      WinsAreRecords(Front(ops), arm);
      OneMoreWin(ops, arm);
    }
  }

  lemma {:induction false} RecordsAreCounted(ops: seq<Op>)
    ensures Records(ops) == |set i | 0 <= i < |ops| && ops[i].Record?|
  {
    if ops != [] {
      var front, n := Front(ops), |ops| - 1;
      RecordsAreCounted(front);
      var before := set i | 0 <= i < n && front[i].Record?;
      assert (set i | 0 <= i < |ops| && ops[i].Record?) == if ops[n].Record? then before + {n} else before;
    }
  }

  /** An arm is charged for nothing that happened while it was not running. */
  lemma {:induction false} OnlyWinnersAreCharged(ops: seq<Op>, arm: nat)
    requires forall i :: !IsWin(ops, arm, i)
    ensures BodyTime(ops, arm) == 0
  {
    if |ops| >= 2 {
      forall i ensures !IsWin(Front(ops), arm, i) {
        assert !IsWin(ops, arm, i);
      }
      OnlyWinnersAreCharged(Front(ops), arm);
      assert !IsWin(ops, arm, |ops| - 2);
    }
  }

  /** No win among calls `lo` and later. */
  ghost predicate NoWinFrom(ops: seq<Op>, arm: nat, lo: int) {
    forall i :: lo <= i ==> !IsWin(ops, arm, i)
  }

  lemma NoWinInFront(ops: seq<Op>, arm: nat, lo: int)
    requires ops != [] && NoWinFrom(ops, arm, lo)
    ensures NoWinFrom(Front(ops), arm, lo)
  {
    forall i | lo <= i ensures !IsWin(Front(ops), arm, i) {
      assert !IsWin(ops, arm, i);
    }
  }

  /** While the inbox never won, everything counts since the beginning. */
  lemma {:induction false} NoInboxWinYet(ops: seq<Op>, inbox: nat, born: Millis)
    requires NoWinFrom(ops, inbox, 0)
    ensures SinceInbox(ops, inbox) == Records(ops) && InboxClock(ops, inbox, born) == born
  {
    if ops != [] {
      NoWinInFront(ops, inbox, 0);
      NoInboxWinYet(Front(ops), inbox, born);
      assert !IsWin(ops, inbox, |ops| - 1);
    }
  }

  /** After its last win, at call `k`: the records since then, and the clock of then. */
  lemma {:induction false} LastInboxWin(ops: seq<Op>, inbox: nat, born: Millis, k: nat)
    requires IsWin(ops, inbox, k) && NoWinFrom(ops, inbox, k + 1)
    ensures SinceInbox(ops, inbox) + Records(ops[..k + 1]) == Records(ops) && InboxClock(ops, inbox, born) == ops[k].now
    decreases |ops|
  {
    if k == |ops| - 1 {
      assert ops[..k + 1] == ops;
    } else {
      NoWinInFront(ops, inbox, k + 1);
      LastInboxWin(Front(ops), inbox, born, k);
      assert Front(ops)[..k + 1] == ops[..k + 1] && !IsWin(ops, inbox, |ops| - 1);
    }
  }

  predicate StarvationWarnDue(sinceInbox: nat, inboxIdle: Millis, lastWarnAt: Millis, now: Millis) {
    && sinceInbox >= STARVATION_WARN_ITER_THRESHOLD
    && inboxIdle >= STARVATION_WARN_MIN_ELAPSED
    && (lastWarnAt == 0 || Minus(now, lastWarnAt) >= STARVATION_WARN_COOLDOWN)
  }

  // ---------------------------------------------------------------------
  // The cadence of what is emitted
  // ---------------------------------------------------------------------

  function LastOr(times: seq<Millis>, none: Millis): Millis {
    if times == [] then none else times[|times| - 1]
  }

  /** Neighbouring emissions are at least `gap` apart. */
  ghost predicate Paced(times: seq<Millis>, gap: Millis) {
    forall i :: 0 < i < |times| ==> times[i] - times[i - 1] >= gap
  }

  /** What the warnings of a block always look like: none in the first half minute of
      its clock, and each a cooldown after the one before. */
  ghost predicate WarningsPaced(warns: seq<Millis>) {
    Paced(warns, STARVATION_WARN_COOLDOWN)
    && forall i :: 0 <= i < |warns| ==> warns[i] >= STARVATION_WARN_MIN_ELAPSED
  }

  /** A due warning keeps that shape on every clock, steps back and a reading of zero
      included: the idle gate itself keeps the clock from being zero at a warning. */
  lemma DueWarningIsPaced(warns: seq<Millis>, sinceInbox: nat, inboxAt: Millis, now: Millis)
    requires WarningsPaced(warns) && StarvationWarnDue(sinceInbox, Minus(now, inboxAt), LastOr(warns, 0), now)
    ensures WarningsPaced(warns + [now])
  {
  }

  /** A warning is due exactly when ten thousand wins and half a minute have gone by without
      the inbox, and half a minute since the last warning, if there was one. */
  lemma WarnDueExactly(warns: seq<Millis>, sinceInbox: nat, inboxAt: Millis, now: Millis)
    requires WarningsPaced(warns)
    ensures StarvationWarnDue(sinceInbox, Minus(now, inboxAt), LastOr(warns, 0), now) <==>
            sinceInbox >= 10_000 && now - inboxAt >= 30_000
            && (warns == [] || now - warns[|warns| - 1] >= 30_000)
  {
  }

  /** So `n` further warnings take `n` cooldowns. */
  lemma {:induction false} WarningsAreSpaced(warns: seq<Millis>, i: nat, j: nat)
    requires WarningsPaced(warns) && i <= j < |warns|
    ensures warns[j] - warns[i] >= (j - i) * STARVATION_WARN_COOLDOWN
    decreases j
  {
    if i < j {
      WarningsAreSpaced(warns, i, j - 1);
    }
  }

  // ---------------------------------------------------------------------
  // The stats block
  // ---------------------------------------------------------------------

  ghost predicate Counted(ops: seq<Op>, arms: nat, counts: seq<nat>) {
    |counts| == arms && forall a :: 0 <= a < arms ==> counts[a] == Wins(ops, a)
  }

  ghost predicate Timed(ops: seq<Op>, arms: nat, nanos: seq<nat>) {
    |nanos| == arms && forall a :: 0 <= a < arms ==> nanos[a] == BodyTime(ops, a) % U64
  }

  /** The time side: accumulators and cursor. */
  ghost predicate Clocked(
    ops: seq<Op>, arms: nat, nanos: seq<nat>, idle: nat, enter: Option<Instant>, running: Option<(nat, Instant)>)
  {
    && Timed(ops, arms, nanos)
    && idle == IdleTime(ops) % U64
    && enter == (if ops != [] && Final(ops).Begin? then Some(Final(ops).at) else None)
    && running == (if ops != [] && Final(ops).Record? then Some((Final(ops).arm, Final(ops).at)) else None)
  }

  /** The event side: counts and the inbox marks. */
  ghost predicate Tallied(
    ops: seq<Op>, arms: nat, inbox: nat, born: Millis, iter: nat, counts: seq<nat>, atInbox: nat, inboxAt: Millis)
  {
    && Counted(ops, arms, counts)
    && iter == Records(ops)
    && atInbox + SinceInbox(ops, inbox) == iter
    && inboxAt == InboxClock(ops, inbox, born)
  }

  lemma ClockedRecord(
    ops: seq<Op>, op: Op, arms: nat, nanos: seq<nat>, idle: nat, enter: Option<Instant>, running: Option<(nat, Instant)>)
    requires Clocked(ops, arms, nanos, idle, enter, running) && op.Record?
    ensures Clocked(ops + [op], arms, nanos,
                    if enter.Some? then (idle + Since(enter.value, op.at)) % U64 else idle, None, Some((op.arm, op.at)))
  {
    Appended(ops, op, 0, 0);
    TimedNext(ops, op, arms, nanos);
    if enter.Some? { WrapAdd(IdleTime(ops), Since(enter.value, op.at)); }
  }

  lemma ClockedBegin(
    ops: seq<Op>, op: Op, arms: nat, nanos: seq<nat>, idle: nat, enter: Option<Instant>, running: Option<(nat, Instant)>)
    requires Clocked(ops, arms, nanos, idle, enter, running) && op.Begin?
    ensures running.Some? && running.value.0 < arms ==>
      var (arm, start) := running.value;
      Clocked(ops + [op], arms, nanos[arm := (nanos[arm] + Since(start, op.at)) % U64], idle, Some(op.at), None)
    ensures !(running.Some? && running.value.0 < arms) ==> Clocked(ops + [op], arms, nanos, idle, Some(op.at), None)
  {
    Appended(ops, op, 0, 0);
    TimedNext(ops, op, arms, nanos);
  }

  lemma TalliedNext(
    ops: seq<Op>, op: Op, arms: nat, inbox: nat, born: Millis, iter: nat, counts: seq<nat>, atInbox: nat, inboxAt: Millis)
    requires Tallied(ops, arms, inbox, born, iter, counts, atInbox, inboxAt)
    ensures op.Begin? ==> Tallied(ops + [op], arms, inbox, born, iter, counts, atInbox, inboxAt)
    ensures op.Record? ==>
      Tallied(ops + [op], arms, inbox, born, iter + 1,
              if op.arm < arms then counts[op.arm := counts[op.arm] + 1] else counts,
              if op.arm == inbox then iter + 1 else atInbox,
              if op.arm == inbox then op.now else inboxAt)
  {
    Appended(ops, op, inbox, born);
    CountedNext(ops, op, arms, counts);
    SinceInboxBounded(ops, inbox);
  }

  lemma WrapAdd(total: nat, dur: nat)
    ensures (total % U64 + dur) % U64 == (total + dur) % U64
  {
    var q := total / U64;
    assert total == q * U64 + total % U64;
    var x := total % U64 + dur;
    assert total + dur == q * U64 + x;
    assert (q * U64 + x) % U64 == x % U64;
  }

  lemma CountedNext(ops: seq<Op>, op: Op, arms: nat, counts: seq<nat>)
    requires Counted(ops, arms, counts)
    ensures Counted(ops + [op], arms,
                    if op.Record? && op.arm < arms then counts[op.arm := counts[op.arm] + 1] else counts)
  {
    forall a: nat | a < arms ensures Wins(ops + [op], a) == Wins(ops, a) + if op.Record? && op.arm == a then 1 else 0 {
      ArmAppended(ops, op, a);
    }
  }

  lemma TimedNext(ops: seq<Op>, op: Op, arms: nat, nanos: seq<nat>)
    requires Timed(ops, arms, nanos)
    ensures op.Begin? && ops != [] && Final(ops).Record? && Final(ops).arm < arms ==>
      var arm := Final(ops).arm;
      Timed(ops + [op], arms, nanos[arm := (nanos[arm] + Since(Final(ops).at, op.at)) % U64])
    ensures !(op.Begin? && ops != [] && Final(ops).Record? && Final(ops).arm < arms) ==> Timed(ops + [op], arms, nanos)
  {
    forall a: nat | a < arms
      ensures BodyTime(ops + [op], a) == BodyTime(ops, a) +
        if op.Begin? && ops != [] && Final(ops).Record? && Final(ops).arm == a then Since(Final(ops).at, op.at) else 0
    {
      ArmAppended(ops, op, a);
    }
    if op.Begin? && ops != [] && Final(ops).Record? && Final(ops).arm < arms {
      WrapAdd(BodyTime(ops, Final(ops).arm), Since(Final(ops).at, op.at));
    }
  }

  class OpLoopArmStats {
    const arms: nat
    const inboxArm: nat
    const born: Millis
    var iter: nat
    var counts: seq<nat>
    var armNanos: seq<nat>
    var idleNanos: nat
    var selectEnter: Option<Instant>
    var running: Option<(nat, Instant)>
    var lastArm: nat
    var iterAtLastInbox: nat
    var inboxAtMillis: Millis
    var lastWarnAtMillis: Millis
    var lastStatsAtMillis: Millis

    ghost var ops: seq<Op>
    ghost var warns: seq<Millis>
    ghost var lines: seq<Millis>

    ghost predicate Valid()
      reads this
    {
      && inboxArm < arms
      && Clocked(ops, arms, armNanos, idleNanos, selectEnter, running)
      && Tallied(ops, arms, inboxArm, born, iter, counts, iterAtLastInbox, inboxAtMillis)
      && lastArm == LastWinner(ops)
      && lastWarnAtMillis == LastOr(warns, 0) && WarningsPaced(warns)
      && lastStatsAtMillis == LastOr(lines, born) && Paced(lines, STATS_LINE_INTERVAL)
    }

    constructor (arms: nat, inboxArm: nat, now: Millis)
      requires inboxArm < arms
      ensures Valid() && ops == [] && warns == [] && lines == []
      ensures this.arms == arms && this.inboxArm == inboxArm && born == now
    {
      this.arms, this.inboxArm, born := arms, inboxArm, now;
      iter, idleNanos, lastArm, iterAtLastInbox := 0, 0, 0, 0;
      counts := seq(arms, _ => 0);
      armNanos := seq(arms, _ => 0);
      selectEnter, running := None, None;
      inboxAtMillis, lastWarnAtMillis, lastStatsAtMillis := now, 0, now;
      ops, warns, lines := [], [], [];
    }

    /** Closes the running arm's body and opens the idle window. */
    method BeginSelect(now: Instant)
      requires Valid()
      modifies this
      ensures Valid() && ops == old(ops) + [Begin(now)] && warns == old(warns) && lines == old(lines)
    {
      Appended(ops, Begin(now), inboxArm, born);
      ClockedBegin(ops, Begin(now), arms, armNanos, idleNanos, selectEnter, running);
      TalliedNext(ops, Begin(now), arms, inboxArm, born, iter, counts, iterAtLastInbox, inboxAtMillis);
      if running.Some? {
        var (arm, start) := running.value;
        RecordArmTime(arm, Since(start, now));
      }
      running := None;
      selectEnter := Some(now);
      ops := ops + [Begin(now)];
    }

    method RecordArmTime(arm: nat, dur: nat)
      requires |armNanos| == arms
      modifies this`armNanos
      ensures armNanos == if arm < arms then old(armNanos)[arm := (old(armNanos)[arm] + dur) % U64] else old(armNanos)
    {
      if arm < arms {
        armNanos := armNanos[arm := (armNanos[arm] + dur) % U64];
      }
    }

    /** Closes the idle window, counts the win, and runs the emit cadence. */
    method RecordAt(arm: nat, at: Instant, now: Millis)
      requires Valid()
      modifies this
      ensures Valid() && ops == old(ops) + [Record(at, arm, now)]
      ensures warns == old(warns) +
        if SinceInbox(ops, inboxArm) >= 10_000 && now - InboxClock(ops, inboxArm, born) >= 30_000
           && (old(warns) == [] || now - LastOr(old(warns), 0) >= 30_000) then [now] else []
      ensures lines == old(lines) + if now - LastOr(old(lines), born) >= 120_000 then [now] else []
    {
      CountWin(arm, at, now);
      MaybeEmit(now);
    }

    method CountWin(arm: nat, at: Instant, now: Millis)
      requires Valid()
      modifies this
      ensures Valid() && ops == old(ops) + [Record(at, arm, now)] && warns == old(warns) && lines == old(lines)
    {
      ghost var op := Record(at, arm, now);
      Appended(ops, op, inboxArm, born);
      ClockedRecord(ops, op, arms, armNanos, idleNanos, selectEnter, running);
      TalliedNext(ops, op, arms, inboxArm, born, iter, counts, iterAtLastInbox, inboxAtMillis);
      CloseIdle(arm, at);
      TallyWin(arm, now);
      ops := ops + [op];
    }

    /** The cursor: the idle window since the last select ends, the arm's body begins. */
    method CloseIdle(arm: nat, at: Instant)
      modifies this`idleNanos, this`selectEnter, this`running
      ensures selectEnter == None && running == Some((arm, at))
      ensures idleNanos ==
        if old(selectEnter).Some? then (old(idleNanos) + Since(old(selectEnter).value, at)) % U64 else old(idleNanos)
    {
      if selectEnter.Some? {
        idleNanos := (idleNanos + Since(selectEnter.value, at)) % U64;
      }
      selectEnter := None;
      running := Some((arm, at));
    }

    method TallyWin(arm: nat, now: Millis)
      requires |counts| == arms
      modifies this`iter, this`counts, this`lastArm, this`iterAtLastInbox, this`inboxAtMillis
      ensures iter == old(iter) + 1 && lastArm == arm
      ensures counts == if arm < arms then old(counts)[arm := old(counts)[arm] + 1] else old(counts)
      ensures iterAtLastInbox == if arm == inboxArm then iter else old(iterAtLastInbox)
      ensures inboxAtMillis == if arm == inboxArm then now else old(inboxAtMillis)
    {
      iter := iter + 1;
      if arm < arms {
        counts := counts[arm := counts[arm] + 1];
      }
      lastArm := arm;
      if arm == inboxArm {
        iterAtLastInbox := iter;
        inboxAtMillis := now;
      }
    }

    method MaybeEmit(now: Millis)
      requires Valid()
      modifies this`lastStatsAtMillis, this`lastWarnAtMillis, this`warns, this`lines
      ensures Valid()
      ensures warns == old(warns) +
        if SinceInbox(ops, inboxArm) >= 10_000 && now - InboxClock(ops, inboxArm, born) >= 30_000
           && (old(warns) == [] || now - LastOr(old(warns), 0) >= 30_000) then [now] else []
      ensures lines == old(lines) + if now - LastOr(old(lines), born) >= 120_000 then [now] else []
    {
      MaybeStatsLine(now);
      SinceInboxBounded(ops, inboxArm);
      MaybeWarn(now);
    }

    method MaybeStatsLine(now: Millis)
      requires lastStatsAtMillis == LastOr(lines, born) && Paced(lines, STATS_LINE_INTERVAL)
      modifies this`lastStatsAtMillis, this`lines
      ensures lastStatsAtMillis == LastOr(lines, born) && Paced(lines, STATS_LINE_INTERVAL)
      ensures lines == old(lines) + if now - LastOr(old(lines), born) >= 120_000 then [now] else []
    {
      if Minus(now, lastStatsAtMillis) >= STATS_LINE_INTERVAL {
        lastStatsAtMillis := now;
        lines := lines + [now];
      }
    }

    method MaybeWarn(now: Millis)
      requires iterAtLastInbox <= iter && lastWarnAtMillis == LastOr(warns, 0) && WarningsPaced(warns)
      modifies this`lastWarnAtMillis, this`warns
      ensures lastWarnAtMillis == LastOr(warns, 0) && WarningsPaced(warns)
      ensures warns == old(warns) +
        if iter - iterAtLastInbox >= 10_000 && now - inboxAtMillis >= 30_000
           && (old(warns) == [] || now - LastOr(old(warns), 0) >= 30_000) then [now] else []
    {
      var sinceInbox := Minus(iter, iterAtLastInbox);
      var inboxIdle := Minus(now, inboxAtMillis);
      WarnDueExactly(warns, sinceInbox, inboxAtMillis, now);
      if StarvationWarnDue(sinceInbox, inboxIdle, lastWarnAtMillis, now) {
        DueWarningIsPaced(warns, sinceInbox, inboxAtMillis, now);
        lastWarnAtMillis := now;
        warns := warns + [now];
      }
    }
  }

  /** How each function of the history grows by one call. */
  lemma Appended(ops: seq<Op>, op: Op, inbox: nat, born: Millis)
    ensures var after := ops + [op];
            && Final(after) == op
            && IdleTime(after) == IdleTime(ops) +
                 (if op.Record? && ops != [] && Final(ops).Begin? then Since(Final(ops).at, op.at) else 0)
            && Records(after) == Records(ops) + (if op.Record? then 1 else 0)
            && LastWinner(after) == (if op.Record? then op.arm else LastWinner(ops))
            && SinceInbox(after, inbox) ==
                 (if op.Begin? then SinceInbox(ops, inbox) else if op.arm == inbox then 0 else SinceInbox(ops, inbox) + 1)
            && InboxClock(after, inbox, born) ==
                 (if op.Record? && op.arm == inbox then op.now else InboxClock(ops, inbox, born))
  {
    assert Front(ops + [op]) == ops;
  }

  lemma ArmAppended(ops: seq<Op>, op: Op, a: nat)
    ensures BodyTime(ops + [op], a) == BodyTime(ops, a) +
      if op.Begin? && ops != [] && Final(ops).Record? && Final(ops).arm == a then Since(Final(ops).at, op.at) else 0
    ensures Wins(ops + [op], a) == Wins(ops, a) + if op.Record? && op.arm == a then 1 else 0
  {
    assert Front(ops + [op]) == ops;
  }

  /** One more call: the time since the call before goes to the idle window it closes or to
      the arm whose body it closes, in full; a clock that went back adds nothing. */
  lemma GapsGoWhereTheyBelong(ops: seq<Op>, op: Op, arm: nat)
    requires ops != []
    ensures var (last, gap) := (Final(ops), op.at - Final(ops).at);
            var (idle, body) := (IdleTime(ops + [op]) - IdleTime(ops), BodyTime(ops + [op], arm) - BodyTime(ops, arm));
            && (idle == if last.Begin? && op.Record? && gap > 0 then gap else 0)
            && (body == if last.Record? && last.arm == arm && op.Begin? && gap > 0 then gap else 0)
  {
    Appended(ops, op, 0, 0);
    ArmAppended(ops, op, arm);
  }

  // ---------------------------------------------------------------------
  // Conservation of time
  // ---------------------------------------------------------------------

  predicate NonDecreasing(ops: seq<Op>) {
    forall i, j :: 0 <= i <= j < |ops| ==> ops[i].at <= ops[j].at
  }

  /** The body times of all known arms together. */
  function BusyTime(ops: seq<Op>, arms: nat): nat {
    if arms == 0 then 0 else BusyTime(ops, arms - 1) + BodyTime(ops, arms - 1)
  }

  lemma {:induction false} BusyGrows(ops: seq<Op>, arms: nat)
    requires |ops| >= 2
    ensures BusyTime(ops, arms) == BusyTime(Front(ops), arms) +
      if Final(ops).Begin? && Final(Front(ops)).Record? && Final(Front(ops)).arm < arms
      then Since(Final(Front(ops)).at, Final(ops).at) else 0
  {
    if arms > 0 { BusyGrows(ops, arms - 1); }
  }

  /** Every nanosecond between the first call and the last is idle time, some
      known arm's body time, or lost to a missing transition. */
  lemma {:induction false} TimeIsConserved(ops: seq<Op>, arms: nat)
    requires ops != [] && NonDecreasing(ops)
    ensures IdleTime(ops) + BusyTime(ops, arms) + LostTime(ops, arms) == Final(ops).at - ops[0].at
  {
    if |ops| >= 2 {
      TimeIsConserved(Front(ops), arms);
      BusyGrows(ops, arms);
    } else {
      NothingYet(ops, arms);
    }
  }

  lemma {:induction false} NothingYet(ops: seq<Op>, arms: nat)
    requires |ops| < 2
    ensures BusyTime(ops, arms) == 0
  {
    if arms > 0 { NothingYet(ops, arms - 1); }
  }

  /** Selects and in-range wins strictly alternate. */
  predicate Alternates(ops: seq<Op>, arms: nat) {
    && (forall i :: 0 <= i < |ops| - 1 ==> ops[i].Begin? != ops[i + 1].Begin?)
    && (forall i :: 0 <= i < |ops| && ops[i].Record? ==> ops[i].arm < arms)
  }

  lemma {:induction false} AlternationLosesNothing(ops: seq<Op>, arms: nat)
    requires Alternates(ops, arms)
    ensures LostTime(ops, arms) == 0
  {
    if |ops| >= 2 {
      AlternationLosesNothing(Front(ops), arms);
    }
  }

  /** The source's law "idle plus all arm times is wall time": exact whenever
      the loop calls in alternation, and never exceeded otherwise. */
  lemma AccountedTime(ops: seq<Op>, arms: nat)
    requires ops != [] && NonDecreasing(ops)
    ensures IdleTime(ops) + BusyTime(ops, arms) <= Final(ops).at - ops[0].at
    ensures Alternates(ops, arms) ==> IdleTime(ops) + BusyTime(ops, arms) == Final(ops).at - ops[0].at
    ensures IdleTime(ops) + BusyTime(ops, arms) == Final(ops).at - ops[0].at <==> LostTime(ops, arms) == 0
  {
    TimeIsConserved(ops, arms);
    if Alternates(ops, arms) { AlternationLosesNothing(ops, arms); }
  }

  function Sum(s: seq<nat>): nat {
    if s == [] then 0 else Sum(s[..|s| - 1]) + s[|s| - 1]
  }

  lemma {:induction false} AccumulatorsSum(ops: seq<Op>, nanos: seq<nat>)
    requires forall a :: 0 <= a < |nanos| ==> nanos[a] == BodyTime(ops, a)
    ensures Sum(nanos) == BusyTime(ops, |nanos|)
  {
    if nanos != [] { AccumulatorsSum(ops, nanos[..|nanos| - 1]); }
  }

  lemma {:induction false} BodyWithinBusy(ops: seq<Op>, arm: nat, arms: nat)
    requires arm < arms
    ensures BodyTime(ops, arm) <= BusyTime(ops, arms)
  {
    if arm < arms - 1 { BodyWithinBusy(ops, arm, arms - 1); }
  }

  /** Read off the block itself: as long as less than 2^64 nanoseconds have
      passed, the accumulators have not wrapped and add up to no more than the
      elapsed time, exactly so under alternation. */
  method CheckBooks(stats: OpLoopArmStats) returns (total: nat)
    requires stats.Valid() && stats.ops != [] && NonDecreasing(stats.ops)
    requires Final(stats.ops).at - stats.ops[0].at < U64
    ensures total == stats.idleNanos + Sum(stats.armNanos)
    ensures total <= Final(stats.ops).at - stats.ops[0].at
    ensures Alternates(stats.ops, stats.arms) ==> total == Final(stats.ops).at - stats.ops[0].at
  {
    AccountedTime(stats.ops, stats.arms);
    forall a | 0 <= a < stats.arms ensures stats.armNanos[a] == BodyTime(stats.ops, a) {
      BodyWithinBusy(stats.ops, a, stats.arms);
    }
    AccumulatorsSum(stats.ops, stats.armNanos);
    total := stats.idleNanos + Sum(stats.armNanos);
  }
}
