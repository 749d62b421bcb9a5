/**
 The task ledger over whole runs: any sequence of joins into any slots, with the resumes
 and cascades they cause in others, and of the authoritative rewrites.
 */
module LedgerRuns {
  import LexOrder
  import opened TaskJoin
  import opened TaskJoinTheorems
  import opened LedgerSteps

  /** The ledger of a fresh node after its first `n` steps. */
  ghost function After(hasher: Hasher, run: seq<Step>, n: nat): Ledger
    requires n <= |run|
  {
    if n == 0 then map[] else Next(hasher, After(hasher, run, n - 1), run[n - 1])
  }

  lemma {:induction false} PrefixLedger(hasher: Hasher, run: seq<Step>, m: nat, n: nat)
    requires n <= m <= |run|
    ensures After(hasher, run[..m], n) == After(hasher, run, n)
    decreases n
  {
    if n > 0 { PrefixLedger(hasher, run, m, n - 1); }
  }

  lemma AfterTheLast(hasher: Hasher, run: seq<Step>)
    requires run != []
    ensures var n := |run| - 1;
            After(hasher, run, |run|) == Next(hasher, After(hasher, run[..n], n), run[n])
  {
    PrefixLedger(hasher, run, |run| - 1, |run| - 1);
  }

  // ---------------------------------------------------------------------
  // What a run undoes
  // ---------------------------------------------------------------------

  ghost predicate HeldThroughout(hasher: Hasher, run: seq<Step>, m: nat, n: nat, h: Hash, x: TaskState)
    requires n <= |run|
  {
    forall k: nat :: m <= k <= n ==> AtLeast(hasher, After(hasher, run, k), h, x)
  }

  ghost predicate LoweredAt(hasher: Hasher, run: seq<Step>, k: nat, h: Hash, x: TaskState)
    requires k < |run|
  {
    Lowers(After(hasher, run, k), run[k], h, x.attempt, Terminal(x))
  }

  /** No step from `m` on takes the slot of `h` below `x`. */
  ghost predicate NeverLowered(hasher: Hasher, run: seq<Step>, m: nat, n: nat, h: Hash, x: TaskState)
    requires n <= |run|
  {
    forall k: nat :: m <= k < n ==> !LoweredAt(hasher, run, k, h, x)
  }

  lemma RunStepKeepsFloorExactly(hasher: Hasher, run: seq<Step>, k: nat, h: Hash, x: TaskState)
    requires k < |run| && Lasting(x) && AtLeast(hasher, After(hasher, run, k), h, x)
    ensures AtLeast(hasher, After(hasher, run, k + 1), h, x) <==> !LoweredAt(hasher, run, k, h, x)
  {
    StepKeepsFloorExactly(hasher, After(hasher, run, k), run[k], h, x);
  }

  lemma {:induction false} FloorLasts(hasher: Hasher, run: seq<Step>, m: nat, n: nat, h: Hash, x: TaskState)
    requires m <= n <= |run| && Lasting(x) && AtLeast(hasher, After(hasher, run, m), h, x)
    requires NeverLowered(hasher, run, m, n, h, x)
    ensures AtLeast(hasher, After(hasher, run, n), h, x)
    decreases n
  {
    if m < n {
      var k := n - 1;
      FloorLasts(hasher, run, m, k, h, x);
      assert !LoweredAt(hasher, run, k, h, x);
      RunStepKeepsFloorExactly(hasher, run, k, h, x);
    }
  }

  /** From any point of any run, a lasting floor of a slot stays one exactly as long as no
      step lowers it: a reinjection of the very attempt, or a retry that names an attempt
      no later. */
  lemma FloorsLastExactly(hasher: Hasher, run: seq<Step>, m: nat, n: nat, h: Hash, x: TaskState)
    requires m <= n <= |run| && Lasting(x) && AtLeast(hasher, After(hasher, run, m), h, x)
    ensures HeldThroughout(hasher, run, m, n, h, x) <==> NeverLowered(hasher, run, m, n, h, x)
  {
    if NeverLowered(hasher, run, m, n, h, x) {
      forall k: nat | m <= k <= n ensures AtLeast(hasher, After(hasher, run, k), h, x) {
        FloorLasts(hasher, run, m, k, h, x);
      }
    } else {
      var k: nat :| m <= k < n && LoweredAt(hasher, run, k, h, x);
      if AtLeast(hasher, After(hasher, run, k), h, x) {
        RunStepKeepsFloorExactly(hasher, run, k, h, x);
        assert !AtLeast(hasher, After(hasher, run, k + 1), h, x);
      }
    }
  }

  lemma JoinedIsHeld(hasher: Hasher, run: seq<Step>, i: nat)
    requires i < |run| && run[i].Joins?
    ensures AtLeast(hasher, After(hasher, run, i + 1), run[i].d.h, run[i].d.state)
  {
    DeliveredIsHeld(hasher, After(hasher, run, i), run[i].d);
  }

  /** On every run a delivered outcome stays a floor of its slot, whatever is resumed or
      cascades, exactly as long as no step lowers it. */
  lemma DeliveredOutcomesLastExactly(hasher: Hasher, run: seq<Step>, i: nat, n: nat)
    requires i < n <= |run| && run[i].Joins? && Lasting(run[i].d.state)
    ensures HeldThroughout(hasher, run, i + 1, n, run[i].d.h, run[i].d.state) <==>
            NeverLowered(hasher, run, i + 1, n, run[i].d.h, run[i].d.state)
  {
    JoinedIsHeld(hasher, run, i);
    FloorsLastExactly(hasher, run, i + 1, n, run[i].d.h, run[i].d.state);
  }

  /** No retry of the run meets a failure of the attempt it names or of a later one. */
  ghost predicate Fresh(hasher: Hasher, run: seq<Step>) {
    forall k :: 0 <= k < |run| ==> FreshAt(hasher, run, k)
  }

  ghost predicate FreshAt(hasher: Hasher, run: seq<Step>, k: nat)
    requires k < |run|
  {
    !StaleRetry(After(hasher, run, k), run[k])
  }

  /** What no reset but a stale retry takes back: completions, invalid tasks, and the
      least live state of an attempt. */
  predicate Untouchable(x: TaskState) {
    x.Completed? || x.InvalidTask? || (x.Pending? && x.version == ZERO_VERSION)
  }

  lemma {:induction false} UntouchableLasts(hasher: Hasher, run: seq<Step>, m: nat, n: nat, h: Hash, x: TaskState)
    requires m <= n <= |run| && Fresh(hasher, run) && AtLeast(hasher, After(hasher, run, m), h, x)
    requires Untouchable(x) || (Lasting(x) && NoReinjections(run))
    ensures AtLeast(hasher, After(hasher, run, n), h, x)
    decreases n - m
  {
    if m < n {
      assert FreshAt(hasher, run, m);
      UntouchableStays(hasher, run, m, h, x);
      UntouchableLasts(hasher, run, m + 1, n, h, x);
    }
  }

  lemma UntouchableStays(hasher: Hasher, run: seq<Step>, k: nat, h: Hash, x: TaskState)
    requires k < |run| && FreshAt(hasher, run, k) && AtLeast(hasher, After(hasher, run, k), h, x)
    requires Untouchable(x) || (Lasting(x) && NoReinjections(run))
    ensures AtLeast(hasher, After(hasher, run, k + 1), h, x)
  {
    RunStepKeepsFloorExactly(hasher, run, k, h, x);
    if LoweredAt(hasher, run, k, h, x) { LoweredOnlyBy(hasher, After(hasher, run, k), run[k], h, x); }
  }

  lemma StepKeepsFilled(hasher: Hasher, run: seq<Step>, k: nat, h: Hash)
    requires k < |run| && h in After(hasher, run, k)
    ensures h in After(hasher, run, k + 1)
  {
  }

  lemma {:induction false} FilledStaysFilled(hasher: Hasher, run: seq<Step>, m: nat, n: nat, h: Hash)
    requires m <= n <= |run| && h in After(hasher, run, m)
    ensures h in After(hasher, run, n)
    decreases n - m
  {
    if m < n {
      StepKeepsFilled(hasher, run, m, h);
      FilledStaysFilled(hasher, run, m + 1, n, h);
    }
  }

  /** No step takes the attempt of a filled slot back unless it is a retry that names an
      earlier attempt than the failure it meets. */
  lemma AttemptsGoBackExactly(hasher: Hasher, run: seq<Step>, k: nat, h: Hash)
    requires k < |run| && h in After(hasher, run, k)
    ensures h in After(hasher, run, k + 1)
    ensures After(hasher, run, k + 1)[h].attempt < After(hasher, run, k)[h].attempt <==>
            !FreshAt(hasher, run, k) && run[k].r.h == h && run[k].r.attempt < After(hasher, run, k)[h].attempt
  {
    AttemptGoesBackExactly(hasher, After(hasher, run, k), run[k], h);
  }

  ghost predicate AttemptReached(hasher: Hasher, run: seq<Step>, n: nat, h: Hash, attempt: nat)
    requires n <= |run|
  {
    h in After(hasher, run, n) && attempt <= After(hasher, run, n)[h].attempt
  }

  lemma AttemptStays(hasher: Hasher, run: seq<Step>, k: nat, h: Hash, attempt: nat)
    requires k < |run| && FreshAt(hasher, run, k) && AttemptReached(hasher, run, k, h, attempt)
    ensures AttemptReached(hasher, run, k + 1, h, attempt)
  {
    AttemptsGoBackExactly(hasher, run, k, h);
  }

  /** So on runs without stale retries attempts never go back. */
  lemma {:induction false} AttemptsNeverGoBack(
    hasher: Hasher, run: seq<Step>, m: nat, n: nat, h: Hash, attempt: nat)
    requires m <= n <= |run| && Fresh(hasher, run) && AttemptReached(hasher, run, m, h, attempt)
    ensures AttemptReached(hasher, run, n, h, attempt)
    decreases n - m
  {
    if m < n {
      assert FreshAt(hasher, run, m);
      AttemptStays(hasher, run, m, h, attempt);
      AttemptsNeverGoBack(hasher, run, m + 1, n, h, attempt);
    }
  }

  // ---------------------------------------------------------------------
  // Which observations win only once
  // ---------------------------------------------------------------------

  predicate NoReinjections(run: seq<Step>) {
    forall k :: 0 <= k < |run| ==> !(run[k].Rewrites? && run[k].r.Reinject?)
  }

  /** `s` was delivered on the run, won or lost, and would win now. */
  ghost predicate WinsAgain(hasher: Hasher, run: seq<Step>, h: Hash, s: TaskState) {
    Joins(Delivery(h, s)) in run && Wins(hasher, After(hasher, run, |run|), h, s)
  }

  ghost predicate LosesThroughout(hasher: Hasher, run: seq<Step>, m: nat, n: nat, h: Hash, s: TaskState)
    requires n <= |run|
  {
    forall k: nat :: m <= k <= n ==> !Wins(hasher, After(hasher, run, k), h, s)
  }

  /** On every run a delivered outcome never wins again exactly as long as nothing lowers it. */
  lemma RedeliveryLosesOnRun(hasher: Hasher, run: seq<Step>, i: nat, n: nat)
    requires i < n <= |run| && run[i].Joins? && Lasting(run[i].d.state)
    ensures LosesThroughout(hasher, run, i + 1, n, run[i].d.h, run[i].d.state) <==>
            NeverLowered(hasher, run, i + 1, n, run[i].d.h, run[i].d.state)
  {
    var h, s := run[i].d.h, run[i].d.state;
    DeliveredOutcomesLastExactly(hasher, run, i, n);
    JoinedIsHeld(hasher, run, i);
    forall k: nat | i + 1 <= k <= n ensures h in After(hasher, run, k) {
      FilledStaysFilled(hasher, run, i + 1, k, h);
    }
    if HeldThroughout(hasher, run, i + 1, n, h, s) {
      forall k: nat | i + 1 <= k <= n ensures !Wins(hasher, After(hasher, run, k), h, s) {
        assert AtLeast(hasher, After(hasher, run, k), h, s);
      }
    } else {
      var k: nat :| i + 1 <= k <= n && !AtLeast(hasher, After(hasher, run, k), h, s);
      assert Wins(hasher, After(hasher, run, k), h, s);
    }
  }

  lemma DeliveredHere(hasher: Hasher, run: seq<Step>, h: Hash, s: TaskState) returns (i: nat)
    requires Joins(Delivery(h, s)) in run
    ensures i < |run| && AtLeast(hasher, After(hasher, run, i + 1), h, s)
  {
    i :| 0 <= i < |run| && run[i] == Joins(Delivery(h, s));
    JoinedIsHeld(hasher, run, i);
  }

  /** The least state of all: whatever fills the slot, it does not win. */
  predicate Least(s: TaskState) {
    s.Pending? && s.version == ZERO_VERSION && s.attempt == 0
  }

  lemma LeastNeverWins(hasher: Hasher, run: seq<Step>, h: Hash, s: TaskState)
    requires Least(s)
    ensures !WinsAgain(hasher, run, h, s)
  {
    if Joins(Delivery(h, s)) in run {
      var i := DeliveredHere(hasher, run, h, s);
      FilledStaysFilled(hasher, run, i + 1, |run|, h);
      LeastOfItsAttempt(hasher, s, After(hasher, run, |run|)[h]);
    }
  }

  lemma UntouchableNeverWins(hasher: Hasher, run: seq<Step>, h: Hash, s: TaskState)
    requires Fresh(hasher, run) && (Untouchable(s) || (Lasting(s) && NoReinjections(run)))
    ensures !WinsAgain(hasher, run, h, s)
  {
    if Joins(Delivery(h, s)) in run {
      var i := DeliveredHere(hasher, run, h, s);
      UntouchableLasts(hasher, run, i + 1, |run|, h, s);
    }
  }

  lemma FirstJoin(hasher: Hasher, run: seq<Step>)
    requires run != [] && run[0].Joins?
    ensures After(hasher, run, 1) == map[run[0].d.h := run[0].d.state]
  {
    assert After(hasher, run, 0) == map[];
    assert After(hasher, run, 1) == Merge(map[], run[0].d.h, run[0].d.state);
  }

  /** A later failure and a stale retry leave the least state. */
  lemma WinsAfterStaleRetry(hasher: Hasher, h: Hash, s: TaskState) returns (run: seq<Step>)
    requires !Least(s)
    ensures WinsAgain(hasher, run, h, s)
  {
    var f := Failed(s.def, NonRecoverable, "", ZERO_VERSION, s.attempt + 1);
    run := [Joins(Delivery(h, s)), Joins(Delivery(h, f)), Rewrites(Retry(h, 0, ZERO_VERSION))];
    FirstJoin(hasher, run);
    OutcomeOrder(hasher, f, s);
    assert After(hasher, run, 2) == Join(hasher, map[h := s], Delivery(h, f)) == map[h := f];
    assert After(hasher, run, 3)[h] == Pending(s.def, ZERO_VERSION, 0);
    AbovePending(hasher, Pending(s.def, ZERO_VERSION, 0), s);
    assert run[0] == Joins(Delivery(h, s));
  }

  /** A later unfulfillable verdict of the attempt and its reinjection reopen the attempt. */
  lemma WinsAfterReinjection(hasher: Hasher, h: Hash, s: TaskState) returns (run: seq<Step>)
    requires Terminal(s) && !s.Completed? && !s.InvalidTask?
    ensures Fresh(hasher, run) && WinsAgain(hasher, run, h, s)
  {
    var u := LaterUnfulfillable(hasher, s);
    run := [Joins(Delivery(h, s)), Joins(Delivery(h, u)), Rewrites(Reinject(h, ZERO_VERSION))];
    FirstJoin(hasher, run);
    assert After(hasher, run, 2) == Join(hasher, map[h := s], Delivery(h, u)) == map[h := u];
    assert After(hasher, run, 3)[h] == Pending(u.def, ZERO_VERSION, s.attempt);
    OutcomeOrder(hasher, s, Pending(u.def, ZERO_VERSION, s.attempt));
    assert run[0] == Joins(Delivery(h, s));
    assert forall k :: 0 <= k < 3 ==> FreshAt(hasher, run, k);
  }

  lemma LaterUnfulfillable(hasher: Hasher, s: TaskState) returns (u: TaskState)
    requires Terminal(s) && !s.Completed? && !s.InvalidTask?
    ensures u.Unfulfillable? && u.attempt == s.attempt && Dominates(hasher, u, s)
  {
    var v := if s.Failed? || s.Unfulfillable? then s.version else ZERO_VERSION;
    u := Unfulfillable(s.def, "", "", TaskVersion(v.primaryEpoch, v.seqNo + 1), s.attempt);
    var lo, hi := Rank(hasher, s), Rank(hasher, u);
    var k := if s.Failed? || s.Unfulfillable? then 4 else 2;
    assert lo[..k] == hi[..k];
    LexOrder.FirstDifference(lo, hi, k);
  }

  /** Block the slot on a task that then completes: what is left is the least state. */
  lemma WinsAfterResume(hasher: Hasher, h: Hash, s: TaskState) returns (run: seq<Step>)
    requires !Lasting(s)
    ensures Fresh(hasher, run) && NoReinjections(run) && WinsAgain(hasher, run, h, s)
  {
    var p, block := h + "x", Blocked(s.def, h + "x", s.attempt);
    var second, third := Delivery(h, s), Delivery(p, Completed(s.def, 0));
    run := [Joins(Delivery(h, block)), Joins(second), Joins(third)];
    var blocked: Ledger := map[h := block];
    FirstJoin(hasher, run);
    NotAboveBlock(hasher, s, block);
    assert After(hasher, run, 2) == Join(hasher, blocked, second) == blocked;
    assert After(hasher, run, 3) == Join(hasher, blocked, third);
    assert BlockedOn(blocked, h, p);
    assert After(hasher, run, 3)[h] == Resumed(block);
    assert run[1] == Joins(second);
    assert forall k :: 0 <= k < 3 ==> FreshAt(hasher, run, k);
  }

  /** Which observations, once delivered, never win their slot again: on all runs only the
      least state; on runs without stale retries also completions, invalid tasks and the
      least live state of any attempt; without reinjections as well, every outcome. */
  lemma RedeliveryLosesExactly(hasher: Hasher, h: Hash, s: TaskState)
    ensures (forall run :: !WinsAgain(hasher, run, h, s)) <==> Least(s)
    ensures (forall run :: Fresh(hasher, run) ==> !WinsAgain(hasher, run, h, s)) <==> Untouchable(s)
    ensures (forall run :: Fresh(hasher, run) && NoReinjections(run) ==> !WinsAgain(hasher, run, h, s)) <==> Lasting(s)
  {
    forall run | Least(s) ensures !WinsAgain(hasher, run, h, s) {
      LeastNeverWins(hasher, run, h, s);
    }
    forall run | Fresh(hasher, run) && (Untouchable(s) || (Lasting(s) && NoReinjections(run)))
      ensures !WinsAgain(hasher, run, h, s)
    {
      UntouchableNeverWins(hasher, run, h, s);
    }
    if !Least(s) { var run := WinsAfterStaleRetry(hasher, h, s); }
    if !Lasting(s) {
      var run := WinsAfterResume(hasher, h, s);
    } else if !Untouchable(s) {
      var run := WinsAfterReinjection(hasher, h, s);
    }
  }
}
