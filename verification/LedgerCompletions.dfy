/**
 How often a task completes, over whole runs of joins and rewrites.
 */
module LedgerCompletions {
  import opened Wrappers
  import LexOrder
  import opened TaskJoin
  import opened TaskJoinTheorems
  import opened LedgerSteps
  import opened LedgerRuns

  /** Step `n` raises the completion event of `h`. */
  ghost predicate CompletesAt(hasher: Hasher, run: seq<Step>, n: nat, h: Hash) {
    n < |run| && run[n].Joins? && run[n].d.h == h && Wins(hasher, After(hasher, run, n), h, run[n].d.state)
    && NewlyCompleted(After(hasher, run, n), h, run[n].d.state)
  }

  // ---------------------------------------------------------------------
  // Once per attempt
  // ---------------------------------------------------------------------

  /** A stale retry of `h` that names the given attempt or an earlier one. */
  ghost predicate StaleFor(hasher: Hasher, run: seq<Step>, k: nat, h: Hash, attempt: nat)
    requires k < |run|
  {
    !FreshAt(hasher, run, k) && run[k].r.h == h && run[k].r.attempt <= attempt
  }

  lemma CompletionStays(hasher: Hasher, run: seq<Step>, k: nat, h: Hash, x: TaskState)
    requires k < |run| && x.Completed? && AtLeast(hasher, After(hasher, run, k), h, x)
    requires !StaleFor(hasher, run, k, h, x.attempt)
    ensures AtLeast(hasher, After(hasher, run, k + 1), h, x)
  {
    RunStepKeepsFloorExactly(hasher, run, k, h, x);
    if LoweredAt(hasher, run, k, h, x) { LoweredOnlyBy(hasher, After(hasher, run, k), run[k], h, x); }
  }

  lemma {:induction false} CompletionLasts(hasher: Hasher, run: seq<Step>, m: nat, n: nat, h: Hash, x: TaskState)
    requires m <= n <= |run| && x.Completed? && AtLeast(hasher, After(hasher, run, m), h, x)
    requires forall k: nat :: m <= k < n ==> !StaleFor(hasher, run, k, h, x.attempt)
    ensures AtLeast(hasher, After(hasher, run, n), h, x)
    decreases n - m
  {
    if m < n {
      CompletionStays(hasher, run, m, h, x);
      CompletionLasts(hasher, run, m + 1, n, h, x);
    }
  }

  /** On every run a second completion event of a task belongs to a later attempt, unless a
      stale retry in between named an attempt no later than the first. */
  lemma CompletionFiresOncePerAttempt(hasher: Hasher, run: seq<Step>, m: nat, n: nat, h: Hash)
    requires m < n && CompletesAt(hasher, run, m, h) && CompletesAt(hasher, run, n, h)
    ensures run[m].d.state.attempt < run[n].d.state.attempt
            || exists k :: m < k < n && StaleFor(hasher, run, k, h, run[m].d.state.attempt)
  {
    var c := run[m].d.state;
    if forall k: nat :: m + 1 <= k < n ==> !StaleFor(hasher, run, k, h, c.attempt) {
      JoinedIsHeld(hasher, run, m);
      CompletionLasts(hasher, run, m + 1, n, h, c);
      LexOrder.AtMostThenLess(Rank(hasher, c), Rank(hasher, After(hasher, run, n)[h]), Rank(hasher, run[n].d.state));
      CompletionsOrderByAttempt(hasher, c, run[n].d.state);
    }
  }

  /** The failing input: a completion, a failure of a later attempt, a retry that names an
      attempt no later than the completion's, and the completion again. */
  lemma StaleRetryCompletesAgain(hasher: Hasher, h: Hash, c: TaskState, f: TaskState, a: nat, v: TaskVersion)
    requires c.Completed? && f.Failed? && f.attempt > c.attempt >= a
    ensures var run := [Joins(Delivery(h, c)), Joins(Delivery(h, f)), Rewrites(Retry(h, a, v)), Joins(Delivery(h, c))];
            && h in After(hasher, run, 2) && h in After(hasher, run, 3)
            && After(hasher, run, 3)[h].attempt == a < After(hasher, run, 2)[h].attempt
            && CompletesAt(hasher, run, 0, h) && CompletesAt(hasher, run, 3, h)
  {
    var run := [Joins(Delivery(h, c)), Joins(Delivery(h, f)), Rewrites(Retry(h, a, v)), Joins(Delivery(h, c))];
    FirstJoin(hasher, run);
    OutcomeOrder(hasher, f, c);
    assert After(hasher, run, 2) == Join(hasher, map[h := c], Delivery(h, f)) == map[h := f];
    assert After(hasher, run, 3)[h] == Pending(f.def, v, a);
    OutcomeOrder(hasher, c, Pending(f.def, v, a));
  }

  // ---------------------------------------------------------------------
  // Once at all
  // ---------------------------------------------------------------------

  ghost predicate CompletesAtMostOnce(hasher: Hasher, run: seq<Step>, h: Hash) {
    forall m: nat, n: nat :: m < n && CompletesAt(hasher, run, m, h) ==> !CompletesAt(hasher, run, n, h)
  }

  /** The observations the run joins are those of `u`, in any order and number. */
  ghost predicate Observes(run: seq<Step>, u: seq<Delivery>) {
    forall d :: d in u <==> Joins(d) in run
  }

  /** Something other than a completion ranks strictly between two completions. */
  ghost predicate Between(hasher: Hasher, u: seq<Delivery>, h: Hash, c: TaskState, y: TaskState, c': TaskState) {
    Delivery(h, c) in u && Delivery(h, y) in u && Delivery(h, c') in u
    && c.Completed? && !y.Completed? && c'.Completed? && Dominates(hasher, y, c) && Dominates(hasher, c', y)
  }

  /** States that rewrites can turn into a pending one. */
  predicate Reopenable(y: TaskState, h: Hash) {
    y.Pending? || y.InFlight? || y.Unfulfillable? || (y.Blocked? && y.on != h)
  }

  ghost predicate DeadElsewhere(u: seq<Delivery>, h: Hash) {
    exists d :: d in u && d.h != h && NeverProduces(d.state)
  }

  /** Something greater than a completion that a retry can take back: a failure, or a state
      that can be paused on a task that then fails it. */
  ghost predicate Reopens(hasher: Hasher, u: seq<Delivery>, h: Hash, c: TaskState, y: TaskState) {
    Delivery(h, c) in u && Delivery(h, y) in u && c.Completed? && Dominates(hasher, y, c)
    && (y.Failed? || (Reopenable(y, h) && DeadElsewhere(u, h)))
  }

  /** What a slot holds since `y` took it: a later attempt, or the same one, and still an
      invalid task if `y` was. */
  predicate Above(y: TaskState, s: TaskState) {
    s.attempt > y.attempt || (s.attempt == y.attempt && (y.InvalidTask? ==> s.InvalidTask?))
  }

  lemma InvalidIsTop(hasher: Hasher, x: TaskState, y: TaskState)
    requires x.InvalidTask? && y.attempt == x.attempt && Dominates(hasher, y, x)
    ensures y.InvalidTask?
  {
    if !y.InvalidTask? {
      OutcomeOrder(hasher, x, y);
      LexOrder.Asymmetric(Rank(hasher, x), Rank(hasher, y));
    }
  }

  lemma AboveStep(hasher: Hasher, before: Ledger, step: Step, h: Hash, y: TaskState)
    requires h in before && Above(y, before[h]) && !(StaleRetry(before, step) && step.r.h == h)
    ensures h in Next(hasher, before, step) && Above(y, Next(hasher, before, step)[h])
  {
    var (after, s) := (Next(hasher, before, step), before[h]);
    AttemptGoesBackExactly(hasher, before, step, h);
    if step.Joins? && step.d.h == h && Wins(hasher, before, h, step.d.state) {
      if s.InvalidTask? && step.d.state.attempt == s.attempt { InvalidIsTop(hasher, s, step.d.state); }
    } else if s.InvalidTask? && step.Joins? && Awaits(before, h, step.d.h) {
      OnlyBlockedAwaits(before, h, step.d.h);
    }
  }

  /** A completion that takes such a slot outranks `y`. */
  lemma CompletionIsAbove(hasher: Hasher, y: TaskState, s: TaskState, c: TaskState)
    requires Above(y, s) && c.Completed? && Dominates(hasher, c, s) && !y.Completed?
    ensures Dominates(hasher, c, y)
  {
    LexOrder.Asymmetric(Rank(hasher, s), Rank(hasher, c));
    DominatingAttempt(hasher, s, c);
    if c.attempt > y.attempt {
      OutcomeOrder(hasher, c, y);
    } else if y.InvalidTask? {
      InvalidIsTop(hasher, s, c);
    } else if Terminal(y) {
      OutranksFailures(hasher, c, y);
    } else {
      OutcomeOrder(hasher, c, y);
    }
  }

  // ---------------------------------------------------------------------
  // Between two completions
  // ---------------------------------------------------------------------

  ghost predicate Holds(hasher: Hasher, run: seq<Step>, n: nat, h: Hash, completed: bool)
    requires n <= |run|
  {
    h in After(hasher, run, n) && After(hasher, run, n)[h].Completed? == completed
  }

  lemma LeavingStep(hasher: Hasher, run: seq<Step>, k: nat, h: Hash)
    requires k < |run| && Holds(hasher, run, k, h, true) && Holds(hasher, run, k + 1, h, false)
    ensures run[k].Joins? && run[k].d.h == h && !run[k].d.state.Completed?
    ensures Dominates(hasher, run[k].d.state, After(hasher, run, k)[h]) && After(hasher, run, k + 1)[h] == run[k].d.state
  {
    var before := After(hasher, run, k);
    if run[k].Joins? && run[k].d.h != h && Awaits(before, h, run[k].d.h) { OnlyBlockedAwaits(before, h, run[k].d.h); }
  }

  /** The last step in which the slot leaves a completion. */
  lemma LeavesCompletion(hasher: Hasher, run: seq<Step>, m: nat, n: nat, h: Hash) returns (k: nat)
    requires m <= n <= |run| && Holds(hasher, run, m, h, true) && Holds(hasher, run, n, h, false)
    ensures m <= k < n && Holds(hasher, run, k, h, true)
    ensures forall j: nat :: k < j <= n ==> Holds(hasher, run, j, h, false)
  {
    var p := (j: nat) => j <= |run| && Holds(hasher, run, j, h, true);
    k := LastTime(p, m, n);
    forall j: nat | k < j <= n ensures Holds(hasher, run, j, h, false) {
      assert !p(j);
      FilledStaysFilled(hasher, run, m, j, h);
    }
  }

  lemma {:induction false} CompletedWasJoined(hasher: Hasher, run: seq<Step>, n: nat, h: Hash)
    requires n <= |run| && Holds(hasher, run, n, h, true)
    ensures Joins(Delivery(h, After(hasher, run, n)[h])) in run
    decreases n
  {
    var before, step := After(hasher, run, n - 1), run[n - 1];
    if h in before && before[h] == After(hasher, run, n)[h] {
      CompletedWasJoined(hasher, run, n - 1, h);
    } else {
      assert step == Joins(Delivery(h, After(hasher, run, n)[h]));
    }
  }

  /** No stale retry of `h`. */
  ghost predicate NotStaleAt(hasher: Hasher, run: seq<Step>, k: nat, h: Hash)
    requires k < |run|
  {
    !(StaleRetry(After(hasher, run, k), run[k]) && run[k].r.h == h)
  }

  ghost predicate AboveAt(hasher: Hasher, run: seq<Step>, n: nat, h: Hash, y: TaskState)
    requires n <= |run|
  {
    h in After(hasher, run, n) && Above(y, After(hasher, run, n)[h])
  }

  lemma StaysAbove(hasher: Hasher, run: seq<Step>, k: nat, h: Hash, y: TaskState)
    requires k < |run| && AboveAt(hasher, run, k, h, y) && NotStaleAt(hasher, run, k, h)
    ensures AboveAt(hasher, run, k + 1, h, y)
  {
    AboveStep(hasher, After(hasher, run, k), run[k], h, y);
  }

  lemma FreshStaysAbove(hasher: Hasher, run: seq<Step>, m: nat, n: nat, h: Hash, y: TaskState)
    requires m <= n <= |run| && Fresh(hasher, run) && AboveAt(hasher, run, m, h, y)
    ensures AboveAt(hasher, run, n, h, y)
  {
    forall k: nat | m <= k < n && AboveAt(hasher, run, k, h, y) ensures AboveAt(hasher, run, k + 1, h, y) {
      assert FreshAt(hasher, run, k);
      StaysAbove(hasher, run, k, h, y);
    }
    Carry((k: nat) => k <= |run| && AboveAt(hasher, run, k, h, y), m, n);
  }

  // ---------------------------------------------------------------------
  // Where nothing can be reopened no retry applies
  // ---------------------------------------------------------------------

  /** Beyond a completion of the given attempt. */
  predicate Past(attempt: nat, s: TaskState) {
    s.attempt > attempt || (s.attempt == attempt && s.InvalidTask?)
  }

  ghost predicate HasReopenable(u: seq<Delivery>, h: Hash, attempt: nat) {
    exists y :: Delivery(h, y) in u && y.attempt > attempt && Reopenable(y, h)
  }

  /** Where the state of a slot beyond a completion comes from. */
  ghost predicate Traced(u: seq<Delivery>, h: Hash, attempt: nat, s: TaskState) {
    || Delivery(h, s) in u
    || ((s.Pending? || s.Blocked?) && HasReopenable(u, h, attempt))
    || s.SkippedAlreadyDone? || s.SetupCompleted?
  }

  lemma {:induction false} SelfBlockedLoops(tasks: Ledger, p: seq<Hash>, h: Hash, z: Hash)
    requires BlockedOn(tasks, h, h) && z != h
    ensures !Chain(tasks, p, h, z)
    decreases |p|
  {
    if Chain(tasks, p, h, z) {
      assert BlockedOn(tasks, p[0], p[1]);
      assert |p| > 2 && Chain(tasks, p[1..], h, z);
      SelfBlockedLoops(tasks, p[1..], h, z);
    }
  }

  /** A block that a step elsewhere resumes or fails is reopenable. */
  lemma TouchedBlock(u: seq<Delivery>, before: Ledger, h: Hash, attempt: nat, z: Hash)
    requires h in before && before[h].Blocked? && z != h && (BlockedOn(before, h, z) || Awaits(before, h, z))
    requires Traced(u, h, attempt, before[h]) && Past(attempt, before[h])
    ensures HasReopenable(u, h, attempt)
  {
    if Delivery(h, before[h]) in u && before[h].on == h {
      var p :| Chain(before, p, h, z);
      SelfBlockedLoops(before, p, h, z);
    }
  }

  ghost predicate NothingReopens(hasher: Hasher, u: seq<Delivery>, h: Hash) {
    forall c, y :: !Reopens(hasher, u, h, c, y)
  }

  lemma NoFailureBeyond(hasher: Hasher, u: seq<Delivery>, h: Hash, c: TaskState, f: TaskState)
    requires NothingReopens(hasher, u, h) && Delivery(h, c) in u && c.Completed?
    requires f.Failed? && Past(c.attempt, f)
    ensures Delivery(h, f) !in u
  {
    OutcomeOrder(hasher, f, c);
    assert !Reopens(hasher, u, h, c, f);
  }

  lemma NothingDeadElsewhere(hasher: Hasher, u: seq<Delivery>, h: Hash, c: TaskState)
    requires NothingReopens(hasher, u, h) && Delivery(h, c) in u && c.Completed? && HasReopenable(u, h, c.attempt)
    ensures !DeadElsewhere(u, h)
  {
    var y :| Delivery(h, y) in u && y.attempt > c.attempt && Reopenable(y, h);
    OutcomeOrder(hasher, y, c);
    assert !Reopens(hasher, u, h, c, y);
  }

  lemma TracedJoin(hasher: Hasher, u: seq<Delivery>, before: Ledger, d: Delivery, h: Hash, c: TaskState)
    requires NothingReopens(hasher, u, h) && Delivery(h, c) in u && c.Completed? && d in u
    requires h in before && Traced(u, h, c.attempt, before[h]) && Past(c.attempt, before[h])
    ensures Traced(u, h, c.attempt, Join(hasher, before, d)[h])
  {
    if d.h != h && Wins(hasher, before, d.h, d.state) {
      if NewlyCompleted(before, d.h, d.state) && BlockedOn(before, h, d.h) {
        TouchedBlock(u, before, h, c.attempt, d.h);
      } else if NeverProduces(d.state) && Awaits(before, h, d.h) {
        OnlyBlockedAwaits(before, h, d.h);
        TouchedBlock(u, before, h, c.attempt, d.h);
        NothingDeadElsewhere(hasher, u, h, c);
      }
    }
  }

  lemma TracedRewrite(hasher: Hasher, u: seq<Delivery>, before: Ledger, r: Rewrite, h: Hash, c: TaskState)
    requires NothingReopens(hasher, u, h) && Delivery(h, c) in u && c.Completed?
    requires h in before && !before[h].Completed?
    requires Traced(u, h, c.attempt, before[h]) && Past(c.attempt, before[h])
    ensures Traced(u, h, c.attempt, Rewritten(before, r)[h])
    ensures !(StaleRetry(before, Rewrites(r)) && r.h == h)
  {
    if Applies(before, r) {
      if r.h == h {
        if r.Retry? { NoFailureBeyond(hasher, u, h, c, before[h]); }
      } else if r.SetupDone? && BlockedOn(before, h, r.h) {
        TouchedBlock(u, before, h, c.attempt, r.h);
      }
    }
  }

  ghost predicate TracedAt(hasher: Hasher, run: seq<Step>, n: nat, u: seq<Delivery>, h: Hash, attempt: nat)
    requires n <= |run|
  {
    h in After(hasher, run, n) && Traced(u, h, attempt, After(hasher, run, n)[h])
  }

  ghost predicate Followed(
    hasher: Hasher, run: seq<Step>, n: nat, u: seq<Delivery>, h: Hash, c: TaskState, y: TaskState)
    requires n <= |run|
  {
    AboveAt(hasher, run, n, h, y) && TracedAt(hasher, run, n, u, h, c.attempt)
  }

  lemma PastToo(attempt: nat, y: TaskState, s: TaskState)
    requires Past(attempt, y) && Above(y, s)
    ensures Past(attempt, s)
  {
  }

  lemma TracedStep(hasher: Hasher, run: seq<Step>, k: nat, u: seq<Delivery>, h: Hash, c: TaskState, y: TaskState)
    requires k < |run| && Observes(run, u) && NothingReopens(hasher, u, h) && Delivery(h, c) in u && c.Completed?
    requires Past(c.attempt, y) && Followed(hasher, run, k, u, h, c, y) && Holds(hasher, run, k, h, false)
    ensures Followed(hasher, run, k + 1, u, h, c, y)
  {
    var before := After(hasher, run, k);
    PastToo(c.attempt, y, before[h]);
    StepKeepsFilled(hasher, run, k, h);
    assert run[k] in run;
    match run[k] {
      case Joins(d) => TracedJoin(hasher, u, before, d, h, c);
      case Rewrites(r) => TracedRewrite(hasher, u, before, r, h, c);
    }
    StaysAbove(hasher, run, k, h, y);
  }

  lemma TracedStaysAbove(
    hasher: Hasher, run: seq<Step>, m: nat, n: nat, u: seq<Delivery>, h: Hash, c: TaskState, y: TaskState)
    requires m <= n <= |run| && Observes(run, u) && NothingReopens(hasher, u, h) && Delivery(h, c) in u && c.Completed?
    requires Past(c.attempt, y) && Followed(hasher, run, m, u, h, c, y)
    requires forall j: nat :: m <= j <= n ==> Holds(hasher, run, j, h, false)
    ensures Followed(hasher, run, n, u, h, c, y)
  {
    forall k: nat | m <= k < n && Followed(hasher, run, k, u, h, c, y) ensures Followed(hasher, run, k + 1, u, h, c, y) {
      TracedStep(hasher, run, k, u, h, c, y);
    }
    Carry((k: nat) => k <= |run| && Followed(hasher, run, k, u, h, c, y), m, n);
  }

  /** From step `k` on, up to `n`, the slot that held completion `c` is no longer completed,
      since `y` took it. */
  ghost predicate Left(hasher: Hasher, run: seq<Step>, k: nat, n: nat, h: Hash, c: TaskState, y: TaskState) {
    && k < n <= |run|
    && Joins(Delivery(h, c)) in run && run[k] == Joins(Delivery(h, y))
    && c.Completed? && !y.Completed? && Dominates(hasher, y, c)
    && h in After(hasher, run, k + 1) && After(hasher, run, k + 1)[h] == y
    && (forall j: nat :: k + 1 <= j <= n ==> Holds(hasher, run, j, h, false))
  }

  lemma CompletesAndCompletesAgain(hasher: Hasher, run: seq<Step>, m: nat, n: nat, h: Hash)
    requires m < n && CompletesAt(hasher, run, m, h) && CompletesAt(hasher, run, n, h)
    ensures Holds(hasher, run, m + 1, h, true) && Holds(hasher, run, n, h, false)
  {
    JoinedIsHeld(hasher, run, m);
    FilledStaysFilled(hasher, run, m + 1, n, h);
  }

  lemma SomethingTookIt(hasher: Hasher, run: seq<Step>, m: nat, n: nat, h: Hash) returns (k: nat, c: TaskState, y: TaskState)
    requires m < n <= |run| && Holds(hasher, run, m + 1, h, true) && Holds(hasher, run, n, h, false)
    ensures Left(hasher, run, k, n, h, c, y)
  {
    k := LeavesCompletion(hasher, run, m + 1, n, h);
    LeavingStep(hasher, run, k, h);
    c, y := After(hasher, run, k)[h], run[k].d.state;
    CompletedWasJoined(hasher, run, k, h);
  }

  lemma StillAbove(
    hasher: Hasher, run: seq<Step>, k: nat, n: nat, u: seq<Delivery>, h: Hash, c: TaskState, y: TaskState)
    requires Observes(run, u) && Left(hasher, run, k, n, h, c, y)
    requires Fresh(hasher, run) || NothingReopens(hasher, u, h)
    ensures AboveAt(hasher, run, n, h, y)
  {
    if Fresh(hasher, run) {
      FreshStaysAbove(hasher, run, k + 1, n, h, y);
    } else {
      assert run[k] in run;
      BeyondCompletion(hasher, c, y);
      TracedStaysAbove(hasher, run, k + 1, n, u, h, c, y);
    }
  }

  /** A second completion comes after something between the two, unless a retry was stale
      and something can be reopened. */
  lemma SecondCompletion(hasher: Hasher, run: seq<Step>, u: seq<Delivery>, m: nat, n: nat, h: Hash)
    requires Observes(run, u) && m < n && CompletesAt(hasher, run, m, h) && CompletesAt(hasher, run, n, h)
    requires Fresh(hasher, run) || NothingReopens(hasher, u, h)
    ensures exists c, y, c' :: Between(hasher, u, h, c, y, c')
  {
    CompletesAndCompletesAgain(hasher, run, m, n, h);
    var k, c, y := SomethingTookIt(hasher, run, m, n, h);
    StillAbove(hasher, run, k, n, u, h, c, y);
    CompletionIsAbove(hasher, y, After(hasher, run, n)[h], run[n].d.state);
    assert run[n] == Joins(Delivery(h, run[n].d.state)) && run[k] in run;
    assert Between(hasher, u, h, c, y, run[n].d.state);
  }

  lemma BeyondCompletion(hasher: Hasher, c: TaskState, y: TaskState)
    requires c.Completed? && !y.Completed? && Dominates(hasher, y, c)
    ensures Past(c.attempt, y)
  {
    LexOrder.Asymmetric(Rank(hasher, c), Rank(hasher, y));
    DominatingAttempt(hasher, c, y);
    if y.attempt == c.attempt && !y.InvalidTask? {
      if Terminal(y) { OutranksFailures(hasher, c, y); } else { OutcomeOrder(hasher, c, y); }
    }
  }

  // ---------------------------------------------------------------------
  // Runs that complete a task twice
  // ---------------------------------------------------------------------

  /** The run ends in the ledger `tasks`. */
  ghost predicate Leads(hasher: Hasher, run: seq<Step>, tasks: Ledger) {
    After(hasher, run, |run|) == tasks
  }

  lemma LeadsOn(hasher: Hasher, run: seq<Step>, step: Step, tasks: Ledger)
    requires Leads(hasher, run, tasks)
    ensures Leads(hasher, run + [step], Next(hasher, tasks, step))
  {
    assert (run + [step])[..|run|] == run;
    PrefixLedger(hasher, run + [step], |run|, |run|);
  }

  function Arrivals(u: seq<Delivery>): (r: seq<Step>)
    ensures forall s :: s in r <==> s.Joins? && s.d in u
  {
    if u == [] then [] else [Joins(u[0])] + Arrivals(u[1..])
  }

  /** A run that ends in an unfinished slot goes on to a second completion, and then through
      everything else that was observed. */
  lemma CompletesTwice(
    hasher: Hasher, u: seq<Delivery>, first: seq<Step>, h: Hash, c: TaskState, c': TaskState, tasks: Ledger)
    returns (run: seq<Step>)
    requires first != [] && first[0] == Joins(Delivery(h, c)) && Leads(hasher, first, tasks)
    requires forall s :: s in first && s.Joins? ==> s.d in u
    requires c.Completed? && c'.Completed? && Delivery(h, c') in u
    requires h in tasks && !tasks[h].Completed? && Dominates(hasher, c', tasks[h])
    ensures run == first + [Joins(Delivery(h, c'))] + Arrivals(u)
    ensures Observes(run, u) && !CompletesAtMostOnce(hasher, run, h)
  {
    run := first + [Joins(Delivery(h, c'))] + Arrivals(u);
    assert run[..|first|] == first;
    PrefixLedger(hasher, run, |first|, |first|);
    assert run[0] == first[0] && run[|first|] == Joins(Delivery(h, c'));
    assert CompletesAt(hasher, run, 0, h) && CompletesAt(hasher, run, |first|, h);
  }

  lemma StartAndTake(hasher: Hasher, h: Hash, c: TaskState, y: TaskState)
    requires Dominates(hasher, y, c)
    ensures Leads(hasher, [Joins(Delivery(h, c))] + [Joins(Delivery(h, y))], map[h := y])
  {
    var first := [Joins(Delivery(h, c))];
    FirstJoin(hasher, first);
    LeadsOn(hasher, first, Joins(Delivery(h, y)), map[h := c]);
    assert Join(hasher, map[h := c], Delivery(h, y)) == map[h := y];
  }

  lemma BetweenCompletesTwice(
    hasher: Hasher, u: seq<Delivery>, h: Hash, c: TaskState, y: TaskState, c': TaskState) returns (run: seq<Step>)
    requires Between(hasher, u, h, c, y, c')
    ensures Fresh(hasher, run) && Observes(run, u) && !CompletesAtMostOnce(hasher, run, h)
  {
    StartAndTake(hasher, h, c, y);
    run := CompletesTwice(hasher, u, [Joins(Delivery(h, c))] + [Joins(Delivery(h, y))], h, c, c', map[h := y]);
    assert forall s :: s in run ==> s.Joins?;
    JoinsAreFresh(hasher, run);
  }

  lemma JoinsAreFresh(hasher: Hasher, run: seq<Step>)
    requires forall s :: s in run ==> s.Joins?
    ensures Fresh(hasher, run)
  {
    forall k | 0 <= k < |run| ensures FreshAt(hasher, run, k) {
      assert run[k] in run;
    }
  }

  /** A retry to the least attempt lets any completion win. */
  lemma RetriedCompletesAgain(
    hasher: Hasher, u: seq<Delivery>, first: seq<Step>, h: Hash, c: TaskState, tasks: Ledger) returns (run: seq<Step>)
    requires first != [] && first[0] == Joins(Delivery(h, c)) && Leads(hasher, first, tasks)
    requires forall s :: s in first && s.Joins? ==> s.d in u
    requires c.Completed? && Delivery(h, c) in u && h in tasks && tasks[h].Failed?
    ensures Observes(run, u) && !CompletesAtMostOnce(hasher, run, h)
  {
    var retry := Rewrites(Retry(h, 0, ZERO_VERSION));
    LeadsOn(hasher, first, retry, tasks);
    OutcomeOrder(hasher, c, Next(hasher, tasks, retry)[h]);
    run := CompletesTwice(hasher, u, first + [retry], h, c, c, Next(hasher, tasks, retry));
  }

  /** Rewrites that leave a reopenable slot pending, and any other slot at most set up. */
  lemma Opened(hasher: Hasher, first: seq<Step>, h: Hash, y: TaskState) returns (reset: seq<Step>, tasks: Ledger)
    requires Leads(hasher, first, map[h := y]) && Reopenable(y, h)
    ensures first <= reset && Leads(hasher, reset, tasks) && h in tasks && tasks[h].Pending?
    ensures forall s :: s in reset && s.Joins? ==> s in first
    ensures forall z :: z in tasks && z != h ==> tasks[z].SetupCompleted? && tasks[z].attempt == 0
  {
    match y {
      case Pending(_, _, _) => reset, tasks := first, map[h := y];
      case InFlight(_, _, _, _, _) => reset, tasks := OpenedBy(hasher, first, h, y, Requeue(h, ZERO_VERSION));
      case Unfulfillable(_, _, _, _, _) => reset, tasks := OpenedBy(hasher, first, h, y, Reinject(h, ZERO_VERSION));
      case Blocked(_, _, _) => reset, tasks := OpenedBySetup(hasher, first, h, y);
    }
  }

  lemma OpenedBySetup(hasher: Hasher, first: seq<Step>, h: Hash, y: TaskState)
    returns (reset: seq<Step>, tasks: Ledger)
    requires Leads(hasher, first, map[h := y]) && y.Blocked? && y.on != h
    ensures reset == first + [Rewrites(Create(y.on, y.def, []))] + [Rewrites(SetupDone(y.on))]
    ensures Leads(hasher, reset, tasks) && tasks == map[h := Resumed(y), y.on := SetupCompleted(y.def, 0)]
  {
    var create, done := Rewrites(Create(y.on, y.def, [])), Rewrites(SetupDone(y.on));
    var made: Ledger := map[h := y, y.on := Pending(y.def, ZERO_VERSION, 0)];
    LeadsOn(hasher, first, create, map[h := y]);
    assert Next(hasher, map[h := y], create) == made;
    LeadsOn(hasher, first + [create], done, made);
    assert BlockedOn(made, h, y.on);
    reset, tasks := first + [create] + [done], map[h := Resumed(y), y.on := SetupCompleted(y.def, 0)];
    assert Next(hasher, made, done) == tasks;
  }

  lemma OpenedBy(hasher: Hasher, first: seq<Step>, h: Hash, y: TaskState, r: Rewrite)
    returns (reset: seq<Step>, tasks: Ledger)
    requires Leads(hasher, first, map[h := y]) && r.h == h && Applies(map[h := y], r) && !r.Create? && !r.SetupDone?
    ensures first <= reset && Leads(hasher, reset, tasks) && reset == first + [Rewrites(r)]
    ensures tasks == map[h := Written(map[h := y], r)]
  {
    LeadsOn(hasher, first, Rewrites(r), map[h := y]);
    reset, tasks := first + [Rewrites(r)], map[h := Written(map[h := y], r)];
    assert Rewritten(map[h := y], r) == tasks;
  }

  lemma DeadBeatsSetup(hasher: Hasher, d: TaskState, s: TaskState)
    requires NeverProduces(d) && s.SetupCompleted? && s.attempt == 0
    ensures Dominates(hasher, d, s)
  {
    if d.attempt > 0 {
      OutcomeOrder(hasher, d, s);
    } else {
      var lo, hi := Rank(hasher, s), Rank(hasher, d);
      assert lo[..2] == hi[..2];
      LexOrder.FirstDifference(lo, hi, 2);
    }
  }

  /** Paused on a task that then fails for good, the slot has failed. */
  lemma PausedAndFailed(hasher: Hasher, reset: seq<Step>, tasks: Ledger, h: Hash, d: Delivery)
    returns (failed: seq<Step>, after: Ledger)
    requires Leads(hasher, reset, tasks) && h in tasks && tasks[h].Pending? && d.h != h && NeverProduces(d.state)
    requires forall z :: z in tasks && z != h ==> tasks[z].SetupCompleted? && tasks[z].attempt == 0
    ensures failed == reset + [Rewrites(Block(h, d.h))] + [Joins(d)]
    ensures Leads(hasher, failed, after) && h in after && after[h].Failed?
  {
    var block := Rewrites(Block(h, d.h));
    var paused := Next(hasher, tasks, block);
    LeadsOn(hasher, reset, block, tasks);
    LeadsOn(hasher, reset + [block], Joins(d), paused);
    if d.h in paused { DeadBeatsSetup(hasher, d.state, paused[d.h]); }
    assert Chain(paused, [h, d.h], h, d.h);
    failed, after := reset + [block] + [Joins(d)], Next(hasher, paused, Joins(d));
  }

  lemma ReopeningCompletesTwice(hasher: Hasher, u: seq<Delivery>, h: Hash, c: TaskState, y: TaskState)
    returns (run: seq<Step>)
    requires Reopens(hasher, u, h, c, y)
    ensures Observes(run, u) && !CompletesAtMostOnce(hasher, run, h)
  {
    var first := [Joins(Delivery(h, c))] + [Joins(Delivery(h, y))];
    StartAndTake(hasher, h, c, y);
    if y.Failed? {
      run := RetriedCompletesAgain(hasher, u, first, h, c, map[h := y]);
    } else {
      var d :| d in u && d.h != h && NeverProduces(d.state);
      var reset, tasks := Opened(hasher, first, h, y);
      var failed, after := PausedAndFailed(hasher, reset, tasks, h, d);
      assert failed[0] == reset[0] == first[0];
      run := RetriedCompletesAgain(hasher, u, failed, h, c, after);
    }
  }

  /** "At most once per hash", whatever the order and repetition of some observations and
      whatever rewrites come between.  Without stale retries it holds exactly when nothing
      but completions ranks between two of the task's completions; with them, exactly when
      moreover nothing above a completion can be taken back. */
  lemma CompletesOnceExactly(hasher: Hasher, u: seq<Delivery>, h: Hash)
    ensures (forall run :: Fresh(hasher, run) && Observes(run, u) ==> CompletesAtMostOnce(hasher, run, h)) <==>
            !exists c, y, c' :: Between(hasher, u, h, c, y, c')
    ensures (forall run :: Observes(run, u) ==> CompletesAtMostOnce(hasher, run, h)) <==>
            !(exists c, y, c' :: Between(hasher, u, h, c, y, c')) && !(exists c, y :: Reopens(hasher, u, h, c, y))
  {
    if exists c, y, c' :: Between(hasher, u, h, c, y, c') {
      var c, y, c' :| Between(hasher, u, h, c, y, c');
      var run := BetweenCompletesTwice(hasher, u, h, c, y, c');
    } else {
      forall run | Observes(run, u) && (Fresh(hasher, run) || NothingReopens(hasher, u, h))
        ensures CompletesAtMostOnce(hasher, run, h)
      {
        OnceWithoutBetween(hasher, run, u, h);
      }
      if exists c, y :: Reopens(hasher, u, h, c, y) {
        var c, y :| Reopens(hasher, u, h, c, y);
        var run := ReopeningCompletesTwice(hasher, u, h, c, y);
      }
    }
  }

  lemma OnceWithoutBetween(hasher: Hasher, run: seq<Step>, u: seq<Delivery>, h: Hash)
    requires Observes(run, u) && (Fresh(hasher, run) || NothingReopens(hasher, u, h))
    requires !exists c, y, c' :: Between(hasher, u, h, c, y, c')
    ensures CompletesAtMostOnce(hasher, run, h)
  {
    forall m: nat, n: nat | m < n && CompletesAt(hasher, run, m, h) ensures !CompletesAt(hasher, run, n, h) {
      if CompletesAt(hasher, run, n, h) { SecondCompletion(hasher, run, u, m, n, h); }
    }
  }
}
