/**
 One step of a ledger: a join, or one of the authoritative rewrites that bypass it
 (crates/dynrunner-manager-distributed/src/cluster_state/apply.rs).  What a step can
 take back, and exactly when.
 */
module LedgerSteps {
  import LexOrder
  import opened TaskJoin
  import opened TaskJoinTheorems

  datatype Delivery = Delivery(h: Hash, state: TaskState)

  datatype Step = Joins(d: Delivery) | Rewrites(r: Rewrite)

  /** What a winning join makes of the ledger. */
  ghost function Merge(before: Ledger, h: Hash, incoming: TaskState): Ledger {
    map x | x in before.Keys + {h} ::
      if x == h then incoming
      else if NewlyCompleted(before, h, incoming) && BlockedOn(before, x, h) then Resumed(before[x])
      else if NeverProduces(incoming) && Awaits(before, x, h) then UpstreamFailed(before[x])
      else before[x]
  }

  ghost function Join(hasher: Hasher, before: Ledger, d: Delivery): Ledger {
    if Wins(hasher, before, d.h, d.state) then Merge(before, d.h, d.state) else before
  }

  /** `Join` is what the object's join does to its ledger, and all it can do. */
  lemma JoinIsTheJoin(hasher: Hasher, before: Ledger, after: Ledger, d: Delivery)
    ensures Joined(hasher, before, after, d.h, d.state) <==> after == Join(hasher, before, d)
  {
    if Joined(hasher, before, after, d.h, d.state) && Wins(hasher, before, d.h, d.state) {
      assert Merged(before, Merge(before, d.h, d.state), d.h, d.state);
      MergeIsDeterministic(before, after, Merge(before, d.h, d.state), d.h, d.state);
    }
  }

  ghost function Next(hasher: Hasher, before: Ledger, step: Step): Ledger {
    match step
    case Joins(d) => Join(hasher, before, d)
    case Rewrites(r) => Rewritten(before, r)
  }

  // ---------------------------------------------------------------------
  // Floors of a slot
  // ---------------------------------------------------------------------

  /** The slot of `h` is filled, at `x` or above. */
  predicate AtLeast(hasher: Hasher, tasks: Ledger, h: Hash, x: TaskState) {
    h in tasks && LexOrder.AtMost(Rank(hasher, x), Rank(hasher, tasks[h]))
  }

  /** States no resume can take the slot below: outcomes, and a pending task at the
      zero version, which is the least state of its attempt. */
  predicate Lasting(x: TaskState) {
    Terminal(x) || (x.Pending? && x.version == ZERO_VERSION)
  }

  lemma DominatingAttempt(hasher: Hasher, x: TaskState, y: TaskState)
    requires LexOrder.AtMost(Rank(hasher, x), Rank(hasher, y))
    ensures x.attempt <= y.attempt
  {
    assert Rank(hasher, x)[0] == x.attempt && Rank(hasher, y)[0] == y.attempt;
  }

  /** A state above the zero-version pending state of its attempt differs from it first
      at the attempt, the band, or one of the fields that order live states. */
  lemma AbovePending(hasher: Hasher, x: TaskState, y: TaskState)
    requires x.Pending? && x.version == ZERO_VERSION && x.attempt <= y.attempt
    requires !(y.Pending? && y.version == ZERO_VERSION && x.attempt == y.attempt)
    ensures LexOrder.Less(Rank(hasher, x), Rank(hasher, y))
  {
    var a, b := Rank(hasher, x), Rank(hasher, y);
    var k := if x.attempt < y.attempt then 0
             else if !y.Pending? && !y.InFlight? then 1
             else if y.version.primaryEpoch > 0 then 3
             else if y.version.seqNo > 0 then 4
             else 5;
    assert a[..k] == b[..k];
    LexOrder.FirstDifference(a, b, k);
  }

  lemma LeastOfItsAttempt(hasher: Hasher, x: TaskState, y: TaskState)
    requires x.Pending? && x.version == ZERO_VERSION && x.attempt <= y.attempt
    ensures LexOrder.AtMost(Rank(hasher, x), Rank(hasher, y))
  {
    if y.Pending? && y.version == ZERO_VERSION && x.attempt == y.attempt {
      LexOrder.Irreflexive(Rank(hasher, x));
    } else {
      AbovePending(hasher, x, y);
      LexOrder.Asymmetric(Rank(hasher, x), Rank(hasher, y));
    }
  }

  /** A resume takes a blocked slot below no lasting state it was above. */
  lemma ResumeKeepsFloor(hasher: Hasher, x: TaskState, b: TaskState)
    requires Lasting(x) && b.Blocked? && LexOrder.AtMost(Rank(hasher, x), Rank(hasher, b))
    ensures LexOrder.AtMost(Rank(hasher, x), Rank(hasher, Resumed(b)))
  {
    DominatingAttempt(hasher, x, b);
    if x.Pending? {
      LeastOfItsAttempt(hasher, x, Resumed(b));
    } else {
      OutcomeOrder(hasher, x, b);
      OutcomeOrder(hasher, Resumed(b), x);
      LexOrder.Asymmetric(Rank(hasher, x), Rank(hasher, Resumed(b)));
      LexOrder.Asymmetric(Rank(hasher, x), Rank(hasher, b));
    }
  }

  lemma JoinKeepsFloor(hasher: Hasher, before: Ledger, d: Delivery, h: Hash, x: TaskState)
    requires Lasting(x) && AtLeast(hasher, before, h, x)
    ensures AtLeast(hasher, Join(hasher, before, d), h, x)
  {
    var after := Join(hasher, before, d);
    if after[h] != before[h] {
      if d.h == h {
        LexOrder.Asymmetric(Rank(hasher, before[h]), Rank(hasher, d.state));
        LexOrder.AtMostTransitive(Rank(hasher, x), Rank(hasher, before[h]), Rank(hasher, d.state));
      } else if BlockedOn(before, h, d.h) && NewlyCompleted(before, d.h, d.state) {
        ResumeKeepsFloor(hasher, x, before[h]);
      } else {
        OnlyBlockedAwaits(before, h, d.h);
        UpstreamFailureWins(hasher, before[h]);
        LexOrder.Asymmetric(Rank(hasher, before[h]), Rank(hasher, UpstreamFailed(before[h])));
        LexOrder.AtMostTransitive(Rank(hasher, x), Rank(hasher, before[h]), Rank(hasher, UpstreamFailed(before[h])));
      }
    }
  }

  lemma DeliveredIsHeld(hasher: Hasher, before: Ledger, d: Delivery)
    ensures AtLeast(hasher, Join(hasher, before, d), d.h, d.state)
  {
    LexOrder.Irreflexive(Rank(hasher, d.state));
  }

  /** A live state does not beat a block of its attempt, and anything but the least
      live state beats what a resume leaves. */
  lemma NotAboveBlock(hasher: Hasher, s: TaskState, block: TaskState)
    requires !Lasting(s) && block.Blocked? && block.attempt == s.attempt
    ensures !Dominates(hasher, s, block) && Dominates(hasher, s, Resumed(block))
  {
    var a, b := Rank(hasher, s), Rank(hasher, block);
    AbovePending(hasher, Resumed(block), s);
    if s.Blocked? {
      LexOrder.Irreflexive(a);
    } else {
      assert a[..1] == b[..1];
      LexOrder.FirstDifference(a, b, 1);
      LexOrder.Asymmetric(a, b);
    }
  }

  // ---------------------------------------------------------------------
  // What a rewrite lowers
  // ---------------------------------------------------------------------

  /** The step takes the slot of `h` below an outcome of the given attempt, or below the
      least live state of it: a reinjection of the very attempt, or a retry that names an
      attempt no later. */
  predicate Lowers(before: Ledger, step: Step, h: Hash, attempt: nat, outcome: bool) {
    && step.Rewrites? && step.r.h == h && h in before
    && match step.r
       case Reinject(_, _) => before[h].Unfulfillable? && before[h].attempt == attempt && outcome
       case Retry(_, a, _) => before[h].Failed? && (a < attempt || (a == attempt && outcome))
       case _ => false
  }

  /** A pending state, whatever its version, against a lasting one. */
  lemma PendingAgainst(hasher: Hasher, x: TaskState, p: TaskState)
    requires Lasting(x) && p.Pending?
    ensures LexOrder.AtMost(Rank(hasher, x), Rank(hasher, p)) <==>
            x.attempt < p.attempt || (x.attempt == p.attempt && !Terminal(x))
  {
    if x.attempt < p.attempt {
      OutcomeOrder(hasher, p, x);
      LexOrder.Asymmetric(Rank(hasher, x), Rank(hasher, p));
    } else if x.attempt == p.attempt && !Terminal(x) {
      LeastOfItsAttempt(hasher, x, p);
    } else {
      OutcomeOrder(hasher, x, p);
    }
  }

  lemma BlockedIsAbove(hasher: Hasher, p: TaskState, b: TaskState)
    requires p.Pending? && b.Blocked? && p.attempt == b.attempt
    ensures Dominates(hasher, b, p)
  {
    var lo, hi := Rank(hasher, p), Rank(hasher, b);
    assert lo[..1] == hi[..1];
    LexOrder.FirstDifference(lo, hi, 1);
  }

  lemma RisesAbove(hasher: Hasher, x: TaskState, s: TaskState, t: TaskState)
    requires LexOrder.AtMost(Rank(hasher, x), Rank(hasher, s)) && Dominates(hasher, t, s)
    ensures LexOrder.AtMost(Rank(hasher, x), Rank(hasher, t))
  {
    LexOrder.AtMostThenLess(Rank(hasher, x), Rank(hasher, s), Rank(hasher, t));
    LexOrder.Asymmetric(Rank(hasher, x), Rank(hasher, t));
  }

  /** The slot a rewrite acts on. */
  lemma WrittenAgainstFloor(hasher: Hasher, before: Ledger, r: Rewrite, x: TaskState)
    requires Applies(before, r) && !r.Create? && Lasting(x) && AtLeast(hasher, before, r.h, x)
    ensures LexOrder.AtMost(Rank(hasher, x), Rank(hasher, Written(before, r))) <==>
            !Lowers(before, Rewrites(r), r.h, x.attempt, Terminal(x))
  {
    var s, t := before[r.h], Written(before, r);
    DominatingAttempt(hasher, x, s);
    match r {
      case Reinject(_, _) => PendingAgainst(hasher, x, t);
      case Requeue(_, _) =>
        OutcomeOrder(hasher, x, s);
        PendingAgainst(hasher, x, t);
      case Retry(_, _, _) => PendingAgainst(hasher, x, t);
      case Block(_, _) =>
        BlockedIsAbove(hasher, s, t);
        RisesAbove(hasher, x, s, t);
      case Skip(_) =>
        OutcomeOrder(hasher, t, s);
        RisesAbove(hasher, x, s, t);
      case SetupDone(_) =>
        OutcomeOrder(hasher, t, s);
        RisesAbove(hasher, x, s, t);
    }
  }

  /** A step keeps a lasting floor of a slot exactly when it is no such reset. */
  lemma StepKeepsFloorExactly(hasher: Hasher, before: Ledger, step: Step, h: Hash, x: TaskState)
    requires Lasting(x) && AtLeast(hasher, before, h, x)
    ensures AtLeast(hasher, Next(hasher, before, step), h, x) <==> !Lowers(before, step, h, x.attempt, Terminal(x))
  {
    match step {
      case Joins(d) => JoinKeepsFloor(hasher, before, d, h, x);
      case Rewrites(r) =>
        if Applies(before, r) {
          if r.h == h {
            WrittenAgainstFloor(hasher, before, r, x);
          } else if r.SetupDone? && BlockedOn(before, h, r.h) {
            ResumeKeepsFloor(hasher, x, before[h]);
          }
        }
    }
  }

  /** A retry that names no later attempt than the failure it meets: redelivered after
      the task failed again, or overtaken by a later retry. */
  predicate StaleRetry(before: Ledger, step: Step) {
    && step.Rewrites? && step.r.Retry? && step.r.h in before
    && before[step.r.h].Failed? && step.r.attempt <= before[step.r.h].attempt
  }

  /** Without stale retries only a reinjection lowers anything, and nothing that outranks
      an unfulfillable task. */
  lemma LoweredOnlyBy(hasher: Hasher, before: Ledger, step: Step, h: Hash, x: TaskState)
    requires Lasting(x) && AtLeast(hasher, before, h, x) && Lowers(before, step, h, x.attempt, Terminal(x))
    ensures StaleRetry(before, step) || (step.r.Reinject? && Terminal(x) && !x.Completed? && !x.InvalidTask?)
  {
    DominatingAttempt(hasher, x, before[h]);
    if step.r.Reinject? && (x.Completed? || x.InvalidTask?) {
      OutranksFailures(hasher, x, before[h]);
    }
  }

  /** Completions and invalid tasks outrank every other outcome of their attempt. */
  lemma OutranksFailures(hasher: Hasher, x: TaskState, y: TaskState)
    requires x.Completed? || x.InvalidTask?
    requires x.attempt == y.attempt && Terminal(y) && !y.Completed? && !y.InvalidTask?
    ensures Dominates(hasher, x, y)
  {
    var lo, hi := Rank(hasher, y), Rank(hasher, x);
    assert lo[..2] == hi[..2];
    LexOrder.FirstDifference(lo, hi, 2);
  }

  lemma CompletionsOrderByAttempt(hasher: Hasher, c: TaskState, c': TaskState)
    requires c.Completed? && c'.Completed? && Dominates(hasher, c', c)
    ensures c.attempt < c'.attempt
  {
    LexOrder.Asymmetric(Rank(hasher, c), Rank(hasher, c'));
    DominatingAttempt(hasher, c, c');
    if c.attempt == c'.attempt { LexOrder.Irreflexive(Rank(hasher, c)); }
  }

  /** A step takes the attempt of a slot back exactly when it is a retry that names an
      earlier one than the failure it meets. */
  lemma AttemptGoesBackExactly(hasher: Hasher, before: Ledger, step: Step, h: Hash)
    requires h in before
    ensures var after := Next(hasher, before, step);
            && h in after
            && (after[h].attempt < before[h].attempt <==>
                StaleRetry(before, step) && step.r.h == h && step.r.attempt < before[h].attempt)
  {
    if step.Joins? && step.d.h == h && Wins(hasher, before, h, step.d.state) {
      LexOrder.Asymmetric(Rank(hasher, before[h]), Rank(hasher, step.d.state));
      DominatingAttempt(hasher, before[h], step.d.state);
    }
  }

  /** The steps in which the rank of the slot of `x` drops. */
  predicate Drops(hasher: Hasher, before: Ledger, step: Step, x: Hash)
    requires x in before
  {
    match step
    case Joins(d) =>
      d.h != x && Wins(hasher, before, d.h, d.state) && NewlyCompleted(before, d.h, d.state) && BlockedOn(before, x, d.h)
    case Rewrites(r) =>
      match r
      case Reinject(h, _) => h == x && before[x].Unfulfillable?
      case Requeue(h, v) => h == x && before[x].InFlight? && !VersionLess(before[x].version, v)
      case Retry(h, a, _) => h == x && before[x].Failed? && a <= before[x].attempt
      case SetupDone(h) => h != x && Applies(before, r) && BlockedOn(before, x, h)
      case _ => false
  }

  lemma VersionOrder(v: TaskVersion, w: TaskVersion)
    ensures VersionLess(v, w) <==>
            v.primaryEpoch < w.primaryEpoch || (v.primaryEpoch == w.primaryEpoch && v.seqNo < w.seqNo)
  {
    var a, b := [v.primaryEpoch, v.seqNo], [w.primaryEpoch, w.seqNo];
    assert a[1..] == [v.seqNo] && b[1..] == [w.seqNo];
    assert [v.seqNo][1..] == [] && [w.seqNo][1..] == [];
    assert LexOrder.Less([v.seqNo], [w.seqNo]) <==> v.seqNo < w.seqNo;
  }

  lemma RequeueDrops(hasher: Hasher, s: TaskState, v: TaskVersion)
    requires s.InFlight?
    ensures Dominates(hasher, s, Pending(s.def, v, s.attempt)) <==> !VersionLess(s.version, v)
  {
    var lo, hi := Rank(hasher, Pending(s.def, v, s.attempt)), Rank(hasher, s);
    var k := if v.primaryEpoch != s.version.primaryEpoch then 3 else if v.seqNo != s.version.seqNo then 4 else 5;
    assert lo[..k] == hi[..k];
    VersionOrder(s.version, v);
    if !VersionLess(s.version, v) {
      LexOrder.FirstDifference(lo, hi, k);
    } else {
      LexOrder.FirstDifference(hi, lo, k);
      LexOrder.Asymmetric(lo, hi);
    }
  }

  lemma WrittenDrops(hasher: Hasher, before: Ledger, r: Rewrite)
    requires Applies(before, r) && !r.Create?
    ensures Dominates(hasher, before[r.h], Written(before, r)) <==> Drops(hasher, before, Rewrites(r), r.h)
  {
    var s, t := before[r.h], Written(before, r);
    LexOrder.Asymmetric(Rank(hasher, s), Rank(hasher, t));
    match r {
      case Reinject(_, _) => OutcomeOrder(hasher, s, t);
      case Requeue(_, v) => RequeueDrops(hasher, s, v);
      case Retry(_, _, _) =>
        OutcomeOrder(hasher, s, t);
        OutcomeOrder(hasher, t, s);
      case Block(_, _) => BlockedIsAbove(hasher, s, t);
      case Skip(_) => OutcomeOrder(hasher, t, s);
      case SetupDone(_) => OutcomeOrder(hasher, t, s);
    }
  }

  /** The rank of a slot drops exactly when a completion or a setup success resumes it, it
      is reinjected, requeued under no later version, or retried under no later attempt. */
  lemma RanksDropExactly(hasher: Hasher, before: Ledger, step: Step, x: Hash)
    requires x in before
    ensures var after := Next(hasher, before, step);
            x in after && (Dominates(hasher, before[x], after[x]) <==> Drops(hasher, before, step, x))
  {
    LexOrder.Irreflexive(Rank(hasher, before[x]));
    match step {
      case Joins(d) =>
        if Wins(hasher, before, d.h, d.state) {
          OnlyResumesDrop(hasher, before, Merge(before, d.h, d.state), d.h, d.state, x);
        }
      case Rewrites(r) =>
        if Applies(before, r) {
          if r.h == x {
            WrittenDrops(hasher, before, r);
          } else if r.SetupDone? && BlockedOn(before, x, r.h) {
            ResumedIsBelow(hasher, before[x]);
          }
        }
    }
  }

  // ---------------------------------------------------------------------
  // Wake-ups and rewrites
  // ---------------------------------------------------------------------

  /** A rewrite that leaves somebody waiting for something decided: a task created dead or
      skipped while others wait for it, and a pause on a decided prerequisite. */
  ghost predicate Strands(before: Ledger, r: Rewrite) {
    Applies(before, r)
    && match r
       case Create(h, _, deps) => SomeDepIsDead(before, deps) && exists x :: BlockedOn(before, x, h)
       case Block(h, on) => on != h && on in before && Settled(before[on])
       case Skip(h) => exists x :: BlockedOn(before, x, h)
       case _ => false
  }

  lemma {:induction false} FirstDepIs(tasks: Ledger, deps: seq<Hash>, unfulfillable: bool)
    ensures var d := FirstDep(tasks, deps, unfulfillable);
            d.Some? ==> d.value in tasks && !Settled(tasks[d.value])
  {
    if deps != [] { FirstDepIs(tasks, deps[1..], unfulfillable); }
  }

  lemma EntryWaitsForTheUndecided(tasks: Ledger, def: TaskDef, deps: seq<Hash>)
    ensures var s := Entry(tasks, def, deps);
            && (s.Blocked? ==> s.on in tasks && !Settled(tasks[s.on]))
            && (Settled(s) <==> SomeDepIsDead(tasks, deps))
  {
    FirstDepIs(tasks, deps, true);
    FirstDepIs(tasks, deps, false);
  }

  lemma StrandedWait(before: Ledger, r: Rewrite)
    requires Strands(before, r)
    ensures !NoLostWakeup(Rewritten(before, r))
  {
    var after := Rewritten(before, r);
    match r {
      case Create(h, def, deps) =>
        EntryWaitsForTheUndecided(before, def, deps);
        var x :| BlockedOn(before, x, h);
        assert BlockedOn(after, x, h);
      case Block(h, on) => assert BlockedOn(after, h, on);
      case Skip(h) =>
        var x :| BlockedOn(before, x, h);
        assert BlockedOn(after, x, h);
      case _ =>
    }
  }

  /** A rewrite keeps every waiter waiting for something undecided exactly when it is none
      of those; a setup success, unlike a skip, always does. */
  lemma RewritesKeepWakeupsExactly(before: Ledger, r: Rewrite)
    requires NoLostWakeup(before)
    ensures NoLostWakeup(Rewritten(before, r)) <==> !Strands(before, r)
  {
    if Strands(before, r) {
      StrandedWait(before, r);
    } else if Applies(before, r) {
      var after := Rewritten(before, r);
      if r.Create? { EntryWaitsForTheUndecided(before, r.def, r.deps); }
      forall x, g | BlockedOn(after, x, g) && g in after ensures !Settled(after[g]) {
        if x != r.h { assert BlockedOn(before, x, g); }
      }
    }
  }
}
