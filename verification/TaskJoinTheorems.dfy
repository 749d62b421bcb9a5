/**
 What one join of the task ledger does to the others, and when two joins commute.
 */
module TaskJoinTheorems {
  import opened Wrappers
  import LexOrder
  import opened TaskJoin

  // ---------------------------------------------------------------------
  // What a tie means
  // ---------------------------------------------------------------------

  /** Equal but for the fields the key does not read: the definition, who is
      running an in-flight task, and what a blocked task waits for. */
  predicate SameRecord(x: TaskState, y: TaskState) {
    match (x, y)
    case (Pending(_, v, a), Pending(_, v', a')) => v == v' && a == a'
    case (InFlight(_, _, _, v, a), InFlight(_, _, _, v', a')) => v == v' && a == a'
    case (Blocked(_, _, a), Blocked(_, _, a')) => a == a'
    case (Completed(_, a), Completed(_, a')) => a == a'
    case (Failed(_, k, e, v, a), Failed(_, k', e', v', a')) => k == k' && e == e' && v == v' && a == a'
    case (Unfulfillable(_, r, e, v, a), Unfulfillable(_, r', e', v', a')) => r == r' && e == e' && v == v' && a == a'
    case (InvalidTask(_, r, e, v, a), InvalidTask(_, r', e', v', a')) => r == r' && e == e' && v == v' && a == a'
    case (SkippedAlreadyDone(_, a), SkippedAlreadyDone(_, a')) => a == a'
    case (SetupCompleted(_, a), SetupCompleted(_, a')) => a == a'
    case _ => false
  }

  ghost predicate Injective(hasher: Hasher) {
    forall p, q :: hasher(p) == hasher(q) ==> p == q
  }

  /** With a collision-free content hash two states tie exactly when they are the
      same record; the source's claim that a tie means equal payloads holds for
      every state except the holder of an in-flight task and the prerequisite of
      a blocked one. */
  lemma TieIsSameRecord(hasher: Hasher, x: TaskState, y: TaskState)
    requires Injective(hasher)
    ensures Rank(hasher, x) == Rank(hasher, y) <==> SameRecord(x, y)
  {
  }

  predicate Terminal(s: TaskState) {
    !s.Pending? && !s.InFlight? && !s.Blocked?
  }

  /** The order of outcomes: a newer attempt beats everything older; within an
      attempt an outcome beats every live state, and an invalid task beats every
      other outcome. */
  lemma OutcomeOrder(hasher: Hasher, x: TaskState, y: TaskState)
    ensures x.attempt > y.attempt ==> Dominates(hasher, x, y)
    ensures x.attempt == y.attempt && Terminal(x) && !Terminal(y) ==> Dominates(hasher, x, y)
    ensures x.attempt == y.attempt && x.InvalidTask? && Terminal(y) && !y.InvalidTask? ==> Dominates(hasher, x, y)
  {
    var a, b := Rank(hasher, y), Rank(hasher, x);
    if x.attempt > y.attempt {
      LexOrder.FirstDifference(a, b, 0);
    } else if x.attempt == y.attempt && Terminal(x) && !Terminal(y) {
      assert a[..1] == b[..1];
      LexOrder.FirstDifference(a, b, 1);
    } else if x.attempt == y.attempt && x.InvalidTask? && Terminal(y) && !y.InvalidTask? {
      assert a[..2] == b[..2];
      LexOrder.FirstDifference(a, b, 2);
    }
  }

  /** How far a state has come within its attempt. */
  function Stage(s: TaskState): nat {
    match s
    case Pending(_, _, _) => 0
    case InFlight(_, _, _, _, _) => 0
    case Blocked(_, _, _) => 1
    case SkippedAlreadyDone(_, _) => 2
    case SetupCompleted(_, _) => 3
    case Failed(_, _, _, _, _) => 4
    case Unfulfillable(_, _, _, _, _) => 4
    case Completed(_, _) => 5
    case InvalidTask(_, _, _, _, _) => 6
  }

  predicate Newer(v: TaskVersion, w: TaskVersion) {
    v.primaryEpoch > w.primaryEpoch || (v.primaryEpoch == w.primaryEpoch && v.seqNo > w.seqNo)
  }

  /** Between two states of one attempt and stage: the newer version, then the running
      over the pending and the unfulfillable over the failed, then the content hash. */
  predicate Outdoes(hasher: Hasher, x: TaskState, y: TaskState)
    requires Stage(x) == Stage(y)
  {
    match x
    case Pending(_, v, _) => Newer(v, y.version)
    case InFlight(_, _, _, v, _) => Newer(v, y.version) || (v == y.version && y.Pending?)
    case Failed(_, kind, error, v, _) =>
      Newer(v, y.version)
      || (v == y.version && y.Failed? && hasher(FailedPayload(kind, error)) > hasher(FailedPayload(y.kind, y.lastError)))
    case Unfulfillable(_, reason, error, v, _) =>
      Newer(v, y.version)
      || (v == y.version
          && (y.Failed? || hasher(UnfulfillablePayload(reason, error)) > hasher(UnfulfillablePayload(y.reason, y.lastError))))
    case InvalidTask(_, reason, error, v, _) =>
      Newer(v, y.version)
      || (v == y.version && hasher(InvalidPayload(reason, error)) > hasher(InvalidPayload(y.reason, y.lastError)))
    case Blocked(_, _, _) => false
    case SkippedAlreadyDone(_, _) => false
    case SetupCompleted(_, _) => false
    case Completed(_, _) => false
  }

  /** The whole order, state by state. */
  lemma DominatesExactly(hasher: Hasher, x: TaskState, y: TaskState)
    ensures Dominates(hasher, x, y) <==>
            || x.attempt > y.attempt
            || (x.attempt == y.attempt && Stage(x) > Stage(y))
            || (x.attempt == y.attempt && Stage(x) == Stage(y) && Outdoes(hasher, x, y))
  {
    KeysCompare(KeyOf(hasher, y), KeyOf(hasher, x));
  }

  /** Eight fields, compared one after the other. */
  lemma KeysCompare(j: JoinKey, k: JoinKey)
    ensures LexOrder.Less(j.Fields(), k.Fields()) <==>
            || j.attempt < k.attempt
            || (j.attempt == k.attempt &&
                (|| j.band < k.band
                 || (j.band == k.band &&
                     (|| j.terminalRank < k.terminalRank
                      || (j.terminalRank == k.terminalRank &&
                          (|| Newer(k.version, j.version)
                           || (j.version == k.version && LastFieldsCompare(j, k))))))))
  {
    var a, b := j.Fields(), k.Fields();
    LexOrder.From(a, b, 0);
    LexOrder.From(a, b, 1);
    LexOrder.From(a, b, 2);
    LexOrder.From(a, b, 3);
    LexOrder.From(a, b, 4);
    LastKeysCompare(j, k);
    assert a[0..] == a && b[0..] == b;
  }

  lemma LastKeysCompare(j: JoinKey, k: JoinKey)
    ensures LexOrder.Less(j.Fields()[5..], k.Fields()[5..]) <==> LastFieldsCompare(j, k)
  {
    var a, b := j.Fields(), k.Fields();
    LexOrder.From(a, b, 5);
    LexOrder.From(a, b, 6);
    LexOrder.From(a, b, 7);
    assert a[8..] == [] && b[8..] == [];
  }

  predicate LastFieldsCompare(j: JoinKey, k: JoinKey) {
    || j.nonterminalRank < k.nonterminalRank
    || (j.nonterminalRank == k.nonterminalRank &&
        (|| j.failedlike < k.failedlike
         || (j.failedlike == k.failedlike && j.payloadHash < k.payloadHash)))
  }

  // ---------------------------------------------------------------------
  // The whole ledger
  // ---------------------------------------------------------------------

  /** The ledger after a winning join does not depend on the order in which the
      hash maps are iterated. */
  lemma MergeIsDeterministic(before: Ledger, a: Ledger, b: Ledger, h: Hash, incoming: TaskState)
    requires Merged(before, a, h, incoming) && Merged(before, b, h, incoming)
    ensures a == b
  {
  }

  /** In a join the slots whose rank drops are exactly those a completion resumes. */
  lemma OnlyResumesDrop(hasher: Hasher, before: Ledger, after: Ledger, h: Hash, incoming: TaskState, x: Hash)
    requires Wins(hasher, before, h, incoming) && Merged(before, after, h, incoming) && x in before
    ensures LexOrder.Less(Rank(hasher, after[x]), Rank(hasher, before[x])) <==>
            x != h && NewlyCompleted(before, h, incoming) && BlockedOn(before, x, h)
  {
    LexOrder.Irreflexive(Rank(hasher, before[x]));
    if x == h {
      LexOrder.Asymmetric(Rank(hasher, before[h]), Rank(hasher, incoming));
    } else if NewlyCompleted(before, h, incoming) && BlockedOn(before, x, h) {
      ResumedIsBelow(hasher, before[x]);
    } else if NeverProduces(incoming) && Awaits(before, x, h) {
      OnlyBlockedAwaits(before, x, h);
      UpstreamFailureWins(hasher, before[x]);
      LexOrder.Asymmetric(Rank(hasher, before[x]), Rank(hasher, after[x]));
    }
  }

  lemma ResumedIsBelow(hasher: Hasher, b: TaskState)
    requires b.Blocked?
    ensures Dominates(hasher, b, Resumed(b))
  {
    var lo, hi := Rank(hasher, Resumed(b)), Rank(hasher, b);
    assert lo[..1] == hi[..1];
    LexOrder.FirstDifference(lo, hi, 1);
  }

  // ---------------------------------------------------------------------
  // The rewrites, one by one
  // ---------------------------------------------------------------------

  /** What each rewrite makes of its slot: the definition stays; the attempt stays unless a
      retry sets it; a task put back to pending carries the version it was put back with. */
  lemma RewritesExactly(tasks: Ledger, r: Rewrite)
    ensures var after := Rewritten(tasks, r);
            var before := if r.h in tasks then Some(tasks[r.h]) else None;
            match r
            case Create(h, def, deps) =>
              if before.None? then h in after && EntersAs(tasks, def, deps, after[h]) else after == tasks
            case Reinject(h, version) =>
              if before.Some? && before.value.Unfulfillable?
              then h in after && after[h] == Pending(before.value.def, version, before.value.attempt) else after == tasks
            case Requeue(h, version) =>
              if before.Some? && before.value.InFlight?
              then h in after && after[h] == Pending(before.value.def, version, before.value.attempt) else after == tasks
            case Retry(h, attempt, version) =>
              if before.Some? && before.value.Failed?
              then h in after && after[h] == Pending(before.value.def, version, attempt) else after == tasks
            case Block(h, on) =>
              if before.Some? && before.value.Pending?
              then h in after && after[h] == Blocked(before.value.def, on, before.value.attempt) else after == tasks
            case Skip(h) =>
              if before.Some? && before.value.Pending?
              then h in after && after[h] == SkippedAlreadyDone(before.value.def, before.value.attempt)
              else after == tasks
            case SetupDone(h) =>
              if before.Some? && (before.value.Pending? || before.value.InFlight?)
              then h in after && after[h] == SetupCompleted(before.value.def, before.value.attempt) else after == tasks
    ensures Rewritten(tasks, r).Keys <= tasks.Keys + {r.h}
    ensures forall x :: x in tasks && x != r.h ==>
              x in Rewritten(tasks, r)
              && Rewritten(tasks, r)[x] ==
                 if r.SetupDone? && Rewritten(tasks, r) != tasks && tasks[x].Blocked? && tasks[x].on == r.h
                 then Pending(tasks[x].def, TaskVersion(0, 0), tasks[x].attempt) else tasks[x]
  {
    if r.Create? { EntryByStanding(tasks, r.def, r.deps); }
    var after := Rewritten(tasks, r);
    if Applies(tasks, r) && r.h in tasks { assert after[r.h] != tasks[r.h]; }
  }

  // ---------------------------------------------------------------------
  // Wake-ups
  // ---------------------------------------------------------------------

  /** Nothing is left to wait for: the output is there, or it never comes. */
  predicate Settled(s: TaskState) {
    s.Completed? || s.SetupCompleted? || s.SkippedAlreadyDone? || NeverProduces(s)
  }

  /** Nothing waits for a prerequisite that is already decided. */
  ghost predicate NoLostWakeup(tasks: Ledger) {
    forall x, h :: BlockedOn(tasks, x, h) && h in tasks ==> !Settled(tasks[h])
  }

  lemma AwaitsSettled(before: Ledger, after: Ledger, h: Hash, incoming: TaskState, x: Hash, y: Hash)
    requires NeverProduces(incoming) && Merged(before, after, h, incoming)
    requires x in before && x != h && Awaits(before, x, h)
    ensures !BlockedOn(after, y, x)
  {
    var p :| Chain(before, p, x, h);
    if y != h && BlockedOn(before, y, x) {
      assert Chain(before, [y] + p, y, h);
    }
  }

  /** The outcomes that decide a prerequisite and that the join tells nobody about. */
  predicate Unannounced(s: TaskState) {
    s.SetupCompleted? || s.SkippedAlreadyDone?
  }

  /** After a won join a task elsewhere waits for something decided exactly when it waits
      for the slot itself and what came is a setup success or a skip. */
  lemma WaitersStayWoken(before: Ledger, after: Ledger, h: Hash, incoming: TaskState, x: Hash, g: Hash)
    requires NoLostWakeup(before) && Merged(before, after, h, incoming)
    requires BlockedOn(after, x, g) && x != h && g in after
    ensures Settled(after[g]) <==> g == h && Unannounced(incoming)
  {
    assert BlockedOn(before, x, g);
    if g == h {
      assert Chain(before, [x, h], x, h);
    } else if NeverProduces(incoming) && Awaits(before, g, h) {
      AwaitsSettled(before, after, h, incoming, g, x);
    }
  }

  /** A won join keeps every waiter waiting for something undecided exactly when it is
      neither a blocked state naming a decided prerequisite nor a setup success or skip
      that somebody waits for.  Both exceptions are real: a stale snapshot can bury a
      resumed task again, and a setup success that arrives by snapshot resumes nobody. */
  lemma WakeupsSurviveExactly(before: Ledger, after: Ledger, h: Hash, incoming: TaskState)
    requires NoLostWakeup(before) && Merged(before, after, h, incoming)
    ensures NoLostWakeup(after) <==>
            !(incoming.Blocked? && incoming.on != h && incoming.on in before && Settled(before[incoming.on]))
            && !(Unannounced(incoming) && exists x :: x != h && BlockedOn(before, x, h))
  {
    if incoming.Blocked? && incoming.on != h && incoming.on in before && Settled(before[incoming.on]) {
      assert after[incoming.on] == before[incoming.on] by {
        if Awaits(before, incoming.on, h) { OnlyBlockedAwaits(before, incoming.on, h); }
      }
      assert BlockedOn(after, h, incoming.on);
    } else if Unannounced(incoming) && exists x :: x != h && BlockedOn(before, x, h) {
      var x :| x != h && BlockedOn(before, x, h);
      assert BlockedOn(after, x, h);
    } else {
      forall x, g | BlockedOn(after, x, g) && g in after ensures !Settled(after[g]) {
        if x != h {
          assert BlockedOn(before, x, g);
          WaitersStayWoken(before, after, h, incoming, x, g);
        }
      }
    }
  }

  /** Such a lost wake-up: a setup task in flight succeeds, the news comes through the
      join, and the task that waits for it stays blocked.  The arm that applies the
      primary's own announcement resumes it. */
  lemma SetupSuccessUnheard(hasher: Hasher, s: Hash, running: TaskState, b: Hash, waiting: TaskState, after: Ledger)
    requires s != b && running.InFlight? && waiting.Blocked? && waiting.on == s
    requires Joined(hasher, map[s := running, b := waiting], after, s, SetupCompleted(running.def, running.attempt))
    ensures NoLostWakeup(map[s := running, b := waiting])
    ensures BlockedOn(after, b, s) && !NoLostWakeup(after)
    ensures NoLostWakeup(Rewritten(map[s := running, b := waiting], SetupDone(s)))
  {
    var before: Ledger := map[s := running, b := waiting];
    OutcomeOrder(hasher, SetupCompleted(running.def, running.attempt), running);
    assert BlockedOn(before, b, s);
    WakeupsSurviveExactly(before, after, s, SetupCompleted(running.def, running.attempt));
  }

  // ---------------------------------------------------------------------
  // Two joins in either order
  // ---------------------------------------------------------------------

  ghost predicate Live(tasks: Ledger, h: Hash) {
    h in tasks ==> !tasks[h].Blocked?
  }

  /** A task waits on at most one unblocked task. */
  lemma {:induction false} ChainsPart(tasks: Ledger, p: seq<Hash>, q: seq<Hash>, x: Hash, g: Hash, h: Hash)
    requires Live(tasks, g) && Live(tasks, h) && Chain(tasks, p, x, g) && Chain(tasks, q, x, h)
    ensures g == h
    decreases |p|
  {
    assert BlockedOn(tasks, p[0], p[1]) && BlockedOn(tasks, q[0], q[1]);
    if |p| > 2 { assert BlockedOn(tasks, p[1], p[2]); }
    if |q| > 2 { assert BlockedOn(tasks, q[1], q[2]); }
    if |p| > 2 && |q| > 2 {
      assert Chain(tasks, p[1..], p[1], g) && Chain(tasks, q[1..], q[1], h);
      ChainsPart(tasks, p[1..], q[1..], p[1], g, h);
    }
  }

  /** A join into the slot of `g` neither breaks nor makes a wait on `h`. */
  lemma WaitsUnaffected(before: Ledger, mid: Ledger, g: Hash, incoming: TaskState, x: Hash, h: Hash)
    requires Merged(before, mid, g, incoming) && Live(before, g) && Live(before, h) && g != h && !incoming.Blocked?
    ensures Awaits(mid, x, h) <==> Awaits(before, x, h)
    ensures BlockedOn(mid, x, h) <==> BlockedOn(before, x, h)
    ensures Awaits(before, x, h) && x != g && x != h ==> x in before && x in mid && mid[x] == before[x]
  {
    if Awaits(before, x, h) {
      var p :| Chain(before, p, x, h);
      forall i | 0 <= i < |p| - 1 ensures BlockedOn(mid, p[i], p[i + 1]) && p[i] != g && mid[p[i]] == before[p[i]] {
        LinkSurvives(before, mid, g, incoming, p, i, x, h);
      }
      assert Chain(mid, p, x, h);
      LinkSurvives(before, mid, g, incoming, p, 0, x, h);
    }
    if Awaits(mid, x, h) {
      var p :| Chain(mid, p, x, h);
      assert Chain(before, p, x, h);
    }
    if BlockedOn(before, x, h) {
      if x != h {
        assert Chain(before, [x, h], x, h);
        LinkSurvives(before, mid, g, incoming, [x, h], 0, x, h);
      }
    }
  }

  lemma LinkSurvives(
    before: Ledger, mid: Ledger, g: Hash, incoming: TaskState, p: seq<Hash>, i: nat, x: Hash, h: Hash)
    requires Merged(before, mid, g, incoming) && Live(before, g) && Live(before, h) && g != h
    requires Chain(before, p, x, h) && i < |p| - 1
    ensures BlockedOn(before, p[i], p[i + 1]) && p[i] != g && p[i] in mid && mid[p[i]] == before[p[i]]
  {
    var y := p[i];
    assert BlockedOn(before, y, p[i + 1]);
    assert Chain(before, p[i..], y, h);
    if BlockedOn(before, y, g) {
      assert Chain(before, [y, g], y, g);
      ChainsPart(before, [y, g], p[i..], y, g, h);
    }
    if Awaits(before, y, g) {
      var q :| Chain(before, q, y, g);
      ChainsPart(before, q, p[i..], y, g, h);
    }
  }

  /** `x` is a block that outcome `y` of `h` decides: it waits on `h`, and `y` resumes
      or fails those who do. */
  ghost predicate Decides(before: Ledger, x: TaskState, h: Hash, y: TaskState) {
    x.Blocked? && !y.Blocked?
    && ((x.on == h && (NewlyCompleted(before, h, y) || NeverProduces(y)))
        || (NeverProduces(y) && Awaits(before, x.on, h)))
  }

  /** Joins into two different slots that are not blocked, won or lost, blocked states
      included, give the same ledger in either order exactly when not both win or
      neither brings a block that the other decides. */
  lemma JoinsCommuteExactly(
    hasher: Hasher, before: Ledger, g: Hash, x: TaskState, h: Hash, y: TaskState,
    viaG: Ledger, gThenH: Ledger, viaH: Ledger, hThenG: Ledger)
    requires g != h && Live(before, g) && Live(before, h)
    requires Joined(hasher, before, viaG, g, x) && Joined(hasher, viaG, gThenH, h, y)
    requires Joined(hasher, before, viaH, h, y) && Joined(hasher, viaH, hThenG, g, x)
    ensures gThenH == hThenG <==>
            !(Wins(hasher, before, g, x) && Wins(hasher, before, h, y)
              && (Decides(before, x, h, y) || Decides(before, y, g, x)))
  {
    WinsCarries(hasher, before, viaG, g, x, h, y);
    WinsCarries(hasher, before, viaH, h, y, g, x);
    if !Wins(hasher, before, g, x) {
      if Wins(hasher, before, h, y) { MergeIsDeterministic(before, gThenH, hThenG, h, y); }
    } else if !Wins(hasher, before, h, y) {
      MergeIsDeterministic(before, gThenH, hThenG, g, x);
    } else {
      WonJoinsCommuteExactly(before, g, x, h, y, viaG, gThenH, viaH, hThenG);
    }
  }

  /** A join into one slot does not decide whether a join into another, live, slot wins. */
  lemma WinsCarries(hasher: Hasher, before: Ledger, viaG: Ledger, g: Hash, x: TaskState, h: Hash, y: TaskState)
    requires g != h && Live(before, h) && Joined(hasher, before, viaG, g, x)
    ensures Wins(hasher, viaG, h, y) <==> Wins(hasher, before, h, y)
  {
    if Wins(hasher, before, g, x) { TargetUntouched(before, viaG, g, x, h, y); }
  }

  lemma WonJoinsCommuteExactly(
    before: Ledger, g: Hash, x: TaskState, h: Hash, y: TaskState,
    viaG: Ledger, gThenH: Ledger, viaH: Ledger, hThenG: Ledger)
    requires g != h && Live(before, g) && Live(before, h)
    requires Merged(before, viaG, g, x) && Merged(viaG, gThenH, h, y)
    requires Merged(before, viaH, h, y) && Merged(viaH, hThenG, g, x)
    ensures gThenH == hThenG <==> !Decides(before, x, h, y) && !Decides(before, y, g, x)
  {
    if x.Blocked? && y.Blocked? {
      BlocksCommute(before, g, x, h, y, viaG, gThenH, viaH, hThenG);
    } else if x.Blocked? {
      BlockAgainstOutcome(before, g, x, h, y, viaG, gThenH, viaH, hThenG);
    } else if y.Blocked? {
      BlockAgainstOutcome(before, h, y, g, x, viaH, hThenG, viaG, gThenH);
    } else {
      WinningJoinsCommute(before, g, x, h, y, viaG, gThenH, viaH, hThenG);
    }
  }

  lemma BlocksCommute(
    before: Ledger, g: Hash, x: TaskState, h: Hash, y: TaskState,
    viaG: Ledger, gThenH: Ledger, viaH: Ledger, hThenG: Ledger)
    requires g != h && x.Blocked? && y.Blocked?
    requires Merged(before, viaG, g, x) && Merged(viaG, gThenH, h, y)
    requires Merged(before, viaH, h, y) && Merged(viaH, hThenG, g, x)
    ensures gThenH == hThenG
  {
    assert gThenH.Keys == hThenG.Keys;
  }

  lemma BlockAgainstOutcome(
    before: Ledger, g: Hash, x: TaskState, h: Hash, y: TaskState,
    viaG: Ledger, gThenH: Ledger, viaH: Ledger, hThenG: Ledger)
    requires g != h && Live(before, g) && Live(before, h) && x.Blocked? && !y.Blocked?
    requires Merged(before, viaG, g, x) && Merged(viaG, gThenH, h, y)
    requires Merged(before, viaH, h, y) && Merged(viaH, hThenG, g, x)
    ensures gThenH == hThenG <==> !Decides(before, x, h, y)
  {
    if Decides(before, x, h, y) {
      DecidedBlock(before, g, x, h, y, viaG, gThenH);
    } else {
      forall k | k in gThenH ensures k in hThenG && gThenH[k] == hThenG[k] {
        UndecidedBlock(before, g, x, h, y, viaG, gThenH, viaH, k);
      }
      assert gThenH.Keys == hThenG.Keys;
    }
  }

  lemma DecidedBlock(before: Ledger, g: Hash, x: TaskState, h: Hash, y: TaskState, viaG: Ledger, gThenH: Ledger)
    requires g != h && Live(before, g) && Live(before, h) && Decides(before, x, h, y)
    requires Merged(before, viaG, g, x) && Merged(viaG, gThenH, h, y)
    ensures g in gThenH && gThenH[g] != x
  {
    BlockWaits(before, viaG, g, x, h);
    TargetUntouched(before, viaG, g, x, h, y);
  }

  lemma UndecidedBlock(
    before: Ledger, g: Hash, x: TaskState, h: Hash, y: TaskState, viaG: Ledger, gThenH: Ledger, viaH: Ledger, k: Hash)
    requires g != h && Live(before, g) && Live(before, h) && x.Blocked? && !y.Blocked? && !Decides(before, x, h, y)
    requires Merged(before, viaG, g, x) && Merged(viaG, gThenH, h, y) && Merged(before, viaH, h, y)
    requires k in gThenH
    ensures k != g ==> k in viaH
    ensures gThenH[k] == if k == g then x else viaH[k]
  {
    TargetUntouched(before, viaG, g, x, h, y);
    if k == g {
      BlockWaits(before, viaG, g, x, h);
    } else if k != h {
      OthersWaitAsBefore(before, viaG, g, x, h, k, NeverProduces(y));
    }
  }

  /** The newly blocked slot waits on `h` exactly when what it is blocked on does. */
  lemma BlockWaits(before: Ledger, viaG: Ledger, g: Hash, x: TaskState, h: Hash)
    requires g != h && Live(before, g) && x.Blocked? && Merged(before, viaG, g, x)
    ensures Awaits(viaG, g, h) <==> x.on == h || Awaits(before, x.on, h)
  {
    if Awaits(viaG, g, h) {
      var p :| Chain(viaG, p, g, h);
      ChainThroughBlock(before, viaG, g, x, h, p, g);
    }
    if x.on == h {
      assert Chain(viaG, [g, h], g, h);
    } else if Awaits(before, x.on, h) {
      var p :| Chain(before, p, x.on, h);
      ChainAvoidsLive(before, viaG, g, x, h, p, x.on);
      assert Chain(viaG, [g] + p, g, h);
    }
  }

  lemma ChainAvoidsLive(before: Ledger, viaG: Ledger, g: Hash, x: TaskState, h: Hash, p: seq<Hash>, z: Hash)
    requires g != h && Live(before, g) && x.Blocked? && Merged(before, viaG, g, x) && Chain(before, p, z, h)
    ensures Chain(viaG, p, z, h)
  {
    forall i | 0 <= i < |p| - 1 ensures p[i] != h && BlockedOn(viaG, p[i], p[i + 1]) {
      assert BlockedOn(before, p[i], p[i + 1]);
    }
  }

  lemma {:induction false} ChainThroughBlock(
    before: Ledger, viaG: Ledger, g: Hash, x: TaskState, h: Hash, p: seq<Hash>, z: Hash)
    requires g != h && Live(before, g) && x.Blocked? && Merged(before, viaG, g, x) && Chain(viaG, p, z, h)
    ensures (z != g && Awaits(before, z, h)) || x.on == h || Awaits(before, x.on, h)
    decreases |p|
  {
    assert BlockedOn(viaG, p[0], p[1]);
    if |p| == 2 {
      if z != g { assert Chain(before, p, z, h); }
    } else {
      assert p[1] != h && Chain(viaG, p[1..], p[1], h);
      ChainThroughBlock(before, viaG, g, x, h, p[1..], p[1]);
      if z != g && p[1] != g && Awaits(before, p[1], h) {
        var q :| Chain(before, q, p[1], h);
        assert z != h;
        assert Chain(before, [z] + q, z, h);
      }
    }
  }

  lemma OthersWaitAsBefore(before: Ledger, viaG: Ledger, g: Hash, x: TaskState, h: Hash, k: Hash, dead: bool)
    requires g != h && Live(before, g) && x.Blocked? && Merged(before, viaG, g, x) && k != g
    requires dead ==> x.on != h && !Awaits(before, x.on, h)
    ensures BlockedOn(viaG, k, h) <==> BlockedOn(before, k, h)
    ensures dead ==> (Awaits(viaG, k, h) <==> Awaits(before, k, h))
  {
    if dead && Awaits(viaG, k, h) {
      var p :| Chain(viaG, p, k, h);
      ChainThroughBlock(before, viaG, g, x, h, p, k);
    }
    if Awaits(before, k, h) {
      var p :| Chain(before, p, k, h);
      ChainAvoidsLive(before, viaG, g, x, h, p, k);
    }
  }

  /** A blocked slot is where the order shows: redelivering "g is blocked on h" before
      h completes changes nothing, after it buries g again. */
  lemma BlockedSlotsDoNotCommute(
    hasher: Hasher, before: Ledger, g: Hash, h: Hash, y: TaskState,
    viaG: Ledger, gThenH: Ledger, viaH: Ledger, hThenG: Ledger)
    requires g != h && BlockedOn(before, g, h)
    requires NewlyCompleted(before, h, y) && (h in before ==> Dominates(hasher, y, before[h]))
    requires Joined(hasher, before, viaG, g, before[g]) && Joined(hasher, viaG, gThenH, h, y)
    requires Joined(hasher, before, viaH, h, y) && Joined(hasher, viaH, hThenG, g, before[g])
    ensures g in gThenH && gThenH[g] == Resumed(before[g])
    ensures g in hThenG && hThenG[g] == before[g] && hThenG != gThenH
  {
    LexOrder.Irreflexive(Rank(hasher, before[g]));
    assert viaG == before && viaH[g] == Resumed(before[g]);
    assert Dominates(hasher, before[g], Resumed(before[g]));
  }

  lemma WinningJoinsCommute(
    before: Ledger, g: Hash, x: TaskState, h: Hash, y: TaskState,
    viaG: Ledger, gThenH: Ledger, viaH: Ledger, hThenG: Ledger)
    requires g != h && Live(before, g) && Live(before, h) && !x.Blocked? && !y.Blocked?
    requires Merged(before, viaG, g, x) && Merged(viaG, gThenH, h, y)
    requires Merged(before, viaH, h, y) && Merged(viaH, hThenG, g, x)
    ensures gThenH == hThenG
  {
    assert gThenH.Keys == before.Keys + {g, h} && hThenG.Keys == before.Keys + {g, h};
    forall k | k in gThenH ensures gThenH[k] == hThenG[k] {
      SlotCommutes(before, g, x, h, y, viaG, gThenH, viaH, hThenG, k);
      SlotCommutes(before, h, y, g, x, viaH, hThenG, viaG, gThenH, k);
      WaitsForOne(before, k, g, h);
    }
  }

  /** What slot `k` holds after the two joins, said in terms of the first ledger. */
  lemma SlotCommutes(
    before: Ledger, g: Hash, x: TaskState, h: Hash, y: TaskState,
    viaG: Ledger, gThenH: Ledger, viaH: Ledger, hThenG: Ledger, k: Hash)
    requires g != h && Live(before, g) && Live(before, h) && !x.Blocked? && !y.Blocked?
    requires Merged(before, viaG, g, x) && Merged(viaG, gThenH, h, y)
    requires Merged(before, viaH, h, y) && Merged(viaH, hThenG, g, x)
    requires k in gThenH
    ensures gThenH[k] ==
            if k == g then x else if k == h then y
            else if BlockedOn(before, k, h) || Awaits(before, k, h) then viaH[k]
            else viaG[k]
    ensures k != g && k != h && !BlockedOn(before, k, g) && !Awaits(before, k, g) ==> viaG[k] == before[k]
  {
    WaitsUnaffected(before, viaG, g, x, k, h);
    TargetUntouched(before, viaG, g, x, h, y);
    if Awaits(viaG, g, h) { OnlyBlockedAwaits(viaG, g, h); }
    WaitsForOne(before, k, g, h);
  }

  lemma WaitsForOne(before: Ledger, k: Hash, g: Hash, h: Hash)
    requires g != h && Live(before, g) && Live(before, h)
    ensures !((BlockedOn(before, k, g) || Awaits(before, k, g)) && (BlockedOn(before, k, h) || Awaits(before, k, h)))
  {
    if BlockedOn(before, k, g) { assert k != g && Chain(before, [k, g], k, g); }
    if BlockedOn(before, k, h) { assert k != h && Chain(before, [k, h], k, h); }
    if Awaits(before, k, g) && Awaits(before, k, h) {
      var p :| Chain(before, p, k, g);
      var q :| Chain(before, q, k, h);
      ChainsPart(before, p, q, k, g, h);
    }
  }

  lemma TargetUntouched(before: Ledger, mid: Ledger, g: Hash, x: TaskState, h: Hash, y: TaskState)
    requires Merged(before, mid, g, x) && g != h && Live(before, h)
    ensures (h in mid <==> h in before) && (h in before ==> mid[h] == before[h])
    ensures NewlyCompleted(mid, h, y) <==> NewlyCompleted(before, h, y)
  {
    if Awaits(before, h, g) { OnlyBlockedAwaits(before, h, g); }
  }
}
