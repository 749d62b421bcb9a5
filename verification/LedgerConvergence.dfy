/**
 When replicas converge: for every collection of observations, blocked states included,
 exactly when the order and the repetition of their delivery cannot show.
 */
module LedgerConvergence {
  import opened Wrappers
  import LexOrder
  import opened TaskJoin
  import opened TaskJoinTheorems
  import opened LedgerSteps

  /** The ledger of a fresh node after its first `n` deliveries. */
  ghost function Arrived(hasher: Hasher, run: seq<Delivery>, n: nat): Ledger
    requires n <= |run|
  {
    if n == 0 then map[] else Join(hasher, Arrived(hasher, run, n - 1), run[n - 1])
  }

  ghost predicate SameDeliveries(u: seq<Delivery>, v: seq<Delivery>) {
    forall d :: d in u <==> d in v
  }

  ghost function Final(hasher: Hasher, run: seq<Delivery>): Ledger {
    Arrived(hasher, run, |run|)
  }

  // ---------------------------------------------------------------------
  // The condition, read off the observations alone
  // ---------------------------------------------------------------------

  /** `x` is a greatest observation of the slot of `g`. */
  ghost predicate Greatest(hasher: Hasher, u: seq<Delivery>, g: Hash, x: TaskState) {
    Delivery(g, x) in u && forall y :: Delivery(g, y) in u ==> LexOrder.AtMost(Rank(hasher, y), Rank(hasher, x))
  }

  predicate Links(a: Delivery, b: Delivery) {
    a.state.Blocked? && a.state.on == b.h
  }

  /** Observed blocks of different slots, each waiting for the slot of the next, that lead
      to an outcome whose output never comes. */
  ghost predicate DeadLine(u: seq<Delivery>, line: seq<Delivery>) {
    && |line| >= 2 && NeverProduces(line[|line| - 1].state)
    && (forall i :: 0 <= i < |line| ==> line[i] in u)
    && (forall i, j :: 0 <= i < j < |line| ==> line[i].h != line[j].h)
    && (forall i :: 0 <= i < |line| - 1 ==> Links(line[i], line[i + 1]))
  }

  /** A cascade can fail the block `b` of `g`. */
  ghost predicate Doomed(u: seq<Delivery>, g: Hash, b: TaskState) {
    exists line :: DeadLine(u, line) && line[0] == Delivery(g, b)
  }

  /** A completion can resume the block `b` of `g`. */
  ghost predicate Resumable(u: seq<Delivery>, g: Hash, b: TaskState) {
    b.Blocked? && b.on != g && exists c: TaskState :: Delivery(b.on, c) in u && c.Completed?
  }

  /** No completion resumes the greatest observation, and no cascade outranks it. */
  ghost predicate Undisturbed(hasher: Hasher, u: seq<Delivery>, g: Hash, x: TaskState) {
    && !Resumable(u, g, x)
    && forall b :: Doomed(u, g, b) ==> LexOrder.AtMost(Rank(hasher, UpstreamFailed(b)), Rank(hasher, x))
  }

  ghost predicate SlotUndisturbed(hasher: Hasher, u: seq<Delivery>, g: Hash) {
    forall x :: Greatest(hasher, u, g, x) ==> Undisturbed(hasher, u, g, x)
  }

  /** Nothing else reaches the rank of the greatest observation. */
  ghost predicate Unrivalled(hasher: Hasher, u: seq<Delivery>, g: Hash, x: TaskState) {
    && (forall y :: Greatest(hasher, u, g, y) ==> y == x)
    && forall b :: Doomed(u, g, b) && Rank(hasher, UpstreamFailed(b)) == Rank(hasher, x) ==> UpstreamFailed(b) == x
  }

  // ---------------------------------------------------------------------
  // Where the states of a ledger come from
  // ---------------------------------------------------------------------

  /** An observation of the slot, or what a resume or a cascade makes of one. */
  ghost predicate Explained(u: seq<Delivery>, g: Hash, s: TaskState) {
    || Delivery(g, s) in u
    || (exists b :: Delivery(g, b) in u && b.Blocked? && s == Resumed(b))
    || (exists b :: Doomed(u, g, b) && s == UpstreamFailed(b))
  }

  ghost predicate AllExplained(u: seq<Delivery>, tasks: Ledger) {
    forall g :: g in tasks ==> Explained(u, g, tasks[g])
  }

  lemma {:induction false} ChainIsUnique(tasks: Ledger, p: seq<Hash>, q: seq<Hash>, x: Hash, h: Hash)
    requires Chain(tasks, p, x, h) && Chain(tasks, q, x, h)
    ensures |p| == |q|
    decreases |p|
  {
    assert BlockedOn(tasks, p[0], p[1]) && BlockedOn(tasks, q[0], q[1]);
    if p[1] != h {
      assert Chain(tasks, p[1..], p[1], h) && Chain(tasks, q[1..], q[1], h);
      ChainIsUnique(tasks, p[1..], q[1..], p[1], h);
    }
  }

  lemma ChainIsSimple(tasks: Ledger, p: seq<Hash>, x: Hash, h: Hash, i: nat, j: nat)
    requires Chain(tasks, p, x, h) && i < j < |p|
    ensures p[i] != p[j]
  {
    if p[i] == p[j] {
      if j < |p| - 1 {
        assert Chain(tasks, p[i..], p[i], h) && Chain(tasks, p[j..], p[j], h);
        ChainIsUnique(tasks, p[i..], p[j..], p[i], h);
      }
    }
  }

  lemma AwaitingIsDoomed(u: seq<Delivery>, tasks: Ledger, d: Delivery, g: Hash)
    requires AllExplained(u, tasks) && d in u && NeverProduces(d.state) && Awaits(tasks, g, d.h)
    ensures g in tasks && Doomed(u, g, tasks[g])
  {
    OnlyBlockedAwaits(tasks, g, d.h);
    var p :| Chain(tasks, p, g, d.h);
    forall i | 0 <= i < |p| - 1 ensures p[i] in tasks && tasks[p[i]].Blocked? && Delivery(p[i], tasks[p[i]]) in u {
      assert BlockedOn(tasks, p[i], p[i + 1]);
      assert Explained(u, p[i], tasks[p[i]]);
    }
    var line := seq(|p|, i requires 0 <= i < |p| => if i < |p| - 1 then Delivery(p[i], tasks[p[i]]) else d);
    forall i, j | 0 <= i < j < |line| ensures line[i].h != line[j].h {
      ChainIsSimple(tasks, p, g, d.h, i, j);
    }
    forall i | 0 <= i < |line| - 1 ensures Links(line[i], line[i + 1]) {
      assert BlockedOn(tasks, p[i], p[i + 1]);
    }
    assert DeadLine(u, line) && line[0] == Delivery(g, tasks[g]);
  }

  lemma StepExplained(hasher: Hasher, u: seq<Delivery>, before: Ledger, d: Delivery, g: Hash)
    requires AllExplained(u, before) && d in u && g in Join(hasher, before, d)
    ensures Explained(u, g, Join(hasher, before, d)[g])
  {
    var after := Join(hasher, before, d);
    if g in before && after[g] == before[g] {
      assert Explained(u, g, before[g]);
    } else if g != d.h {
      assert Explained(u, g, before[g]);
      if NewlyCompleted(before, d.h, d.state) && BlockedOn(before, g, d.h) {
        assert after[g] == Resumed(before[g]);
      } else {
        AwaitingIsDoomed(u, before, d, g);
        assert after[g] == UpstreamFailed(before[g]);
      }
    }
  }

  lemma {:induction false} RunExplained(hasher: Hasher, u: seq<Delivery>, run: seq<Delivery>, n: nat)
    requires n <= |run| && forall d :: d in run ==> d in u
    ensures AllExplained(u, Arrived(hasher, run, n))
    decreases n
  {
    if n > 0 {
      RunExplained(hasher, u, run, n - 1);
      assert run[n - 1] in u;
      forall g | g in Arrived(hasher, run, n) ensures Explained(u, g, Arrived(hasher, run, n)[g]) {
        StepExplained(hasher, u, Arrived(hasher, run, n - 1), run[n - 1], g);
      }
    }
  }

  // ---------------------------------------------------------------------
  // The condition suffices
  // ---------------------------------------------------------------------

  lemma NothingOvertakes(hasher: Hasher, u: seq<Delivery>, g: Hash, x: TaskState, s: TaskState)
    requires Greatest(hasher, u, g, x) && Undisturbed(hasher, u, g, x) && Explained(u, g, s)
    ensures LexOrder.AtMost(Rank(hasher, s), Rank(hasher, x))
  {
    if Delivery(g, s) !in u && exists b :: Delivery(g, b) in u && b.Blocked? && s == Resumed(b) {
      var b :| Delivery(g, b) in u && b.Blocked? && s == Resumed(b);
      ResumedIsBelow(hasher, b);
      LexOrder.Asymmetric(Rank(hasher, s), Rank(hasher, b));
      LexOrder.AtMostTransitive(Rank(hasher, s), Rank(hasher, b), Rank(hasher, x));
    }
  }

  lemma AlsoGreatest(hasher: Hasher, u: seq<Delivery>, g: Hash, x: TaskState, s: TaskState)
    requires Greatest(hasher, u, g, x) && Delivery(g, s) in u && LexOrder.AtMost(Rank(hasher, x), Rank(hasher, s))
    ensures Greatest(hasher, u, g, s)
  {
    forall y | Delivery(g, y) in u ensures LexOrder.AtMost(Rank(hasher, y), Rank(hasher, s)) {
      LexOrder.AtMostTransitive(Rank(hasher, y), Rank(hasher, x), Rank(hasher, s));
    }
  }

  /** The slot of `g`, whose greatest observation is `x`, is never resumed away from it. */
  lemma HeightStays(hasher: Hasher, u: seq<Delivery>, before: Ledger, d: Delivery, g: Hash, x: TaskState)
    requires AllExplained(u, before) && d in u && Greatest(hasher, u, g, x) && SlotUndisturbed(hasher, u, g)
    requires AtLeast(hasher, before, g, x)
    ensures AtLeast(hasher, Join(hasher, before, d), g, x)
  {
    var (after, s) := (Join(hasher, before, d), before[g]);
    if after[g] != s {
      if d.h == g {
        LexOrder.Asymmetric(Rank(hasher, s), Rank(hasher, d.state));
        LexOrder.AtMostTransitive(Rank(hasher, x), Rank(hasher, s), Rank(hasher, d.state));
      } else if NewlyCompleted(before, d.h, d.state) && BlockedOn(before, g, d.h) {
        assert d == Delivery(s.on, d.state) && Resumable(u, g, s);
        assert Explained(u, g, s);
        AlsoGreatest(hasher, u, g, x, s);
      } else {
        OnlyBlockedAwaits(before, g, d.h);
        UpstreamFailureWins(hasher, s);
        LexOrder.Asymmetric(Rank(hasher, s), Rank(hasher, UpstreamFailed(s)));
        LexOrder.AtMostTransitive(Rank(hasher, x), Rank(hasher, s), Rank(hasher, UpstreamFailed(s)));
      }
    }
  }

  lemma {:induction false} HeightKept(
    hasher: Hasher, u: seq<Delivery>, run: seq<Delivery>, i: nat, n: nat, g: Hash, x: TaskState)
    requires i < n <= |run| && run[i] == Delivery(g, x) && (forall d :: d in run ==> d in u)
    requires Greatest(hasher, u, g, x) && SlotUndisturbed(hasher, u, g)
    ensures AtLeast(hasher, Arrived(hasher, run, n), g, x)
    decreases n
  {
    if n == i + 1 {
      DeliveredIsHeld(hasher, Arrived(hasher, run, i), run[i]);
    } else {
      var m := n - 1;
      HeightKept(hasher, u, run, i, m, g, x);
      HeightStep(hasher, u, run, m, g, x);
    }
  }

  lemma HeightStep(hasher: Hasher, u: seq<Delivery>, run: seq<Delivery>, m: nat, g: Hash, x: TaskState)
    requires m < |run| && (forall d :: d in run ==> d in u)
    requires Greatest(hasher, u, g, x) && SlotUndisturbed(hasher, u, g)
    requires AtLeast(hasher, Arrived(hasher, run, m), g, x)
    ensures AtLeast(hasher, Arrived(hasher, run, m + 1), g, x)
  {
    RunExplained(hasher, u, run, m);
    assert run[m] in u;
    HeightStays(hasher, u, Arrived(hasher, run, m), run[m], g, x);
  }

  /** Whatever the order and repetition, the slot ends at its greatest observation's key. */
  lemma EndsAtTheGreatest(hasher: Hasher, u: seq<Delivery>, v: seq<Delivery>, g: Hash, x: TaskState)
    requires SameDeliveries(u, v) && Greatest(hasher, u, g, x) && SlotUndisturbed(hasher, u, g)
    ensures g in Final(hasher, v) && Explained(u, g, Final(hasher, v)[g])
    ensures Rank(hasher, Final(hasher, v)[g]) == Rank(hasher, x)
  {
    assert Delivery(g, x) in v;
    var i :| 0 <= i < |v| && v[i] == Delivery(g, x);
    HeightKept(hasher, u, v, i, |v|, g, x);
    RunExplained(hasher, u, v, |v|);
    var s := Final(hasher, v)[g];
    NothingOvertakes(hasher, u, g, x, s);
    LexOrder.Total(Rank(hasher, s), Rank(hasher, x));
  }

  ghost predicate Observed(u: seq<Delivery>, g: Hash) {
    exists s :: Delivery(g, s) in u
  }

  lemma {:induction false} SomethingIsGreatest(hasher: Hasher, u: seq<Delivery>, g: Hash) returns (x: TaskState)
    requires Observed(u, g)
    ensures Greatest(hasher, u, g, x)
    decreases |u|
  {
    var front, last := u[..|u| - 1], u[|u| - 1];
    assert u == front + [last];
    LexOrder.Irreflexive(Rank(hasher, last.state));
    if Observed(front, g) {
      x := SomethingIsGreatest(hasher, front, g);
      if last.h == g && LexOrder.Less(Rank(hasher, x), Rank(hasher, last.state)) {
        LexOrder.Asymmetric(Rank(hasher, x), Rank(hasher, last.state));
        forall y | Delivery(g, y) in front ensures LexOrder.AtMost(Rank(hasher, y), Rank(hasher, last.state)) {
          LexOrder.AtMostTransitive(Rank(hasher, y), Rank(hasher, x), Rank(hasher, last.state));
        }
        x := last.state;
      }
    } else {
      x := last.state;
      assert forall y :: Delivery(g, y) in u ==> Delivery(g, y) !in front;
    }
  }

  lemma DoomedIsBlocked(u: seq<Delivery>, g: Hash, b: TaskState)
    requires Doomed(u, g, b)
    ensures Delivery(g, b) in u && b.Blocked?
  {
    var line :| DeadLine(u, line) && line[0] == Delivery(g, b);
    assert Links(line[0], line[1]);
  }

  lemma FilledIsObserved(hasher: Hasher, u: seq<Delivery>, v: seq<Delivery>, g: Hash)
    requires SameDeliveries(u, v) && g in Final(hasher, v)
    ensures Observed(u, g)
  {
    RunExplained(hasher, u, v, |v|);
    var s := Final(hasher, v)[g];
    assert Explained(u, g, s);
    if exists b :: Doomed(u, g, b) && s == UpstreamFailed(b) {
      var b :| Doomed(u, g, b) && s == UpstreamFailed(b);
      DoomedIsBlocked(u, g, b);
    }
  }

  // ---------------------------------------------------------------------
  // The condition is necessary: the orders that show a difference
  // ---------------------------------------------------------------------

  ghost function Play(hasher: Hasher, start: Ledger, run: seq<Delivery>): Ledger {
    if run == [] then start else Join(hasher, Play(hasher, start, run[..|run| - 1]), run[|run| - 1])
  }

  lemma {:induction false} PlayConcat(hasher: Hasher, start: Ledger, a: seq<Delivery>, b: seq<Delivery>)
    ensures Play(hasher, start, a + b) == Play(hasher, Play(hasher, start, a), b)
    decreases |b|
  {
    if b == [] {
      assert a + b == a;
    } else {
      assert (a + b)[..|a + b| - 1] == a + b[..|b| - 1];
      PlayConcat(hasher, start, a, b[..|b| - 1]);
    }
  }

  lemma PlayOne(hasher: Hasher, start: Ledger, d: Delivery)
    ensures Play(hasher, start, [d]) == Join(hasher, start, d)
  {
    assert [d][..0] == [];
    assert Play(hasher, start, []) == start;
  }

  lemma PlayIsFinal(hasher: Hasher, run: seq<Delivery>)
    ensures Play(hasher, map[], run) == Final(hasher, run)
  {
    assert run[..0] == [] && run[..|run|] == run;
    forall n: nat | n < |run| && PlaysTo(hasher, run, n) ensures PlaysTo(hasher, run, n + 1) {
      PlaysOn(hasher, run, n);
    }
    assert PlaysTo(hasher, run, 0);
    Carry((n: nat) => n <= |run| && PlaysTo(hasher, run, n), 0, |run|);
  }

  ghost predicate PlaysTo(hasher: Hasher, run: seq<Delivery>, n: nat)
    requires n <= |run|
  {
    Play(hasher, map[], run[..n]) == Arrived(hasher, run, n)
  }

  lemma PlaysOn(hasher: Hasher, run: seq<Delivery>, n: nat)
    requires n < |run| && PlaysTo(hasher, run, n)
    ensures PlaysTo(hasher, run, n + 1)
  {
    assert run[..n + 1][..n] == run[..n];
  }

  /** A slot that is not blocked keeps its state until something beats it. */
  lemma {:induction false} UnbeatenStays(hasher: Hasher, start: Ledger, run: seq<Delivery>, g: Hash)
    requires g in start && !start[g].Blocked?
    requires forall d :: d in run && d.h == g ==> !Dominates(hasher, d.state, start[g])
    ensures g in Play(hasher, start, run) && Play(hasher, start, run)[g] == start[g]
    decreases |run|
  {
    if run != [] {
      var front, last := run[..|run| - 1], run[|run| - 1];
      UnbeatenStays(hasher, start, front, g);
      assert last in run;
      var before := Play(hasher, start, front);
      if last.h != g && Awaits(before, g, last.h) { OnlyBlockedAwaits(before, g, last.h); }
    }
  }

  /** Deliveries to other slots do not fill this one. */
  lemma {:induction false} StaysEmpty(hasher: Hasher, start: Ledger, run: seq<Delivery>, g: Hash)
    requires g !in start && forall d :: d in run ==> d.h != g
    ensures g !in Play(hasher, start, run)
    decreases |run|
  {
    if run != [] {
      StaysEmpty(hasher, start, run[..|run| - 1], g);
      assert run[|run| - 1] in run;
    }
  }

  /** Deliveries to a slot that holds something at least as great change nothing. */
  lemma {:induction false} AllLose(hasher: Hasher, start: Ledger, run: seq<Delivery>, g: Hash)
    requires g in start && forall d :: d in run ==> d.h == g && !Dominates(hasher, d.state, start[g])
    ensures Play(hasher, start, run) == start
    decreases |run|
  {
    if run != [] {
      AllLose(hasher, start, run[..|run| - 1], g);
      assert run[|run| - 1] in run;
    }
  }

  function To(u: seq<Delivery>, g: Hash, own: bool): (r: seq<Delivery>)
    ensures forall d :: d in r <==> d in u && (d.h == g) == own
  {
    if u == [] then [] else (if (u[0].h == g) == own then [u[0]] else []) + To(u[1..], g, own)
  }

  /** The order that hides the rest of the ledger from the slot: it holds `x` in the end. */
  lemma OwnDeliveriesLast(hasher: Hasher, u: seq<Delivery>, g: Hash, x: TaskState) returns (v: seq<Delivery>)
    requires Greatest(hasher, u, g, x)
    ensures SameDeliveries(u, v) && g in Final(hasher, v) && Final(hasher, v)[g] == x
  {
    var (others, d0, own) := (To(u, g, false), Delivery(g, x), To(u, g, true));
    v := others + [d0] + own;
    var before := Play(hasher, map[], others);
    StaysEmpty(hasher, map[], others, g);
    PlayConcat(hasher, map[], others, [d0]);
    PlayOne(hasher, before, d0);
    var held := Join(hasher, before, d0);
    forall d | d in own ensures d.h == g && !Dominates(hasher, d.state, x) {
      assert d == Delivery(g, d.state);
    }
    AllLose(hasher, held, own, g);
    PlayConcat(hasher, map[], others + [d0], own);
    PlayIsFinal(hasher, v);
  }

  lemma FirstHolds(hasher: Hasher, u: seq<Delivery>, g: Hash, x: TaskState)
    requires Greatest(hasher, u, g, x)
    ensures Play(hasher, map[], [Delivery(g, x)] + To(u, g, true)) == map[g := x]
  {
    var own := To(u, g, true);
    PlayOne(hasher, map[], Delivery(g, x));
    assert Join(hasher, map[], Delivery(g, x)) == map[g := x];
    PlayConcat(hasher, map[], [Delivery(g, x)], own);
    forall d | d in own ensures d.h == g && !Dominates(hasher, d.state, x) {
      assert d == Delivery(g, d.state);
    }
    AllLose(hasher, map[g := x], own, g);
  }

  lemma WokenStays(hasher: Hasher, g: Hash, x: TaskState, d: Delivery, rest: seq<Delivery>)
    requires x.Blocked? && x.on == d.h != g && d.state.Completed? && forall e :: e in rest ==> e.h != g
    ensures var after := Play(hasher, map[g := x], [d] + rest); g in after && after[g] == Resumed(x)
  {
    var alone: Ledger := map[g := x];
    assert BlockedOn(alone, g, d.h);
    PlayOne(hasher, alone, d);
    PlayConcat(hasher, alone, [d], rest);
    UnbeatenStays(hasher, Join(hasher, alone, d), rest, g);
  }

  /** The order in which a completion resumes the greatest observation. */
  lemma ResumedInTheEnd(hasher: Hasher, u: seq<Delivery>, g: Hash, x: TaskState) returns (v: seq<Delivery>)
    requires Greatest(hasher, u, g, x) && Resumable(u, g, x)
    ensures SameDeliveries(u, v) && g in Final(hasher, v) && Final(hasher, v)[g] == Resumed(x)
  {
    var c: TaskState :| Delivery(x.on, c) in u && c.Completed?;
    var own, rest := [Delivery(g, x)] + To(u, g, true), [Delivery(x.on, c)] + To(u, g, false);
    v := own + rest;
    FirstHolds(hasher, u, g, x);
    WokenStays(hasher, g, x, Delivery(x.on, c), To(u, g, false));
    PlayConcat(hasher, map[], own, rest);
    PlayIsFinal(hasher, v);
  }

  /** Blocks delivered to empty slots stand as they came. */
  ghost predicate Standing(tasks: Ledger, line: seq<Delivery>, n: nat)
    requires n <= |line|
  {
    && (forall i :: 0 <= i < n ==> line[i].h in tasks && tasks[line[i].h] == line[i].state)
    && (forall h :: h in tasks ==> exists i :: 0 <= i < n && line[i].h == h)
  }

  lemma BlockStands(hasher: Hasher, before: Ledger, d: Delivery)
    requires d.h !in before && d.state.Blocked?
    ensures Join(hasher, before, d) == before[d.h := d.state]
  {
  }

  lemma {:induction false} BlocksStand(hasher: Hasher, u: seq<Delivery>, line: seq<Delivery>, n: nat)
    requires DeadLine(u, line) && n < |line|
    ensures Standing(Play(hasher, map[], line[..n]), line, n)
    decreases n
  {
    if n > 0 {
      var before, d := Play(hasher, map[], line[..n - 1]), line[n - 1];
      BlocksStand(hasher, u, line, n - 1);
      assert Links(line[n - 1], line[n]);
      BlockStands(hasher, before, d);
      PlayOne(hasher, before, d);
      PlayConcat(hasher, map[], line[..n - 1], [d]);
      assert line[..n] == line[..n - 1] + [d];
      OneMoreStands(before, line, n, d);
    }
  }

  lemma OneMoreStands(before: Ledger, line: seq<Delivery>, n: nat, d: Delivery)
    requires 0 < n <= |line| && Standing(before, line, n - 1) && line[n - 1] == d && d.h !in before
    ensures Standing(before[d.h := d.state], line, n)
  {
  }

  lemma LineAwaits(u: seq<Delivery>, line: seq<Delivery>, tasks: Ledger)
    requires DeadLine(u, line) && Standing(tasks, line, |line| - 1)
    ensures var g, h := line[0].h, line[|line| - 1].h;
            h !in tasks && g in tasks && tasks[g] == line[0].state && Awaits(tasks, g, h)
  {
    var p := seq(|line|, i requires 0 <= i < |line| => line[i].h);
    forall i | 0 <= i < |p| - 1 ensures BlockedOn(tasks, p[i], p[i + 1]) {
      assert Links(line[i], line[i + 1]);
    }
    assert Chain(tasks, p, line[0].h, line[|line| - 1].h);
  }

  /** The next delivery fails the block `b` of `g`. */
  ghost predicate Poised(tasks: Ledger, d: Delivery, g: Hash, b: TaskState) {
    NeverProduces(d.state) && d.h !in tasks && g in tasks && tasks[g] == b && Awaits(tasks, g, d.h)
  }

  ghost predicate Holds(tasks: Ledger, g: Hash, s: TaskState) {
    g in tasks && tasks[g] == s
  }

  lemma PoisedFalls(hasher: Hasher, before: Ledger, d: Delivery, g: Hash, b: TaskState)
    requires Poised(before, d, g, b)
    ensures Holds(Join(hasher, before, d), g, UpstreamFailed(b))
  {
  }

  lemma LineFalls(hasher: Hasher, u: seq<Delivery>, line: seq<Delivery>)
    requires DeadLine(u, line)
    ensures Holds(Play(hasher, map[], line), line[0].h, UpstreamFailed(line[0].state))
  {
    var n := |line| - 1;
    LinePoised(hasher, u, line);
    PoisedFalls(hasher, Play(hasher, map[], line[..n]), line[n], line[0].h, line[0].state);
  }

  lemma LinePoised(hasher: Hasher, u: seq<Delivery>, line: seq<Delivery>)
    requires DeadLine(u, line)
    ensures var n := |line| - 1;
            Poised(Play(hasher, map[], line[..n]), line[n], line[0].h, line[0].state)
  {
    BlocksStand(hasher, u, line, |line| - 1);
    LineAwaits(u, line, Play(hasher, map[], line[..|line| - 1]));
  }

  lemma {:induction false} FloorStands(hasher: Hasher, start: Ledger, run: seq<Delivery>, g: Hash, x: TaskState)
    requires Lasting(x) && AtLeast(hasher, start, g, x)
    ensures AtLeast(hasher, Play(hasher, start, run), g, x)
    decreases |run|
  {
    if run != [] {
      FloorStands(hasher, start, run[..|run| - 1], g, x);
      JoinKeepsFloor(hasher, Play(hasher, start, run[..|run| - 1]), run[|run| - 1], g, x);
    }
  }

  /** The order in which a cascade fails the block `b` first: nothing takes the slot below
      that failure, and only something greater takes it from there. */
  lemma FailedInTheEnd(hasher: Hasher, u: seq<Delivery>, g: Hash, b: TaskState) returns (v: seq<Delivery>)
    requires Doomed(u, g, b)
    ensures SameDeliveries(u, v) && AtLeast(hasher, Final(hasher, v), g, UpstreamFailed(b))
    ensures (forall y :: Delivery(g, y) in u ==> !Dominates(hasher, y, UpstreamFailed(b))) ==>
              Final(hasher, v)[g] == UpstreamFailed(b)
  {
    var line :| DeadLine(u, line) && line[0] == Delivery(g, b);
    v := line + u;
    LineFalls(hasher, u, line);
    var fallen := Play(hasher, map[], line);
    LexOrder.Irreflexive(Rank(hasher, UpstreamFailed(b)));
    FloorStands(hasher, fallen, u, g, UpstreamFailed(b));
    PlayConcat(hasher, map[], line, u);
    PlayIsFinal(hasher, v);
    if forall y :: Delivery(g, y) in u ==> !Dominates(hasher, y, UpstreamFailed(b)) {
      forall d | d in u && d.h == g ensures !Dominates(hasher, d.state, fallen[g]) {
        assert d == Delivery(g, d.state);
      }
      UnbeatenStays(hasher, fallen, u, g);
    }
  }

  // ---------------------------------------------------------------------
  // Convergence, exactly
  // ---------------------------------------------------------------------

  ghost predicate SameKeys(hasher: Hasher, a: Ledger, b: Ledger) {
    forall g :: (g in a <==> g in b) && (g in a && g in b ==> Rank(hasher, a[g]) == Rank(hasher, b[g]))
  }

  ghost predicate AllUndisturbed(hasher: Hasher, u: seq<Delivery>) {
    forall g, x :: Greatest(hasher, u, g, x) ==> Undisturbed(hasher, u, g, x)
  }

  ghost predicate AllUnrivalled(hasher: Hasher, u: seq<Delivery>) {
    forall g, x :: Greatest(hasher, u, g, x) ==> Unrivalled(hasher, u, g, x)
  }

  lemma UndisturbedKeysAgree(hasher: Hasher, u: seq<Delivery>, v: seq<Delivery>)
    requires SameDeliveries(u, v) && AllUndisturbed(hasher, u)
    ensures SameKeys(hasher, Final(hasher, u), Final(hasher, v))
  {
    forall g | g in Final(hasher, u) || g in Final(hasher, v)
      ensures g in Final(hasher, u) && g in Final(hasher, v)
      ensures Rank(hasher, Final(hasher, u)[g]) == Rank(hasher, Final(hasher, v)[g])
    {
      if g in Final(hasher, u) { FilledIsObserved(hasher, u, u, g); } else { FilledIsObserved(hasher, u, v, g); }
      var x := SomethingIsGreatest(hasher, u, g);
      EndsAtTheGreatest(hasher, u, u, g, x);
      EndsAtTheGreatest(hasher, u, v, g, x);
    }
  }

  /** Two orders of the same observations that leave the slot of `g` at different keys. */
  lemma DisturbedKeysDiffer(hasher: Hasher, u: seq<Delivery>, g: Hash, x: TaskState)
    returns (v: seq<Delivery>, w: seq<Delivery>)
    requires Greatest(hasher, u, g, x) && !Undisturbed(hasher, u, g, x)
    ensures SameDeliveries(u, v) && SameDeliveries(u, w)
    ensures g in Final(hasher, v) && g in Final(hasher, w)
    ensures Rank(hasher, Final(hasher, v)[g]) != Rank(hasher, Final(hasher, w)[g])
  {
    v := OwnDeliveriesLast(hasher, u, g, x);
    LexOrder.Irreflexive(Rank(hasher, x));
    if Resumable(u, g, x) {
      w := ResumedInTheEnd(hasher, u, g, x);
      ResumedIsBelow(hasher, x);
    } else {
      var b :| Doomed(u, g, b) && !LexOrder.AtMost(Rank(hasher, UpstreamFailed(b)), Rank(hasher, x));
      w := FailedInTheEnd(hasher, u, g, b);
    }
  }

  /** Keys converge for every order and repetition of some observations exactly when in
      every slot no completion can resume the greatest one and no cascade can outrank it. */
  lemma KeysConvergeExactly(hasher: Hasher, u: seq<Delivery>)
    ensures (forall v :: SameDeliveries(u, v) ==> SameKeys(hasher, Final(hasher, u), Final(hasher, v))) <==>
            AllUndisturbed(hasher, u)
  {
    if AllUndisturbed(hasher, u) {
      forall v | SameDeliveries(u, v) ensures SameKeys(hasher, Final(hasher, u), Final(hasher, v)) {
        UndisturbedKeysAgree(hasher, u, v);
      }
    } else {
      var g, x :| Greatest(hasher, u, g, x) && !Undisturbed(hasher, u, g, x);
      var v, w := DisturbedKeysDiffer(hasher, u, g, x);
      assert !SameKeys(hasher, Final(hasher, u), Final(hasher, v)) || !SameKeys(hasher, Final(hasher, u), Final(hasher, w));
    }
  }

  lemma UnrivalledEnd(hasher: Hasher, u: seq<Delivery>, v: seq<Delivery>, g: Hash, x: TaskState)
    requires SameDeliveries(u, v) && AllUndisturbed(hasher, u)
    requires Greatest(hasher, u, g, x) && Unrivalled(hasher, u, g, x)
    ensures g in Final(hasher, v) && Final(hasher, v)[g] == x
  {
    EndsAtTheGreatest(hasher, u, v, g, x);
    var s := Final(hasher, v)[g];
    LexOrder.Irreflexive(Rank(hasher, x));
    if Delivery(g, s) in u {
      AlsoGreatest(hasher, u, g, x, s);
    } else if exists b :: Delivery(g, b) in u && b.Blocked? && s == Resumed(b) {
      var b :| Delivery(g, b) in u && b.Blocked? && s == Resumed(b);
      assert LexOrder.AtMost(Rank(hasher, b), Rank(hasher, x));
      ResumedIsBelow(hasher, b);
    }
  }

  lemma UnrivalledLedgersAgree(hasher: Hasher, u: seq<Delivery>, v: seq<Delivery>)
    requires SameDeliveries(u, v) && AllUndisturbed(hasher, u) && AllUnrivalled(hasher, u)
    ensures Final(hasher, u) == Final(hasher, v)
  {
    UndisturbedKeysAgree(hasher, u, v);
    assert Final(hasher, u).Keys == Final(hasher, v).Keys;
    forall g | g in Final(hasher, u) ensures Final(hasher, u)[g] == Final(hasher, v)[g] {
      FilledIsObserved(hasher, u, u, g);
      var x := SomethingIsGreatest(hasher, u, g);
      UnrivalledEnd(hasher, u, u, g, x);
      UnrivalledEnd(hasher, u, v, g, x);
    }
  }

  lemma RivalledLedgersDiffer(hasher: Hasher, u: seq<Delivery>, g: Hash, x: TaskState)
    returns (v: seq<Delivery>, w: seq<Delivery>)
    requires Greatest(hasher, u, g, x) && !Unrivalled(hasher, u, g, x)
    ensures SameDeliveries(u, v) && SameDeliveries(u, w) && Final(hasher, v) != Final(hasher, w)
  {
    v := OwnDeliveriesLast(hasher, u, g, x);
    if exists y :: Greatest(hasher, u, g, y) && y != x {
      var y :| Greatest(hasher, u, g, y) && y != x;
      w := OwnDeliveriesLast(hasher, u, g, y);
    } else {
      var b :| Doomed(u, g, b) && Rank(hasher, UpstreamFailed(b)) == Rank(hasher, x) && UpstreamFailed(b) != x;
      w := FailedInTheEnd(hasher, u, g, b);
    }
  }

  /** The ledgers themselves converge exactly when moreover nothing else, observed or
      written by a cascade, ties with the greatest observation of a slot. */
  lemma LedgersConvergeExactly(hasher: Hasher, u: seq<Delivery>)
    ensures (forall v :: SameDeliveries(u, v) ==> Final(hasher, u) == Final(hasher, v)) <==>
            AllUndisturbed(hasher, u) && AllUnrivalled(hasher, u)
  {
    if AllUndisturbed(hasher, u) && AllUnrivalled(hasher, u) {
      forall v | SameDeliveries(u, v) ensures Final(hasher, u) == Final(hasher, v) {
        UnrivalledLedgersAgree(hasher, u, v);
      }
    } else {
      var v, w;
      if !AllUndisturbed(hasher, u) {
        var g, x :| Greatest(hasher, u, g, x) && !Undisturbed(hasher, u, g, x);
        v, w := DisturbedKeysDiffer(hasher, u, g, x);
      } else {
        var g, x :| Greatest(hasher, u, g, x) && !Unrivalled(hasher, u, g, x);
        v, w := RivalledLedgersDiffer(hasher, u, g, x);
      }
      assert Final(hasher, u) != Final(hasher, v) || Final(hasher, u) != Final(hasher, w);
    }
  }

  /** Observations without blocks converge in their keys. */
  lemma UnblockedKeysConverge(hasher: Hasher, u: seq<Delivery>, v: seq<Delivery>)
    requires SameDeliveries(u, v) && forall d :: d in u ==> !d.state.Blocked?
    ensures SameKeys(hasher, Final(hasher, u), Final(hasher, v))
  {
    forall g, b ensures !Doomed(u, g, b) {
      if Doomed(u, g, b) { DoomedIsBlocked(u, g, b); }
    }
    UndisturbedKeysAgree(hasher, u, v);
  }

  // ---------------------------------------------------------------------
  // The two ways to diverge, at their smallest
  // ---------------------------------------------------------------------

  lemma FirstDelivery(hasher: Hasher, run: seq<Delivery>)
    requires run != []
    ensures Arrived(hasher, run, 1) == map[run[0].h := run[0].state]
  {
    assert Arrived(hasher, run, 0) == map[];
    assert Arrived(hasher, run, 1) == Merge(map[], run[0].h, run[0].state);
  }

  /** Any two different states that tie, such as two assignments of one version to
      different workers, leave the same keys and different ledgers. */
  lemma TiesDiverge(hasher: Hasher, h: Hash, x: TaskState, y: TaskState)
    requires x != y && Rank(hasher, x) == Rank(hasher, y)
    ensures var u, v := [Delivery(h, x), Delivery(h, y)], [Delivery(h, y), Delivery(h, x)];
            && SameDeliveries(u, v) && SameKeys(hasher, Final(hasher, u), Final(hasher, v))
            && Final(hasher, u) != Final(hasher, v)
  {
    var u, v := [Delivery(h, x), Delivery(h, y)], [Delivery(h, y), Delivery(h, x)];
    FirstDelivery(hasher, u);
    FirstDelivery(hasher, v);
    LexOrder.Irreflexive(Rank(hasher, x));
    assert Arrived(hasher, u, 2) == map[h := x] && Arrived(hasher, v, 2) == map[h := y];
    assert map[h := x][h] != map[h := y][h];
  }

  /** With blocks even the keys diverge: a block and the completion it waits for leave the
      waiting slot at different keys in the two orders. */
  lemma BlocksDiverge(hasher: Hasher, g: Hash, b: TaskState, h: Hash, c: TaskState)
    requires g != h && b.Blocked? && b.on == h && c.Completed?
    ensures var u, v := [Delivery(g, b), Delivery(h, c)], [Delivery(h, c), Delivery(g, b)];
            SameDeliveries(u, v) && g in Arrived(hasher, u, 2) && g in Arrived(hasher, v, 2)
            && Rank(hasher, Arrived(hasher, u, 2)[g]) != Rank(hasher, Arrived(hasher, v, 2)[g])
  {
    var u, v := [Delivery(g, b), Delivery(h, c)], [Delivery(h, c), Delivery(g, b)];
    FirstDelivery(hasher, u);
    FirstDelivery(hasher, v);
    assert BlockedOn(map[g := b], g, h);
    assert Arrived(hasher, u, 2)[g] == Resumed(b) && Arrived(hasher, v, 2)[g] == b;
  }
}
