/**
 Outcome records and their tallies over whole runs: what the per-phase counters of a node
 count, and exactly when they count each record once.
 */
module LedgerTallies {
  import LexOrder
  import opened TaskJoin
  import opened TaskJoinTheorems
  import opened LedgerSteps
  import opened LedgerRuns

  // ---------------------------------------------------------------------
  // Records
  // ---------------------------------------------------------------------

  /** The step put a new outcome into the slot of `h`, delivered or by a cascade. */
  predicate Recorded(before: Ledger, after: Ledger, h: Hash) {
    h in after && Terminal(after[h]) && (h in before ==> before[h] != after[h])
  }

  /** A new outcome in a filled slot outranks what the slot held. */
  lemma RecordingRises(hasher: Hasher, before: Ledger, step: Step, h: Hash)
    requires h in before && Recorded(before, Next(hasher, before, step), h)
    ensures LexOrder.Less(Rank(hasher, before[h]), Rank(hasher, Next(hasher, before, step)[h]))
  {
    match step {
      case Joins(d) =>
        if d.h != h {
          OnlyBlockedAwaits(before, h, d.h);
          UpstreamFailureWins(hasher, before[h]);
        }
      case Rewrites(r) => OutcomeOrder(hasher, Next(hasher, before, step)[h], before[h]);
    }
  }

  lemma RecordingRisesAbove(hasher: Hasher, before: Ledger, step: Step, h: Hash, x: TaskState)
    requires AtLeast(hasher, before, h, x) && Recorded(before, Next(hasher, before, step), h)
    ensures LexOrder.Less(Rank(hasher, x), Rank(hasher, Next(hasher, before, step)[h]))
  {
    RecordingRises(hasher, before, step, h);
    LexOrder.AtMostThenLess(Rank(hasher, x), Rank(hasher, before[h]), Rank(hasher, Next(hasher, before, step)[h]));
  }

  /** On every run the outcomes a slot takes on, however they come about, strictly rise as
      long as no step in between lowers the earlier one. */
  lemma OutcomesRise(hasher: Hasher, run: seq<Step>, i: nat, j: nat, h: Hash)
    requires i < j < |run|
    requires Recorded(After(hasher, run, i), After(hasher, run, i + 1), h)
    requires Recorded(After(hasher, run, j), After(hasher, run, j + 1), h)
    requires NeverLowered(hasher, run, i + 1, j, h, After(hasher, run, i + 1)[h])
    ensures LexOrder.Less(Rank(hasher, After(hasher, run, i + 1)[h]), Rank(hasher, After(hasher, run, j + 1)[h]))
  {
    var x := After(hasher, run, i + 1)[h];
    LexOrder.Irreflexive(Rank(hasher, x));
    FloorLasts(hasher, run, i + 1, j, h, x);
    RecordingRisesAbove(hasher, After(hasher, run, j), run[j], h, x);
  }

  // ---------------------------------------------------------------------
  // What one step counts
  // ---------------------------------------------------------------------

  /** The slots whose new outcome the step tallies: every failure, and a completion of
      a slot that was not completed. */
  predicate Noted(before: Ledger, after: Ledger, h: Hash, phase: string, kind: PhaseTally) {
    Recorded(before, after, h) && after[h].def.phase == phase
    && match kind
       case FailedTally => IsFailure(after[h])
       case CompletedTally => after[h].Completed? && !(h in before && before[h].Completed?)
  }

  function NotedSlots(before: Ledger, after: Ledger, phase: string, kind: PhaseTally): set<Hash> {
    set h | h in after && Noted(before, after, h, phase, kind)
  }

  /** One join's tallies, in terms of the outcomes it recorded. */
  lemma TalliesCountRecords(
    hasher: Hasher, t: Tallies, t': Tallies, before: Ledger, d: Delivery, phase: string, kind: PhaseTally)
    requires Wins(hasher, before, d.h, d.state)
    requires MergeCounted(t, t', before, Merge(before, d.h, d.state), d.h, d.state)
    ensures Count(t', phase, kind) ==
            Count(t, phase, kind) + |NotedSlots(before, Merge(before, d.h, d.state), phase, kind)|
  {
    var after := Merge(before, d.h, d.state);
    LexOrder.Irreflexive(Rank(hasher, d.state));
    assert MergeCountedIn(t, t', before, after, d.h, d.state, phase);
    if kind.CompletedTally? {
      CompletionsNoted(before, d, phase);
    } else {
      FailuresNoted(before, d, phase);
      StruckApart(before, after, d, phase);
    }
  }

  lemma StruckApart(before: Ledger, after: Ledger, d: Delivery, phase: string)
    ensures |{d.h} + InPhase(before, Struck(before, after, d.h), phase)|
         == 1 + |InPhase(before, Struck(before, after, d.h), phase)|
    ensures {} + InPhase(before, Struck(before, after, d.h), phase) == InPhase(before, Struck(before, after, d.h), phase)
  {
  }

  lemma CompletionsNoted(before: Ledger, d: Delivery, phase: string)
    requires d.h in before ==> before[d.h] != d.state
    ensures NotedSlots(before, Merge(before, d.h, d.state), phase, CompletedTally) ==
            if NewlyCompleted(before, d.h, d.state) && d.state.def.phase == phase then {d.h} else {}
  {
  }

  lemma FailuresNoted(before: Ledger, d: Delivery, phase: string)
    requires d.h in before ==> before[d.h] != d.state
    ensures var after := Merge(before, d.h, d.state);
            NotedSlots(before, after, phase, FailedTally) ==
            (if IsFailure(d.state) && d.state.def.phase == phase then {d.h} else {})
            + (if NeverProduces(d.state) then InPhase(before, Struck(before, after, d.h), phase) else {})
  {
    var after := Merge(before, d.h, d.state);
    forall x | x in before && x != d.h && Awaits(before, x, d.h)
      ensures before[x].Blocked?
    {
      OnlyBlockedAwaits(before, x, d.h);
    }
  }

  /** What a step counts: rewrites count nothing, not even a task created failed. */
  ghost function NotedBy(hasher: Hasher, before: Ledger, step: Step, phase: string, kind: PhaseTally): set<Hash> {
    if step.Joins? then NotedSlots(before, Join(hasher, before, step.d), phase, kind) else {}
  }

  ghost predicate TalliedStep(hasher: Hasher, before: Ledger, step: Step, t: Tallies, t': Tallies) {
    match step
    case Joins(d) =>
      if Wins(hasher, before, d.h, d.state)
      then MergeCounted(t, t', before, Merge(before, d.h, d.state), d.h, d.state)
      else t' == t
    case Rewrites(_) => t' == t
  }

  lemma TallyStep(
    hasher: Hasher, before: Ledger, step: Step, t: Tallies, t': Tallies, phase: string, kind: PhaseTally)
    requires TalliedStep(hasher, before, step, t, t')
    ensures Count(t', phase, kind) == Count(t, phase, kind) + |NotedBy(hasher, before, step, phase, kind)|
  {
    if step.Joins? {
      if Wins(hasher, before, step.d.h, step.d.state) {
        TalliesCountRecords(hasher, t, t', before, step.d, phase, kind);
      } else {
        assert NotedSlots(before, before, phase, kind) == {};
      }
    }
  }

  // ---------------------------------------------------------------------
  // The books of a run
  // ---------------------------------------------------------------------

  /** A slot and the key of an outcome it took on. */
  type Record = (Hash, seq<nat>)

  /** A ledger, how often its steps counted, and the distinct records they counted. */
  datatype Book = Book(tasks: Ledger, total: nat, records: set<Record>)

  function Keyed(hasher: Hasher, tasks: Ledger, s: set<Hash>): set<Record> {
    set h | h in s && h in tasks :: (h, Rank(hasher, tasks[h]))
  }

  lemma {:induction false} KeyedSize(hasher: Hasher, tasks: Ledger, s: set<Hash>)
    requires s <= tasks.Keys
    ensures |Keyed(hasher, tasks, s)| == |s|
    decreases |s|
  {
    if s != {} {
      var h :| h in s;
      KeyedSize(hasher, tasks, s - {h});
      assert Keyed(hasher, tasks, s) == Keyed(hasher, tasks, s - {h}) + {(h, Rank(hasher, tasks[h]))};
    }
  }

  ghost function NewRecords(hasher: Hasher, before: Ledger, step: Step, phase: string, kind: PhaseTally): set<Record> {
    Keyed(hasher, Next(hasher, before, step), NotedBy(hasher, before, step, phase, kind))
  }

  ghost function Enter(hasher: Hasher, b: Book, step: Step, phase: string, kind: PhaseTally): Book {
    Book(Next(hasher, b.tasks, step), b.total + |NotedBy(hasher, b.tasks, step, phase, kind)|,
         b.records + NewRecords(hasher, b.tasks, step, phase, kind))
  }

  /** The book of a fresh node after a run. */
  ghost function Kept(hasher: Hasher, run: seq<Step>, phase: string, kind: PhaseTally): Book {
    if run == [] then Book(map[], 0, {})
    else Enter(hasher, Kept(hasher, run[..|run| - 1], phase, kind), run[|run| - 1], phase, kind)
  }

  lemma KeptOneMore(hasher: Hasher, run: seq<Step>, step: Step, phase: string, kind: PhaseTally)
    ensures Kept(hasher, run + [step], phase, kind) == Enter(hasher, Kept(hasher, run, phase, kind), step, phase, kind)
  {
    assert (run + [step])[..|run|] == run;
  }

  lemma {:induction false} KeptLedger(hasher: Hasher, run: seq<Step>, phase: string, kind: PhaseTally)
    ensures Kept(hasher, run, phase, kind).tasks == After(hasher, run, |run|)
    decreases |run|
  {
    if run != [] {
      KeptLedger(hasher, run[..|run| - 1], phase, kind);
      AfterTheLast(hasher, run);
    }
  }

  /** A state that counts under `phase` and `kind`. */
  predicate Counts(x: TaskState, phase: string, kind: PhaseTally) {
    x.def.phase == phase && if kind.FailedTally? then IsFailure(x) else x.Completed?
  }

  /** A record is the key of an outcome that counts. */
  ghost predicate IsRecord(hasher: Hasher, b: Book, r: Record, phase: string, kind: PhaseTally) {
    r.0 in b.tasks && exists x :: Counts(x, phase, kind) && Rank(hasher, x) == r.1
  }

  ghost predicate WellKept(hasher: Hasher, b: Book, phase: string, kind: PhaseTally) {
    |b.records| <= b.total && forall r :: r in b.records ==> IsRecord(hasher, b, r, phase, kind)
  }

  lemma NewRecord(hasher: Hasher, before: Ledger, step: Step, phase: string, kind: PhaseTally, r: Record)
    requires r in NewRecords(hasher, before, step, phase, kind)
    ensures var after := Next(hasher, before, step);
            && r.0 in after && Counts(after[r.0], phase, kind) && Rank(hasher, after[r.0]) == r.1
            && Recorded(before, after, r.0)
  {
  }

  lemma NewRecordsAreNoted(hasher: Hasher, before: Ledger, step: Step, phase: string, kind: PhaseTally)
    ensures |NewRecords(hasher, before, step, phase, kind)| == |NotedBy(hasher, before, step, phase, kind)|
  {
    KeyedSize(hasher, Next(hasher, before, step), NotedBy(hasher, before, step, phase, kind));
  }

  lemma UnionSize<T>(a: set<T>, b: set<T>)
    ensures a !! b ==> |a + b| == |a| + |b|
    ensures !(a !! b) ==> |a + b| < |a| + |b|
  {
    assert |a + b| + |a * b| == |a| + |b|;
    if !(a !! b) {
      var x :| x in a && x in b;
      assert x in a * b;
    }
  }

  lemma EnterGrows(hasher: Hasher, b: Book, step: Step, phase: string, kind: PhaseTally)
    ensures var (b', news) := (Enter(hasher, b, step, phase, kind), NewRecords(hasher, b.tasks, step, phase, kind));
            && b'.total == b.total + |news|
            && (b.records !! news ==> |b'.records| == |b.records| + |news|)
            && (!(b.records !! news) ==> |b'.records| < |b.records| + |news|)
  {
    NewRecordsAreNoted(hasher, b.tasks, step, phase, kind);
    UnionSize(b.records, NewRecords(hasher, b.tasks, step, phase, kind));
  }

  lemma FilledStays(hasher: Hasher, before: Ledger, step: Step, h: Hash)
    requires h in before
    ensures h in Next(hasher, before, step)
  {
  }

  lemma EnterWellKept(hasher: Hasher, b: Book, step: Step, phase: string, kind: PhaseTally)
    requires WellKept(hasher, b, phase, kind)
    ensures WellKept(hasher, Enter(hasher, b, step, phase, kind), phase, kind)
  {
    EnterGrows(hasher, b, step, phase, kind);
    EnterRecords(hasher, b, step, phase, kind);
  }

  lemma EnterRecords(hasher: Hasher, b: Book, step: Step, phase: string, kind: PhaseTally)
    requires forall r :: r in b.records ==> IsRecord(hasher, b, r, phase, kind)
    ensures var b' := Enter(hasher, b, step, phase, kind);
            forall r :: r in b'.records ==> IsRecord(hasher, b', r, phase, kind)
  {
    var b' := Enter(hasher, b, step, phase, kind);
    forall r | r in b'.records ensures IsRecord(hasher, b', r, phase, kind) {
      if r in b.records {
        assert IsRecord(hasher, b, r, phase, kind);
        FilledStays(hasher, b.tasks, step, r.0);
      } else {
        NewRecord(hasher, b.tasks, step, phase, kind, r);
      }
    }
  }

  lemma {:induction false} RunsAreWellKept(hasher: Hasher, run: seq<Step>, phase: string, kind: PhaseTally)
    ensures WellKept(hasher, Kept(hasher, run, phase, kind), phase, kind)
  {
    if run != [] {
      RunsAreWellKept(hasher, run[..|run| - 1], phase, kind);
      EnterWellKept(hasher, Kept(hasher, run[..|run| - 1], phase, kind), run[|run| - 1], phase, kind);
    }
  }

  // ---------------------------------------------------------------------
  // The tallies are the totals
  // ---------------------------------------------------------------------

  /** Tallies kept beside the ledger of a run, as the object keeps them. */
  ghost predicate TalliedRun(hasher: Hasher, run: seq<Step>, tallies: seq<Tallies>) {
    |tallies| == |run| + 1 && tallies[0] == map[]
    && forall i :: 0 <= i < |run| ==> TalliedAt(hasher, run, tallies, i)
  }

  ghost predicate TalliedAt(hasher: Hasher, run: seq<Step>, tallies: seq<Tallies>, i: nat)
    requires |tallies| == |run| + 1 && i < |run|
  {
    TalliedStep(hasher, After(hasher, run, i), run[i], tallies[i], tallies[i + 1])
  }

  lemma TalliedFront(hasher: Hasher, run: seq<Step>, tallies: seq<Tallies>)
    requires run != [] && TalliedRun(hasher, run, tallies)
    ensures var n := |run| - 1;
            && TalliedRun(hasher, run[..n], tallies[..n + 1])
            && TalliedStep(hasher, After(hasher, run[..n], n), run[n], tallies[n], tallies[n + 1])
  {
    var n := |run| - 1;
    var front, before := run[..n], tallies[..n + 1];
    forall i | 0 <= i < n ensures TalliedAt(hasher, front, before, i) {
      assert TalliedAt(hasher, run, tallies, i);
      PrefixLedger(hasher, run, n, i);
    }
    assert TalliedAt(hasher, run, tallies, n);
    PrefixLedger(hasher, run, n, n);
  }

  lemma {:induction false} TalliesAreTotals(
    hasher: Hasher, run: seq<Step>, tallies: seq<Tallies>, phase: string, kind: PhaseTally)
    requires TalliedRun(hasher, run, tallies)
    ensures Count(tallies[|run|], phase, kind) == Kept(hasher, run, phase, kind).total
    decreases |run|
  {
    if run != [] {
      var n := |run| - 1;
      TalliedFront(hasher, run, tallies);
      TalliesAreTotals(hasher, run[..n], tallies[..n + 1], phase, kind);
      KeptLedger(hasher, run[..n], phase, kind);
      TallyStep(hasher, After(hasher, run[..n], n), run[n], tallies[n], tallies[n + 1], phase, kind);
    }
  }

  // ---------------------------------------------------------------------
  // When each record counts once
  // ---------------------------------------------------------------------

  ghost predicate HeldKey(hasher: Hasher, tasks: Ledger, r: Record) {
    r.0 in tasks && LexOrder.AtMost(r.1, Rank(hasher, tasks[r.0]))
  }

  /** No counted outcome has been lost: every slot is still at its records or above. */
  ghost predicate RecordsHeld(hasher: Hasher, b: Book) {
    forall r :: r in b.records ==> HeldKey(hasher, b.tasks, r)
  }

  /** Every record was counted once. */
  ghost predicate CountedOnce(b: Book) {
    b.total == |b.records|
  }

  /** The step takes a slot below a record counted before. */
  ghost predicate LosesARecord(b: Book, step: Step) {
    exists r :: r in b.records && |r.1| > 0 && Lowers(b.tasks, step, r.0, r.1[0], true)
  }

  lemma HeldIsNotNew(hasher: Hasher, before: Ledger, step: Step, phase: string, kind: PhaseTally, r: Record)
    requires HeldKey(hasher, before, r)
    ensures r !in NewRecords(hasher, before, step, phase, kind)
  {
    if r in NewRecords(hasher, before, step, phase, kind) {
      NewRecord(hasher, before, step, phase, kind, r);
      RecordingRises(hasher, before, step, r.0);
    }
  }

  lemma HeldStaysHeld(hasher: Hasher, b: Book, step: Step, phase: string, kind: PhaseTally, r: Record)
    requires r in b.records && HeldKey(hasher, b.tasks, r) && IsRecord(hasher, b, r, phase, kind)
    requires !LosesARecord(b, step)
    ensures HeldKey(hasher, Next(hasher, b.tasks, step), r)
  {
    var x :| Counts(x, phase, kind) && Rank(hasher, x) == r.1;
    assert r.1[0] == x.attempt;
    StepKeepsFloorExactly(hasher, b.tasks, step, r.0, x);
  }

  lemma NewIsHeld(hasher: Hasher, before: Ledger, step: Step, phase: string, kind: PhaseTally, r: Record)
    requires r in NewRecords(hasher, before, step, phase, kind)
    ensures HeldKey(hasher, Next(hasher, before, step), r)
  {
    NewRecord(hasher, before, step, phase, kind, r);
    LexOrder.Irreflexive(r.1);
  }

  ghost predicate Sound(hasher: Hasher, b: Book) {
    CountedOnce(b) && RecordsHeld(hasher, b)
  }

  lemma SoundStep(hasher: Hasher, b: Book, step: Step, phase: string, kind: PhaseTally)
    requires WellKept(hasher, b, phase, kind) && Sound(hasher, b) && !LosesARecord(b, step)
    ensures Sound(hasher, Enter(hasher, b, step, phase, kind))
  {
    var b' := Enter(hasher, b, step, phase, kind);
    EnterGrows(hasher, b, step, phase, kind);
    forall r | r in b.records
      ensures r !in NewRecords(hasher, b.tasks, step, phase, kind) && HeldKey(hasher, b'.tasks, r)
    {
      assert IsRecord(hasher, b, r, phase, kind) && HeldKey(hasher, b.tasks, r);
      HeldIsNotNew(hasher, b.tasks, step, phase, kind, r);
      HeldStaysHeld(hasher, b, step, phase, kind, r);
    }
    forall r | r in NewRecords(hasher, b.tasks, step, phase, kind) ensures HeldKey(hasher, b'.tasks, r) {
      NewIsHeld(hasher, b.tasks, step, phase, kind, r);
    }
  }

  /** No step of the run takes a slot below a record counted before. */
  ghost predicate KeepsRecords(hasher: Hasher, run: seq<Step>, phase: string, kind: PhaseTally) {
    run != [] ==>
      && KeepsRecords(hasher, run[..|run| - 1], phase, kind)
      && !LosesARecord(Kept(hasher, run[..|run| - 1], phase, kind), run[|run| - 1])
  }

  lemma {:induction false} KeepingRunsAreSound(hasher: Hasher, run: seq<Step>, phase: string, kind: PhaseTally)
    requires KeepsRecords(hasher, run, phase, kind)
    ensures Sound(hasher, Kept(hasher, run, phase, kind))
    decreases |run|
  {
    if run != [] {
      var front, last := run[..|run| - 1], run[|run| - 1];
      KeepingRunsAreSound(hasher, front, phase, kind);
      RunsAreWellKept(hasher, front, phase, kind);
      SoundStep(hasher, Kept(hasher, front, phase, kind), last, phase, kind);
    }
  }

  /** On every run, as long as no reset takes a slot below a counted outcome, the tally of a
      phase is exactly the number of distinct outcome records: redelivery, reordering and
      cascades count nothing twice. */
  lemma TalliesCountDistinctRecords(
    hasher: Hasher, run: seq<Step>, tallies: seq<Tallies>, phase: string, kind: PhaseTally)
    requires TalliedRun(hasher, run, tallies) && KeepsRecords(hasher, run, phase, kind)
    ensures Count(tallies[|run|], phase, kind) == |Kept(hasher, run, phase, kind).records|
  {
    KeepingRunsAreSound(hasher, run, phase, kind);
    TalliesAreTotals(hasher, run, tallies, phase, kind);
  }

  // ---------------------------------------------------------------------
  // Continuations of a run
  // ---------------------------------------------------------------------

  /** The book after further observations have arrived. */
  ghost function Continued(hasher: Hasher, b: Book, w: seq<Delivery>, phase: string, kind: PhaseTally): Book
    decreases |w|
  {
    if w == [] then b else Continued(hasher, Enter(hasher, b, Joins(w[0]), phase, kind), w[1..], phase, kind)
  }

  ghost predicate CountsOnceAfter(hasher: Hasher, b: Book, w: seq<Delivery>, phase: string, kind: PhaseTally) {
    CountedOnce(Continued(hasher, b, w, phase, kind))
  }

  lemma {:induction false} JoinsKeepSound(
    hasher: Hasher, b: Book, w: seq<Delivery>, phase: string, kind: PhaseTally)
    requires WellKept(hasher, b, phase, kind) && Sound(hasher, b)
    ensures Sound(hasher, Continued(hasher, b, w, phase, kind))
    decreases |w|
  {
    if w != [] {
      SoundStep(hasher, b, Joins(w[0]), phase, kind);
      EnterWellKept(hasher, b, Joins(w[0]), phase, kind);
      JoinsKeepSound(hasher, Enter(hasher, b, Joins(w[0]), phase, kind), w[1..], phase, kind);
    }
  }

  /** A join that counts a record counted before counts it twice. */
  lemma CountsTwice(hasher: Hasher, b: Book, phase: string, kind: PhaseTally, h: Hash, x: TaskState)
    requires WellKept(hasher, b, phase, kind) && Counts(x, phase, kind) && (h, Rank(hasher, x)) in b.records
    requires h in b.tasks && Dominates(hasher, x, b.tasks[h])
    requires kind.CompletedTally? ==> !b.tasks[h].Completed?
    ensures !CountedOnce(Enter(hasher, b, Joins(Delivery(h, x)), phase, kind))
  {
    var step := Joins(Delivery(h, x));
    LexOrder.Irreflexive(Rank(hasher, x));
    assert Next(hasher, b.tasks, step)[h] == x;
    assert h in NotedBy(hasher, b.tasks, step, phase, kind);
    assert (h, Rank(hasher, x)) in NewRecords(hasher, b.tasks, step, phase, kind);
    EnterGrows(hasher, b, step, phase, kind);
  }

  /** Observations that make a lost record count again. */
  lemma Recount(hasher: Hasher, b: Book, phase: string, kind: PhaseTally, r: Record) returns (w: seq<Delivery>)
    requires WellKept(hasher, b, phase, kind) && r in b.records && !HeldKey(hasher, b.tasks, r)
    ensures !CountsOnceAfter(hasher, b, w, phase, kind)
  {
    assert IsRecord(hasher, b, r, phase, kind);
    var x :| Counts(x, phase, kind) && Rank(hasher, x) == r.1;
    var s, d := b.tasks[r.0], Delivery(r.0, x);
    if kind.CompletedTally? && s.Completed? {
      var i := Delivery(r.0, InvalidTask(s.def, "", "", ZERO_VERSION, s.attempt));
      w := [i, d];
      InvalidFirst(hasher, b, phase, r.0, x);
      EnterWellKept(hasher, b, Joins(i), phase, kind);
      CountsTwice(hasher, Enter(hasher, b, Joins(i), phase, kind), phase, kind, r.0, x);
      ContinuedByOne(hasher, Enter(hasher, b, Joins(i), phase, kind), d, phase, kind);
      assert w[1..] == [d];
    } else {
      w := [d];
      CountsTwice(hasher, b, phase, kind, r.0, x);
      ContinuedByOne(hasher, b, d, phase, kind);
    }
  }

  lemma ContinuedByOne(hasher: Hasher, b: Book, d: Delivery, phase: string, kind: PhaseTally)
    ensures Continued(hasher, b, [d], phase, kind) == Enter(hasher, b, Joins(d), phase, kind)
  {
    assert [d][1..] == [];
  }

  /** An invalid verdict takes the slot from an earlier completion. */
  lemma InvalidFirst(hasher: Hasher, b: Book, phase: string, h: Hash, x: TaskState)
    requires h in b.tasks && b.tasks[h].Completed? && x.Completed? && Dominates(hasher, x, b.tasks[h])
    ensures var s := b.tasks[h];
            var i := InvalidTask(s.def, "", "", ZERO_VERSION, s.attempt);
            var b' := Enter(hasher, b, Joins(Delivery(h, i)), phase, CompletedTally);
            h in b'.tasks && b'.tasks[h] == i && Dominates(hasher, x, i)
  {
    var s := b.tasks[h];
    var i := InvalidTask(s.def, "", "", ZERO_VERSION, s.attempt);
    OutcomeOrder(hasher, i, s);
    CompletionsOrderByAttempt(hasher, s, x);
    OutcomeOrder(hasher, x, i);
  }

  /** However a run goes on by joins, each record counts once, exactly when each counted
      once so far and no slot is below a record of its own. */
  lemma CountedOnceExactly(hasher: Hasher, run: seq<Step>, phase: string, kind: PhaseTally)
    ensures var b := Kept(hasher, run, phase, kind);
            (forall w :: CountsOnceAfter(hasher, b, w, phase, kind)) <==> CountedOnce(b) && RecordsHeld(hasher, b)
  {
    RunsAreWellKept(hasher, run, phase, kind);
    BookStaysExact(hasher, Kept(hasher, run, phase, kind), phase, kind);
  }

  lemma BookStaysExact(hasher: Hasher, b: Book, phase: string, kind: PhaseTally)
    requires WellKept(hasher, b, phase, kind)
    ensures (forall w :: CountsOnceAfter(hasher, b, w, phase, kind)) <==> Sound(hasher, b)
  {
    if Sound(hasher, b) {
      forall w ensures CountsOnceAfter(hasher, b, w, phase, kind) {
        JoinsKeepSound(hasher, b, w, phase, kind);
      }
    } else if !CountedOnce(b) {
      assert !CountsOnceAfter(hasher, b, [], phase, kind);
    } else {
      var r :| r in b.records && !HeldKey(hasher, b.tasks, r);
      var w := Recount(hasher, b, phase, kind, r);
    }
  }

  // ---------------------------------------------------------------------
  // Runs that lose nothing, and a run that does
  // ---------------------------------------------------------------------

  /** A step that is no stale retry loses completions never, and other outcomes only to a
      reinjection. */
  lemma FreshStepsKeepRecords(hasher: Hasher, b: Book, step: Step, phase: string, kind: PhaseTally)
    requires WellKept(hasher, b, phase, kind) && RecordsHeld(hasher, b) && !StaleRetry(b.tasks, step)
    requires kind.FailedTally? ==> !(step.Rewrites? && step.r.Reinject?)
    ensures !LosesARecord(b, step)
  {
    forall r | r in b.records && |r.1| > 0 ensures !Lowers(b.tasks, step, r.0, r.1[0], true) {
      assert IsRecord(hasher, b, r, phase, kind) && HeldKey(hasher, b.tasks, r);
      var x :| Counts(x, phase, kind) && Rank(hasher, x) == r.1;
      if Lowers(b.tasks, step, r.0, x.attempt, true) { LoweredOnlyBy(hasher, b.tasks, step, r.0, x); }
    }
  }

  ghost predicate FreshBooks(hasher: Hasher, run: seq<Step>, phase: string, kind: PhaseTally) {
    run != [] ==>
      && FreshBooks(hasher, run[..|run| - 1], phase, kind)
      && !StaleRetry(Kept(hasher, run[..|run| - 1], phase, kind).tasks, run[|run| - 1])
  }

  lemma {:induction false} FreshRunsKeepFreshBooks(hasher: Hasher, run: seq<Step>, phase: string, kind: PhaseTally)
    requires Fresh(hasher, run)
    ensures FreshBooks(hasher, run, phase, kind)
    decreases |run|
  {
    if run != [] {
      var front := run[..|run| - 1];
      FreshFront(hasher, run);
      FreshRunsKeepFreshBooks(hasher, front, phase, kind);
      FreshLast(hasher, front, run[|run| - 1], phase, kind);
    }
  }

  lemma FreshLast(hasher: Hasher, front: seq<Step>, last: Step, phase: string, kind: PhaseTally)
    requires !StaleRetry(After(hasher, front, |front|), last)
    ensures !StaleRetry(Kept(hasher, front, phase, kind).tasks, last)
  {
    KeptLedger(hasher, front, phase, kind);
  }

  lemma FreshFront(hasher: Hasher, run: seq<Step>)
    requires run != [] && Fresh(hasher, run)
    ensures var n := |run| - 1;
            Fresh(hasher, run[..n]) && !StaleRetry(After(hasher, run[..n], n), run[n])
  {
    var n := |run| - 1;
    forall k | 0 <= k < n ensures FreshAt(hasher, run[..n], k) {
      assert FreshAt(hasher, run, k);
      PrefixLedger(hasher, run, n, k);
    }
    assert FreshAt(hasher, run, n);
    PrefixLedger(hasher, run, n, n);
  }

  lemma {:induction false} FreshBooksAreSound(hasher: Hasher, run: seq<Step>, phase: string, kind: PhaseTally)
    requires FreshBooks(hasher, run, phase, kind) && (kind.FailedTally? ==> NoReinjections(run))
    ensures Sound(hasher, Kept(hasher, run, phase, kind))
    decreases |run|
  {
    if run != [] {
      var front, last := run[..|run| - 1], run[|run| - 1];
      FreshBooksAreSound(hasher, front, phase, kind);
      RunsAreWellKept(hasher, front, phase, kind);
      FreshStepsKeepRecords(hasher, Kept(hasher, front, phase, kind), last, phase, kind);
      SoundStep(hasher, Kept(hasher, front, phase, kind), last, phase, kind);
    }
  }

  /** Completions are counted once on every run whose retries are fresh, every outcome if
      nothing is reinjected either. */
  lemma FreshRunsCountOnce(hasher: Hasher, run: seq<Step>, phase: string, kind: PhaseTally)
    requires Fresh(hasher, run) && (kind.FailedTally? ==> NoReinjections(run))
    ensures var b := Kept(hasher, run, phase, kind); CountedOnce(b) && RecordsHeld(hasher, b)
  {
    FreshRunsKeepFreshBooks(hasher, run, phase, kind);
    FreshBooksAreSound(hasher, run, phase, kind);
  }

  /** The failing input: an unfulfillable task, reinjected, and its record delivered again. */
  lemma ReinjectedFailureCountsTwice(hasher: Hasher, h: Hash, s: TaskState, v: TaskVersion)
    requires s.Unfulfillable?
    ensures var run := [Joins(Delivery(h, s)), Rewrites(Reinject(h, v)), Joins(Delivery(h, s))];
            !CountedOnce(Kept(hasher, run, s.def.phase, FailedTally))
  {
    var (d, r, phase) := (Joins(Delivery(h, s)), Rewrites(Reinject(h, v)), s.def.phase);
    var two := [d] + [r];
    Reopened(hasher, h, s, v);
    OutcomeOrder(hasher, s, Pending(s.def, v, s.attempt));
    RunsAreWellKept(hasher, two, phase, FailedTally);
    CountsTwice(hasher, Kept(hasher, two, phase, FailedTally), phase, FailedTally, h, s);
    KeptOneMore(hasher, two, d, phase, FailedTally);
    ThreeSteps(d, r, d);
  }

  lemma ThreeSteps(a: Step, b: Step, c: Step)
    ensures [a] + [b] + [c] == [a, b, c]
  {
  }

  lemma Reopened(hasher: Hasher, h: Hash, s: TaskState, v: TaskVersion)
    requires s.Unfulfillable?
    ensures var b := Kept(hasher, [Joins(Delivery(h, s))] + [Rewrites(Reinject(h, v))], s.def.phase, FailedTally);
            h in b.tasks && b.tasks[h] == Pending(s.def, v, s.attempt) && (h, Rank(hasher, s)) in b.records
  {
    FirstRecord(hasher, h, s);
    KeptOneMore(hasher, [Joins(Delivery(h, s))], Rewrites(Reinject(h, v)), s.def.phase, FailedTally);
  }

  lemma FirstRecord(hasher: Hasher, h: Hash, s: TaskState)
    requires IsFailure(s)
    ensures var b := Kept(hasher, [Joins(Delivery(h, s))], s.def.phase, FailedTally);
            h in b.tasks && b.tasks[h] == s && (h, Rank(hasher, s)) in b.records
  {
    var d := Joins(Delivery(h, s));
    KeptOneMore(hasher, [], d, s.def.phase, FailedTally);
    assert [] + [d] == [d];
    assert h in NotedBy(hasher, map[], d, s.def.phase, FailedTally);
  }
}
