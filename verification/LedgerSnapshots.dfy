/**
 Tallies across nodes: a restore joins a snapshot's states and then takes the greater of
 the two counts (crates/dynrunner-manager-distributed/src/cluster_state/snapshot.rs).
 */
module LedgerSnapshots {
  import opened Wrappers
  import LexOrder
  import opened TaskJoin
  import opened TaskJoinTheorems
  import opened LedgerSteps
  import opened LedgerTallies

  /** The snapshot's states, in whatever order its hash map yields them. */
  ghost predicate Lists(order: seq<Delivery>, tasks: Ledger) {
    && (forall d :: d in order ==> d.h in tasks && tasks[d.h] == d.state)
    && (forall h :: h in tasks ==> Delivery(h, tasks[h]) in order)
  }

  /** States first, then the counts; the records covered are those of both. */
  ghost function Restored(
    hasher: Hasher, b: Book, order: seq<Delivery>, snap: Book, phase: string, kind: PhaseTally): Book
  {
    var joined := Continued(hasher, b, order, phase, kind);
    Book(joined.tasks, Max(joined.total, snap.total), joined.records + snap.records)
  }

  /** The book counts no more than the records it covers, and holds them all. */
  ghost predicate Modest(hasher: Hasher, b: Book, phase: string, kind: PhaseTally) {
    && b.total <= |b.records| && RecordsHeld(hasher, b)
    && forall r :: r in b.records ==> IsRecord(hasher, b, r, phase, kind)
  }

  lemma ModestStep(hasher: Hasher, b: Book, step: Step, phase: string, kind: PhaseTally)
    requires Modest(hasher, b, phase, kind) && !LosesARecord(b, step)
    ensures Modest(hasher, Enter(hasher, b, step, phase, kind), phase, kind)
  {
    var b' := Enter(hasher, b, step, phase, kind);
    EnterGrows(hasher, b, step, phase, kind);
    forall r | r in b.records
      ensures r !in NewRecords(hasher, b.tasks, step, phase, kind) && HeldKey(hasher, b'.tasks, r)
    {
      assert IsRecord(hasher, b, r, phase, kind) && HeldKey(hasher, b.tasks, r);
      HeldIsNotNew(hasher, b.tasks, step, phase, kind, r);
      HeldStaysHeld(hasher, b, step, phase, kind, r);
    }
    forall r | r in NewRecords(hasher, b.tasks, step, phase, kind) ensures HeldKey(hasher, b'.tasks, r) {
      NewIsHeld(hasher, b.tasks, step, phase, kind, r);
    }
    EnterRecords(hasher, b, step, phase, kind);
  }

  lemma {:induction false} ModestArrivals(hasher: Hasher, b: Book, w: seq<Delivery>, phase: string, kind: PhaseTally)
    requires Modest(hasher, b, phase, kind)
    ensures Modest(hasher, Continued(hasher, b, w, phase, kind), phase, kind)
    decreases |w|
  {
    if w != [] {
      ModestStep(hasher, b, Joins(w[0]), phase, kind);
      ModestArrivals(hasher, Enter(hasher, b, Joins(w[0]), phase, kind), w[1..], phase, kind);
    }
  }

  /** An outcome that is a floor of its slot stays one through further arrivals. */
  lemma {:induction false} FloorThroughArrivals(
    hasher: Hasher, b: Book, w: seq<Delivery>, phase: string, kind: PhaseTally, h: Hash, x: TaskState)
    requires Lasting(x) && AtLeast(hasher, b.tasks, h, x)
    ensures AtLeast(hasher, Continued(hasher, b, w, phase, kind).tasks, h, x)
    decreases |w|
  {
    if w != [] {
      JoinKeepsFloor(hasher, b.tasks, w[0], h, x);
      FloorThroughArrivals(hasher, Enter(hasher, b, Joins(w[0]), phase, kind), w[1..], phase, kind, h, x);
    }
  }

  /** Once a state at or above an outcome has arrived, the outcome is a floor. */
  lemma {:induction false} ArrivalIsAFloor(
    hasher: Hasher, b: Book, w: seq<Delivery>, phase: string, kind: PhaseTally, d: Delivery, x: TaskState)
    requires d in w && Lasting(x) && LexOrder.AtMost(Rank(hasher, x), Rank(hasher, d.state))
    ensures AtLeast(hasher, Continued(hasher, b, w, phase, kind).tasks, d.h, x)
    decreases |w|
  {
    var b' := Enter(hasher, b, Joins(w[0]), phase, kind);
    if w[0] == d {
      DeliveredIsHeld(hasher, b.tasks, d);
      LexOrder.AtMostTransitive(Rank(hasher, x), Rank(hasher, d.state), Rank(hasher, b'.tasks[d.h]));
      FloorThroughArrivals(hasher, b', w[1..], phase, kind, d.h, x);
    } else {
      ArrivalIsAFloor(hasher, b', w[1..], phase, kind, d, x);
    }
  }

  lemma SnapshotRecordIsHeld(
    hasher: Hasher, b: Book, order: seq<Delivery>, snap: Book, phase: string, kind: PhaseTally, r: Record)
    requires Lists(order, snap.tasks) && r in snap.records
    requires IsRecord(hasher, snap, r, phase, kind) && HeldKey(hasher, snap.tasks, r)
    ensures HeldKey(hasher, Continued(hasher, b, order, phase, kind).tasks, r)
  {
    var x :| Counts(x, phase, kind) && Rank(hasher, x) == r.1;
    ArrivalIsAFloor(hasher, b, order, phase, kind, Delivery(r.0, snap.tasks[r.0]), x);
  }

  lemma ModestRestore(
    hasher: Hasher, b: Book, order: seq<Delivery>, snap: Book, phase: string, kind: PhaseTally)
    requires Modest(hasher, b, phase, kind) && Modest(hasher, snap, phase, kind) && Lists(order, snap.tasks)
    ensures Modest(hasher, Restored(hasher, b, order, snap, phase, kind), phase, kind)
  {
    var joined := Continued(hasher, b, order, phase, kind);
    var restored := Restored(hasher, b, order, snap, phase, kind);
    ModestArrivals(hasher, b, order, phase, kind);
    Subsets(joined.records, snap.records);
    forall r | r in restored.records
      ensures HeldKey(hasher, restored.tasks, r) && IsRecord(hasher, restored, r, phase, kind)
    {
      if r in joined.records {
        assert HeldKey(hasher, joined.tasks, r) && IsRecord(hasher, joined, r, phase, kind);
      } else {
        assert HeldKey(hasher, snap.tasks, r) && IsRecord(hasher, snap, r, phase, kind);
        SnapshotRecordIsHeld(hasher, b, order, snap, phase, kind, r);
      }
    }
  }

  lemma Subsets<T>(a: set<T>, b: set<T>)
    ensures |a| <= |a + b| && |b| <= |a + b|
    ensures |a| == |a + b| <==> b <= a
    ensures |b| == |a + b| <==> a <= b
  {
    assert a + b == a + (b - a) && |a + (b - a)| == |a| + |b - a|;
    assert a + b == b + (a - b) && |b + (a - b)| == |b| + |a - b|;
  }

  // ---------------------------------------------------------------------
  // Any node of a cluster
  // ---------------------------------------------------------------------

  /** How a node came to be as it is: fresh, after a step, or after restoring a snapshot of
      any node of the cluster. */
  datatype Life =
    | Born
    | Stepped(life: Life, step: Step)
    | Healed(life: Life, order: seq<Delivery>, other: Life)

  ghost function BookOf(hasher: Hasher, life: Life, phase: string, kind: PhaseTally): Book {
    match life
    case Born => Book(map[], 0, {})
    case Stepped(l, step) => Enter(hasher, BookOf(hasher, l, phase, kind), step, phase, kind)
    case Healed(l, order, other) =>
      Restored(hasher, BookOf(hasher, l, phase, kind), order, BookOf(hasher, other, phase, kind), phase, kind)
  }

  /** Snapshots are taken whole, and no step anywhere takes a slot below a counted outcome. */
  ghost predicate Orderly(hasher: Hasher, life: Life, phase: string, kind: PhaseTally) {
    match life
    case Born => true
    case Stepped(l, step) =>
      Orderly(hasher, l, phase, kind) && !LosesARecord(BookOf(hasher, l, phase, kind), step)
    case Healed(l, order, other) =>
      && Orderly(hasher, l, phase, kind) && Orderly(hasher, other, phase, kind)
      && Lists(order, BookOf(hasher, other, phase, kind).tasks)
  }

  /** However nodes exchange snapshots, no tally exceeds the number of distinct records its
      node's own history covers, and the node holds all of them. */
  lemma {:induction false} TalliesNeverOvershoot(hasher: Hasher, life: Life, phase: string, kind: PhaseTally)
    requires Orderly(hasher, life, phase, kind)
    ensures Modest(hasher, BookOf(hasher, life, phase, kind), phase, kind)
  {
    match life {
      case Born =>
      case Stepped(l, step) =>
        TalliesNeverOvershoot(hasher, l, phase, kind);
        ModestStep(hasher, BookOf(hasher, l, phase, kind), step, phase, kind);
      case Healed(l, order, other) =>
        TalliesNeverOvershoot(hasher, l, phase, kind);
        TalliesNeverOvershoot(hasher, other, phase, kind);
        ModestRestore(hasher, BookOf(hasher, l, phase, kind), order, BookOf(hasher, other, phase, kind), phase, kind);
    }
  }

  /** The greater count is exactly the union of what two exact books cover exactly when one
      of them covers the other; otherwise it falls short. */
  lemma RestoreCoversExactly(
    hasher: Hasher, b: Book, order: seq<Delivery>, snap: Book, phase: string, kind: PhaseTally)
    requires CountedOnce(Continued(hasher, b, order, phase, kind)) && CountedOnce(snap)
    ensures var joined := Continued(hasher, b, order, phase, kind);
            CountedOnce(Restored(hasher, b, order, snap, phase, kind)) <==>
            joined.records <= snap.records || snap.records <= joined.records
  {
    Subsets(Continued(hasher, b, order, phase, kind).records, snap.records);
  }

  lemma QuietJoin(hasher: Hasher, tasks: Ledger, h: Hash, x: TaskState)
    requires BlockedSet(tasks) == {} && Wins(hasher, tasks, h, x)
    ensures Join(hasher, tasks, Delivery(h, x)) == tasks[h := x]
  {
    forall y | y in tasks ensures !tasks[y].Blocked? {
      assert y !in BlockedSet(tasks);
    }
    forall y | y in tasks && y != h ensures !Awaits(tasks, y, h) {
      if Awaits(tasks, y, h) { OnlyBlockedAwaits(tasks, y, h); }
    }
  }

  lemma QuietNote(tasks: Ledger, h: Hash, x: TaskState, phase: string, kind: PhaseTally)
    requires Counts(x, phase, kind) && (h in tasks ==> tasks[h] != x)
    requires kind.CompletedTally? ==> !(h in tasks && tasks[h].Completed?)
    ensures NotedSlots(tasks, tasks[h := x], phase, kind) == {h}
  {
  }

  lemma KeyedOne(hasher: Hasher, tasks: Ledger, h: Hash)
    requires h in tasks
    ensures Keyed(hasher, tasks, {h}) == {(h, Rank(hasher, tasks[h]))}
  {
  }

  /** Where nobody is blocked, an outcome that wins is one more record. */
  lemma OutcomeEnters(hasher: Hasher, b: Book, h: Hash, x: TaskState, phase: string, kind: PhaseTally)
    requires BlockedSet(b.tasks) == {} && Counts(x, phase, kind) && Wins(hasher, b.tasks, h, x)
    requires kind.CompletedTally? ==> !(h in b.tasks && b.tasks[h].Completed?)
    ensures Enter(hasher, b, Joins(Delivery(h, x)), phase, kind)
         == Book(b.tasks[h := x], b.total + 1, b.records + {(h, Rank(hasher, x))})
  {
    LexOrder.Irreflexive(Rank(hasher, x));
    QuietJoin(hasher, b.tasks, h, x);
    QuietNote(b.tasks, h, x, phase, kind);
    KeyedOne(hasher, b.tasks[h := x], h);
  }

  lemma TwoFailures(hasher: Hasher, h: Hash, f: TaskState, f': TaskState)
    requires Dominates(hasher, f', f) && f.def.phase == f'.def.phase && IsFailure(f) && IsFailure(f')
    ensures Continued(hasher, Book(map[], 0, {}), [Delivery(h, f), Delivery(h, f')], f.def.phase, FailedTally)
         == Book(map[h := f'], 2, {(h, Rank(hasher, f)), (h, Rank(hasher, f'))})
  {
    var (phase, none) := (f.def.phase, Book(map[], 0, {}));
    OutcomeEnters(hasher, none, h, f, phase, FailedTally);
    OutcomeEnters(hasher, Enter(hasher, none, Joins(Delivery(h, f)), phase, FailedTally), h, f', phase, FailedTally);
    ContinuedByTwo(hasher, none, Delivery(h, f), Delivery(h, f'), phase, FailedTally);
    assert map[h := f][h := f'] == map[h := f'];
  }

  lemma OneMoreFailure(hasher: Hasher, b: Book, h: Hash, f: TaskState)
    requires BlockedSet(b.tasks) == {} && h !in b.tasks && IsFailure(f)
    ensures Continued(hasher, b, [Delivery(h, f)], f.def.phase, FailedTally)
         == Book(b.tasks[h := f], b.total + 1, b.records + {(h, Rank(hasher, f))})
  {
    OutcomeEnters(hasher, b, h, f, f.def.phase, FailedTally);
    ContinuedByOne(hasher, b, Delivery(h, f), f.def.phase, FailedTally);
  }

  /** The snapshot of a node that saw two failures of one task, restored by a node that saw
      one of another: three records, and a count of two. */
  lemma RestoreFallsShort(
    hasher: Hasher, h: Hash, f: TaskState, f': TaskState, g: Hash, e: TaskState, snap: Book, own: Book)
    requires g != h && Dominates(hasher, f', f) && f.def.phase == f'.def.phase == e.def.phase
    requires IsFailure(f) && IsFailure(f') && IsFailure(e)
    requires snap == Continued(hasher, Book(map[], 0, {}), [Delivery(h, f), Delivery(h, f')], f.def.phase, FailedTally)
    requires own == Continued(hasher, Book(map[], 0, {}), [Delivery(g, e)], e.def.phase, FailedTally)
    ensures Lists([Delivery(h, f')], snap.tasks)
    ensures var restored := Restored(hasher, own, [Delivery(h, f')], snap, e.def.phase, FailedTally);
            restored.total == 2 && |restored.records| == 3
  {
    TwoFailures(hasher, h, f, f');
    OneFailure(hasher, g, e);
    FallsShort(hasher, h, f, f', g, e);
  }

  lemma FallsShort(hasher: Hasher, h: Hash, f: TaskState, f': TaskState, g: Hash, e: TaskState)
    requires g != h && Dominates(hasher, f', f) && f'.def.phase == e.def.phase && IsFailure(f') && IsFailure(e)
    ensures var snap := Book(map[h := f'], 2, {(h, Rank(hasher, f)), (h, Rank(hasher, f'))});
            var own := Book(map[g := e], 1, {(g, Rank(hasher, e))});
            var restored := Restored(hasher, own, [Delivery(h, f')], snap, e.def.phase, FailedTally);
            Lists([Delivery(h, f')], snap.tasks) && restored.total == 2 && |restored.records| == 3
  {
    var (a, b, c) := ((h, Rank(hasher, f)), (h, Rank(hasher, f')), (g, Rank(hasher, e)));
    LexOrder.Irreflexive(Rank(hasher, f));
    HealedBook(hasher, h, f', g, e, {a, b});
    ThreeRecords(a, b, c);
  }

  lemma OneFailure(hasher: Hasher, g: Hash, e: TaskState)
    requires IsFailure(e)
    ensures Continued(hasher, Book(map[], 0, {}), [Delivery(g, e)], e.def.phase, FailedTally)
         == Book(map[g := e], 1, {(g, Rank(hasher, e))})
  {
    OneMoreFailure(hasher, Book(map[], 0, {}), g, e);
    assert {} + {(g, Rank(hasher, e))} == {(g, Rank(hasher, e))};
  }

  lemma HealedBook(hasher: Hasher, h: Hash, f: TaskState, g: Hash, e: TaskState, records: set<Record>)
    requires g != h && IsFailure(f) && IsFailure(e) && f.def.phase == e.def.phase
    ensures var own := Book(map[g := e], 1, {(g, Rank(hasher, e))});
            var snap := Book(map[h := f], 2, records);
            Restored(hasher, own, [Delivery(h, f)], snap, e.def.phase, FailedTally)
            == Book(map[g := e][h := f], 2, ({(g, Rank(hasher, e))} + {(h, Rank(hasher, f))}) + records)
  {
    OneMoreFailure(hasher, Book(map[g := e], 1, {(g, Rank(hasher, e))}), h, f);
  }

  lemma ThreeRecords(a: Record, b: Record, c: Record)
    requires a != b && b != c && a != c
    ensures |({c} + {b}) + {a, b}| == 3
  {
    assert ({c} + {b}) + {a, b} == {a, b, c};
  }

  lemma ContinuedByTwo(hasher: Hasher, b: Book, d: Delivery, e: Delivery, phase: string, kind: PhaseTally)
    ensures Continued(hasher, b, [d, e], phase, kind)
         == Enter(hasher, Enter(hasher, b, Joins(d), phase, kind), Joins(e), phase, kind)
  {
    assert [d, e][1..] == [e];
    ContinuedByOne(hasher, Enter(hasher, b, Joins(d), phase, kind), e, phase, kind);
  }

  /** Merging the counts before the states counts a restored outcome twice. */
  lemma CountsFirstOvershoot(hasher: Hasher, h: Hash, c: TaskState)
    requires c.Completed?
    ensures var snap := Enter(hasher, Book(map[], 0, {}), Joins(Delivery(h, c)), c.def.phase, CompletedTally);
            var counted := Book(map[], Max(0, snap.total), snap.records);
            var restored := Enter(hasher, counted, Joins(Delivery(h, c)), c.def.phase, CompletedTally);
            restored.total == 2 && |restored.records| == 1
  {
    var records := {(h, Rank(hasher, c))};
    OutcomeEnters(hasher, Book(map[], 0, {}), h, c, c.def.phase, CompletedTally);
    OutcomeEnters(hasher, Book(map[], 1, records), h, c, c.def.phase, CompletedTally);
    assert {} + records == records && records + records == records;
  }
}
