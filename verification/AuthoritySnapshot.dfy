/**
 The off-loop authority snapshot
 (crates/dynrunner-manager-distributed/src/authority_snapshot.rs).

 Readers and cloned publisher handles run concurrently.  Every load, store and
 swap of the shared cell, of the latch and of the clock is one atomic action,
 and a run is any interleaving of actions.
 */
module AuthoritySnapshot {
  import opened Wrappers

  type Instant = int
  type Duration = nat

  datatype PeerLifeState = Alive | Gone | Unknown

  datatype Snapshot = Snapshot(peers: map<string, PeerLifeState>, pendingResources: nat, lastUpdated: Instant)

  predicate Stale(snap: Snapshot, now: Instant, bound: Duration) {
    now - snap.lastUpdated > bound
  }

  // The answers a read derives from the snapshot its second load returned;
  // `None` is the fail-closed path of a stale first load.

  function PeerLife(source: Option<Snapshot>, id: string): PeerLifeState {
    if source.Some? && id in source.value.peers then source.value.peers[id] else Unknown
  }

  function ActiveOrQueuedCount(source: Option<Snapshot>): Option<nat> {
    if source.None? then None
    else Some(|set id | id in source.value.peers && source.value.peers[id] == Alive|)
  }

  function PendingResourcesCount(source: Option<Snapshot>): Option<nat> {
    if source.None? then None else Some(source.value.pendingResources)
  }

  // ---------------------------------------------------------------------
  // The interleaving machine
  // ---------------------------------------------------------------------

  /** A read: take the clock, load for the staleness check, load for the answer. */
  datatype Reader =
    | Resting
    | Started(start: Instant)
    | Fresh(start: Instant)
    | Answered(start: Instant, source: Option<Snapshot>)

  /** A publish: stamp, store, peek at the latch, swap it, emit. */
  datatype Publisher =
    | Waiting
    | Stamped(snap: Snapshot)
    | Installed(pending: nat)
    | SawUnset
    | WonLatch

  datatype World = World(
    clock: Instant, bound: Duration, current: Snapshot, latch: bool, emitted: nat,
    readers: map<nat, Reader>, publishers: map<nat, Publisher>,
    configured: set<nat>, winner: Option<nat>, reported: bool)

  datatype Action =
    | Tick(elapsed: nat)
    | ReadClock(r: nat)
    | CheckStale(r: nat)
    | LoadAnswer(r: nat)
    | Stamp(p: nat, peers: map<string, PeerLifeState>, pending: nat)
    | Install(p: nat)
    | Peek(p: nat, seen: bool)
    | Swap(p: nat)
    | Emit(p: nat)

  function ReaderAt(w: World, r: nat): Reader {
    if r in w.readers then w.readers[r] else Resting
  }

  function PublisherAt(w: World, p: nat): Publisher {
    if p in w.publishers then w.publishers[p] else Waiting
  }

  /** The atomic actions; `None` when the action is not the thread's next one.  A
      relaxed peek at the latch may miss a recent swap, never invent one. */
  function Act(w: World, a: Action): Option<World> {
    match a
    case Tick(elapsed) => Some(w.(clock := w.clock + elapsed))
    case ReadClock(r) =>
      if ReaderAt(w, r).Resting? || ReaderAt(w, r).Answered?
      then Some(w.(readers := w.readers[r := Started(w.clock)])) else None
    case CheckStale(r) =>
      (match ReaderAt(w, r)
       case Started(start) =>
         var next := if Stale(w.current, start, w.bound) then Answered(start, None) else Fresh(start);
         Some(w.(readers := w.readers[r := next]))
       case _ => None)
    case LoadAnswer(r) =>
      (match ReaderAt(w, r)
       case Fresh(start) => Some(w.(readers := w.readers[r := Answered(start, Some(w.current))]))
       case _ => None)
    case Stamp(p, peers, pending) =>
      if PublisherAt(w, p).Waiting?
      then Some(w.(publishers := w.publishers[p := Stamped(Snapshot(peers, pending, w.clock))])) else None
    case Install(p) =>
      (match PublisherAt(w, p)
       case Stamped(snap) =>
         Some(w.(current := snap, publishers := w.publishers[p := Installed(snap.pendingResources)]))
       case _ => None)
    case Peek(p, seen) =>
      (match PublisherAt(w, p)
       case Installed(pending) =>
         if pending == 0 then Some(w.(publishers := w.publishers[p := Waiting]))
         else if seen && !w.latch then None
         else Some(w.(publishers := w.publishers[p := if seen then Waiting else SawUnset], reported := true))
       case _ => None)
    case Swap(p) =>
      if !PublisherAt(w, p).SawUnset? then None
      else if w.latch then Some(w.(publishers := w.publishers[p := Waiting]))
      else Some(w.(latch := true, winner := Some(p), publishers := w.publishers[p := WonLatch]))
    case Emit(p) =>
      if PublisherAt(w, p).WonLatch?
      then Some(w.(publishers := w.publishers[p := Waiting], emitted := w.emitted + if p in w.configured then 1 else 0))
      else None
  }

  /** Running actions in order; actions that are not enabled are impossible. */
  function Run(w: World, actions: seq<Action>): Option<World>
    decreases |actions|
  {
    if actions == [] then Some(w)
    else match Act(w, actions[0])
      case None => None
      case Some(w') => Run(w', actions[1..])
  }

  predicate Initial(w: World) {
    && w.current == Snapshot(map[], 0, w.clock)
    && !w.latch && w.emitted == 0 && w.readers == map[] && w.publishers == map[] && w.winner == None && !w.reported
  }

  // ---------------------------------------------------------------------
  // Freshness of what a read returns
  // ---------------------------------------------------------------------

  /** Only handle `u` ever publishes. */
  predicate OneUpdater(actions: seq<Action>, u: nat) {
    forall i :: 0 <= i < |actions| && actions[i].Stamp? ==> actions[i].p == u
  }

  /** What holds after every action of a run with one updater. */
  ghost predicate Monotone(w: World, u: nat) {
    StampsOrdered(w, u) && ReadersSound(w)
  }

  ghost predicate StampsOrdered(w: World, u: nat) {
    && w.current.lastUpdated <= w.clock
    && (forall p :: p in w.publishers && w.publishers[p].Stamped? ==>
          p == u && w.current.lastUpdated <= w.publishers[p].snap.lastUpdated <= w.clock)
  }

  ghost predicate ReadersSound(w: World) {
    forall r :: r in w.readers ==> ReaderSound(w.current, w.bound, w.readers[r])
  }

  predicate ReaderSound(current: Snapshot, bound: Duration, r: Reader) {
    match r
    case Fresh(start) => !Stale(current, start, bound)
    case Answered(start, Some(snap)) => !Stale(snap, start, bound)
    case _ => true
  }

  lemma StampsStep(w: World, a: Action, u: nat)
    requires StampsOrdered(w, u) && Act(w, a).Some? && (a.Stamp? ==> a.p == u)
    ensures StampsOrdered(Act(w, a).value, u)
    ensures w.current.lastUpdated <= Act(w, a).value.current.lastUpdated
  {
  }

  lemma ReadersStep(w: World, a: Action)
    requires ReadersSound(w) && Act(w, a).Some?
    requires w.current.lastUpdated <= Act(w, a).value.current.lastUpdated
    ensures ReadersSound(Act(w, a).value)
  {
  }

  lemma MonotoneStep(w: World, a: Action, u: nat)
    requires Monotone(w, u) && Act(w, a).Some? && (a.Stamp? ==> a.p == u)
    ensures Monotone(Act(w, a).value, u) && w.current.lastUpdated <= Act(w, a).value.current.lastUpdated
  {
    StampsStep(w, a, u);
    ReadersStep(w, a);
  }

  /** With one updater the installed timestamp never goes back. */
  lemma {:induction false} MonotoneRun(w: World, actions: seq<Action>, u: nat)
    requires Monotone(w, u) && OneUpdater(actions, u) && Run(w, actions).Some?
    ensures Monotone(Run(w, actions).value, u)
    ensures w.current.lastUpdated <= Run(w, actions).value.current.lastUpdated
    decreases |actions|
  {
    if actions != [] {
      MonotoneStep(w, actions[0], u);
      MonotoneRun(Act(w, actions[0]).value, actions[1..], u);
    }
  }

  /** With one updater, no read ever answers from a snapshot that was already
      stale when the read began, although it loads the cell twice. */
  lemma ReadsAreFresh(w: World, actions: seq<Action>, u: nat, r: nat)
    requires Initial(w) && OneUpdater(actions, u) && Run(w, actions).Some?
    requires var reader := ReaderAt(Run(w, actions).value, r); reader.Answered? && reader.source.Some?
    ensures var reader := ReaderAt(Run(w, actions).value, r); !Stale(reader.source.value, reader.start, w.bound)
  {
    MonotoneRun(w, actions, u);
    BoundIsFixed(w, actions);
  }

  /** So every definite answer, a known life or a count, rests on a snapshot that was
      fresh when the read began; anything else is the fail-closed answer. */
  lemma DefiniteAnswersAreFresh(w: World, actions: seq<Action>, u: nat, r: nat, id: string)
    requires Initial(w) && OneUpdater(actions, u) && Run(w, actions).Some?
    requires ReaderAt(Run(w, actions).value, r).Answered?
    ensures var reader := ReaderAt(Run(w, actions).value, r);
            (PeerLife(reader.source, id) != Unknown || ActiveOrQueuedCount(reader.source).Some?
             || PendingResourcesCount(reader.source).Some?) ==>
              reader.source.Some? && !Stale(reader.source.value, reader.start, w.bound)
  {
    if ReaderAt(Run(w, actions).value, r).source.Some? {
      ReadsAreFresh(w, actions, u, r);
    }
  }

  lemma {:induction false} BoundIsFixed(w: World, actions: seq<Action>)
    requires Run(w, actions).Some?
    ensures Run(w, actions).value.bound == w.bound && Run(w, actions).value.configured == w.configured
    decreases |actions|
  {
    if actions != [] { BoundIsFixed(Act(w, actions[0]).value, actions[1..]); }
  }

  /** Only these handles publish. */
  predicate Updaters(actions: seq<Action>, updaters: set<nat>) {
    forall i :: 0 <= i < |actions| && actions[i].Stamp? ==> actions[i].p in updaters
  }

  /** Reader `r`, if it has answered from a snapshot, answered from a fresh one. */
  predicate AnswersFresh(w: World, actions: seq<Action>, r: nat) {
    Run(w, actions).Some? ==>
      var reader := ReaderAt(Run(w, actions).value, r);
      reader.Answered? && reader.source.Some? ==> !Stale(reader.source.value, reader.start, w.bound)
  }

  /** Every read of every run is fresh exactly when at most one handle publishes. */
  lemma FreshExactlyWithOneUpdater(w: World, updaters: set<nat>)
    requires Initial(w)
    ensures (forall actions, r :: Updaters(actions, updaters) ==> AnswersFresh(w, actions, r)) <==>
            (forall u, v :: u in updaters && v in updaters ==> u == v)
  {
    if forall u, v :: u in updaters && v in updaters ==> u == v {
      var u := if updaters == {} then 0 else var x :| x in updaters; x;
      forall actions, r | Updaters(actions, updaters) ensures AnswersFresh(w, actions, r) {
        assert OneUpdater(actions, u);
        if Run(w, actions).Some? && ReaderAt(Run(w, actions).value, r).Answered?
           && ReaderAt(Run(w, actions).value, r).source.Some? {
          ReadsAreFresh(w, actions, u, r);
        }
      }
    } else {
      var u, v :| u in updaters && v in updaters && u != v;
      var actions := TwoUpdatersCanServeStale(w, u, v);
      assert Updaters(actions, updaters);
    }
  }

  /** A second updater breaks it: a delayed store can put an older snapshot back between
      a read's two loads. */
  lemma TwoUpdatersCanServeStale(w: World, u: nat, v: nat) returns (actions: seq<Action>)
    requires Initial(w) && u != v
    ensures !AnswersFresh(w, actions, 0) && Updaters(actions, {u, v})
  {
    var w1 := OlderStampPending(w, u, v);
    var w2 := OlderStoreIntervenes(w1, u);
    var setup := [Stamp(u, map["s" := Alive], 0), Tick(w.bound + 1), Stamp(v, map[], 0), Install(v)];
    var read := [ReadClock(0), CheckStale(0), Install(u), LoadAnswer(0)];
    RunConcat(w, setup, read);
    actions := setup + read;
  }

  /** Handle `u` has stamped and stalled; handle `v` has stamped later and stored. */
  lemma OlderStampPending(w: World, u: nat, v: nat) returns (w4: World)
    requires Initial(w) && u != v
    ensures Run(w, [Stamp(u, map["s" := Alive], 0), Tick(w.bound + 1), Stamp(v, map[], 0), Install(v)]) == Some(w4)
    ensures w4.bound == w.bound && w4.readers == map[] && w4.current == Snapshot(map[], 0, w4.clock)
    ensures u in w4.publishers
         && w4.publishers[u] == Stamped(Snapshot(map["s" := Alive], 0, w4.clock - w4.bound - 1))
  {
    var actions := [Stamp(u, map["s" := Alive], 0), Tick(w.bound + 1), Stamp(v, map[], 0), Install(v)];
    var w1 := Act(w, actions[0]).value;
    var w2 := Act(w1, actions[1]).value;
    var w3 := Act(w2, actions[2]).value;
    w4 := Act(w3, actions[3]).value;
    RunAll(actions, [w, w1, w2, w3, w4]);
  }

  /** A read that starts now checks the fresh snapshot and answers from the older one. */
  lemma OlderStoreIntervenes(w: World, u: nat) returns (w4: World)
    requires w.readers == map[] && w.current == Snapshot(map[], 0, w.clock)
    requires u in w.publishers
          && w.publishers[u] == Stamped(Snapshot(map["s" := Alive], 0, w.clock - w.bound - 1))
    ensures Run(w, [ReadClock(0), CheckStale(0), Install(u), LoadAnswer(0)]) == Some(w4)
    ensures ReaderAt(w4, 0) == Answered(w.clock, Some(Snapshot(map["s" := Alive], 0, w.clock - w.bound - 1)))
  {
    var actions := [ReadClock(0), CheckStale(0), Install(u), LoadAnswer(0)];
    var w1 := Act(w, actions[0]).value;
    var w2 := Act(w1, actions[1]).value;
    var w3 := Act(w2, actions[2]).value;
    w4 := Act(w3, actions[3]).value;
    RunAll(actions, [w, w1, w2, w3, w4]);
  }

  lemma {:induction false} RunConcat(w: World, a: seq<Action>, b: seq<Action>)
    requires Run(w, a).Some?
    ensures Run(w, a + b) == Run(Run(w, a).value, b)
    decreases |a|
  {
    if a == [] {
      assert a + b == b;
    } else {
      assert (a + b)[1..] == a[1..] + b;
      RunConcat(Act(w, a[0]).value, a[1..], b);
    }
  }

  /** Chaining a run through its intermediate worlds. */
  lemma {:induction false} RunAll(actions: seq<Action>, worlds: seq<World>)
    requires |worlds| == |actions| + 1
    requires forall i :: 0 <= i < |actions| ==> Act(worlds[i], actions[i]) == Some(worlds[i + 1])
    ensures Run(worlds[0], actions) == Some(worlds[|actions|])
  {
    if actions != [] {
      RunAll(actions[1..], worlds[1..]);
    }
  }

  // ---------------------------------------------------------------------
  // The emit-once latch
  // ---------------------------------------------------------------------

  /** What holds after every action, with any number of publishers. */
  ghost predicate Latched(w: World) {
    && (w.latch <==> w.winner.Some?)
    && (forall p :: p in w.publishers && w.publishers[p].WonLatch? ==> w.winner == Some(p))
    && (w.reported ==> w.latch || Undecided(w))
    && w.emitted == (if w.winner.Some? && w.winner.value in w.configured && !PublisherAt(w, w.winner.value).WonLatch?
                     then 1 else 0)
  }

  /** Some publisher has seen the latch unset and is about to swap it. */
  ghost predicate Undecided(w: World) {
    exists p :: p in w.publishers && w.publishers[p].SawUnset?
  }

  lemma LatchedStep(w: World, a: Action)
    requires Latched(w) && Act(w, a).Some?
    ensures Latched(Act(w, a).value)
  {
    var w' := Act(w, a).value;
    if w'.reported && !w'.latch {
      if a.Peek? && PublisherAt(w, a.p).Installed? && PublisherAt(w, a.p).pending > 0 {
        assert w'.publishers[a.p].SawUnset?;
      } else {
        var p :| p in w.publishers && w.publishers[p].SawUnset?;
        assert p in w'.publishers && w'.publishers[p].SawUnset?;
      }
    }
  }

  lemma {:induction false} LatchedRun(w: World, actions: seq<Action>)
    requires Latched(w) && Run(w, actions).Some?
    ensures Latched(Run(w, actions).value)
    decreases |actions|
  {
    if actions != [] {
      LatchedStep(w, actions[0]);
      LatchedRun(Act(w, actions[0]).value, actions[1..]);
    }
  }

  /** No publisher is in the middle of a publish. */
  ghost predicate Quiet(w: World) {
    forall p :: p in w.publishers ==> w.publishers[p].Waiting?
  }

  /** Over every interleaving of cloned handles the line is emitted at most once.
      Once all is quiet it has been emitted exactly when some publish reported
      pending jobs and the handle that won the latch carries an emit
      configuration: an unconfigured clone can swallow it. */
  lemma EmittedAtMostOnce(w: World, actions: seq<Action>)
    requires Initial(w) && Run(w, actions).Some?
    ensures var f := Run(w, actions).value;
            && f.emitted <= 1
            && (Quiet(f) ==>
                  (f.reported <==> f.winner.Some?) &&
                  (f.emitted == 1 <==> f.reported && f.winner.value in w.configured))
  {
    LatchedRun(w, actions);
    BoundIsFixed(w, actions);
    WinnersReported(w, actions);
  }

  ghost predicate WinnerReported(w: World) {
    && (w.winner.Some? ==> w.reported)
    && (forall p :: p in w.publishers && w.publishers[p].SawUnset? ==> w.reported)
  }

  lemma {:induction false} WinnersReported(w: World, actions: seq<Action>)
    requires WinnerReported(w) && Run(w, actions).Some?
    ensures WinnerReported(Run(w, actions).value)
    decreases |actions|
  {
    if actions != [] {
      assert WinnerReported(Act(w, actions[0]).value);
      WinnersReported(Act(w, actions[0]).value, actions[1..]);
    }
  }
}
