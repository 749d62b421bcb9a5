/**
 The per-task convergence order and the side-effect-bearing join
 (crates/dynrunner-manager-distributed/src/cluster_state/merge.rs).

 A node's ledger maps task hashes to states.  Every replicated observation goes
 through one join; a completion resumes the tasks blocked on it, and a failure
 that can never produce output cascades through the tasks blocked on it.  The
 primary's own decisions (apply.rs, apply_tasks.rs) rewrite a slot without joining.
 */
module TaskJoin {
  import opened Wrappers
  import LexOrder

  type Hash = string

  datatype TaskVersion = TaskVersion(primaryEpoch: nat, seqNo: nat)

  const ZERO_VERSION := TaskVersion(0, 0)

  predicate VersionLess(a: TaskVersion, b: TaskVersion) {
    LexOrder.Less([a.primaryEpoch, a.seqNo], [b.primaryEpoch, b.seqNo])
  }

  datatype ErrorKind = NonRecoverable | OtherKind(wire: string)

  /** The frozen definition and routing; only the phase is consulted here. */
  datatype TaskDef = TaskDef(phase: string, body: string)

  datatype TaskState =
    | Pending(def: TaskDef, version: TaskVersion, attempt: nat)
    | InFlight(def: TaskDef, secondary: string, worker: nat, version: TaskVersion, attempt: nat)
    | Blocked(def: TaskDef, on: Hash, attempt: nat)
    | Completed(def: TaskDef, attempt: nat)
    | Failed(def: TaskDef, kind: ErrorKind, lastError: string, version: TaskVersion, attempt: nat)
    | Unfulfillable(def: TaskDef, reason: string, lastError: string, version: TaskVersion, attempt: nat)
    | InvalidTask(def: TaskDef, reason: string, lastError: string, version: TaskVersion, attempt: nat)
    | SkippedAlreadyDone(def: TaskDef, attempt: nat)
    | SetupCompleted(def: TaskDef, attempt: nat)

  // ---------------------------------------------------------------------
  // The join key
  // ---------------------------------------------------------------------

  /** What a terminal state's content hash is taken over. */
  datatype Payload =
    | CompletedPayload
    | FailedPayload(kind: ErrorKind, lastError: string)
    | UnfulfillablePayload(reason: string, lastError: string)
    | InvalidPayload(reason: string, lastError: string)
    | SkippedPayload
    | SetupPayload

  type Hasher = Payload -> nat

  datatype JoinKey = JoinKey(
    attempt: nat, band: nat, terminalRank: nat, version: TaskVersion, nonterminalRank: nat,
    failedlike: nat, payloadHash: nat)
  {
    /** The fields in declaration order, as the derived comparison reads them. */
    function Fields(): seq<nat> {
      [attempt, band, terminalRank, version.primaryEpoch, version.seqNo, nonterminalRank, failedlike, payloadHash]
    }
  }

  const NON_TERMINAL := 0
  const BLOCKED := 1
  const TERMINAL := 2

  const RANK_SKIPPED := 0
  const RANK_SETUP := 1
  const RANK_FAILED_LIKE := 2
  const RANK_COMPLETED := 3
  const RANK_INVALID := 4

  function KeyOf(hasher: Hasher, s: TaskState): JoinKey {
    match s
    case Pending(_, version, attempt) => JoinKey(attempt, NON_TERMINAL, RANK_FAILED_LIKE, version, 0, 0, 0)
    case InFlight(_, _, _, version, attempt) => JoinKey(attempt, NON_TERMINAL, RANK_FAILED_LIKE, version, 1, 0, 0)
    case Blocked(_, _, attempt) => JoinKey(attempt, BLOCKED, RANK_FAILED_LIKE, ZERO_VERSION, 0, 0, 0)
    case Completed(_, attempt) =>
      JoinKey(attempt, TERMINAL, RANK_COMPLETED, ZERO_VERSION, 0, 0, hasher(CompletedPayload))
    case Failed(_, kind, lastError, version, attempt) =>
      JoinKey(attempt, TERMINAL, RANK_FAILED_LIKE, version, 0, 0, hasher(FailedPayload(kind, lastError)))
    case Unfulfillable(_, reason, lastError, version, attempt) =>
      JoinKey(attempt, TERMINAL, RANK_FAILED_LIKE, version, 0, 1, hasher(UnfulfillablePayload(reason, lastError)))
    case InvalidTask(_, reason, lastError, version, attempt) =>
      JoinKey(attempt, TERMINAL, RANK_INVALID, version, 0, 0, hasher(InvalidPayload(reason, lastError)))
    case SkippedAlreadyDone(_, attempt) =>
      JoinKey(attempt, TERMINAL, RANK_SKIPPED, ZERO_VERSION, 0, 0, hasher(SkippedPayload))
    case SetupCompleted(_, attempt) =>
      JoinKey(attempt, TERMINAL, RANK_SETUP, ZERO_VERSION, 0, 0, hasher(SetupPayload))
  }

  function Rank(hasher: Hasher, s: TaskState): seq<nat> {
    KeyOf(hasher, s).Fields()
  }

  predicate Dominates(hasher: Hasher, incoming: TaskState, local: TaskState) {
    LexOrder.Less(Rank(hasher, local), Rank(hasher, incoming))
  }

  // ---------------------------------------------------------------------
  // The ledger
  // ---------------------------------------------------------------------

  type Ledger = map<Hash, TaskState>

  datatype PhaseTally = CompletedTally | FailedTally

  predicate IsFailure(s: TaskState) {
    s.Failed? || s.Unfulfillable? || s.InvalidTask?
  }

  /** A terminal whose output can never appear, so its dependents can never run. */
  predicate NeverProduces(s: TaskState) {
    (s.Failed? && s.kind == NonRecoverable) || s.InvalidTask?
  }

  predicate BlockedOn(tasks: Ledger, x: Hash, h: Hash) {
    x in tasks && tasks[x].Blocked? && tasks[x].on == h
  }

  function BlockedSet(tasks: Ledger): set<Hash> {
    set x | x in tasks && tasks[x].Blocked?
  }

  function Dependents(tasks: Ledger, h: Hash): set<Hash> {
    set x | x in tasks && BlockedOn(tasks, x, h)
  }

  function Resumed(s: TaskState): TaskState {
    Pending(s.def, ZERO_VERSION, s.attempt)
  }

  function UpstreamFailed(s: TaskState): TaskState {
    Failed(s.def, NonRecoverable, "upstream-failed", ZERO_VERSION, s.attempt)
  }

  /** `p` follows blocked-on links from `x` until it first meets `h`. */
  ghost predicate Chain(tasks: Ledger, p: seq<Hash>, x: Hash, h: Hash) {
    && |p| >= 2 && p[0] == x && p[|p| - 1] == h
    && forall i :: 0 <= i < |p| - 1 ==> p[i] != h && BlockedOn(tasks, p[i], p[i + 1])
  }

  /** `x` waits, directly or through other blocked tasks, on `h`. */
  ghost predicate Awaits(tasks: Ledger, x: Hash, h: Hash) {
    exists p :: Chain(tasks, p, x, h)
  }

  /** The tasks other than `h` whose state differs. */
  function Struck(before: Ledger, after: Ledger, h: Hash): set<Hash> {
    set x | x in before && x in after && x != h && after[x] != before[x]
  }

  function InPhase(tasks: Ledger, s: set<Hash>, phase: string): set<Hash> {
    set x | x in s && x in tasks && tasks[x].def.phase == phase
  }

  lemma UpstreamFailureWins(hasher: Hasher, s: TaskState)
    requires s.Blocked?
    ensures Dominates(hasher, UpstreamFailed(s), s)
    ensures !Dominates(hasher, UpstreamFailed(s), UpstreamFailed(s))
  {
    var lo, hi := Rank(hasher, s), Rank(hasher, UpstreamFailed(s));
    assert lo[0] == hi[0] && lo[1..][0] < hi[1..][0];
    LexOrder.Irreflexive(hi);
  }

  /** What a cascade from `h` may have done so far: some blocked tasks waiting on
      `h` have failed upstream, nothing is left waiting on a task it failed, and
      everything else is untouched. */
  ghost predicate Cascading(before: Ledger, after: Ledger, h: Hash) {
    && after.Keys == before.Keys
    && h in before && after[h] == before[h]
    && (forall x :: x in before ==>
          || after[x] == before[x]
          || (before[x].Blocked? && Awaits(before, x, h) && after[x] == UpstreamFailed(before[x])))
    && (forall x, y :: x in Struck(before, after, h) ==> !BlockedOn(after, y, x))
  }

  ghost predicate NobodyWaits(tasks: Ledger, h: Hash) {
    forall y :: !BlockedOn(tasks, y, h)
  }

  predicate NewlyCompleted(before: Ledger, h: Hash, incoming: TaskState) {
    incoming.Completed? && !(h in before && before[h].Completed?)
  }

  /** The whole effect of a winning join on the ledger. */
  ghost predicate Merged(before: Ledger, after: Ledger, h: Hash, incoming: TaskState) {
    && after.Keys == before.Keys + {h}
    && after[h] == incoming
    && forall x :: x in before && x != h ==>
         after[x] ==
           if NewlyCompleted(before, h, incoming) && BlockedOn(before, x, h) then Resumed(before[x])
           else if NeverProduces(incoming) && Awaits(before, x, h) then UpstreamFailed(before[x])
           else before[x]
  }

  /** Whether an observation replaces what the slot holds. */
  predicate Wins(hasher: Hasher, before: Ledger, h: Hash, incoming: TaskState) {
    h in before ==> Dominates(hasher, incoming, before[h])
  }

  /** A join, won or lost. */
  ghost predicate Joined(hasher: Hasher, before: Ledger, after: Ledger, h: Hash, incoming: TaskState) {
    if Wins(hasher, before, h, incoming) then Merged(before, after, h, incoming) else after == before
  }

  // ---------------------------------------------------------------------
  // The authoritative rewrites, which bypass the join
  // ---------------------------------------------------------------------

  /** What the primary decides about a task, applied wherever it arrives: creation with
      its dependencies' slots, reinjection, requeue, retry, cascade pause, discovery
      skip, and the success of a setup task. */
  datatype Rewrite =
    | Create(h: Hash, def: TaskDef, deps: seq<Hash>)
    | Reinject(h: Hash, version: TaskVersion)
    | Requeue(h: Hash, version: TaskVersion)
    | Retry(h: Hash, attempt: nat, version: TaskVersion)
    | Block(h: Hash, on: Hash)
    | Skip(h: Hash)
    | SetupDone(h: Hash)

  /** A dependency that a spawned task has to wait for; an unknown one counts as met. */
  predicate Unresolved(s: TaskState) {
    s.Pending? || s.InFlight? || s.Blocked? || (s.Failed? && s.kind != NonRecoverable)
  }

  /** The first of `deps` whose state is unfulfillable, or is unresolved. */
  function FirstDep(tasks: Ledger, deps: seq<Hash>, unfulfillable: bool): Option<Hash> {
    if deps == [] then None
    else if deps[0] in tasks && (if unfulfillable then tasks[deps[0]].Unfulfillable? else Unresolved(tasks[deps[0]]))
    then Some(deps[0])
    else FirstDep(tasks, deps[1..], unfulfillable)
  }

  predicate SomeDepIsDead(tasks: Ledger, deps: seq<Hash>) {
    exists d :: d in deps && d in tasks && NeverProduces(tasks[d])
  }

  /** How a task enters the ledger: failed under a dead dependency, else blocked on the
      first unfulfillable or else unresolved one, else pending. */
  function Entry(tasks: Ledger, def: TaskDef, deps: seq<Hash>): TaskState {
    if SomeDepIsDead(tasks, deps) then Failed(def, NonRecoverable, "upstream-failed", ZERO_VERSION, 0)
    else if FirstDep(tasks, deps, true).Some? then Blocked(def, FirstDep(tasks, deps, true).value, 0)
    else if FirstDep(tasks, deps, false).Some? then Blocked(def, FirstDep(tasks, deps, false).value, 0)
    else Pending(def, ZERO_VERSION, 0)
  }

  /** The states a rewrite acts on; in any other slot it does nothing. */
  predicate Applies(tasks: Ledger, r: Rewrite) {
    match r
    case Create(h, _, _) => h !in tasks
    case Reinject(h, _) => h in tasks && tasks[h].Unfulfillable?
    case Requeue(h, _) => h in tasks && tasks[h].InFlight?
    case Retry(h, _, _) => h in tasks && tasks[h].Failed?
    case Block(h, _) => h in tasks && tasks[h].Pending?
    case Skip(h) => h in tasks && tasks[h].Pending?
    case SetupDone(h) => h in tasks && (tasks[h].Pending? || tasks[h].InFlight?)
  }

  /** What it writes there. */
  function Written(tasks: Ledger, r: Rewrite): TaskState
    requires Applies(tasks, r)
  {
    match r
    case Create(_, def, deps) => Entry(tasks, def, deps)
    case Reinject(h, version) => Pending(tasks[h].def, version, tasks[h].attempt)
    case Requeue(h, version) => Pending(tasks[h].def, version, tasks[h].attempt)
    case Retry(h, attempt, version) => Pending(tasks[h].def, version, attempt)
    case Block(h, on) => Blocked(tasks[h].def, on, tasks[h].attempt)
    case Skip(h) => SkippedAlreadyDone(tasks[h].def, tasks[h].attempt)
    case SetupDone(h) => SetupCompleted(tasks[h].def, tasks[h].attempt)
  }

  /** The ledger afterwards: a setup success also resumes those blocked on it. */
  function Rewritten(tasks: Ledger, r: Rewrite): Ledger {
    if !Applies(tasks, r) then tasks
    else
      map x | x in tasks.Keys + {r.h} ::
        if x == r.h then Written(tasks, r)
        else if r.SetupDone? && BlockedOn(tasks, x, r.h) then Resumed(tasks[x])
        else tasks[x]
  }

  // ---------------------------------------------------------------------
  // The cascade is a flood fill
  // ---------------------------------------------------------------------

  /** A completed cascade has failed every task on a chain to `h`. */
  lemma {:induction false} ChainFails(before: Ledger, after: Ledger, h: Hash, p: seq<Hash>, x: Hash)
    requires Cascading(before, after, h) && NobodyWaits(after, h) && Chain(before, p, x, h)
    ensures x in Struck(before, after, h) && after[x] == UpstreamFailed(before[x])
    decreases |p|
  {
    assert BlockedOn(before, p[0], p[1]);
    if |p| == 2 {
      assert !BlockedOn(after, x, h);
    } else {
      assert Chain(before, p[1..], p[1], h);
      ChainFails(before, after, h, p[1..], p[1]);
      assert !BlockedOn(after, x, p[1]);
    }
  }

  /** Writing a state into the slot of `h` changes no chain to `h`. */
  lemma ChainsIgnoreTarget(before: Ledger, h: Hash, s: TaskState, x: Hash)
    ensures Awaits(before[h := s], x, h) <==> Awaits(before, x, h)
  {
    if Awaits(before, x, h) {
      var p :| Chain(before, p, x, h);
      assert Chain(before[h := s], p, x, h);
    }
    if Awaits(before[h := s], x, h) {
      var p :| Chain(before[h := s], p, x, h);
      assert Chain(before, p, x, h);
    }
  }

  lemma CascadeMerges(before: Ledger, after: Ledger, h: Hash, incoming: TaskState)
    requires NeverProduces(incoming)
    requires Cascading(before[h := incoming], after, h) && NobodyWaits(after, h)
    ensures Merged(before, after, h, incoming)
  {
    var mid := before[h := incoming];
    forall x | x in before && x != h
      ensures after[x] == if Awaits(before, x, h) then UpstreamFailed(before[x]) else before[x]
    {
      ChainsIgnoreTarget(before, h, incoming, x);
      if Awaits(mid, x, h) {
        var p :| Chain(mid, p, x, h);
        ChainFails(mid, after, h, p, x);
      }
    }
  }

  lemma OnlyBlockedAwaits(tasks: Ledger, x: Hash, h: Hash)
    requires Awaits(tasks, x, h)
    ensures x in tasks && tasks[x].Blocked?
  {
    var p :| Chain(tasks, p, x, h);
    assert BlockedOn(tasks, p[0], p[1]);
  }

  /** Failing one dependent `d` of `h`, with its own cascade, continues the cascade from `h`. */
  lemma CascadeContinues(before: Ledger, mid: Ledger, after: Ledger, h: Hash, d: Hash)
    requires Cascading(before, mid, h) && !before[h].Blocked?
    requires BlockedOn(before, d, h) && BlockedOn(mid, d, h)
    requires Merged(mid, after, d, UpstreamFailed(before[d]))
    ensures Cascading(before, after, h)
    ensures Struck(before, after, h) == Struck(before, mid, h) + ({d} + Struck(mid, after, d))
    ensures d !in Struck(before, mid, h) && Struck(before, mid, h) !! Struck(mid, after, d)
    ensures forall y :: BlockedOn(after, y, h) ==> y != d && BlockedOn(mid, y, h)
  {
    assert Chain(before, [d, h], d, h);
    if Awaits(mid, h, d) { OnlyBlockedAwaits(mid, h, d); }
    forall x | x in before && x != d && Awaits(mid, x, d)
      ensures before[x] == mid[x] && before[x].Blocked? && Awaits(before, x, h)
    {
      var p :| Chain(mid, p, x, d);
      assert BlockedOn(mid, p[0], p[1]);
      ChainBeyond(before, mid, h, d, p, x);
    }
    forall x, y | x in Struck(before, after, h) ensures !BlockedOn(after, y, x) {
      if BlockedOn(after, y, x) {
        assert BlockedOn(mid, y, x) && y != d;
        if x == d {
          assert Chain(mid, [y, d], y, d);
        } else if x !in Struck(before, mid, h) {
          var p :| Chain(mid, p, x, d);
          assert Chain(mid, [y] + p, y, d);
        }
      }
    }
  }

  /** A chain to `d` among untouched tasks extends to a chain to `h`. */
  lemma ChainBeyond(before: Ledger, mid: Ledger, h: Hash, d: Hash, p: seq<Hash>, x: Hash)
    requires Cascading(before, mid, h) && !before[h].Blocked?
    requires BlockedOn(before, d, h) && d != h && Chain(mid, p, x, d)
    ensures Awaits(before, x, h)
  {
    var q := p + [h];
    forall i | 0 <= i < |q| - 1 ensures q[i] != h && BlockedOn(before, q[i], q[i + 1]) {
      if i < |p| - 1 { assert BlockedOn(mid, p[i], p[i + 1]); }
    }
    assert Chain(before, q, x, h);
  }

  // ---------------------------------------------------------------------
  // The replicated state
  // ---------------------------------------------------------------------

  lemma PhaseCountSplits(tasks: Ledger, a: set<Hash>, b: set<Hash>, phase: string)
    requires a !! b
    ensures |InPhase(tasks, a + b, phase)| == |InPhase(tasks, a, phase)| + |InPhase(tasks, b, phase)|
  {
    assert InPhase(tasks, a + b, phase) == InPhase(tasks, a, phase) + InPhase(tasks, b, phase);
  }

  lemma StruckCounts(before: Ledger, mid: Ledger, after: Ledger, h: Hash, d: Hash, phase: string)
    requires Cascading(before, mid, h) && d in before && before[d] == mid[d]
    requires Struck(before, after, h) == Struck(before, mid, h) + ({d} + Struck(mid, after, d))
    requires d !in Struck(before, mid, h) && Struck(before, mid, h) !! Struck(mid, after, d)
    ensures |InPhase(before, Struck(before, after, h), phase)|
         == |InPhase(before, Struck(before, mid, h), phase)| + (if before[d].def.phase == phase then 1 else 0)
            + |InPhase(mid, Struck(mid, after, d), phase)|
  {
    var newly := Struck(mid, after, d);
    PhaseCountSplits(before, Struck(before, mid, h), {d} + newly, phase);
    PhaseCountSplits(before, {d}, newly, phase);
    assert InPhase(before, {d}, phase) == if before[d].def.phase == phase then {d} else {};
    assert InPhase(before, newly, phase) == InPhase(mid, newly, phase);
  }

  lemma StruckIgnoresTarget(before: Ledger, after: Ledger, h: Hash, incoming: TaskState)
    ensures Struck(before[h := incoming], after, h) == Struck(before, after, h)
    ensures forall phase ::
      InPhase(before[h := incoming], Struck(before, after, h), phase) == InPhase(before, Struck(before, after, h), phase)
  {
  }

  type Tallies = map<(string, PhaseTally), nat>

  /** The replicated per-phase event count; absent reads as zero. */
  function Count(tallies: Tallies, phase: string, kind: PhaseTally): nat {
    if (phase, kind) in tallies then tallies[(phase, kind)] else 0
  }

  function Bumped(tallies: Tallies, phase: string, kind: PhaseTally): Tallies {
    tallies[(phase, kind) := Count(tallies, phase, kind) + 1]
  }

  /** A cascade from `h` counts one failure for each task it struck, in its phase. */
  ghost predicate CascadeCounted(t: Tallies, t': Tallies, before: Ledger, after: Ledger, h: Hash) {
    forall phase :: CascadeCountedIn(t, t', before, after, h, phase)
  }

  ghost predicate CascadeCountedIn(t: Tallies, t': Tallies, before: Ledger, after: Ledger, h: Hash, phase: string) {
    Count(t', phase, CompletedTally) == Count(t, phase, CompletedTally)
    && Count(t', phase, FailedTally)
       == Count(t, phase, FailedTally) + |InPhase(before, Struck(before, after, h), phase)|
  }

  /** An applied merge counts a completion the first time, a failure every time, and
      what its cascade struck. */
  ghost predicate MergeCounted(t: Tallies, t': Tallies, before: Ledger, after: Ledger, h: Hash, incoming: TaskState) {
    forall phase :: MergeCountedIn(t, t', before, after, h, incoming, phase)
  }

  ghost predicate MergeCountedIn(
    t: Tallies, t': Tallies, before: Ledger, after: Ledger, h: Hash, incoming: TaskState, phase: string)
  {
    Count(t', phase, CompletedTally) == Count(t, phase, CompletedTally) +
      (if NewlyCompleted(before, h, incoming) && incoming.def.phase == phase then 1 else 0)
    && Count(t', phase, FailedTally) == Count(t, phase, FailedTally) +
      (if IsFailure(incoming) && incoming.def.phase == phase then 1 else 0) +
      (if NeverProduces(incoming) then |InPhase(before, Struck(before, after, h), phase)| else 0)
  }

  /** One join, won or lost, with what it counts. */
  ghost predicate JoinedAndCounted(
    hasher: Hasher, before: Ledger, after: Ledger, t: Tallies, t': Tallies, h: Hash, incoming: TaskState)
  {
    && Joined(hasher, before, after, h, incoming)
    && (if Wins(hasher, before, h, incoming) then MergeCounted(t, t', before, after, h, incoming) else t' == t)
  }

  lemma CascadeStartsCounted(t: Tallies, tasks: Ledger, h: Hash)
    ensures CascadeCounted(t, t, tasks, tasks, h)
  {
  }

  lemma CascadeStaysCounted(
    t: Tallies, t': Tallies, t'': Tallies, before: Ledger, mid: Ledger, after: Ledger, h: Hash, d: Hash)
    requires Cascading(before, mid, h) && d in before && before[d] == mid[d]
    requires Struck(before, after, h) == Struck(before, mid, h) + ({d} + Struck(mid, after, d))
    requires d !in Struck(before, mid, h) && Struck(before, mid, h) !! Struck(mid, after, d)
    requires CascadeCounted(t, t', before, mid, h)
    requires MergeCounted(t', t'', mid, after, d, UpstreamFailed(before[d]))
    ensures CascadeCounted(t, t'', before, after, h)
  {
    forall phase ensures CascadeCountedIn(t, t'', before, after, h, phase) {
      assert CascadeCountedIn(t, t', before, mid, h, phase);
      assert MergeCountedIn(t', t'', mid, after, d, UpstreamFailed(before[d]), phase);
      StruckCounts(before, mid, after, h, d, phase);
    }
  }

  lemma FailingMergeCounted(t: Tallies, t': Tallies, before: Ledger, after: Ledger, h: Hash, incoming: TaskState)
    requires NeverProduces(incoming)
    requires CascadeCounted(Bumped(t, incoming.def.phase, FailedTally), t', before[h := incoming], after, h)
    ensures MergeCounted(t, t', before, after, h, incoming)
  {
    forall phase ensures MergeCountedIn(t, t', before, after, h, incoming, phase) {
      assert CascadeCountedIn(Bumped(t, incoming.def.phase, FailedTally), t', before[h := incoming], after, h, phase);
      StruckIgnoresTarget(before, after, h, incoming);
    }
  }

  // ---------------------------------------------------------------------
  // What a join means to the waiters and a spawn to its dependencies, state by state
  // ---------------------------------------------------------------------

  /** How a prerequisite stands towards those who need its output. */
  datatype Standing = Met | Undecided | Stuck | Dead

  function StandingOf(s: TaskState): Standing {
    match s
    case Completed(_, _) => Met
    case SkippedAlreadyDone(_, _) => Met
    case SetupCompleted(_, _) => Met
    case Pending(_, _, _) => Undecided
    case InFlight(_, _, _, _, _) => Undecided
    case Blocked(_, _, _) => Undecided
    case Unfulfillable(_, _, _, _, _) => Stuck
    case InvalidTask(_, _, _, _, _) => Dead
    case Failed(_, kind, _, _, _) => match kind case NonRecoverable => Dead case OtherKind(_) => Undecided
  }

  /** A task that waits for the slot of a won join fails, runs again or goes on waiting,
      each in exactly one case. */
  ghost predicate WaiterAnswered(before: Ledger, after: Ledger, h: Hash, incoming: TaskState, x: Hash) {
    x in before && x in after && before[x].Blocked?
    && var Blocked(def, _, attempt) := before[x];
       var dead := incoming.InvalidTask? || (incoming.Failed? && incoming.kind == NonRecoverable);
       var done := incoming.Completed? && !(h in before && before[h].Completed?);
       && (after[x] == Failed(def, NonRecoverable, "upstream-failed", TaskVersion(0, 0), attempt) <==> dead)
       && (after[x] == Pending(def, TaskVersion(0, 0), attempt) <==> done)
       && (after[x] == before[x] <==> !dead && !done)
  }

  /** A task that waits for another slot fails exactly when that slot failed with it. */
  ghost predicate FailureSpread(before: Ledger, after: Ledger, x: Hash, y: Hash) {
    x in before && x in after && before[x].Blocked?
    && var Blocked(def, _, attempt) := before[x];
       if y in before && y in after && before[y].Blocked? && after[y].Failed?
       then after[x] == Failed(def, NonRecoverable, "upstream-failed", TaskVersion(0, 0), attempt)
       else after[x] == before[x]
  }

  ghost predicate WaitersAnswered(before: Ledger, after: Ledger, h: Hash, incoming: TaskState) {
    forall x :: x in before && x != h && before[x].Blocked? ==>
      if before[x].on == h then WaiterAnswered(before, after, h, incoming, x)
      else FailureSpread(before, after, x, before[x].on)
  }

  /** Waiting for a task that waits is waiting. */
  lemma AwaitsThrough(tasks: Ledger, x: Hash, y: Hash, h: Hash)
    requires BlockedOn(tasks, x, y) && x != h
    ensures Awaits(tasks, x, h) <==> y == h || Awaits(tasks, y, h)
  {
    if y == h {
      assert Chain(tasks, [x, h], x, h);
    } else if Awaits(tasks, y, h) {
      var p :| Chain(tasks, p, y, h);
      assert Chain(tasks, [x] + p, x, h);
    }
    if Awaits(tasks, x, h) {
      var p :| Chain(tasks, p, x, h);
      assert BlockedOn(tasks, p[0], p[1]);
      if |p| > 2 { assert Chain(tasks, p[1..], p[1], h); }
    }
  }

  /** Every waiter of a won join is answered. */
  lemma WonJoinAnswers(hasher: Hasher, before: Ledger, after: Ledger, h: Hash, incoming: TaskState)
    requires Wins(hasher, before, h, incoming) && Joined(hasher, before, after, h, incoming)
    ensures WaitersAnswered(before, after, h, incoming)
  {
    forall x | x in before && x != h && before[x].Blocked?
      ensures if before[x].on == h then WaiterAnswered(before, after, h, incoming, x)
              else FailureSpread(before, after, x, before[x].on)
    {
      var y := before[x].on;
      AwaitsThrough(before, x, y, h);
      if Awaits(before, y, h) { OnlyBlockedAwaits(before, y, h); }
    }
  }

  /** The tasks of a phase that a join failed besides its own. */
  function FailedWith(before: Ledger, after: Ledger, h: Hash, phase: string): set<Hash> {
    set x | x in before && x in after && x != h && before[x].Blocked? && after[x].Failed? && before[x].def.phase == phase
  }

  /** A won join counts its own outcome and one failure for every task it failed. */
  ghost predicate OutcomesCounted(
    t: Tallies, t': Tallies, before: Ledger, after: Ledger, h: Hash, incoming: TaskState, phase: string)
  {
    && Count(t', phase, CompletedTally) == Count(t, phase, CompletedTally)
       + (if incoming.Completed? && !(h in before && before[h].Completed?) && incoming.def.phase == phase then 1 else 0)
    && Count(t', phase, FailedTally) == Count(t, phase, FailedTally) + |FailedWith(before, after, h, phase)|
       + (if (incoming.Failed? || incoming.Unfulfillable? || incoming.InvalidTask?) && incoming.def.phase == phase
          then 1 else 0)
  }

  lemma WonJoinCounts(
    hasher: Hasher, before: Ledger, after: Ledger, t: Tallies, t': Tallies, h: Hash, incoming: TaskState, phase: string)
    requires Wins(hasher, before, h, incoming) && JoinedAndCounted(hasher, before, after, t, t', h, incoming)
    ensures OutcomesCounted(t, t', before, after, h, incoming, phase)
  {
    assert MergeCountedIn(t, t', before, after, h, incoming, phase);
    assert FailedWith(before, after, h, phase) ==
           if NeverProduces(incoming) then InPhase(before, Struck(before, after, h), phase) else {}
    by {
      forall x | x in before && x != h && Awaits(before, x, h) ensures before[x].Blocked? {
        OnlyBlockedAwaits(before, x, h);
      }
    }
  }

  /** How a spawned task enters: failed exactly under a dead dependency, pending exactly
      when all that are known are met, and otherwise blocked on the first stuck one, or
      else on the first undecided one. */
  ghost predicate EntersAs(tasks: Ledger, def: TaskDef, deps: seq<Hash>, entry: TaskState) {
    && (entry == Failed(def, NonRecoverable, "upstream-failed", TaskVersion(0, 0), 0) <==> DepStands(tasks, deps, Dead))
    && (entry == Pending(def, TaskVersion(0, 0), 0) <==>
          forall i :: 0 <= i < |deps| && deps[i] in tasks ==> StandingOf(tasks[deps[i]]) == Met)
    && (!entry.Failed? && !entry.Pending? ==>
          exists k :: 0 <= k < |deps| && entry == Blocked(def, deps[k], 0)
                      && FirstToStand(tasks, deps, k, if DepStands(tasks, deps, Stuck) then Stuck else Undecided))
  }

  ghost predicate DepStands(tasks: Ledger, deps: seq<Hash>, how: Standing) {
    exists i :: 0 <= i < |deps| && deps[i] in tasks && StandingOf(tasks[deps[i]]) == how
  }

  ghost predicate FirstToStand(tasks: Ledger, deps: seq<Hash>, k: nat, how: Standing) {
    && k < |deps| && deps[k] in tasks && StandingOf(tasks[deps[k]]) == how
    && forall j :: 0 <= j < k && deps[j] in tasks ==> StandingOf(tasks[deps[j]]) != how
  }

  lemma {:induction false} FirstDepStands(tasks: Ledger, deps: seq<Hash>, unfulfillable: bool) returns (k: nat)
    ensures var how := if unfulfillable then Stuck else Undecided;
            match FirstDep(tasks, deps, unfulfillable)
            case None => !DepStands(tasks, deps, how)
            case Some(d) => FirstToStand(tasks, deps, k, how) && deps[k] == d
  {
    k := 0;
    if deps != [] {
      var how := if unfulfillable then Stuck else Undecided;
      if !(deps[0] in tasks && StandingOf(tasks[deps[0]]) == how) {
        var rest := deps[1..];
        var j := FirstDepStands(tasks, rest, unfulfillable);
        k := j + 1;
        assert forall i :: 1 <= i < |deps| ==> deps[i] == rest[i - 1];
      }
    }
  }

  lemma EntryByStanding(tasks: Ledger, def: TaskDef, deps: seq<Hash>)
    ensures EntersAs(tasks, def, deps, Entry(tasks, def, deps))
  {
    var stuck := FirstDepStands(tasks, deps, true);
    var undecided := FirstDepStands(tasks, deps, false);
    if SomeDepIsDead(tasks, deps) {
      var d :| d in deps && d in tasks && NeverProduces(tasks[d]);
      var i :| 0 <= i < |deps| && deps[i] == d;
      assert StandingOf(tasks[deps[i]]) == Dead;
    } else {
      forall i | 0 <= i < |deps| && deps[i] in tasks ensures StandingOf(tasks[deps[i]]) != Dead {
        assert deps[i] in deps;
      }
    }
  }

  class ClusterState {
    const hasher: Hasher
    var tasks: Ledger
    var tallies: Tallies

    constructor (hasher: Hasher)
      ensures this.hasher == hasher && tasks == map[] && tallies == map[]
      ensures forall phase, kind :: Count(tallies, phase, kind) == 0
    {
      this.hasher := hasher;
      tasks, tallies := map[], map[];
    }

    /** Every task blocked on `h`, taken in any order, becomes pending again. */
    method ResumeBlockedOn(h: Hash)
      modifies this`tasks
      ensures tasks.Keys == old(tasks).Keys
      ensures forall x :: x in old(tasks) ==>
        tasks[x] == if BlockedOn(old(tasks), x, h) then Resumed(old(tasks)[x]) else old(tasks)[x]
    {
      var todo := Dependents(tasks, h);
      ghost var all := todo;
      while todo != {}
        invariant todo <= all && tasks.Keys == old(tasks).Keys
        invariant forall x :: x in old(tasks) ==>
          tasks[x] == if x in all - todo then Resumed(old(tasks)[x]) else old(tasks)[x]
        decreases todo
      {
        var d :| d in todo;
        tasks := tasks[d := Resumed(tasks[d])];
        todo := todo - {d};
      }
    }

    /** The one join.  Returns whether the incoming state won. */
    method MergeTaskState(h: Hash, incoming: TaskState) returns (applied: bool)
      modifies this
      ensures applied <==> Wins(hasher, old(tasks), h, incoming)
      ensures Joined(hasher, old(tasks), tasks, h, incoming)
      ensures !applied ==> tallies == old(tallies)
      ensures applied ==> MergeCounted(old(tallies), tallies, old(tasks), tasks, h, incoming)
      ensures applied ==> WaitersAnswered(old(tasks), tasks, h, incoming)
      decreases BlockedSet(tasks) - {h}, 1
    {
      if h in tasks && !Dominates(hasher, incoming, tasks[h]) {
        return false;
      }
      ghost var before := tasks;
      var newlyCompleted := incoming.Completed? && !(h in tasks && tasks[h].Completed?);
      if newlyCompleted {
        BumpTally(incoming.def.phase, CompletedTally);
        ResumeBlockedOn(h);
      } else if IsFailure(incoming) {
        BumpTally(incoming.def.phase, FailedTally);
      }
      tasks := tasks[h := incoming];
      if NeverProduces(incoming) {
        CascadeFailBlockedDependents(h);
        CascadeMerges(before, tasks, h, incoming);
        FailingMergeCounted(old(tallies), tallies, before, tasks, h, incoming);
      }
      WonJoinAnswers(hasher, before, tasks, h, incoming);
      return true;
    }

    /** A snapshot: its states are joined one by one, in whatever order they come, and only
        then are its counts merged, the greater of each pair. */
    method Restore(states: seq<(Hash, TaskState)>, incoming: Tallies)
      returns (ghost ledgers: seq<Ledger>, ghost counts: seq<Tallies>)
      modifies this
      ensures |ledgers| == |counts| == |states| + 1
      ensures ledgers[0] == old(tasks) && counts[0] == old(tallies) && ledgers[|states|] == tasks
      ensures forall i :: 0 <= i < |states| ==>
        JoinedAndCounted(hasher, ledgers[i], ledgers[i + 1], counts[i], counts[i + 1], states[i].0, states[i].1)
      ensures forall phase, kind ::
        Count(tallies, phase, kind) == Max(Count(counts[|states|], phase, kind), Count(incoming, phase, kind))
    {
      ledgers, counts := [tasks], [tallies];
      for i := 0 to |states|
        invariant |ledgers| == |counts| == i + 1
        invariant ledgers[0] == old(tasks) && counts[0] == old(tallies) && ledgers[i] == tasks && counts[i] == tallies
        invariant forall j :: 0 <= j < i ==>
          JoinedAndCounted(hasher, ledgers[j], ledgers[j + 1], counts[j], counts[j + 1], states[j].0, states[j].1)
      {
        var applied := MergeTaskState(states[i].0, states[i].1);
        ledgers, counts := ledgers + [tasks], counts + [tallies];
      }
      MergeTallies(incoming);
    }

    method MergeTallies(incoming: Tallies)
      modifies this`tallies
      ensures forall phase, kind ::
        Count(tallies, phase, kind) == Max(Count(old(tallies), phase, kind), Count(incoming, phase, kind))
    {
      var todo := incoming.Keys;
      while todo != {}
        invariant todo <= incoming.Keys
        invariant forall phase, kind ::
          Count(tallies, phase, kind) ==
            if (phase, kind) in incoming.Keys - todo
            then Max(Count(old(tallies), phase, kind), Count(incoming, phase, kind))
            else Count(old(tallies), phase, kind)
        decreases todo
      {
        var k :| k in todo;
        tallies := tallies[k := Max(Count(tallies, k.0, k.1), incoming[k])];
        todo := todo - {k};
      }
    }

    /** The arms of `apply` that do not go through the join, and the whole of what they do. */
    method ApplyRewrite(r: Rewrite) returns (applied: bool)
      modifies this`tasks
      ensures applied <==> Applies(old(tasks), r)
      ensures applied <==> tasks != old(tasks)
      ensures tasks == Rewritten(old(tasks), r)
    {
      if r.Create? {
        applied := AddTask(r.h, r.def, r.deps);
        return;
      }
      if r.h !in tasks {
        return false;
      }
      var state := tasks[r.h];
      match (r, state) {
        case (Reinject(h, version), Unfulfillable(def, _, _, _, attempt)) =>
          tasks := tasks[h := Pending(def, version, attempt)];
        case (Requeue(h, version), InFlight(def, _, _, _, attempt)) =>
          tasks := tasks[h := Pending(def, version, attempt)];
        case (Retry(h, attempt, version), Failed(def, _, _, _, _)) =>
          tasks := tasks[h := Pending(def, version, attempt)];
        case (Block(h, on), Pending(def, _, attempt)) =>
          tasks := tasks[h := Blocked(def, on, attempt)];
        case (Skip(h), Pending(def, _, attempt)) =>
          tasks := tasks[h := SkippedAlreadyDone(def, attempt)];
        case (SetupDone(h), Pending(def, _, attempt)) =>
          tasks := tasks[h := SetupCompleted(def, attempt)];
          ResumeBlockedOn(h);
        case (SetupDone(h), InFlight(def, _, _, _, attempt)) =>
          tasks := tasks[h := SetupCompleted(def, attempt)];
          ResumeBlockedOn(h);
        case _ =>
          return false;
      }
      return true;
    }

    /** A task enters the ledger once. */
    method AddTask(h: Hash, def: TaskDef, deps: seq<Hash>) returns (applied: bool)
      modifies this`tasks
      ensures applied <==> h !in old(tasks)
      ensures tasks == Rewritten(old(tasks), Create(h, def, deps))
    {
      if h in tasks {
        return false;
      }
      var entry := Classify(def, deps);
      tasks := tasks[h := entry];
      return true;
    }

    /** One pass over the dependencies of a spawned task. */
    method Classify(def: TaskDef, deps: seq<Hash>) returns (entry: TaskState)
      ensures entry == Entry(tasks, def, deps) && EntersAs(tasks, def, deps, entry)
    {
      EntryByStanding(tasks, def, deps);
      var unfulfillable, pending: Option<Hash> := None, None;
      for i := 0 to |deps|
        invariant !SomeDepIsDead(tasks, deps[..i])
        invariant FirstDep(tasks, deps, true) ==
                  if unfulfillable.Some? then unfulfillable else FirstDep(tasks, deps[i..], true)
        invariant FirstDep(tasks, deps, false) ==
                  if pending.Some? then pending else FirstDep(tasks, deps[i..], false)
      {
        var dep := deps[i];
        assert deps[i..][0] == dep && deps[i..][1..] == deps[i + 1..];
        if dep in tasks {
          if NeverProduces(tasks[dep]) {
            assert dep in deps;
            return Failed(def, NonRecoverable, "upstream-failed", ZERO_VERSION, 0);
          }
          if tasks[dep].Unfulfillable? {
            if unfulfillable.None? {
              unfulfillable := Some(dep);
            }
          } else if Unresolved(tasks[dep]) && pending.None? {
            pending := Some(dep);
          }
        }
      }
      assert deps[..|deps|] == deps;
      return if unfulfillable.Some? then Blocked(def, unfulfillable.value, 0)
             else if pending.Some? then Blocked(def, pending.value, 0)
             else Pending(def, ZERO_VERSION, 0);
    }

    method BumpTally(phase: string, kind: PhaseTally)
      modifies this`tallies
      ensures tallies == Bumped(old(tallies), phase, kind)
    {
      tallies := tallies[(phase, kind) := Count(tallies, phase, kind) + 1];
    }

    /** Fails every task waiting on `h`, directly or not, whatever order the
        dependents are taken in and whether or not the waits form cycles. */
    method CascadeFailBlockedDependents(h: Hash)
      requires h in tasks && !tasks[h].Blocked?
      modifies this
      ensures Cascading(old(tasks), tasks, h) && NobodyWaits(tasks, h)
      ensures CascadeCounted(old(tallies), tallies, old(tasks), tasks, h)
      decreases BlockedSet(tasks), 0
    {
      var before := tasks;
      var todo := Dependents(tasks, h);
      CascadeStartsCounted(tallies, tasks, h);
      while todo != {}
        invariant forall d :: d in todo ==> BlockedOn(before, d, h)
        invariant Cascading(before, tasks, h)
        invariant forall y :: BlockedOn(tasks, y, h) ==> y in todo
        invariant CascadeCounted(old(tallies), tallies, before, tasks, h)
        decreases todo
      {
        var d :| d in todo;
        todo := todo - {d};
        UpstreamFailureWins(hasher, before[d]);
        ghost var (mid, counted) := (tasks, tallies);
        var applied := MergeTaskState(d, UpstreamFailed(before[d]));
        if applied {
          CascadeContinues(before, mid, tasks, h, d);
          CascadeStaysCounted(old(tallies), counted, tallies, before, mid, tasks, h, d);
        }
      }
    }
  }
}
