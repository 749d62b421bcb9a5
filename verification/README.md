# dynamic-runner, verified core

A Dafny model of the parts of dynamic-runner whose correctness is an argument
rather than a glance, with proofs of what those parts promise over all inputs,
all runs and all interleavings. `dafny verify dfyconfig.toml` checks everything.

The main results, hardest first:

- **The task ledger** (`TaskJoin`, `TaskJoinTheorems`, `LedgerSteps`,
  `LedgerRuns`, `LedgerTallies`, `LedgerSnapshots`, `LedgerCompletions`,
  `LedgerConvergence`). Every replica joins observations into per-task slots;
  completions resume waiting tasks and failures cascade along chains of waits,
  cycles included. The recursive hash-map cascade is proved to be exactly
  "everything that awaits the failed task fails", independent of iteration
  order. A run is any sequence of joins and of the authoritative rewrites
  (creation, reinjection, requeue, retry, pause, skip, setup success) that bypass
  the join; over every run it is proved exactly what such a rewrite takes back,
  which observations win only once, when each outcome counts once, and how often
  a task completes. However nodes exchange snapshots no tally overshoots. For
  every collection of joined observations it is proved exactly when replicas end
  with the same keys, and exactly when with the same ledger, in whatever order
  and however often they received them.
- **The restart agreement** (`Consensus`, `ConsensusTheorems`). Over every run
  of the state machine, with frames lost, repeated, stale or invented, a peer
  is restarted if and only if it was suspected, nobody vouched for it, nobody
  retracted it and every expected responder's latest answer endorsed it; every
  other ending is characterised as well, and four overdue polls end any round.
- **The directory walk** (`Discovery`, `DiscoveryTheorems`, `DiscoveryCalls`).
  The stack-driven loop with a stateful visitor computes the same result as a
  recursive preorder traversal, terminates on cyclic graphs, balances its books,
  and with an enter-everything visitor lists exactly the reachable directories.
  Every call of the visitor, every file yielded and every error is accounted for
  by the visitor's own earlier answers.
- **The starvation-honest clock** (`OwnTickHealth`, `OwnTickTheorems`), by
  induction over arbitrary tick histories.
- **The shutdown manager** (`Reap`, `PollLoop`, `ManagerConfig`, `Numerals`): the poll loop,
  the reap and the whole run over an arbitrary environment and a log of effects,
  and the meaning of every command line.
- **Output gathering** (`OutputGather`, `OutputGatherTheorems`): the queue-driven
  walk is breadth-first reachability, nearest first, with the exact conditions
  under which the order of dependencies does not matter and under which every
  direct dependency's outputs are held.
- **Spawn validation** (`SpawnValidator`), **loop statistics** (`OpLoopStats`),
  **the authority snapshot** under interleaving (`AuthoritySnapshot`,
  `AuthorityAnswers`),
  **membership registers** (`Registers`), **framing** (`FrameCodec`), **shell
  quoting** (`ShellQuote`), **argv forwarding** (`ForwardedArgv`) and **bounded
  strings** (`BoundedString`).

## Reading the model

Code that updates state in place is a class or a method with loops; each such
method is proved against a specification, and the theorems are about that
specification. Environment answers (clocks, `/proc`, podman, peers, the file
system, the visitor, hashes, JSON) are arbitrary functions or arbitrary
sequences of observations, so the theorems hold whatever they answer. Instants
and durations are whole nanoseconds. 64-bit and 32-bit wrap-around and
truncating casts are modelled where the code can reach them: the timing
accumulators, the idle threshold, the frame length prefix and the podman stop
grace. Ghost fields and ghost results (histories, logs, traces) exist only in
the model.

Where the code and its own text disagree the model follows the code, shows an
input, and states exactly when the text is right:

- Two failed or completed records that tie are the same record, as
  `merge.rs:314-316` says, but two assignments of one version to different
  workers, and two blocked states naming different prerequisites, tie as well
  (`TieIsSameRecord`), and any tie of different states leaves replicas with
  different ledgers (`TiesDiverge`).
- A join key is said to win at most once per node (`merge.rs:502-504`). On runs
  without stale retries and reinjections that is so of outcomes and of pending
  states at the zero version; with reinjections only of completions, invalid
  tasks and those pending states; with stale retries of the least state alone
  (`RedeliveryLosesExactly`).
- The tallies are said never to count twice (`merge.rs:501`). A reinjected
  failure whose record is delivered again counts twice
  (`ReinjectedFailureCountsTwice`); each record counts once, however the run goes
  on by joins, exactly when each did so far and no slot is below a record of its
  own (`CountedOnceExactly`).
- The greater of two tallies is said to be exactly the union of what both cover
  (`merge.rs:510-511`); it never overshoots (`TalliesNeverOvershoot`) and is exact
  precisely when one side covers the other (`RestoreCoversExactly`,
  `RestoreFallsShort`).
- A retry is said to be silent when re-applied and to outrank the failure it meets
  (`apply.rs:636-648`), and a reinjection never to regress the ledger
  (`apply.rs:532-535`). A retry that arrives after the task failed again resets it
  again, and can take the attempt back (`AttemptGoesBackExactly`,
  `StaleRetryCompletesAgain`). A rewrite takes a slot below an outcome exactly when
  it reinjects the very attempt or retries under an attempt no later
  (`StepKeepsFloorExactly`).
- A setup success must resume the tasks blocked on it (`apply.rs:827-835`); one
  that arrives through the join resumes nobody (`SetupSuccessUnheard`). Which
  steps leave a task waiting for something decided is stated by
  `WakeupsSurviveExactly` and `RewritesKeepWakeupsExactly`.
- Replicas that saw a block and the completion it waits for in different orders
  end with different keys (`BlocksDiverge`); which observations converge is
  stated by `KeysConvergeExactly` and `LedgersConvergeExactly`.
- `newly_completed` is said to fire at most once per hash (`merge.rs:519`). It
  fires at most once per attempt unless a retry is stale, and once per hash
  exactly when nothing but completions ranks between two of the task's
  completions and, if retries may be stale, nothing above one of them can be
  taken back (`CompletesOnceExactly`).
- Eight rewrites are said to bypass the join (`range_digest.rs:235-246`); the code
  has six, and the creations.
- `merge_capability` is documented as commutative, associative and idempotent
  (`merge.rs:766`); it is, except that two entries of one generation, kind and
  version that disagree on the primary bit do not commute.
- "`rm -af` only when both PIDs are gone" (`poll_loop.rs:295-300`) is too
  strong: the last resort looks at the workload alone, and a PID whose start time
  was not read counts as gone. Removal under a captured PID that is running is
  possible exactly when a PID was captured without its start time, or conmon is
  identified, differs from a known workload, and a panik path is configured
  (`RemovalUnderALivingPid`, `RmUnderALivingPid`).
- "For every direct dependency the result holds that dependency's outputs"
  (`output_gather.rs:18-22`) fails when another dependency, by itself or through
  what it inherits, offers other outputs under the same task id, and only then
  (`DirectOutputsHeldExactly`).
- A primary with nobody left to ask is said to be unable to restart anyone
  (`consensus/mod.rs:53-62`); when every secondary is under suspicion the
  expected set is empty, and peers still suspected are restarted without any
  confirmation exactly when those vouched for make up the quorum.
- `shell_join` is documented as equivalent to Python's `shlex.join`
  (`shell.rs:28-29`); the texts agree exactly when every part is empty, or needs
  quotes and contains no single quote (`JoinsAgreeExactly`). A shell reads the
  joined line back as exactly the arguments in every case.

## Model

| member | source | states |
|---|---|---|
| TaskJoin.ClusterState.MergeTaskState | crates/dynrunner-manager-distributed/src/cluster_state/merge.rs:398-583 | the incoming state wins iff it strictly dominates; a lost join changes nothing; a won one leaves every other slot as it was except that a first completion resumes exactly the direct waiters and a dead outcome fails exactly the transitive waiters, which is also said state by state for every waiter; the per-phase tallies grow by exactly the completions and failures that happened |
| TaskJoin.ClusterState.CascadeFailBlockedDependents | crates/dynrunner-manager-distributed/src/cluster_state/merge.rs:636-684 | whatever order dependents are taken in and whether or not waits form cycles, the mutual recursion terminates, nobody is left waiting for the failed task or for anything it struck, untouched tasks keep their state, and one failure is tallied per struck task in its phase |
| TaskJoin.ClusterState.ResumeBlockedOn | crates/dynrunner-manager-distributed/src/cluster_state/apply_tasks.rs:141-193 | exactly the tasks blocked on the prerequisite become pending, at the zero version and their own attempt; all others are untouched |
| TaskJoin.ClusterState.ApplyRewrite | crates/dynrunner-manager-distributed/src/cluster_state/apply.rs:531-872 | each authoritative arm acts on exactly the states it names, changes the ledger iff it acts, writes its own slot and nothing else, except that a setup success also resumes exactly those blocked on it; tallies stay |
| TaskJoin.ClusterState.Classify | crates/dynrunner-manager-distributed/src/cluster_state/apply_tasks.rs:274-489 | one pass over a spawned task's dependencies: it enters failed iff a known dependency is invalid or failed beyond recovery, pending iff all known ones are completed, skipped or set up, and otherwise blocked on the first unfulfillable one, or else on the first one that is pending, in flight, blocked or failed recoverably |
| TaskJoin.ClusterState.Restore | crates/dynrunner-manager-distributed/src/cluster_state/snapshot.rs:1023-1041 | the snapshot's states are joined one after the other, each with its own counting, and only then is each count the greater of the two |
| TaskJoin.UpstreamFailureWins | crates/dynrunner-manager-distributed/src/cluster_state/merge.rs:636-684 | the failure a cascade writes always dominates the blocked state it replaces, so no cascade step is ever refused |
| TaskJoin.ChainFails | crates/dynrunner-manager-distributed/src/cluster_state/merge.rs:636-684 | a finished cascade has failed every task on a chain of waits to its root |
| TaskJoin.CascadeMerges | crates/dynrunner-manager-distributed/src/cluster_state/merge.rs:555-583 | a finished cascade is precisely the transitive closure of waiting, said on the ledger as it was before the join |
| TaskJoin.CascadeContinues | crates/dynrunner-manager-distributed/src/cluster_state/merge.rs:636-684 | failing one dependent together with its own cascade extends the cascade from the root by a disjoint set of tasks and never re-creates a waiter |
| TaskJoin.WonJoinAnswers | crates/dynrunner-manager-distributed/src/cluster_state/merge.rs:455-583 | for every task waiting for the slot of a won join: it fails upstream iff what came is invalid or failed beyond recovery, is pending again iff it is a first completion, and is unchanged iff it is anything else; a task waiting for another slot fails iff that slot failed with it |
| TaskJoin.WonJoinCounts | crates/dynrunner-manager-distributed/src/cluster_state/merge.rs:490-533 | per phase a won join counts one completion iff it is a first one, one failure for a failed, unfulfillable or invalid outcome, and one failure for every waiter it failed |
| TaskJoin.EntryByStanding | crates/dynrunner-manager-distributed/src/cluster_state/apply_tasks.rs:300-480 | the entry of a spawned task, dependency by dependency and state by state, both ways |
| TaskJoinTheorems.TieIsSameRecord | crates/dynrunner-manager-distributed/src/cluster_state/merge.rs:131-285 | with a collision-free content hash two states tie iff they are the same record up to the holder of an in-flight task and the prerequisite of a blocked one |
| TaskJoinTheorems.OutcomeOrder | crates/dynrunner-manager-distributed/src/cluster_state/types.rs:776-890 | a newer attempt beats everything older, an outcome beats every live state of its attempt, an invalid task beats every other outcome |
| TaskJoinTheorems.DominatesExactly | crates/dynrunner-manager-distributed/src/cluster_state/merge.rs:40-285 | the whole order, state by state: attempt, then how far the state has come (live, blocked, skipped, set up, failed or unfulfillable, completed, invalid), then version, then running over pending and unfulfillable over failed, then content hash |
| TaskJoinTheorems.MergeIsDeterministic | crates/dynrunner-manager-distributed/src/cluster_state/merge.rs:398-583 | the ledger after a won join does not depend on hash-map iteration order |
| TaskJoinTheorems.OnlyResumesDrop | crates/dynrunner-manager-distributed/src/cluster_state/apply_tasks.rs:141-193 | in a won join the slots whose rank drops are exactly those a completion resumes |
| TaskJoinTheorems.RewritesExactly | crates/dynrunner-manager-distributed/src/cluster_state/apply.rs:531-872 | what each authoritative rewrite makes of its slot and in which states it does nothing: the definition stays, the attempt stays unless a retry sets it, a task put back carries the version it was put back with, and only a setup success touches another slot |
| TaskJoinTheorems.WaitersStayWoken | crates/dynrunner-manager-distributed/src/cluster_state/merge.rs:398-583 | after a won join a task elsewhere waits for something decided, completed, set up, skipped or dead, iff it waits for the joined slot and what came is a setup success or a skip |
| TaskJoinTheorems.WakeupsSurviveExactly | crates/dynrunner-manager-distributed/src/cluster_state/merge.rs:398-583 | no wake-up is lost by a won join iff it brings neither a blocked state naming a decided prerequisite nor a setup success or skip that somebody waits for |
| TaskJoinTheorems.SetupSuccessUnheard | crates/dynrunner-manager-distributed/src/cluster_state/apply.rs:812-872 | a setup success that comes through the join leaves its waiter blocked on it; the same success as an authoritative rewrite resumes it |
| TaskJoinTheorems.ChainsPart | crates/dynrunner-manager-distributed/src/cluster_state/merge.rs:636-684 | a task waits, through any chains, on at most one task that is not itself blocked |
| TaskJoinTheorems.WaitsUnaffected | crates/dynrunner-manager-distributed/src/cluster_state/merge.rs:398-583 | a join into one unblocked slot neither makes nor breaks a wait, direct or transitive, on another |
| TaskJoinTheorems.JoinsCommuteExactly | crates/dynrunner-manager-distributed/src/cluster_state/merge.rs:398-583 | joins into two unblocked slots, won or lost, bringing blocked or unblocked states, give the same ledger in either order iff not both win or neither brings a block that the other resumes or fails |
| TaskJoinTheorems.BlockedSlotsDoNotCommute | crates/dynrunner-manager-distributed/src/cluster_state/merge.rs:398-583 | redelivering a blocked state before its prerequisite completes is harmless, after it the task is buried again |
| LedgerSteps.JoinIsTheJoin | crates/dynrunner-manager-distributed/src/cluster_state/merge.rs:398-583 | the ledger function the run theorems are about is exactly what the object's join does, won or lost |
| LedgerSteps.StepKeepsFloorExactly | crates/dynrunner-manager-distributed/src/cluster_state/apply.rs:531-872 | a step, join or rewrite, keeps an outcome or zero-version pending floor of a slot iff it is neither a reinjection of the very attempt nor a retry naming an attempt no later |
| LedgerSteps.AttemptGoesBackExactly | crates/dynrunner-manager-distributed/src/cluster_state/apply.rs:633-690 | a step takes the attempt of a slot back iff it is a retry naming an earlier attempt than the failure it meets |
| LedgerSteps.RanksDropExactly | crates/dynrunner-manager-distributed/src/cluster_state/apply.rs:531-872 | the rank of a slot drops in a step iff a completion or setup success resumes it, it is reinjected, requeued under no later version, or retried under no later attempt |
| LedgerSteps.RewritesKeepWakeupsExactly | crates/dynrunner-manager-distributed/src/cluster_state/apply.rs:691-872 | a rewrite leaves nobody waiting for something decided iff it neither creates a dead task or skips one that others wait for nor pauses on a decided prerequisite |
| LedgerRuns.FloorsLastExactly | crates/dynrunner-manager-distributed/src/cluster_state/merge.rs:313-321 | from any point of any run a lasting floor of a slot stays one exactly as long as no step lowers it |
| LedgerRuns.DeliveredOutcomesLastExactly | crates/dynrunner-manager-distributed/src/cluster_state/merge.rs:313-321 | in particular a delivered outcome, whatever resumes and cascades happen in between |
| LedgerRuns.AttemptsGoBackExactly | crates/dynrunner-manager-distributed/src/cluster_state/apply.rs:633-690 | on every run a filled slot stays filled, and its attempt goes back exactly at retries naming an earlier one |
| LedgerRuns.AttemptsNeverGoBack | crates/dynrunner-manager-distributed/src/cluster_state/apply.rs:633-690 | on runs without stale retries no attempt goes back |
| LedgerRuns.RedeliveryLosesOnRun | crates/dynrunner-manager-distributed/src/cluster_state/merge.rs:502-504 | on every run a delivered outcome never wins again exactly as long as no step lowers it |
| LedgerRuns.RedeliveryLosesExactly | crates/dynrunner-manager-distributed/src/cluster_state/merge.rs:502-504 | a delivered state never wins its slot again, on all runs iff it is the least state, on runs without stale retries iff it is a completion, an invalid task or pending at the zero version, and without reinjections as well iff it is an outcome or such a pending state |
| LedgerTallies.OutcomesRise | crates/dynrunner-manager-distributed/src/cluster_state/merge.rs:502-504 | on every run the outcomes a slot takes on, delivered, cascaded or written, have strictly rising keys as long as no step lowers the earlier one |
| LedgerTallies.TalliesCountRecords | crates/dynrunner-manager-distributed/src/cluster_state/merge.rs:490-533 | one join's tallies grow by the number of slots that took on a new outcome of that kind and phase |
| LedgerTallies.TalliesCountDistinctRecords | crates/dynrunner-manager-distributed/src/cluster_state/merge.rs:495-504 | on every run in which no reset takes a slot below a counted outcome, a tally equals the number of distinct outcome records, slot and key: redelivery, reordering and cascades count nothing twice |
| LedgerTallies.CountedOnceExactly | crates/dynrunner-manager-distributed/src/cluster_state/merge.rs:495-504 | after any run, each record counts once however it goes on by joins iff each counted once so far and no slot is below a record of its own |
| LedgerTallies.FreshRunsCountOnce | crates/dynrunner-manager-distributed/src/cluster_state/merge.rs:495-504 | without stale retries completions are counted once and held for ever, and so is every outcome if nothing is reinjected |
| LedgerTallies.ReinjectedFailureCountsTwice | crates/dynrunner-manager-distributed/src/cluster_state/apply.rs:531-580 | any unfulfillable task, reinjected and its record delivered again, is counted twice |
| LedgerSnapshots.TalliesNeverOvershoot | crates/dynrunner-manager-distributed/src/cluster_state/merge.rs:500-516 | however the nodes of a cluster step and restore each other's snapshots, as long as no reset loses a counted outcome, no tally exceeds the number of distinct records its node's history covers, and the node holds all of them |
| LedgerSnapshots.RestoreCoversExactly | crates/dynrunner-manager-distributed/src/cluster_state/merge.rs:505-511 | the greater of two exact counts is exactly the union of their records iff one of them covers the other |
| LedgerSnapshots.RestoreFallsShort | crates/dynrunner-manager-distributed/src/cluster_state/merge.rs:512-516 | a node that saw one failure and restores one that saw two of another task covers three records and counts two |
| LedgerSnapshots.CountsFirstOvershoot | crates/dynrunner-manager-distributed/src/cluster_state/snapshot.rs:1323-1331 | merging the counts before the states would count a restored completion twice |
| LedgerCompletions.CompletionFiresOncePerAttempt | crates/dynrunner-manager-distributed/src/cluster_state/merge.rs:518-519 | on every run a second completion event of a task belongs to a later attempt unless a stale retry in between named an attempt no later than the first |
| LedgerCompletions.StaleRetryCompletesAgain | crates/dynrunner-manager-distributed/src/cluster_state/apply.rs:651-690 | any completion, later failure, retry naming an attempt no later than the completion's and that completion again take the attempt back and raise two events of one attempt |
| LedgerCompletions.CompletesOnceExactly | crates/dynrunner-manager-distributed/src/cluster_state/merge.rs:518-519 | for any observations, in every order and repetition and with any rewrites in between, a task completes at most once, without stale retries iff nothing but completions ranks strictly between two of its completions, with them iff moreover no failure above a completion was observed, nor anything reopenable above one together with a dead outcome of another task |
| LedgerConvergence.KeysConvergeExactly | crates/dynrunner-manager-distributed/src/cluster_state/merge.rs:313-321 | for every collection of joined observations, blocks included: all orders and repetitions leave the same slots at the same keys iff in every slot no completion among them can resume a greatest observation and no cascade along a line of observed blocks to a dead outcome can outrank it |
| LedgerConvergence.LedgersConvergeExactly | crates/dynrunner-manager-distributed/src/cluster_state/merge.rs:313-321 | the ledgers themselves agree for all orders and repetitions iff moreover each slot has one greatest observation and no cascade writes a different record of its rank |
| LedgerConvergence.RunExplained | crates/dynrunner-manager-distributed/src/cluster_state/merge.rs:398-684 | on every run each slot holds one of its observations, the resumed form of one of its blocks, or the failure of one of its blocks that a line of observed blocks leads to a dead outcome |
| LedgerConvergence.EndsAtTheGreatest | crates/dynrunner-manager-distributed/src/cluster_state/merge.rs:313-321 | an undisturbed slot ends at the key of its greatest observation on every run |
| LedgerConvergence.DisturbedKeysDiffer | crates/dynrunner-manager-distributed/src/cluster_state/merge.rs:398-684 | for any other slot there are two orders of the same observations that leave it at different keys |
| LedgerConvergence.UnblockedKeysConverge | crates/dynrunner-manager-distributed/src/cluster_state/merge.rs:313-321 | observations without blocked states always converge in their keys |
| LedgerConvergence.TiesDiverge | crates/dynrunner-manager-distributed/src/cluster_state/merge.rs:313-321 | any two different states of one rank leave the same keys and different ledgers in the two orders |
| LedgerConvergence.BlocksDiverge | crates/dynrunner-manager-distributed/src/cluster_state/merge.rs:398-583 | any block and a completion it waits for leave the waiting slot at different keys in the two orders |
| Registers.MergeByRank | crates/dynrunner-manager-distributed/src/cluster_state/merge.rs:771-840 | the merge in terms of one order: the greater rank supplies version and primary bit, equal ranks keep the local bit, observers accumulate within the winning generation and kind |
| Registers.CapabilityIdempotent | crates/dynrunner-manager-distributed/src/cluster_state/merge.rs:766-840 | merging an entry with itself changes nothing |
| Registers.CapabilityCommutesExactly | crates/dynrunner-manager-distributed/src/cluster_state/merge.rs:766-869 | the merge commutes iff the two entries do not have one rank and different primary bits |
| Registers.CapabilityAssociates | crates/dynrunner-manager-distributed/src/cluster_state/merge.rs:766-840 | the merge is associative without exception |
| Registers.MergedReplicas | crates/dynrunner-manager-distributed/src/cluster_state/merge.rs:766-840 | merging two replicas that already merged their deliveries is delivering the one's entries after the other's |
| Registers.CapabilityOutcome | crates/dynrunner-manager-distributed/src/cluster_state/merge.rs:771-869 | after any deliveries the entry has the leaders' rank, some leader's primary bit, and is an observer iff anyone in the leading generation and kind was |
| Registers.CapabilitiesConvergeExactly | crates/dynrunner-manager-distributed/src/cluster_state/merge.rs:766-869 | replicas agree for every order and repetition iff the leading entries agree on the primary bit |
| Registers.RegisterHoldsTheElected | crates/dynrunner-manager-distributed/src/cluster_state/merge.rs:701-718 | from a fresh node any deliveries leave the least id among those of the greatest epoch |
| Registers.PrimaryConverges | crates/dynrunner-manager-distributed/src/cluster_state/merge.rs:701-718 | all replicas agree on the primary whatever the order and repetition |
| Consensus.ConsensusFsm.constructor | crates/dynrunner-manager-distributed/src/primary/consensus/fsm.rs:165-171 | a fresh machine is idle and has minted no round |
| Consensus.ConsensusFsm.SetSchedulingSuspect | crates/dynrunner-manager-distributed/src/primary/consensus/fsm.rs:183-201 | the local suspicion is replaced or dropped, and a round in flight is never touched |
| Consensus.ConsensusFsm.ClearSchedulingSuspectIfPresent | crates/dynrunner-manager-distributed/src/primary/consensus/fsm.rs:281-288 | one peer leaves the local suspicion, which is never left empty |
| Consensus.ConsensusFsm.Escalate | crates/dynrunner-manager-distributed/src/primary/consensus/fsm.rs:214-245 | a local suspicion becomes a round under a fresh id; from any other state nothing changes |
| Consensus.ConsensusFsm.ApplyResolved | crates/dynrunner-manager-distributed/src/primary/consensus/fsm.rs:323-363 | an echo of the current round removes its peer in every collecting state; any other echo changes nothing |
| Consensus.ConsensusFsm.ApplyConfirm | crates/dynrunner-manager-distributed/src/primary/consensus/fsm.rs:374-407 | an expected responder's answer to the current round removes what it retracts and replaces its earlier answer; any other answer changes nothing |
| Consensus.ConsensusFsm.PollConfirmations | crates/dynrunner-manager-distributed/src/primary/consensus/fsm.rs:539-625 | commit, drop, retry, abort or wait, independent of the mesh snapshot |
| Consensus.ConsensusFsm.Poll | crates/dynrunner-manager-distributed/src/primary/consensus/fsm.rs:416-628 | the fall-through of states and terminal resets computes one step of the machine the run theorems are about |
| Consensus.ConsensusFsm.Drive | crates/dynrunner-manager-distributed/src/primary/consensus/wiring.rs:231-274 | the eight-iteration cap is never what ends the drive loop: the signals are exactly what the polls at that instant return, at most four, and afterwards no poll at that instant changes anything |
| Consensus.IntersectTallies | crates/dynrunner-manager-distributed/src/primary/consensus/fsm.rs:553-571 | folding the answers one by one, in any order, leaves exactly the candidates every answer endorses and none retracts |
| Consensus.PollSpendsRank | crates/dynrunner-manager-distributed/src/primary/consensus/fsm.rs:416-628 | a poll that signals strictly lowers a bounded rank, a silent one changes nothing and is silent for every mesh snapshot |
| ConsensusTheorems.EveryStateIsSound | crates/dynrunner-manager-distributed/src/primary/consensus/fsm.rs:41-105 | between calls no run rests in the broadcast-restart state or in a terminal one, and a round in flight has a minted id and recorded answers only from expected responders |
| ConsensusTheorems.EveryStateIsExplained | crates/dynrunner-manager-distributed/src/primary/consensus/fsm.rs:172-643 | every state of every run is a summary of the frames since that round's own escalation, opening and question |
| ConsensusTheorems.LocalSuspicionExactly | crates/dynrunner-manager-distributed/src/primary/consensus/fsm.rs:183-288 | between rounds the machine suspects exactly the peers of the last seed made outside a round, less those cleared since, no escalation having been tried |
| ConsensusTheorems.RoundsAreNumbered | crates/dynrunner-manager-distributed/src/primary/consensus/fsm.rs:214-245 | round ids count the escalations that had something to escalate |
| ConsensusTheorems.BroadcastsAreEscalations | crates/dynrunner-manager-distributed/src/primary/consensus/fsm.rs:421-455 | every broadcast suspicion names exactly what was locally suspected at its escalation |
| ConsensusTheorems.QuestionsNameTheRest | crates/dynrunner-manager-distributed/src/primary/consensus/fsm.rs:498-612 | whenever the question is put, first or again, it names exactly the suspects nobody has vouched for or withdrawn by then, and it is repeated only after its whole window |
| ConsensusTheorems.UnderSuspicionExactly | crates/dynrunner-manager-distributed/src/primary/consensus/fsm.rs:301-317 | whom the coordinator leaves out of its live count, before a round and at every stage of it, read off the frames |
| ConsensusTheorems.RestartsAreAgreed | crates/dynrunner-manager-distributed/src/primary/consensus/mod.rs:14-32 | a restart comes only at the end of a full round, at least fifteen seconds after the escalation, through the side gate and with the question repeated at most once, and its targets are exactly the suspects nobody vouched for, nobody retracted and every expected responder's latest answer endorses |
| ConsensusTheorems.EverybodyElseEndorses | crates/dynrunner-manager-distributed/src/primary/consensus/wiring.rs:84-158 | with the coordinator's own list of responders, every secondary outside the suspicion endorsed every target |
| ConsensusTheorems.AnsweredRoundsEnd | crates/dynrunner-manager-distributed/src/primary/consensus/fsm.rs:551-579 | once all expected responders answered the next poll restarts every agreed peer or drops; before that it does neither |
| ConsensusTheorems.DropsAreEarned | crates/dynrunner-manager-distributed/src/primary/consensus/fsm.rs:464-469 | suspicion is dropped only when every suspect was vouched for, or all answered and no peer is agreed on |
| ConsensusTheorems.AbortsAreEarned | crates/dynrunner-manager-distributed/src/primary/consensus/mod.rs:64-74 | a round aborts only off the quorum side with a suspect left, or when the question repeated exactly once went unanswered for five more seconds, and the report names exactly the silent responders |
| ConsensusTheorems.SilentIffWaiting | crates/dynrunner-manager-distributed/src/primary/consensus/fsm.rs:416-628 | within a round a poll is silent iff its deadline is ahead and something is still awaited |
| ConsensusTheorems.RoundsAreBounded | crates/dynrunner-manager-distributed/src/primary/consensus/mod.rs:64-74 | in every run a round raises at most four signals, those still to come included |
| ConsensusTheorems.FourOverduePollsEndARound | crates/dynrunner-manager-distributed/src/primary/consensus/mod.rs:64-74 | in every run a round sees at most four overdue polls, and after the fourth it is over, whatever else is called in between |
| ConsensusTheorems.GateExactly | crates/dynrunner-manager-distributed/src/primary/consensus/mod.rs:128-144 | a side passes the gate iff twice its live count is at least the membership plus two |
| ConsensusTheorems.AtMostOneSidePasses | crates/dynrunner-manager-distributed/src/primary/consensus/mod.rs:134-142 | two disjoint sides of one membership cannot both reach the threshold |
| ConsensusTheorems.RestartsNeedAPartnerExactly | crates/dynrunner-manager-distributed/src/primary/consensus/mod.rs:53-62 | a restart was endorsed by somebody iff the escalation expected at least one responder |
| ConsensusTheorems.NobodyToAsk | crates/dynrunner-manager-distributed/src/primary/consensus/fsm.rs:549-579 | with nobody expected, a round past its window restarts all remaining suspects iff the others are a majority with one to spare |
| ConsensusTheorems.RestartWithoutAnyConfirmation | crates/dynrunner-manager-distributed/src/primary/consensus/wiring.rs:84-158 | such runs exist: with every secondary suspected, those not vouched for are restarted with no confirmation iff those vouched for make up the quorum |
| Discovery.Walk | crates/dynrunner-discovery/src/lib.rs:265-351 | the stack loop returns exactly the marked files, statistics, final visitor state and error of the recursive preorder traversal, hence the same order of visitor calls, on every graph with links and cycles |
| Discovery.Visit | crates/dynrunner-discovery/src/lib.rs:284-350 | one loop iteration leaves the rest of the walk unchanged in meaning and lowers the pair of unvisited directories and stack height |
| Discovery.Descend | crates/dynrunner-discovery/src/lib.rs:294-350 | listing a fresh directory pops its children before anything already stacked |
| Discovery.SplitListing | crates/dynrunner-discovery/src/lib.rs:305-312 | folders and files are split without reordering either |
| Discovery.MarkFiles | crates/dynrunner-discovery/src/lib.rs:318-331 | the marks are appended in the order given, or the first index out of range is the error |
| Discovery.PushEnters | crates/dynrunner-discovery/src/lib.rs:336-350 | what the stable descending sort pushes pops in ascending folder order; the largest index decides an out-of-range error |
| Discovery.SortedPopsInVisitOrder | crates/dynrunner-discovery/src/lib.rs:336-350 | reversing the stable descending sort is bucket order by ascending index, the last payload of a repeated folder first |
| Discovery.DrainSplits | crates/dynrunner-discovery/src/lib.rs:276-350 | draining one worklist ahead of another is the recursive traversal of the first followed by the second |
| Discovery.DrainIsWalkSpec | crates/dynrunner-discovery/src/lib.rs:265-351 | the worklist machine started at the root is the recursive traversal |
| DiscoveryTheorems.WalkAccounts | crates/dynrunner-discovery/src/lib.rs:185-205 | on every completed walk no directory is listed twice, files yielded are the marks, directories descended plus one are the directories visited, descents plus skipped cycles are the accepted enters, and the entry and link counts are the sums over the visited listings |
| DiscoveryTheorems.DrainBalances | crates/dynrunner-discovery/src/lib.rs:276-350 | these balances hold at every step of the walk, with pending frames counted |
| DiscoveryTheorems.WalkListsOnlyReachable | crates/dynrunner-discovery/src/lib.rs:276-350 | whatever the visitor enters, only directories reachable from the root are listed |
| DiscoveryTheorems.EnterAllFinishedIsReachability | crates/dynrunner-discovery/src/lib.rs:276-350 | a finished enter-everything walk visited exactly the reachable directories, all of them listable |
| DiscoveryTheorems.EnterAllWalk | crates/dynrunner-discovery/src/lib.rs:276-350 | an enter-everything walk finishes iff everything reachable can be listed, and then visits exactly what is reachable |
| DiscoveryTheorems.MarksInRange | crates/dynrunner-discovery/src/lib.rs:318-331 | marking succeeds iff every index is in range, and yields each named file with its payload in order |
| DiscoveryCalls.WalkExplained | crates/dynrunner-discovery/src/lib.rs:276-351 | every walk, told by the calls of its visitor: the root is asked about first and without a payload, any other directory with the payload an earlier answer gave for the very folder leading there, always with its own folders and files; a finished walk asked about exactly the directories it lists, in that order, and yields exactly the files marked, under their relative paths; an aborted one reports the visitor's error, the first bad mark, the greatest bad enter, or a path that cannot be read; recording the calls changes nothing |
| DiscoveryCalls.ListingSplits | crates/dynrunner-discovery/src/lib.rs:305-312 | no entry of a listing is lost |
| DiscoveryCalls.EntryFound | crates/dynrunner-discovery/src/lib.rs:305-312 | every entry is shown under its name at the place given by the entries of its kind before it |
| DiscoveryCalls.VisitOrderAscends | crates/dynrunner-discovery/src/lib.rs:333-350 | entered folders are visited by ascending index |
| DiscoveryCalls.VisitOrderOfOne | crates/dynrunner-discovery/src/lib.rs:333-350 | every enter is visited, and the enters of one folder last first |
| OwnTickHealth.OwnTickHealth.constructor | crates/dynrunner-manager-distributed/src/own_tick_health.rs:161-187 | the threshold is three times the cadence, or the longest duration when that does not fit, and the history is empty |
| OwnTickHealth.OwnTickHealth.ObserveTick | crates/dynrunner-manager-distributed/src/own_tick_health.rs:205-262 | the verdict is whether this tick defers as read off the whole history, and all fields stay the stated functions of that history |
| OwnTickHealth.OwnTickHealth.JudgedElapsed | crates/dynrunner-manager-distributed/src/own_tick_health.rs:269-271 | the clock reads the sum of all gaps, each capped at the threshold |
| OwnTickHealth.OwnTickHealth.InChronicStarvation | crates/dynrunner-manager-distributed/src/own_tick_health.rs:277-279 | true iff the streak reaching the last tick has outlived the escalation window |
| OwnTickHealth.OwnTickHealth.TrustworthyAnchor | crates/dynrunner-manager-distributed/src/own_tick_health.rs:288-293 | an anchor is lifted exactly to the instant of the last tick that deferred, if any |
| OwnTickHealth.NextTick | crates/dynrunner-manager-distributed/src/own_tick_health.rs:205-262 | the five fields computed from the previous five are the stated functions of the longer history |
| OwnTickTheorems.FirstStarvedTickDefers | crates/dynrunner-manager-distributed/src/own_tick_health.rs:70-76 | the first starved tick of a streak defers however long its gap |
| OwnTickTheorems.DeferralIsTheWindow | crates/dynrunner-manager-distributed/src/own_tick_health.rs:217-261 | a starved tick defers iff its streak is no older than the escalation window |
| OwnTickTheorems.DeferralIsAPrefix | crates/dynrunner-manager-distributed/src/own_tick_health.rs:205-262 | the deferring ticks of a streak form a prefix of it |
| OwnTickTheorems.DeferralIsBounded | crates/dynrunner-manager-distributed/src/own_tick_health.rs:205-262 | a streak defers exactly its first n ticks, at least one, with the n - 1 thresholds between them fitting the window |
| OwnTickTheorems.StreakHasAStart | crates/dynrunner-manager-distributed/src/own_tick_health.rs:205-262 | every starved tick lies in a streak that opened at or before it, so that bound covers every deferral |
| OwnTickTheorems.PlainConstructorNeverEscalates | crates/dynrunner-manager-distributed/src/own_tick_health.rs:157-163 | without escalation every starved tick defers and none is chronic |
| OwnTickTheorems.ChronicFloorIsFrozen | crates/dynrunner-manager-distributed/src/own_tick_health.rs:136-151 | under chronic starvation the floor lies inside the streak's window and before the present |
| OwnTickTheorems.JudgedWindow | crates/dynrunner-manager-distributed/src/own_tick_health.rs:206-215 | over any window the judged clock gains every healthy gap in full and one threshold per starved tick |
| OwnTickTheorems.JudgedByGap | crates/dynrunner-manager-distributed/src/own_tick_health.rs:206-215 | one tick adds its gap in full up to the threshold, the threshold beyond it, and nothing when the clock went back; it is starved iff the gap exceeds the threshold |
| OwnTickTheorems.JudgedNeverOutrunsWall | crates/dynrunner-manager-distributed/src/own_tick_health.rs:206-215 | the judged clock never outruns wall time and keeps pace iff no tick of the window was starved |
| OwnTickTheorems.JudgedSilencePassesAnyBound | crates/dynrunner-manager-distributed/src/own_tick_health.rs:263-271 | whatever the bound, finitely many starved ticks carry the judged silence past it |
| PollLoop.WholeSecondsAreExact | shutdown-manager/src/poll_loop.rs:544-549 | for whole-second settings the 64-bit cast never truncates and the threshold is the least positive count of polls covering the idle time |
| PollLoop.MillisecondsAreExact | shutdown-manager/src/poll_loop.rs:544-549 | for any settings the threshold is the least count of polls covering the idle time in whole milliseconds, a poll under a millisecond counting as one |
| PollLoop.Poll | shutdown-manager/src/poll_loop.rs:166-246 | the loop ends at the first trigger, or at the first poll whose last sighting lies exactly the threshold back, and hands over the last PIDs reported while the container existed |
| PollLoop.PollUntil | shutdown-manager/src/poll_loop.rs:174-246 | the same for an arbitrary threshold, zero behaving as one |
| PollLoop.ExitIsUnique | shutdown-manager/src/poll_loop.rs:166-246 | the trace determines which way the loop ends, when, and with which PIDs |
| PollLoop.ExitByObservations | shutdown-manager/src/poll_loop.rs:174-246 | observation by observation: nothing ended the loop before, and what ended it was the flag, or without it the death of a known wrapper, or without either a container last seen exactly the threshold ago |
| PollLoop.WaitForExit | shutdown-manager/src/poll_loop.rs:522-540 | it asks about the container once a second and stops at the first absence, or after as many rounds as the grace has started seconds; nothing is signalled or removed |
| PollLoop.RecordBasedSignal | shutdown-manager/src/poll_loop.rs:438-472 | the first child is signalled only if found, process one whenever the record exists, and podman stop only follows a container that outlived its grace, with the grace in whole seconds cast to 32 bits |
| PollLoop.GracefulPanikFileAttempt | shutdown-manager/src/poll_loop.rs:369-412 | without a path and a workload PID nothing happens and the orphan stands; otherwise the sentinel is written once and the workload is probed once a second for two minutes or until a probe no longer sees it, and the last probe decides |
| PollLoop.ShutDownBySignal | shutdown-manager/src/poll_loop.rs:301-341 | the effects are the signals through the record, one reap per captured PID with the configured graces, the last resort and then the removal iff nothing survives; the reap fails iff some stretch ends with a probe that still saw its process; the last resort runs iff it failed with a path and a workload PID, and can only turn a survivor into a confirmed death |
| PollLoop.FinishIdle | shutdown-manager/src/main.rs:180-202 | the idle path removes, cleans up and exits zero |
| PollLoop.FinishSignal | shutdown-manager/src/main.rs:180-202 | the signal path is such a teardown followed by the removal and the cleanup its status calls for, and nothing else |
| PollLoop.RunManager | shutdown-manager/src/main.rs:180-202 | on every completed run exit code one, a surviving orphan, no rm -af and a preserved scratch tree are equivalent; nothing but file removal follows rm -af, no signal of any kind and no sentinel; every signal was guarded by an identity probe of a PID the polls captured; the sentinel is written iff the direct reap failed with a path and a workload known; rm -af comes under a captured PID that is running only if conmon goes unasked or a PID was captured without its start time |
| PollLoop.RunIsConsistent | shutdown-manager/src/poll_loop.rs:301-341 | those equivalences, and that only file removal follows rm -af, for any teardown whose stages stay within their bounds |
| PollLoop.WholeRunGuarded | shutdown-manager/src/poll_loop.rs:301-341 | no stage but the reap signals, so its guard is the guard of the run |
| PollLoop.TeardownMakesASoundRun | shutdown-manager/src/main.rs:180-202 | every teardown makes a consistent and guarded run with the sentinel written exactly when it should be |
| PollLoop.TeardownKeepsTheGraces | shutdown-manager/src/poll_loop.rs:474-494 | in every teardown SIGKILL follows SIGTERM by the secondary's whole grace of unbroken sightings, and a PID is left standing only after the container's whole stop grace on top |
| PollLoop.RemovalUnderALivingProcess | shutdown-manager/src/poll_loop.rs:295-323 | rm -af after a captured process was last seen alive happens only if that process is an identified conmon different from the known workload, with a panik path configured |
| PollLoop.RmUnderLivingConmon | shutdown-manager/src/poll_loop.rs:295-323 | and for every such configuration and capture there is a host on which it happens, with a conmon that never dies |
| PollLoop.RemovalUnderALivingPid | shutdown-manager/src/poll_loop.rs:295-323 | on whatever host, rm -af is issued under a captured PID that is running all along only if that gap is open or some PID was captured without its start time |
| PollLoop.RmUnderALivingPid | shutdown-manager/src/poll_loop.rs:295-323 | and for every such configuration and capture there is a host on which it is |
| PollLoop.RmUnderUnidentified | crates/dynrunner-reap/src/process_probe.rs:98-107 | whatever the configuration, a PID captured without its start time is removed under while it runs |
| Reap.IsSameProcess | crates/dynrunner-reap/src/process_probe.rs:98-107 | an unknown start time is never the same process and asks nothing; otherwise identity is equality of start times at that moment |
| Reap.WaitForPidGone | crates/dynrunner-reap/src/reap.rs:181-202 | once a second through the grace and once at its end: a wait that was not cut short probes exactly as often as the grace has seconds, rounded up, and once more; otherwise every probe but the last saw the process |
| Reap.ReapOne | crates/dynrunner-reap/src/reap.rs:129-172 | at most SIGTERM then SIGKILL, each directly after a probe that confirmed the identity and each followed by its grace; survival is reported iff the last probe saw the process; a process that is always there survives, one that never is is gone |
| Reap.KilledOnlyAfterTheGrace | crates/dynrunner-reap/src/reap.rs:148-172 | whenever SIGKILL was sent, exactly the first grace of sightings lies between the two signals; a reported survivor was seen through exactly the second grace after it |
| Reap.TicksCover | crates/dynrunner-reap/src/reap.rs:189-198 | a grace is waited out in the fewest whole seconds that cover it |
| Reap.ReapPids | crates/dynrunner-reap/src/reap.rs:107-123 | one stretch of log per target, in order, each as for a single target; not applicable iff there are none, a survivor iff some stretch ends with a probe that saw its own target |
| ManagerConfig.ParseArgs | shutdown-manager/src/config.rs:170-224 | the loop that takes a flag with its value agrees with the token-by-token scan, errors included |
| ManagerConfig.FlagTable | shutdown-manager/src/config.rs:181-218 | every flag's spelling is read back as that flag |
| ManagerConfig.SpelledOut | shutdown-manager/src/config.rs:181-218 | the fourteen names |
| ManagerConfig.NumbersExactly | shutdown-manager/src/config.rs:183-192 | a number below two to the sixty-fourth is read from exactly its decimal digits, with or without leading zeros and a plus sign |
| ManagerConfig.ValuesExactly | shutdown-manager/src/config.rs:183-216 | the five numeric flags accept exactly the numerals from one up, the wrapper PID only below two to the thirty-second; zero, out of range and not a number are told apart; the other flags take any text |
| ManagerConfig.SplitJoined | shutdown-manager/src/config.rs:227-232 | only the first equals sign splits, whatever the value contains |
| ManagerConfig.RespellingIsInvisible | shutdown-manager/src/config.rs:170-224 | wherever a flag is expected, the two spellings of a pair give the same configuration or the same error |
| ManagerConfig.ScanRendered | shutdown-manager/src/config.rs:170-224 | any list of pairs in any mix of spellings scans to the last value of each flag, or to the first value that does not convert |
| ManagerConfig.LastOccurrencesDecide | shutdown-manager/src/config.rs:170-224 | two lists of pairs whose values convert and whose last values agree parse alike, whatever their spelling, order and repetitions |
| ManagerConfig.DistinctFlagsCommuteExactly | shutdown-manager/src/config.rs:170-224 | swapping neighbouring pairs of different flags anywhere on the line changes the result iff neither of them converts and everything before them does |
| ManagerConfig.ErrorsDependOnOrder | shutdown-manager/src/config.rs:170-224 | such neighbours exist: the failure reported is that of the first |
| ManagerConfig.EveryArgvIsARendering | shutdown-manager/src/config.rs:170-224 | every command line is a list of pairs, each in one spelling or the other, and a loose end: nothing, a flag without its value, or something that is no flag |
| ManagerConfig.ParseMeaning | shutdown-manager/src/config.rs:106-224 | the meaning of every command line: the first value that does not convert is reported, else the loose end, else the first missing required flag; otherwise parsing succeeds and every field is the last value given or its default |
| ManagerConfig.SameLastValuesSameConfig | shutdown-manager/src/config.rs:106-224 | any two command lines that parse and agree on the last value of each flag give the same configuration |
| OutputGather.VisitDeps | crates/dynrunner-core/src/output_gather.rs:160-165 | each newly mentioned identity is marked, queued and offered once, in order |
| OutputGather.WalkAncestry | crates/dynrunner-core/src/output_gather.rs:129-167 | the queue loop terminates on every graph and offers exactly the breadth-first list of proper ancestors |
| OutputGather.GatherPredecessorOutputs | crates/dynrunner-core/src/output_gather.rs:68-93 | each key holds the recorded outputs, or empty ones, of the first identity offered under that task id |
| OutputGather.InsertExtends | crates/dynrunner-core/src/output_gather.rs:104-117 | the insert is first write wins over the sequence of identities offered |
| OutputGather.GatheredIsUnique | crates/dynrunner-core/src/output_gather.rs:68-93 | that description determines the map |
| OutputGatherTheorems.AncestryIsReachability | crates/dynrunner-core/src/output_gather.rs:129-167 | on every graph, cyclic or not, each proper ancestor is listed exactly once and nothing else is |
| OutputGatherTheorems.AncestryIsNearestFirst | crates/dynrunner-core/src/output_gather.rs:129-167 | ancestors are offered in order of their distance in the dependency graph |
| OutputGatherTheorems.GatheredKeys | crates/dynrunner-core/src/output_gather.rs:18-26 | the keys are exactly the task ids of direct dependencies and of everything reachable from inheriting ones |
| OutputGatherTheorems.GatheredValues | crates/dynrunner-core/src/output_gather.rs:95-117 | each value is what was recorded for a contributing task of that id, or empty when nothing was |
| OutputGatherTheorems.NearestWins | crates/dynrunner-core/src/output_gather.rs:129-167 | under one inheriting dependency the nearest task of an id supplies it, the dependency itself being nearest |
| OutputGatherTheorems.ValueOfOrder | crates/dynrunner-core/src/output_gather.rs:68-117 | the value under a task id is what some direct dependency offers under it, and absent iff none offers any |
| OutputGatherTheorems.FirstDependencyWins | crates/dynrunner-core/src/output_gather.rs:104-117 | what the first dependency offers stays |
| OutputGatherTheorems.OrderIndependence | crates/dynrunner-core/src/output_gather.rs:68-117 | the order of the dependencies is irrelevant iff no two of them offer different outputs under one task id |
| OutputGatherTheorems.UniqueIdsAreOrderIndependent | crates/dynrunner-core/src/output_gather.rs:68-167 | in particular when no contributing task id occurs in two phases |
| OutputGatherTheorems.DirectOutputsHeldExactly | crates/dynrunner-core/src/output_gather.rs:18-22 | in every order of the dependencies each direct one has its own outputs held under its task id iff whoever offers anything under that id, by itself or through what it inherits, offers those outputs |
| OutputGatherTheorems.DirectDependencyShadowed | crates/dynrunner-core/src/output_gather.rs:18-22 | a store and dependencies for which that fails: an inherited ancestor shadows a later direct dependency of the same task id |
| SpawnValidator.FindBadDep | crates/dynrunner-core/src/spawn_tasks_validator.rs:238-247 | the first dependency that is neither known nor in the batch, if any |
| SpawnValidator.ValidateSpawnTasks | crates/dynrunner-core/src/spawn_tasks_validator.rs:176-279 | one pass with a growing set of hashes yields, at each index, the verdict the whole earlier batch determines |
| SpawnValidator.VerdictExactly | crates/dynrunner-core/src/spawn_tasks_validator.rs:199-275 | each verdict iff its guard: present in the ledger; else repeated in the batch; else the first dependency in order that neither the batch nor the receiver knows, by its task id; else a closed phase; else accepted |
| SpawnValidator.AcceptedExact | crates/dynrunner-core/src/spawn_tasks_validator.rs:176-279 | accepted indices ascend and are exactly those without an error |
| SpawnValidator.ErrorsExact | crates/dynrunner-core/src/spawn_tasks_validator.rs:176-279 | one error per rejected index, ascending, and accepted plus rejected make up the batch |
| SpawnValidator.AcceptedAreFresh | crates/dynrunner-core/src/spawn_tasks_validator.rs:204-236 | accepted hashes are absent from the ledger and pairwise distinct |
| SpawnValidator.LaterOccurrence | crates/dynrunner-core/src/spawn_tasks_validator.rs:204-236 | every later occurrence of a hash is a duplicate, even when its first occurrence was itself rejected |
| SpawnValidator.ReplayVerdict | crates/dynrunner-core/src/spawn_tasks_validator.rs:176-279 | re-validating after a failover turns accepted tasks and their duplicates into ledger duplicates and leaves every other rejection as it was |
| SpawnValidator.ReplayAcceptsNothing | crates/dynrunner-core/src/spawn_tasks_validator.rs:176-279 | replay is idempotent: nothing is accepted twice |
| SpawnValidator.AcceptedExactlyIfAdmissible | crates/dynrunner-core/src/spawn_tasks_validator.rs:176-279 | an unknown identity is accepted iff some task of the batch has it that is the first of its hash, in an accepting phase and without an unresolved dependency |
| SpawnValidator.AcceptedExactlyIfOpen | crates/dynrunner-core/src/spawn_tasks_validator.rs:176-279 | where hashes tell tasks apart, iff some task of the batch has it whose phase accepts and whose dependencies all resolve |
| SpawnValidator.ClosedExactly | crates/dynrunner-core/src/spawn_tasks_validator.rs:199-247 | every dependency of every accepted task is known or accepted iff each unknown dependency of an admissible task new to the ledger names an admissible task of the batch |
| SpawnValidator.AcceptedDependenciesResolve | crates/dynrunner-core/src/spawn_tasks_validator.rs:199-247 | in particular when all rejections are duplicates and hashes tell identities apart |
| SpawnValidator.AcceptedMayDependOnRejectedSibling | crates/dynrunner-core/src/spawn_tasks_validator.rs:199-202 | a batch for which it is not closed: a phase-gate rejection of a sibling |
| OpLoopStats.OpLoopArmStats.constructor | crates/dynrunner-manager-distributed/src/oploop_instrumentation.rs:190-214 | all counters are the stated functions of an empty history |
| OpLoopStats.OpLoopArmStats.BeginSelect | crates/dynrunner-manager-distributed/src/oploop_instrumentation.rs:266-272 | the call joins the history, all accumulators stay its stated functions and nothing is emitted |
| OpLoopStats.OpLoopArmStats.RecordAt | crates/dynrunner-manager-distributed/src/oploop_instrumentation.rs:232-256 | the call joins the history; a starvation warning is raised iff ten thousand wins and thirty seconds have passed since the inbox last won and thirty seconds since the last warning, a statistics line iff two minutes have passed since the last, and warnings and lines stay paced |
| OpLoopStats.OpLoopArmStats.MaybeEmit | crates/dynrunner-manager-distributed/src/oploop_instrumentation.rs:301-335 | the same emission conditions, both ways, read off the counters |
| OpLoopStats.TimeIsConserved | crates/dynrunner-manager-distributed/src/oploop_instrumentation.rs:232-287 | every nanosecond between first and last call is idle time, a known arm's body time, or lost to a missing transition |
| OpLoopStats.AlternationLosesNothing | crates/dynrunner-manager-distributed/src/oploop_instrumentation.rs:232-287 | calls in alternation with arms in range lose nothing |
| OpLoopStats.AccountedTime | crates/dynrunner-manager-distributed/src/oploop_instrumentation.rs:232-287 | idle plus body time never exceeds elapsed time, and equals it iff nothing was lost |
| OpLoopStats.CheckBooks | crates/dynrunner-manager-distributed/src/oploop_instrumentation.rs:368-410 | below 2^64 nanoseconds the stored accumulators have not wrapped and add up accordingly |
| OpLoopStats.SinceInboxBounded | crates/dynrunner-manager-distributed/src/oploop_instrumentation.rs:232-256 | iterations since the last inbox win never exceed all iterations |
| OpLoopStats.WinsAreRecords | crates/dynrunner-manager-distributed/src/oploop_instrumentation.rs:232-256 | an arm's count is the number of records of that arm |
| OpLoopStats.RecordsAreCounted | crates/dynrunner-manager-distributed/src/oploop_instrumentation.rs:232-256 | the iteration count is the number of records |
| OpLoopStats.LastInboxWin | crates/dynrunner-manager-distributed/src/oploop_instrumentation.rs:232-256 | after an inbox win the count since it is the number of records behind it, and its clock is the one kept |
| OpLoopStats.NoInboxWinYet | crates/dynrunner-manager-distributed/src/oploop_instrumentation.rs:232-256 | before any inbox win everything counts, from the clock of construction |
| OpLoopStats.GapsGoWhereTheyBelong | crates/dynrunner-manager-distributed/src/oploop_instrumentation.rs:232-287 | the time between two calls goes to the idle window or to the arm whose body the second closes, in full, and nothing when the clock went back |
| OpLoopStats.OnlyWinnersAreCharged | crates/dynrunner-manager-distributed/src/oploop_instrumentation.rs:266-287 | an arm that never won is charged nothing |
| OpLoopStats.WarnDueExactly | crates/dynrunner-manager-distributed/src/oploop_instrumentation.rs:412-431 | the warning gate, with a never-warned block told apart from one that warned |
| OpLoopStats.DueWarningIsPaced | crates/dynrunner-manager-distributed/src/oploop_instrumentation.rs:420-431 | on every clock, steps back and readings of zero included, a due warning comes at least the cooldown after the one before |
| OpLoopStats.WarningsAreSpaced | crates/dynrunner-manager-distributed/src/oploop_instrumentation.rs:420-431 | n further warnings of the object take at least n cooldowns |
| AuthoritySnapshot.ReadsAreFresh | crates/dynrunner-manager-distributed/src/authority_snapshot.rs:166-198 | over every interleaving with one updater, no read answers from a snapshot already stale when it began, although it loads twice |
| AuthoritySnapshot.FreshExactlyWithOneUpdater | crates/dynrunner-manager-distributed/src/authority_snapshot.rs:166-198 | every read of every run is fresh iff at most one handle publishes |
| AuthoritySnapshot.DefiniteAnswersAreFresh | crates/dynrunner-manager-distributed/src/authority_snapshot.rs:172-198 | every definite answer, a known life or a count, rests on a snapshot fresh at the start of the read; otherwise the answer is the fail-closed one |
| AuthorityAnswers.AnswersExplained | crates/dynrunner-manager-distributed/src/authority_snapshot.rs:158-198 | every finished read of every run with any number of handles, told by the actions: it began at its clock action, answers nothing iff what was installed at its check was stale for that beginning, and otherwise what was installed at its second load; peer by peer and count by count |
| AuthorityAnswers.EveryWorldExplained | crates/dynrunner-manager-distributed/src/authority_snapshot.rs:158-310 | at every moment the installed snapshot is what the last store's handle had last stamped, with the clock of the stamp |
| AuthoritySnapshot.MonotoneRun | crates/dynrunner-manager-distributed/src/authority_snapshot.rs:271-310 | with one updater the installed timestamp never goes back in any run, and every reader past its check is still entitled to its answer |
| AuthoritySnapshot.TwoUpdatersCanServeStale | crates/dynrunner-manager-distributed/src/authority_snapshot.rs:158-198 | with any two handles publishing, a delayed store between the two loads serves a stale answer |
| AuthoritySnapshot.EmittedAtMostOnce | crates/dynrunner-manager-distributed/src/authority_snapshot.rs:230-310 | over every interleaving of cloned handles the line is emitted at most once, and once quiet it was emitted iff jobs were reported and the handle that won the latch is configured to emit |
| AuthoritySnapshot.LatchedRun | crates/dynrunner-manager-distributed/src/authority_snapshot.rs:271-310 | latch, winner, undecided handles and emissions stay consistent at every step |
| ShellQuote.QuoteWord | crates/dynrunner-gateway/src/shell.rs:14-26 | the character loop builds the quoted form the reading lemmas are about |
| ShellQuote.JoinWords | crates/dynrunner-gateway/src/shell.rs:30-45 | the loop with its first-part flag separates the quoted words by single blanks |
| ShellQuote.ReadQuoted | crates/dynrunner-gateway/src/shell.rs:14-26 | under sections 2.2.1, 2.2.2 and 2.3 of the POSIX Shell Command Language, reading a quoted string from the unquoted state returns there with exactly that string appended to the word |
| ShellQuote.JoinRoundTrips | crates/dynrunner-gateway/src/shell.rs:30-45 | a shell reads a joined command line back as exactly its arguments, whatever they contain |
| ShellQuote.JoinIsInjective | crates/dynrunner-gateway/src/shell.rs:30-45 | no two argument lists share a command line |
| ShellQuote.JoinsAgreeExactly | crates/dynrunner-gateway/src/shell.rs:28-45 | the joined line is the one `shlex.join` gives iff every part is empty, or has a character that needs quoting and no single quote |
| FrameCodec.FrameRoundTripsExactly | crates/dynrunner-protocol-primary-secondary/src/codec.rs:8-40 | a frame decodes to its message, consuming exactly its bytes, iff the body is shorter than 2^32 bytes |
| FrameCodec.BigEndianKeepsOrder | crates/dynrunner-protocol-primary-secondary/src/codec.rs:8-22 | length prefixes compare byte by byte as the lengths do, which only the most-significant-first layout does |
| FrameCodec.PrefixRoundTrips | crates/dynrunner-protocol-primary-secondary/src/codec.rs:28-40 | every four bytes are the prefix of exactly the length they are read as |
| FrameCodec.DecisionIsStable | crates/dynrunner-protocol-primary-secondary/src/codec.rs:28-40 | a message or an error once decided is not changed by bytes that follow |
| FrameCodec.ReceiveLoop | crates/dynrunner-transport-quic/src/transport.rs:93-133 | the buffer loop delivers what folding over the chunks delivers, connection drops included |
| FrameCodec.EveryBufferExplained | crates/dynrunner-transport-quic/src/transport.rs:93-133 | every buffer is whole good frames and one ending: the frames are delivered in order, an unfinished ending is kept, and the connection is dropped iff the ending announces too much or does not decode |
| FrameCodec.DrainEarly | crates/dynrunner-transport-quic/src/transport.rs:93-133 | decoding what is buffered before more arrives is decoding everything at once |
| FrameCodec.ChunkingIsInvisible | crates/dynrunner-transport-quic/src/transport.rs:93-133 | for every byte stream, well formed or not, messages, drop and held-back bytes do not depend on how it was cut into reads |
| FrameCodec.StreamRoundTrips | crates/dynrunner-protocol-primary-secondary/src/codec.rs:8-40 | serialized messages followed by part of another frame are delivered in order and the part is kept |
| FrameCodec.PartialFrameWaits | crates/dynrunner-protocol-primary-secondary/src/codec.rs:28-40 | no strict prefix of a frame is decided or refused |
| ForwardedArgv.FilterFrameworkArgv | python/dynamic_runner/_forwarded_argv.py:57-82 | the index loop computes the filter the theorems are about |
| ForwardedArgv.FilterCharacterized | python/dynamic_runner/_forwarded_argv.py:44-82 | the output is a given list iff the input interleaves that list of passing tokens with local flags, inline pairs and flag-value pairs of any content, possibly ending in one bare flag |
| ForwardedArgv.EveryArgvIsAnInterleaving | python/dynamic_runner/_forwarded_argv.py:57-82 | every argv can be read in that way |
| ForwardedArgv.InlinePairsExactly | python/dynamic_runner/_forwarded_argv.py:68-72 | an inline pair is a regenerated flag, an equals sign and anything at all |
| ForwardedArgv.DroppedByName | python/dynamic_runner/_framework_flags.py:74-93 | the ten regenerated flags by name go with their value in either spelling, the local one goes alone |
| ForwardedArgv.FilterIsIdempotent | python/dynamic_runner/_framework_flags.py:47-54 | filtering twice is filtering once, and an argv is left alone iff nothing in it is a dropped shape |
| ForwardedArgv.OutputIsClean | python/dynamic_runner/_forwarded_argv.py:44-82 | no dropped shape survives |
| ForwardedArgv.OutputIsASubsequence | python/dynamic_runner/_forwarded_argv.py:44-82 | kept tokens keep their order and spelling |
| ForwardedArgv.RefilteringRecoversTheForwardSet | python/dynamic_runner/_framework_flags.py:47-54 | whatever complete groups a launcher puts before, between or after forwarded tokens, filtering again gives back the forwarded set exactly |
| ForwardedArgv.FilterConcat | python/dynamic_runner/_forwarded_argv.py:73-79 | the filter distributes over concatenation unless the first part ends in a flag awaiting its value, which then swallows the next token |
| BoundedString.TruncateInPlace | crates/dynrunner-core/src/bounded_string.rs:56-74 | the result is the longest prefix of whole characters whose UTF-8 form (section 3 of RFC 3629) fits the cap |
| BoundedString.CharExactly | crates/dynrunner-core/src/bounded_string.rs:60-74 | a character takes the shortest form with room for it and that form carries its value; one byte exactly for ASCII |
| BoundedString.LeadByteTells | crates/dynrunner-core/src/bounded_string.rs:11-14 | the lead byte tells the length of the form |
| BoundedString.BoundariesAreCharacterEnds | crates/dynrunner-core/src/bounded_string.rs:11-14 | an offset is a byte-level character boundary iff the bytes before it encode some number of whole characters |
| BoundedString.CutIsTheLastBoundary | crates/dynrunner-core/src/bounded_string.rs:60-74 | the kept bytes end at a character boundary, so the truncation cannot panic, and no later boundary lies within the cap |
| BoundedString.RoomLost | crates/dynrunner-core/src/bounded_string.rs:56-74 | nothing is cut iff the string fits, and a cut leaves fewer than four bytes of the cap unused |
| BoundedString.CapsCompose | crates/dynrunner-core/src/bounded_string.rs:76-81 | capping again on deserialising changes nothing, and a tighter cap afterwards is the tighter cap alone |

## Left out

- JoinsCommuteExactly: exact on slots that are not blocked; that joins into a blocked slot need not commute is shown by `BlockedSlotsDoNotCommute`, but which pairs of them do is not characterised. Whole collections of observations are, by `KeysConvergeExactly` and `LedgersConvergeExactly`, blocked slots included.
- KeysConvergeExactly: about joined observations; the authoritative rewrites are commands, not observations, and replicas that apply them at different points of their runs are not compared.
- TalliesNeverOvershoot: assumes that no reset loses a counted outcome anywhere; what happens after one is stated for a single node only, by `CountedOnceExactly`.
- Settled-ledger spill, under which a retry that does not dominate a spilled failure is refused, the output cache, narration and completion events, digests and range folding of the cluster state; the blocked-by index is modelled as the scan it equals.
- The 32-bit width of the per-phase tallies and the 64-bit width of round ids.
- Primary register merges from snapshots that carry no primary.
- The secondary side of the restart agreement, the coordinator's respawn and removal after a restart, and sender and timestamp stamping; peer lists that travel sorted are sets, and abort reasons are values rather than text.
- `list_dir` itself (reading directories, resolving links, classifying entries): a directory is given with its sorted listing and its counts, so how links to sockets are counted is not modelled.
- PollLoop.Poll: observes a finite trace, since the loop need not end; a longer trace continues it.
- Signal handlers, `/proc` reading, podman and squeue invocations, and log files of the shutdown manager; the exit of a panicking helper process.
- Starvation and warning log throttles, statistics rendering and the per-role registry of arm statistics.
- Atomic memory orderings: the arm statistics have one writer and are modelled sequentially; the authority snapshot is an interleaving of whole loads and stores.
- BoundedString.TruncateInPlace: returns the truncated string instead of reusing the buffer, so the single-allocation promise is not captured.
- Content hashes and JSON bodies are arbitrary functions, JSON an arbitrary invertible codec.
- The scheduler, the pending pool, pull coordination, election, gateway and SLURM drivers, the worker protocol and the Python command-line front end.
