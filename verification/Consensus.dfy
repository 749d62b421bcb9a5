/**
 The primary's two-round agreement on which silent secondaries to restart
 (crates/dynrunner-manager-distributed/src/primary/consensus/).  Instants are
 nanoseconds; peer sets that travel in sorted vectors are sets here.
 */
module Consensus {
  import opened Wrappers

  type Peer = string

  const RESOLUTION_DEADLINE: nat := 15_000_000_000
  const CONFIRMATION_DEADLINE: nat := 5_000_000_000
  const CONFIRMATION_MAX_RETRIES: nat := 1

  function FailoverQuorumThreshold(n: nat): nat {
    (n + 1) / 2 + 1
  }

  datatype MeshSnapshot = MeshSnapshot(livePeerCount: nat, totalKnownMembers: nat)

  datatype Tally = Tally(stillSuspicious: seq<Peer>, resolvedSince: seq<Peer>)

  /** What is fixed when a round is opened. */
  datatype Round = Round(id: nat, primaryEpoch: nat, memberGen: nat, expected: set<Peer>)

  datatype Reason =
    | SideGate(mesh: MeshSnapshot)
    | ResponderTimeout(nonResponders: set<Peer>)

  datatype State =
    | Idle
    | SchedulingSuspect(suspects: set<Peer>)
    | BroadcastSuspect(round: Round, suspects: set<Peer>, startedAt: int)
    | CollectingResolutions(round: Round, suspects: set<Peer>, deadline: int, resolved: set<Peer>)
    | BroadcastRestart(round: Round, suspects: set<Peer>, retriesLeft: nat)
    | CollectingConfirmations(round: Round, suspects: set<Peer>, received: map<Peer, Tally>, deadline: int,
                              retriesLeft: nat)
    | Restart(targets: set<Peer>)
    | DropSuspicion
    | AbortRound(reason: Reason)

  datatype Output =
    | NoChange
    | SuspectPeers(round: Round, suspected: set<Peer>)
    | RestartRequest(round: Round, candidates: set<Peer>)
    | Dropped
    | Restarted(targets: set<Peer>)
    | Aborted(reason: Reason)

  datatype Fsm = Fsm(state: State, minted: nat)

  // ---------------------------------------------------------------------
  // The transitions
  // ---------------------------------------------------------------------

  function Seeded(s: State, suspects: set<Peer>): State {
    if s.Idle? || s.SchedulingSuspect? then
      if suspects == {} then Idle else SchedulingSuspect(suspects)
    else s
  }

  function Cleared(s: State, peer: Peer): State {
    if s.SchedulingSuspect? && peer in s.suspects then Seeded(s, s.suspects - {peer}) else s
  }

  function Escalated(f: Fsm, now: int, primaryEpoch: nat, memberGen: nat, expected: set<Peer>): Fsm {
    if !f.state.SchedulingSuspect? then f
    else if f.state.suspects == {} then f.(state := Idle)
    else
      var round := Round(f.minted + 1, primaryEpoch, memberGen, expected);
      Fsm(BroadcastSuspect(round, f.state.suspects, now), f.minted + 1)
  }

  function Resolved(s: State, id: nat, peer: Peer): State {
    if s.CollectingResolutions? && s.round.id == id && peer in s.suspects then
      s.(suspects := s.suspects - {peer}, resolved := s.resolved + {peer})
    else if (s.CollectingConfirmations? || s.BroadcastRestart?) && s.round.id == id then
      s.(suspects := s.suspects - {peer})
    else s
  }

  function Confirmed(s: State, id: nat, responder: Peer, tally: Tally): State {
    if s.CollectingConfirmations? && s.round.id == id && responder in s.round.expected then
      s.(suspects := s.suspects - Elements(tally.resolvedSince), received := s.received[responder := tally])
    else s
  }

  /** The candidates every recorded answer still suspects and none retracts. */
  function Agreed(suspects: set<Peer>, received: map<Peer, Tally>): set<Peer> {
    set t | t in suspects &&
            forall r :: r in received ==> t in received[r].stillSuspicious && t !in received[r].resolvedSince
  }

  function Asked(round: Round, suspects: set<Peer>, retries: nat, now: int, mesh: MeshSnapshot): (State, Output) {
    if mesh.livePeerCount < FailoverQuorumThreshold(mesh.totalKnownMembers) then (Idle, Aborted(SideGate(mesh)))
    else
      (CollectingConfirmations(round, suspects, map[], now + CONFIRMATION_DEADLINE, retries),
       RestartRequest(round, suspects))
  }

  function Polled(s: State, now: int, mesh: MeshSnapshot): (State, Output) {
    match s
    case BroadcastSuspect(round, suspects, startedAt) =>
      (CollectingResolutions(round, suspects, startedAt + RESOLUTION_DEADLINE, {}), SuspectPeers(round, suspects))
    case CollectingResolutions(round, suspects, deadline, _) =>
      if suspects == {} then (Idle, Dropped)
      else if now >= deadline then Asked(round, suspects, CONFIRMATION_MAX_RETRIES, now, mesh)
      else (s, NoChange)
    case BroadcastRestart(round, suspects, retries) => Asked(round, suspects, retries, now, mesh)
    case CollectingConfirmations(round, suspects, received, deadline, retries) =>
      if round.expected <= received.Keys then
        var targets := Agreed(suspects, received);
        (Idle, if targets == {} then Dropped else Restarted(targets))
      else if now < deadline then (s, NoChange)
      else if retries > 0 then
        (s.(retriesLeft := retries - 1, deadline := now + CONFIRMATION_DEADLINE), RestartRequest(round, suspects))
      else (Idle, Aborted(ResponderTimeout(round.expected - received.Keys)))
    case Restart(targets) => (s, NoChange)
    case DropSuspicion => (s, NoChange)
    case AbortRound(_) => (s, NoChange)
    case Idle => (s, NoChange)
    case SchedulingSuspect(_) => (s, NoChange)
  }

  /** `n` polls in a row at one instant: where they lead and what they return. */
  function PolledTimes(s: State, now: int, mesh: nat -> MeshSnapshot, n: nat): (State, seq<Output>) {
    if n == 0 then (s, [])
    else
      var (before, outs) := PolledTimes(s, now, mesh, n - 1);
      var (after, out) := Polled(before, now, mesh(n - 1));
      (after, outs + [out])
  }

  function InFlightSuspects(s: State): set<Peer> {
    if s.Idle? || s.Restart? || s.DropSuspicion? || s.AbortRound? then {} else s.suspects
  }

  // ---------------------------------------------------------------------
  // What every reachable machine satisfies, and how much a round has left
  // ---------------------------------------------------------------------

  /** Between calls the machine is never in `BroadcastRestart` or a terminal state,
      never holds an empty local suspicion, and its round id was minted. */
  predicate Sound(f: Fsm) {
    match f.state
    case Idle => true
    case SchedulingSuspect(suspects) => suspects != {}
    case BroadcastSuspect(round, suspects, _) => 1 <= round.id <= f.minted && suspects != {}
    case CollectingResolutions(round, _, _, _) => 1 <= round.id <= f.minted
    case CollectingConfirmations(round, _, received, _, retries) =>
      1 <= round.id <= f.minted && retries <= CONFIRMATION_MAX_RETRIES && received.Keys <= round.expected
    case BroadcastRestart(_, _, _) => false
    case Restart(_) => false
    case DropSuspicion => false
    case AbortRound(_) => false
  }

  predicate InRound(s: State) {
    s.BroadcastSuspect? || s.CollectingResolutions? || s.BroadcastRestart? || s.CollectingConfirmations?
  }

  /** How many more signals this round can still raise. */
  function Rank(s: State): nat {
    match s
    case BroadcastSuspect(_, _, _) => 4
    case CollectingResolutions(_, _, _, _) => 3
    case BroadcastRestart(_, _, retries) => retries + 2
    case CollectingConfirmations(_, _, _, _, retries) => retries + 1
    case Idle => 0
    case SchedulingSuspect(_) => 0
    case Restart(_) => 0
    case DropSuspicion => 0
    case AbortRound(_) => 0
  }

  lemma PollSpendsRank(f: Fsm, now: int, mesh: MeshSnapshot)
    requires Sound(f)
    ensures Sound(f.(state := Polled(f.state, now, mesh).0))
    ensures Polled(f.state, now, mesh).1.NoChange? ==> Polled(f.state, now, mesh).0 == f.state
    ensures !Polled(f.state, now, mesh).1.NoChange? ==> Rank(Polled(f.state, now, mesh).0) < Rank(f.state)
    ensures forall other :: Polled(f.state, now, mesh).1.NoChange? ==> Polled(f.state, now, other).1.NoChange?
  {
  }

  // ---------------------------------------------------------------------
  // The object
  // ---------------------------------------------------------------------

  class ConsensusFsm {
    var state: State
    var minted: nat

    function View(): Fsm
      reads this
    {
      Fsm(state, minted)
    }

    constructor ()
      ensures View() == Fsm(Idle, 0)
    {
      state, minted := Idle, 0;
    }

    method SetSchedulingSuspect(suspects: set<Peer>)
      modifies this
      ensures View() == old(View()).(state := Seeded(old(state), suspects))
    {
      match state {
        case Idle =>
          if suspects != {} { state := SchedulingSuspect(suspects); }
        case SchedulingSuspect(_) =>
          state := if suspects == {} then Idle else SchedulingSuspect(suspects);
        case _ =>
      }
    }

    method ClearSchedulingSuspectIfPresent(peer: Peer)
      modifies this
      ensures View() == old(View()).(state := Cleared(old(state), peer))
    {
      if state.SchedulingSuspect? && peer in state.suspects {
        state := SchedulingSuspect(state.suspects - {peer});
        if state.suspects == {} {
          state := Idle;
        }
      }
    }

    method Escalate(now: int, primaryEpoch: nat, memberGen: nat, expected: set<Peer>)
      modifies this
      ensures View() == Escalated(old(View()), now, primaryEpoch, memberGen, expected)
    {
      if !state.SchedulingSuspect? { return; }
      var suspects := state.suspects;
      if suspects == {} {
        state := Idle;
        return;
      }
      minted := minted + 1;
      state := BroadcastSuspect(Round(minted, primaryEpoch, memberGen, expected), suspects, now);
    }

    method ApplyResolved(id: nat, observer: Peer, peer: Peer)
      modifies this
      ensures View() == old(View()).(state := Resolved(old(state), id, peer))
    {
      match state {
        case CollectingResolutions(round, suspects, _, resolved) =>
          if round.id == id && peer in suspects {
            state := state.(suspects := suspects - {peer}, resolved := resolved + {peer});
          }
        case CollectingConfirmations(round, suspects, received, deadline, retries) =>
          if round.id == id {
            state := CollectingConfirmations(round, suspects - {peer}, received, deadline, retries);
          }
        case BroadcastRestart(round, suspects, retries) =>
          if round.id == id {
            state := BroadcastRestart(round, suspects - {peer}, retries);
          }
        case _ =>
      }
    }

    method ApplyConfirm(id: nat, responder: Peer, stillSuspicious: seq<Peer>, resolvedSince: seq<Peer>)
      modifies this
      ensures View() == old(View()).(state := Confirmed(old(state), id, responder,
                                                        Tally(stillSuspicious, resolvedSince)))
    {
      if !state.CollectingConfirmations? || state.round.id != id || responder !in state.round.expected {
        return;
      }
      var suspects := state.suspects;
      for i := 0 to |resolvedSince|
        invariant suspects == state.suspects - Elements(resolvedSince[..i])
        invariant state == old(state) && minted == old(minted)
      {
        assert resolvedSince[..i + 1] == resolvedSince[..i] + [resolvedSince[i]];
        suspects := suspects - {resolvedSince[i]};
      }
      assert resolvedSince[..|resolvedSince|] == resolvedSince;
      state := state.(suspects := suspects,
                      received := state.received[responder := Tally(stillSuspicious, resolvedSince)]);
    }

    /** Hands a terminal state over as its signal and goes back to `Idle`. */
    method FinalizeTerminal() returns (out: Output)
      requires state.Restart? || state.DropSuspicion? || state.AbortRound?
      modifies this
      ensures state == Idle && minted == old(minted)
      ensures old(state).Restart? ==> out == Restarted(old(state).targets)
      ensures old(state).DropSuspicion? ==> out == Dropped
      ensures old(state).AbortRound? ==> out == Aborted(old(state).reason)
    {
      match state {
        case Restart(targets) => out := Restarted(targets);
        case DropSuspicion => out := Dropped;
        case AbortRound(reason) => out := Aborted(reason);
      }
      state := Idle;
    }

    method PollConfirmations(now: int) returns (out: Output)
      requires state.CollectingConfirmations?
      modifies this
      ensures forall mesh :: (state, out) == Polled(old(state), now, mesh)
      ensures minted == old(minted)
    {
      var round, received, suspects := state.round, state.received, state.suspects;
      if forall id | id in round.expected :: id in received {
        assert round.expected <= received.Keys;
        var targets := IntersectTallies(suspects, received);
        state := if targets == {} then DropSuspicion else Restart(targets);
        out := FinalizeTerminal();
        return;
      }
      assert !(round.expected <= received.Keys);
      if now < state.deadline {
        return NoChange;
      }
      if state.retriesLeft > 0 {
        state := state.(retriesLeft := state.retriesLeft - 1, deadline := now + CONFIRMATION_DEADLINE);
        return RestartRequest(round, suspects);
      }
      state := AbortRound(ResponderTimeout(round.expected - received.Keys));
      out := FinalizeTerminal();
    }

    method Poll(now: int, mesh: MeshSnapshot) returns (out: Output)
      modifies this
      ensures (state, out) == Polled(old(state), now, mesh)
      ensures minted == old(minted)
    {
      if state.BroadcastSuspect? {
        var round, suspects := state.round, state.suspects;
        state := CollectingResolutions(round, suspects, state.startedAt + RESOLUTION_DEADLINE, {});
        return SuspectPeers(round, suspects);
      }
      if state.CollectingResolutions? && state.suspects == {} {
        state := DropSuspicion;
        out := FinalizeTerminal();
        return;
      }
      if state.CollectingResolutions? && now >= state.deadline {
        state := BroadcastRestart(state.round, state.suspects, CONFIRMATION_MAX_RETRIES);
      }
      if state.BroadcastRestart? {
        if mesh.livePeerCount < FailoverQuorumThreshold(mesh.totalKnownMembers) {
          state := AbortRound(SideGate(mesh));
          out := FinalizeTerminal();
          return;
        }
        var round, suspects := state.round, state.suspects;
        state := CollectingConfirmations(round, suspects, map[], now + CONFIRMATION_DEADLINE, state.retriesLeft);
        return RestartRequest(round, suspects);
      }
      if state.CollectingConfirmations? {
        out := PollConfirmations(now);
        return;
      }
      out := NoChange;
    }

    /** The coordinator's drive loop: poll at one instant until nothing happens, at
        most eight times.  The cap is never what ends it. */
    method Drive(now: int, mesh: nat -> MeshSnapshot) returns (signals: seq<Output>, settled: bool)
      requires Sound(View())
      modifies this
      ensures settled && |signals| <= Rank(old(state)) <= 4
      ensures Sound(View()) && minted == old(minted)
      ensures (state, signals) == PolledTimes(old(state), now, mesh, |signals|)
      ensures forall i :: 0 <= i < |signals| ==> signals[i] != NoChange
      ensures forall other :: Polled(state, now, other) == (state, NoChange)
    {
      signals, settled := [], false;
      for i := 0 to 8
        invariant Sound(View()) && minted == old(minted)
        invariant |signals| == i && i + Rank(state) <= Rank(old(state)) && !settled
        invariant (state, signals) == PolledTimes(old(state), now, mesh, i)
        invariant forall j :: 0 <= j < i ==> signals[j] != NoChange
      {
        PollSpendsRank(View(), now, mesh(i));
        var out := Poll(now, mesh(i));
        if out.NoChange? {
          settled := true;
          return;
        }
        signals := signals + [out];
      }
    }
  }

  ghost predicate AgreedSoFar(t: Peer, received: map<Peer, Tally>, todo: set<Peer>) {
    forall r :: r in received && r !in todo ==> t in received[r].stillSuspicious && t !in received[r].resolvedSince
  }

  /** The answers folded one by one over the candidates. */
  method IntersectTallies(suspects: set<Peer>, received: map<Peer, Tally>) returns (targets: set<Peer>)
    ensures targets == Agreed(suspects, received)
  {
    targets := suspects;
    var todo := received.Keys;
    while todo != {}
      invariant todo <= received.Keys
      invariant forall t :: t in targets <==> t in suspects && AgreedSoFar(t, received, todo)
      decreases |todo|
    {
      var r :| r in todo;
      var yes := Elements(received[r].stillSuspicious);
      targets := set t | t in targets && t in yes;
      targets := targets - Elements(received[r].resolvedSince);
      todo := todo - {r};
    }
  }

  /** The coordinator's snapshot: everyone it knows who is not under suspicion now. */
  function CoordinatorSnapshot(secondaries: set<Peer>, s: State): MeshSnapshot {
    MeshSnapshot(|secondaries - InFlightSuspects(s)|, |secondaries| + 1)
  }

  function ExpectedResponders(secondaries: set<Peer>, suspects: set<Peer>): set<Peer> {
    secondaries - suspects
  }
}
