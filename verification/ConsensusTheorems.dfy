/**
 Safety and progress of the restart agreement over every run: any sequence of
 calls, with frames lost, repeated, reordered, stale or invented.
 */
module ConsensusTheorems {
  import opened Wrappers
  import opened Consensus

  datatype Event =
    | Seed(suspects: set<Peer>)
    | Clear(peer: Peer)
    | Escalate(now: int, primaryEpoch: nat, memberGen: nat, expected: set<Peer>)
    | ResolvedPeer(id: nat, observer: Peer, peer: Peer)
    | RestartConfirm(id: nat, responder: Peer, tally: Tally)
    | Poll(now: int, mesh: MeshSnapshot)

  function Step(f: Fsm, e: Event): (Fsm, Output) {
    match e
    case Seed(suspects) => (f.(state := Seeded(f.state, suspects)), NoChange)
    case Clear(peer) => (f.(state := Cleared(f.state, peer)), NoChange)
    case Escalate(now, epoch, gen, expected) => (Escalated(f, now, epoch, gen, expected), NoChange)
    case ResolvedPeer(id, _, peer) => (f.(state := Resolved(f.state, id, peer)), NoChange)
    case RestartConfirm(id, responder, tally) => (f.(state := Confirmed(f.state, id, responder, tally)), NoChange)
    case Poll(now, mesh) => var (s, out) := Polled(f.state, now, mesh); (f.(state := s), out)
  }

  /** The machine after the first `n` calls. */
  function After(run: seq<Event>, n: nat): Fsm
    requires n <= |run|
  {
    if n == 0 then Fsm(Idle, 0) else Step(After(run, n - 1), run[n - 1]).0
  }

  /** What call number `n` returned. */
  function Out(run: seq<Event>, n: nat): Output
    requires n < |run|
  {
    Step(After(run, n), run[n]).1
  }

  // ---------------------------------------------------------------------
  // What the frames of a run say, without the machine
  // ---------------------------------------------------------------------

  predicate Refutes(e: Event, id: nat, peer: Peer) {
    e.ResolvedPeer? && e.id == id && e.peer == peer
  }

  predicate Retracts(e: Event, round: Round, peer: Peer) {
    e.RestartConfirm? && e.id == round.id && e.responder in round.expected && peer in e.tally.resolvedSince
  }

  /** Somebody vouched for `peer` in round `id`. */
  ghost predicate Refuted(run: seq<Event>, lo: nat, hi: nat, id: nat, peer: Peer)
    requires hi <= |run|
  {
    exists k :: lo <= k < hi && Refutes(run[k], id, peer)
  }

  /** Some expected responder withdrew `peer`. */
  ghost predicate Retracted(run: seq<Event>, lo: nat, hi: nat, round: Round, peer: Peer)
    requires hi <= |run|
  {
    exists k :: lo <= k < hi && Retracts(run[k], round, peer)
  }

  /** The latest answer of `r` among calls `lo..hi`. */
  function LastAnswer(run: seq<Event>, lo: nat, hi: nat, id: nat, r: Peer): Option<Tally>
    requires hi <= |run|
  {
    if hi <= lo then None
    else if run[hi - 1].RestartConfirm? && run[hi - 1].id == id && run[hi - 1].responder == r then
      Some(run[hi - 1].tally)
    else LastAnswer(run, lo, hi - 1, id, r)
  }

  ghost predicate AllAnswered(run: seq<Event>, lo: nat, hi: nat, round: Round)
    requires hi <= |run|
  {
    forall r :: r in round.expected ==> LastAnswer(run, lo, hi, round.id, r).Some?
  }

  predicate Endorses(answer: Option<Tally>, peer: Peer) {
    answer.Some? && peer in answer.value.stillSuspicious
  }

  /** Every expected responder's latest answer still suspects `peer`. */
  ghost predicate Endorsed(run: seq<Event>, lo: nat, hi: nat, round: Round, peer: Peer)
    requires hi <= |run|
  {
    forall r :: r in round.expected ==> Endorses(LastAnswer(run, lo, hi, round.id, r), peer)
  }

  // ---------------------------------------------------------------------
  // The milestones of a round: escalated at `e`, opened at `s`, asked at `q`
  // ---------------------------------------------------------------------

  /** Somebody heard from `peer` again among calls `lo..hi`. */
  ghost predicate Recovered(run: seq<Event>, lo: nat, hi: nat, peer: Peer)
    requires hi <= |run|
  {
    exists k :: lo <= k < hi && run[k] == Clear(peer)
  }

  /** The seed at call `k`, made outside any round, is the last before call `n`, and no
      escalation was tried since: what it suspects and nobody heard from is `suspects`. */
  ghost predicate SeededAt(run: seq<Event>, k: nat, n: nat, suspects: set<Peer>)
    requires n <= |run|
  {
    && k < n && run[k].Seed? && !InRound(After(run, k).state)
    && (forall j :: k < j < n ==> !run[j].Seed? && !run[j].Escalate?)
    && (forall t :: t in suspects <==> t in run[k].suspects && !Recovered(run, k + 1, n, t))
  }

  ghost predicate LocallySuspected(run: seq<Event>, n: nat, suspects: set<Peer>)
    requires n <= |run|
  {
    suspects != {} && exists k :: SeededAt(run, k, n, suspects)
  }

  /** Call `e` is an escalation with something locally suspected. */
  ghost predicate Escalates(run: seq<Event>, e: nat) {
    e < |run| && run[e].Escalate? && exists suspects :: LocallySuspected(run, e, suspects)
  }

  /** How many rounds the first `n` calls opened. */
  ghost function Rounds(run: seq<Event>, n: nat): nat
    requires n <= |run|
  {
    if n == 0 then 0 else Rounds(run, n - 1) + if Escalates(run, n - 1) then 1 else 0
  }

  /** Call `e` turned the local suspicion of `suspects` into round `round`, the next one. */
  ghost predicate EscalatedAt(run: seq<Event>, e: nat, round: Round, suspects: set<Peer>) {
    e < |run| && run[e].Escalate? && LocallySuspected(run, e, suspects)
    && round == Round(Rounds(run, e) + 1, run[e].primaryEpoch, run[e].memberGen, run[e].expected)
  }

  /** Call `s` broadcast the suspicion. */
  ghost predicate OpenedAt(run: seq<Event>, e: nat, s: nat, round: Round, suspects: set<Peer>) {
    EscalatedAt(run, e, round, suspects)
    && e < s < |run| && run[s].Poll? && Out(run, s) == SuspectPeers(round, suspects)
  }

  /** Suspected at the start and vouched for by nobody between `s` and `n`. */
  ghost predicate StillSuspected(run: seq<Event>, s: nat, n: nat, round: Round, suspects: set<Peer>, t: Peer)
    requires n <= |run|
  {
    t in suspects && !Refuted(run, s + 1, n, round.id, t)
  }

  /** Call `q` first asked for confirmation: after the whole resolution window, on the
      quorum's side, about exactly the peers nobody had vouched for. */
  ghost predicate AskedAt(run: seq<Event>, e: nat, s: nat, q: nat, round: Round, suspects: set<Peer>) {
    OpenedAt(run, e, s, round, suspects)
    && s < q < |run| && run[q].Poll? && Out(run, q).RestartRequest? && Out(run, q).round == round
    && (forall t :: t in Out(run, q).candidates <==> StillSuspected(run, s, q, round, suspects, t))
    && run[q].now >= run[e].now + 15_000_000_000
    && 2 * run[q].mesh.livePeerCount >= run[q].mesh.totalKnownMembers + 2
  }

  ghost predicate Candidate(run: seq<Event>, s: nat, q: nat, n: nat, round: Round, suspects: set<Peer>, t: Peer)
    requires n <= |run|
  {
    StillSuspected(run, s, n, round, suspects, t) && !Retracted(run, q + 1, n, round, t)
  }

  /** How often the question was repeated among calls `lo..hi`. */
  function Repeats(run: seq<Event>, lo: nat, hi: nat): nat
    requires hi <= |run|
  {
    if hi <= lo then 0 else Repeats(run, lo, hi - 1) + if Out(run, hi - 1).RestartRequest? then 1 else 0
  }

  /** When the question was last put among calls `q..hi`. */
  function LastAsked(run: seq<Event>, q: nat, hi: nat): int
    requires q < hi <= |run| && run[q].Poll?
  {
    if hi == q + 1 then run[q].now
    else if run[hi - 1].Poll? && Out(run, hi - 1).RestartRequest? then run[hi - 1].now
    else LastAsked(run, q, hi - 1)
  }

  // ---------------------------------------------------------------------
  // The machine's state is a summary of the frames since the milestones
  // ---------------------------------------------------------------------

  ghost predicate Resolving(run: seq<Event>, n: nat, e: nat, s: nat, st: State, suspects: set<Peer>)
    requires n <= |run| && st.CollectingResolutions?
  {
    OpenedAt(run, e, s, st.round, suspects) && s < n
    && st.deadline == run[e].now + 15_000_000_000 && st.resolved == suspects - st.suspects
    && forall t :: t in st.suspects <==> StillSuspected(run, s, n, st.round, suspects, t)
  }

  ghost predicate Answer(run: seq<Event>, q: nat, n: nat, st: State, r: Peer)
    requires n <= |run| && st.CollectingConfirmations?
  {
    LastAnswer(run, q + 1, n, st.round.id, r) == if r in st.received then Some(st.received[r]) else None
  }

  ghost predicate Confirming(run: seq<Event>, n: nat, e: nat, s: nat, q: nat, st: State, suspects: set<Peer>)
    requires n <= |run| && st.CollectingConfirmations?
  {
    AskedAt(run, e, s, q, st.round, suspects) && q < n
    && st.deadline == LastAsked(run, q, n) + 5_000_000_000
    && st.retriesLeft + Repeats(run, q + 1, n) == 1
    && (forall t :: t in st.suspects <==> Candidate(run, s, q, n, st.round, suspects, t))
    && (forall r :: r in st.round.expected ==> Answer(run, q, n, st, r))
    && st.received.Keys <= st.round.expected
  }

  ghost predicate Summary(run: seq<Event>, n: nat, e: nat, s: nat, q: nat, suspects: set<Peer>)
    requires n <= |run|
  {
    var st := After(run, n).state;
    match st
    case Idle => true
    case SchedulingSuspect(set0) => LocallySuspected(run, n, set0)
    case BroadcastSuspect(round, set0, started) =>
      EscalatedAt(run, e, round, suspects) && e < n && set0 == suspects && started == run[e].now
    case CollectingResolutions(_, _, _, _) => Resolving(run, n, e, s, st, suspects)
    case CollectingConfirmations(_, _, _, _, _) => Confirming(run, n, e, s, q, st, suspects)
    case _ => false
  }

  lemma StillSuspectedStep(run: seq<Event>, s: nat, n: nat, round: Round, suspects: set<Peer>, t: Peer)
    requires s < n < |run|
    ensures StillSuspected(run, s, n + 1, round, suspects, t) <==>
            StillSuspected(run, s, n, round, suspects, t) && !Refutes(run[n], round.id, t)
  {
  }

  lemma CandidateStep(run: seq<Event>, s: nat, q: nat, n: nat, round: Round, suspects: set<Peer>, t: Peer)
    requires s < q < n < |run|
    ensures Candidate(run, s, q, n + 1, round, suspects, t) <==>
            Candidate(run, s, q, n, round, suspects, t)
            && !Refutes(run[n], round.id, t) && !Retracts(run[n], round, t)
  {
  }

  lemma ResolvingStep(run: seq<Event>, n: nat, e: nat, s: nat, suspects: set<Peer>)
    requires n < |run| && After(run, n).state.CollectingResolutions?
    requires After(run, n + 1).state.CollectingResolutions?
    requires Resolving(run, n, e, s, After(run, n).state, suspects)
    ensures Resolving(run, n + 1, e, s, After(run, n + 1).state, suspects)
  {
    var st, st' := After(run, n).state, After(run, n + 1).state;
    assert st'.round == st.round && st'.deadline == st.deadline;
    forall t ensures t in st'.suspects <==> StillSuspected(run, s, n + 1, st.round, suspects, t) {
      StillSuspectedStep(run, s, n, st.round, suspects, t);
    }
  }

  lemma ConfirmingStep(run: seq<Event>, n: nat, e: nat, s: nat, q: nat, suspects: set<Peer>)
    requires n < |run| && After(run, n).state.CollectingConfirmations?
    requires After(run, n + 1).state.CollectingConfirmations?
    requires Confirming(run, n, e, s, q, After(run, n).state, suspects)
    ensures Confirming(run, n + 1, e, s, q, After(run, n + 1).state, suspects)
  {
    var st, st' := After(run, n).state, After(run, n + 1).state;
    assert st'.round == st.round;
    forall t ensures t in st'.suspects <==> Candidate(run, s, q, n + 1, st.round, suspects, t) {
      CandidateStep(run, s, q, n, st.round, suspects, t);
    }
    forall r | r in st.round.expected ensures Answer(run, q, n + 1, st', r) {
      assert Answer(run, q, n, st, r);
    }
  }

  /** First question: the candidates are the unresolved suspects, nothing answered yet. */
  lemma AskingStep(run: seq<Event>, n: nat, e: nat, s: nat, suspects: set<Peer>)
    requires n < |run| && After(run, n).state.CollectingResolutions?
    requires After(run, n + 1).state.CollectingConfirmations?
    requires Resolving(run, n, e, s, After(run, n).state, suspects)
    ensures Confirming(run, n + 1, e, s, n, After(run, n + 1).state, suspects)
  {
  }

  lemma StepKeepsSound(f: Fsm, e: Event)
    requires Sound(f)
    ensures Sound(Step(f, e).0)
  {
  }

  /** Between calls no run ever rests in `BroadcastRestart` or a terminal state. */
  lemma {:induction false} EveryStateIsSound(run: seq<Event>, n: nat)
    requires n <= |run|
    ensures Sound(After(run, n))
  {
    if n > 0 {
      EveryStateIsSound(run, n - 1);
      StepKeepsSound(After(run, n - 1), run[n - 1]);
    }
  }

  /** The machine outside a round, said by the frames: `suspects` is what the last seed
      left, nobody having escalated it. */
  predicate Holds(s: State, suspects: set<Peer>) {
    s == if suspects == {} then Idle else SchedulingSuspect(suspects)
  }

  lemma {:induction false} SeedsHold(run: seq<Event>, k: nat, n: nat, suspects: set<Peer>)
    requires n <= |run| && SeededAt(run, k, n, suspects)
    ensures Holds(After(run, n).state, suspects)
    decreases n
  {
    EveryStateIsSound(run, k);
    if n == k + 1 {
      assert suspects == run[k].suspects;
    } else {
      var m := n - 1;
      var earlier := set t | t in run[k].suspects && !Recovered(run, k + 1, m, t);
      SeedsHold(run, k, m, earlier);
      assert suspects == if run[m].Clear? then earlier - {run[m].peer} else earlier by {
        forall t ensures Recovered(run, k + 1, n, t) <==> Recovered(run, k + 1, m, t) || run[m] == Clear(t) {
        }
      }
    }
  }

  /** Between rounds the machine holds exactly what the frames leave suspected. */
  lemma {:induction false} LocalSuspicionExactly(run: seq<Event>, n: nat, suspects: set<Peer>)
    requires n <= |run|
    ensures After(run, n).state == SchedulingSuspect(suspects) <==> LocallySuspected(run, n, suspects)
    decreases n
  {
    EveryStateIsSound(run, n);
    if LocallySuspected(run, n, suspects) {
      var k :| SeededAt(run, k, n, suspects);
      SeedsHold(run, k, n, suspects);
    }
    if n > 0 && After(run, n).state == SchedulingSuspect(suspects) {
      var m := n - 1;
      if run[m].Seed? {
        assert SeededAt(run, m, n, suspects);
      } else {
        var earlier := After(run, m).state.suspects;
        LocalSuspicionExactly(run, m, earlier);
        var k :| SeededAt(run, k, m, earlier);
        SeedsCarry(run, k, m, earlier, suspects);
      }
    }
  }

  lemma SeedsCarry(run: seq<Event>, k: nat, m: nat, earlier: set<Peer>, suspects: set<Peer>)
    requires m < |run| && SeededAt(run, k, m, earlier) && !run[m].Seed? && !run[m].Escalate?
    requires suspects == if run[m].Clear? then earlier - {run[m].peer} else earlier
    ensures SeededAt(run, k, m + 1, suspects)
  {
    forall t ensures t in suspects <==> t in run[k].suspects && !Recovered(run, k + 1, m + 1, t) {
      assert Recovered(run, k + 1, m + 1, t) <==> Recovered(run, k + 1, m, t) || run[m] == Clear(t);
    }
  }

  /** Round ids count the rounds opened. */
  lemma {:induction false} RoundsAreNumbered(run: seq<Event>, n: nat)
    requires n <= |run|
    ensures After(run, n).minted == Rounds(run, n)
  {
    if n > 0 {
      var m := n - 1;
      RoundsAreNumbered(run, m);
      EveryStateIsSound(run, m);
      var st := After(run, m).state;
      if st.SchedulingSuspect? {
        LocalSuspicionExactly(run, m, st.suspects);
      } else if Escalates(run, m) {
        var suspects :| LocallySuspected(run, m, suspects);
        LocalSuspicionExactly(run, m, suspects);
      }
    }
  }

  /** Which state a call can lead to from which. */
  lemma Edges(f: Fsm, ev: Event)
    requires Sound(f)
    ensures var st' := Step(f, ev).0.state;
            (st'.BroadcastSuspect? ==>
               st' == f.state
               || (ev.Escalate? && f.state == SchedulingSuspect(st'.suspects) && st'.startedAt == ev.now
                   && st'.round == Round(f.minted + 1, ev.primaryEpoch, ev.memberGen, ev.expected)))
            && (st'.CollectingResolutions? ==> f.state.BroadcastSuspect? || f.state.CollectingResolutions?)
            && (st'.CollectingConfirmations? ==> f.state.CollectingResolutions? || f.state.CollectingConfirmations?)
  {
  }

  lemma SummaryStep(run: seq<Event>, n: nat, e: nat, s: nat, q: nat, suspects: set<Peer>)
    returns (e': nat, s': nat, q': nat, suspects': set<Peer>)
    requires n < |run| && Sound(After(run, n)) && Sound(After(run, n + 1)) && Summary(run, n, e, s, q, suspects)
    ensures Summary(run, n + 1, e', s', q', suspects')
  {
    e', s', q', suspects' := e, s, q, suspects;
    var st, st' := After(run, n).state, After(run, n + 1).state;
    Edges(After(run, n), run[n]);
    if st'.SchedulingSuspect? {
      LocalSuspicionExactly(run, n + 1, st'.suspects);
    } else if st'.BroadcastSuspect? && st' != st {
      LocalSuspicionExactly(run, n, st'.suspects);
      RoundsAreNumbered(run, n);
      e', suspects' := n, st'.suspects;
    } else if st'.CollectingResolutions? && st.BroadcastSuspect? {
      s' := n;
      FirstResolving(run, n, e, suspects);
    } else if st'.CollectingResolutions? {
      ResolvingStep(run, n, e, s, suspects);
    } else if st'.CollectingConfirmations? && st.CollectingResolutions? {
      q' := n;
      AskingStep(run, n, e, s, suspects);
    } else if st'.CollectingConfirmations? {
      ConfirmingStep(run, n, e, s, q, suspects);
    }
  }

  /** Every state of every run is explained by the frames since its milestones. */
  lemma {:induction false} EveryStateIsExplained(run: seq<Event>, n: nat)
    returns (e: nat, s: nat, q: nat, suspects: set<Peer>)
    requires n <= |run|
    ensures Summary(run, n, e, s, q, suspects)
    decreases n
  {
    if n == 0 {
      e, s, q, suspects := 0, 0, 0, {};
    } else {
      e, s, q, suspects := EveryStateIsExplained(run, n - 1);
      EveryStateIsSound(run, n - 1);
      EveryStateIsSound(run, n);
      e, s, q, suspects := SummaryStep(run, n - 1, e, s, q, suspects);
    }
  }

  lemma FirstResolving(run: seq<Event>, n: nat, e: nat, suspects: set<Peer>)
    requires n < |run| && After(run, n).state.BroadcastSuspect?
    requires After(run, n + 1).state.CollectingResolutions?
    requires EscalatedAt(run, e, After(run, n).state.round, suspects) && e < n
    requires After(run, n).state.suspects == suspects && After(run, n).state.startedAt == run[e].now
    ensures Resolving(run, n + 1, e, n, After(run, n + 1).state, suspects)
  {
  }

  // ---------------------------------------------------------------------
  // Safety
  // ---------------------------------------------------------------------

  /** The agreed batch, said without the machine. */
  ghost predicate Agreement(run: seq<Event>, s: nat, q: nat, n: nat, round: Round, suspects: set<Peer>, t: Peer)
    requires n <= |run|
  {
    Candidate(run, s, q, n, round, suspects, t) && Endorsed(run, q + 1, n, round, t)
  }

  ghost predicate Reflects(run: seq<Event>, q: nat, n: nat, round: Round, received: map<Peer, Tally>)
    requires n <= |run|
  {
    received.Keys == round.expected
    && forall r :: r in received ==> LastAnswer(run, q + 1, n, round.id, r) == Some(received[r])
  }

  lemma AgreedEndorses(run: seq<Event>, q: nat, n: nat, round: Round, received: map<Peer, Tally>, t: Peer)
    requires n <= |run| && Reflects(run, q, n, round, received) && !Retracted(run, q + 1, n, round, t)
    ensures Endorsed(run, q + 1, n, round, t) <==>
            forall r :: r in received ==> t in received[r].stillSuspicious && t !in received[r].resolvedSince
  {
    if Endorsed(run, q + 1, n, round, t) {
      forall r | r in received ensures t in received[r].stillSuspicious && t !in received[r].resolvedSince {
        assert Endorses(LastAnswer(run, q + 1, n, round.id, r), t);
        if t in received[r].resolvedSince {
          AnswersWereHeard(run, q + 1, n, round, r, t);
        }
      }
    }
  }

  lemma AgreedIsAgreement(run: seq<Event>, n: nat, e: nat, s: nat, q: nat, st: State, suspects: set<Peer>, t: Peer)
    requires n <= |run| && st.CollectingConfirmations? && Confirming(run, n, e, s, q, st, suspects)
    requires st.round.expected <= st.received.Keys
    ensures t in Agreed(st.suspects, st.received) <==> Agreement(run, s, q, n, st.round, suspects, t)
  {
    assert t in st.suspects <==> Candidate(run, s, q, n, st.round, suspects, t);
    if t in st.suspects {
      forall r | r in st.received ensures LastAnswer(run, q + 1, n, st.round.id, r) == Some(st.received[r]) {
        assert Answer(run, q, n, st, r);
      }
      AgreedEndorses(run, q, n, st.round, st.received, t);
    }
  }

  lemma {:induction false} AnswersWereHeard(run: seq<Event>, lo: nat, hi: nat, round: Round, r: Peer, t: Peer)
    requires hi <= |run| && r in round.expected && LastAnswer(run, lo, hi, round.id, r).Some?
    requires t in LastAnswer(run, lo, hi, round.id, r).value.resolvedSince
    ensures Retracted(run, lo, hi, round, t)
  {
    var e := run[hi - 1];
    if e.RestartConfirm? && e.id == round.id && e.responder == r {
      assert Retracts(run[hi - 1], round, t);
    } else {
      AnswersWereHeard(run, lo, hi - 1, round, r, t);
    }
  }

  /** A restart is ordered only at the end of a full round, and its targets are
      exactly the peers that were suspected at the escalation, vouched for by nobody
      since the suspicion went out, retracted by no expected responder since the
      question was put, and still suspected in every expected responder's latest answer. */
  lemma RestartsAreAgreed(run: seq<Event>, n: nat)
    returns (e: nat, s: nat, q: nat, round: Round, suspects: set<Peer>)
    requires n < |run| && Out(run, n).Restarted?
    ensures AskedAt(run, e, s, q, round, suspects) && q < n && Repeats(run, q + 1, n) <= 1
    ensures AllAnswered(run, q + 1, n, round)
    ensures Out(run, n).targets != {}
    ensures forall t :: t in Out(run, n).targets <==> Agreement(run, s, q, n, round, suspects, t)
  {
    e, s, q, suspects := EveryStateIsExplained(run, n);
    var st := After(run, n).state;
    round := st.round;
    forall r | r in round.expected ensures LastAnswer(run, q + 1, n, round.id, r).Some? {
      assert Answer(run, q, n, st, r);
    }
    forall t ensures t in Out(run, n).targets <==> Agreement(run, s, q, n, round, suspects, t) {
      AgreedIsAgreement(run, n, e, s, q, st, suspects, t);
    }
  }

  /** A suspicion goes out once per escalation, and names what was locally suspected. */
  lemma BroadcastsAreEscalations(run: seq<Event>, n: nat)
    returns (e: nat, round: Round, suspects: set<Peer>)
    requires n < |run| && Out(run, n).SuspectPeers?
    ensures OpenedAt(run, e, n, round, suspects)
  {
    var s, q;
    e, s, q, suspects := EveryStateIsExplained(run, n);
    round := After(run, n).state.round;
  }

  /** Whenever the question is put, first or again, it names exactly the suspects nobody
      has vouched for or withdrawn by then; again only after a whole window. */
  lemma QuestionsNameTheRest(run: seq<Event>, n: nat)
    returns (e: nat, s: nat, q: nat, round: Round, suspects: set<Peer>)
    requires n < |run| && Out(run, n).RestartRequest?
    ensures AskedAt(run, e, s, q, round, suspects) && q <= n && Out(run, n).round == round
    ensures forall t :: t in Out(run, n).candidates <==> Candidate(run, s, q, n, round, suspects, t)
    ensures q < n ==> run[n].Poll? && run[n].now >= LastAsked(run, q, n) + 5_000_000_000
  {
    e, s, q, suspects := EveryStateIsExplained(run, n);
    var st := After(run, n).state;
    round := st.round;
    if st.CollectingResolutions? {
      q := n;
      AskingStep(run, n, e, s, suspects);
    }
  }

  /** With the coordinator's own list of responders, a restart was endorsed by every
      secondary outside the suspicion. */
  lemma EverybodyElseEndorses(run: seq<Event>, n: nat, t: Peer, secondaries: set<Peer>, p: Peer)
    returns (e: nat, q: nat, round: Round, suspects: set<Peer>)
    requires n < |run| && Out(run, n).Restarted? && t in Out(run, n).targets
    ensures EscalatedAt(run, e, round, suspects) && t in suspects && e < q < n
    ensures run[e].expected == ExpectedResponders(secondaries, suspects) && p in secondaries && p !in suspects ==>
              Endorses(LastAnswer(run, q + 1, n, round.id, p), t)
  {
    var s;
    e, s, q, round, suspects := RestartsAreAgreed(run, n);
    assert Agreement(run, s, q, n, round, suspects, t);
  }

  /** Whom the coordinator leaves out of its count of the living: everybody still under
      suspicion, before a round and at every stage of it. */
  lemma UnderSuspicionExactly(run: seq<Event>, n: nat, t: Peer)
    returns (e: nat, s: nat, q: nat, suspects: set<Peer>)
    requires n <= |run|
    ensures var st := After(run, n).state;
            t in InFlightSuspects(st) <==>
              || (st.SchedulingSuspect? && LocallySuspected(run, n, st.suspects) && t in st.suspects)
              || (st.BroadcastSuspect? && EscalatedAt(run, e, st.round, suspects) && t in suspects)
              || (st.CollectingResolutions? && OpenedAt(run, e, s, st.round, suspects)
                  && StillSuspected(run, s, n, st.round, suspects, t))
              || (st.CollectingConfirmations? && AskedAt(run, e, s, q, st.round, suspects)
                  && Candidate(run, s, q, n, st.round, suspects, t))
  {
    EveryStateIsSound(run, n);
    e, s, q, suspects := EveryStateIsExplained(run, n);
  }

  /** Conversely, once every expected responder has answered, the next poll ends the
      round: with a restart of the agreed batch, or by dropping an empty one. */
  lemma AnsweredRoundsEnd(run: seq<Event>, n: nat, t: Peer)
    returns (e: nat, s: nat, q: nat, suspects: set<Peer>)
    requires n < |run| && run[n].Poll? && After(run, n).state.CollectingConfirmations?
    ensures AskedAt(run, e, s, q, After(run, n).state.round, suspects) && q < n
    ensures AllAnswered(run, q + 1, n, After(run, n).state.round) ==>
              (Agreement(run, s, q, n, After(run, n).state.round, suspects, t) ==>
                 Out(run, n).Restarted? && t in Out(run, n).targets)
              && (Out(run, n).Restarted? || Out(run, n).Dropped?)
    ensures !AllAnswered(run, q + 1, n, After(run, n).state.round) ==>
              !Out(run, n).Restarted? && !Out(run, n).Dropped?
  {
    e, s, q, suspects := EveryStateIsExplained(run, n);
    var st := After(run, n).state;
    AnsweredIffReceived(run, n, e, s, q, suspects);
    if AllAnswered(run, q + 1, n, st.round) {
      AgreedIsAgreement(run, n, e, s, q, st, suspects, t);
    }
  }

  lemma AnsweredIffReceived(run: seq<Event>, n: nat, e: nat, s: nat, q: nat, suspects: set<Peer>)
    requires n <= |run| && After(run, n).state.CollectingConfirmations?
    requires Confirming(run, n, e, s, q, After(run, n).state, suspects)
    ensures AllAnswered(run, q + 1, n, After(run, n).state.round) <==>
            After(run, n).state.round.expected <= After(run, n).state.received.Keys
  {
  }

  /** Suspicion is dropped only when everybody suspected was vouched for, or everybody
      asked answered and nobody is left in the agreed batch. */
  lemma DropsAreEarned(run: seq<Event>, n: nat)
    returns (e: nat, s: nat, q: nat, round: Round, suspects: set<Peer>)
    requires n < |run| && Out(run, n).Dropped?
    ensures OpenedAt(run, e, s, round, suspects) && s < n
    ensures (forall t :: t in suspects ==> Refuted(run, s + 1, n, round.id, t))
            || (AskedAt(run, e, s, q, round, suspects) && q < n && AllAnswered(run, q + 1, n, round)
                && forall t :: !Agreement(run, s, q, n, round, suspects, t))
  {
    e, s, q, suspects := EveryStateIsExplained(run, n);
    var st := After(run, n).state;
    round := st.round;
    if st.CollectingResolutions? {
      forall t | t in suspects ensures Refuted(run, s + 1, n, round.id, t) {
        assert t in st.suspects <==> StillSuspected(run, s, n, st.round, suspects, t);
      }
    } else {
      AnsweredIffReceived(run, n, e, s, q, suspects);
      forall t ensures !Agreement(run, s, q, n, round, suspects, t) {
        AgreedIsAgreement(run, n, e, s, q, st, suspects, t);
      }
    }
  }

  /** A round is aborted only off the quorum's side, or when the repeated question too
      went unanswered for its whole window; the report names exactly the silent. */
  lemma AbortsAreEarned(run: seq<Event>, n: nat)
    returns (e: nat, s: nat, q: nat, round: Round, suspects: set<Peer>)
    requires n < |run| && Out(run, n).Aborted?
    ensures run[n].Poll? && OpenedAt(run, e, s, round, suspects) && s < n
    ensures Out(run, n).reason.SideGate? ==>
              run[n].now >= run[e].now + 15_000_000_000
              && 2 * run[n].mesh.livePeerCount < run[n].mesh.totalKnownMembers + 2
              && exists t :: StillSuspected(run, s, n, round, suspects, t)
    ensures Out(run, n).reason.ResponderTimeout? ==>
              AskedAt(run, e, s, q, round, suspects) && q < n
              && Repeats(run, q + 1, n) == 1
              && run[n].now >= LastAsked(run, q, n) + 5_000_000_000
              && Out(run, n).reason.nonResponders != {}
              && forall r :: r in Out(run, n).reason.nonResponders <==>
                             r in round.expected && LastAnswer(run, q + 1, n, round.id, r).None?
  {
    e, s, q, suspects := EveryStateIsExplained(run, n);
    var st := After(run, n).state;
    round := st.round;
    if st.CollectingResolutions? {
      var t :| t in st.suspects;
      assert StillSuspected(run, s, n, round, suspects, t);
    } else {
      forall r | r in round.expected
        ensures LastAnswer(run, q + 1, n, round.id, r).None? <==> r !in st.received
      {
        assert Answer(run, q, n, st, r);
      }
      assert Out(run, n).reason.nonResponders == round.expected - st.received.Keys;
      assert !(round.expected <= st.received.Keys);
      var silent :| silent in round.expected && silent !in st.received;
      assert silent in Out(run, n).reason.nonResponders;
    }
  }

  // ---------------------------------------------------------------------
  // Progress
  // ---------------------------------------------------------------------

  function Raised(f: Fsm, e: Event, id: nat): nat {
    if !Step(f, e).1.NoChange? && InRound(f.state) && f.state.round.id == id then 1 else 0
  }

  /** Signals raised by round `id` among the first `n` calls. */
  function Signals(run: seq<Event>, n: nat, id: nat): nat
    requires n <= |run|
  {
    if n == 0 then 0 else Signals(run, n - 1, id) + Raised(After(run, n - 1), run[n - 1], id)
  }

  function SignalsLeft(f: Fsm, id: nat): nat {
    if id > f.minted then 4 else if InRound(f.state) && f.state.round.id == id then Rank(f.state) else 0
  }

  /** A poll stays silent exactly while the round is waiting: before its deadline with
      something left to wait for. */
  predicate Waiting(s: State, now: int) {
    match s
    case CollectingResolutions(_, suspects, deadline, _) => suspects != {} && now < deadline
    case CollectingConfirmations(round, _, received, deadline, _) =>
      !(round.expected <= received.Keys) && now < deadline
    case _ => false
  }

  lemma SilentIffWaiting(run: seq<Event>, n: nat)
    requires n < |run| && run[n].Poll? && InRound(After(run, n).state)
    ensures Out(run, n).NoChange? <==> Waiting(After(run, n).state, run[n].now)
  {
  }

  /** No round raises more than four signals in any run: the suspicion, the question,
      its one repetition, and one ending. */
  lemma {:induction false} RoundsAreBounded(run: seq<Event>, n: nat, id: nat)
    requires n <= |run|
    ensures Signals(run, n, id) + SignalsLeft(After(run, n), id) <= 4
    decreases n
  {
    if n > 0 {
      var m := n - 1;
      RoundsAreBounded(run, m, id);
      EveryStateIsSound(run, m);
      SignalsStep(run, m, n, id);
    }
  }

  lemma SignalsStep(run: seq<Event>, m: nat, n: nat, id: nat)
    requires n == m + 1 <= |run| && Sound(After(run, m))
    ensures Signals(run, n, id) + SignalsLeft(After(run, n), id)
         <= Signals(run, m, id) + SignalsLeft(After(run, m), id)
  {
    StepSpends(After(run, m), run[m], id);
  }

  /** A poll at or past the deadline the round has at that moment. */
  predicate IsOverdue(f: Fsm, e: Event, id: nat) {
    e.Poll? && InRound(f.state) && f.state.round.id == id
    && match f.state
       case CollectingResolutions(_, _, deadline, _) => e.now >= deadline
       case CollectingConfirmations(_, _, _, deadline, _) => e.now >= deadline
       case _ => true
  }

  function OverduePolls(run: seq<Event>, n: nat, id: nat): nat
    requires n <= |run|
  {
    if n == 0 then 0
    else OverduePolls(run, n - 1, id) + if IsOverdue(After(run, n - 1), run[n - 1], id) then 1 else 0
  }

  lemma {:induction false} OverduePollsSignal(run: seq<Event>, n: nat, id: nat)
    requires n <= |run|
    ensures OverduePolls(run, n, id) <= Signals(run, n, id)
  {
    if n > 0 {
      OverduePollsSignal(run, n - 1, id);
      if IsOverdue(After(run, n - 1), run[n - 1], id) { SilentIffWaiting(run, n - 1); }
    }
  }

  /** So a round sees at most four overdue polls in any run, and after the fourth it is
      over, whatever else is called in between. */
  lemma FourOverduePollsEndARound(run: seq<Event>, n: nat, id: nat)
    requires n <= |run|
    ensures OverduePolls(run, n, id) <= 4
    ensures OverduePolls(run, n, id) == 4 ==> !(InRound(After(run, n).state) && After(run, n).state.round.id == id)
  {
    OverduePollsSignal(run, n, id);
    RoundsAreBounded(run, n, id);
    EveryStateIsSound(run, n);
  }

  lemma StepSpends(f: Fsm, e: Event, id: nat)
    requires Sound(f)
    ensures Raised(f, e, id) + SignalsLeft(Step(f, e).0, id) <= SignalsLeft(f, id)
  {
  }

  // ---------------------------------------------------------------------
  // The side gate, and the round with nobody to ask
  // ---------------------------------------------------------------------

  /** The gate is a majority of the members with one vote to spare: nothing less passes
      and nothing more is asked. */
  lemma GateExactly(live: nat, members: nat)
    ensures live >= FailoverQuorumThreshold(members) <==> 2 * live >= members + 2
  {
  }

  /** Two sides that do not overlap cannot both pass the gate. */
  lemma AtMostOneSidePasses(members: set<Peer>, left: set<Peer>, right: set<Peer>)
    requires left <= members && right <= members && left !! right
    ensures |left| >= FailoverQuorumThreshold(|members|) ==> |right| < FailoverQuorumThreshold(|members|)
  {
    assert |left + right| == |left| + |right|;
    Sizes(left + right, members);
  }

  lemma Sizes(a: set<Peer>, b: set<Peer>)
    requires a <= b
    ensures |a| <= |b|
  {
    assert b == a + (b - a);
    assert |b| == |a| + |b - a|;
  }

  /** Whether anybody confirmed a restart is decided at the escalation: some expected
      responder endorsed every target exactly when there was one to ask. */
  lemma RestartsNeedAPartnerExactly(run: seq<Event>, n: nat, t: Peer)
    returns (e: nat, q: nat, round: Round)
    requires n < |run| && Out(run, n).Restarted? && t in Out(run, n).targets
    ensures e < q < n && run[e].Escalate? && round.expected == run[e].expected
    ensures (exists r :: r in round.expected && Endorses(LastAnswer(run, q + 1, n, round.id, r), t)) <==>
            run[e].expected != {}
  {
    var s, suspects;
    e, s, q, round, suspects := RestartsAreAgreed(run, n);
    assert Agreement(run, s, q, n, round, suspects, t);
    if run[e].expected != {} {
      var r :| r in round.expected;
      assert Endorses(LastAnswer(run, q + 1, n, round.id, r), t);
    }
  }

  /** With nobody expected to confirm, a round past its window restarts every peer still
      suspected at once, exactly when enough others passed for live at the gate. */
  lemma NobodyToAsk(run: seq<Event>, n: nat, secondaries: set<Peer>)
    requires n + 1 < |run| && After(run, n).state.CollectingResolutions?
    requires After(run, n).state.round.expected == {} && After(run, n).state.suspects != {}
    requires run[n].Poll? && run[n + 1].Poll? && run[n].now >= After(run, n).state.deadline
    requires run[n].mesh == CoordinatorSnapshot(secondaries, After(run, n).state)
    ensures Out(run, n + 1) == Restarted(After(run, n).state.suspects) <==>
            2 * |secondaries - After(run, n).state.suspects| >= |secondaries| + 3
  {
  }

  lemma AllBut(all: set<Peer>, some: set<Peer>)
    ensures all - (all - some) == all * some
  {
  }

  /** The same, with those left named. */
  lemma NobodyLeftToAsk(run: seq<Event>, n: nat, secondaries: set<Peer>, left: set<Peer>)
    requires n + 1 < |run| && After(run, n).state.CollectingResolutions?
    requires After(run, n).state.round.expected == {} && After(run, n).state.suspects == left != {}
    requires run[n].Poll? && run[n + 1].Poll? && run[n].now >= After(run, n).state.deadline
    requires run[n].mesh == CoordinatorSnapshot(secondaries, SchedulingSuspect(left))
    ensures Out(run, n + 1) == Restarted(left) <==> 2 * |secondaries - left| >= |secondaries| + 3
  {
    NobodyToAsk(run, n, secondaries);
  }

  /** Such rounds are reached: let every secondary be suspected, and some of them be
      vouched for.  The rest are restarted, though nobody was asked and no confirmation
      ever arrives, exactly when those vouched for make up the quorum. */
  lemma RestartWithoutAnyConfirmation(run: seq<Event>, n: nat, all: set<Peer>, vouched: seq<Peer>)
    requires |run| == n + 5 + |vouched| && After(run, n).state.Idle? && all - Elements(vouched) != {}
    requires run[n] == Seed(all) && run[n + 1] == Escalate(0, 1, 1, ExpectedResponders(all, all))
    requires run[n + 2] == Poll(0, CoordinatorSnapshot(all, SchedulingSuspect(all)))
    requires forall k :: 0 <= k < |vouched| ==> Refutes(run[n + 3 + k], After(run, n).minted + 1, vouched[k])
    requires var left := SchedulingSuspect(all - Elements(vouched));
             run[|run| - 2] == run[|run| - 1] == Poll(RESOLUTION_DEADLINE, CoordinatorSnapshot(all, left))
    ensures Out(run, |run| - 1) == Restarted(all - Elements(vouched)) <==>
            2 * |all * Elements(vouched)| >= |all| + 3
  {
    var m := n + 3 + |vouched|;
    var st := VouchedState(run, n, all, vouched);
    assert m == |run| - 2 && run[m] == run[m + 1];
    NobodyLeftToAsk(run, m, all, all - Elements(vouched));
    AllBut(all, Elements(vouched));
  }

  lemma VouchedState(run: seq<Event>, n: nat, all: set<Peer>, vouched: seq<Peer>) returns (st: State)
    requires n + 3 + |vouched| <= |run| && After(run, n).state.Idle? && all != {}
    requires run[n] == Seed(all) && run[n + 1] == Escalate(0, 1, 1, ExpectedResponders(all, all)) && run[n + 2].Poll?
    requires forall k :: 0 <= k < |vouched| ==> Refutes(run[n + 3 + k], After(run, n).minted + 1, vouched[k])
    ensures st == After(run, n + 3 + |vouched|).state && st.CollectingResolutions? && st.round.expected == {}
    ensures st.suspects == all - Elements(vouched) && st.deadline == RESOLUTION_DEADLINE
  {
    st := After(run, n + 3 + |vouched|).state;
    assert ExpectedResponders(all, all) == {};
    OpeningCalls(run, n, all);
    VouchingCalls(run, n + 3, Round(After(run, n).minted + 1, 1, 1, {}), all, vouched, |vouched|);
    assert vouched[..|vouched|] == vouched;
  }

  lemma OpeningCalls(run: seq<Event>, n: nat, all: set<Peer>)
    requires n + 3 <= |run| && all != {} && After(run, n).state.Idle?
    requires run[n] == Seed(all) && run[n + 1] == Escalate(0, 1, 1, {}) && run[n + 2].Poll?
    ensures var m := After(run, n).minted + 1;
            After(run, n + 3) ==
            Fsm(CollectingResolutions(Round(m, 1, 1, {}), all, RESOLUTION_DEADLINE, {}), m)
  {
    var m := After(run, n).minted + 1;
    assert After(run, n + 1) == Fsm(SchedulingSuspect(all), m - 1);
    assert After(run, n + 2) == Fsm(BroadcastSuspect(Round(m, 1, 1, {}), all, 0), m);
  }

  lemma {:induction false} VouchingCalls(run: seq<Event>, n: nat, round: Round, all: set<Peer>, vouched: seq<Peer>,
                                         k: nat)
    requires n + |vouched| <= |run| && k <= |vouched|
    requires After(run, n) == Fsm(CollectingResolutions(round, all, RESOLUTION_DEADLINE, {}), round.id)
    requires forall i :: 0 <= i < |vouched| ==> Refutes(run[n + i], round.id, vouched[i])
    ensures var st := After(run, n + k).state;
            st.CollectingResolutions? && st.round == round && st.deadline == RESOLUTION_DEADLINE
            && st.suspects == all - Elements(vouched[..k])
  {
    if k > 0 {
      VouchingCalls(run, n, round, all, vouched, k - 1);
      assert Refutes(run[n + (k - 1)], round.id, vouched[k - 1]);
      assert vouched[..k] == vouched[..k - 1] + [vouched[k - 1]];
      assert Elements(vouched[..k]) == Elements(vouched[..k - 1]) + {vouched[k - 1]};
      assert After(run, n + k) == Step(After(run, n + (k - 1)), run[n + (k - 1)]).0;
    }
  }
}
