/**
 Reaping captured host PIDs (crates/dynrunner-reap/src/reap.rs, process_probe.rs).

 The host answers every query as it pleases: each answer is an arbitrary
 function of how much has already happened.  Every query and every effect is
 appended to `log`, so the contracts speak about whole runs.
 */
module Reap {
  import opened Wrappers

  type Pid = nat
  type Duration = nat

  const SECOND: nat := 1_000_000_000

  datatype Signum = SigTerm | SigKill

  datatype Event =
    | Probed(target: ReapTarget, answer: Option<nat>)
    | Signalled(pid: Pid, signal: Signum)
    | Slept(time: Duration)
    | Exists(alive: bool)
    | Pgrep(child: Option<Pid>)
    | ExecTerm(victim: Pid)
    | KillPid1
    | Stopped(seconds: nat)
    | RmAll
    | WroteSentinel
    | RemovedScratch
    | RemovedPidFile

  /** The world outside the manager. */
  class Host {
    const startTimeOf: (nat, Pid) -> Option<nat>
    const containerExists: nat -> bool
    const firstChild: nat -> Option<Pid>
    var log: seq<Event>

    constructor (startTimeOf: (nat, Pid) -> Option<nat>, containerExists: nat -> bool, firstChild: nat -> Option<Pid>)
      ensures log == [] && this.startTimeOf == startTimeOf
    {
      this.startTimeOf := startTimeOf;
      this.containerExists := containerExists;
      this.firstChild := firstChild;
      log := [];
    }

    /** Reads the start time of the target's PID as it is now. */
    method ReadStartTime(t: ReapTarget) returns (answer: Option<nat>)
      modifies this
      ensures answer == startTimeOf(|old(log)|, t.pid)
      ensures log == old(log) + [Probed(t, answer)]
    {
      answer := startTimeOf(|log|, t.pid);
      log := log + [Probed(t, answer)];
    }

    method AskContainer() returns (alive: bool)
      modifies this
      ensures log == old(log) + [Exists(alive)]
    {
      alive := containerExists(|log|);
      log := log + [Exists(alive)];
    }

    method AskFirstChild() returns (child: Option<Pid>)
      modifies this
      ensures log == old(log) + [Pgrep(child)]
    {
      child := firstChild(|log|);
      log := log + [Pgrep(child)];
    }

    method Do(e: Event)
      modifies this
      ensures log == old(log) + [e]
    {
      log := log + [e];
    }
  }

  datatype ReapTarget = ReapTarget(pid: Pid, startTime: Option<nat>)
  datatype ReapGraces = ReapGraces(sigterm: Duration, sigkill: Duration)
  datatype ReapStatus = NotApplicable | ConfirmedGone | OrphanSurvives

  function Worse(a: ReapStatus, b: ReapStatus): ReapStatus {
    if a.OrphanSurvives? || b.OrphanSurvives? then OrphanSurvives
    else if a.ConfirmedGone? || b.ConfirmedGone? then ConfirmedGone
    else NotApplicable
  }

  /** Whole one-second ticks that start before `grace` has elapsed. */
  function Ticks(grace: Duration): nat {
    (grace + SECOND - 1) / SECOND
  }

  /** `n` rounds of "still the same process", one second apart. */
  function StillThere(t: ReapTarget, n: nat): seq<Event> {
    if n == 0 then [] else StillThere(t, n - 1) + [Probed(t, t.startTime), Slept(SECOND)]
  }

  /** A probe every second, each seeing the target. */
  lemma {:induction false} StillThereExactly(t: ReapTarget, n: nat)
    ensures |StillThere(t, n)| == 2 * n
    ensures forall i :: 0 <= i < n ==>
              StillThere(t, n)[2 * i] == Probed(t, t.startTime) && StillThere(t, n)[2 * i + 1] == Slept(1_000_000_000)
  {
    if n > 0 { StillThereExactly(t, n - 1); }
  }

  /** `e` confirms that a target's PID still names the captured process. */
  ghost predicate Confirms(e: Event, targets: seq<ReapTarget>, pid: Pid) {
    exists t :: t in targets && t.pid == pid && t.startTime.Some? && e == Probed(t, t.startTime)
  }

  /** Every signal follows, with nothing in between, a probe that confirmed its target. */
  ghost predicate Guarded(log: seq<Event>, targets: seq<ReapTarget>) {
    forall i :: 0 <= i < |log| && log[i].Signalled? ==> i > 0 && Confirms(log[i - 1], targets, log[i].pid)
  }

  /** The captured process outlives everything. */
  ghost predicate AlwaysThere(host: Host, t: ReapTarget) {
    t.startTime.Some? && forall n :: host.startTimeOf(n, t.pid) == t.startTime
  }

  /** The captured process is already gone, or was never identified. */
  ghost predicate NeverThere(host: Host, t: ReapTarget) {
    t.startTime.Some? ==> forall n :: host.startTimeOf(n, t.pid) != t.startTime
  }

  /** The last probe of `t` in the log still saw the captured process. */
  predicate SeenAlive(log: seq<Event>, t: ReapTarget) {
    log != [] && t.startTime.Some?
    && var last := log[|log| - 1];
       if last.Probed? && last.target == t then last.answer == t.startTime else SeenAlive(log[..|log| - 1], t)
  }

  /** Every probe in the log is of `t`. */
  ghost predicate ProbesOnly(log: seq<Event>, t: ReapTarget) {
    forall i :: 0 <= i < |log| && log[i].Probed? ==> log[i].target == t
  }

  /** A stretch of log that ends with a probe of `t` decides about `t`. */
  lemma LastProbeDecides(a: seq<Event>, b: seq<Event>, t: ReapTarget)
    requires b != [] && b[|b| - 1].Probed? && b[|b| - 1].target == t
    ensures SeenAlive(a + b, t) <==> EndsAlive(b, t)
  {
  }

  lemma {:induction false} ProbelessPrefix(a: seq<Event>, b: seq<Event>, t: ReapTarget)
    requires forall i :: 0 <= i < |a| ==> !a[i].Probed?
    ensures SeenAlive(a + b, t) <==> SeenAlive(b, t)
  {
    if b == [] {
      OtherProbesKeep([], a, t);
      assert a + b == [] + a;
    } else {
      assert (a + b)[..|a + b| - 1] == a + b[..|b| - 1];
      ProbelessPrefix(a, b[..|b| - 1], t);
    }
  }

  /** A stretch of log without probes of `t` decides nothing about `t`. */
  lemma {:induction false} OtherProbesKeep(a: seq<Event>, b: seq<Event>, t: ReapTarget)
    requires forall i :: 0 <= i < |b| && b[i].Probed? ==> b[i].target != t
    ensures SeenAlive(a + b, t) <==> SeenAlive(a, t)
  {
    if b == [] {
      assert a + b == a;
    } else {
      assert (a + b)[..|a + b| - 1] == a + b[..|b| - 1];
      OtherProbesKeep(a, b[..|b| - 1], t);
    }
  }

  /** The signals a stretch of log sent, in order. */
  function Signals(log: seq<Event>): seq<Signum> {
    if log == [] then []
    else Signals(log[..|log| - 1]) + if log[|log| - 1].Signalled? then [log[|log| - 1].signal] else []
  }

  ghost predicate OnlyProbes(log: seq<Event>) {
    forall i :: 0 <= i < |log| ==> log[i].Probed? || log[i].Slept?
  }

  ghost predicate OnlyReaping(log: seq<Event>) {
    forall i :: 0 <= i < |log| ==> log[i].Probed? || log[i].Slept? || log[i].Signalled?
  }

  lemma {:induction false} StillThereProbes(t: ReapTarget, n: nat)
    ensures OnlyProbes(StillThere(t, n)) && ProbesOnly(StillThere(t, n), t)
  {
    if n > 0 { StillThereProbes(t, n - 1); }
  }

  lemma {:induction false} SignalsConcat(a: seq<Event>, b: seq<Event>)
    ensures Signals(a + b) == Signals(a) + Signals(b)
  {
    if b == [] {
      assert a + b == a;
    } else {
      assert (a + b)[..|a + b| - 1] == a + b[..|b| - 1];
      SignalsConcat(a, b[..|b| - 1]);
    }
  }

  lemma {:induction false} ProbesSendNothing(log: seq<Event>)
    requires OnlyProbes(log)
    ensures Signals(log) == []
  {
    if log != [] { ProbesSendNothing(log[..|log| - 1]); }
  }

  method IsSameProcess(host: Host, t: ReapTarget) returns (same: bool)
    modifies host
    ensures t.startTime.None? ==> !same && host.log == old(host.log)
    ensures t.startTime.Some? ==>
      var answer := host.startTimeOf(|old(host.log)|, t.pid);
      host.log == old(host.log) + [Probed(t, answer)] && (same <==> answer == t.startTime)
  {
    if t.startTime.None? {
      return false;
    }
    var answer := host.ReadStartTime(t);
    return answer == t.startTime;
  }

  /** The whole grace, and the target still there at its end. */
  function WaitedOut(t: ReapTarget, grace: Duration): seq<Event> {
    StillThere(t, Ticks(grace)) + [Probed(t, t.startTime)]
  }

  /** Every probe but the last saw the target, one second apart; the last did not. */
  ghost predicate LeftDuring(t: ReapTarget, grace: Duration, log: seq<Event>) {
    exists polls, answer ::
      0 <= polls <= Ticks(grace) && answer != t.startTime && log == StillThere(t, polls) + [Probed(t, answer)]
  }

  /** How a wait of at most `grace` for an identified target went. */
  ghost predicate Waited(t: ReapTarget, grace: Duration, log: seq<Event>, gone: bool) {
    if gone then LeftDuring(t, grace, log) else log == WaitedOut(t, grace)
  }

  lemma WaitShape(t: ReapTarget, grace: Duration, log: seq<Event>, gone: bool)
    requires t.startTime.Some? && Waited(t, grace, log, gone)
    ensures Waiting(log, t) && (gone <==> !EndsAlive(log, t))
  {
    if gone {
      var polls, answer :|
        0 <= polls <= Ticks(grace) && answer != t.startTime && log == StillThere(t, polls) + [Probed(t, answer)];
      StillThereProbes(t, polls);
    } else {
      StillThereProbes(t, Ticks(grace));
    }
  }

  /** A grace is covered by the fewest whole seconds. */
  lemma TicksCover(grace: Duration)
    ensures Ticks(grace) * SECOND >= grace
    ensures Ticks(grace) > 0 ==> (Ticks(grace) - 1) * SECOND < grace
  {
  }

  /** Polls identity once a second through the grace window and once at its end;
      the last probe decides. */
  method WaitForPidGone(host: Host, t: ReapTarget, grace: Duration) returns (gone: bool, ghost added: seq<Event>)
    modifies host
    ensures host.log == old(host.log) + added
    ensures t.startTime.None? ==> gone && added == []
    ensures t.startTime.Some? ==> Waited(t, grace, added, gone)
    ensures AlwaysThere(host, t) ==> !gone
    ensures NeverThere(host, t) ==> gone
  {
    var elapsed := 0;
    ghost var polls := 0;
    while elapsed < grace
      invariant elapsed == polls * SECOND && polls <= Ticks(grace)
      invariant t.startTime.None? ==> polls == 0
      invariant host.log == old(host.log) + StillThere(t, polls)
      decreases grace + SECOND - elapsed
    {
      var same := IsSameProcess(host, t);
      if !same {
        added := if t.startTime.None? then [] else StillThere(t, polls) + [host.log[|host.log| - 1]];
        return true, added;
      }
      host.Do(Slept(SECOND));
      elapsed := elapsed + SECOND;
      polls := polls + 1;
    }
    var same := IsSameProcess(host, t);
    gone := !same;
    added := if t.startTime.None? then [] else StillThere(t, polls) + [host.log[|host.log| - 1]];
  }

  /** How one target's reap ended, read off the log alone. */
  ghost predicate EndsAlive(log: seq<Event>, t: ReapTarget) {
    log != [] && t.startTime.Some? && log[|log| - 1] == Probed(t, t.startTime)
  }

  ghost predicate EndsWithProbe(log: seq<Event>, t: ReapTarget) {
    log != [] && log[|log| - 1].Probed? && log[|log| - 1].target == t
  }

  /** What one target's reap leaves in the log: at most SIGTERM then SIGKILL, each
      guarded, probes of that target only, and the last probe tells whether it is
      reported as surviving, which takes both signals and both graces. */
  ghost predicate Reaped(t: ReapTarget, graces: ReapGraces, log: seq<Event>, status: ReapStatus) {
    && (|log| <= 1 || GivenTime(t, graces, log, status))
    && OnlyReaping(log) && Guarded(log, [t]) && ProbesOnly(log, t)
    && (if t.startTime.None? then log == [] else EndsWithProbe(log, t))
    && status == (if EndsAlive(log, t) then OrphanSurvives else ConfirmedGone)
    && (Signals(log) == [] || Signals(log) == [SigTerm] || Signals(log) == [SigTerm, SigKill])
    && (status.OrphanSurvives? ==> Signals(log) == [SigTerm, SigKill])
  }

  /** SIGTERM, wait, SIGKILL, wait, verify. */
  method ReapOne(host: Host, t: ReapTarget, graces: ReapGraces) returns (status: ReapStatus, ghost added: seq<Event>)
    modifies host
    ensures host.log == old(host.log) + added && Reaped(t, graces, added, status)
    ensures AlwaysThere(host, t) ==> status.OrphanSurvives?
    ensures NeverThere(host, t) ==> status.ConfirmedGone?
  {
    var same := IsSameProcess(host, t);
    if !same {
      added := if t.startTime.None? then [] else [host.log[|host.log| - 1]];
      GoneAtOnce(t, graces, added);
      return ConfirmedGone, added;
    }
    ghost var wait, rest;
    status, wait, rest := Escalate(host, t, graces);
    added := [Probed(t, t.startTime), Signalled(t.pid, SigTerm)] + wait + rest;
    FromProbeOn(old(host.log), Probed(t, t.startTime), Signalled(t.pid, SigTerm), wait, rest);
    EscalationReaps(t, graces, wait, rest, status);
  }

  lemma FromProbeOn(log: seq<Event>, probe: Event, term: Event, wait: seq<Event>, rest: seq<Event>)
    ensures log + [probe] + [term] + wait + rest == log + ([probe, term] + wait + rest)
  {
  }

  lemma LogGrows(log: seq<Event>, a: seq<Event>, b: seq<Event>)
    ensures (log + a) + b == log + (a + b)
  {
  }

  /** A wait for `t`: probes of `t` only, and one of them last. */
  ghost predicate Waiting(log: seq<Event>, t: ReapTarget) {
    OnlyProbes(log) && ProbesOnly(log, t) && EndsWithProbe(log, t)
  }

  /** What follows SIGTERM: the target leaves within the first grace, or that grace is
      waited out in full and SIGKILL follows with the second, which decides. */
  ghost predicate Escalated(
    t: ReapTarget, graces: ReapGraces, wait: seq<Event>, rest: seq<Event>, status: ReapStatus)
  {
    || (LeftDuring(t, graces.sigterm, wait) && rest == [] && status == ConfirmedGone)
    || (wait == WaitedOut(t, graces.sigterm) && rest != [] && rest[0] == Signalled(t.pid, SigKill)
        && Waited(t, graces.sigkill, rest[1..], status != OrphanSurvives) && status != NotApplicable)
  }

  ghost predicate GivenTime(t: ReapTarget, graces: ReapGraces, log: seq<Event>, status: ReapStatus) {
    exists wait, rest ::
      log == [Probed(t, t.startTime), Signalled(t.pid, SigTerm)] + wait + rest && Escalated(t, graces, wait, rest, status)
  }

  lemma BriefReapsSendNothing(log: seq<Event>)
    ensures |log| <= 1 && (log != [] ==> log[0].Probed?) ==> Signals(log) == []
  {
    if |log| == 1 && log[0].Probed? { assert log[..0] == []; }
  }

  /** SIGKILL is sent only after the whole first grace, and a survivor is reported only
      after the whole second one. */
  lemma KilledOnlyAfterTheGrace(t: ReapTarget, graces: ReapGraces, log: seq<Event>, status: ReapStatus)
    returns (last: seq<Event>)
    requires t.startTime.Some? && Reaped(t, graces, log, status) && SigKill in Signals(log)
    ensures log == [Probed(t, t.startTime), Signalled(t.pid, SigTerm)]
                   + StillThere(t, Ticks(graces.sigterm)) + [Probed(t, t.startTime)]
                   + [Signalled(t.pid, SigKill)] + last
    ensures status.OrphanSurvives? ==> last == StillThere(t, Ticks(graces.sigkill)) + [Probed(t, t.startTime)]
    ensures status.ConfirmedGone? ==> LeftDuring(t, graces.sigkill, last)
  {
    BriefReapsSendNothing(log);
    var wait, rest :| log == [Probed(t, t.startTime), Signalled(t.pid, SigTerm)] + wait + rest
                      && Escalated(t, graces, wait, rest, status);
    if rest == [] {
      LeavingIsNotKilling(t, graces, wait);
    } else {
      last := rest[1..];
      LaidOut([Probed(t, t.startTime), Signalled(t.pid, SigTerm)], StillThere(t, Ticks(graces.sigterm)),
              Probed(t, t.startTime), Signalled(t.pid, SigKill), rest);
    }
  }

  lemma LeavingIsNotKilling(t: ReapTarget, graces: ReapGraces, wait: seq<Event>)
    requires t.startTime.Some? && LeftDuring(t, graces.sigterm, wait)
    ensures Signals([Probed(t, t.startTime), Signalled(t.pid, SigTerm)] + wait + []) == [SigTerm]
  {
    WaitShape(t, graces.sigterm, wait, true);
    FirstEscalation(t, wait);
    var log := [Probed(t, t.startTime), Signalled(t.pid, SigTerm)] + wait;
    assert log + [] == log;
  }

  lemma LaidOut(front: seq<Event>, waited: seq<Event>, probe: Event, kill: Event, rest: seq<Event>)
    requires rest != [] && rest[0] == kill
    ensures front + (waited + [probe]) + rest == front + waited + [probe] + [kill] + rest[1..]
  {
    assert rest == [kill] + rest[1..];
  }

  /** The signalling part, entered right after a probe that saw the target. */
  method Escalate(host: Host, t: ReapTarget, graces: ReapGraces)
    returns (status: ReapStatus, ghost wait: seq<Event>, ghost rest: seq<Event>)
    requires t.startTime.Some?
    modifies host
    ensures host.log == old(host.log) + [Signalled(t.pid, SigTerm)] + wait + rest
    ensures Escalated(t, graces, wait, rest, status)
    ensures AlwaysThere(host, t) ==> status.OrphanSurvives?
    ensures NeverThere(host, t) ==> status.ConfirmedGone?
  {
    host.Do(Signalled(t.pid, SigTerm));
    var gone;
    gone, wait := WaitForPidGone(host, t, graces.sigterm);
    rest := [];
    if gone {
      return ConfirmedGone, wait, rest;
    }
    host.Do(Signalled(t.pid, SigKill));
    ghost var last;
    gone, last := WaitForPidGone(host, t, graces.sigkill);
    rest := [Signalled(t.pid, SigKill)] + last;
    assert rest[1..] == last;
    return if gone then ConfirmedGone else OrphanSurvives, wait, rest;
  }

  lemma EscalationReaps(
    t: ReapTarget, graces: ReapGraces, wait: seq<Event>, rest: seq<Event>, status: ReapStatus)
    requires t.startTime.Some? && Escalated(t, graces, wait, rest, status)
    ensures Reaped(t, graces, [Probed(t, t.startTime), Signalled(t.pid, SigTerm)] + wait + rest, status)
  {
    var before := [Probed(t, t.startTime), Signalled(t.pid, SigTerm)] + wait;
    assert GivenTime(t, graces, before + rest, status);
    WaitShape(t, graces.sigterm, wait, rest == []);
    FirstEscalation(t, wait);
    if rest == [] {
      assert before + rest == before;
    } else {
      WaitShape(t, graces.sigkill, rest[1..], status != OrphanSurvives);
      SecondEscalation(t, before, rest[1..]);
      assert before + rest == before + [Signalled(t.pid, SigKill)] + rest[1..];
    }
  }

  lemma GoneAtOnce(t: ReapTarget, graces: ReapGraces, log: seq<Event>)
    requires if t.startTime.None? then log == []
             else |log| == 1 && log[0].Probed? && log[0].target == t && log[0].answer != t.startTime
    ensures Reaped(t, graces, log, ConfirmedGone)
  {
    if log != [] { SignalsConcat([], log); }
  }

  lemma FirstEscalation(t: ReapTarget, wait: seq<Event>)
    requires t.startTime.Some? && Waiting(wait, t)
    ensures var log := [Probed(t, t.startTime), Signalled(t.pid, SigTerm)] + wait;
            OnlyReaping(log) && Guarded(log, [t]) && ProbesOnly(log, t)
            && Signals(log) == [SigTerm] && EndsWithProbe(log, t) && (EndsAlive(log, t) <==> EndsAlive(wait, t))
  {
    var probe, term := Probed(t, t.startTime), Signalled(t.pid, SigTerm);
    SignalsConcat([probe, term], wait);
    SignalsConcat([probe], [term]);
    assert [probe] + [term] == [probe, term];
    ProbesSendNothing(wait);
    TermIsGuarded(t, wait);
  }

  lemma TermIsGuarded(t: ReapTarget, wait: seq<Event>)
    requires t.startTime.Some? && OnlyProbes(wait)
    ensures Guarded([Probed(t, t.startTime), Signalled(t.pid, SigTerm)] + wait, [t])
  {
    assert t in [t] && Confirms(Probed(t, t.startTime), [t], t.pid);
  }

  lemma SecondEscalation(t: ReapTarget, before: seq<Event>, wait: seq<Event>)
    requires t.startTime.Some? && Waiting(wait, t)
    requires OnlyReaping(before) && Guarded(before, [t]) && ProbesOnly(before, t)
    requires Signals(before) == [SigTerm] && EndsAlive(before, t)
    ensures var log := before + [Signalled(t.pid, SigKill)] + wait;
            OnlyReaping(log) && Guarded(log, [t]) && ProbesOnly(log, t)
            && Signals(log) == [SigTerm, SigKill] && EndsWithProbe(log, t) && (EndsAlive(log, t) <==> EndsAlive(wait, t))
  {
    var kill := Signalled(t.pid, SigKill);
    KillIsGuarded(t, before, wait);
    SignalsConcat(before, [kill]);
    SignalsConcat(before + [kill], wait);
    ProbesSendNothing(wait);
    assert Signals([kill]) == [SigKill];
    assert Signals(before + [kill] + wait) == [SigTerm, SigKill];
  }

  lemma KillIsGuarded(t: ReapTarget, before: seq<Event>, wait: seq<Event>)
    requires t.startTime.Some? && OnlyProbes(wait) && Guarded(before, [t]) && EndsAlive(before, t)
    ensures Guarded(before + [Signalled(t.pid, SigKill)] + wait, [t])
  {
    var log := before + [Signalled(t.pid, SigKill)] + wait;
    assert t in [t] && Confirms(before[|before| - 1], [t], t.pid);
    forall i | 0 <= i < |log| && log[i].Signalled? ensures i > 0 && Confirms(log[i - 1], [t], log[i].pid) {
      if i < |before| { assert log[i] == before[i]; }
    }
  }

  lemma GuardedConcat(a: seq<Event>, b: seq<Event>, s: seq<ReapTarget>, t: seq<ReapTarget>, all: seq<ReapTarget>)
    requires Guarded(a, s) && Guarded(b, t)
    requires (forall x :: x in s ==> x in all) && (forall x :: x in t ==> x in all)
    ensures Guarded(a + b, all)
  {
  }

  /** The log stretches of the targets, one after the other. */
  function Joined(segments: seq<seq<Event>>): seq<Event> {
    if segments == [] then [] else Joined(segments[..|segments| - 1]) + segments[|segments| - 1]
  }

  lemma JoinedAppend(segments: seq<seq<Event>>, more: seq<Event>)
    ensures Joined(segments + [more]) == Joined(segments) + more
  {
    assert (segments + [more])[..|segments|] == segments;
  }

  ghost predicate SomeSurvivor(targets: seq<ReapTarget>, segments: seq<seq<Event>>) {
    exists i :: 0 <= i < |targets| && i < |segments| && EndsAlive(segments[i], targets[i])
  }

  /** Adding one target's stretch of log changes what was last seen of that target only. */
  lemma SeenAliveStep(added: seq<Event>, more: seq<Event>, t: ReapTarget, x: ReapTarget)
    requires ProbesOnly(more, t) && (if t.startTime.None? then more == [] else EndsWithProbe(more, t))
    ensures SeenAlive(added + more, x) <==>
            if x == t then EndsAlive(more, t) else SeenAlive(added, x)
  {
    if x != t {
      OtherProbesKeep(added, more, x);
    } else if t.startTime.Some? {
      LastProbeDecides(added, more, t);
    }
  }

  /** Only targets are last seen alive, and only when a survivor is reported. */
  ghost predicate SeenAccordingly(log: seq<Event>, targets: seq<ReapTarget>, survivor: bool) {
    forall x :: SeenAlive(log, x) ==> x in targets && survivor
  }

  lemma SeenAccordinglyStep(
    added: seq<Event>, more: seq<Event>, targets: seq<ReapTarget>, t: ReapTarget, graces: ReapGraces, survivor: bool,
    status: ReapStatus)
    requires SeenAccordingly(added, targets, survivor) && t in targets && Reaped(t, graces, more, status)
    ensures SeenAccordingly(added + more, targets, survivor || status.OrphanSurvives?)
  {
    forall x ensures SeenAlive(added + more, x) ==> x in targets && (survivor || status.OrphanSurvives?) {
      SeenAliveStep(added, more, t, x);
    }
  }

  /** The first `|segments|` targets have been reaped, each with its own stretch of log;
      a survivor is reported exactly when some stretch ends with a probe that still
      saw its target. */
  ghost predicate AllReaped(
    targets: seq<ReapTarget>, segments: seq<seq<Event>>, log: seq<Event>, status: ReapStatus)
  {
    && |segments| <= |targets| && log == Joined(segments)
    && OnlyReaping(log) && Guarded(log, targets)
    && (forall i :: 0 <= i < |segments| ==> ProbesOnly(segments[i], targets[i]))
    && (status.NotApplicable? <==> segments == [])
    && (status.OrphanSurvives? <==> SomeSurvivor(targets, segments))
    && SeenAccordingly(log, targets, status.OrphanSurvives?)
  }

  lemma OneMoreReaped(
    targets: seq<ReapTarget>, graces: ReapGraces, segments: seq<seq<Event>>, log: seq<Event>, status: ReapStatus,
    more: seq<Event>, one: ReapStatus)
    requires AllReaped(targets, segments, log, status) && |segments| < |targets|
    requires Reaped(targets[|segments|], graces, more, one)
    ensures AllReaped(targets, segments + [more], log + more, Worse(status, one))
  {
    var t := targets[|segments|];
    GuardedConcat(log, more, targets, [t], targets);
    SeenAccordinglyStep(log, more, targets, t, graces, status.OrphanSurvives?, one);
    JoinedAppend(segments, more);
    SurvivorStep(targets, segments, more);
  }

  /** Stretch `i` is a whole reap of target `i`, with its graces; its last probe tells how
      it ended. */
  ghost predicate ReapedAt(targets: seq<ReapTarget>, graces: ReapGraces, segments: seq<seq<Event>>, i: nat) {
    i < |targets| && i < |segments|
    && Reaped(targets[i], graces, segments[i], if EndsAlive(segments[i], targets[i]) then OrphanSurvives else ConfirmedGone)
  }

  ghost predicate EachReaped(targets: seq<ReapTarget>, graces: ReapGraces, segments: seq<seq<Event>>) {
    forall i :: 0 <= i < |segments| ==> ReapedAt(targets, graces, segments, i)
  }

  lemma EachReapedStep(
    targets: seq<ReapTarget>, graces: ReapGraces, segments: seq<seq<Event>>, more: seq<Event>, one: ReapStatus)
    requires EachReaped(targets, graces, segments) && |segments| < |targets|
    requires Reaped(targets[|segments|], graces, more, one)
    ensures EachReaped(targets, graces, segments + [more])
  {
    var longer := segments + [more];
    forall i | 0 <= i < |longer| ensures ReapedAt(targets, graces, longer, i) {
      if i < |segments| {
        assert ReapedAt(targets, graces, segments, i) && longer[i] == segments[i];
      } else {
        assert longer[i] == more;
      }
    }
  }

  /** A process that never leaves is left standing at the end of its segment. */
  ghost predicate ImmortalsSurvive(host: Host, targets: seq<ReapTarget>, segments: seq<seq<Event>>)
    requires |segments| <= |targets|
  {
    forall i :: 0 <= i < |segments| && AlwaysThere(host, targets[i]) ==> EndsAlive(segments[i], targets[i])
  }

  /** The first targets reaped, with everything that is said about them. */
  ghost predicate ReapedSoFar(
    host: Host, targets: seq<ReapTarget>, graces: ReapGraces, segments: seq<seq<Event>>, log: seq<Event>,
    status: ReapStatus)
  {
    && AllReaped(targets, segments, log, status)
    && EachReaped(targets, graces, segments)
    && ImmortalsSurvive(host, targets, segments)
    && ((forall x :: x in targets ==> NeverThere(host, x)) ==> !status.OrphanSurvives?)
  }

  lemma NextReaped(
    host: Host, targets: seq<ReapTarget>, graces: ReapGraces, segments: seq<seq<Event>>, log: seq<Event>,
    status: ReapStatus, more: seq<Event>, one: ReapStatus)
    requires ReapedSoFar(host, targets, graces, segments, log, status) && |segments| < |targets|
    requires Reaped(targets[|segments|], graces, more, one)
    requires AlwaysThere(host, targets[|segments|]) ==> one.OrphanSurvives?
    requires NeverThere(host, targets[|segments|]) ==> one.ConfirmedGone?
    ensures ReapedSoFar(host, targets, graces, segments + [more], log + more, Worse(status, one))
  {
    OneMoreReaped(targets, graces, segments, log, status, more, one);
    EachReapedStep(targets, graces, segments, more, one);
    ImmortalsStep(host, targets, segments, more);
  }

  lemma ImmortalsStep(host: Host, targets: seq<ReapTarget>, segments: seq<seq<Event>>, more: seq<Event>)
    requires |segments| < |targets| && ImmortalsSurvive(host, targets, segments)
    requires AlwaysThere(host, targets[|segments|]) ==> EndsAlive(more, targets[|segments|])
    ensures ImmortalsSurvive(host, targets, segments + [more])
  {
  }

  /** Reaps every target in turn and reports the worst outcome. */
  method ReapPids(host: Host, targets: seq<ReapTarget>, graces: ReapGraces)
    returns (status: ReapStatus, ghost added: seq<Event>, ghost segments: seq<seq<Event>>)
    modifies host
    ensures host.log == old(host.log) + added
    ensures |segments| == |targets| && AllReaped(targets, segments, added, status)
    ensures EachReaped(targets, graces, segments)
    ensures ImmortalsSurvive(host, targets, segments)
    ensures (forall x :: x in targets ==> NeverThere(host, x)) ==> !status.OrphanSurvives?
  {
    status := NotApplicable;
    added, segments := [], [];
    for i := 0 to |targets|
      invariant host.log == old(host.log) + added
      invariant |segments| == i && ReapedSoFar(host, targets, graces, segments, added, status)
    {
      var one, more := ReapOne(host, targets[i], graces);
      NextReaped(host, targets, graces, segments, added, status, more, one);
      LogGrows(old(host.log), added, more);
      status := Worse(status, one);
      added, segments := added + more, segments + [more];
    }
  }

  lemma SurvivorStep(targets: seq<ReapTarget>, segments: seq<seq<Event>>, more: seq<Event>)
    requires |segments| < |targets|
    ensures SomeSurvivor(targets, segments + [more]) <==>
            SomeSurvivor(targets, segments) || EndsAlive(more, targets[|segments|])
  {
    var longer := segments + [more];
    if SomeSurvivor(targets, segments) {
      var i :| 0 <= i < |targets| && i < |segments| && EndsAlive(segments[i], targets[i]);
      assert longer[i] == segments[i];
    }
    if EndsAlive(more, targets[|segments|]) {
      assert longer[|segments|] == more;
    }
  }
}
