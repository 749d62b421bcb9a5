/**
 The shutdown manager's state machine
 (shutdown-manager/src/poll_loop.rs, with its tail in main.rs and cleanup.rs).

 Polling runs against an arbitrary finite trace of observations, one per poll;
 teardown runs against the adversarial host.
 */
module PollLoop {
  import opened Wrappers
  import opened Reap

  const PANIK_GRACE: Duration := 120 * SECOND

  datatype PollConfig = PollConfig(
    pollInterval: Duration, idleShutdown: Duration, secondaryGrace: Duration, containerStopGrace: Duration,
    wrapperPid: Option<Pid>, panikFile: bool)

  /** A PID and the start time captured with it. */
  type Capture = (Pid, Option<nat>)

  datatype CapturedPids = CapturedPids(conmon: Option<Capture>, workload: Option<Capture>)

  function Targets(c: CapturedPids): seq<ReapTarget> {
    (if c.conmon.Some? then [ReapTarget(c.conmon.value.0, c.conmon.value.1)] else [])
    + (if c.workload.Some? then [ReapTarget(c.workload.value.0, c.workload.value.1)] else [])
  }

  /** Everything one poll would be told, whether or not it asks. */
  datatype Observation = Observation(
    flag: bool, wrapperAlive: bool, exists_: bool, conmon: Option<Capture>, workload: Option<Capture>)

  datatype ShutdownTrigger = Signal | WrapperGone(pid: Pid)

  datatype LoopExit =
    | StillPolling
    | SignalShutdown(at: nat, trigger: ShutdownTrigger, captured: CapturedPids)
    | IdleShutdown(at: nat)

  // ---------------------------------------------------------------------
  // The idle threshold
  // ---------------------------------------------------------------------

  const MILLISECOND: nat := 1_000_000
  const U64: nat := 0x1_0000_0000_0000_0000

  function DivCeil(a: nat, b: nat): nat
    requires b > 0
  {
    (a + b - 1) / b
  }

  function Max(a: nat, b: nat): nat {
    if a >= b then a else b
  }

  /** Ceiling division in whole milliseconds, at least one, cast to 64 bits. */
  function CeilTicks(idle: Duration, poll: Duration): nat {
    Max(DivCeil(idle / MILLISECOND, Max(poll / MILLISECOND, 1)), 1) % U64
  }

  /** How many absent polls in a row idle the loop out; a cast that truncates to
      zero still takes one. */
  function IdlePolls(cfg: PollConfig): nat {
    Max(CeilTicks(cfg.idleShutdown, cfg.pollInterval), 1)
  }

  /** `k` is the least positive count of polls that covers `idle`. */
  ghost predicate LeastCover(k: nat, idle: Duration, poll: Duration) {
    k >= 1 && k * poll >= idle && (k == 1 || (k - 1) * poll < idle)
  }

  lemma DivCeilIsLeast(a: nat, b: nat)
    requires b > 0
    ensures DivCeil(a, b) * b >= a
    ensures DivCeil(a, b) > 0 ==> (DivCeil(a, b) - 1) * b < a
  {
  }

  /** For the whole-second settings the command line can express, the cast never
      truncates and the threshold is exactly the least covering count. */
  lemma WholeSecondsAreExact(idleSecs: nat, pollSecs: nat)
    requires 1 <= pollSecs && idleSecs < U64
    ensures LeastCover(CeilTicks(idleSecs * SECOND, pollSecs * SECOND), idleSecs * SECOND, pollSecs * SECOND)
  {
    var idle, poll := idleSecs * 1000, pollSecs * 1000;
    assert idleSecs * SECOND / MILLISECOND == idle;
    assert pollSecs * SECOND / MILLISECOND == poll;
    DivCeilIsLeast(idle, poll);
    var k := DivCeil(idle, poll);
    assert k <= idleSecs by {
      if k > idleSecs {
        assert (k - 1) * poll >= idleSecs * poll by { MulMono(idleSecs, k - 1, poll); }
        assert idleSecs * poll >= idleSecs * 1000 by { MulMono(1000, poll, idleSecs); }
      }
    }
    ScaleCover(Max(k, 1), idle, poll);
  }

  /** For any settings at all the threshold is the least count of polls that covers the
      idle time, both in whole milliseconds, a shorter poll counting as one. */
  lemma MillisecondsAreExact(idle: Duration, poll: Duration)
    requires idle < 18446744073709551616 * 1_000_000
    ensures LeastCover(CeilTicks(idle, poll), idle / 1_000_000, if poll < 1_000_000 then 1 else poll / 1_000_000)
  {
    var i, p := idle / MILLISECOND, Max(poll / MILLISECOND, 1);
    DivCeilIsLeast(i, p);
    var k := DivCeil(i, p);
    assert k <= i by {
      if k > i { MulMono(i, k - 1, p); MulMono(1, p, i); }
    }
  }

  lemma MulMono(a: nat, b: nat, c: nat)
    requires a <= b
    ensures a * c <= b * c && c * a <= c * b
  {
  }

  lemma ScaleCover(k: nat, idle: nat, poll: nat)
    requires LeastCover(k, idle, poll)
    ensures LeastCover(k, idle * MILLISECOND, poll * MILLISECOND)
  {
  }

  // ---------------------------------------------------------------------
  // What a trace of polls means
  // ---------------------------------------------------------------------

  predicate Triggered(cfg: PollConfig, o: Observation) {
    o.flag || (cfg.wrapperPid.Some? && !o.wrapperAlive)
  }

  function TriggerOf(cfg: PollConfig, o: Observation): ShutdownTrigger
    requires Triggered(cfg, o)
  {
    if o.flag then Signal else WrapperGone(cfg.wrapperPid.value)
  }

  /** The container was last seen exactly `k` polls before poll `n`. */
  predicate IdleDue(trace: seq<Observation>, k: nat, n: nat)
    requires n < |trace|
  {
    k <= n && trace[n - k].exists_ && forall j :: n - k < j <= n ==> !trace[j].exists_
  }

  /** No poll before `n` ended the loop. */
  predicate Running(cfg: PollConfig, trace: seq<Observation>, k: nat, n: nat)
    requires n <= |trace|
  {
    forall m :: 0 <= m < n ==> !Triggered(cfg, trace[m]) && !IdleDue(trace, k, m)
  }

  /** `c` is the last answer that was not `None` while the container existed. */
  ghost predicate LastAnswer(trace: seq<Observation>, n: nat, get: Observation -> Option<Capture>, c: Option<Capture>)
    requires n <= |trace|
  {
    match c
    case None => forall m :: 0 <= m < n && trace[m].exists_ ==> get(trace[m]).None?
    case Some(_) =>
      exists m :: 0 <= m < n && trace[m].exists_ && get(trace[m]) == c
                  && forall j :: m < j < n && trace[j].exists_ ==> get(trace[j]).None?
  }

  function ConmonOf(o: Observation): Option<Capture> {
    o.conmon
  }

  function WorkloadOf(o: Observation): Option<Capture> {
    o.workload
  }

  ghost predicate CapturedBy(trace: seq<Observation>, n: nat, c: CapturedPids)
    requires n <= |trace|
  {
    && LastAnswer(trace, n, ConmonOf, c.conmon)
    && LastAnswer(trace, n, WorkloadOf, c.workload)
  }

  ghost predicate ExitsCorrectly(cfg: PollConfig, trace: seq<Observation>, k: nat, exit: LoopExit) {
    match exit
    case StillPolling => Running(cfg, trace, k, |trace|)
    case SignalShutdown(n, trigger, captured) =>
      n < |trace| && Running(cfg, trace, k, n) && Triggered(cfg, trace[n])
      && trigger == TriggerOf(cfg, trace[n]) && CapturedBy(trace, n, captured)
    case IdleShutdown(n) =>
      n < |trace| && Running(cfg, trace, k, n) && !Triggered(cfg, trace[n]) && IdleDue(trace, k, n)
  }

  function Refreshed(c: CapturedPids, o: Observation): CapturedPids {
    if !o.exists_ then c
    else CapturedPids(if o.conmon.Some? then o.conmon else c.conmon, if o.workload.Some? then o.workload else c.workload)
  }

  lemma CapturedNext(trace: seq<Observation>, n: nat, c: CapturedPids)
    requires n < |trace| && CapturedBy(trace, n, c)
    ensures CapturedBy(trace, n + 1, Refreshed(c, trace[n]))
  {
  }

  /** The two counters after `i` polls: whether the container was ever seen, and how
      many polls ago, fewer than `k`. */
  predicate Sighted(trace: seq<Observation>, i: nat, sawOnce: bool, downCount: nat, k: nat)
    requires i <= |trace|
  {
    if !sawOnce then forall j :: 0 <= j < i ==> !trace[j].exists_
    else downCount < k && downCount < i && trace[i - 1 - downCount].exists_
         && forall j :: i - 1 - downCount < j < i ==> !trace[j].exists_
  }

  lemma NotYetIdle(trace: seq<Observation>, i: nat, sawOnce: bool, downCount: nat, k: nat)
    requires i < |trace| && Sighted(trace, i + 1, sawOnce, downCount, k)
    ensures !IdleDue(trace, k, i)
  {
  }

  lemma NowIdle(trace: seq<Observation>, i: nat, downCount: nat, k: nat)
    requires i < |trace| && Sighted(trace, i, true, downCount, k) && !trace[i].exists_ && downCount + 1 >= k
    ensures IdleDue(trace, k, i)
  {
  }

  lemma RunningNext(cfg: PollConfig, trace: seq<Observation>, k: nat, i: nat)
    requires i < |trace| && Running(cfg, trace, k, i) && !Triggered(cfg, trace[i]) && !IdleDue(trace, k, i)
    ensures Running(cfg, trace, k, i + 1)
  {
  }

  /** What the loop knows after `i` polls that did not end it. */
  ghost predicate Going(
    cfg: PollConfig, trace: seq<Observation>, k: nat, i: nat, captured: CapturedPids, sawOnce: bool, downCount: nat)
    requires i <= |trace|
  {
    Running(cfg, trace, k, i) && CapturedBy(trace, i, captured) && Sighted(trace, i, sawOnce, downCount, k)
  }

  /** One more poll without a trigger: the counters move on, or the container has been
      away for exactly `k` polls. */
  lemma GoingOn(
    cfg: PollConfig, trace: seq<Observation>, k: nat, i: nat, captured: CapturedPids, sawOnce: bool, downCount: nat)
    requires i < |trace| && k >= 1 && Going(cfg, trace, k, i, captured, sawOnce, downCount)
    requires !Triggered(cfg, trace[i])
    ensures trace[i].exists_ ==> Going(cfg, trace, k, i + 1, Refreshed(captured, trace[i]), true, 0)
    ensures !trace[i].exists_ && !sawOnce ==> Going(cfg, trace, k, i + 1, captured, false, downCount)
    ensures !trace[i].exists_ && sawOnce && downCount + 1 < k ==>
              Going(cfg, trace, k, i + 1, captured, true, downCount + 1)
    ensures !trace[i].exists_ && sawOnce && downCount + 1 >= k ==>
              ExitsCorrectly(cfg, trace, k, IdleShutdown(i))
  {
    CapturedNext(trace, i, captured);
    if !trace[i].exists_ && sawOnce && downCount + 1 >= k {
      NowIdle(trace, i, downCount, k);
    } else {
      var saw, down := if trace[i].exists_ then true else sawOnce,
                       if trace[i].exists_ then 0 else downCount + 1;
      NotYetIdle(trace, i, saw, down, k);
      RunningNext(cfg, trace, k, i);
    }
  }

  /** The loop's counters decide exactly what the whole trace says: it signals at
      the first trigger, idles at the first poll whose last sighting lies exactly
      `k` polls back, and hands over the last PIDs it was told. */
  method Poll(cfg: PollConfig, trace: seq<Observation>) returns (exit: LoopExit)
    ensures ExitsCorrectly(cfg, trace, IdlePolls(cfg), exit)
  {
    var ticksForIdle := CeilTicks(cfg.idleShutdown, cfg.pollInterval);
    exit := PollUntil(cfg, trace, ticksForIdle);
  }

  method PollUntil(cfg: PollConfig, trace: seq<Observation>, ticksForIdle: nat) returns (exit: LoopExit)
    ensures ExitsCorrectly(cfg, trace, Max(ticksForIdle, 1), exit)
  {
    ghost var k := Max(ticksForIdle, 1);
    var sawOnce, downCount := false, 0;
    var captured := CapturedPids(None, None);
    for i := 0 to |trace|
      invariant Going(cfg, trace, k, i, captured, sawOnce, downCount)
    {
      var o := trace[i];
      if o.flag {
        return SignalShutdown(i, Signal, captured);
      }
      if cfg.wrapperPid.Some? && !o.wrapperAlive {
        return SignalShutdown(i, WrapperGone(cfg.wrapperPid.value), captured);
      }
      GoingOn(cfg, trace, k, i, captured, sawOnce, downCount);
      if o.exists_ {
        sawOnce, downCount := true, 0;
        if o.conmon.Some? {
          captured := captured.(conmon := o.conmon);
        }
        if o.workload.Some? {
          captured := captured.(workload := o.workload);
        }
      } else if sawOnce {
        downCount := downCount + 1;
        if downCount >= ticksForIdle {
          return IdleShutdown(i);
        }
      }
    }
    return StillPolling;
  }

  /** The same, observation by observation: nothing ended the loop before, and what ended
      it was the flag, or without it the wrapper's death, or without either the container
      last seen exactly `k` polls ago. */
  lemma ExitByObservations(cfg: PollConfig, trace: seq<Observation>, k: nat, exit: LoopExit)
    requires ExitsCorrectly(cfg, trace, k, exit)
    ensures var n := if exit.StillPolling? then |trace| else exit.at;
            && n <= |trace|
            && (forall m :: 0 <= m < n ==> !trace[m].flag)
            && (forall m :: 0 <= m < n && cfg.wrapperPid.Some? ==> trace[m].wrapperAlive)
            && (forall i :: 0 <= i && i + k < n && trace[i].exists_ ==> exists j :: i < j <= i + k && trace[j].exists_)
    ensures exit.SignalShutdown? && exit.trigger == Signal ==> exit.at < |trace| && trace[exit.at].flag
    ensures exit.SignalShutdown? && exit.trigger != Signal ==>
              exit.at < |trace| && !trace[exit.at].flag && !trace[exit.at].wrapperAlive
              && cfg.wrapperPid.Some? && exit.trigger == WrapperGone(cfg.wrapperPid.value)
    ensures exit.IdleShutdown? ==>
              exit.at < |trace| && !trace[exit.at].flag && (cfg.wrapperPid.Some? ==> trace[exit.at].wrapperAlive)
              && k <= exit.at && trace[exit.at - k].exists_
              && forall j :: exit.at - k < j <= exit.at ==> !trace[j].exists_
  {
    var n := if exit.StillPolling? then |trace| else exit.at;
    assert Running(cfg, trace, k, n);
    forall m | 0 <= m < n ensures !trace[m].flag && (cfg.wrapperPid.Some? ==> trace[m].wrapperAlive) {
      assert !Triggered(cfg, trace[m]);
    }
    forall i | 0 <= i && i + k < n && trace[i].exists_ ensures exists j :: i < j <= i + k && trace[j].exists_ {
      assert !IdleDue(trace, k, i + k);
    }
  }

  /** The trace determines which way the loop ends, when, and with which PIDs. */
  lemma ExitIsUnique(cfg: PollConfig, trace: seq<Observation>, k: nat, a: LoopExit, b: LoopExit)
    requires ExitsCorrectly(cfg, trace, k, a) && ExitsCorrectly(cfg, trace, k, b)
    ensures a == b
  {
  }

  // ---------------------------------------------------------------------
  // Teardown
  // ---------------------------------------------------------------------

  const U32: nat := 0x1_0000_0000

  /** `n` rounds of "the container is still there", one second apart. */
  function StillUp(n: nat): seq<Event> {
    if n == 0 then [] else StillUp(n - 1) + [Exists(true), Slept(SECOND)]
  }

  lemma {:induction false} StillUpExactly(n: nat)
    ensures |StillUp(n)| == 2 * n
    ensures forall i :: 0 <= i < n ==> StillUp(n)[2 * i] == Exists(true) && StillUp(n)[2 * i + 1] == Slept(1_000_000_000)
  {
    if n > 0 { StillUpExactly(n - 1); }
  }

  /** Asked once a second until the first absence, or as often as the grace allows. */
  ghost predicate WaitedForExit(log: seq<Event>, ticks: nat) {
    log == StillUp(ticks) || exists n :: 0 <= n < ticks && log == StillUp(n) + [Exists(false)]
  }

  lemma {:induction false} StillUpWaits(n: nat)
    ensures OnlyWaits(StillUp(n))
  {
    if n > 0 { StillUpWaits(n - 1); }
  }

  /** Polls the container once a second until it is gone or the grace is over. */
  method WaitForExit(host: Host, grace: Duration) returns (ghost added: seq<Event>)
    modifies host
    ensures host.log == old(host.log) + added && WaitedForExit(added, Ticks(grace)) && OnlyWaits(added)
  {
    var elapsed := 0;
    ghost var n := 0;
    while elapsed < grace
      invariant elapsed == n * SECOND && n <= Ticks(grace)
      invariant host.log == old(host.log) + StillUp(n)
      decreases grace + SECOND - elapsed
    {
      StillUpWaits(n);
      var alive := host.AskContainer();
      if !alive {
        added := StillUp(n) + [Exists(false)];
        return;
      }
      host.Do(Slept(SECOND));
      elapsed := elapsed + SECOND;
      n := n + 1;
    }
    StillUpWaits(n);
    added := StillUp(n);
  }

  ghost predicate OnlyWaits(log: seq<Event>) {
    forall i :: 0 <= i < |log| ==> log[i].Slept? || log[i].Exists?
  }

  /** Nothing here reaps a PID, removes anything or writes the sentinel. */
  ghost predicate NoReaping(log: seq<Event>) {
    forall i :: 0 <= i < |log| ==>
      log[i].Slept? || log[i].Exists? || log[i].Pgrep? || log[i].ExecTerm? || log[i].KillPid1? || log[i].Stopped?
  }

  /** Inside the container: the first child of its init is asked to end, if it was
      found, and its init is killed. */
  function KilledInside(child: Option<Pid>): seq<Event> {
    [Pgrep(child)] + (if child.Some? then [ExecTerm(child.value)] else []) + [KillPid1]
  }

  /** `podman stop` follows only a container that outlived its grace. */
  function WaitedThenStopped(cfg: PollConfig, waited: seq<Event>, outlived: bool): seq<Event> {
    waited + [Exists(outlived)] + if outlived then [Stopped(cfg.containerStopGrace / SECOND % U32)] else []
  }

  lemma SignallingIsQuiet(cfg: PollConfig, child: Option<Pid>, waited: seq<Event>, outlived: bool)
    requires OnlyWaits(waited)
    ensures NoReaping(KilledInside(child)) && NoReaping(WaitedThenStopped(cfg, waited, outlived))
  {
  }

  /** Stage one: signal through podman's own record, if it still has one.  Pid 1
      is signalled whenever the record exists. */
  method RecordBasedSignal(host: Host, cfg: PollConfig)
    returns (ghost added: seq<Event>, ghost child: Option<Pid>, ghost waited: seq<Event>, ghost outlived: bool)
    modifies host
    ensures host.log == old(host.log) + added && NoReaping(added)
    ensures added == [Exists(false)] || WaitedForExit(waited, Ticks(cfg.secondaryGrace))
    ensures added == [Exists(false)] ||
            added == [Exists(true)] + KilledInside(child) + WaitedThenStopped(cfg, waited, outlived)
  {
    child, waited, outlived := None, [], false;
    var alive := host.AskContainer();
    added := [Exists(alive)];
    if !alive {
      return;
    }
    child := KillInside(host);
    waited, outlived := WaitThenStop(host, cfg);
    added := added + KilledInside(child) + WaitedThenStopped(cfg, waited, outlived);
    SignallingIsQuiet(cfg, child, waited, outlived);
  }

  method KillInside(host: Host) returns (ghost child: Option<Pid>)
    modifies host
    ensures host.log == old(host.log) + KilledInside(child)
  {
    var found := host.AskFirstChild();
    child := found;
    if found.Some? {
      host.Do(ExecTerm(found.value));
    }
    host.Do(KillPid1);
  }

  method WaitThenStop(host: Host, cfg: PollConfig) returns (ghost waited: seq<Event>, ghost outlived: bool)
    modifies host
    ensures WaitedForExit(waited, Ticks(cfg.secondaryGrace)) && OnlyWaits(waited)
    ensures host.log == old(host.log) + WaitedThenStopped(cfg, waited, outlived)
  {
    waited := WaitForExit(host, cfg.secondaryGrace);
    var still := host.AskContainer();
    outlived := still;
    if still {
      host.Do(Stopped(cfg.containerStopGrace / SECOND % U32));
    }
  }

  /** The last resort: write the sentinel and wait for the workload to leave.  It
      sends no signal and removes nothing, and can only turn a surviving orphan
      into a confirmed death. */
  method GracefulPanikFileAttempt(host: Host, cfg: PollConfig, workload: Option<Capture>)
    returns (status: ReapStatus, ghost added: seq<Event>)
    modifies host
    ensures host.log == old(host.log) + added
    ensures !(cfg.panikFile && workload.Some?) ==> status == OrphanSurvives && added == []
    ensures cfg.panikFile && workload.Some? ==> PanikWait(added, TargetOf(workload.value), status)
    ensures cfg.panikFile && workload.Some? && NeverThere(host, TargetOf(workload.value)) ==> status == ConfirmedGone
    ensures cfg.panikFile && workload.Some? && AlwaysThere(host, TargetOf(workload.value)) ==> status == OrphanSurvives
  {
    added := [];
    if !cfg.panikFile || workload.None? {
      return OrphanSurvives, [];
    }
    host.Do(WroteSentinel);
    var gone, waited := WaitForPidGone(host, TargetOf(workload.value), PANIK_GRACE);
    added := [WroteSentinel] + waited;
    assert added[1..] == waited;
    return if gone then ConfirmedGone else OrphanSurvives, added;
  }

  function TargetOf(c: Capture): ReapTarget {
    ReapTarget(c.0, c.1)
  }

  /** The sentinel, then one probe of the workload a second for two minutes or until one
      no longer sees it; the last decides. */
  ghost predicate PanikWait(log: seq<Event>, workload: ReapTarget, status: ReapStatus) {
    && log != [] && log[0] == WroteSentinel
    && (if workload.startTime.None? then log[1..] == [] && status == ConfirmedGone
        else Waited(workload, 120 * SECOND, log[1..], status != OrphanSurvives) && status != NotApplicable)
  }

  /** What a teardown did, for the theorems: the signals through the record, one stretch
      of log per captured PID, the last resort, and the verdict of the direct reap. */
  datatype Teardown = Teardown(
    recorded: seq<Event>, segments: seq<seq<Event>>, panik: seq<Event>, direct: ReapStatus)

  function Stages(t: Teardown): seq<Event> {
    t.recorded + Joined(t.segments) + t.panik
  }

  /** `rm -af`, and only when nothing survives. */
  function Removal(status: ReapStatus): seq<Event> {
    if status.OrphanSurvives? then [] else [RmAll]
  }

  function Cleanup(status: ReapStatus): seq<Event> {
    (if status.OrphanSurvives? then [] else [RemovedScratch]) + [RemovedPidFile]
  }

  /** Signals through the record, then the reap of every captured PID, then the last
      resort: run exactly on a survivor with a panik path and a workload PID known,
      and only ever turning a survivor into a confirmed death. */
  ghost predicate TornDown(cfg: PollConfig, captured: CapturedPids, t: Teardown, status: ReapStatus) {
    && NoReaping(t.recorded) && Recorded(cfg, t.recorded)
    && |t.segments| == |Targets(captured)|
    && AllReaped(Targets(captured), t.segments, Joined(t.segments), t.direct)
    && EachReaped(Targets(captured), ReapGraces(cfg.secondaryGrace, cfg.containerStopGrace), t.segments)
    && (t.panik != [] <==> t.direct.OrphanSurvives? && cfg.panikFile && captured.workload.Some?)
    && (if t.panik == [] then status == t.direct else PanikWait(t.panik, TargetOf(captured.workload.value), status))
  }

  /** Stage one: no record, or the container's own processes are asked to end, given
      their grace, and stopped if they outlive it. */
  ghost predicate Recorded(cfg: PollConfig, log: seq<Event>) {
    || log == [Exists(false)]
    || exists child, waited, outlived ::
         && WaitedForExit(waited, Ticks(cfg.secondaryGrace))
         && log == [Exists(true), Pgrep(child)] + (if child.Some? then [ExecTerm(child.value)] else []) + [KillPid1]
                   + waited + [Exists(outlived)]
                   + (if outlived then [Stopped(cfg.containerStopGrace / 1_000_000_000 % 4294967296)] else [])
  }

  lemma RecordSpelledOut(cfg: PollConfig, child: Option<Pid>, waited: seq<Event>, outlived: bool)
    requires WaitedForExit(waited, Ticks(cfg.secondaryGrace))
    ensures Recorded(cfg, [Exists(true)] + KilledInside(child) + WaitedThenStopped(cfg, waited, outlived))
  {
    var asked := if child.Some? then [ExecTerm(child.value)] else [];
    var stopped := if outlived then [Stopped(cfg.containerStopGrace / 1_000_000_000 % 4294967296)] else [];
    Regrouped(Exists(true), Pgrep(child), asked, KillPid1, waited, Exists(outlived), stopped);
  }

  lemma Regrouped(
    e: Event, p: Event, asked: seq<Event>, k: Event, waited: seq<Event>, x: Event, stopped: seq<Event>)
    ensures [e] + ([p] + asked + [k]) + (waited + [x] + stopped) == [e, p] + asked + [k] + waited + [x] + stopped
  {
  }

  /** Stage one as the later stages see it. */
  method SignalThroughRecord(host: Host, cfg: PollConfig) returns (ghost added: seq<Event>)
    modifies host
    ensures host.log == old(host.log) + added && NoReaping(added) && Recorded(cfg, added)
  {
    ghost var child, waited, outlived;
    added, child, waited, outlived := RecordBasedSignal(host, cfg);
    if added != [Exists(false)] {
      RecordSpelledOut(cfg, child, waited, outlived);
    }
  }

  /** The teardown reports processes that are always, or never, there as they are. */
  ghost predicate Witnessed(host: Host, captured: CapturedPids, t: Teardown, status: ReapStatus) {
    && |t.segments| == |Targets(captured)| && ImmortalsSurvive(host, Targets(captured), t.segments)
    && ((forall x :: x in Targets(captured) ==> NeverThere(host, x)) ==> !t.direct.OrphanSurvives?)
    && (t.panik != [] && captured.workload.Some? ==>
          && (AlwaysThere(host, TargetOf(captured.workload.value)) ==> status == OrphanSurvives)
          && (NeverThere(host, TargetOf(captured.workload.value)) ==> status == ConfirmedGone))
  }

  /** The first two stages: signals through the record, then the reap of every PID. */
  method SignalThenReap(host: Host, cfg: PollConfig, captured: CapturedPids)
    returns (direct: ReapStatus, ghost recorded: seq<Event>, ghost segments: seq<seq<Event>>)
    modifies host
    ensures host.log == old(host.log) + recorded + Joined(segments)
    ensures NoReaping(recorded) && Recorded(cfg, recorded)
    ensures |segments| == |Targets(captured)| && AllReaped(Targets(captured), segments, Joined(segments), direct)
    ensures EachReaped(Targets(captured), ReapGraces(cfg.secondaryGrace, cfg.containerStopGrace), segments)
    ensures ImmortalsSurvive(host, Targets(captured), segments)
    ensures (forall x :: x in Targets(captured) ==> NeverThere(host, x)) ==> !direct.OrphanSurvives?
  {
    recorded := SignalThroughRecord(host, cfg);
    ghost var reaped;
    direct, reaped, segments :=
      ReapPids(host, Targets(captured), ReapGraces(cfg.secondaryGrace, cfg.containerStopGrace));
  }

  /** The last two: the last resort on a survivor, and the removal when nothing survives. */
  method ResortThenRemove(host: Host, cfg: PollConfig, workload: Option<Capture>, direct: ReapStatus)
    returns (status: ReapStatus, ghost panik: seq<Event>)
    modifies host
    ensures host.log == old(host.log) + panik + Removal(status)
    ensures panik != [] <==> direct.OrphanSurvives? && cfg.panikFile && workload.Some?
    ensures if panik == [] then status == direct else PanikWait(panik, TargetOf(workload.value), status)
    ensures panik != [] && AlwaysThere(host, TargetOf(workload.value)) ==> status == OrphanSurvives
    ensures panik != [] && NeverThere(host, TargetOf(workload.value)) ==> status == ConfirmedGone
  {
    panik := [];
    status := direct;
    if direct.OrphanSurvives? {
      status, panik := GracefulPanikFileAttempt(host, cfg, workload);
    }
    if !status.OrphanSurvives? {
      host.Do(RmAll);
    }
  }

  method ShutDownBySignal(host: Host, cfg: PollConfig, captured: CapturedPids)
    returns (status: ReapStatus, ghost t: Teardown)
    modifies host
    ensures host.log == old(host.log) + Stages(t) + Removal(status)
    ensures TornDown(cfg, captured, t, status) && Witnessed(host, captured, t, status)
  {
    var direct, recorded, segments := SignalThenReap(host, cfg, captured);
    ghost var panik;
    status, panik := ResortThenRemove(host, cfg, captured.workload, direct);
    t := Teardown(recorded, segments, panik, direct);
  }

  // ---------------------------------------------------------------------
  // A whole run of the manager
  // ---------------------------------------------------------------------

  /** Removes the scratch tree unless an orphan may still be using it. */
  method FinalCleanup(host: Host, preserveScratch: bool) returns (ghost added: seq<Event>)
    modifies host
    ensures host.log == old(host.log) + added
    ensures added == Cleanup(if preserveScratch then OrphanSurvives else NotApplicable)
  {
    added := [];
    if !preserveScratch {
      host.Do(RemovedScratch);
      added := added + [RemovedScratch];
    }
    host.Do(RemovedPidFile);
    added := added + [RemovedPidFile];
  }

  /** Nothing follows but the removal of files: no signal to a PID or through podman, no
      stop, no sentinel, no second removal. */
  ghost predicate OnlyCleanupAfter(log: seq<Event>, i: nat) {
    forall j :: i < j < |log| ==> log[j].RemovedScratch? || log[j].RemovedPidFile?
  }

  ghost predicate RemovesNothing(log: seq<Event>) {
    forall i :: 0 <= i < |log| ==> !log[i].RmAll? && !log[i].RemovedScratch?
  }

  /** The sentinel first, then only probes and pauses. */
  ghost predicate QuietPanik(log: seq<Event>) {
    forall i :: 0 <= i < |log| ==> if i == 0 then log[i].WroteSentinel? else log[i].Probed? || log[i].Slept?
  }

  lemma PanikIsQuiet(log: seq<Event>, workload: ReapTarget, status: ReapStatus)
    requires PanikWait(log, workload, status)
    ensures QuietPanik(log)
  {
    if workload.startTime.Some? {
      WaitShape(workload, PANIK_GRACE, log[1..], status != OrphanSurvives);
    }
    forall i | 0 < i < |log| ensures log[i].Probed? || log[i].Slept? {
      assert log[i] == log[1..][i - 1];
    }
  }

  /** What the stages of a teardown send, for the facts about whole runs. */
  ghost predicate StagesBehave(recorded: seq<Event>, reaped: seq<Event>, panik: seq<Event>, targets: seq<ReapTarget>) {
    NoReaping(recorded) && OnlyReaping(reaped) && Guarded(reaped, targets) && QuietPanik(panik)
  }

  lemma TeardownBehaves(cfg: PollConfig, captured: CapturedPids, t: Teardown, status: ReapStatus)
    requires TornDown(cfg, captured, t, status)
    ensures StagesBehave(t.recorded, Joined(t.segments), t.panik, Targets(captured))
  {
    if t.panik != [] {
      PanikIsQuiet(t.panik, TargetOf(captured.workload.value), status);
    }
  }

  /** No stage before the removal removes anything. */
  lemma StagesRemoveNothing(recorded: seq<Event>, reaped: seq<Event>, panik: seq<Event>, targets: seq<ReapTarget>)
    requires StagesBehave(recorded, reaped, panik, targets)
    ensures RemovesNothing(recorded + reaped + panik)
  {
  }

  lemma RemovalComesLast(stages: seq<Event>, status: ReapStatus)
    requires RemovesNothing(stages)
    ensures var log := stages + Removal(status) + Cleanup(status);
            && (RmAll in log <==> !status.OrphanSurvives?)
            && (RemovedScratch in log <==> !status.OrphanSurvives?)
            && (forall i :: 0 <= i < |log| && log[i].RmAll? ==> OnlyCleanupAfter(log, i))
  {
    var log := stages + Removal(status) + Cleanup(status);
    if !status.OrphanSurvives? {
      assert log[|stages|] == RmAll && log[|stages| + 1] == RemovedScratch;
    }
  }

  /** Exit code 1, a surviving orphan, no `rm -af` and a preserved scratch tree
      are one and the same; `rm -af` is issued at most once and nothing but file
      removal follows it. */
  ghost predicate Consistent(added: seq<Event>, status: ReapStatus, exitCode: nat) {
    && exitCode == (if status.OrphanSurvives? then 1 else 0)
    && (RmAll in added <==> !status.OrphanSurvives?)
    && (RemovedScratch in added <==> !status.OrphanSurvives?)
    && (forall i :: 0 <= i < |added| && added[i].RmAll? ==> OnlyCleanupAfter(added, i))
  }

  function RunLog(t: Teardown, status: ReapStatus): seq<Event> {
    Stages(t) + Removal(status) + Cleanup(status)
  }

  /** Whatever the stages did within their bounds, the run that ends with them is consistent. */
  lemma RunIsConsistent(t: Teardown, status: ReapStatus, targets: seq<ReapTarget>)
    requires StagesBehave(t.recorded, Joined(t.segments), t.panik, targets)
    ensures Consistent(RunLog(t, status), status, if status.OrphanSurvives? then 1 else 0)
  {
    StagesRemoveNothing(t.recorded, Joined(t.segments), t.panik, targets);
    RemovalComesLast(Stages(t), status);
  }

  /** The idle path of a run. */
  method FinishIdle(host: Host) returns (ghost added: seq<Event>)
    modifies host
    ensures host.log == old(host.log) + added
    ensures added == [RmAll, RemovedScratch, RemovedPidFile] && Consistent(added, NotApplicable, 0)
  {
    host.Do(RmAll);
    var cleanup := FinalCleanup(host, false);
    added := [RmAll, RemovedScratch, RemovedPidFile];
    RemovalComesLast([], NotApplicable);
    assert [] + Removal(NotApplicable) + Cleanup(NotApplicable) == added;
  }

  /** The signal path of a run. */
  method FinishSignal(host: Host, cfg: PollConfig, captured: CapturedPids)
    returns (status: ReapStatus, ghost added: seq<Event>, ghost t: Teardown)
    modifies host
    ensures host.log == old(host.log) + added && added == RunLog(t, status)
    ensures TornDown(cfg, captured, t, status) && Witnessed(host, captured, t, status)
  {
    status, t := ShutDownBySignal(host, cfg, captured);
    var cleanup := FinalCleanup(host, status.OrphanSurvives?);
    added := RunLog(t, status);
    LogAssociates(old(host.log), Stages(t), Removal(status), Cleanup(status));
  }

  lemma LogAssociates(a: seq<Event>, b: seq<Event>, c: seq<Event>, d: seq<Event>)
    ensures a + b + c + d == a + (b + c + d)
  {
  }

  /** Every teardown makes a consistent and guarded run, in which the sentinel is written
      exactly when the direct reap failed with a panik path and a workload known. */
  lemma TeardownMakesASoundRun(cfg: PollConfig, captured: CapturedPids, t: Teardown, status: ReapStatus)
    requires TornDown(cfg, captured, t, status)
    ensures Consistent(RunLog(t, status), status, if status.OrphanSurvives? then 1 else 0)
    ensures Guarded(RunLog(t, status), Targets(captured))
    ensures WroteSentinel in RunLog(t, status) <==>
            t.direct.OrphanSurvives? && cfg.panikFile && captured.workload.Some?
  {
    TeardownBehaves(cfg, captured, t, status);
    RunIsConsistent(t, status, Targets(captured));
    SentinelPlace(t, status, Targets(captured));
    WholeRunGuarded(t, status, Targets(captured));
  }

  /** In every teardown SIGKILL follows SIGTERM by the secondary's whole grace, and a PID
      is left standing only after the container's whole stop grace on top. */
  lemma TeardownKeepsTheGraces(cfg: PollConfig, captured: CapturedPids, t: Teardown, status: ReapStatus, i: nat)
    returns (last: seq<Event>)
    requires TornDown(cfg, captured, t, status) && i < |Targets(captured)| && Targets(captured)[i].startTime.Some?
    requires SigKill in Signals(t.segments[i])
    ensures var x := Targets(captured)[i];
            t.segments[i] == [Probed(x, x.startTime), Signalled(x.pid, SigTerm)]
                             + StillThere(x, Ticks(cfg.secondaryGrace)) + [Probed(x, x.startTime)]
                             + [Signalled(x.pid, SigKill)] + last
    ensures var x := Targets(captured)[i];
            EndsAlive(t.segments[i], x) ==>
              last == StillThere(x, Ticks(cfg.containerStopGrace)) + [Probed(x, x.startTime)]
  {
    var x := Targets(captured)[i];
    var graces := ReapGraces(cfg.secondaryGrace, cfg.containerStopGrace);
    assert ReapedAt(Targets(captured), graces, t.segments, i);
    last := KilledOnlyAfterTheGrace(
      x, graces, t.segments[i], if EndsAlive(t.segments[i], x) then OrphanSurvives else ConfirmedGone);
  }

  /** The other stages send no signal, so the guard of the reap is the guard of the run. */
  lemma WholeRunGuarded(t: Teardown, status: ReapStatus, targets: seq<ReapTarget>)
    requires StagesBehave(t.recorded, Joined(t.segments), t.panik, targets)
    ensures Guarded(RunLog(t, status), targets)
  {
    var reaped, tail := Joined(t.segments), t.panik + Removal(status) + Cleanup(status);
    NothingToGuard(t.recorded);
    NothingToGuard(tail);
    GuardedConcat(t.recorded, reaped, [], targets, targets);
    GuardedConcat(t.recorded + reaped, tail, targets, [], targets);
    assert t.recorded + reaped + tail == RunLog(t, status);
  }

  lemma NothingToGuard(log: seq<Event>)
    requires forall i :: 0 <= i < |log| ==> !log[i].Signalled?
    ensures Guarded(log, [])
  {
  }

  lemma SentinelPlace(t: Teardown, status: ReapStatus, targets: seq<ReapTarget>)
    requires StagesBehave(t.recorded, Joined(t.segments), t.panik, targets)
    ensures WroteSentinel in RunLog(t, status) <==> t.panik != []
  {
    var front, tail := t.recorded + Joined(t.segments), Removal(status) + Cleanup(status);
    assert RunLog(t, status) == front + t.panik + tail;
    assert WroteSentinel !in front && WroteSentinel !in tail;
    if t.panik != [] {
      assert t.panik[0] == WroteSentinel;
    }
  }

  /** On every completed run the four ways of saying "an orphan survives" agree,
      nothing but file removal follows `rm -af`, every signal was guarded by an
      identity probe of a PID the polls captured, and the run is a teardown of
      exactly those PIDs. */
  method RunManager(host: Host, cfg: PollConfig, trace: seq<Observation>)
    returns (exit: LoopExit, status: ReapStatus, exitCode: nat, ghost added: seq<Event>, ghost t: Teardown)
    modifies host
    ensures host.log == old(host.log) + added
    ensures ExitsCorrectly(cfg, trace, IdlePolls(cfg), exit)
    ensures exit.StillPolling? ==> added == []
    ensures !exit.StillPolling? ==> Consistent(added, status, exitCode)
    ensures exit.IdleShutdown? ==> status == NotApplicable && added == [RmAll, RemovedScratch, RemovedPidFile]
    ensures exit.SignalShutdown? ==>
      && TornDown(cfg, exit.captured, t, status) && added == RunLog(t, status)
      && Guarded(added, Targets(exit.captured))
      && (WroteSentinel in added <==> t.direct.OrphanSurvives? && cfg.panikFile && exit.captured.workload.Some?)
      && (RmAll in added && SomebodyLives(host, exit.captured) ==>
            ConmonUnasked(cfg, exit.captured) || SomeUnidentified(exit.captured))
  {
    exit := Poll(cfg, trace);
    added, status, exitCode := [], NotApplicable, 0;
    t := Teardown([], [], [], NotApplicable);
    match exit
    case StillPolling =>
    case IdleShutdown(_) =>
      added := FinishIdle(host);
    case SignalShutdown(_, _, captured) =>
      status, added, t := FinishSignal(host, cfg, captured);
      TeardownMakesASoundRun(cfg, captured, t, status);
      if !status.OrphanSurvives? && SomebodyLives(host, captured) {
        RemovalUnderALivingPid(host, cfg, captured, t, status);
      }
      exitCode := if status.OrphanSurvives? then 1 else 0;
  }

  // ---------------------------------------------------------------------
  // What the last resort gives up
  // ---------------------------------------------------------------------

  /** The last resort can be reached and asks about somebody else than conmon. */
  predicate ConmonUnasked(cfg: PollConfig, captured: CapturedPids) {
    cfg.panikFile && captured.workload.Some? && captured.conmon.Some? && captured.conmon.value.1.Some?
    && captured.conmon != captured.workload
  }

  /** "Remove only when both PIDs are gone": `rm -af` is issued although the last probe of
      a captured process still saw it only if that process is conmon and the last
      resort was left to ask about the workload alone. */
  lemma RemovalUnderALivingProcess(
    cfg: PollConfig, captured: CapturedPids, t: Teardown, status: ReapStatus, x: ReapTarget)
    requires TornDown(cfg, captured, t, status) && !status.OrphanSurvives? && SeenAlive(Stages(t), x)
    ensures ConmonUnasked(cfg, captured) && x == TargetOf(captured.conmon.value)
  {
    var reaped := Joined(t.segments);
    assert t.panik == [] ==> Stages(t) == t.recorded + reaped;
    if t.panik != [] {
      PanikDecides(t.recorded + reaped, t.panik, TargetOf(captured.workload.value), status, x);
    }
    ProbelessPrefix(t.recorded, reaped, x);
  }

  lemma PanikDecides(before: seq<Event>, panik: seq<Event>, workload: ReapTarget, status: ReapStatus, x: ReapTarget)
    requires PanikWait(panik, workload, status) && SeenAlive(before + panik, x)
    ensures x == workload ==> status.OrphanSurvives?
    ensures x != workload ==> SeenAlive(before, x)
  {
    var waited := panik[1..];
    if workload.startTime.Some? {
      WaitShape(workload, PANIK_GRACE, waited, status != OrphanSurvives);
    }
    assert before + panik == before + [WroteSentinel] + waited;
    if x == workload {
      LastProbeDecides(before + [WroteSentinel], waited, x);
    } else {
      OtherProbesKeep(before + [WroteSentinel], waited, x);
      OtherProbesKeep(before, [WroteSentinel], x);
    }
  }

  /** The process a capture names is running, whatever happens; where a start time was
      captured with it, it is that process. */
  ghost predicate Lives(host: Host, t: ReapTarget) {
    forall n :: host.startTimeOf(n, t.pid).Some? && (t.startTime.Some? ==> host.startTimeOf(n, t.pid) == t.startTime)
  }

  ghost predicate SomebodyLives(host: Host, captured: CapturedPids) {
    exists x :: x in Targets(captured) && Lives(host, x)
  }

  /** A PID was captured without its start time, so it is never probed and counts as gone. */
  predicate SomeUnidentified(captured: CapturedPids) {
    (captured.conmon.Some? && captured.conmon.value.1.None?) || (captured.workload.Some? && captured.workload.value.1.None?)
  }

  /** "If any known PID is still alive the handle is left intact": `rm -af` is issued under
      a captured PID that is running all along only if conmon goes unasked or a PID was
      captured without its start time ... */
  lemma RemovalUnderALivingPid(host: Host, cfg: PollConfig, captured: CapturedPids, t: Teardown, status: ReapStatus)
    requires TornDown(cfg, captured, t, status) && Witnessed(host, captured, t, status)
    requires !status.OrphanSurvives? && SomebodyLives(host, captured)
    ensures ConmonUnasked(cfg, captured) || SomeUnidentified(captured)
  {
    var targets := Targets(captured);
    var x :| x in targets && Lives(host, x);
    if x.startTime.Some? {
      var i :| 0 <= i < |targets| && targets[i] == x;
      assert AlwaysThere(host, x) && EndsAlive(t.segments[i], targets[i]);
      assert SomeSurvivor(targets, t.segments);
    }
  }

  /** ... and for every such configuration and capture there is a host on which it happens. */
  method RmUnderALivingPid(cfg: PollConfig, captured: CapturedPids)
    returns (host: Host, status: ReapStatus, ghost t: Teardown)
    requires ConmonUnasked(cfg, captured) || SomeUnidentified(captured)
    ensures TornDown(cfg, captured, t, status) && host.log == Stages(t) + [RmAll]
    ensures SomebodyLives(host, captured)
  {
    if SomeUnidentified(captured) {
      host, status, t := RmUnderUnidentified(cfg, captured);
    } else {
      host, status, t := RmUnderLivingConmon(cfg, captured);
      assert TargetOf(captured.conmon.value) in Targets(captured) && Lives(host, TargetOf(captured.conmon.value));
    }
  }

  /** A PID whose start time was not read stays, under a start time nobody captured. */
  method RmUnderUnidentified(cfg: PollConfig, captured: CapturedPids)
    returns (host: Host, status: ReapStatus, ghost t: Teardown)
    requires SomeUnidentified(captured)
    ensures TornDown(cfg, captured, t, status) && host.log == Stages(t) + [RmAll]
    ensures SomebodyLives(host, captured)
  {
    var unread := if captured.conmon.Some? && captured.conmon.value.1.None? then captured.conmon.value
                  else captured.workload.value;
    var other := Unlike(captured);
    host := new Host((n: nat, pid: Pid) => if pid == unread.0 then Some(other) else None, n => false, n => None);
    assert TargetOf(unread) in Targets(captured) && Lives(host, TargetOf(unread));
    assert forall x :: x in Targets(captured) ==> NeverThere(host, x);
    status, t := ShutDownBySignal(host, cfg, captured);
  }

  /** A start time that was not captured. */
  function Unlike(captured: CapturedPids): (other: nat)
    ensures forall x :: x in Targets(captured) ==> x.startTime != Some(other)
  {
    var a := if captured.conmon.Some? && captured.conmon.value.1.Some? then captured.conmon.value.1.value else 0;
    var b := if captured.workload.Some? && captured.workload.value.1.Some? then captured.workload.value.1.value else 0;
    a + b + 1
  }

  /** With a conmon that never dies, its last probe seeing it. */
  method RmUnderLivingConmon(cfg: PollConfig, captured: CapturedPids)
    returns (host: Host, status: ReapStatus, ghost t: Teardown)
    requires ConmonUnasked(cfg, captured)
    ensures TornDown(cfg, captured, t, status) && host.log == Stages(t) + [RmAll]
    ensures AlwaysThere(host, TargetOf(captured.conmon.value)) && SeenAlive(Stages(t), TargetOf(captured.conmon.value))
  {
    var conmon, workload := TargetOf(captured.conmon.value), TargetOf(captured.workload.value);
    host := new Host((n: nat, pid: Pid) => if pid == conmon.pid then conmon.startTime else None, n => false, n => None);
    assert Targets(captured) == [conmon, workload];
    status, t := ShutDownBySignal(host, cfg, captured);
    assert AlwaysThere(host, Targets(captured)[0]) && NeverThere(host, workload);
    ConmonLastSeen(t, conmon, workload, status);
  }

  lemma ConmonLastSeen(t: Teardown, conmon: ReapTarget, workload: ReapTarget, status: ReapStatus)
    requires |t.segments| == 2 && EndsAlive(t.segments[0], conmon) && ProbesOnly(t.segments[1], workload)
    requires conmon != workload && PanikWait(t.panik, workload, status) && NoReaping(t.recorded)
    ensures SeenAlive(Stages(t), conmon)
  {
    var a, b := t.segments[0], t.segments[1];
    assert t.segments[..1] == [a] && [a][..0] == [];
    assert Joined(t.segments) == Joined([a]) + b && Joined([a]) == Joined([]) + a;
    LastProbeDecides(t.recorded, a, conmon);
    OtherProbesKeep(t.recorded + a, b, conmon);
    assert t.recorded + a + b == t.recorded + Joined(t.segments);
    PanikSeesOthers(t.recorded + Joined(t.segments), t.panik, workload, status, conmon);
  }

  /** The last resort asks about the workload only. */
  lemma PanikSeesOthers(before: seq<Event>, panik: seq<Event>, workload: ReapTarget, status: ReapStatus, x: ReapTarget)
    requires PanikWait(panik, workload, status) && x != workload
    ensures SeenAlive(before + panik, x) <==> SeenAlive(before, x)
  {
    if workload.startTime.Some? {
      WaitShape(workload, PANIK_GRACE, panik[1..], status != OrphanSurvives);
    }
    assert panik == [WroteSentinel] + panik[1..];
    OtherProbesKeep(before, panik, x);
  }
}
