/**
 Pre-apply validation of a spawn batch
 (crates/dynrunner-core/src/spawn_tasks_validator.rs).

 The receiver's ledger, known identities and phase gate are arbitrary
 predicates, as the three closures are; the content hash is an arbitrary function.
 */
module SpawnValidator {
  import opened TaskIds
  import opened Wrappers

  datatype TaskInfo = TaskInfo(phase: string, task: string, content: string, dependsOn: seq<Identity>) {
    function Id(): Identity {
      Identity(phase, task)
    }
  }

  datatype SpawnError =
    | DuplicateTaskHash(hash: string)
    | DuplicateInBatch(hash: string)
    | UnknownDependency(hash: string, depTaskId: string)
    | BarrierViolation(hash: string, phase: string)

  datatype Receiver = Receiver(
    hash: TaskInfo -> string, present: string -> bool, known: Identity -> bool, accepts: string -> bool)

  // ---------------------------------------------------------------------
  // The verdict on each task, index by index
  // ---------------------------------------------------------------------

  function BatchIds(tasks: seq<TaskInfo>): set<Identity> {
    set t | t in tasks :: t.Id()
  }

  predicate Resolves(r: Receiver, ids: set<Identity>, dep: Identity) {
    dep in ids || r.known(dep)
  }

  /** The task id of the first dependency that resolves nowhere. */
  function FirstBadDep(r: Receiver, ids: set<Identity>, deps: seq<Identity>): Option<string> {
    if deps == [] then None
    else if Resolves(r, ids, deps[0]) then FirstBadDep(r, ids, deps[1..])
    else Some(deps[0].task)
  }

  /** An earlier task of the batch has the same content hash. */
  predicate Repeats(r: Receiver, tasks: seq<TaskInfo>, i: nat)
    requires i < |tasks|
  {
    exists j :: 0 <= j < i && r.hash(tasks[j]) == r.hash(tasks[i])
  }

  /** Why task `i` is rejected, or `None` when it is accepted. */
  function Verdict(r: Receiver, tasks: seq<TaskInfo>, i: nat): Option<SpawnError>
    requires i < |tasks|
  {
    var h := r.hash(tasks[i]);
    if r.present(h) then Some(DuplicateTaskHash(h))
    else if Repeats(r, tasks, i) then Some(DuplicateInBatch(h))
    else match FirstBadDep(r, BatchIds(tasks), tasks[i].dependsOn)
      case Some(dep) => Some(UnknownDependency(h, dep))
      case None => if r.accepts(tasks[i].phase) then None else Some(BarrierViolation(h, tasks[i].phase))
  }

  /** Some task of the batch goes by that phase and id. */
  ghost predicate InBatch(tasks: seq<TaskInfo>, dep: Identity) {
    exists m :: 0 <= m < |tasks| && tasks[m].phase == dep.phase && tasks[m].task == dep.task
  }

  /** `k` is the first dependency that neither the batch nor the receiver knows. */
  ghost predicate FirstUnknown(r: Receiver, tasks: seq<TaskInfo>, deps: seq<Identity>, k: nat) {
    k < |deps| && !InBatch(tasks, deps[k]) && !r.known(deps[k])
    && forall j :: 0 <= j < k ==> InBatch(tasks, deps[j]) || r.known(deps[j])
  }

  lemma {:induction false} BadDepExactly(r: Receiver, tasks: seq<TaskInfo>, deps: seq<Identity>)
    ensures FirstBadDep(r, BatchIds(tasks), deps).None? <==>
            forall j :: 0 <= j < |deps| ==> InBatch(tasks, deps[j]) || r.known(deps[j])
    ensures forall name :: FirstBadDep(r, BatchIds(tasks), deps) == Some(name) <==>
              exists k: nat :: FirstUnknown(r, tasks, deps, k) && deps[k].task == name
  {
    if deps != [] {
      var rest := deps[1..];
      BadDepExactly(r, tasks, rest);
      IdentityInBatch(tasks, deps[0]);
      if Resolves(r, BatchIds(tasks), deps[0]) {
        assert forall j :: 1 <= j < |deps| ==> deps[j] == rest[j - 1];
        assert forall k: nat :: k < |rest| ==> (FirstUnknown(r, tasks, rest, k) <==> FirstUnknown(r, tasks, deps, k + 1));
        forall k: nat | FirstUnknown(r, tasks, deps, k) ensures k > 0 && FirstUnknown(r, tasks, rest, k - 1) {
        }
      } else {
        assert FirstUnknown(r, tasks, deps, 0);
      }
    }
  }

  lemma IdentityInBatch(tasks: seq<TaskInfo>, dep: Identity)
    ensures dep in BatchIds(tasks) <==> InBatch(tasks, dep)
  {
    if InBatch(tasks, dep) {
      var m :| 0 <= m < |tasks| && tasks[m].phase == dep.phase && tasks[m].task == dep.task;
      assert tasks[m] in tasks && tasks[m].Id() == dep;
    }
  }

  /** Each verdict by the receiver's answers and the batch alone: the ledger is asked
      first, then the earlier batch, then the dependencies in order, then the phase. */
  lemma VerdictExactly(r: Receiver, tasks: seq<TaskInfo>, i: nat)
    requires i < |tasks|
    ensures var (h, v, deps) := (r.hash(tasks[i]), Verdict(r, tasks, i), tasks[i].dependsOn);
            var first := !r.present(h) && forall j :: 0 <= j < i ==> r.hash(tasks[j]) != h;
            var resolved := forall j :: 0 <= j < |deps| ==> InBatch(tasks, deps[j]) || r.known(deps[j]);
            && (v == Some(DuplicateTaskHash(h)) <==> r.present(h))
            && (v == Some(DuplicateInBatch(h)) <==> !r.present(h) && !first)
            && (forall name :: v == Some(UnknownDependency(h, name)) <==>
                  first && exists k: nat :: FirstUnknown(r, tasks, deps, k) && deps[k].task == name)
            && (v == Some(BarrierViolation(h, tasks[i].phase)) <==> first && resolved && !r.accepts(tasks[i].phase))
            && (v == None <==> first && resolved && r.accepts(tasks[i].phase))
  {
    BadDepExactly(r, tasks, tasks[i].dependsOn);
  }

  /** The accepted indices below `n`, ascending. */
  function Accepted(r: Receiver, tasks: seq<TaskInfo>, n: nat): (s: seq<nat>)
    requires n <= |tasks|
    ensures forall k :: 0 <= k < |s| ==> s[k] < n
  {
    if n == 0 then []
    else Accepted(r, tasks, n - 1) + if Verdict(r, tasks, n - 1).None? then [n - 1] else []
  }

  function Errors(r: Receiver, tasks: seq<TaskInfo>, n: nat): seq<(nat, SpawnError)>
    requires n <= |tasks|
  {
    if n == 0 then []
    else Errors(r, tasks, n - 1) + match Verdict(r, tasks, n - 1)
           case None => []
           case Some(e) => [(n - 1, e)]
  }

  function Pick(tasks: seq<TaskInfo>, indices: seq<nat>): seq<TaskInfo>
    requires forall k :: 0 <= k < |indices| ==> indices[k] < |tasks|
  {
    seq(|indices|, k requires 0 <= k < |indices| => tasks[indices[k]])
  }

  // ---------------------------------------------------------------------
  // The single pass
  // ---------------------------------------------------------------------

  function HashesBelow(r: Receiver, tasks: seq<TaskInfo>, n: nat): set<string>
    requires n <= |tasks|
  {
    set j | 0 <= j < n && !r.present(r.hash(tasks[j])) :: r.hash(tasks[j])
  }

  method FindBadDep(r: Receiver, ids: set<Identity>, deps: seq<Identity>) returns (bad: Option<string>)
    ensures bad == FirstBadDep(r, ids, deps)
  {
    for i := 0 to |deps|
      invariant FirstBadDep(r, ids, deps) == FirstBadDep(r, ids, deps[i..])
    {
      assert deps[i..][1..] == deps[i + 1..];
      if deps[i] !in ids && !r.known(deps[i]) {
        return Some(deps[i].task);
      }
    }
    return None;
  }

  /** One pass with a growing `seen` set computes, at every index, the verdict
      that the whole earlier batch determines. */
  method ValidateSpawnTasks(r: Receiver, tasks: seq<TaskInfo>)
    returns (valid: seq<TaskInfo>, errors: seq<(nat, SpawnError)>)
    ensures valid == Pick(tasks, Accepted(r, tasks, |tasks|))
    ensures errors == Errors(r, tasks, |tasks|)
  {
    valid, errors := [], [];
    var ids := BatchIds(tasks);
    var seen: set<string> := {};
    for i := 0 to |tasks|
      invariant seen == HashesBelow(r, tasks, i)
      invariant valid == Pick(tasks, Accepted(r, tasks, i))
      invariant errors == Errors(r, tasks, i)
    {
      var h := r.hash(tasks[i]);
      if r.present(h) {
        assert HashesBelow(r, tasks, i + 1) == HashesBelow(r, tasks, i);
        errors := errors + [(i, DuplicateTaskHash(h))];
        continue;
      }
      assert HashesBelow(r, tasks, i + 1) == HashesBelow(r, tasks, i) + {h};
      assert h in seen <==> Repeats(r, tasks, i);
      if h in seen {
        errors := errors + [(i, DuplicateInBatch(h))];
        assert seen + {h} == seen;
        continue;
      }
      seen := seen + {h};
      var bad := FindBadDep(r, ids, tasks[i].dependsOn);
      if bad.Some? {
        errors := errors + [(i, UnknownDependency(h, bad.value))];
        continue;
      }
      if !r.accepts(tasks[i].phase) {
        errors := errors + [(i, BarrierViolation(h, tasks[i].phase))];
        continue;
      }
      valid := valid + [tasks[i]];
    }
  }

  // ---------------------------------------------------------------------
  // Partition
  // ---------------------------------------------------------------------

  /** The accepted indices ascend and are exactly those without an error. */
  lemma {:induction false} AcceptedExact(r: Receiver, tasks: seq<TaskInfo>, n: nat)
    requires n <= |tasks|
    ensures var ok := Accepted(r, tasks, n);
            && (forall i, j :: 0 <= i < j < |ok| ==> ok[i] < ok[j])
            && (forall i :: 0 <= i < n ==> (i in ok <==> Verdict(r, tasks, i).None?))
  {
    if n > 0 {
      AcceptedExact(r, tasks, n - 1);
      var before := Accepted(r, tasks, n - 1);
      assert n - 1 !in before;
      forall i | 0 <= i < n ensures i in Accepted(r, tasks, n) <==> Verdict(r, tasks, i).None? {
        assert i < n - 1 ==> (i in before <==> Verdict(r, tasks, i).None?);
      }
    }
  }

  lemma {:induction false} ErrorsAscend(r: Receiver, tasks: seq<TaskInfo>, n: nat)
    requires n <= |tasks|
    ensures |Accepted(r, tasks, n)| + |Errors(r, tasks, n)| == n
    ensures Ascending(Errors(r, tasks, n), n)
  {
    if n > 0 {
      ErrorsAscend(r, tasks, n - 1);
    }
  }

  lemma {:induction false} ErrorAt(r: Receiver, tasks: seq<TaskInfo>, n: nat, i: nat, e: SpawnError)
    requires i < n <= |tasks|
    ensures (i, e) in Errors(r, tasks, n) <==> Verdict(r, tasks, i) == Some(e)
    decreases n
  {
    if i == n - 1 {
      ErrorsAscend(r, tasks, i);
      assert (i, e) !in Errors(r, tasks, i);
    } else {
      ErrorAt(r, tasks, n - 1, i, e);
    }
  }

  /** One error per rejected index, in ascending order, and none besides. */
  lemma ErrorsExact(r: Receiver, tasks: seq<TaskInfo>, n: nat)
    requires n <= |tasks|
    ensures |Accepted(r, tasks, n)| + |Errors(r, tasks, n)| == n
    ensures Ascending(Errors(r, tasks, n), n)
    ensures forall i: nat, e :: i < n ==> ((i, e) in Errors(r, tasks, n) <==> Verdict(r, tasks, i) == Some(e))
  {
    ErrorsAscend(r, tasks, n);
    forall i: nat, e | i < n ensures (i, e) in Errors(r, tasks, n) <==> Verdict(r, tasks, i) == Some(e) {
      ErrorAt(r, tasks, n, i, e);
    }
  }

  /** Indices strictly ascending, all below `n`. */
  ghost predicate Ascending(bad: seq<(nat, SpawnError)>, n: nat) {
    (forall i, j :: 0 <= i < j < |bad| ==> bad[i].0 < bad[j].0)
    && forall k :: 0 <= k < |bad| ==> bad[k].0 < n
  }

  /** Accepted tasks are new to the ledger and pairwise distinct by hash. */
  lemma AcceptedAreFresh(r: Receiver, tasks: seq<TaskInfo>, i: nat, j: nat)
    requires i <= j < |tasks| && Verdict(r, tasks, i).None? && Verdict(r, tasks, j).None?
    ensures !r.present(r.hash(tasks[i]))
    ensures i < j ==> r.hash(tasks[i]) != r.hash(tasks[j])
  {
  }

  /** Every later occurrence of a hash the ledger lacks is an in-batch duplicate,
      even when its first occurrence was itself rejected. */
  lemma LaterOccurrence(r: Receiver, tasks: seq<TaskInfo>, j: nat, i: nat)
    requires j < i < |tasks| && r.hash(tasks[j]) == r.hash(tasks[i])
    ensures Verdict(r, tasks, i) ==
            Some(if r.present(r.hash(tasks[i])) then DuplicateTaskHash(r.hash(tasks[i]))
                 else DuplicateInBatch(r.hash(tasks[i])))
  {
  }

  // ---------------------------------------------------------------------
  // Failover replay
  // ---------------------------------------------------------------------

  ghost predicate AcceptedHash(r: Receiver, tasks: seq<TaskInfo>, h: string) {
    exists i :: 0 <= i < |tasks| && Verdict(r, tasks, i).None? && r.hash(tasks[i]) == h
  }

  ghost predicate AcceptedId(r: Receiver, tasks: seq<TaskInfo>, id: Identity) {
    exists i :: 0 <= i < |tasks| && Verdict(r, tasks, i).None? && tasks[i].Id() == id
  }

  /** `after` is the receiver once the accepted tasks are in its ledger. */
  ghost predicate Applied(r: Receiver, tasks: seq<TaskInfo>, after: Receiver) {
    && after.hash == r.hash
    && after.accepts == r.accepts
    && (forall h :: after.present(h) <==> r.present(h) || AcceptedHash(r, tasks, h))
    && (forall id :: after.known(id) <==> r.known(id) || AcceptedId(r, tasks, id))
  }

  lemma {:induction false} BadDepUnchanged(r: Receiver, tasks: seq<TaskInfo>, after: Receiver, deps: seq<Identity>)
    requires Applied(r, tasks, after)
    ensures FirstBadDep(after, BatchIds(tasks), deps) == FirstBadDep(r, BatchIds(tasks), deps)
  {
    if deps != [] {
      BadDepUnchanged(r, tasks, after, deps[1..]);
      assert AcceptedId(r, tasks, deps[0]) ==> deps[0] in BatchIds(tasks);
    }
  }

  /** Re-validating the batch after a failover: every verdict, exactly.  Accepted
      tasks and duplicates of them come back as already present; every other
      rejection comes back unchanged. */
  lemma ReplayVerdict(r: Receiver, tasks: seq<TaskInfo>, after: Receiver, i: nat)
    requires i < |tasks| && Applied(r, tasks, after)
    ensures var h := r.hash(tasks[i]);
            Verdict(after, tasks, i) ==
            if AcceptedHash(r, tasks, h) then Some(DuplicateTaskHash(h)) else Verdict(r, tasks, i)
    ensures Verdict(r, tasks, i).None? ==> AcceptedHash(r, tasks, r.hash(tasks[i]))
    ensures AcceptedHash(r, tasks, r.hash(tasks[i])) && Verdict(r, tasks, i).Some?
            ==> Verdict(r, tasks, i).value.DuplicateInBatch?
  {
    var h := r.hash(tasks[i]);
    BadDepUnchanged(r, tasks, after, tasks[i].dependsOn);
    assert Repeats(after, tasks, i) <==> Repeats(r, tasks, i);
    if AcceptedHash(r, tasks, h) && Verdict(r, tasks, i).Some? {
      var j :| 0 <= j < |tasks| && Verdict(r, tasks, j).None? && r.hash(tasks[j]) == h;
      if j < i { LaterOccurrence(r, tasks, j, i); } else if i < j { LaterOccurrence(r, tasks, i, j); }
    }
  }

  /** Replay is idempotent: nothing is accepted the second time. */
  lemma {:induction false} ReplayAcceptsNothing(r: Receiver, tasks: seq<TaskInfo>, after: Receiver, n: nat)
    requires n <= |tasks| && Applied(r, tasks, after)
    ensures Accepted(after, tasks, n) == []
  {
    if n > 0 {
      ReplayAcceptsNothing(r, tasks, after, n - 1);
      ReplayVerdict(r, tasks, after, n - 1);
    }
  }

  // ---------------------------------------------------------------------
  // Dependencies of accepted tasks
  // ---------------------------------------------------------------------

  lemma {:induction false} GoodDeps(r: Receiver, ids: set<Identity>, deps: seq<Identity>, k: nat)
    requires k < |deps| && FirstBadDep(r, ids, deps).None?
    ensures Resolves(r, ids, deps[k])
  {
    if k > 0 { GoodDeps(r, ids, deps[1..], k - 1); }
  }

  lemma {:induction false} FirstOccurrence(r: Receiver, tasks: seq<TaskInfo>, i: nat) returns (j: nat)
    requires i < |tasks|
    ensures j <= i && r.hash(tasks[j]) == r.hash(tasks[i]) && !Repeats(r, tasks, j)
  {
    if Repeats(r, tasks, i) {
      var k :| 0 <= k < i && r.hash(tasks[k]) == r.hash(tasks[i]);
      j := FirstOccurrence(r, tasks, k);
    } else {
      j := i;
    }
  }

  /** The identities of what the ledger already holds are known. */
  ghost predicate LedgerKnown(r: Receiver, tasks: seq<TaskInfo>) {
    forall t :: t in tasks && r.present(r.hash(t)) ==> r.known(t.Id())
  }

  /** Task `i` passes every guard but the ledger's: it is the first of its hash, its own
      dependencies resolve, and its phase is open. */
  ghost predicate Admissible(r: Receiver, tasks: seq<TaskInfo>, i: nat) {
    i < |tasks| && !Repeats(r, tasks, i) && FirstBadDep(r, BatchIds(tasks), tasks[i].dependsOn).None?
    && r.accepts(tasks[i].phase)
  }

  /** An unknown identity is accepted exactly when some admissible task of the batch has it. */
  lemma AcceptedExactlyIfAdmissible(r: Receiver, tasks: seq<TaskInfo>, dep: Identity)
    requires LedgerKnown(r, tasks) && !r.known(dep)
    ensures AcceptedId(r, tasks, dep) <==> exists i: nat :: Admissible(r, tasks, i) && tasks[i].Id() == dep
  {
    if AcceptedId(r, tasks, dep) {
      var i :| 0 <= i < |tasks| && Verdict(r, tasks, i).None? && tasks[i].Id() == dep;
      assert Admissible(r, tasks, i);
    }
    if exists i: nat :: Admissible(r, tasks, i) && tasks[i].Id() == dep {
      var i: nat :| Admissible(r, tasks, i) && tasks[i].Id() == dep;
      assert tasks[i] in tasks;
      assert Verdict(r, tasks, i).None?;
    }
  }

  /** Where the hash tells tasks apart, being the first of its hash is no condition. */
  lemma AcceptedExactlyIfOpen(r: Receiver, tasks: seq<TaskInfo>, dep: Identity)
    requires LedgerKnown(r, tasks) && !r.known(dep)
    requires forall a, b :: a in tasks && b in tasks && r.hash(a) == r.hash(b) ==> a == b
    ensures AcceptedId(r, tasks, dep) <==>
            exists t :: t in tasks && t.Id() == dep && r.accepts(t.phase)
                        && FirstBadDep(r, BatchIds(tasks), t.dependsOn).None?
  {
    AcceptedExactlyIfAdmissible(r, tasks, dep);
    if exists i: nat :: Admissible(r, tasks, i) && tasks[i].Id() == dep {
      var i: nat :| Admissible(r, tasks, i) && tasks[i].Id() == dep;
      assert tasks[i] in tasks;
    }
    forall t | t in tasks && t.Id() == dep && r.accepts(t.phase)
               && FirstBadDep(r, BatchIds(tasks), t.dependsOn).None?
      ensures AcceptedId(r, tasks, dep)
    {
      var m :| 0 <= m < |tasks| && tasks[m] == t;
      var j := FirstOccurrence(r, tasks, m);
      assert tasks[j] in tasks && tasks[j] == t;
      assert Admissible(r, tasks, j);
    }
  }

  /** Whatever an accepted task depends on is known or accepted with it. */
  ghost predicate Closed(r: Receiver, tasks: seq<TaskInfo>) {
    forall i, dep :: 0 <= i < |tasks| && Verdict(r, tasks, i).None? && dep in tasks[i].dependsOn ==>
      r.known(dep) || AcceptedId(r, tasks, dep)
  }

  /** Acceptance is closed exactly when every unknown dependency of an admissible task that
      is new to the ledger names an admissible task of the batch. */
  lemma ClosedExactly(r: Receiver, tasks: seq<TaskInfo>)
    requires LedgerKnown(r, tasks)
    ensures Closed(r, tasks) <==>
            forall i: nat, dep :: Admissible(r, tasks, i) && !r.present(r.hash(tasks[i]))
                                  && dep in tasks[i].dependsOn && !r.known(dep) ==>
              exists j: nat :: Admissible(r, tasks, j) && tasks[j].Id() == dep
  {
    forall i: nat | i < |tasks|
      ensures Verdict(r, tasks, i).None? <==> Admissible(r, tasks, i) && !r.present(r.hash(tasks[i]))
    {
    }
    forall dep | !r.known(dep)
      ensures AcceptedId(r, tasks, dep) <==> exists j: nat :: Admissible(r, tasks, j) && tasks[j].Id() == dep
    {
      AcceptedExactlyIfAdmissible(r, tasks, dep);
    }
  }

  /** In particular when the only rejections are duplicates and the hash tells
      identities apart. */
  lemma AcceptedDependenciesResolve(r: Receiver, tasks: seq<TaskInfo>)
    requires LedgerKnown(r, tasks)
    requires forall j :: 0 <= j < |tasks| && Verdict(r, tasks, j).Some? ==>
      Verdict(r, tasks, j).value.DuplicateTaskHash? || Verdict(r, tasks, j).value.DuplicateInBatch?
    requires forall a, b :: a in tasks && b in tasks && r.hash(a) == r.hash(b) ==> a.Id() == b.Id()
    ensures Closed(r, tasks)
  {
    forall i, dep | 0 <= i < |tasks| && Verdict(r, tasks, i).None? && dep in tasks[i].dependsOn && !r.known(dep)
      ensures AcceptedId(r, tasks, dep)
    {
      var k :| 0 <= k < |tasks[i].dependsOn| && tasks[i].dependsOn[k] == dep;
      GoodDeps(r, BatchIds(tasks), tasks[i].dependsOn, k);
      var t :| t in tasks && t.Id() == dep;
      var m :| 0 <= m < |tasks| && tasks[m] == t;
      var j := FirstOccurrence(r, tasks, m);
      assert tasks[j] in tasks && tasks[j].Id() == dep;
      assert Verdict(r, tasks, j).None?;
    }
  }

  /** A rejection that is not a duplicate breaks that closure: an accepted task
      may depend on a sibling the phase gate refused. */
  lemma AcceptedMayDependOnRejectedSibling()
    ensures exists r: Receiver, tasks: seq<TaskInfo> ::
      && |tasks| == 2 && Verdict(r, tasks, 0).None? && tasks[0].dependsOn == [tasks[1].Id()]
      && !r.known(tasks[1].Id()) && Verdict(r, tasks, 1) == Some(BarrierViolation(r.hash(tasks[1]), tasks[1].phase))
  {
    var blocked := TaskInfo("late", "b", "", []);
    var open := TaskInfo("now", "a", "", [blocked.Id()]);
    var r := Receiver((t: TaskInfo) => t.task, h => false, id => false, phase => phase == "now");
    var tasks := [open, blocked];
    assert blocked in tasks && blocked.Id() in BatchIds(tasks);
    assert FirstBadDep(r, BatchIds(tasks), [blocked.Id()]) == None;
    assert !Repeats(r, tasks, 0) && !Repeats(r, tasks, 1);
    assert Verdict(r, tasks, 0).None?;
    assert Verdict(r, tasks, 1) == Some(BarrierViolation("b", "late"));
  }
}
