/**
 Dispatch-time predecessor outputs (crates/dynrunner-core/src/output_gather.rs).

 The two caller-supplied lookups are finite maps keyed by the full
 `(phase, task)` identity.  The dependency graph may be cyclic.
 */
module OutputGather {
  import opened TaskIds
  import opened Wrappers

  datatype TaskDep = TaskDep(phase: string, task: string, inheritOutputs: bool) {
    function Id(): Identity {
      Identity(phase, task)
    }
  }

  type TaskOutputs = map<string, string>

  datatype Store = Store(outputs: map<Identity, TaskOutputs>, deps: map<Identity, seq<TaskDep>>)

  /** Recorded outputs, or the present-but-empty entry. */
  function Lookup(store: Store, id: Identity): TaskOutputs {
    if id in store.outputs then store.outputs[id] else map[]
  }

  function DepsOf(store: Store, id: Identity): seq<TaskDep> {
    if id in store.deps then store.deps[id] else []
  }

  // ---------------------------------------------------------------------
  // Reference: the order in which identities are offered to the result
  // ---------------------------------------------------------------------

  function Universe(store: Store): set<Identity> {
    set id, d | id in store.deps && d in store.deps[id] :: d.Id()
  }

  /** The identities among `deps` that are new, in order of first mention. */
  function Fresh(deps: seq<TaskDep>, visited: set<Identity>): seq<Identity> {
    if deps == [] then []
    else if deps[0].Id() in visited then Fresh(deps[1..], visited)
    else [deps[0].Id()] + Fresh(deps[1..], visited + {deps[0].Id()})
  }

  lemma {:induction false} FreshMembers(deps: seq<TaskDep>, visited: set<Identity>)
    ensures forall x :: x in Fresh(deps, visited) ==> x !in visited && exists d :: d in deps && d.Id() == x
    ensures forall d :: d in deps ==> d.Id() in visited || d.Id() in Fresh(deps, visited)
  {
    if deps != [] {
      assert deps == [deps[0]] + deps[1..];
      FreshMembers(deps[1..], if deps[0].Id() in visited then visited else visited + {deps[0].Id()});
    }
  }

  lemma FreshInUniverse(store: Store, id: Identity, visited: set<Identity>)
    ensures Elements(Fresh(DepsOf(store, id), visited)) <= Universe(store) - visited
  {
    FreshMembers(DepsOf(store, id), visited);
  }

  /** The identities discovered from `queue`, breadth first. */
  function Bfs(store: Store, queue: seq<Identity>, visited: set<Identity>): seq<Identity>
    decreases Universe(store) - visited, |queue|
  {
    if queue == [] then []
    else
      var found := Fresh(DepsOf(store, queue[0]), visited);
      FreshInUniverse(store, queue[0], visited);
      assert found != [] ==> found[0] in Elements(found);
      found + Bfs(store, queue[1..] + found, visited + Elements(found))
  }

  /** The proper ancestors of `root`, nearest first. */
  function Ancestry(store: Store, root: Identity): seq<Identity> {
    Bfs(store, [root], {root})
  }

  /** What one direct dependency contributes. */
  function Segment(store: Store, dep: TaskDep): seq<Identity> {
    [dep.Id()] + if dep.inheritOutputs then Ancestry(store, dep.Id()) else []
  }

  function Order(store: Store, deps: seq<TaskDep>): seq<Identity> {
    if deps == [] then [] else Segment(store, deps[0]) + Order(store, deps[1..])
  }

  /** The first identity offered under a task id. */
  function First(ids: seq<Identity>, task: string): Option<Identity> {
    if ids == [] then None else if ids[0].task == task then Some(ids[0]) else First(ids[1..], task)
  }

  lemma {:induction false} FirstFacts(ids: seq<Identity>, task: string)
    ensures var r := First(ids, task);
            && (r.Some? ==> r.value in ids && r.value.task == task)
            && (r.None? <==> forall id :: id in ids ==> id.task != task)
  {
    if ids != [] {
      assert ids == [ids[0]] + ids[1..];
      FirstFacts(ids[1..], task);
    }
  }

  /** Every task id offered is present, no other is, and each carries its first
      identity's outputs. */
  ghost predicate IsGathered(store: Store, ids: seq<Identity>, result: map<string, TaskOutputs>) {
    forall task :: Carries(store, ids, result, task)
  }

  ghost predicate Carries(store: Store, ids: seq<Identity>, result: map<string, TaskOutputs>, task: string) {
    && (task in result <==> First(ids, task).Some?)
    && (task in result ==> result[task] == Lookup(store, First(ids, task).value))
  }

  lemma GatheredIsUnique(store: Store, ids: seq<Identity>, a: map<string, TaskOutputs>, b: map<string, TaskOutputs>)
    requires IsGathered(store, ids, a) && IsGathered(store, ids, b)
    ensures a == b
  {
    forall task ensures task in a <==> task in b {
      assert Carries(store, ids, a, task) && Carries(store, ids, b, task);
    }
    forall task | task in a ensures a[task] == b[task] {
      assert Carries(store, ids, a, task) && Carries(store, ids, b, task);
    }
  }

  // ---------------------------------------------------------------------
  // The imperative form
  // ---------------------------------------------------------------------

  function Insert(store: Store, id: Identity, result: map<string, TaskOutputs>): map<string, TaskOutputs> {
    if id.task in result then result else result[id.task := Lookup(store, id)]
  }

  lemma {:induction false} FirstOfConcat(a: seq<Identity>, b: seq<Identity>, task: string)
    ensures First(a + b, task) == if First(a, task).Some? then First(a, task) else First(b, task)
  {
    if a == [] {
      assert a + b == b;
    } else {
      assert (a + b)[1..] == a[1..] + b;
      FirstOfConcat(a[1..], b, task);
    }
  }

  /** Offering one more identity is exactly the first-write-wins insert. */
  lemma InsertExtends(store: Store, ids: seq<Identity>, id: Identity, result: map<string, TaskOutputs>)
    requires IsGathered(store, ids, result)
    ensures IsGathered(store, ids + [id], Insert(store, id, result))
  {
    forall task ensures Carries(store, ids + [id], Insert(store, id, result), task) {
      assert Carries(store, ids, result, task) && Carries(store, ids, result, id.task);
      FirstOfConcat(ids, [id], task);
      assert First([id], task) == if id.task == task then Some(id) else None;
    }
  }

  lemma FreshUnroll(deps: seq<TaskDep>, i: nat, visited: set<Identity>)
    requires i < |deps|
    ensures Fresh(deps[i..], visited) ==
            if deps[i].Id() in visited then Fresh(deps[i + 1..], visited)
            else [deps[i].Id()] + Fresh(deps[i + 1..], visited + {deps[i].Id()})
  {
  }

  /** Part way through a task's dependencies: `done` is what was newly found, and what
      is still to be found completes it. */
  ghost predicate Offering(
    deps: seq<TaskDep>, i: nat, visited0: set<Identity>, queue0: seq<Identity>, done: seq<Identity>,
    visited: set<Identity>, queue: seq<Identity>)
  {
    && i <= |deps|
    && queue == queue0 + done
    && visited == visited0 + Elements(done)
    && Fresh(deps, visited0) == done + Fresh(deps[i..], visited)
  }

  lemma OfferingStep(
    deps: seq<TaskDep>, i: nat, visited0: set<Identity>, queue0: seq<Identity>, done: seq<Identity>,
    visited: set<Identity>, queue: seq<Identity>)
    requires Offering(deps, i, visited0, queue0, done, visited, queue) && i < |deps|
    ensures var id := deps[i].Id();
            if id in visited then Offering(deps, i + 1, visited0, queue0, done, visited, queue)
            else Offering(deps, i + 1, visited0, queue0, done + [id], visited + {id}, queue + [id])
  {
    var id := deps[i].Id();
    FreshUnroll(deps, i, visited);
    if id !in visited {
      var rest := Fresh(deps[i + 1..], visited + {id});
      assert done + ([id] + rest) == (done + [id]) + rest;
      assert Elements(done + [id]) == Elements(done) + {id};
    }
  }

  /** The inner loop: offer every newly mentioned identity and queue it. */
  method VisitDeps(
    store: Store, deps: seq<TaskDep>, visited0: set<Identity>, queue0: seq<Identity>,
    result0: map<string, TaskOutputs>, ghost ids: seq<Identity>)
    returns (visited: set<Identity>, queue: seq<Identity>, result: map<string, TaskOutputs>)
    requires IsGathered(store, ids, result0)
    ensures var found := Fresh(deps, visited0);
            && visited == visited0 + Elements(found)
            && queue == queue0 + found
            && IsGathered(store, ids + found, result)
  {
    visited, queue, result := visited0, queue0, result0;
    ghost var done := [];
    assert ids + done == ids && deps[0..] == deps;
    for i := 0 to |deps|
      invariant IsGathered(store, ids + done, result)
      invariant Offering(deps, i, visited0, queue0, done, visited, queue)
    {
      OfferingStep(deps, i, visited0, queue0, done, visited, queue);
      var id := deps[i].Id();
      if id !in visited {
        InsertExtends(store, ids + done, id, result);
        assert ids + done + [id] == ids + (done + [id]);
        visited := visited + {id};
        result := Insert(store, id, result);
        queue := queue + [id];
        done := done + [id];
      }
    }
    assert deps[|deps|..] == [] && done + [] == done;
  }

  lemma BfsStep(store: Store, queue: seq<Identity>, visited: set<Identity>)
    requires queue != []
    ensures var found := Fresh(DepsOf(store, queue[0]), visited);
            && Bfs(store, queue, visited) == found + Bfs(store, queue[1..] + found, visited + Elements(found))
            && Elements(found) <= Universe(store) - visited
            && (found == [] || visited + Elements(found) != visited)
  {
    var found := Fresh(DepsOf(store, queue[0]), visited);
    FreshInUniverse(store, queue[0], visited);
    if found != [] { assert found[0] in Elements(found); }
  }

  method WalkAncestry(
    store: Store, root: Identity, result0: map<string, TaskOutputs>, ghost ids: seq<Identity>)
    returns (result: map<string, TaskOutputs>)
    requires IsGathered(store, ids, result0)
    ensures IsGathered(store, ids + Ancestry(store, root), result)
  {
    result := result0;
    var visited := {root};
    var queue := [root];
    ghost var done := [];
    assert ids + done == ids;
    while queue != []
      invariant IsGathered(store, ids + done, result)
      invariant Ancestry(store, root) == done + Bfs(store, queue, visited)
      decreases Universe(store) - visited, |queue|
    {
      ghost var found := Fresh(DepsOf(store, queue[0]), visited);
      WalkStep(store, queue, visited, ids, done, Ancestry(store, root));
      visited, queue, result := VisitDeps(store, DepsOf(store, queue[0]), visited, queue[1..], result, ids + done);
      done := done + found;
    }
    assert done + [] == done;
  }

  lemma WalkStep(
    store: Store, queue: seq<Identity>, visited: set<Identity>, ids: seq<Identity>, done: seq<Identity>,
    all: seq<Identity>)
    requires queue != [] && all == done + Bfs(store, queue, visited)
    ensures var found := Fresh(DepsOf(store, queue[0]), visited);
            && all == (done + found) + Bfs(store, queue[1..] + found, visited + Elements(found))
            && (ids + done) + found == ids + (done + found)
            && Elements(found) <= Universe(store) - visited
            && (found == [] || visited + Elements(found) != visited)
  {
    BfsStep(store, queue, visited);
  }

  /** The result holds exactly one entry per task id offered, and its value is
      that of the first identity offered under the id. */
  method GatherPredecessorOutputs(store: Store, taskDeps: seq<TaskDep>) returns (result: map<string, TaskOutputs>)
    ensures IsGathered(store, Order(store, taskDeps), result)
  {
    result := map[];
    ghost var ids := [];
    for i := 0 to |taskDeps|
      invariant IsGathered(store, ids, result)
      invariant Order(store, taskDeps) == ids + Order(store, taskDeps[i..])
    {
      var dep := taskDeps[i];
      assert taskDeps[i..][1..] == taskDeps[i + 1..];
      ghost var rest := Order(store, taskDeps[i + 1..]);
      assert ids + (Segment(store, dep) + rest) == (ids + Segment(store, dep)) + rest;
      InsertExtends(store, ids, dep.Id(), result);
      result := Insert(store, dep.Id(), result);
      if dep.inheritOutputs {
        result := WalkAncestry(store, dep.Id(), result, ids + [dep.Id()]);
        assert (ids + [dep.Id()]) + Ancestry(store, dep.Id()) == ids + Segment(store, dep);
      } else {
        assert ids + [dep.Id()] == ids + Segment(store, dep);
      }
      ids := ids + Segment(store, dep);
    }
    assert taskDeps[|taskDeps|..] == [] && ids + [] == ids;
  }
}
