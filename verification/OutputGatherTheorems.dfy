/**
 What the gathered map is, said without the traversal: which task ids it holds,
 whose outputs each carries, and exactly when the order of the direct
 dependencies does not matter.
 */
module OutputGatherTheorems {
  import opened TaskIds
  import opened Wrappers
  import opened OutputGather

  // ---------------------------------------------------------------------
  // The breadth-first order is reachability, without repeats
  // ---------------------------------------------------------------------

  /** `a` declares a dependency on the task that `b` names. */
  ghost predicate Edge(store: Store, a: Identity, b: Identity) {
    a in store.deps && exists d :: d in store.deps[a] && d.phase == b.phase && d.task == b.task
  }

  ghost predicate IsPath(store: Store, p: seq<Identity>) {
    p != [] && forall i :: 0 <= i < |p| - 1 ==> Edge(store, p[i], p[i + 1])
  }

  ghost predicate Reaches(store: Store, a: Identity, b: Identity) {
    exists p :: IsPath(store, p) && p[0] == a && p[|p| - 1] == b
  }

  lemma ReachesSelf(store: Store, a: Identity)
    ensures Reaches(store, a, a)
  {
    assert IsPath(store, [a]) && [a][0] == a;
  }

  lemma ReachesStep(store: Store, a: Identity, b: Identity, c: Identity)
    requires Reaches(store, a, b) && Edge(store, b, c)
    ensures Reaches(store, a, c)
  {
    var p :| IsPath(store, p) && p[0] == a && p[|p| - 1] == b;
    var q := p + [c];
    assert IsPath(store, q) && q[0] == a && q[|q| - 1] == c;
  }

  ghost predicate Distinct(ids: seq<Identity>) {
    forall i, j :: 0 <= i < j < |ids| ==> ids[i] != ids[j]
  }

  lemma DistinctConcat(a: seq<Identity>, b: seq<Identity>)
    requires Distinct(a) && Distinct(b) && forall x :: x in b ==> x !in a
    ensures Distinct(a + b)
  {
    var c := a + b;
    forall i, j | 0 <= i < j < |c| ensures c[i] != c[j] {
      if i < |a| <= j { assert c[j] == b[j - |a|] && b[j - |a|] in b; }
    }
  }

  lemma {:induction false} FreshDistinct(deps: seq<TaskDep>, visited: set<Identity>)
    ensures Distinct(Fresh(deps, visited))
  {
    if deps != [] {
      var id := deps[0].Id();
      var visited' := if id in visited then visited else visited + {id};
      FreshDistinct(deps[1..], visited');
      FreshMembers(deps[1..], visited');
    }
  }

  lemma {:induction false} BfsDistinct(store: Store, queue: seq<Identity>, visited: set<Identity>)
    ensures Distinct(Bfs(store, queue, visited))
    ensures forall x :: x in Bfs(store, queue, visited) ==> x !in visited
    decreases Universe(store) - visited, |queue|
  {
    if queue != [] {
      BfsStep(store, queue, visited);
      var found := Fresh(DepsOf(store, queue[0]), visited);
      FreshDistinct(DepsOf(store, queue[0]), visited);
      FreshMembers(DepsOf(store, queue[0]), visited);
      var rest := Bfs(store, queue[1..] + found, visited + Elements(found));
      BfsDistinct(store, queue[1..] + found, visited + Elements(found));
      assert forall x :: x in found ==> x in Elements(found);
      DistinctConcat(found, rest);
    }
  }

  lemma {:induction false} BfsSound(store: Store, root: Identity, queue: seq<Identity>, visited: set<Identity>)
    requires forall q :: q in queue ==> Reaches(store, root, q)
    ensures forall x :: x in Bfs(store, queue, visited) ==> Reaches(store, root, x)
    decreases Universe(store) - visited, |queue|
  {
    if queue != [] {
      BfsStep(store, queue, visited);
      var found := Fresh(DepsOf(store, queue[0]), visited);
      FreshMembers(DepsOf(store, queue[0]), visited);
      forall x | x in found ensures Reaches(store, root, x) {
        ReachesStep(store, root, queue[0], x);
      }
      BfsSound(store, root, queue[1..] + found, visited + Elements(found));
    }
  }

  /** Every edge out of a visited, already expanded identity stays inside. */
  ghost predicate Expanded(store: Store, visited: set<Identity>, queue: seq<Identity>) {
    forall a, b :: a in visited && a !in queue && Edge(store, a, b) ==> b in visited
  }

  lemma ExpandHead(store: Store, queue: seq<Identity>, visited: set<Identity>)
    requires queue != [] && Expanded(store, visited, queue)
    ensures var found := Fresh(DepsOf(store, queue[0]), visited);
            Expanded(store, visited + Elements(found), queue[1..] + found)
  {
    var found := Fresh(DepsOf(store, queue[0]), visited);
    FreshMembers(DepsOf(store, queue[0]), visited);
    var visited', queue' := visited + Elements(found), queue[1..] + found;
    forall a, b | a in visited' && a !in queue' && Edge(store, a, b) ensures b in visited' {
      assert a !in found && a !in queue[1..];
      if a == queue[0] {
        var d :| d in DepsOf(store, a) && d.Id() == b;
      } else {
        assert queue == [queue[0]] + queue[1..];
      }
    }
  }

  lemma {:induction false} BfsComplete(store: Store, queue: seq<Identity>, visited: set<Identity>)
    requires Expanded(store, visited, queue)
    ensures Expanded(store, visited + Elements(Bfs(store, queue, visited)), [])
    decreases Universe(store) - visited, |queue|
  {
    if queue == [] {
      assert visited + Elements(Bfs(store, [], visited)) == visited;
    } else {
      BfsStep(store, queue, visited);
      ExpandHead(store, queue, visited);
      var found := Fresh(DepsOf(store, queue[0]), visited);
      var rest := Bfs(store, queue[1..] + found, visited + Elements(found));
      BfsComplete(store, queue[1..] + found, visited + Elements(found));
      assert visited + Elements(found) + Elements(rest) == visited + Elements(found + rest);
    }
  }

  lemma {:induction false} ExpandedPath(store: Store, visited: set<Identity>, p: seq<Identity>, n: nat)
    requires IsPath(store, p) && n < |p| && p[0] in visited && Expanded(store, visited, [])
    ensures p[n] in visited
  {
    if n > 0 {
      ExpandedPath(store, visited, p, n - 1);
      assert Edge(store, p[n - 1], p[n]);
    }
  }

  /** On every graph, cyclic or not, the walk lists each proper ancestor exactly once. */
  lemma AncestryIsReachability(store: Store, root: Identity)
    ensures Distinct(Ancestry(store, root))
    ensures forall x :: x in Ancestry(store, root) <==> x != root && Reaches(store, root, x)
  {
    var found := Ancestry(store, root);
    BfsDistinct(store, [root], {root});
    ReachesSelf(store, root);
    BfsSound(store, root, [root], {root});
    BfsComplete(store, [root], {root});
    var all := {root} + Elements(found);
    forall x | x != root && Reaches(store, root, x) ensures x in found {
      var p :| IsPath(store, p) && p[0] == root && p[|p| - 1] == x;
      ExpandedPath(store, all, p, |p| - 1);
    }
  }

  // ---------------------------------------------------------------------
  // ... and nearest first
  // ---------------------------------------------------------------------

  /** `x` is at most `n` dependency edges away from `root`. */
  ghost predicate Within(store: Store, root: Identity, n: nat, x: Identity) {
    if n == 0 then x == root
    else Within(store, root, n - 1, x) || exists y :: Within(store, root, n - 1, y) && Edge(store, y, x)
  }

  ghost predicate AtDistance(store: Store, root: Identity, n: nat, x: Identity) {
    Within(store, root, n, x) && (n > 0 ==> !Within(store, root, n - 1, x))
  }

  lemma {:induction false} WithinGrows(store: Store, root: Identity, m: nat, n: nat, x: Identity)
    requires m <= n && Within(store, root, m, x)
    ensures Within(store, root, n, x)
    decreases n
  {
    if m < n { WithinGrows(store, root, m, n - 1, x); }
  }

  /** The queue holds `k` identities at distance `d`, then only distance `d + 1`. */
  ghost predicate Layered(store: Store, root: Identity, queue: seq<Identity>, d: nat, k: nat) {
    && k <= |queue|
    && (forall i :: 0 <= i < k ==> AtDistance(store, root, d, queue[i]))
    && (forall i :: k <= i < |queue| ==> AtDistance(store, root, d + 1, queue[i]))
  }

  /** What has not been discovered yet is farther away than the head of the queue. */
  lemma {:induction false} UndiscoveredIsFar(
    store: Store, root: Identity, queue: seq<Identity>, visited: set<Identity>, d: nat, k: nat, n: nat, x: Identity)
    requires root in visited && Expanded(store, visited, queue) && Layered(store, root, queue, d, k)
    requires Within(store, root, n, x) && x !in visited
    ensures n > d
    decreases n
  {
    if Within(store, root, n - 1, x) {
      UndiscoveredIsFar(store, root, queue, visited, d, k, n - 1, x);
    } else {
      var y :| Within(store, root, n - 1, y) && Edge(store, y, x);
      if y !in visited {
        UndiscoveredIsFar(store, root, queue, visited, d, k, n - 1, y);
      } else {
        assert y in queue;
        var i :| 0 <= i < |queue| && queue[i] == y;
        if n - 1 < d {
          WithinGrows(store, root, n - 1, if i < k then d - 1 else d, y);
        }
      }
    }
  }

  ghost predicate NearestFirst(store: Store, root: Identity, ids: seq<Identity>) {
    forall i, j, n: nat :: 0 <= i < j < |ids| && Within(store, root, n, ids[j]) ==> Within(store, root, n, ids[i])
  }

  lemma FoundIsNextLayer(
    store: Store, root: Identity, queue: seq<Identity>, visited: set<Identity>, d: nat, k: nat, x: Identity)
    requires root in visited && Expanded(store, visited, queue) && Layered(store, root, queue, d, k) && k >= 1
    requires x in Fresh(DepsOf(store, queue[0]), visited)
    ensures AtDistance(store, root, d + 1, x)
  {
    FreshMembers(DepsOf(store, queue[0]), visited);
    assert AtDistance(store, root, d, queue[0]) && Edge(store, queue[0], x);
    if Within(store, root, d, x) {
      UndiscoveredIsFar(store, root, queue, visited, d, k, d, x);
    }
  }

  lemma HeadIsNearest(
    store: Store, root: Identity, queue: seq<Identity>, visited: set<Identity>, d: nat, k: nat, n: nat, x: Identity)
    requires root in visited && Expanded(store, visited, queue) && Layered(store, root, queue, d, k) && k >= 1
    requires x in queue || x !in visited
    requires Within(store, root, n, x)
    ensures Within(store, root, n, queue[0])
  {
    assert AtDistance(store, root, d, queue[0]);
    if n < d {
      if x in queue {
        var i :| 0 <= i < |queue| && queue[i] == x;
        WithinGrows(store, root, n, if i < k then d - 1 else d, x);
      } else {
        UndiscoveredIsFar(store, root, queue, visited, d, k, n, x);
      }
    } else {
      WithinGrows(store, root, d, n, queue[0]);
    }
  }

  /** Expanding the head leaves a layered queue, one layer on if the layer is exhausted. */
  lemma LayersAdvance(
    store: Store, root: Identity, queue: seq<Identity>, visited: set<Identity>, d: nat, k: nat) returns (d': nat, k': nat)
    requires root in visited && Expanded(store, visited, queue) && Layered(store, root, queue, d, k) && k >= 1
    ensures var queue' := queue[1..] + Fresh(DepsOf(store, queue[0]), visited);
            Layered(store, root, queue', d', k') && (queue' != [] ==> k' >= 1)
  {
    var found := Fresh(DepsOf(store, queue[0]), visited);
    var queue' := queue[1..] + found;
    forall i | k - 1 <= i < |queue'| ensures AtDistance(store, root, d + 1, queue'[i]) {
      if i < |queue| - 1 {
        assert queue'[i] == queue[i + 1];
      } else {
        assert queue'[i] == found[i - (|queue| - 1)];
        FoundIsNextLayer(store, root, queue, visited, d, k, queue'[i]);
      }
    }
    if k > 1 {
      d', k' := d, k - 1;
    } else {
      d', k' := d + 1, |queue'|;
    }
  }

  lemma NearestFirstCons(store: Store, root: Identity, head: Identity, later: seq<Identity>)
    requires NearestFirst(store, root, later)
    requires forall x, n: nat :: x in later && Within(store, root, n, x) ==> Within(store, root, n, head)
    ensures NearestFirst(store, root, [head] + later)
  {
  }

  /** Past the head, the rest of the run holds only queued or undiscovered identities. */
  lemma RunAfterHead(store: Store, queue: seq<Identity>, visited: set<Identity>) returns (later: seq<Identity>)
    requires queue != []
    ensures var found := Fresh(DepsOf(store, queue[0]), visited);
            later == (queue[1..] + found) + Bfs(store, queue[1..] + found, visited + Elements(found))
    ensures queue + Bfs(store, queue, visited) == [queue[0]] + later
    ensures forall x :: x in later ==> x in queue || x !in visited
  {
    BfsStep(store, queue, visited);
    BfsDistinct(store, queue, visited);
    var found := Fresh(DepsOf(store, queue[0]), visited);
    later := (queue[1..] + found) + Bfs(store, queue[1..] + found, visited + Elements(found));
    assert later == queue[1..] + Bfs(store, queue, visited);
    assert queue == [queue[0]] + queue[1..];
  }

  lemma HeadBeforeRun(
    store: Store, root: Identity, queue: seq<Identity>, visited: set<Identity>, d: nat, k: nat, later: seq<Identity>)
    requires root in visited && Expanded(store, visited, queue) && Layered(store, root, queue, d, k) && k >= 1
    requires NearestFirst(store, root, later) && forall x :: x in later ==> x in queue || x !in visited
    ensures NearestFirst(store, root, [queue[0]] + later)
  {
    forall x, n: nat | x in later && Within(store, root, n, x) ensures Within(store, root, n, queue[0]) {
      HeadIsNearest(store, root, queue, visited, d, k, n, x);
    }
    NearestFirstCons(store, root, queue[0], later);
  }

  lemma {:induction false} BfsNearestFirst(
    store: Store, root: Identity, queue: seq<Identity>, visited: set<Identity>, d: nat, k: nat)
    requires root in visited && Expanded(store, visited, queue) && Layered(store, root, queue, d, k)
    requires queue != [] ==> k >= 1
    ensures NearestFirst(store, root, queue + Bfs(store, queue, visited))
    decreases Universe(store) - visited, |queue|
  {
    if queue != [] {
      var found := Fresh(DepsOf(store, queue[0]), visited);
      ExpandHead(store, queue, visited);
      BfsStep(store, queue, visited);
      var d', k' := LayersAdvance(store, root, queue, visited, d, k);
      BfsNearestFirst(store, root, queue[1..] + found, visited + Elements(found), d', k');
      var later := RunAfterHead(store, queue, visited);
      HeadBeforeRun(store, root, queue, visited, d, k, later);
    }
  }

  /** Ancestors are offered in order of distance, so of two ancestors that share
      a task id the nearer one supplies the outputs. */
  lemma AncestryIsNearestFirst(store: Store, root: Identity)
    ensures NearestFirst(store, root, [root] + Ancestry(store, root))
  {
    assert AtDistance(store, root, 0, root);
    assert Layered(store, root, [root], 0, 1);
    BfsNearestFirst(store, root, [root], {root}, 0, 1);
  }

  // ---------------------------------------------------------------------
  // Keys
  // ---------------------------------------------------------------------

  /** `id` is a direct dependency, or an ancestor of one that inherits. */
  ghost predicate Contributes(store: Store, deps: seq<TaskDep>, id: Identity) {
    exists d :: d in deps && (id == d.Id() || (d.inheritOutputs && Reaches(store, d.Id(), id)))
  }

  lemma SegmentMembers(store: Store, dep: TaskDep, id: Identity)
    ensures id in Segment(store, dep) <==> id == dep.Id() || (dep.inheritOutputs && Reaches(store, dep.Id(), id))
  {
    AncestryIsReachability(store, dep.Id());
  }

  lemma {:induction false} OrderMembers(store: Store, deps: seq<TaskDep>, id: Identity)
    ensures id in Order(store, deps) <==> Contributes(store, deps, id)
  {
    if deps != [] {
      assert deps == [deps[0]] + deps[1..];
      SegmentMembers(store, deps[0], id);
      OrderMembers(store, deps[1..], id);
      assert Contributes(store, deps[1..], id) ==> Contributes(store, deps, id);
      if Contributes(store, deps, id) {
        var d :| d in deps && (id == d.Id() || (d.inheritOutputs && Reaches(store, d.Id(), id)));
        assert d == deps[0] || d in deps[1..];
      }
    }
  }

  /** The key set: exactly the direct dependencies' task ids and the task ids
      reachable from the inheriting ones. */
  lemma GatheredKeys(store: Store, deps: seq<TaskDep>, result: map<string, TaskOutputs>, task: string)
    requires IsGathered(store, Order(store, deps), result)
    ensures task in result <==> exists id :: Contributes(store, deps, id) && id.task == task
  {
    var order := Order(store, deps);
    assert Carries(store, order, result, task);
    FirstFacts(order, task);
    if task in result {
      OrderMembers(store, deps, First(order, task).value);
    }
    forall id | Contributes(store, deps, id) && id.task == task ensures task in result {
      OrderMembers(store, deps, id);
    }
  }

  /** What is held under a task id was recorded for a contributing task of that id, or is
      empty because nothing was. */
  lemma GatheredValues(store: Store, deps: seq<TaskDep>, result: map<string, TaskOutputs>, task: string)
    returns (id: Identity)
    requires IsGathered(store, Order(store, deps), result) && task in result
    ensures Contributes(store, deps, id) && id.task == task
    ensures id in store.outputs ==> result[task] == store.outputs[id]
    ensures id !in store.outputs ==> result[task] == map[]
  {
    var order := Order(store, deps);
    assert Carries(store, order, result, task);
    FirstFacts(order, task);
    id := First(order, task).value;
    OrderMembers(store, deps, id);
  }

  lemma {:induction false} FirstIsNearest(store: Store, root: Identity, ids: seq<Identity>, task: string, y: Identity, n: nat)
    requires NearestFirst(store, root, ids) && First(ids, task).Some?
    requires y in ids && y.task == task && Within(store, root, n, y)
    ensures Within(store, root, n, First(ids, task).value)
  {
    assert ids == [ids[0]] + ids[1..];
    if ids[0].task == task {
      var i :| 0 <= i < |ids| && ids[i] == y;
      assert i == 0 || Within(store, root, n, ids[0]);
    } else {
      NearestFirstTail(store, root, ids);
      FirstIsNearest(store, root, ids[1..], task, y, n);
    }
  }

  lemma NearestFirstTail(store: Store, root: Identity, ids: seq<Identity>)
    requires ids != [] && NearestFirst(store, root, ids)
    ensures NearestFirst(store, root, ids[1..])
  {
  }

  /** Under one inheriting dependency the nearest task of an id supplies it, the dependency
      itself being nearest of all. */
  lemma NearestWins(store: Store, dep: TaskDep, result: map<string, TaskOutputs>, task: string, y: Identity, n: nat)
    returns (id: Identity)
    requires dep.inheritOutputs && IsGathered(store, Order(store, [dep]), result)
    requires Reaches(store, dep.Id(), y) && y.task == task && Within(store, dep.Id(), n, y)
    ensures task in result && id.task == task && Reaches(store, dep.Id(), id) && Within(store, dep.Id(), n, id)
    ensures result[task] == Lookup(store, id)
  {
    var order := Order(store, [dep]);
    assert [dep][1..] == [] && Order(store, []) == [];
    assert order == [dep.Id()] + Ancestry(store, dep.Id());
    SegmentMembers(store, dep, y);
    assert Carries(store, order, result, task);
    FirstFacts(order, task);
    id := First(order, task).value;
    SegmentMembers(store, dep, id);
    ReachesSelf(store, dep.Id());
    AncestryIsNearestFirst(store, dep.Id());
    FirstIsNearest(store, dep.Id(), order, task, y, n);
  }

  // ---------------------------------------------------------------------
  // Order independence
  // ---------------------------------------------------------------------

  ghost function Offer(store: Store, dep: TaskDep, task: string): Option<TaskOutputs> {
    match First(Segment(store, dep), task)
    case None => None
    case Some(id) => Some(Lookup(store, id))
  }

  /** Any two direct dependencies that both offer a task id offer the same outputs. */
  ghost predicate SegmentsAgree(store: Store, deps: seq<TaskDep>) {
    forall d, e, task :: d in deps && e in deps && Offer(store, d, task).Some? && Offer(store, e, task).Some? ==>
      Offer(store, d, task) == Offer(store, e, task)
  }

  /** The value under `task` is what the first dependency offering it offers. */
  lemma {:induction false} ValueOfOrder(store: Store, deps: seq<TaskDep>, task: string)
    ensures match First(Order(store, deps), task)
            case None => forall d :: d in deps ==> Offer(store, d, task).None?
            case Some(id) => exists d :: d in deps && Offer(store, d, task) == Some(Lookup(store, id))
  {
    if deps != [] {
      FirstOfConcat(Segment(store, deps[0]), Order(store, deps[1..]), task);
      ValueOfOrder(store, deps[1..], task);
      assert deps == [deps[0]] + deps[1..];
      if First(Segment(store, deps[0]), task).Some? {
        assert Offer(store, deps[0], task).Some?;
      }
    }
  }

  lemma AgreeingPermutation(
    store: Store, deps: seq<TaskDep>, perm: seq<TaskDep>, a: map<string, TaskOutputs>, b: map<string, TaskOutputs>)
    requires SegmentsAgree(store, deps) && forall d :: d in deps <==> d in perm
    requires IsGathered(store, Order(store, deps), a) && IsGathered(store, Order(store, perm), b)
    ensures a == b
  {
    forall task ensures (task in a <==> task in b) && (task in a ==> task in b && a[task] == b[task]) {
      assert Carries(store, Order(store, deps), a, task) && Carries(store, Order(store, perm), b, task);
      ValueOfOrder(store, deps, task);
      ValueOfOrder(store, perm, task);
    }
  }

  ghost predicate SameForEveryOrder(store: Store, deps: seq<TaskDep>) {
    forall perm, a, b ::
      (multiset(perm) == multiset(deps)
       && IsGathered(store, Order(store, deps), a) && IsGathered(store, Order(store, perm), b))
      ==> a == b
  }

  /** Some order puts any given dependency first. */
  lemma MovedToFront(deps: seq<TaskDep>, d: TaskDep) returns (perm: seq<TaskDep>)
    requires d in deps
    ensures multiset(perm) == multiset(deps) && perm != [] && perm[0] == d
  {
    var i :| 0 <= i < |deps| && deps[i] == d;
    perm := [d] + (deps[..i] + deps[i + 1..]);
    assert deps == deps[..i] + ([d] + deps[i + 1..]);
  }

  lemma {:induction false} SomeGathered(store: Store, ids: seq<Identity>) returns (result: map<string, TaskOutputs>)
    ensures IsGathered(store, ids, result)
  {
    if ids == [] {
      result := map[];
    } else {
      var front := SomeGathered(store, ids[..|ids| - 1]);
      InsertExtends(store, ids[..|ids| - 1], ids[|ids| - 1], front);
      assert ids == ids[..|ids| - 1] + [ids[|ids| - 1]];
      result := Insert(store, ids[|ids| - 1], front);
    }
  }

  lemma FirstDependencyWins(store: Store, deps: seq<TaskDep>, task: string, result: map<string, TaskOutputs>)
    requires deps != [] && Offer(store, deps[0], task).Some? && IsGathered(store, Order(store, deps), result)
    ensures task in result && Some(result[task]) == Offer(store, deps[0], task)
  {
    FirstOfConcat(Segment(store, deps[0]), Order(store, deps[1..]), task);
    assert Carries(store, Order(store, deps), result, task);
  }

  /** The order of the direct dependencies is irrelevant exactly when no two of
      them offer different outputs under one task id. */
  lemma OrderIndependence(store: Store, deps: seq<TaskDep>)
    ensures SameForEveryOrder(store, deps) <==> SegmentsAgree(store, deps)
  {
    if SegmentsAgree(store, deps) {
      forall perm, a, b | multiset(perm) == multiset(deps) && IsGathered(store, Order(store, deps), a)
                          && IsGathered(store, Order(store, perm), b)
        ensures a == b
      {
        assert forall d :: d in deps <==> d in multiset(deps);
        assert forall d :: d in perm <==> d in multiset(perm);
        AgreeingPermutation(store, deps, perm, a, b);
      }
    }
    if SameForEveryOrder(store, deps) {
      forall d, e, task | d in deps && e in deps && Offer(store, d, task).Some? && Offer(store, e, task).Some?
        ensures Offer(store, d, task) == Offer(store, e, task)
      {
        var base := SomeGathered(store, Order(store, deps));
        var withD := MovedToFront(deps, d);
        var withE := MovedToFront(deps, e);
        var a := SomeGathered(store, Order(store, withD));
        var b := SomeGathered(store, Order(store, withE));
        FirstDependencyWins(store, withD, task, a);
        FirstDependencyWins(store, withE, task, b);
        assert base == a && base == b;
      }
    }
  }

  /** No task id is used by two contributing identities in different phases. */
  ghost predicate UniqueIds(store: Store, deps: seq<TaskDep>) {
    forall x, y :: Contributes(store, deps, x) && Contributes(store, deps, y) && x.task == y.task ==> x == y
  }

  lemma UniqueIdsAreOrderIndependent(store: Store, deps: seq<TaskDep>)
    requires UniqueIds(store, deps)
    ensures SameForEveryOrder(store, deps)
  {
    forall d, e, task | d in deps && e in deps && Offer(store, d, task).Some? && Offer(store, e, task).Some?
      ensures Offer(store, d, task) == Offer(store, e, task)
    {
      var x, y := First(Segment(store, d), task).value, First(Segment(store, e), task).value;
      FirstFacts(Segment(store, d), task);
      FirstFacts(Segment(store, e), task);
      SegmentMembers(store, d, x);
      SegmentMembers(store, e, y);
      assert Contributes(store, deps, x) && Contributes(store, deps, y);
    }
    OrderIndependence(store, deps);
  }

  // ---------------------------------------------------------------------
  // Whether direct dependencies keep their own outputs
  // ---------------------------------------------------------------------

  /** Every direct dependency's key carries that dependency's own outputs. */
  ghost predicate HoldsOwn(store: Store, deps: seq<TaskDep>, result: map<string, TaskOutputs>) {
    forall d :: d in deps ==> d.task in result && result[d.task] == Lookup(store, d.Id())
  }

  ghost predicate HeldInEveryOrder(store: Store, deps: seq<TaskDep>) {
    forall perm, result ::
      multiset(perm) == multiset(deps) && IsGathered(store, Order(store, perm), result) ==> HoldsOwn(store, deps, result)
  }

  /** Whoever offers something under a direct dependency's task id offers that
      dependency's own outputs. */
  ghost predicate NobodyShadows(store: Store, deps: seq<TaskDep>) {
    forall d, e :: d in deps && e in deps && Offer(store, e, d.task).Some? ==>
      Offer(store, e, d.task) == Some(Lookup(store, d.Id()))
  }

  /** The documented contract of the direct dependencies holds in every order exactly
      when none of them, by itself or through what it inherits, offers other outputs
      under the task id of another. */
  lemma DirectOutputsHeldExactly(store: Store, deps: seq<TaskDep>)
    ensures HeldInEveryOrder(store, deps) <==> NobodyShadows(store, deps)
  {
    if NobodyShadows(store, deps) {
      forall perm, result | multiset(perm) == multiset(deps) && IsGathered(store, Order(store, perm), result)
        ensures HoldsOwn(store, deps, result)
      {
        assert forall d :: d in deps <==> d in multiset(deps);
        assert forall d :: d in perm <==> d in multiset(perm);
        forall d | d in deps ensures d.task in result && result[d.task] == Lookup(store, d.Id()) {
          OwnOutputsHeld(store, deps, perm, result, d);
        }
      }
    }
    if HeldInEveryOrder(store, deps) {
      forall d, e | d in deps && e in deps && Offer(store, e, d.task).Some?
        ensures Offer(store, e, d.task) == Some(Lookup(store, d.Id()))
      {
        var perm := MovedToFront(deps, e);
        var result := SomeGathered(store, Order(store, perm));
        FirstDependencyWins(store, perm, d.task, result);
        assert HoldsOwn(store, deps, result);
      }
    }
  }

  lemma OwnOutputsHeld(
    store: Store, deps: seq<TaskDep>, perm: seq<TaskDep>, result: map<string, TaskOutputs>, d: TaskDep)
    requires NobodyShadows(store, deps) && d in deps && forall x :: x in deps <==> x in perm
    requires IsGathered(store, Order(store, perm), result)
    ensures d.task in result && result[d.task] == Lookup(store, d.Id())
  {
    assert Carries(store, Order(store, perm), result, d.task);
    ValueOfOrder(store, perm, d.task);
    assert Offer(store, d, d.task).Some?;
  }

  /** With one task id in two phases, an inherited ancestor can shadow a later
      direct dependency: the map then lacks that dependency's own outputs. */
  lemma DirectDependencyShadowed()
    ensures exists store, deps: seq<TaskDep>, result ::
      && IsGathered(store, Order(store, deps), result)
      && |deps| == 2 && deps[1].task in result && result[deps[1].task] != Lookup(store, deps[1].Id())
  {
    var near, shared := TaskDep("p2", "near", true), TaskDep("p1", "shared", false);
    var direct := TaskDep("p2", "shared", false);
    var store := Store(map[direct.Id() := map["k" := "v"]], map[near.Id() := [shared]]);
    var deps := [near, direct];
    var result := SomeGathered(store, Order(store, deps));
    SegmentOfInheriting(store, near, shared);
    FirstDependencyWins(store, deps, "shared", result);
    assert deps[1].task in result && "k" !in result["shared"] && "k" in Lookup(store, direct.Id());
  }

  lemma SegmentOfInheriting(store: Store, dep: TaskDep, parent: TaskDep)
    requires dep.inheritOutputs && DepsOf(store, dep.Id()) == [parent] && parent.task != dep.task
    ensures Offer(store, dep, parent.task) == Some(Lookup(store, parent.Id()))
  {
    var root := dep.Id();
    BfsStep(store, [root], {root});
    assert Fresh([parent], {root}) == [parent.Id()];
    var rest := Bfs(store, [root][1..] + [parent.Id()], {root} + Elements([parent.Id()]));
    assert Segment(store, dep) == [root, parent.Id()] + rest;
    FirstOfConcat([root, parent.Id()], rest, parent.task);
    assert First([root, parent.Id()], parent.task) == Some(parent.Id());
  }
}
