/**
 What every directory walk guarantees, whatever the visitor decides: each real
 directory is listed at most once, the statistics balance, and a visitor that
 enters everything lists exactly the directories reachable from the root.
 */
module DiscoveryTheorems {
  import opened Wrappers
  import opened Discovery

  // ---------------------------------------------------------------------
  // Accounting
  // ---------------------------------------------------------------------

  predicate Distinct<T(==)>(s: seq<T>) {
    forall i, j :: 0 <= i < j < |s| ==> s[i] != s[j]
  }

  lemma {:induction false} DistinctCardinality<T>(s: seq<T>)
    requires Distinct(s)
    ensures |Elements(s)| == |s|
  {
    if s != [] {
      var front := s[..|s| - 1];
      DistinctCardinality(front);
      assert Elements(s) == Elements(front) + {s[|s| - 1]};
    }
  }

  /** The listing totals over the directories in `trace`. */
  function Totals<D>(fs: FileSystem<D>, trace: seq<D>): (nat, nat, nat) {
    if trace == [] then (0, 0, 0)
    else
      var (seen, followed, broken) := Totals(fs, trace[..|trace| - 1]);
      var d := trace[|trace| - 1];
      if d in fs.dirs then
        var l := fs.dirs[d].listing;
        (seen + l.seen, followed + l.symlinksFollowed, broken + l.brokenSymlinksSkipped)
      else (seen, followed, broken)
  }

  /** The books balance: directory by directory, file by file, enter by enter. */
  ghost predicate Balanced<S, D, P>(fs: FileSystem<D>, st: WalkState<S, D, P>, pending: seq<Frame<P>>) {
    && Distinct(st.trace)
    && Elements(st.trace) == st.visited
    && st.visited <= fs.dirs.Keys
    && st.stats.filesYielded == |st.marked|
    && (st.stats.entriesSeen, st.stats.symlinksFollowed, st.stats.brokenSymlinksSkipped) == Totals(fs, st.trace)
    && (st.trace == [] ==>
          |pending| == 1 && pending[0].rel == []
          && st.stats.dirsDescended == st.stats.symlinkCyclesSkipped == st.accepted == 0)
    && (st.trace != [] ==>
          && (forall k :: 0 <= k < |pending| ==> pending[k].rel != [])
          && st.stats.dirsDescended + 1 == |st.trace|
          && st.accepted == st.stats.dirsDescended + st.stats.symlinkCyclesSkipped + |pending|)
  }

  /** What listing directory `d` adds to the books. */
  ghost predicate Listed<S, D, P>(
    fs: FileSystem<D>, st: WalkState<S, D, P>, st': WalkState<S, D, P>, d: D, isRoot: bool, children: nat)
  {
    d in fs.dirs && d !in st.visited
    && st'.visited == st.visited + {d} && st'.trace == st.trace + [d] && st'.accepted == st.accepted + children
    && st.marked <= st'.marked
    && var l := fs.dirs[d].listing;
       st'.stats == WalkStats(
         st.stats.entriesSeen + l.seen, st.stats.filesYielded + (|st'.marked| - |st.marked|),
         st.stats.dirsDescended + (if isRoot then 0 else 1), st.stats.symlinksFollowed + l.symlinksFollowed,
         st.stats.brokenSymlinksSkipped + l.brokenSymlinksSkipped, st.stats.symlinkCyclesSkipped)
  }

  lemma DescendLists<S, D, P, E>(
    fs: FileSystem<D>, visit: Visitor<S, P, E>, st: WalkState<S, D, P>, frame: Frame<P>)
    requires VisitDir(fs, visit, st, frame).Descended?
    ensures var step := VisitDir(fs, visit, st, frame);
            Canonicalize(fs, frame.abs).Some?
            && Listed(fs, st, step.st, Canonicalize(fs, frame.abs).value, frame.rel == [], |step.children|)
    ensures forall k :: 0 <= k < |VisitDir(fs, visit, st, frame).children| ==>
              VisitDir(fs, visit, st, frame).children[k].rel != []
  {
  }

  lemma DescendKeepsBalance<S, D, P, E>(
    fs: FileSystem<D>, visit: Visitor<S, P, E>, st: WalkState<S, D, P>, pending: seq<Frame<P>>)
    requires Balanced(fs, st, pending) && pending != []
    requires VisitDir(fs, visit, st, pending[0]).Descended?
    ensures var step := VisitDir(fs, visit, st, pending[0]);
            Balanced(fs, step.st, step.children + pending[1..])
  {
    var step := VisitDir(fs, visit, st, pending[0]);
    DescendLists(fs, visit, st, pending[0]);
    ListingKeepsBalance(fs, st, step.st, Canonicalize(fs, pending[0].abs).value, pending, step.children);
  }

  lemma ListingKeepsBalance<S, D, P>(
    fs: FileSystem<D>, st: WalkState<S, D, P>, st': WalkState<S, D, P>, d: D, pending: seq<Frame<P>>,
    children: seq<Frame<P>>)
    requires Balanced(fs, st, pending) && pending != []
    requires Listed(fs, st, st', d, pending[0].rel == [], |children|)
    requires forall k :: 0 <= k < |children| ==> children[k].rel != []
    ensures Balanced(fs, st', children + pending[1..])
  {
    TraceGrows(st.trace, st.visited, d);
    TotalsGrow(fs, st.trace, d);
  }

  lemma TraceGrows<D>(trace: seq<D>, visited: set<D>, d: D)
    requires Distinct(trace) && Elements(trace) == visited && d !in visited
    ensures Distinct(trace + [d]) && Elements(trace + [d]) == visited + {d}
  {
  }

  lemma TotalsGrow<D>(fs: FileSystem<D>, trace: seq<D>, d: D)
    requires d in fs.dirs
    ensures var (seen, followed, broken) := Totals(fs, trace);
            var l := fs.dirs[d].listing;
            Totals(fs, trace + [d]) ==
            (seen + l.seen, followed + l.symlinksFollowed, broken + l.brokenSymlinksSkipped)
  {
  }

  lemma {:induction false} DrainBalances<S, D, P, E>(
    fs: FileSystem<D>, visit: Visitor<S, P, E>, st: WalkState<S, D, P>, pending: seq<Frame<P>>)
    requires Balanced(fs, st, pending)
    ensures var r := Drain(fs, visit, st, pending); r.Finished? ==> Balanced(fs, r.st, [])
    decreases fs.dirs.Keys - st.visited, |pending|
  {
    if pending != [] {
      match VisitDir(fs, visit, st, pending[0]) {
        case Skipped(st') => DrainBalances(fs, visit, st', pending[1..]);
        case Stopped(_, _) =>
        case Descended(st', children) =>
          DescendKeepsBalance(fs, visit, st, pending);
          DrainBalances(fs, visit, st', children + pending[1..]);
      }
    }
  }

  /** On every walk that completes: no directory is listed twice, and every
      counter equals the quantity it is documented to count. */
  lemma WalkAccounts<S, D, P, E>(fs: FileSystem<D>, visit: Visitor<S, P, E>, visitor: S)
    ensures var r := WalkSpec(fs, visit, visitor);
            r.Finished? ==>
              && Distinct(r.st.trace) && Elements(r.st.trace) == r.st.visited
              && r.st.stats.filesYielded == |r.st.marked|
              && r.st.stats.dirsDescended + 1 == |r.st.visited|
              && r.st.stats.dirsDescended + r.st.stats.symlinkCyclesSkipped == r.st.accepted
              && (r.st.stats.entriesSeen, r.st.stats.symlinksFollowed, r.st.stats.brokenSymlinksSkipped)
                 == Totals(fs, r.st.trace)
  {
    DrainIsWalkSpec(fs, visit, visitor);
    DrainBalances(fs, visit, Start(visitor), [RootFrame(fs)]);
    var r := WalkSpec(fs, visit, visitor);
    if r.Finished? { DistinctCardinality(r.st.trace); }
  }

  // ---------------------------------------------------------------------
  // Reachability
  // ---------------------------------------------------------------------

  /** Directory `d` lists a subfolder that resolves to `e`. */
  ghost predicate Edge<D(!new)>(fs: FileSystem<D>, d: D, e: D) {
    d in fs.dirs
    && exists f :: f in Subfolders(fs.dirs[d].listing.entries) && Follow(fs, d, f.name) == Some(e)
  }

  ghost predicate PathFromRoot<D(!new)>(fs: FileSystem<D>, p: seq<D>) {
    && p != []
    && fs.rootDir == Some(p[0])
    && forall i :: 0 <= i < |p| - 1 ==> Edge(fs, p[i], p[i + 1])
  }

  ghost predicate Reachable<D(!new)>(fs: FileSystem<D>, d: D) {
    exists p :: PathFromRoot(fs, p) && p[|p| - 1] == d
  }

  lemma ReachableStep<D(!new)>(fs: FileSystem<D>, d: D, e: D)
    requires Reachable(fs, d) && Edge(fs, d, e)
    ensures Reachable(fs, e)
  {
    var p :| PathFromRoot(fs, p) && p[|p| - 1] == d;
    var q := p + [e];
    assert PathFromRoot(fs, q) && q[|q| - 1] == e;
  }

  lemma ReachableRoot<D(!new)>(fs: FileSystem<D>)
    requires fs.rootDir.Some?
    ensures Reachable(fs, fs.rootDir.value)
  {
    var p := [fs.rootDir.value];
    assert PathFromRoot(fs, p) && p[|p| - 1] == fs.rootDir.value;
  }

  /** Every frame lies below the root, and whatever it resolves to is reachable. */
  ghost predicate Grounded<D(!new), P>(fs: FileSystem<D>, frames: seq<Frame<P>>) {
    forall k :: 0 <= k < |frames| ==>
      && |fs.root| <= |frames[k].abs|
      && (Canonicalize(fs, frames[k].abs).Some? ==> Reachable(fs, Canonicalize(fs, frames[k].abs).value))
  }

  ghost predicate AllReachable<D(!new)>(fs: FileSystem<D>, s: set<D>) {
    forall d :: d in s ==> Reachable(fs, d)
  }

  lemma ChildResolves<D, P>(fs: FileSystem<D>, frame: Frame<P>, d: D, name: string, payload: P)
    requires |fs.root| <= |frame.abs| && Canonicalize(fs, frame.abs) == Some(d)
    ensures Canonicalize(fs, Child(frame, name, payload).abs) == Follow(fs, d, name)
  {
  }

  lemma DescendStaysGrounded<S, D(!new), P, E>(
    fs: FileSystem<D>, visit: Visitor<S, P, E>, st: WalkState<S, D, P>, frame: Frame<P>)
    requires Grounded(fs, [frame])
    requires VisitDir(fs, visit, st, frame).Descended?
    ensures Grounded(fs, VisitDir(fs, visit, st, frame).children)
  {
    assert [frame][0] == frame;
    var d := Canonicalize(fs, frame.abs).value;
    var folders := Subfolders(fs.dirs[d].listing.entries);
    var files := Files(fs.dirs[d].listing.entries);
    var order := VisitOrder(visit(st.visitor, frame.payload, folders, files).1.value.enter, |folders|);
    var children := VisitDir(fs, visit, st, frame).children;
    forall k | 0 <= k < |children|
      ensures |fs.root| <= |children[k].abs|
      ensures Canonicalize(fs, children[k].abs).Some? ==> Reachable(fs, Canonicalize(fs, children[k].abs).value)
    {
      var f := folders[order[k].0];
      assert children[k] == Child(frame, f.name, order[k].1);
      ChildResolves(fs, frame, d, f.name, order[k].1);
      if Follow(fs, d, f.name).Some? {
        assert Edge(fs, d, Follow(fs, d, f.name).value);
        ReachableStep(fs, d, Follow(fs, d, f.name).value);
      }
    }
  }

  lemma {:induction false} DrainStaysReachable<S, D(!new), P, E>(
    fs: FileSystem<D>, visit: Visitor<S, P, E>, st: WalkState<S, D, P>, pending: seq<Frame<P>>)
    requires AllReachable(fs, st.visited) && Grounded(fs, pending)
    ensures var r := Drain(fs, visit, st, pending); r.Finished? ==> AllReachable(fs, r.st.visited)
    decreases fs.dirs.Keys - st.visited, |pending|
  {
    if pending != [] {
      assert [pending[0]][0] == pending[0];
      match VisitDir(fs, visit, st, pending[0]) {
        case Skipped(st') => DrainStaysReachable(fs, visit, st', pending[1..]);
        case Stopped(_, _) =>
        case Descended(st', children) =>
          DescendStaysGrounded(fs, visit, st, pending[0]);
          DrainStaysReachable(fs, visit, st', children + pending[1..]);
      }
    }
  }

  lemma RootGrounded<D(!new), P>(fs: FileSystem<D>)
    ensures Grounded<D, P>(fs, [RootFrame(fs)])
  {
    if fs.rootDir.Some? { ReachableRoot(fs); }
  }

  /** Soundness: whatever the visitor, only reachable directories are ever listed. */
  lemma WalkListsOnlyReachable<S, D(!new), P, E>(fs: FileSystem<D>, visit: Visitor<S, P, E>, visitor: S)
    ensures var r := WalkSpec(fs, visit, visitor); r.Finished? ==> AllReachable(fs, r.st.visited)
  {
    DrainIsWalkSpec(fs, visit, visitor);
    RootGrounded<D, P>(fs);
    DrainStaysReachable(fs, visit, Start(visitor), [RootFrame(fs)]);
  }

  // ---------------------------------------------------------------------
  // The visitor that enters everything
  // ---------------------------------------------------------------------

  ghost predicate Covers<P>(picks: seq<(nat, P)>, n: nat) {
    forall i :: 0 <= i < n ==> Picked(picks, i)
  }

  ghost predicate Picked<P>(picks: seq<(nat, P)>, i: nat) {
    exists k :: 0 <= k < |picks| && picks[k].0 == i
  }

  /** Never fails, picks only indices it was offered, and enters every subfolder. */
  ghost predicate EntersEverything<S(!new), P(!new), E>(visit: Visitor<S, P, E>) {
    forall s, p, folders, files ::
      var answer := visit(s, p, folders, files).1;
      answer.Ok? && InRange(answer.value.mark, |files|)
      && InRange(answer.value.enter, |folders|) && Covers(answer.value.enter, |folders|)
  }

  /** Every listed subfolder of a visited directory is visited or still pending. */
  ghost predicate Closing<S, D(!new), P>(fs: FileSystem<D>, st: WalkState<S, D, P>, pending: seq<Frame<P>>) {
    forall d, f :: d in st.visited && d in fs.dirs && f in Subfolders(fs.dirs[d].listing.entries) ==>
      Handled(fs, st.visited, pending, Follow(fs, d, f.name))
  }

  ghost predicate Handled<D(!new), P>(fs: FileSystem<D>, visited: set<D>, pending: seq<Frame<P>>, target: Option<D>) {
    || (target.Some? && target.value in visited)
    || Awaited(fs, pending, target)
  }

  ghost predicate Awaited<D, P>(fs: FileSystem<D>, pending: seq<Frame<P>>, target: Option<D>) {
    exists k :: 0 <= k < |pending| && Canonicalize(fs, pending[k].abs) == target
  }

  /** Marking succeeds exactly when every index names a file, and then yields
      those files, one per mark, under the directory's relative path. */
  lemma {:induction false} MarksInRange<P, E>(files: seq<FileInfo>, frame: Frame<P>, mark: seq<(nat, P)>)
    ensures var r := MarkedFiles<P, E>(files, frame, mark);
            && (r.Ok? <==> InRange(mark, |files|))
            && (r.Ok? ==> |r.value| == |mark| && forall k :: 0 <= k < |mark| ==>
                  var f := files[mark[k].0]; r.value[k] == Marked(frame.rel + [f.name], f.size, mark[k].1))
  {
    if mark != [] {
      MarksInRange<P, E>(files, frame, mark[1..]);
      assert forall k :: 0 < k < |mark| ==> mark[k] == mark[1..][k - 1];
      assert mark[0].0 < |files| && InRange(mark[1..], |files|) ==> InRange(mark, |files|);
    }
  }

  lemma {:induction false} MaxIndexInRange<P>(enter: seq<(nat, P)>, n: nat)
    requires enter != [] && InRange(enter, n)
    ensures MaxIndex(enter) < n
  {
    if |enter| > 1 {
      assert InRange(enter[1..], n);
      MaxIndexInRange(enter[1..], n);
    }
  }

  lemma {:induction false} VisitOrderMember<P>(enter: seq<(nat, P)>, n: nat, e: (nat, P))
    ensures e in VisitOrder(enter, n) <==> e in enter && e.0 < n
  {
    if n != 0 {
      VisitOrderMember(enter, n - 1, e);
      WithIndexMember(enter, n - 1, e);
      EitherPart(VisitOrder(enter, n - 1), WithIndex(enter, n - 1), e);
    }
  }

  lemma EitherPart<T>(a: seq<T>, b: seq<T>, e: T)
    ensures e in a + Reverse(b) <==> e in a || e in b
  {
    ReverseMember(b, e);
  }

  lemma ReverseMember<T>(s: seq<T>, e: T)
    ensures e in Reverse(s) <==> e in s
  {
  }

  lemma {:induction false} WithIndexMember<P>(enter: seq<(nat, P)>, i: nat, e: (nat, P))
    ensures e in WithIndex(enter, i) <==> e in enter && e.0 == i
  {
    if enter != [] {
      WithIndexMember(enter[1..], i, e);
      assert enter == [enter[0]] + enter[1..];
    }
  }

  /** With such a visitor a directory not yet visited is either unlistable or descended into. */
  lemma EnterAllStep<S(!new), D(!new), P(!new), E>(
    fs: FileSystem<D>, visit: Visitor<S, P, E>, st: WalkState<S, D, P>, frame: Frame<P>, d: D)
    requires EntersEverything(visit) && |fs.root| <= |frame.abs|
    requires Canonicalize(fs, frame.abs) == Some(d) && d in fs.dirs && d !in st.visited
    ensures var step := VisitDir(fs, visit, st, frame);
            && step.Descended?
            && forall f :: f in Subfolders(fs.dirs[d].listing.entries) ==> Awaited(fs, step.children, Follow(fs, d, f.name))
  {
    var folders, files := Subfolders(fs.dirs[d].listing.entries), Files(fs.dirs[d].listing.entries);
    var outcome := visit(st.visitor, frame.payload, folders, files).1.value;
    MarksInRange<P, E>(files, frame, outcome.mark);
    if outcome.enter != [] { MaxIndexInRange(outcome.enter, |folders|); }
    var order := VisitOrder(outcome.enter, |folders|);
    var children := VisitDir(fs, visit, st, frame).children;
    forall f | f in folders ensures Awaited(fs, children, Follow(fs, d, f.name)) {
      var i :| 0 <= i < |folders| && folders[i] == f;
      assert Picked(outcome.enter, i);
      var e :| 0 <= e < |outcome.enter| && outcome.enter[e].0 == i;
      VisitOrderMember(outcome.enter, |folders|, outcome.enter[e]);
      var k :| 0 <= k < |order| && order[k] == outcome.enter[e];
      assert children[k] == Child(frame, f.name, order[k].1);
      ChildResolves(fs, frame, d, f.name, order[k].1);
    }
  }

  lemma AwaitedAfter<D, P>(fs: FileSystem<D>, a: seq<Frame<P>>, b: seq<Frame<P>>, target: Option<D>)
    requires Awaited(fs, a, target) || Awaited(fs, b, target)
    ensures Awaited(fs, a + b, target)
  {
    if Awaited(fs, a, target) {
      var k :| 0 <= k < |a| && Canonicalize(fs, a[k].abs) == target;
      assert (a + b)[k] == a[k];
    } else {
      var k :| 0 <= k < |b| && Canonicalize(fs, b[k].abs) == target;
      assert (a + b)[|a| + k] == b[k];
    }
  }

  /** Taking the head off the worklist: its target is now visited, the rest still awaited. */
  lemma HandledAfterPop<D(!new), P>(
    fs: FileSystem<D>, visited: set<D>, more: set<D>, pending: seq<Frame<P>>, d: D, target: Option<D>)
    requires pending != [] && Canonicalize(fs, pending[0].abs) == Some(d) && d in more && visited <= more
    requires Handled(fs, visited, pending, target)
    ensures Handled(fs, more, pending[1..], target)
  {
  }

  lemma EnterAllKeepsClosing<S(!new), D(!new), P(!new), E>(
    fs: FileSystem<D>, visit: Visitor<S, P, E>, st: WalkState<S, D, P>, pending: seq<Frame<P>>, d: D)
    requires EntersEverything(visit) && Closing(fs, st, pending)
    requires pending != [] && |fs.root| <= |pending[0].abs|
    requires Canonicalize(fs, pending[0].abs) == Some(d) && d in fs.dirs && d !in st.visited
    ensures var step := VisitDir(fs, visit, st, pending[0]);
            step.Descended? && Closing(fs, step.st, step.children + pending[1..])
  {
    EnterAllStep(fs, visit, st, pending[0], d);
    var step := VisitDir(fs, visit, st, pending[0]);
    var next := step.children + pending[1..];
    forall x, f | x in step.st.visited && x in fs.dirs && f in Subfolders(fs.dirs[x].listing.entries)
      ensures Handled(fs, step.st.visited, next, Follow(fs, x, f.name))
    {
      var target := Follow(fs, x, f.name);
      if x == d {
        AwaitedAfter(fs, step.children, pending[1..], target);
      } else {
        HandledAfterPop(fs, st.visited, step.st.visited, pending, d, target);
        if !(target.Some? && target.value in step.st.visited) {
          AwaitedAfter(fs, step.children, pending[1..], target);
        }
      }
    }
  }

  /** Every reachable directory can be read, and everything it lists resolves. */
  ghost predicate Listable<D(!new)>(fs: FileSystem<D>) {
    && fs.rootDir.Some?
    && forall d :: Reachable(fs, d) ==>
         d in fs.dirs && forall f :: f in Subfolders(fs.dirs[d].listing.entries) ==> Follow(fs, d, f.name).Some?
  }

  lemma SkipKeepsClosing<S(!new), D(!new), P(!new)>(
    fs: FileSystem<D>, st: WalkState<S, D, P>, st': WalkState<S, D, P>, pending: seq<Frame<P>>, d: D)
    requires Closing(fs, st, pending) && st'.visited == st.visited
    requires pending != [] && Canonicalize(fs, pending[0].abs) == Some(d) && d in st.visited
    ensures Closing(fs, st', pending[1..])
  {
  }

  ghost predicate Arrived<D, P>(fs: FileSystem<D>, frames: seq<Frame<P>>, visited: set<D>) {
    forall k :: 0 <= k < |frames| ==>
      Canonicalize(fs, frames[k].abs).Some? && Canonicalize(fs, frames[k].abs).value in visited
  }

  lemma ArrivedParts<D, P>(fs: FileSystem<D>, first: Frame<P>, a: seq<Frame<P>>, b: seq<Frame<P>>, visited: set<D>)
    requires Arrived(fs, [first], visited) && Arrived(fs, a + b, visited)
    ensures Arrived(fs, [first] + b, visited)
  {
    assert [first][0] == first;
    assert forall k :: 0 <= k < |b| ==> b[k] == (a + b)[|a| + k];
  }

  /** One step of the worklist, on a head that resolves to `d`. */
  lemma DrainNext<S, D, P, E>(
    fs: FileSystem<D>, visit: Visitor<S, P, E>, st: WalkState<S, D, P>, pending: seq<Frame<P>>, d: D)
    requires pending != [] && Canonicalize(fs, pending[0].abs) == Some(d)
    ensures var (r, step) := (Drain(fs, visit, st, pending), VisitDir(fs, visit, st, pending[0]));
            && (d in st.visited <==> step.Skipped?)
            && (step.Skipped? ==> step.st.visited == st.visited && r == Drain(fs, visit, step.st, pending[1..]))
            && (step.Descended? ==> step.st.visited == st.visited + {d} && d in fs.dirs)
            && (step.Descended? ==> r == Drain(fs, visit, step.st, step.children + pending[1..]))
            && (step.Stopped? ==> r.Aborted?)
  {
  }

  lemma GroundedNext<S, D(!new), P, E>(
    fs: FileSystem<D>, visit: Visitor<S, P, E>, st: WalkState<S, D, P>, pending: seq<Frame<P>>)
    requires pending != [] && Grounded(fs, pending) && VisitDir(fs, visit, st, pending[0]).Descended?
    ensures Grounded(fs, VisitDir(fs, visit, st, pending[0]).children + pending[1..])
  {
    assert [pending[0]][0] == pending[0];
    DescendStaysGrounded(fs, visit, st, pending[0]);
  }

  /** What a finished drain leaves: every frame visited and nothing awaited. */
  ghost predicate Entered<S, D(!new), P, E>(
    fs: FileSystem<D>, visited: set<D>, pending: seq<Frame<P>>, r: Walked<S, D, P, E>)
  {
    r.Finished? ==>
      Closing(fs, r.st, []) && visited <= r.st.visited <= fs.dirs.Keys && Arrived(fs, pending, r.st.visited)
  }

  lemma EnteredEarlier<S, D(!new), P, E>(
    fs: FileSystem<D>, visited: set<D>, pending: seq<Frame<P>>, d: D, more: set<D>, children: seq<Frame<P>>,
    r: Walked<S, D, P, E>)
    requires pending != [] && Canonicalize(fs, pending[0].abs) == Some(d)
    requires Entered(fs, more, children + pending[1..], r) && visited <= more && d in more
    ensures Entered(fs, visited, pending, r)
  {
    if r.Finished? {
      assert pending == [pending[0]] + pending[1..];
      ArrivedParts(fs, pending[0], children, pending[1..], r.st.visited);
    }
  }

  lemma {:induction false} DrainEntersAll<S(!new), D(!new), P(!new), E>(
    fs: FileSystem<D>, visit: Visitor<S, P, E>, st: WalkState<S, D, P>, pending: seq<Frame<P>>)
    requires EntersEverything(visit) && Closing(fs, st, pending) && Grounded(fs, pending)
    requires st.visited <= fs.dirs.Keys
    ensures Entered(fs, st.visited, pending, Drain(fs, visit, st, pending))
    decreases fs.dirs.Keys - st.visited, |pending|
  {
    if pending != [] && Canonicalize(fs, pending[0].abs).Some? {
      var d := Canonicalize(fs, pending[0].abs).value;
      var (r, step, rest) := (Drain(fs, visit, st, pending), VisitDir(fs, visit, st, pending[0]), pending[1..]);
      DrainNext(fs, visit, st, pending, d);
      if d in st.visited {
        SkipKeepsClosing(fs, st, step.st, pending, d);
        DrainEntersAll(fs, visit, step.st, rest);
        assert [] + rest == rest;
        EnteredEarlier(fs, st.visited, pending, d, st.visited, [], r);
      } else if d in fs.dirs {
        EnterAllKeepsClosing(fs, visit, st, pending, d);
        GroundedNext(fs, visit, st, pending);
        DrainEntersAll(fs, visit, step.st, step.children + rest);
        EnteredEarlier(fs, st.visited, pending, d, step.st.visited, step.children, r);
      }
    }
  }

  lemma {:induction false} ClosedPath<D(!new)>(fs: FileSystem<D>, visited: set<D>, p: seq<D>, n: nat)
    requires PathFromRoot(fs, p) && n < |p| && p[0] in visited
    requires forall d, e :: d in visited && Edge(fs, d, e) ==> e in visited
    ensures p[n] in visited
  {
    if n > 0 {
      ClosedPath(fs, visited, p, n - 1);
      assert Edge(fs, p[n - 1], p[n]);
    }
  }

  /** Completeness: a finished enter-everything walk lists exactly the reachable
      directories, and it finishes only if all of them can be listed. */
  lemma EnterAllFinishedIsReachability<S(!new), D(!new), P(!new), E>(
    fs: FileSystem<D>, visit: Visitor<S, P, E>, visitor: S)
    requires EntersEverything(visit)
    ensures var r := WalkSpec(fs, visit, visitor);
            r.Finished? ==> Listable(fs) && forall d :: d in r.st.visited <==> Reachable(fs, d)
  {
    var st: WalkState<S, D, P> := Start(visitor);
    var pending: seq<Frame<P>> := [RootFrame(fs)];
    DrainIsWalkSpec(fs, visit, visitor);
    RootGrounded<D, P>(fs);
    DrainEntersAll(fs, visit, st, pending);
    WalkListsOnlyReachable(fs, visit, visitor);
    var r := WalkSpec(fs, visit, visitor);
    if r.Finished? {
      assert pending[0] == RootFrame(fs);
      var visited := r.st.visited;
      forall d, f | d in visited && f in Subfolders(fs.dirs[d].listing.entries)
        ensures Follow(fs, d, f.name).Some? && Follow(fs, d, f.name).value in visited
      {
        assert Handled<D, P>(fs, visited, [], Follow(fs, d, f.name));
      }
      forall d | Reachable(fs, d) ensures d in visited {
        var p :| PathFromRoot(fs, p) && p[|p| - 1] == d;
        ClosedPath(fs, visited, p, |p| - 1);
      }
    }
  }

  ghost predicate AllResolve<D, P>(fs: FileSystem<D>, frames: seq<Frame<P>>) {
    forall k :: 0 <= k < |frames| ==> Canonicalize(fs, frames[k].abs).Some?
  }

  lemma {:induction false} ListableDrainFinishes<S(!new), D(!new), P(!new), E>(
    fs: FileSystem<D>, visit: Visitor<S, P, E>, st: WalkState<S, D, P>, pending: seq<Frame<P>>)
    requires EntersEverything(visit) && Listable(fs) && Grounded(fs, pending) && AllResolve(fs, pending)
    ensures Drain(fs, visit, st, pending).Finished?
    decreases fs.dirs.Keys - st.visited, |pending|
  {
    if pending != [] {
      var d := Canonicalize(fs, pending[0].abs).value;
      var step := VisitDir(fs, visit, st, pending[0]);
      DrainNext(fs, visit, st, pending, d);
      if d in st.visited {
        ListableDrainFinishes(fs, visit, step.st, pending[1..]);
      } else {
        EnterAllStep(fs, visit, st, pending[0], d);
        GroundedNext(fs, visit, st, pending);
        ChildrenResolve(fs, visit, st, pending[0], d);
        ListableDrainFinishes(fs, visit, step.st, step.children + pending[1..]);
      }
    }
  }

  lemma ChildrenResolve<S, D(!new), P, E>(
    fs: FileSystem<D>, visit: Visitor<S, P, E>, st: WalkState<S, D, P>, frame: Frame<P>, d: D)
    requires |fs.root| <= |frame.abs| && Canonicalize(fs, frame.abs) == Some(d) && d in fs.dirs
    requires forall f :: f in Subfolders(fs.dirs[d].listing.entries) ==> Follow(fs, d, f.name).Some?
    requires VisitDir(fs, visit, st, frame).Descended?
    ensures AllResolve(fs, VisitDir(fs, visit, st, frame).children)
  {
  }

  /** The enter-everything walk finishes exactly when the whole reachable graph
      can be listed, and then lists exactly that graph: shared targets and
      symlink cycles never loop it. */
  lemma EnterAllWalk<S(!new), D(!new), P(!new), E>(fs: FileSystem<D>, visit: Visitor<S, P, E>, visitor: S)
    requires EntersEverything(visit)
    ensures var r := WalkSpec(fs, visit, visitor);
            && (r.Finished? <==> Listable(fs))
            && (r.Finished? ==> forall d :: d in r.st.visited <==> Reachable(fs, d))
  {
    EnterAllFinishedIsReachability(fs, visit, visitor);
    if Listable(fs) {
      DrainIsWalkSpec(fs, visit, visitor);
      RootGrounded<D, P>(fs);
      ListableDrainFinishes(fs, visit, Start(visitor), [RootFrame(fs)]);
    }
  }
}
