/**
 What the visitor of a directory walk is asked, in what terms, and what becomes of its
 answers.  A visitor is recorded by threading the list of its calls through its state.
 */
module DiscoveryCalls {
  import opened Wrappers
  import opened Discovery
  import DiscoveryTheorems

  datatype Call<P, E> = Call(
    payload: Option<P>, folders: seq<FolderInfo>, files: seq<FileInfo>, answer: Result<VisitOutcome<P>, E>)

  /** The same visitor, keeping a list of what it was asked and what it said. */
  function Recording<S, P, E>(visit: Visitor<S, P, E>): Visitor<(S, seq<Call<P, E>>), P, E> {
    (s: (S, seq<Call<P, E>>), payload: Option<P>, folders: seq<FolderInfo>, files: seq<FileInfo>) =>
      var (s', answer) := visit(s.0, payload, folders, files);
      ((s', s.1 + [Call(payload, folders, files, answer)]), answer)
  }

  // ---------------------------------------------------------------------
  // Recording changes nothing
  // ---------------------------------------------------------------------

  function Erased<S, D, P, E>(st: WalkState<(S, seq<Call<P, E>>), D, P>): WalkState<S, D, P> {
    WalkState(st.visited, st.marked, st.stats, st.visitor.0, st.trace, st.accepted)
  }

  function ErasedWalk<S, D, P, E>(r: Walked<(S, seq<Call<P, E>>), D, P, E>): Walked<S, D, P, E> {
    match r
    case Finished(st) => Finished(Erased(st))
    case Aborted(e, v) => Aborted(e, v.0)
  }

  /** What a step is without the recording. */
  function ErasedStep<S, D, P, E>(step: Step<(S, seq<Call<P, E>>), D, P, E>): Step<S, D, P, E> {
    match step
    case Skipped(st) => Skipped(Erased(st))
    case Stopped(e, v) => Stopped(e, v.0)
    case Descended(st, children) => Descended(Erased(st), children)
  }

  lemma VisitErases<S, D, P, E>(
    fs: FileSystem<D>, visit: Visitor<S, P, E>, st: WalkState<(S, seq<Call<P, E>>), D, P>, frame: Frame<P>)
    ensures ErasedStep(VisitDir(fs, Recording(visit), st, frame)) == VisitDir(fs, visit, Erased(st), frame)
  {
  }

  lemma {:induction false} DrainErases<S, D, P, E>(
    fs: FileSystem<D>, visit: Visitor<S, P, E>, st: WalkState<(S, seq<Call<P, E>>), D, P>, pending: seq<Frame<P>>)
    ensures ErasedWalk(Drain(fs, Recording(visit), st, pending)) == Drain(fs, visit, Erased(st), pending)
    decreases fs.dirs.Keys - st.visited, |pending|
  {
    if pending != [] {
      VisitErases(fs, visit, st, pending[0]);
      match VisitDir(fs, Recording(visit), st, pending[0]) {
        case Skipped(st') => DrainErases(fs, visit, st', pending[1..]);
        case Stopped(_, _) =>
        case Descended(st', children) => DrainErases(fs, visit, st', children + pending[1..]);
      }
    }
  }

  // ---------------------------------------------------------------------
  // The calls, explained
  // ---------------------------------------------------------------------

  /** Call `j` entered, as its `k`-th enter, a folder of that name with that payload. */
  ghost predicate Sent<D, P, E>(
    fs: FileSystem<D>, calls: seq<Call<P, E>>, dirs: seq<D>, rels: seq<Path>, j: nat, k: nat,
    payload: Option<P>, rel: Path, target: Option<D>)
  {
    && j < |calls| && |calls| == |dirs| == |rels| && calls[j].answer.Ok?
    && k < |calls[j].answer.value.enter| && calls[j].answer.value.enter[k].0 < |calls[j].folders|
    && var (index, given) := calls[j].answer.value.enter[k];
       var name := calls[j].folders[index].name;
       payload == Some(given) && rel == rels[j] + [name] && target == Follow(fs, dirs[j], name)
  }

  /** One of the first `n` calls did. */
  ghost predicate SentBefore<D, P, E>(
    fs: FileSystem<D>, calls: seq<Call<P, E>>, dirs: seq<D>, rels: seq<Path>, n: nat,
    payload: Option<P>, rel: Path, target: Option<D>)
  {
    exists j: nat, k: nat :: j < n && Sent(fs, calls, dirs, rels, j, k, payload, rel, target)
  }

  /** Call `i` was made on directory `dirs[i]`, under relative path `rels[i]`: the root
      without a payload, any other with the payload an earlier call gave for that very
      folder; and it was shown what that directory lists. */
  ghost predicate Explained<D, P, E>(
    fs: FileSystem<D>, calls: seq<Call<P, E>>, dirs: seq<D>, rels: seq<Path>, i: nat)
  {
    && i < |calls| && |calls| == |dirs| == |rels| && dirs[i] in fs.dirs
    && calls[i].folders == Subfolders(fs.dirs[dirs[i]].listing.entries)
    && calls[i].files == Files(fs.dirs[dirs[i]].listing.entries)
    && if i == 0 then calls[i].payload == None && rels[i] == [] && fs.rootDir == Some(dirs[i])
       else SentBefore(fs, calls, dirs, rels, i, calls[i].payload, rels[i], Some(dirs[i]))
  }

  ghost predicate AllExplained<D, P, E>(
    fs: FileSystem<D>, calls: seq<Call<P, E>>, dirs: seq<D>, rels: seq<Path>)
  {
    |calls| == |dirs| == |rels| && forall i :: 0 <= i < |calls| ==> Explained(fs, calls, dirs, rels, i)
  }

  /** The call was answered with marks and enters that name what it was shown. */
  ghost predicate Obeyed<P, E>(call: Call<P, E>) {
    call.answer.Ok? && InRange(call.answer.value.mark, |call.files|)
    && InRange(call.answer.value.enter, |call.folders|)
  }

  /** The files a call marked, in its order, by their path under the root. */
  ghost function MarksOf<P, E>(call: Call<P, E>, rel: Path): seq<Marked<P>>
    requires Obeyed(call)
  {
    var mark := call.answer.value.mark;
    seq(|mark|, k requires 0 <= k < |mark| =>
      Marked(rel + [call.files[mark[k].0].name], call.files[mark[k].0].size, mark[k].1))
  }

  /** The marks of all calls, call by call. */
  ghost function AllMarks<P, E>(calls: seq<Call<P, E>>, rels: seq<Path>): seq<Marked<P>>
    requires |calls| == |rels| && forall i :: 0 <= i < |calls| ==> Obeyed(calls[i])
  {
    if calls == [] then []
    else AllMarks(calls[..|calls| - 1], rels[..|rels| - 1]) + MarksOf(calls[|calls| - 1], rels[|rels| - 1])
  }

  /** What the walk has done so far is what its calls were told. */
  ghost predicate Accounted<S, D, P, E>(
    fs: FileSystem<D>, st: WalkState<(S, seq<Call<P, E>>), D, P>, rels: seq<Path>)
  {
    var calls := st.visitor.1;
    && AllExplained(fs, calls, st.trace, rels)
    && (forall i :: 0 <= i < |calls| ==> Obeyed(calls[i]))
    && st.marked == AllMarks(calls, rels)
  }

  /** A frame still to be visited is the root before any call, or was sent by a call. */
  ghost predicate FrameExplained<D, P, E>(
    fs: FileSystem<D>, calls: seq<Call<P, E>>, dirs: seq<D>, rels: seq<Path>, frame: Frame<P>)
  {
    && |fs.root| <= |frame.abs|
    && if calls == [] then frame == RootFrame(fs)
       else SentBefore(fs, calls, dirs, rels, |calls|, frame.payload, frame.rel, Canonicalize(fs, frame.abs))
  }

  ghost predicate FramesExplained<D, P, E>(
    fs: FileSystem<D>, calls: seq<Call<P, E>>, dirs: seq<D>, rels: seq<Path>, frames: seq<Frame<P>>)
  {
    forall i :: 0 <= i < |frames| ==> FrameExplained(fs, calls, dirs, rels, frames[i])
  }

  // ---------------------------------------------------------------------
  // One more call
  // ---------------------------------------------------------------------

  lemma SentStays<D, P, E>(
    fs: FileSystem<D>, calls: seq<Call<P, E>>, dirs: seq<D>, rels: seq<Path>, n: nat,
    payload: Option<P>, rel: Path, target: Option<D>, call: Call<P, E>, dir: D, at: Path)
    requires |calls| == |dirs| == |rels| && SentBefore(fs, calls, dirs, rels, n, payload, rel, target)
    ensures SentBefore(fs, calls + [call], dirs + [dir], rels + [at], n, payload, rel, target)
  {
    var j: nat, k: nat :| j < n && Sent(fs, calls, dirs, rels, j, k, payload, rel, target);
    assert Sent(fs, calls + [call], dirs + [dir], rels + [at], j, k, payload, rel, target);
  }

  lemma SentLater<D, P, E>(
    fs: FileSystem<D>, calls: seq<Call<P, E>>, dirs: seq<D>, rels: seq<Path>, m: nat, n: nat,
    payload: Option<P>, rel: Path, target: Option<D>)
    requires m <= n && SentBefore(fs, calls, dirs, rels, m, payload, rel, target)
    ensures SentBefore(fs, calls, dirs, rels, n, payload, rel, target)
  {
    var j: nat, k: nat :| j < m && Sent(fs, calls, dirs, rels, j, k, payload, rel, target);
    assert j < n && Sent(fs, calls, dirs, rels, j, k, payload, rel, target);
  }

  /** A call made on an explained frame is explained, and so stay the earlier ones. */
  lemma CallExplained<D, P, E>(
    fs: FileSystem<D>, calls: seq<Call<P, E>>, dirs: seq<D>, rels: seq<Path>, frame: Frame<P>, dir: D, call: Call<P, E>)
    requires AllExplained(fs, calls, dirs, rels) && FrameExplained(fs, calls, dirs, rels, frame)
    requires Canonicalize(fs, frame.abs) == Some(dir) && dir in fs.dirs && call.payload == frame.payload
    requires call.folders == Subfolders(fs.dirs[dir].listing.entries)
    requires call.files == Files(fs.dirs[dir].listing.entries)
    ensures AllExplained(fs, calls + [call], dirs + [dir], rels + [frame.rel])
  {
    var (calls', dirs', rels') := (calls + [call], dirs + [dir], rels + [frame.rel]);
    forall i | 0 <= i < |calls'| ensures Explained(fs, calls', dirs', rels', i) {
      if i < |calls| {
        assert Explained(fs, calls, dirs, rels, i);
        if i > 0 {
          SentStays(fs, calls, dirs, rels, i, calls[i].payload, rels[i], Some(dirs[i]), call, dir, frame.rel);
        }
      } else if i > 0 {
        SentStays(fs, calls, dirs, rels, i, frame.payload, frame.rel, Some(dir), call, dir, frame.rel);
      }
    }
  }

  lemma FramesStayExplained<D, P, E>(
    fs: FileSystem<D>, calls: seq<Call<P, E>>, dirs: seq<D>, rels: seq<Path>, frames: seq<Frame<P>>,
    call: Call<P, E>, dir: D, at: Path)
    requires |calls| == |dirs| == |rels| && calls != [] && FramesExplained(fs, calls, dirs, rels, frames)
    ensures FramesExplained(fs, calls + [call], dirs + [dir], rels + [at], frames)
  {
    forall i | 0 <= i < |frames| ensures FrameExplained(fs, calls + [call], dirs + [dir], rels + [at], frames[i]) {
      var (f, n) := (frames[i], |calls|);
      assert FrameExplained(fs, calls, dirs, rels, f);
      var target := Canonicalize(fs, f.abs);
      SentStays(fs, calls, dirs, rels, n, f.payload, f.rel, target, call, dir, at);
      SentLater(fs, calls + [call], dirs + [dir], rels + [at], n, n + 1, f.payload, f.rel, target);
    }
  }

  lemma FramesTail<D, P, E>(
    fs: FileSystem<D>, calls: seq<Call<P, E>>, dirs: seq<D>, rels: seq<Path>, frames: seq<Frame<P>>)
    requires frames != [] && FramesExplained(fs, calls, dirs, rels, frames)
    ensures FrameExplained(fs, calls, dirs, rels, frames[0]) && FramesExplained(fs, calls, dirs, rels, frames[1..])
  {
  }

  /** The children of a call are sent by it. */
  lemma ChildrenExplained<D, P, E>(
    fs: FileSystem<D>, calls: seq<Call<P, E>>, dirs: seq<D>, rels: seq<Path>, frame: Frame<P>, dir: D, call: Call<P, E>)
    requires |calls| == |dirs| == |rels| && |fs.root| <= |frame.abs| && Canonicalize(fs, frame.abs) == Some(dir)
    requires Obeyed(call)
    ensures FramesExplained(fs, calls + [call], dirs + [dir], rels + [frame.rel],
                            Children(frame, call.folders, VisitOrder(call.answer.value.enter, |call.folders|)))
  {
    var (calls', dirs', rels') := (calls + [call], dirs + [dir], rels + [frame.rel]);
    var (enter, folders) := (call.answer.value.enter, call.folders);
    var order := VisitOrder(enter, |folders|);
    var children := Children(frame, folders, order);
    forall i | 0 <= i < |children| ensures FrameExplained(fs, calls', dirs', rels', children[i]) {
      var (index, payload) := order[i];
      DiscoveryTheorems.VisitOrderMember(enter, |folders|, order[i]);
      var k :| 0 <= k < |enter| && enter[k] == order[i];
      DiscoveryTheorems.ChildResolves(fs, frame, dir, folders[index].name, payload);
      var target := Canonicalize(fs, children[i].abs);
      assert Sent(fs, calls', dirs', rels', |calls|, k, children[i].payload, children[i].rel, target);
    }
  }

  lemma MarksAppend<P, E>(calls: seq<Call<P, E>>, rels: seq<Path>, call: Call<P, E>, rel: Path)
    requires |calls| == |rels| && (forall i :: 0 <= i < |calls| ==> Obeyed(calls[i])) && Obeyed(call)
    ensures AllMarks(calls + [call], rels + [rel]) == AllMarks(calls, rels) + MarksOf(call, rel)
  {
    assert (calls + [call])[..|calls|] == calls && (rels + [rel])[..|rels|] == rels;
  }

  lemma MarkedFilesAre<P, E>(call: Call<P, E>, frame: Frame<P>)
    requires call.answer.Ok? && MarkedFiles<P, E>(call.files, frame, call.answer.value.mark).Ok?
    ensures InRange(call.answer.value.mark, |call.files|)
    ensures Obeyed(call) ==> MarkedFiles<P, E>(call.files, frame, call.answer.value.mark).value == MarksOf(call, frame.rel)
  {
    DiscoveryTheorems.MarksInRange<P, E>(call.files, frame, call.answer.value.mark);
  }

  lemma EntersInRange<P>(enter: seq<(nat, P)>, n: nat)
    requires !(enter != [] && MaxIndex(enter) >= n)
    ensures InRange(enter, n)
  {
    if enter != [] { MaxIndexBounds(enter); }
  }

  // ---------------------------------------------------------------------
  // What an aborted walk reports
  // ---------------------------------------------------------------------

  /** `index` is the first pick, in the visitor's order, that names nothing. */
  ghost predicate FirstBad<P>(picks: seq<(nat, P)>, n: nat, index: nat) {
    exists k :: 0 <= k < |picks| && picks[k].0 == index >= n && forall j :: 0 <= j < k ==> picks[j].0 < n
  }

  /** `index` is the greatest pick, and names nothing. */
  ghost predicate GreatestBad<P>(picks: seq<(nat, P)>, n: nat, index: nat) {
    (exists k :: 0 <= k < |picks| && picks[k].0 == index >= n) && forall k :: 0 <= k < |picks| ==> picks[k].0 <= index
  }

  /** The error is the last call's own, or its first bad mark, or with all marks good its
      greatest bad enter; or a path that leads to nothing readable. */
  ghost predicate Blamed<D, P, E>(fs: FileSystem<D>, calls: seq<Call<P, E>>, error: WalkError<E>) {
    match error
    case Io(path) => Canonicalize(fs, path).None? || Canonicalize(fs, path).value !in fs.dirs
    case VisitorFailed(e) => calls != [] && calls[|calls| - 1].answer == Err(e)
    case IndexOutOfBounds(kind, index, len, _) =>
      && calls != [] && calls[|calls| - 1].answer.Ok?
      && var Call(_, folders, files, answer) := calls[|calls| - 1];
         if kind.FileIndex? then len == |files| && FirstBad(answer.value.mark, len, index)
         else len == |folders| && InRange(answer.value.mark, |files|) && GreatestBad(answer.value.enter, len, index)
  }

  lemma {:induction false} BadMarkIsFirst<P, E>(files: seq<FileInfo>, frame: Frame<P>, mark: seq<(nat, P)>)
    requires MarkedFiles<P, E>(files, frame, mark).Err?
    ensures exists index: nat ::
      && MarkedFiles<P, E>(files, frame, mark).error == IndexOutOfBounds(FileIndex, index, |files|, frame.abs)
      && FirstBad(mark, |files|, index)
  {
    if mark[0].0 < |files| {
      var rest: seq<(nat, P)> := mark[1..];
      BadMarkIsFirst<P, E>(files, frame, rest);
      var index: nat :| MarkedFiles<P, E>(files, frame, rest).error == IndexOutOfBounds(FileIndex, index, |files|, frame.abs)
                   && FirstBad(rest, |files|, index);
      var k :| 0 <= k < |rest| && rest[k].0 == index >= |files| && forall j :: 0 <= j < k ==> rest[j].0 < |files|;
      assert mark[k + 1].0 == index && forall j :: 0 < j < k + 1 ==> mark[j] == rest[j - 1];
    } else {
      assert FirstBad(mark, |files|, mark[0].0);
    }
  }

  lemma {:induction false} MaxIndexAttained<P>(enter: seq<(nat, P)>)
    requires enter != []
    ensures exists k :: 0 <= k < |enter| && enter[k].0 == MaxIndex(enter)
  {
    if |enter| > 1 && MaxIndex(enter) != enter[0].0 {
      MaxIndexAttained(enter[1..]);
      var k :| 0 <= k < |enter[1..]| && enter[1..][k].0 == MaxIndex(enter[1..]);
      assert enter[k + 1].0 == MaxIndex(enter);
    } else {
      assert enter[0].0 == MaxIndex(enter);
    }
  }

  lemma StopBlames<S, D, P, E>(
    fs: FileSystem<D>, visit: Visitor<S, P, E>, st: WalkState<(S, seq<Call<P, E>>), D, P>, frame: Frame<P>)
    requires VisitDir(fs, Recording(visit), st, frame).Stopped?
    ensures var step := VisitDir(fs, Recording(visit), st, frame); Blamed(fs, step.visitor.1, step.error)
  {
    var found := Canonicalize(fs, frame.abs);
    if found.Some? && found.value in fs.dirs {
      var call := CallOn(fs, visit, st.visitor.0, frame, found.value);
      if call.answer.Ok? {
        var outcome := call.answer.value;
        DiscoveryTheorems.MarksInRange<P, E>(call.files, frame, outcome.mark);
        if MarkedFiles<P, E>(call.files, frame, outcome.mark).Err? {
          BadMarkIsFirst<P, E>(call.files, frame, outcome.mark);
        } else if outcome.enter != [] {
          MaxIndexAttained(outcome.enter);
          MaxIndexBounds(outcome.enter);
        }
      }
    }
  }

  // ---------------------------------------------------------------------
  // The whole walk
  // ---------------------------------------------------------------------

  /** The call a visit of `frame` makes. */
  ghost function CallOn<S, D, P, E>(
    fs: FileSystem<D>, visit: Visitor<S, P, E>, s: S, frame: Frame<P>, dir: D): Call<P, E>
    requires dir in fs.dirs
  {
    var entries := fs.dirs[dir].listing.entries;
    Call(frame.payload, Subfolders(entries), Files(entries),
         visit(s, frame.payload, Subfolders(entries), Files(entries)).1)
  }

  lemma VisitCalls<S, D, P, E>(
    fs: FileSystem<D>, visit: Visitor<S, P, E>, st: WalkState<(S, seq<Call<P, E>>), D, P>, frame: Frame<P>, dir: D)
    requires Canonicalize(fs, frame.abs) == Some(dir) && dir in fs.dirs && dir !in st.visited
    ensures var (step, call) := (VisitDir(fs, Recording(visit), st, frame), CallOn(fs, visit, st.visitor.0, frame, dir));
            && (step.Stopped? ==> step.visitor.1 == st.visitor.1 + [call])
            && (step.Descended? ==>
                  && step.st.visitor.1 == st.visitor.1 + [call] && step.st.trace == st.trace + [dir] && Obeyed(call)
                  && step.st.marked == st.marked + MarksOf(call, frame.rel)
                  && step.children == Children(frame, call.folders, VisitOrder(call.answer.value.enter, |call.folders|)))
  {
    var (step, call) := (VisitDir(fs, Recording(visit), st, frame), CallOn(fs, visit, st.visitor.0, frame, dir));
    if step.Descended? {
      EntersInRange(call.answer.value.enter, |call.folders|);
      MarkedFilesAre(call, frame);
    }
  }

  /** Everything done and everything pending is explained; before the first call only the
      root is pending. */
  ghost predicate Underway<S, D, P, E>(
    fs: FileSystem<D>, st: WalkState<(S, seq<Call<P, E>>), D, P>, rels: seq<Path>, pending: seq<Frame<P>>)
  {
    && Accounted(fs, st, rels) && FramesExplained(fs, st.visitor.1, st.trace, rels, pending)
    && (st.visitor.1 == [] ==> |pending| == 1 && st.visited == {})
  }

  lemma SkipUnderway<S, D, P, E>(
    fs: FileSystem<D>, visit: Visitor<S, P, E>, st: WalkState<(S, seq<Call<P, E>>), D, P>, rels: seq<Path>,
    pending: seq<Frame<P>>)
    requires pending != [] && Underway(fs, st, rels, pending)
    requires VisitDir(fs, Recording(visit), st, pending[0]).Skipped?
    ensures Underway(fs, VisitDir(fs, Recording(visit), st, pending[0]).st, rels, pending[1..])
  {
    FramesTail(fs, st.visitor.1, st.trace, rels, pending);
  }

  lemma DescentAccounted<S, D, P, E>(
    fs: FileSystem<D>, visit: Visitor<S, P, E>, st: WalkState<(S, seq<Call<P, E>>), D, P>, rels: seq<Path>,
    pending: seq<Frame<P>>, dir: D)
    requires pending != [] && Underway(fs, st, rels, pending)
    requires Canonicalize(fs, pending[0].abs) == Some(dir) && dir in fs.dirs && dir !in st.visited
    requires VisitDir(fs, Recording(visit), st, pending[0]).Descended?
    ensures var step := VisitDir(fs, Recording(visit), st, pending[0]);
            Underway(fs, step.st, rels + [pending[0].rel], step.children + pending[1..])
  {
    var (frame, rest) := (pending[0], pending[1..]);
    var call := CallOn(fs, visit, st.visitor.0, frame, dir);
    assert FrameExplained(fs, st.visitor.1, st.trace, rels, frame);
    VisitCalls(fs, visit, st, frame, dir);
    CallExplained(fs, st.visitor.1, st.trace, rels, frame, dir, call);
    MarksAppend(st.visitor.1, rels, call, frame.rel);
    ChildrenExplained(fs, st.visitor.1, st.trace, rels, frame, dir, call);
    if st.visitor.1 != [] {
      FramesStayExplained(fs, st.visitor.1, st.trace, rels, rest, call, dir, frame.rel);
    }
  }

  /** How a walk ended, told by its calls. */
  ghost predicate Accounts<S, D, P, E>(
    fs: FileSystem<D>, r: Walked<(S, seq<Call<P, E>>), D, P, E>, dirs: seq<D>, rels: seq<Path>)
  {
    match r
    case Finished(end) => dirs == end.trace && Accounted(fs, end, rels)
    case Aborted(e, v) => AllExplained(fs, v.1, dirs, rels) && Blamed(fs, v.1, e)
  }

  lemma StopAccounts<S, D, P, E>(
    fs: FileSystem<D>, visit: Visitor<S, P, E>, st: WalkState<(S, seq<Call<P, E>>), D, P>, rels: seq<Path>,
    frame: Frame<P>)
    returns (dirs: seq<D>, rels': seq<Path>)
    requires Accounted(fs, st, rels) && FrameExplained(fs, st.visitor.1, st.trace, rels, frame)
    requires VisitDir(fs, Recording(visit), st, frame).Stopped?
    ensures var step := VisitDir(fs, Recording(visit), st, frame);
            Accounts(fs, Walked<(S, seq<Call<P, E>>), D, P, E>.Aborted(step.error, step.visitor), dirs, rels')
  {
    StopBlames(fs, visit, st, frame);
    var found := Canonicalize(fs, frame.abs);
    dirs, rels' := st.trace, rels;
    if found.Some? && found.value in fs.dirs {
      var dir := found.value;
      VisitCalls(fs, visit, st, frame, dir);
      CallExplained(fs, st.visitor.1, st.trace, rels, frame, dir, CallOn(fs, visit, st.visitor.0, frame, dir));
      dirs, rels' := st.trace + [dir], rels + [frame.rel];
    }
  }

  lemma {:induction false} DrainExplains<S, D, P, E>(
    fs: FileSystem<D>, visit: Visitor<S, P, E>, st: WalkState<(S, seq<Call<P, E>>), D, P>, rels: seq<Path>,
    pending: seq<Frame<P>>)
    returns (dirs: seq<D>, rels': seq<Path>)
    requires Underway(fs, st, rels, pending)
    ensures Accounts(fs, Drain(fs, Recording(visit), st, pending), dirs, rels')
    decreases fs.dirs.Keys - st.visited, |pending|
  {
    if pending == [] {
      dirs, rels' := st.trace, rels;
    } else {
      var frame := pending[0];
      match VisitDir(fs, Recording(visit), st, frame) {
        case Skipped(st') =>
          SkipUnderway(fs, visit, st, rels, pending);
          dirs, rels' := DrainExplains(fs, visit, st', rels, pending[1..]);
        case Stopped(_, _) =>
          FramesTail(fs, st.visitor.1, st.trace, rels, pending);
          dirs, rels' := StopAccounts(fs, visit, st, rels, frame);
        case Descended(st', children) =>
          DescentAccounted(fs, visit, st, rels, pending, Canonicalize(fs, frame.abs).value);
          dirs, rels' := DrainExplains(fs, visit, st', rels + [frame.rel], children + pending[1..]);
      }
    }
  }

  /** Every walk, finished or not, asks its visitor about the root first and without a
      payload, and about any other directory with the payload that an earlier answer gave
      for the folder leading there; always with the directory's own folders and files.  A
      finished walk has asked about exactly the directories it lists, in that order, and
      yields exactly the files the answers marked; an aborted one reports what the last
      answer, or the last path, did wrong.  Recording the calls changes nothing. */
  lemma WalkExplained<S, D, P, E>(fs: FileSystem<D>, visit: Visitor<S, P, E>, visitor: S)
    returns (dirs: seq<D>, rels: seq<Path>)
    ensures ErasedWalk(WalkSpec(fs, Recording(visit), (visitor, []))) == WalkSpec(fs, visit, visitor)
    ensures Accounts(fs, WalkSpec(fs, Recording(visit), (visitor, [])), dirs, rels)
  {
    var st: WalkState<(S, seq<Call<P, E>>), D, P> := Start((visitor, []));
    var root: seq<Frame<P>> := [RootFrame(fs)];
    DrainIsWalkSpec(fs, Recording(visit), (visitor, []));
    DrainIsWalkSpec(fs, visit, visitor);
    DrainErases(fs, visit, st, root);
    dirs, rels := DrainExplains(fs, visit, st, [], root);
  }

  // ---------------------------------------------------------------------
  // What a listing shows, and the order of the enters
  // ---------------------------------------------------------------------

  lemma SplitCons(e: DirEntry, rest: seq<DirEntry>)
    ensures Subfolders([e] + rest) == (if e.Dir? then [FolderInfo(e.name)] else []) + Subfolders(rest)
    ensures Files([e] + rest) == (if e.File? then [FileInfo(e.name, e.size)] else []) + Files(rest)
  {
    assert ([e] + rest)[1..] == rest;
  }

  /** A listing is split without loss ... */
  lemma {:induction false} ListingSplits(entries: seq<DirEntry>)
    ensures |Subfolders(entries)| + |Files(entries)| == |entries|
  {
    if entries != [] {
      ListingSplits(entries[1..]);
    }
  }

  /** ... and without reordering: an entry is found, under its name, at the place given by
      the entries of its kind before it. */
  lemma {:induction false} EntryFound(before: seq<DirEntry>, e: DirEntry, after: seq<DirEntry>)
    ensures match e
            case Dir(name) => Subfolders(before + [e] + after) == Subfolders(before) + [FolderInfo(name)] + Subfolders(after)
            case File(name, size) => Files(before + [e] + after) == Files(before) + [FileInfo(name, size)] + Files(after)
  {
    SplitConcat(before, [e] + after);
    assert before + ([e] + after) == before + [e] + after;
    SplitCons(e, after);
  }

  lemma {:induction false} SplitConcat(a: seq<DirEntry>, b: seq<DirEntry>)
    ensures Subfolders(a + b) == Subfolders(a) + Subfolders(b) && Files(a + b) == Files(a) + Files(b)
  {
    if a == [] {
      assert a + b == b;
    } else {
      var e, rest := a[0], a[1..];
      SplitConcat(rest, b);
      SplitCons(e, rest);
      SplitCons(e, rest + b);
      HeadFirst(a, b);
      Regroup(if e.Dir? then [FolderInfo(e.name)] else [], Subfolders(rest), Subfolders(b));
      Regroup(if e.File? then [FileInfo(e.name, e.size)] else [], Files(rest), Files(b));
    }
  }

  lemma Regroup<T>(a: seq<T>, b: seq<T>, c: seq<T>)
    ensures a + (b + c) == (a + b) + c
  {
  }

  /** The enters are visited by ascending index ... */
  lemma {:induction false} VisitOrderAscends<P>(enter: seq<(nat, P)>, n: nat)
    ensures forall i, j :: 0 <= i < j < |VisitOrder(enter, n)| ==> VisitOrder(enter, n)[i].0 <= VisitOrder(enter, n)[j].0
  {
    if n > 0 {
      VisitOrderAscends(enter, n - 1);
      WithIndexAt(enter, n - 1);
      StillAscends(VisitOrder(enter, n - 1), Reverse(WithIndex(enter, n - 1)), n - 1);
    }
  }

  lemma StillAscends<P>(below: seq<(nat, P)>, top: seq<(nat, P)>, m: nat)
    requires forall i, j :: 0 <= i < j < |below| ==> below[i].0 <= below[j].0
    requires InRange(below, m) && AllAt(top, m)
    ensures forall i, j :: 0 <= i < j < |below + top| ==> (below + top)[i].0 <= (below + top)[j].0
  {
  }

  /** ... all of them, and those of one folder last first. */
  lemma {:induction false} VisitOrderOfOne<P>(enter: seq<(nat, P)>, n: nat, i: nat)
    requires i < n
    ensures WithIndex(VisitOrder(enter, n), i) == Reverse(WithIndex(enter, i))
    decreases n
  {
    var m := n - 1;
    WithIndexAt(enter, m);
    OnTop(VisitOrder(enter, m), Reverse(WithIndex(enter, m)), m, i);
    if i < m { VisitOrderOfOne(enter, m, i); }
  }

  lemma OnTop<P>(below: seq<(nat, P)>, top: seq<(nat, P)>, m: nat, i: nat)
    requires i <= m && InRange(below, m) && AllAt(top, m)
    ensures WithIndex(below + top, i) == if i == m then top else WithIndex(below, i)
  {
    WithIndexConcat(below, top, i);
    if i == m {
      WithIndexNone(below, i);
      WithIndexAll(top, i);
    } else {
      WithIndexNone(top, i);
    }
  }

  lemma {:induction false} WithIndexConcat<P>(a: seq<(nat, P)>, b: seq<(nat, P)>, i: nat)
    ensures WithIndex(a + b, i) == WithIndex(a, i) + WithIndex(b, i)
  {
    if a == [] {
      assert a + b == b;
    } else {
      WithIndexConcat(a[1..], b, i);
      WithIndexCons(a[0], a[1..], i);
      WithIndexCons(a[0], a[1..] + b, i);
      HeadFirst(a, b);
      Regroup(if a[0].0 == i then [a[0]] else [], WithIndex(a[1..], i), WithIndex(b, i));
    }
  }

  lemma HeadFirst<T>(a: seq<T>, b: seq<T>)
    requires a != []
    ensures a == [a[0]] + a[1..] && a + b == [a[0]] + (a[1..] + b)
  {
  }

  lemma {:induction false} WithIndexNone<P>(a: seq<(nat, P)>, i: nat)
    requires forall k :: 0 <= k < |a| ==> a[k].0 != i
    ensures WithIndex(a, i) == []
  {
    if a != [] { WithIndexNone(a[1..], i); }
  }

  lemma {:induction false} WithIndexAll<P>(a: seq<(nat, P)>, i: nat)
    requires forall k :: 0 <= k < |a| ==> a[k].0 == i
    ensures WithIndex(a, i) == a
  {
    if a != [] {
      WithIndexAll(a[1..], i);
      assert a == [a[0]] + a[1..];
    }
  }
}
