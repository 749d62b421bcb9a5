/**
 Depth-first directory discovery (crates/dynrunner-discovery/src/lib.rs).

 The file system is a finite graph of real directories.  `links` names the real
 directory each entry resolves to, so symlinks may share a target or form
 cycles, and a path may be followed round a cycle for ever.  The visitor is an
 arbitrary function that threads its own state, as `&mut self` does.
 */
module Discovery {
  import opened Wrappers

  type Path = seq<string>

  datatype DirEntry = File(name: string, size: nat) | Dir(name: string)

  datatype DirListing = DirListing(
    entries: seq<DirEntry>, seen: nat, symlinksFollowed: nat, brokenSymlinksSkipped: nat)

  datatype Directory<D> = Directory(listing: DirListing, links: map<string, D>)

  datatype FileSystem<D> = FileSystem(root: Path, rootDir: Option<D>, dirs: map<D, Directory<D>>)

  /** The real directory a path resolves to, if every step of it resolves. */
  function Canonicalize<D>(fs: FileSystem<D>, abs: Path): Option<D>
    decreases |abs|
  {
    if abs == fs.root then fs.rootDir
    else if |abs| <= |fs.root| then None
    else match Canonicalize(fs, abs[..|abs| - 1])
      case None => None
      case Some(d) => Follow(fs, d, abs[|abs| - 1])
  }

  function Follow<D>(fs: FileSystem<D>, d: D, name: string): Option<D> {
    if d in fs.dirs && name in fs.dirs[d].links then Some(fs.dirs[d].links[name]) else None
  }

  /** `None` stands for the I/O error of a missing or unreadable directory. */
  function ListDir<D>(fs: FileSystem<D>, abs: Path): Option<DirListing> {
    match Canonicalize(fs, abs)
    case Some(d) => if d in fs.dirs then Some(fs.dirs[d].listing) else None
    case None => None
  }

  datatype FolderInfo = FolderInfo(name: string)
  datatype FileInfo = FileInfo(name: string, size: nat)

  datatype VisitOutcome<P> = VisitOutcome(enter: seq<(nat, P)>, mark: seq<(nat, P)>)

  type Visitor<!S, !P, !E> =
    (S, Option<P>, seq<FolderInfo>, seq<FileInfo>) -> (S, Result<VisitOutcome<P>, E>)

  datatype Marked<P> = Marked(relativePath: Path, size: nat, payload: P)

  datatype WalkStats = WalkStats(
    entriesSeen: nat, filesYielded: nat, dirsDescended: nat,
    symlinksFollowed: nat, brokenSymlinksSkipped: nat, symlinkCyclesSkipped: nat)

  datatype IndexKind = FileIndex | FolderIndex

  datatype WalkError<E> =
    | Io(path: Path)
    | IndexOutOfBounds(kind: IndexKind, index: nat, len: nat, path: Path)
    | VisitorFailed(error: E)

  datatype Frame<P> = Frame(abs: Path, rel: Path, payload: Option<P>)

  /** What the walk has accumulated.  `trace` (the real directories listed, in
      order) and `accepted` (the enters pushed so far) are kept for the theorems
      only; the source carries the other four. */
  datatype WalkState<S, D, P> = WalkState(
    visited: set<D>, marked: seq<Marked<P>>, stats: WalkStats, visitor: S,
    trace: seq<D>, accepted: nat)

  datatype Walked<S, D, P, E> =
    | Finished(st: WalkState<S, D, P>)
    | Aborted(error: WalkError<E>, visitor: S)

  // ---------------------------------------------------------------------
  // One directory
  // ---------------------------------------------------------------------

  function Subfolders(entries: seq<DirEntry>): seq<FolderInfo> {
    if entries == [] then []
    else (match entries[0]
          case Dir(name) => [FolderInfo(name)]
          case File(_, _) => []) + Subfolders(entries[1..])
  }

  function Files(entries: seq<DirEntry>): seq<FileInfo> {
    if entries == [] then []
    else (match entries[0]
          case Dir(_) => []
          case File(name, size) => [FileInfo(name, size)]) + Files(entries[1..])
  }

  /** The files picked by `mark`, or the first index that is out of range. */
  function MarkedFiles<P, E>(files: seq<FileInfo>, frame: Frame<P>, mark: seq<(nat, P)>)
    : Result<seq<Marked<P>>, WalkError<E>>
  {
    if mark == [] then Ok([])
    else if mark[0].0 >= |files| then Err(IndexOutOfBounds(FileIndex, mark[0].0, |files|, frame.abs))
    else
      var f := files[mark[0].0];
      match MarkedFiles<P, E>(files, frame, mark[1..])
      case Err(e) => Err(e)
      case Ok(rest) => Ok([Marked(frame.rel + [f.name], f.size, mark[0].1)] + rest)
  }

  /** The enters that name subfolder `i`, in the order the visitor gave them. */
  function WithIndex<P>(enter: seq<(nat, P)>, i: nat): seq<(nat, P)> {
    if enter == [] then []
    else (if enter[0].0 == i then [enter[0]] else []) + WithIndex(enter[1..], i)
  }

  ghost predicate InRange<P>(picks: seq<(nat, P)>, n: nat) {
    forall k :: 0 <= k < |picks| ==> picks[k].0 < n
  }

  ghost predicate AllAt<P>(picks: seq<(nat, P)>, i: nat) {
    forall k :: 0 <= k < |picks| ==> picks[k].0 == i
  }

  lemma {:induction false} WithIndexAt<P>(enter: seq<(nat, P)>, i: nat)
    ensures AllAt(WithIndex(enter, i), i)
  {
    if enter != [] { WithIndexAt(enter[1..], i); }
  }

  lemma InRangeAbove<P>(below: seq<(nat, P)>, top: seq<(nat, P)>, n: nat)
    requires n != 0 && InRange(below, n - 1) && AllAt(top, n - 1)
    ensures InRange(below + Reverse(top), n)
  {
  }

  /** Subfolders in ascending (alphabetical) order; a subfolder entered twice is
      visited with its last payload first. */
  function VisitOrder<P>(enter: seq<(nat, P)>, n: nat): (r: seq<(nat, P)>)
    ensures InRange(r, n)
  {
    if n == 0 then []
    else
      WithIndexAt(enter, n - 1);
      InRangeAbove(VisitOrder(enter, n - 1), WithIndex(enter, n - 1), n);
      VisitOrder(enter, n - 1) + Reverse(WithIndex(enter, n - 1))
  }

  /** The largest index entered. */
  function MaxIndex<P>(enter: seq<(nat, P)>): nat
    requires enter != []
  {
    if |enter| == 1 then enter[0].0
    else var m := MaxIndex(enter[1..]); if enter[0].0 >= m then enter[0].0 else m
  }

  function Child<P>(frame: Frame<P>, name: string, payload: P): Frame<P> {
    Frame(frame.abs + [name], frame.rel + [name], Some(payload))
  }

  function Children<P>(frame: Frame<P>, folders: seq<FolderInfo>, order: seq<(nat, P)>): (r: seq<Frame<P>>)
    requires InRange(order, |folders|)
    ensures |r| == |order|
  {
    seq(|order|, i requires 0 <= i < |order| =>
      Child(frame, folders[order[i].0].name, order[i].1))
  }

  datatype Step<S, D, P, E> =
    | Skipped(st: WalkState<S, D, P>)
    | Stopped(error: WalkError<E>, visitor: S)
    | Descended(st: WalkState<S, D, P>, children: seq<Frame<P>>)

  function CountListing(stats: WalkStats, listing: DirListing, isRoot: bool): WalkStats {
    stats.(entriesSeen := stats.entriesSeen + listing.seen,
           symlinksFollowed := stats.symlinksFollowed + listing.symlinksFollowed,
           brokenSymlinksSkipped := stats.brokenSymlinksSkipped + listing.brokenSymlinksSkipped,
           dirsDescended := stats.dirsDescended + if isRoot then 0 else 1)
  }

  /** Visiting one directory: skip it, stop the walk, or list it and hand back
      the children in the order they are to be visited. */
  function VisitDir<S, D, P, E>(
    fs: FileSystem<D>, visit: Visitor<S, P, E>, st: WalkState<S, D, P>, frame: Frame<P>): Step<S, D, P, E>
  {
    match Canonicalize(fs, frame.abs)
    case None => Stopped(Io(frame.abs), st.visitor)
    case Some(dir) =>
      if dir in st.visited then
        Skipped(st.(stats := st.stats.(symlinkCyclesSkipped := st.stats.symlinkCyclesSkipped + 1)))
      else if dir !in fs.dirs then Stopped(Io(frame.abs), st.visitor)
      else
        var listing := fs.dirs[dir].listing;
        var folders, files := Subfolders(listing.entries), Files(listing.entries);
        var (visitor, answer) := visit(st.visitor, frame.payload, folders, files);
        match answer
        case Err(e) => Stopped(VisitorFailed(e), visitor)
        case Ok(outcome) =>
          match MarkedFiles<P, E>(files, frame, outcome.mark)
          case Err(e) => Stopped(e, visitor)
          case Ok(marks) =>
            if outcome.enter != [] && MaxIndex(outcome.enter) >= |folders| then
              Stopped(IndexOutOfBounds(FolderIndex, MaxIndex(outcome.enter), |folders|, frame.abs), visitor)
            else
              var order := VisitOrder(outcome.enter, |folders|);
              var stats := CountListing(st.stats, listing, frame.rel == []);
              Descended(
                WalkState(st.visited + {dir}, st.marked + marks,
                          stats.(filesYielded := stats.filesYielded + |marks|), visitor,
                          st.trace + [dir], st.accepted + |order|),
                Children(frame, folders, order))
  }

  // ---------------------------------------------------------------------
  // The recursive reference: preorder, threading the visited set
  // ---------------------------------------------------------------------

  function Preorder<S, D, P, E>(
    fs: FileSystem<D>, visit: Visitor<S, P, E>, st: WalkState<S, D, P>, frame: Frame<P>)
    : (r: Walked<S, D, P, E>)
    ensures r.Finished? ==> st.visited <= r.st.visited
    decreases fs.dirs.Keys - st.visited, 0, 0
  {
    match VisitDir(fs, visit, st, frame)
    case Skipped(st') => Finished(st')
    case Stopped(e, v) => Aborted(e, v)
    case Descended(st', children) => PreorderAll(fs, visit, st', children)
  }

  function PreorderAll<S, D, P, E>(
    fs: FileSystem<D>, visit: Visitor<S, P, E>, st: WalkState<S, D, P>, frames: seq<Frame<P>>)
    : (r: Walked<S, D, P, E>)
    ensures r.Finished? ==> st.visited <= r.st.visited
    decreases fs.dirs.Keys - st.visited, |frames|, 1
  {
    if frames == [] then Finished(st)
    else match Preorder(fs, visit, st, frames[0])
      case Aborted(e, v) => Aborted(e, v)
      case Finished(st') => PreorderAll(fs, visit, st', frames[1..])
  }

  // ---------------------------------------------------------------------
  // The worklist machine the loop runs
  // ---------------------------------------------------------------------

  function Drain<S, D, P, E>(
    fs: FileSystem<D>, visit: Visitor<S, P, E>, st: WalkState<S, D, P>, pending: seq<Frame<P>>)
    : Walked<S, D, P, E>
    decreases fs.dirs.Keys - st.visited, |pending|
  {
    if pending == [] then Finished(st)
    else match VisitDir(fs, visit, st, pending[0])
      case Skipped(st') => Drain(fs, visit, st', pending[1..])
      case Stopped(e, v) => Aborted(e, v)
      case Descended(st', children) => Drain(fs, visit, st', children + pending[1..])
  }

  /** Draining `a` ahead of `b` is the recursive traversal of `a`, then `b`. */
  lemma {:induction false} DrainSplits<S, D, P, E>(
    fs: FileSystem<D>, visit: Visitor<S, P, E>, st: WalkState<S, D, P>, a: seq<Frame<P>>, b: seq<Frame<P>>)
    ensures Drain(fs, visit, st, a + b) ==
            match PreorderAll(fs, visit, st, a)
            case Finished(st') => Drain(fs, visit, st', b)
            case Aborted(e, v) => Aborted(e, v)
    decreases fs.dirs.Keys - st.visited, |a|
  {
    if a == [] {
      assert a + b == b;
    } else {
      assert (a + b)[1..] == a[1..] + b;
      match VisitDir(fs, visit, st, a[0]) {
        case Skipped(st') => DrainSplits(fs, visit, st', a[1..], b);
        case Stopped(_, _) =>
        case Descended(st', children) =>
          assert children + (a + b)[1..] == children + (a[1..] + b);
          DrainSplits(fs, visit, st', children, a[1..] + b);
          match PreorderAll(fs, visit, st', children) {
            case Aborted(_, _) =>
            case Finished(st'') => DrainSplits(fs, visit, st'', a[1..], b);
          }
      }
    }
  }

  function RootFrame<D, P>(fs: FileSystem<D>): Frame<P> {
    Frame(fs.root, [], None)
  }

  function Start<S, D, P>(visitor: S): WalkState<S, D, P> {
    WalkState({}, [], WalkStats(0, 0, 0, 0, 0, 0), visitor, [], 0)
  }

  /** The recursive preorder walk from the root. */
  function WalkSpec<S, D, P, E>(fs: FileSystem<D>, visit: Visitor<S, P, E>, visitor: S): Walked<S, D, P, E> {
    Preorder(fs, visit, Start(visitor), RootFrame(fs))
  }

  lemma DrainIsWalkSpec<S, D, P, E>(fs: FileSystem<D>, visit: Visitor<S, P, E>, visitor: S)
    ensures Drain(fs, visit, Start(visitor), [RootFrame(fs)]) == WalkSpec(fs, visit, visitor)
  {
    var st: WalkState<S, D, P> := Start(visitor);
    var root: seq<Frame<P>> := [RootFrame(fs)];
    DrainSplits(fs, visit, st, root, []);
    assert root + [] == root;
    assert root[1..] == [];
  }

  // ---------------------------------------------------------------------
  // The loop
  // ---------------------------------------------------------------------

  function InsertDescending<P>(x: (nat, P), s: seq<(nat, P)>): seq<(nat, P)> {
    if s == [] || s[0].0 <= x.0 then [x] + s else [s[0]] + InsertDescending(x, s[1..])
  }

  /** The stable sort by descending index. */
  function SortDescending<P>(enter: seq<(nat, P)>): seq<(nat, P)> {
    if enter == [] then [] else InsertDescending(enter[0], SortDescending(enter[1..]))
  }

  function DescendingBuckets<P>(enter: seq<(nat, P)>, n: nat): seq<(nat, P)> {
    if n == 0 then [] else WithIndex(enter, n - 1) + DescendingBuckets(enter, n - 1)
  }

  lemma {:induction false} InsertPasses<P>(x: (nat, P), a: seq<(nat, P)>, b: seq<(nat, P)>)
    requires forall k :: 0 <= k < |a| ==> x.0 < a[k].0
    ensures InsertDescending(x, a + b) == a + InsertDescending(x, b)
  {
    if a == [] {
      assert a + b == b;
    } else {
      InsertPasses(x, a[1..], b);
      assert (a + b)[1..] == a[1..] + b;
    }
  }

  lemma {:induction false} BucketsBelow<P>(enter: seq<(nat, P)>, n: nat)
    ensures InRange(DescendingBuckets(enter, n), n)
  {
    if n != 0 {
      BucketsBelow(enter, n - 1);
      WithIndexAt(enter, n - 1);
    }
  }

  lemma WithIndexCons<P>(x: (nat, P), rest: seq<(nat, P)>, i: nat)
    ensures WithIndex([x] + rest, i) == if x.0 == i then [x] + WithIndex(rest, i) else WithIndex(rest, i)
  {
    assert ([x] + rest)[1..] == rest;
  }

  lemma BucketsStep<P>(enter: seq<(nat, P)>, n: nat)
    requires n != 0
    ensures DescendingBuckets(enter, n) == WithIndex(enter, n - 1) + DescendingBuckets(enter, n - 1)
  {
  }

  lemma SameBuckets<P>(a: seq<(nat, P)>, b: seq<(nat, P)>, n: nat)
    requires n != 0
    requires WithIndex(a, n - 1) == WithIndex(b, n - 1) && DescendingBuckets(a, n - 1) == DescendingBuckets(b, n - 1)
    ensures DescendingBuckets(a, n) == DescendingBuckets(b, n)
  {
  }

  lemma {:induction false} BucketsIgnore<P>(x: (nat, P), rest: seq<(nat, P)>, n: nat)
    requires n <= x.0
    ensures DescendingBuckets([x] + rest, n) == DescendingBuckets(rest, n)
    decreases n
  {
    if n != 0 {
      BucketsIgnore(x, rest, n - 1);
      WithIndexCons(x, rest, n - 1);
      SameBuckets([x] + rest, rest, n);
    }
  }

  lemma InsertIntoTopBucket<P>(x: (nat, P), rest: seq<(nat, P)>, n: nat)
    requires n != 0 && x.0 == n - 1
    ensures InsertDescending(x, DescendingBuckets(rest, n)) == DescendingBuckets([x] + rest, n)
  {
    WithIndexCons(x, rest, n - 1);
    BucketsStep(rest, n);
    BucketsStep([x] + rest, n);
    BucketsIgnore(x, rest, n - 1);
    BucketsBelow(rest, n);
    InsertOnTop(x, WithIndex(rest, n - 1), DescendingBuckets(rest, n - 1));
  }

  lemma InsertUnderTopBucket<P>(x: (nat, P), rest: seq<(nat, P)>, n: nat, below: seq<(nat, P)>)
    requires n != 0 && x.0 < n - 1 && InsertDescending(x, DescendingBuckets(rest, n - 1)) == below
    ensures InsertDescending(x, DescendingBuckets(rest, n)) == WithIndex(rest, n - 1) + below
  {
    BucketsStep(rest, n);
    WithIndexAt(rest, n - 1);
    InsertBelow(x, WithIndex(rest, n - 1), DescendingBuckets(rest, n - 1), below);
  }

  lemma TopBucketStays<P>(x: (nat, P), rest: seq<(nat, P)>, n: nat)
    requires n != 0 && x.0 < n - 1
    ensures DescendingBuckets([x] + rest, n) == WithIndex(rest, n - 1) + DescendingBuckets([x] + rest, n - 1)
  {
    BucketsStep([x] + rest, n);
    WithIndexCons(x, rest, n - 1);
  }

  lemma {:induction false} InsertIntoBuckets<P>(x: (nat, P), rest: seq<(nat, P)>, n: nat)
    requires x.0 < n
    ensures InsertDescending(x, DescendingBuckets(rest, n)) == DescendingBuckets([x] + rest, n)
    decreases n
  {
    if x.0 == n - 1 {
      InsertIntoTopBucket(x, rest, n);
    } else {
      InsertIntoBuckets(x, rest, n - 1);
      InsertUnderTopBucket(x, rest, n, DescendingBuckets([x] + rest, n - 1));
      TopBucketStays(x, rest, n);
    }
  }

  lemma InsertBelow<P>(x: (nat, P), top: seq<(nat, P)>, below: seq<(nat, P)>, below': seq<(nat, P)>)
    requires forall k :: 0 <= k < |top| ==> x.0 < top[k].0
    requires InsertDescending(x, below) == below'
    ensures InsertDescending(x, top + below) == top + below'
  {
    InsertPasses(x, top, below);
  }

  lemma InsertOnTop<P>(x: (nat, P), top: seq<(nat, P)>, below: seq<(nat, P)>)
    requires forall k :: 0 <= k < |top + below| ==> (top + below)[k].0 <= x.0
    ensures InsertDescending(x, top + below) == ([x] + top) + below
  {
    InsertInFront(x, top + below);
    assert [x] + (top + below) == ([x] + top) + below;
  }

  lemma InsertInFront<P>(x: (nat, P), s: seq<(nat, P)>)
    requires s != [] ==> s[0].0 <= x.0
    ensures InsertDescending(x, s) == [x] + s
  {
  }

  lemma {:induction false} SortIsBuckets<P>(enter: seq<(nat, P)>, n: nat)
    requires InRange(enter, n)
    ensures SortDescending(enter) == DescendingBuckets(enter, n)
    decreases |enter|
  {
    if enter == [] {
      EmptyBuckets<P>(n);
    } else {
      SortIsBuckets(enter[1..], n);
      InsertIntoBuckets(enter[0], enter[1..], n);
      assert enter == [enter[0]] + enter[1..];
    }
  }

  lemma {:induction false} EmptyBuckets<P>(n: nat)
    ensures DescendingBuckets<P>([], n) == []
  {
    if n != 0 { EmptyBuckets<P>(n - 1); }
  }

  lemma {:induction false} ReverseBuckets<P>(enter: seq<(nat, P)>, n: nat)
    ensures Reverse(DescendingBuckets(enter, n)) == VisitOrder(enter, n)
  {
    if n != 0 {
      ReverseBuckets(enter, n - 1);
      ReverseConcat(WithIndex(enter, n - 1), DescendingBuckets(enter, n - 1));
    }
  }

  /** Popping what the stable descending sort pushed is the ascending visiting order. */
  lemma SortedPopsInVisitOrder<P>(enter: seq<(nat, P)>, n: nat)
    requires InRange(enter, n)
    ensures Reverse(SortDescending(enter)) == VisitOrder(enter, n)
  {
    SortIsBuckets(enter, n);
    ReverseBuckets(enter, n);
  }

  lemma {:induction false} InsertHead<P>(x: (nat, P), s: seq<(nat, P)>)
    requires forall i, j :: 0 <= i < j < |s| ==> s[j].0 <= s[i].0
    ensures var r := InsertDescending(x, s);
            && |r| == |s| + 1
            && (forall i, j :: 0 <= i < j < |r| ==> r[j].0 <= r[i].0)
            && r[0].0 == if s == [] || s[0].0 <= x.0 then x.0 else s[0].0
  {
    if s != [] && s[0].0 > x.0 {
      InsertHead(x, s[1..]);
    }
  }

  lemma {:induction false} SortedFacts<P>(enter: seq<(nat, P)>)
    ensures var r := SortDescending(enter);
            && |r| == |enter|
            && (forall i, j :: 0 <= i < j < |r| ==> r[j].0 <= r[i].0)
            && (enter != [] ==> r[0].0 == MaxIndex(enter))
  {
    if enter != [] {
      SortedFacts(enter[1..]);
      InsertHead(enter[0], SortDescending(enter[1..]));
    }
  }

  lemma {:induction false} MaxIndexBounds<P>(enter: seq<(nat, P)>)
    requires enter != []
    ensures forall k :: 0 <= k < |enter| ==> enter[k].0 <= MaxIndex(enter)
  {
    if |enter| > 1 {
      MaxIndexBounds(enter[1..]);
      assert forall k :: 0 < k < |enter| ==> enter[k] == enter[1..][k - 1];
    }
  }

  ghost predicate Splitting(entries: seq<DirEntry>, i: nat, folders: seq<FolderInfo>, files: seq<FileInfo>) {
    && i <= |entries|
    && Subfolders(entries) == folders + Subfolders(entries[i..])
    && Files(entries) == files + Files(entries[i..])
  }

  lemma SplittingStep(entries: seq<DirEntry>, i: nat, folders: seq<FolderInfo>, files: seq<FileInfo>)
    requires i < |entries| && Splitting(entries, i, folders, files)
    ensures match entries[i]
            case Dir(name) => Splitting(entries, i + 1, folders + [FolderInfo(name)], files)
            case File(name, size) => Splitting(entries, i + 1, folders, files + [FileInfo(name, size)])
  {
    assert entries[i..][1..] == entries[i + 1..];
  }

  method SplitListing(entries: seq<DirEntry>) returns (folders: seq<FolderInfo>, files: seq<FileInfo>)
    ensures folders == Subfolders(entries)
    ensures files == Files(entries)
  {
    folders, files := [], [];
    for i := 0 to |entries|
      invariant Splitting(entries, i, folders, files)
    {
      SplittingStep(entries, i, folders, files);
      match entries[i]
      case Dir(name) => folders := folders + [FolderInfo(name)];
      case File(name, size) => files := files + [FileInfo(name, size)];
    }
  }

  method MarkFiles<P, E>(files: seq<FileInfo>, frame: Frame<P>, mark: seq<(nat, P)>, marked: seq<Marked<P>>)
    returns (r: Result<seq<Marked<P>>, WalkError<E>>)
    ensures r == match MarkedFiles<P, E>(files, frame, mark)
                 case Ok(new_) => Ok(marked + new_)
                 case Err(e) => Err(e)
  {
    var out := marked;
    for i := 0 to |mark|
      invariant match MarkedFiles<P, E>(files, frame, mark[i..])
                case Ok(rest) => MarkedFiles<P, E>(files, frame, mark).Ok?
                                 && marked + MarkedFiles<P, E>(files, frame, mark).value == out + rest
                case Err(e) => MarkedFiles<P, E>(files, frame, mark) == Err(e)
    {
      assert mark[i..][1..] == mark[i + 1..];
      var (idx, payload) := mark[i];
      if idx >= |files| {
        return Err(IndexOutOfBounds(FileIndex, idx, |files|, frame.abs));
      }
      out := out + [Marked(frame.rel + [files[idx].name], files[idx].size, payload)];
    }
    assert mark[|mark|..] == [] && out + [] == out;
    return Ok(out);
  }

  lemma PushedPops<P>(
    frame: Frame<P>, folders: seq<FolderInfo>, sorted: seq<(nat, P)>, stack: seq<Frame<P>>, out: seq<Frame<P>>)
    requires InRange(sorted, |folders|)
    requires out == stack + Children(frame, folders, sorted)
    ensures InRange(Reverse(sorted), |folders|)
    ensures Reverse(out) == Children(frame, folders, Reverse(sorted)) + Reverse(stack)
  {
    ReverseConcat(stack, Children(frame, folders, sorted));
    assert Reverse(Children(frame, folders, sorted)) == Children(frame, folders, Reverse(sorted));
  }

  method PushEnters<P, E>(
    frame: Frame<P>, folders: seq<FolderInfo>, enter: seq<(nat, P)>, stack: seq<Frame<P>>)
    returns (r: Result<seq<Frame<P>>, WalkError<E>>)
    ensures enter != [] && MaxIndex(enter) >= |folders|
            ==> r == Err(IndexOutOfBounds(FolderIndex, MaxIndex(enter), |folders|, frame.abs))
    ensures !(enter != [] && MaxIndex(enter) >= |folders|)
            ==> r.Ok? && Reverse(r.value) == Children(frame, folders, VisitOrder(enter, |folders|)) + Reverse(stack)
  {
    var sorted := SortDescending(enter);
    SortedFacts(enter);
    var out := stack;
    for i := 0 to |sorted|
      invariant InRange(sorted[..i], |folders|)
      invariant out == stack + Children(frame, folders, sorted[..i])
    {
      var (idx, payload) := sorted[i];
      if idx >= |folders| {
        assert i == 0;
        return Err(IndexOutOfBounds(FolderIndex, idx, |folders|, frame.abs));
      }
      assert Children(frame, folders, sorted[..i + 1])
          == Children(frame, folders, sorted[..i]) + [Child(frame, folders[idx].name, payload)];
      out := out + [Child(frame, folders[idx].name, payload)];
    }
    assert sorted[..|sorted|] == sorted;
    if enter != [] { MaxIndexBounds(enter); }
    SortedPopsInVisitOrder(enter, |folders|);
    PushedPops(frame, folders, sorted, stack, out);
    return Ok(out);
  }

  /** The new stack pops the step's children first, then what was on it. */
  ghost predicate Refines<S, D, P, E>(
    r: Result<(WalkState<S, D, P>, seq<Frame<P>>), (WalkError<E>, S)>, step: Step<S, D, P, E>, stack: seq<Frame<P>>)
  {
    (step.Stopped? ==> r == Err((step.error, step.visitor)))
    && (step.Skipped? ==> r == Ok((step.st, stack)))
    && (step.Descended? ==> r.Ok? && r.value.0 == step.st && Reverse(r.value.1) == step.children + Reverse(stack))
  }

  /** The loop body past the cycle guard: list `dir`, ask the visitor, record its
      marks and push its enters. */
  method Descend<S, D(==), P, E>(
    fs: FileSystem<D>, visit: Visitor<S, P, E>, st: WalkState<S, D, P>, frame: Frame<P>, dir: D,
    stack: seq<Frame<P>>)
    returns (r: Result<(WalkState<S, D, P>, seq<Frame<P>>), (WalkError<E>, S)>)
    requires Canonicalize(fs, frame.abs) == Some(dir) && dir !in st.visited
    ensures Refines(r, VisitDir(fs, visit, st, frame), stack)
  {
    var found := ListDir(fs, frame.abs);
    if found.None? {
      return Err((Io(frame.abs), st.visitor));
    }
    var listing := found.value;
    var stats := CountListing(st.stats, listing, frame.rel == []);
    var folders, files := SplitListing(listing.entries);
    var (visitor, answer) := visit(st.visitor, frame.payload, folders, files);
    if answer.Err? {
      return Err((VisitorFailed(answer.error), visitor));
    }
    var marked := MarkFiles<P, E>(files, frame, answer.value.mark, st.marked);
    if marked.Err? {
      return Err((marked.error, visitor));
    }
    stats := stats.(filesYielded := stats.filesYielded + (|marked.value| - |st.marked|));
    var pushed := PushEnters<P, E>(frame, folders, answer.value.enter, stack);
    if pushed.Err? {
      return Err((pushed.error, visitor));
    }
    assert |Reverse(pushed.value)| == |VisitOrder(answer.value.enter, |folders|)| + |stack|;
    return Ok((WalkState(st.visited + {dir}, marked.value, stats, visitor, st.trace + [dir],
                         st.accepted + (|pushed.value| - |stack|)),
               pushed.value));
  }

  /** One frame off the top of the stack is one step of the worklist machine. */
  lemma DrainTop<S, D, P, E>(
    fs: FileSystem<D>, visit: Visitor<S, P, E>, st: WalkState<S, D, P>, rest: seq<Frame<P>>, frame: Frame<P>)
    ensures var (all, step) := (Drain(fs, visit, st, Reverse(rest + [frame])), VisitDir(fs, visit, st, frame));
            (step.Stopped? ==> all == Aborted(step.error, step.visitor))
            && (step.Skipped? ==>
                  all == Drain(fs, visit, step.st, Reverse(rest)) && step.st.visited == st.visited)
            && (step.Descended? ==>
                  all == Drain(fs, visit, step.st, step.children + Reverse(rest))
                  && fs.dirs.Keys - step.st.visited < fs.dirs.Keys - st.visited)
  {
    assert (rest + [frame])[..|rest|] == rest;
    assert Reverse(rest + [frame]) == [frame] + Reverse(rest);
    assert ([frame] + Reverse(rest))[1..] == Reverse(rest);
    var step := VisitDir(fs, visit, st, frame);
    if step.Descended? {
      var d := Canonicalize(fs, frame.abs).value;
      assert d in fs.dirs.Keys - st.visited && d !in fs.dirs.Keys - step.st.visited;
    }
  }

  /** What remains of the walk is the same after the step as before it. */
  ghost predicate Continues<S, D, P, E>(
    fs: FileSystem<D>, visit: Visitor<S, P, E>, whole: Walked<S, D, P, E>, st: WalkState<S, D, P>, stack: nat,
    r: Result<(WalkState<S, D, P>, seq<Frame<P>>), (WalkError<E>, S)>)
  {
    match r
    case Err((e, v)) => whole == Aborted(e, v)
    case Ok((st', stack')) =>
      whole == Drain(fs, visit, st', Reverse(stack'))
      && (fs.dirs.Keys - st'.visited < fs.dirs.Keys - st.visited
          || (st'.visited == st.visited && |stack'| == stack))
  }

  /** The loop body: one frame, popped from a stack that `stack` is left of. */
  method Visit<S, D(==), P, E>(
    fs: FileSystem<D>, visit: Visitor<S, P, E>, st: WalkState<S, D, P>, frame: Frame<P>, stack: seq<Frame<P>>)
    returns (r: Result<(WalkState<S, D, P>, seq<Frame<P>>), (WalkError<E>, S)>)
    ensures Continues(fs, visit, Drain(fs, visit, st, Reverse(stack + [frame])), st, |stack|, r)
  {
    DrainTop(fs, visit, st, stack, frame);
    var found := Canonicalize(fs, frame.abs);
    if found.None? {
      return Err((Io(frame.abs), st.visitor));
    }
    if found.value in st.visited {
      var st' := st.(stats := st.stats.(symlinkCyclesSkipped := st.stats.symlinkCyclesSkipped + 1));
      return Ok((st', stack));
    }
    r := Descend(fs, visit, st, frame, found.value, stack);
  }

  /** The stack-driven walk computes exactly the recursive preorder walk: marked
      files, statistics, visitor state (hence the order of visitor calls) and errors. */
  method Walk<S, D(==), P, E>(fs: FileSystem<D>, visit: Visitor<S, P, E>, visitor: S)
    returns (r: Walked<S, D, P, E>)
    ensures r == WalkSpec(fs, visit, visitor)
  {
    var st: WalkState<S, D, P> := Start(visitor);
    var stack: seq<Frame<P>> := [RootFrame(fs)];
    ghost var whole := Drain(fs, visit, st, Reverse(stack));
    assert whole == WalkSpec(fs, visit, visitor) by {
      assert Reverse(stack) == stack;
      DrainIsWalkSpec(fs, visit, visitor);
    }
    while stack != []
      invariant whole == Drain(fs, visit, st, Reverse(stack))
      decreases fs.dirs.Keys - st.visited, |stack|
    {
      var frame := stack[|stack| - 1];
      assert stack == stack[..|stack| - 1] + [frame];
      stack := stack[..|stack| - 1];
      var next := Visit(fs, visit, st, frame, stack);
      if next.Err? {
        return Aborted(next.error.0, next.error.1);
      }
      st, stack := next.value.0, next.value.1;
    }
    return Finished(st);
  }
}
