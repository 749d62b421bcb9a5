/**
 What a read of the authority snapshot answers, told by the actions of the run alone:
 which publish it rests on, what that publish reported, and when the read began.
 */
module AuthorityAnswers {
  import opened Wrappers
  import opened AuthoritySnapshot

  /** The worlds a run passes through. */
  ghost predicate Passes(actions: seq<Action>, worlds: seq<World>) {
    |worlds| == |actions| + 1 && forall i :: 0 <= i < |actions| ==> Act(worlds[i], actions[i]) == Some(worlds[i + 1])
  }

  lemma {:induction false} RunPasses(w: World, actions: seq<Action>) returns (worlds: seq<World>)
    requires Run(w, actions).Some?
    ensures Passes(actions, worlds) && worlds[0] == w && worlds[|actions|] == Run(w, actions).value
    decreases |actions|
  {
    worlds := [w];
    if actions != [] {
      var rest := RunPasses(Act(w, actions[0]).value, actions[1..]);
      worlds := [w] + rest;
      forall i | 0 <= i < |actions| ensures Act(worlds[i], actions[i]) == Some(worlds[i + 1]) {
        if i > 0 { assert actions[i] == actions[1..][i - 1]; }
      }
    }
  }

  // ---------------------------------------------------------------------
  // What the actions say
  // ---------------------------------------------------------------------

  /** Action `j` is the last stamp of handle `p` before action `n`, and `snap` is what it
      reported, at the time it was made. */
  ghost predicate StampedAt(actions: seq<Action>, worlds: seq<World>, n: nat, p: nat, snap: Snapshot, j: nat)
    requires Passes(actions, worlds)
  {
    && j < n <= |actions| && actions[j].Stamp? && actions[j].p == p
    && snap == Snapshot(actions[j].peers, actions[j].pending, worlds[j].clock)
    && forall k :: j < k < n && actions[k].Stamp? ==> actions[k].p != p
  }

  ghost predicate Stamps(actions: seq<Action>, worlds: seq<World>, n: nat, p: nat, snap: Snapshot)
    requires Passes(actions, worlds)
  {
    exists j: nat :: StampedAt(actions, worlds, n, p, snap, j)
  }

  /** Action `k` is the last store before action `n`, of what its handle had stamped. */
  ghost predicate StoredAt(actions: seq<Action>, worlds: seq<World>, n: nat, snap: Snapshot, k: nat)
    requires Passes(actions, worlds)
  {
    && k < n <= |actions| && actions[k].Install? && Stamps(actions, worlds, k, actions[k].p, snap)
    && forall l :: k < l < n ==> !actions[l].Install?
  }

  /** What is installed before action `n`: what the last store put there, or the empty
      snapshot of the beginning. */
  ghost predicate InForce(actions: seq<Action>, worlds: seq<World>, n: nat, snap: Snapshot)
    requires Passes(actions, worlds)
  {
    || (exists k: nat :: StoredAt(actions, worlds, n, snap, k))
    || (snap == Snapshot(map[], 0, worlds[0].clock) && forall l :: 0 <= l < n && l < |actions| ==> !actions[l].Install?)
  }

  /** Action `c` began the read of `r` that action `n` finds, at that time. */
  ghost predicate BeganAt(actions: seq<Action>, worlds: seq<World>, n: nat, r: nat, start: Instant, c: nat)
    requires Passes(actions, worlds)
  {
    && c < n <= |actions| && actions[c] == ReadClock(r) && start == worlds[c].clock
    && forall k :: c < k < n ==> actions[k] != ReadClock(r)
  }

  ghost predicate Began(actions: seq<Action>, worlds: seq<World>, n: nat, r: nat, start: Instant)
    requires Passes(actions, worlds)
  {
    exists c: nat :: BeganAt(actions, worlds, n, r, start, c)
  }

  /** Action `d` checked the current read against what was installed then, and found it
      `stale` or not. */
  ghost predicate CheckedAt(
    actions: seq<Action>, worlds: seq<World>, n: nat, r: nat, start: Instant, stale: bool, d: nat)
    requires Passes(actions, worlds)
  {
    && d < n <= |actions| && actions[d] == CheckStale(r) && (forall k :: d < k < n ==> actions[k] != ReadClock(r))
    && exists snap :: InForce(actions, worlds, d, snap) && (stale <==> start - snap.lastUpdated > worlds[0].bound)
  }

  ghost predicate Checked(actions: seq<Action>, worlds: seq<World>, n: nat, r: nat, start: Instant, stale: bool)
    requires Passes(actions, worlds)
  {
    exists d: nat :: CheckedAt(actions, worlds, n, r, start, stale, d)
  }

  /** Action `i` of the current read loaded what was installed then. */
  ghost predicate LoadedAt(actions: seq<Action>, worlds: seq<World>, n: nat, r: nat, snap: Snapshot, i: nat)
    requires Passes(actions, worlds)
  {
    && i < n <= |actions| && actions[i] == LoadAnswer(r) && (forall k :: i < k < n ==> actions[k] != ReadClock(r))
    && InForce(actions, worlds, i, snap)
  }

  ghost predicate Loaded(actions: seq<Action>, worlds: seq<World>, n: nat, r: nat, snap: Snapshot)
    requires Passes(actions, worlds)
  {
    exists i: nat :: LoadedAt(actions, worlds, n, r, snap, i)
  }

  /** The current read was checked, and answers nothing exactly if it was found stale;
      otherwise it answers what its second load found. */
  ghost predicate Decided(
    actions: seq<Action>, worlds: seq<World>, n: nat, r: nat, start: Instant, source: Option<Snapshot>)
    requires Passes(actions, worlds)
  {
    && Checked(actions, worlds, n, r, start, source.None?)
    && (source.Some? ==> Loaded(actions, worlds, n, r, source.value))
  }

  // ---------------------------------------------------------------------
  // Every world is explained by the actions before it
  // ---------------------------------------------------------------------

  ghost predicate ReaderExplained(actions: seq<Action>, worlds: seq<World>, n: nat, r: nat)
    requires Passes(actions, worlds) && n <= |actions|
  {
    match ReaderAt(worlds[n], r)
    case Resting => true
    case Started(start) => Began(actions, worlds, n, r, start)
    case Fresh(start) => Began(actions, worlds, n, r, start) && Checked(actions, worlds, n, r, start, false)
    case Answered(start, source) =>
      Began(actions, worlds, n, r, start) && Decided(actions, worlds, n, r, start, source)
  }

  ghost predicate WorldExplained(actions: seq<Action>, worlds: seq<World>, n: nat)
    requires Passes(actions, worlds) && n <= |actions|
  {
    && worlds[n].bound == worlds[0].bound
    && InForce(actions, worlds, n, worlds[n].current)
    && (forall p :: PublisherAt(worlds[n], p).Stamped? ==> Stamps(actions, worlds, n, p, PublisherAt(worlds[n], p).snap))
    && forall r :: ReaderExplained(actions, worlds, n, r)
  }

  lemma StampsStay(actions: seq<Action>, worlds: seq<World>, n: nat, p: nat, snap: Snapshot)
    requires Passes(actions, worlds) && n < |actions| && Stamps(actions, worlds, n, p, snap)
    requires actions[n].Stamp? ==> actions[n].p != p
    ensures Stamps(actions, worlds, n + 1, p, snap)
  {
    var j: nat :| StampedAt(actions, worlds, n, p, snap, j);
    assert StampedAt(actions, worlds, n + 1, p, snap, j);
  }

  lemma InForceStays(actions: seq<Action>, worlds: seq<World>, n: nat, snap: Snapshot)
    requires Passes(actions, worlds) && n < |actions| && InForce(actions, worlds, n, snap) && !actions[n].Install?
    ensures InForce(actions, worlds, n + 1, snap)
  {
    if exists k: nat :: StoredAt(actions, worlds, n, snap, k) {
      var k: nat :| StoredAt(actions, worlds, n, snap, k);
      assert StoredAt(actions, worlds, n + 1, snap, k);
    }
  }

  lemma BeganStays(actions: seq<Action>, worlds: seq<World>, n: nat, r: nat, start: Instant)
    requires Passes(actions, worlds) && n < |actions| && Began(actions, worlds, n, r, start) && actions[n] != ReadClock(r)
    ensures Began(actions, worlds, n + 1, r, start)
  {
    var c: nat :| BeganAt(actions, worlds, n, r, start, c);
    assert BeganAt(actions, worlds, n + 1, r, start, c);
  }

  lemma CheckedStays(actions: seq<Action>, worlds: seq<World>, n: nat, r: nat, start: Instant, stale: bool)
    requires Passes(actions, worlds) && n < |actions| && Checked(actions, worlds, n, r, start, stale)
    requires actions[n] != ReadClock(r)
    ensures Checked(actions, worlds, n + 1, r, start, stale)
  {
    var d: nat :| CheckedAt(actions, worlds, n, r, start, stale, d);
    assert CheckedAt(actions, worlds, n + 1, r, start, stale, d);
  }

  lemma LoadedStays(actions: seq<Action>, worlds: seq<World>, n: nat, r: nat, snap: Snapshot)
    requires Passes(actions, worlds) && n < |actions| && Loaded(actions, worlds, n, r, snap)
    requires actions[n] != ReadClock(r)
    ensures Loaded(actions, worlds, n + 1, r, snap)
  {
    var i: nat :| LoadedAt(actions, worlds, n, r, snap, i);
    assert LoadedAt(actions, worlds, n + 1, r, snap, i);
  }

  lemma CurrentStep(actions: seq<Action>, worlds: seq<World>, n: nat)
    requires Passes(actions, worlds) && n < |actions| && WorldExplained(actions, worlds, n)
    ensures InForce(actions, worlds, n + 1, worlds[n + 1].current)
  {
    if actions[n].Install? {
      assert StoredAt(actions, worlds, n + 1, worlds[n + 1].current, n);
    } else {
      InForceStays(actions, worlds, n, worlds[n].current);
    }
  }

  lemma PublisherStep(actions: seq<Action>, worlds: seq<World>, n: nat, p: nat)
    requires Passes(actions, worlds) && n < |actions| && WorldExplained(actions, worlds, n)
    requires PublisherAt(worlds[n + 1], p).Stamped?
    ensures Stamps(actions, worlds, n + 1, p, PublisherAt(worlds[n + 1], p).snap)
  {
    var snap := PublisherAt(worlds[n + 1], p).snap;
    if actions[n].Stamp? && actions[n].p == p {
      assert StampedAt(actions, worlds, n + 1, p, snap, n);
    } else {
      assert PublisherAt(worlds[n], p) == Stamped(snap);
      StampsStay(actions, worlds, n, p, snap);
    }
  }

  lemma ReaderStep(actions: seq<Action>, worlds: seq<World>, n: nat, r: nat)
    requires Passes(actions, worlds) && n < |actions| && WorldExplained(actions, worlds, n)
    ensures ReaderExplained(actions, worlds, n + 1, r)
  {
    assert ReaderExplained(actions, worlds, n, r);
    var before, after := ReaderAt(worlds[n], r), ReaderAt(worlds[n + 1], r);
    if actions[n] == ReadClock(r) {
      assert BeganAt(actions, worlds, n + 1, r, worlds[n].clock, n);
    } else if !after.Resting? {
      BeganStays(actions, worlds, n, r, after.start);
      assert InForce(actions, worlds, n, worlds[n].current);
      if before.Started? && before != after {
        assert CheckedAt(actions, worlds, n + 1, r, after.start, after.Answered?, n);
      } else if !before.Started? {
        CheckedStays(actions, worlds, n, r, after.start, after.Answered? && after.source.None?);
        if before != after {
          assert LoadedAt(actions, worlds, n + 1, r, after.source.value, n);
        } else if after.Answered? && after.source.Some? {
          LoadedStays(actions, worlds, n, r, after.source.value);
        }
      }
    }
  }

  lemma {:induction false} EveryWorldExplained(actions: seq<Action>, worlds: seq<World>, n: nat)
    requires Passes(actions, worlds) && Initial(worlds[0]) && n <= |actions|
    ensures WorldExplained(actions, worlds, n)
  {
    if n > 0 {
      var m := n - 1;
      EveryWorldExplained(actions, worlds, m);
      CurrentStep(actions, worlds, m);
      forall p | PublisherAt(worlds[n], p).Stamped? ensures Stamps(actions, worlds, n, p, PublisherAt(worlds[n], p).snap) {
        PublisherStep(actions, worlds, m, p);
      }
      forall r ensures ReaderExplained(actions, worlds, n, r) {
        ReaderStep(actions, worlds, m, r);
      }
    }
  }

  // ---------------------------------------------------------------------
  // The answers
  // ---------------------------------------------------------------------

  /** `ids` lists, without repetition, exactly the peers reported alive. */
  ghost predicate ListsAlive(peers: map<string, PeerLifeState>, ids: seq<string>) {
    && (forall i, j :: 0 <= i < j < |ids| ==> ids[i] != ids[j])
    && forall id :: id in ids <==> id in peers && peers[id] == Alive
  }

  /** What the three questions are answered from one source. */
  ghost predicate AnswersFrom(source: Option<Snapshot>, id: string) {
    match source
    case None =>
      PeerLife(source, id) == Unknown && ActiveOrQueuedCount(source) == None && PendingResourcesCount(source) == None
    case Some(snap) =>
      && (PeerLife(source, id) == Alive <==> id in snap.peers && snap.peers[id] == Alive)
      && (PeerLife(source, id) == Gone <==> id in snap.peers && snap.peers[id] == Gone)
      && (forall ids :: ListsAlive(snap.peers, ids) ==> ActiveOrQueuedCount(source) == Some(|ids|))
      && PendingResourcesCount(source) == Some(snap.pendingResources)
  }

  lemma {:induction false} ListingCounts(s: set<string>, ids: seq<string>)
    requires (forall i, j :: 0 <= i < j < |ids| ==> ids[i] != ids[j]) && forall id :: id in ids <==> id in s
    ensures |s| == |ids|
    decreases |ids|
  {
    if ids == [] {
      assert s == {};
    } else {
      var rest, last := ids[..|ids| - 1], ids[|ids| - 1];
      forall id ensures id in rest <==> id in s - {last} {
        assert ids == rest + [last];
      }
      ListingCounts(s - {last}, rest);
    }
  }

  lemma AnswersFromSource(source: Option<Snapshot>, id: string)
    ensures AnswersFrom(source, id)
  {
    if source.Some? {
      var alive := set x | x in source.value.peers && source.value.peers[x] == Alive;
      forall ids | ListsAlive(source.value.peers, ids) ensures |alive| == |ids| {
        ListingCounts(alive, ids);
      }
    }
  }

  /** Every finished read of every run, with any number of handles: it began at its clock
      action; it answers nothing exactly if what was installed at its check was stale for
      that beginning, and otherwise what was installed at its second load: the report that
      the last store's handle had stamped, peer by peer and count by count. */
  lemma AnswersExplained(w: World, actions: seq<Action>, r: nat, id: string) returns (worlds: seq<World>)
    requires Initial(w) && Run(w, actions).Some? && ReaderAt(Run(w, actions).value, r).Answered?
    ensures Passes(actions, worlds) && worlds[0] == w && worlds[|actions|] == Run(w, actions).value
    ensures var Answered(start, source) := ReaderAt(worlds[|actions|], r);
            && Began(actions, worlds, |actions|, r, start) && Decided(actions, worlds, |actions|, r, start, source)
            && AnswersFrom(source, id)
  {
    worlds := RunPasses(w, actions);
    EveryWorldExplained(actions, worlds, |actions|);
    assert ReaderExplained(actions, worlds, |actions|, r);
    AnswersFromSource(ReaderAt(worlds[|actions|], r).source, id);
  }
}
