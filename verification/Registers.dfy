/**
 The replicated registers beside the task ledger: role capabilities and the
 current primary (crates/dynrunner-manager-distributed/src/cluster_state/merge.rs).
 */
module Registers {
  import opened Wrappers
  import LexOrder
  import opened TaskJoin

  // ---------------------------------------------------------------------
  // Capabilities
  // ---------------------------------------------------------------------

  datatype CapabilityEntry =
    | Advertised(isObserver: bool, canBePrimary: bool, capVersion: TaskVersion, memberGen: nat)
    | Departed(isObserver: bool, canBePrimary: bool, capVersion: TaskVersion, memberGen: nat)

  function FoldAdvertisement(local: CapabilityEntry, incoming: CapabilityEntry): (bool, bool, TaskVersion) {
    var newer := VersionLess(local.capVersion, incoming.capVersion);
    (local.isObserver || incoming.isObserver,
     if newer then incoming.canBePrimary else local.canBePrimary,
     if newer then incoming.capVersion else local.capVersion)
  }

  /** Generation first; within one a departure absorbs; otherwise fold. */
  function MergeCapability(local: CapabilityEntry, incoming: CapabilityEntry): CapabilityEntry {
    if local.memberGen < incoming.memberGen then incoming
    else if incoming.memberGen < local.memberGen then local
    else
      var (observer, primary, version) := FoldAdvertisement(local, incoming);
      match (local, incoming)
      case (Departed(_, _, _, _), Departed(_, _, _, _)) => Departed(observer, primary, version, local.memberGen)
      case (Departed(_, _, _, _), Advertised(_, _, _, _)) => local
      case (Advertised(_, _, _, _), Departed(_, _, _, _)) => incoming
      case (Advertised(_, _, _, _), Advertised(_, _, _, _)) => Advertised(observer, primary, version, local.memberGen)
  }

  /** Generation and departure decide the class; the version orders within it. */
  function Class(e: CapabilityEntry): nat {
    2 * e.memberGen + if e.Departed? then 1 else 0
  }

  function CapRank(e: CapabilityEntry): seq<nat> {
    [Class(e), e.capVersion.primaryEpoch, e.capVersion.seqNo]
  }

  lemma RankDetermines(a: CapabilityEntry, b: CapabilityEntry)
    ensures CapRank(a) == CapRank(b) <==> Class(a) == Class(b) && a.capVersion == b.capVersion
  {
  }

  /** The merge in terms of rank: the greater rank supplies the version and the
      primary bit, equal ranks keep the local bit, and observers accumulate
      within the winning class. */
  lemma MergeByRank(a: CapabilityEntry, b: CapabilityEntry)
    ensures var m, w := MergeCapability(a, b), if LexOrder.Less(CapRank(a), CapRank(b)) then b else a;
            && CapRank(m) == CapRank(w) && m.canBePrimary == w.canBePrimary
            && (m.isObserver <==> (Class(a) == Class(m) && a.isObserver) || (Class(b) == Class(m) && b.isObserver))
  {
  }

  lemma CapabilityIdempotent(a: CapabilityEntry)
    ensures MergeCapability(a, a) == a
  {
  }

  lemma SameEntry(a: CapabilityEntry, b: CapabilityEntry)
    requires CapRank(a) == CapRank(b) && a.canBePrimary == b.canBePrimary && a.isObserver == b.isObserver
    ensures a == b
  {
  }

  /** The merge is commutative except for one family: two entries of one rank
      that disagree on the primary bit. */
  lemma CapabilityCommutesExactly(a: CapabilityEntry, b: CapabilityEntry)
    ensures MergeCapability(a, b) == MergeCapability(b, a) <==>
            !(CapRank(a) == CapRank(b) && a.canBePrimary != b.canBePrimary)
  {
    MergeByRank(a, b);
    MergeByRank(b, a);
    LexOrder.Total(CapRank(a), CapRank(b));
    LexOrder.Asymmetric(CapRank(a), CapRank(b));
    LexOrder.Irreflexive(CapRank(a));
    RankDetermines(a, b);
    RankDetermines(MergeCapability(a, b), MergeCapability(b, a));
    if !(CapRank(a) == CapRank(b) && a.canBePrimary != b.canBePrimary) {
      SameEntry(MergeCapability(a, b), MergeCapability(b, a));
    }
  }

  /** The merge is associative without exception, so merging entries that are already
      merged is merging the deliveries behind them, in order. */
  lemma CapabilityAssociates(a: CapabilityEntry, b: CapabilityEntry, c: CapabilityEntry)
    ensures MergeCapability(MergeCapability(a, b), c) == MergeCapability(a, MergeCapability(b, c))
  {
    var ab, bc := MergeCapability(a, b), MergeCapability(b, c);
    var left, right := MergeCapability(ab, c), MergeCapability(a, bc);
    MergeByRank(a, b);
    MergeByRank(b, c);
    MergeByRank(ab, c);
    MergeByRank(a, bc);
    ThreeRanks(a, b, c);
    SameClass(left, right);
    SameEntry(left, right);
  }

  lemma ThreeRanks(a: CapabilityEntry, b: CapabilityEntry, c: CapabilityEntry)
    ensures LexOrder.Less(CapRank(a), CapRank(b)) && LexOrder.Less(CapRank(b), CapRank(c)) ==>
              LexOrder.Less(CapRank(a), CapRank(c))
    ensures !LexOrder.Less(CapRank(a), CapRank(b)) && !LexOrder.Less(CapRank(b), CapRank(c)) ==>
              !LexOrder.Less(CapRank(a), CapRank(c))
  {
    if LexOrder.Less(CapRank(a), CapRank(b)) && LexOrder.Less(CapRank(b), CapRank(c)) {
      LexOrder.Transitive(CapRank(a), CapRank(b), CapRank(c));
    }
    if !LexOrder.Less(CapRank(a), CapRank(b)) && !LexOrder.Less(CapRank(b), CapRank(c)) {
      LexOrder.AtMostTransitive(CapRank(c), CapRank(b), CapRank(a));
    }
  }

  /** Equal ranks have equal classes, and the class follows the rank. */
  lemma SameClass(a: CapabilityEntry, b: CapabilityEntry)
    ensures CapRank(a) == CapRank(b) ==> Class(a) == Class(b)
    ensures LexOrder.Less(CapRank(a), CapRank(b)) ==> Class(a) <= Class(b)
  {
    assert CapRank(a)[0] == Class(a) && CapRank(b)[0] == Class(b);
  }

  /** A replica's entry after a sequence of deliveries. */
  function DeliverCaps(u: seq<CapabilityEntry>): CapabilityEntry
    requires u != []
  {
    if |u| == 1 then u[0] else MergeCapability(DeliverCaps(u[..|u| - 1]), u[|u| - 1])
  }

  /** Merging two merged replicas delivers the one's entries after the other's. */
  lemma {:induction false} MergedReplicas(u: seq<CapabilityEntry>, v: seq<CapabilityEntry>)
    requires u != [] && v != []
    ensures MergeCapability(DeliverCaps(u), DeliverCaps(v)) == DeliverCaps(u + v)
    decreases |v|
  {
    assert (u + v)[..|u + v| - 1] == u + v[..|v| - 1];
    if |v| == 1 {
      assert u + v[..0] == u;
    } else {
      MergedReplicas(u, v[..|v| - 1]);
      CapabilityAssociates(DeliverCaps(u), DeliverCaps(v[..|v| - 1]), v[|v| - 1]);
    }
  }

  ghost predicate Leads(u: seq<CapabilityEntry>, x: CapabilityEntry) {
    x in u && forall y :: y in u ==> LexOrder.AtMost(CapRank(y), CapRank(x))
  }

  ghost predicate ClassObserves(u: seq<CapabilityEntry>, c: nat) {
    exists y :: y in u && Class(y) == c && y.isObserver
  }

  /** What an entry converges to, said without the order of delivery: the rank
      of the leaders, the bit of some leader, and whether anyone in the leading
      class was an observer. */
  lemma {:induction false} CapabilityOutcome(u: seq<CapabilityEntry>) returns (lead: CapabilityEntry)
    requires u != []
    ensures Leads(u, lead)
    ensures CapRank(DeliverCaps(u)) == CapRank(lead) && DeliverCaps(u).canBePrimary == lead.canBePrimary
    ensures DeliverCaps(u).isObserver <==> ClassObserves(u, Class(lead))
  {
    LexOrder.Irreflexive(CapRank(u[|u| - 1]));
    if |u| == 1 {
      lead := u[0];
    } else {
      var front, last := u[..|u| - 1], u[|u| - 1];
      assert u == front + [last];
      var held := DeliverCaps(front);
      var lead0 := CapabilityOutcome(front);
      MergeByRank(held, last);
      RankDetermines(held, lead0);
      lead := if LexOrder.Less(CapRank(held), CapRank(last)) then last else lead0;
      LexOrder.Asymmetric(CapRank(held), CapRank(last));
      forall y | y in u ensures LexOrder.AtMost(CapRank(y), CapRank(lead)) {
        if y in front && lead == last { LexOrder.AtMostTransitive(CapRank(y), CapRank(held), CapRank(last)); }
      }
      RankDetermines(MergeCapability(held, last), lead);
      ObserversFold(front, last, lead0, lead);
    }
  }

  lemma ObserversFold(
    front: seq<CapabilityEntry>, last: CapabilityEntry, lead0: CapabilityEntry, lead: CapabilityEntry)
    requires Leads(front, lead0) && Leads(front + [last], lead)
    ensures ClassObserves(front + [last], Class(lead)) <==>
            (Class(lead0) == Class(lead) && ClassObserves(front, Class(lead0)))
            || (Class(last) == Class(lead) && last.isObserver)
  {
  }

  ghost predicate SameCaps(u: seq<CapabilityEntry>, v: seq<CapabilityEntry>) {
    forall x :: x in u <==> x in v
  }

  lemma LeadersTie(u: seq<CapabilityEntry>, x: CapabilityEntry, y: CapabilityEntry)
    requires Leads(u, x) && Leads(u, y)
    ensures CapRank(x) == CapRank(y) && Class(x) == Class(y)
  {
    LexOrder.Total(CapRank(x), CapRank(y));
    RankDetermines(x, y);
  }

  lemma {:induction false} FirstLeaderStays(x: CapabilityEntry, rest: seq<CapabilityEntry>)
    requires Leads([x] + rest, x)
    ensures CapRank(DeliverCaps([x] + rest)) == CapRank(x) && DeliverCaps([x] + rest).canBePrimary == x.canBePrimary
  {
    if rest != [] {
      var all, front := [x] + rest, rest[..|rest| - 1];
      assert all[..|all| - 1] == [x] + front && all[|all| - 1] in all;
      assert forall y :: y in [x] + front ==> y in all;
      FirstLeaderStays(x, front);
      MergeByRank(DeliverCaps([x] + front), all[|all| - 1]);
    }
  }

  /** Replicas that received the same entries agree, for every order and
      repetition, exactly when the leading entries agree on the primary bit. */
  lemma CapabilitiesConvergeExactly(u: seq<CapabilityEntry>)
    requires u != []
    ensures (forall v, w :: v != [] && w != [] && SameCaps(u, v) && SameCaps(u, w) ==> DeliverCaps(v) == DeliverCaps(w))
            <==> (forall x, y :: Leads(u, x) && Leads(u, y) ==> x.canBePrimary == y.canBePrimary)
  {
    if forall x, y :: Leads(u, x) && Leads(u, y) ==> x.canBePrimary == y.canBePrimary {
      forall v, w | v != [] && w != [] && SameCaps(u, v) && SameCaps(u, w) ensures DeliverCaps(v) == DeliverCaps(w) {
        var x := CapabilityOutcome(v);
        var y := CapabilityOutcome(w);
        assert Leads(u, x) && Leads(u, y);
        LeadersTie(u, x, y);
        assert ClassObserves(v, Class(x)) <==> ClassObserves(w, Class(x));
        SameEntry(DeliverCaps(v), DeliverCaps(w));
      }
    }
    if forall v, w :: v != [] && w != [] && SameCaps(u, v) && SameCaps(u, w) ==> DeliverCaps(v) == DeliverCaps(w) {
      forall x, y | Leads(u, x) && Leads(u, y) ensures x.canBePrimary == y.canBePrimary {
        FirstLeaderStays(x, u);
        FirstLeaderStays(y, u);
        assert SameCaps(u, [x] + u) && SameCaps(u, [y] + u);
      }
    }
  }

  // ---------------------------------------------------------------------
  // The current primary
  // ---------------------------------------------------------------------

  /** Node ids compare byte by byte. */
  type NodeId = seq<nat>

  datatype Primary = Primary(epoch: nat, id: Option<NodeId>)

  predicate PrimaryRegisterAdopt(local: Primary, incEpoch: nat, incId: NodeId) {
    || incEpoch > local.epoch
    || (incEpoch == local.epoch && (local.id.None? || LexOrder.Less(incId, local.id.value)))
  }

  function DeliverPrimary(start: Primary, u: seq<(nat, NodeId)>): Primary {
    if u == [] then start
    else
      var held := DeliverPrimary(start, u[..|u| - 1]);
      var (epoch, id) := u[|u| - 1];
      if PrimaryRegisterAdopt(held, epoch, id) then Primary(epoch, Some(id)) else held
  }

  /** The highest epoch announced and, within it, the lowest node id: the leader
      an election among the announced nodes of that epoch would pick. */
  ghost predicate ElectedOf(u: seq<(nat, NodeId)>, p: Primary) {
    && p.id.Some? && (p.epoch, p.id.value) in u
    && forall a :: a in u ==> a.0 < p.epoch || (a.0 == p.epoch && LexOrder.AtMost(p.id.value, a.1))
  }

  /** From a fresh node every delivery order yields that leader ... */
  lemma {:induction false} RegisterHoldsTheElected(u: seq<(nat, NodeId)>)
    requires u != []
    ensures ElectedOf(u, DeliverPrimary(Primary(0, None), u))
  {
    var start := Primary(0, None);
    var front, last := u[..|u| - 1], u[|u| - 1];
    assert u == front + [last];
    LexOrder.Irreflexive(last.1);
    if front != [] {
      RegisterHoldsTheElected(front);
      var held := DeliverPrimary(start, front);
      var final := DeliverPrimary(start, u);
      forall a | a in u ensures a.0 < final.epoch || (a.0 == final.epoch && LexOrder.AtMost(final.id.value, a.1)) {
        if a in front && a.0 == final.epoch == held.epoch && final.id != held.id {
          LexOrder.Asymmetric(last.1, held.id.value);
          LexOrder.AtMostTransitive(last.1, held.id.value, a.1);
        }
      }
    }
  }

  /** ... so all replicas agree on it, whatever the order and repetition. */
  lemma PrimaryConverges(u: seq<(nat, NodeId)>, v: seq<(nat, NodeId)>)
    requires u != [] && forall a :: a in u <==> a in v
    ensures DeliverPrimary(Primary(0, None), u) == DeliverPrimary(Primary(0, None), v)
  {
    assert u[0] in v;
    RegisterHoldsTheElected(u);
    RegisterHoldsTheElected(v);
    var p, q := DeliverPrimary(Primary(0, None), u), DeliverPrimary(Primary(0, None), v);
    LexOrder.Total(p.id.value, q.id.value);
  }
}
