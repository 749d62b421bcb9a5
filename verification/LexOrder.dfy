/** Lexicographic order on sequences of numbers: what `derive(Ord)` gives a struct
    of its fields, and what comparing two strings byte by byte gives. */
module LexOrder {
  predicate Less(a: seq<nat>, b: seq<nat>) {
    if b == [] then false
    else if a == [] then true
    else a[0] < b[0] || (a[0] == b[0] && Less(a[1..], b[1..]))
  }

  lemma {:induction false} Irreflexive(a: seq<nat>)
    ensures !Less(a, a)
  {
    if a != [] { Irreflexive(a[1..]); }
  }

  lemma {:induction false} Transitive(a: seq<nat>, b: seq<nat>, c: seq<nat>)
    requires Less(a, b) && Less(b, c)
    ensures Less(a, c)
  {
    if a != [] && a[0] == b[0] == c[0] { Transitive(a[1..], b[1..], c[1..]); }
  }

  lemma {:induction false} Total(a: seq<nat>, b: seq<nat>)
    ensures Less(a, b) || a == b || Less(b, a)
  {
    if a != [] && b != [] && a[0] == b[0] {
      Total(a[1..], b[1..]);
      assert a == [a[0]] + a[1..] && b == [b[0]] + b[1..];
    }
  }

  lemma Asymmetric(a: seq<nat>, b: seq<nat>)
    ensures !(Less(a, b) && Less(b, a))
  {
  }

  /** The first difference decides. */
  lemma {:induction false} FirstDifference(a: seq<nat>, b: seq<nat>, k: nat)
    requires k < |a| && k < |b| && a[..k] == b[..k] && a[k] < b[k]
    ensures Less(a, b)
    decreases k
  {
    if k > 0 {
      assert a[0] == a[..k][0] == b[0];
      assert a[1..][..k - 1] == a[..k][1..] && b[1..][..k - 1] == b[..k][1..];
      FirstDifference(a[1..], b[1..], k - 1);
    }
  }

  /** From field `k` on, that field decides or the ones behind it do. */
  lemma From(a: seq<nat>, b: seq<nat>, k: nat)
    requires k < |a| && k < |b|
    ensures Less(a[k..], b[k..]) <==> a[k] < b[k] || (a[k] == b[k] && Less(a[k + 1..], b[k + 1..]))
  {
    assert a[k..][1..] == a[k + 1..] && b[k..][1..] == b[k + 1..];
  }

  /** `a` does not exceed `b`. */
  predicate AtMost(a: seq<nat>, b: seq<nat>) {
    !Less(b, a)
  }

  lemma AtMostTransitive(a: seq<nat>, b: seq<nat>, c: seq<nat>)
    requires AtMost(a, b) && AtMost(b, c)
    ensures AtMost(a, c)
  {
    Total(a, b);
    Total(b, c);
    if Less(c, a) && Less(a, b) { Transitive(c, a, b); }
  }

  lemma AtMostThenLess(a: seq<nat>, b: seq<nat>, c: seq<nat>)
    requires AtMost(a, b) && Less(b, c)
    ensures Less(a, c)
  {
    Total(a, b);
    if Less(a, b) { Transitive(a, b, c); }
  }
}
