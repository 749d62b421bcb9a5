/** Values that may be missing and computations that may fail, shared by every module. */
module Wrappers {
  datatype Option<+T> = None | Some(value: T)

  datatype Result<+T, +E> = Ok(value: T) | Err(error: E)

  function Max(a: nat, b: nat): nat {
    if a < b then b else a
  }

  function Elements<T>(s: seq<T>): set<T> {
    set x | x in s
  }

  /** The reverse of a sequence: what popping a stack yields for what was pushed. */
  function Reverse<T>(s: seq<T>): (r: seq<T>)
    ensures |r| == |s|
    ensures forall i :: 0 <= i < |s| ==> r[i] == s[|s| - 1 - i]
  {
    if s == [] then [] else Reverse(s[1..]) + [s[0]]
  }

  lemma ReverseConcat<T>(a: seq<T>, b: seq<T>)
    ensures Reverse(a + b) == Reverse(b) + Reverse(a)
  {
  }

  /** What every step keeps holds in the end. */
  lemma {:induction false} Carry(p: nat -> bool, m: nat, n: nat)
    requires m <= n && p(m) && forall k: nat :: m <= k < n && p(k) ==> p(k + 1)
    ensures p(n)
    decreases n - m
  {
    if m < n { Carry(p, m + 1, n); }
  }

  /** The last time something held. */
  lemma {:induction false} LastTime(p: nat -> bool, m: nat, n: nat) returns (k: nat)
    requires m <= n && p(m) && !p(n)
    ensures m <= k < n && p(k) && forall j: nat :: k < j <= n ==> !p(j)
    decreases n - m
  {
    if p(n - 1) {
      k := n - 1;
    } else {
      k := LastTime(p, m, n - 1);
    }
  }
}
