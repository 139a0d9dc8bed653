/**
  The backward-swap shuffle of `utils/shuffle.rs` (Sattolo's algorithm): for i from len-1 down
  to 1, draw j from [0, i) and swap positions i and j. The random generator is an oracle: draw
  number d is the j of step i = len-1-d.
 */
module Shuffle {

  import opened Seqs

  /** Every draw lies in the range it is taken from, and there are enough of them. */
  predicate DrawsFit(n: nat, draws: seq<nat>) {
    && n <= |draws| + 1
    && forall d :: 0 <= d < n - 1 ==> draws[d] < n - 1 - d
  }

  /** Steps u-1 down to 1 of the pass; the steps for positions u..n-1 have already run. */
  function Pass<T>(s: seq<T>, draws: seq<nat>, u: nat): (r: seq<T>)
    requires u <= |s| && DrawsFit(|s|, draws)
    ensures |r| == |s|
    decreases u
  {
    if u <= 1 then s
    else Pass(Swap(s, u - 1, draws[|s| - u]), draws, u - 1)
  }

  /** The whole pass over `s`. */
  function Shuffled<T>(s: seq<T>, draws: seq<nat>): (r: seq<T>)
    requires DrawsFit(|s|, draws)
    ensures |r| == |s|
  {
    Pass(s, draws, |s|)
  }

  /** 0, 1, ..., n-1: the positions of a sequence of length n. */
  function Iota(n: nat): (r: seq<nat>)
    ensures |r| == n && forall k :: 0 <= k < n ==> r[k] == k
  {
    seq(n, k => k)
  }

  /** Where each element of the result came from: the pass applied to the positions themselves. */
  function Positions(n: nat, draws: seq<nat>): (p: seq<nat>)
    requires DrawsFit(n, draws)
    ensures |p| == n
  {
    Shuffled<nat>(Iota(n), draws)
  }

  /** `s` read through the index sequence `p`. */
  function Reindex<T>(s: seq<T>, p: seq<nat>): (r: seq<T>)
    requires forall k :: 0 <= k < |p| ==> p[k] < |s|
    ensures |r| == |p| && forall k :: 0 <= k < |p| ==> r[k] == s[p[k]]
  {
    seq(|p|, k requires 0 <= k < |p| => s[p[k]])
  }

  /** A permutation of 0..|p|-1 that moves every position. */
  predicate IsDerangement(p: seq<nat>) {
    && multiset(p) == multiset(Iota(|p|))
    && forall k :: 0 <= k < |p| ==> p[k] < |p| && p[k] != k
  }

  /** The pass only moves elements around. */
  lemma {:induction false} PassPermutes<T>(s: seq<T>, draws: seq<nat>, u: nat)
    requires u <= |s| && DrawsFit(|s|, draws)
    ensures multiset(Pass(s, draws, u)) == multiset(s)
    decreases u
  {
    if u > 1 {
      var t := Swap(s, u - 1, draws[|s| - u]);
      SwapPermutes(s, u - 1, draws[|s| - u]);
      PassPermutes(t, draws, u - 1);
    }
  }

  /** Steps still to run touch only positions below u: a position is never written once its own step is done. */
  lemma {:induction false} PassKeepsSettled<T>(s: seq<T>, draws: seq<nat>, u: nat)
    requires u <= |s| && DrawsFit(|s|, draws)
    ensures forall k :: u <= k < |s| ==> Pass(s, draws, u)[k] == s[k]
    decreases u
  {
    if u > 1 {
      PassKeepsSettled(Swap(s, u - 1, draws[|s| - u]), draws, u - 1);
    }
  }

  /** The pass moves elements the same way whatever they are: it commutes with reading through an index sequence. */
  lemma {:induction false} PassCommutesWithReindex<T>(s: seq<T>, p: seq<nat>, draws: seq<nat>, u: nat)
    requires forall k :: 0 <= k < |p| ==> p[k] < |s|
    requires u <= |p| && DrawsFit(|p|, draws)
    ensures forall k :: 0 <= k < |p| ==> Pass<nat>(p, draws, u)[k] < |s|
    ensures Pass(Reindex(s, p), draws, u) == Reindex(s, Pass<nat>(p, draws, u))
    decreases u
  {
    if u > 1 {
      var i, j := u - 1, draws[|p| - u];
      assert Reindex(s, Swap<nat>(p, i, j)) == Swap(Reindex(s, p), i, j);
      PassCommutesWithReindex(s, Swap<nat>(p, i, j), draws, u - 1);
    }
  }

  /** The shuffled sequence is the input read through `Positions`: the result depends on the draws only, never on the values. */
  lemma ShuffledFollowsPositions<T>(s: seq<T>, draws: seq<nat>)
    requires DrawsFit(|s|, draws)
    ensures forall k :: 0 <= k < |s| ==> Positions(|s|, draws)[k] < |s|
    ensures forall k :: 0 <= k < |s| ==> Shuffled(s, draws)[k] == s[Positions(|s|, draws)[k]]
  {
    assert Reindex(s, Iota(|s|)) == s;
    PassCommutesWithReindex(s, Iota(|s|), draws, |s|);
  }

  /**
    The invariant of the backward pass over positions, before the steps below u run:
    settled positions (>= u) have moved, each open position below u-1 either still holds itself
    or holds something from u upward, position u-1 holds something from u-1 upward, and once a
    step has run some open position holds something from u upward.
   */
  predicate OpenPositions(p: seq<nat>, u: nat) {
    && u <= |p|
    && (forall k :: u <= k < |p| ==> p[k] != k)
    && (forall k :: 0 <= k < u - 1 ==> p[k] == k || p[k] >= u)
    && (u >= 1 ==> p[u - 1] >= u - 1)
    && (u < |p| ==> exists h :: 0 <= h < u && p[h] >= u)
  }

  /** From the invariant, the remaining steps leave no position holding itself. */
  lemma {:induction false} PassLeavesNoFixedPoint(p: seq<nat>, draws: seq<nat>, u: nat)
    requires DrawsFit(|p|, draws) && OpenPositions(p, u)
    requires |p| >= 2 && u >= 1
    ensures forall k :: 0 <= k < |p| ==> Pass(p, draws, u)[k] != k
    decreases u
  {
    if u == 1 {
      var h :| 0 <= h < 1 && p[h] >= 1;
      assert p[0] != 0;
    } else {
      var i, j := u - 1, draws[|p| - u];
      var q := Swap(p, i, j);
      assert q[j] >= u - 1;
      assert OpenPositions(q, u - 1);
      PassLeavesNoFixedPoint(q, draws, u - 1);
    }
  }

  /** For two or more elements the induced permutation of positions has no fixed point. */
  lemma PositionsDerange(n: nat, draws: seq<nat>)
    requires DrawsFit(n, draws)
    ensures n >= 2 ==> IsDerangement(Positions(n, draws))
  {
    if n < 2 {
      return;
    }
    PassPermutes(Iota(n), draws, n);
    PassLeavesNoFixedPoint(Iota(n), draws, n);
    var p := Positions(n, draws);
    forall k | 0 <= k < n
      ensures p[k] < n
    {
      assert p[k] in multiset(Iota(n));
    }
  }

  /**
    `shuffle(data, rng)` with the generator's draws supplied: the loop over i = len-1 down to 1,
    swapping position i with the drawn j < i. The result is the reference pass `Shuffled`, so it
    is determined by the input and the draws alone.
   */
  method Shuffle<T>(data: seq<T>, draws: seq<nat>) returns (r: seq<T>)
    requires DrawsFit(|data|, draws)
    ensures r == Shuffled(data, draws)
    ensures |r| == |data| && multiset(r) == multiset(data)
    ensures |data| <= 1 ==> r == data
    ensures forall k :: 0 <= k < |r| ==> Positions(|data|, draws)[k] < |data| && r[k] == data[Positions(|data|, draws)[k]]
    ensures |data| >= 2 ==> IsDerangement(Positions(|data|, draws))
  {
    r := data;
    var u: nat := |data|;
    while u > 1
      invariant u <= |r| == |data|
      invariant Pass(r, draws, u) == Shuffled(data, draws)
    {
      var i := u - 1;
      var j := draws[|data| - u];
      r := Swap(r, i, j);
      u := u - 1;
    }
    PassPermutes(data, draws, |data|);
    ShuffledFollowsPositions(data, draws);
    PositionsDerange(|data|, draws);
  }
}
