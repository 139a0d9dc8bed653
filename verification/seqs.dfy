/** Sequence operations shared by the containers: Rust's `slice::swap` and `Iterator::position`. */
module Seqs {

  import opened Wrappers

  /** `s.swap(i, j)`: positions i and j trade contents, everything else stays. Panics (here: requires) on an index out of range. */
  function Swap<T>(s: seq<T>, i: nat, j: nat): (r: seq<T>)
    requires i < |s| && j < |s|
    ensures |r| == |s|
    ensures r[i] == s[j] && r[j] == s[i]
    ensures forall k :: 0 <= k < |s| && k != i && k != j ==> r[k] == s[k]
  {
    s[i := s[j]][j := s[i]]
  }

  /** A swap only moves elements around. */
  lemma SwapPermutes<T>(s: seq<T>, i: nat, j: nat)
    requires i < |s| && j < |s|
    ensures multiset(Swap(s, i, j)) == multiset(s)
  {
  }

  /** Swapping the same two positions again undoes the first swap. */
  lemma SwapTwiceRestores<T>(s: seq<T>, i: nat, j: nat)
    requires i < |s| && j < |s|
    ensures Swap(Swap(s, i, j), i, j) == s
  {
  }

  /** Swapping a position with itself changes nothing. */
  lemma SwapSelfIsIdentity<T>(s: seq<T>, i: nat)
    requires i < |s|
    ensures Swap(s, i, i) == s
  {
  }

  /** `iter().position(matches)`: the first index whose element matches, or None when no element does. */
  function Position<T>(s: seq<T>, matches: T -> bool): (r: Option<nat>)
    ensures r.Some? ==> r.value < |s| && matches(s[r.value])
    ensures r.Some? ==> forall k :: 0 <= k < r.value ==> !matches(s[k])
    ensures r.None? ==> forall k :: 0 <= k < |s| ==> !matches(s[k])
  {
    if |s| == 0 then None
    else if matches(s[0]) then Some(0)
    else match Position(s[1..], matches)
      case None => None
      case Some(k) => Some(k + 1)
  }
}
