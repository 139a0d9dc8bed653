/** `Shelf`, defined identically in `logic/shelf.rs` and `lib.rs`: a row of items with no empty places. */
module Shelves {

  import opened Seqs
  import Items
  import Shuffle

  type Item = Items.Item

  /** The box index is the position in `items`. */
  datatype Shelf = Shelf(items: seq<Item>)

  /** `shelf.shuffle(rng)`: a copy of the shelf run through the backward-swap shuffle with the supplied draws. */
  function ShuffleShelf(shelf: Shelf, draws: seq<nat>): (r: Shelf)
    requires Shuffle.DrawsFit(|shelf.items|, draws)
    ensures |r.items| == |shelf.items| && multiset(r.items) == multiset(shelf.items)
    ensures forall k :: 0 <= k < |r.items| ==>
      Shuffle.Positions(|shelf.items|, draws)[k] < |shelf.items| &&
      r.items[k] == shelf.items[Shuffle.Positions(|shelf.items|, draws)[k]]
    ensures |shelf.items| >= 2 ==> Shuffle.IsDerangement(Shuffle.Positions(|shelf.items|, draws))
    ensures |shelf.items| <= 1 ==> r == shelf
  {
    Shuffle.PassPermutes(shelf.items, draws, |shelf.items|);
    Shuffle.ShuffledFollowsPositions(shelf.items, draws);
    Shuffle.PositionsDerange(|shelf.items|, draws);
    Shelf(Shuffle.Shuffled(shelf.items, draws))
  }

  /** `exchange_items(i, j)`: positions i and j trade items; out-of-range indices panic. */
  function ExchangeItems(s: Shelf, i: nat, j: nat): (r: Shelf)
    requires i < |s.items| && j < |s.items|
    ensures |r.items| == |s.items| && multiset(r.items) == multiset(s.items)
    ensures r.items[i] == s.items[j] && r.items[j] == s.items[i]
    ensures forall k :: 0 <= k < |s.items| && k != i && k != j ==> r.items[k] == s.items[k]
  {
    SwapPermutes(s.items, i, j);
    Shelf(Swap(s.items, i, j))
  }

  /** Exchanging a position with itself changes nothing. */
  lemma ExchangeSelfIsIdentity(s: Shelf, i: nat)
    requires i < |s.items|
    ensures ExchangeItems(s, i, i) == s
  {
  }

  /** Exchanging the same two positions twice restores the shelf. */
  lemma ExchangeTwiceRestores(s: Shelf, i: nat, j: nat)
    requires i < |s.items| && j < |s.items|
    ensures ExchangeItems(ExchangeItems(s, i, j), i, j) == s
  {
  }

  /** `remove_item(idx)` (`Vec::remove`): returns the item at idx and closes the gap; an index out of range panics. */
  function RemoveItem(s: Shelf, idx: nat): (r: (Shelf, Item))
    requires idx < |s.items|
    ensures r.1 == s.items[idx]
    ensures |r.0.items| == |s.items| - 1
    ensures forall k :: 0 <= k < idx ==> r.0.items[k] == s.items[k]
    ensures forall k :: idx <= k < |r.0.items| ==> r.0.items[k] == s.items[k + 1]
  {
    (Shelf(s.items[..idx] + s.items[idx + 1..]), s.items[idx])
  }

  /** Putting the removed item back where it was restores the shelf, so removal loses exactly that one item. */
  lemma RemoveThenReinsertRestores(s: Shelf, idx: nat)
    requires idx < |s.items|
    ensures var (rest, item) := RemoveItem(s, idx);
      && rest.items[..idx] + [item] + rest.items[idx..] == s.items
      && multiset(rest.items) + multiset{item} == multiset(s.items)
  {
    var (rest, item) := RemoveItem(s, idx);
    assert rest.items[..idx] == s.items[..idx];
    assert rest.items[idx..] == s.items[idx + 1..];
    assert s.items == s.items[..idx] + [item] + s.items[idx + 1..];
    assert rest.items == s.items[..idx] + s.items[idx + 1..];
  }
}
