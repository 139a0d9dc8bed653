/** `Locker` of `logic/locker.rs`: an ordered row of boxes, each holding an item or empty. */
module Lockers {

  import opened Wrappers
  import opened Seqs
  import Items

  type Item = Items.Item

  /** The box index is the position in `items`. */
  datatype Locker = Locker(items: seq<Option<Item>>)

  /** A box holds an item belonging to `id`. */
  predicate Holds(slot: Option<Item>, id: nat) {
    slot.Some? && Items.IsBelongsTo(slot.value, id)
  }

  /** Some box of the locker holds `id`'s item. */
  predicate HasItemOf(l: Locker, id: nat) {
    exists k :: 0 <= k < |l.items| && Holds(l.items[k], id)
  }

  /** No participant owns the items of two different boxes. */
  predicate OwnersUnique(l: Locker) {
    forall a, b :: 0 <= a < b < |l.items| && l.items[a].Some? && l.items[b].Some? ==>
      l.items[a].value.belongsTo != l.items[b].value.belongsTo
  }

  /** `Locker::new(n)`: n full boxes, every item created as `Item::new(0)`. */
  function New(n: nat): (r: Locker)
    ensures |r.items| == n
    ensures forall k :: 0 <= k < n ==> r.items[k].Some? && r.items[k].value.belongsTo == 0
  {
    Locker(seq(n, _ => Some(Items.New(0))))
  }

  /** `exchange_items(i, j)`: boxes i and j trade contents; out-of-range indices panic. */
  function ExchangeItems(l: Locker, i: nat, j: nat): (r: Locker)
    requires i < |l.items| && j < |l.items|
    ensures |r.items| == |l.items|
    ensures r.items[i] == l.items[j] && r.items[j] == l.items[i]
    ensures forall k :: 0 <= k < |l.items| && k != i && k != j ==> r.items[k] == l.items[k]
  {
    Locker(Swap(l.items, i, j))
  }

  /** Exchanging the same two boxes twice restores the locker. */
  lemma ExchangeTwiceRestores(l: Locker, i: nat, j: nat)
    requires i < |l.items| && j < |l.items|
    ensures ExchangeItems(ExchangeItems(l, i, j), i, j) == l
  {
  }

  /** Exchanging keeps every owner in at most one box. */
  lemma ExchangeKeepsOwnersUnique(l: Locker, i: nat, j: nat)
    requires i < |l.items| && j < |l.items| && OwnersUnique(l)
    ensures OwnersUnique(ExchangeItems(l, i, j))
  {
  }

  /** `remove_item(idx)`: takes the box's contents (None if it was empty) and leaves the box empty. */
  function RemoveItem(l: Locker, idx: nat): (r: (Locker, Option<Item>))
    requires idx < |l.items|
    ensures r.1 == l.items[idx]
    ensures |r.0.items| == |l.items| && r.0.items[idx] == None
    ensures forall k :: 0 <= k < |l.items| && k != idx ==> r.0.items[k] == l.items[k]
  {
    (Locker(l.items[idx := None]), l.items[idx])
  }

  /** Taking from the same box a second time yields nothing. */
  lemma RemoveTwiceYieldsNone(l: Locker, idx: nat)
    requires idx < |l.items|
    ensures RemoveItem(RemoveItem(l, idx).0, idx).1 == None
  {
  }

  /** Removing keeps every owner in at most one box. */
  lemma RemoveKeepsOwnersUnique(l: Locker, idx: nat)
    requires idx < |l.items| && OwnersUnique(l)
    ensures OwnersUnique(RemoveItem(l, idx).0)
  {
  }

  /** `get_item_idx_by_belongs(id)`: the first box holding `id`'s item; the `unwrap` panics (here: requires) when there is none. */
  function GetItemIdxByBelongs(l: Locker, id: nat): (k: nat)
    requires HasItemOf(l, id)
    ensures k < |l.items| && Holds(l.items[k], id)
    ensures forall m :: 0 <= m < k ==> !Holds(l.items[m], id)
  {
    Position(l.items, slot => Holds(slot, id)).value
  }

  /** In a fresh locker every item belongs to 0: id 0 is found in the first box and no other id is found at all. */
  lemma FreshLockerHoldsOnlyZero(n: nat, id: nat)
    requires n >= 1
    ensures HasItemOf(New(n), 0) && GetItemIdxByBelongs(New(n), 0) == 0
    ensures id != 0 ==> !HasItemOf(New(n), id)
  {
    assert Holds(New(n).items[0], 0);
  }

  /** A fresh locker of two or more boxes already has two items of owner 0, so it is not owner-unique. */
  lemma FreshLockerSharesOwner(n: nat)
    requires n >= 2
    ensures !OwnersUnique(New(n))
  {
    assert New(n).items[0].value.belongsTo == New(n).items[1].value.belongsTo;
  }

  /** When `id`'s item sits in exactly one box, taking from the box that lookup finds leaves no item of `id` behind. */
  lemma RemoveFoundClearsOwner(l: Locker, id: nat)
    requires HasItemOf(l, id)
    requires forall a, b :: 0 <= a < |l.items| && 0 <= b < |l.items| && Holds(l.items[a], id) && Holds(l.items[b], id) ==> a == b
    ensures var (r, taken) := RemoveItem(l, GetItemIdxByBelongs(l, id));
      taken.Some? && taken.value.belongsTo == id && !HasItemOf(r, id)
  {
  }
}
