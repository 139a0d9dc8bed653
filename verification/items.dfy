/** `Item`, defined identically in `logic/item.rs`, `logic/locker.rs` and `lib.rs`: a placeholder owned by one participant. */
module Items {

  /** Rust's `usize` owner id is an unbounded natural here. */
  datatype Item = Item(belongsTo: nat)

  /** `Item::new(belongs_to)`. */
  function New(belongsTo: nat): (r: Item)
    ensures IsBelongsTo(r, belongsTo)
    ensures forall id :: IsBelongsTo(r, id) ==> id == belongsTo
  {
    Item(belongsTo)
  }

  /** `item.is_belongs_to(id)`: ownership is the only thing an item says. */
  predicate IsBelongsTo(item: Item, id: nat): (r: bool)
    ensures r <==> item == Item(id)
  {
    item.belongsTo == id
  }

  /** A new item belongs to its owner and to nobody else. */
  lemma NewBelongsOnlyToOwner(b: nat, c: nat)
    ensures IsBelongsTo(New(b), c) <==> c == b
  {
  }
}
