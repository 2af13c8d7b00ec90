/** The cart repository as the cart manager uses it: a document store that
    holds one document per cart, keyed by the cart's id. */
module Store {
  import opened Model
  import opened Results

  class CartStore {
    var carts: map<Uuid, ShoppingCart>

    /** Every document is stored under its own id. */
    ghost predicate Valid()
      reads this
    {
      forall id | id in carts :: carts[id].id == id
    }

    constructor ()
      ensures Valid() && carts == map[]
    {
      carts := map[];
    }

    /** findShoppingCartById: the document stored under id, if any. */
    method FindById(id: Uuid) returns (found: Option<ShoppingCart>)
      requires Valid()
      ensures found.Some? <==> id in carts
      ensures found.Some? ==> found.value == carts[id] && found.value.id == id
    {
      if id in carts {
        found := Some(carts[id]);
      } else {
        found := None;
      }
    }

    /** save: an upsert keyed by the cart's id; returns the saved document. */
    method Save(cart: ShoppingCart) returns (saved: ShoppingCart)
      requires Valid()
      modifies this
      ensures Valid()
      ensures saved == cart
      ensures carts == old(carts)[cart.id := cart]
    {
      carts := carts[cart.id := cart];
      saved := cart;
    }

    /** delete(entity): removes the document whose id is the entity's id. */
    method Delete(cart: ShoppingCart)
      requires Valid()
      modifies this
      ensures Valid()
      ensures carts == old(carts) - {cart.id}
    {
      carts := carts - {cart.id};
    }

    /** deleteShoppingCartsByInsertDateTimeIsBefore: one bulk delete of every
        document inserted strictly before cutoff. */
    method DeleteInsertedBefore(cutoff: Timestamp)
      requires Valid()
      modifies this
      ensures Valid()
      ensures carts == InsertedNotBefore(old(carts), cutoff)
    {
      carts := map id | id in carts && !(carts[id].insertDateTime < cutoff) :: carts[id];
    }
  }

  /** What the bulk delete leaves: the documents inserted at or after cutoff,
      each unchanged. */
  function InsertedNotBefore(carts: map<Uuid, ShoppingCart>, cutoff: Timestamp): (kept: map<Uuid, ShoppingCart>)
    ensures forall id | id in carts :: id in kept <==> carts[id].insertDateTime >= cutoff
    ensures forall id | id in kept :: id in carts && kept[id] == carts[id]
  {
    map id | id in carts && !(carts[id].insertDateTime < cutoff) :: carts[id]
  }

  /** Two sweeps are one sweep at the later cutoff; in particular a sweep
      repeated with the same cutoff deletes nothing more. */
  lemma SweepsCompose(carts: map<Uuid, ShoppingCart>, first: Timestamp, second: Timestamp)
    ensures InsertedNotBefore(InsertedNotBefore(carts, first), second)
         == InsertedNotBefore(carts, if first < second then second else first)
  {
    var twice := InsertedNotBefore(InsertedNotBefore(carts, first), second);
    var once := InsertedNotBefore(carts, if first < second then second else first);
    assert twice.Keys == once.Keys;
  }
}
