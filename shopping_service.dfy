/** The cart manager: six cart operations and the age-based purge, each a
    short read-modify-write against the cart store. The product catalog is
    the full list the catalog client returns; each operation that consults
    it receives it as a parameter. */
module Service {
  import opened Model
  import opened Results
  import opened ProductStreams
  import opened Store

  const CartNotFound: string := "Shopping cart not found"
  const NoAvailableProducts: string := "No available products found"
  const NoProductsFound: string := "No products found"

  /** How old a cart may get before the purge deletes it. */
  const RetentionWindow: int := OneMinute

  class ShoppingService {
    const store: CartStore

    ghost predicate Valid()
      reads this, store
    {
      store.Valid()
    }

    constructor (store: CartStore)
      requires store.Valid()
      ensures Valid() && this.store == store
    {
      this.store := store;
    }

    /** retrieveShoppingCart: the stored cart, or NotFound. Reads only. */
    method RetrieveShoppingCart(id: Uuid) returns (r: Result<ShoppingCart>)
      requires Valid()
      ensures r.Ok? <==> id in store.carts
      ensures r.Ok? ==> r.value == store.carts[id] && r.value.id == id
      ensures r.Err? ==> r.error == NotFound(CartNotFound)
    {
      var found := store.FindById(id);
      if found.None? {
        return Err(NotFound(CartNotFound));
      }
      r := Ok(found.value);
    }

    /** createShoppingCart: a new cart under freshId, stamped now, holding the
        catalog products whose id was requested, in catalog order. */
    method CreateShoppingCart(catalog: seq<Product>, requested: seq<Uuid>, freshId: Uuid, now: Timestamp)
        returns (r: Result<ShoppingCart>)
      requires Valid()
      requires freshId !in store.carts
      modifies store
      ensures Valid()
      ensures r.Err? <==> forall p | p in catalog :: p.id !in requested
      ensures r.Err? ==> r.error == NotFound(NoAvailableProducts) && store.carts == old(store.carts)
      ensures r.Ok? ==>
        && r.value == ShoppingCart(freshId, WithIds(catalog, requested), now)
        && store.carts == old(store.carts)[freshId := r.value]
        && store.carts.Keys == old(store.carts).Keys + {freshId}
        && IsSubsequence(r.value.products, catalog)
        && (forall p | p in r.value.products :: p in catalog && p.id in requested)
        && (forall p | p in catalog && p.id in requested :: p in r.value.products)
    {
      var filtered := WithIds(catalog, requested);
      WithIdsEmptyIff(catalog, requested);
      if filtered == [] {
        return Err(NotFound(NoAvailableProducts));
      }
      SelectIsSubsequence(catalog, requested, true);
      forall p | p in catalog && p.id in requested ensures p in filtered {
        SelectMembership(catalog, requested, true, p);
      }
      var saved := store.Save(ShoppingCart(freshId, filtered, now));
      r := Ok(saved);
    }

    /** editShoppingCart: replaces the cart's products by the requested catalog
        products. The catalog is filtered before the cart is looked up, so an
        empty match is reported even for a missing cart. */
    method EditShoppingCart(cartId: Uuid, catalog: seq<Product>, requested: seq<Uuid>)
        returns (r: Result<ShoppingCart>)
      requires Valid()
      modifies store
      ensures Valid()
      ensures WithIds(catalog, requested) == [] ==>
        r == Err(NotFound(NoProductsFound)) && store.carts == old(store.carts)
      ensures WithIds(catalog, requested) != [] && cartId !in old(store.carts) ==>
        r == Err(NotFound(CartNotFound)) && store.carts == old(store.carts)
      ensures WithIds(catalog, requested) != [] && cartId in old(store.carts) ==>
        && r == Ok(ShoppingCart(cartId, WithIds(catalog, requested), old(store.carts)[cartId].insertDateTime))
        && store.carts == old(store.carts)[cartId := r.value]
      ensures r == Err(NotFound(NoProductsFound)) <==> forall p | p in catalog :: p.id !in requested
      ensures r.Ok? ==>
        && IsSubsequence(r.value.products, catalog)
        && (forall p | p in r.value.products :: p in catalog && p.id in requested)
        && (forall p | p in catalog && p.id in requested :: p in r.value.products)
    {
      var filtered := WithIds(catalog, requested);
      WithIdsEmptyIff(catalog, requested);
      if filtered == [] {
        return Err(NotFound(NoProductsFound));
      }
      SelectIsSubsequence(catalog, requested, true);
      forall p | p in catalog && p.id in requested ensures p in filtered {
        SelectMembership(catalog, requested, true, p);
      }
      var found := store.FindById(cartId);
      if found.None? {
        return Err(NotFound(CartNotFound));
      }
      var cart := found.value.(products := filtered);
      var saved := store.Save(cart);
      r := Ok(saved);
    }

    /** addProductsToShoppingCart: appends the requested catalog products to
        the cart, dropping every product equal in all fields to one already
        kept. */
    method AddProductsToShoppingCart(cartId: Uuid, catalog: seq<Product>, productIds: seq<Uuid>)
        returns (r: Result<ShoppingCart>)
      requires Valid()
      modifies store
      ensures Valid()
      ensures cartId !in old(store.carts) ==>
        r == Err(NotFound(CartNotFound)) && store.carts == old(store.carts)
      ensures cartId in old(store.carts) && WithIds(catalog, productIds) == [] ==>
        r == Err(NotFound(NoProductsFound)) && store.carts == old(store.carts)
      ensures cartId in old(store.carts) && WithIds(catalog, productIds) != [] ==>
        var cart := old(store.carts)[cartId];
        && r == Ok(cart.(products := Distinct(cart.products + WithIds(catalog, productIds))))
        && store.carts == old(store.carts)[cartId := r.value]
        && NoDuplicates(r.value.products)
        && IsSubsequence(r.value.products, cart.products + WithIds(catalog, productIds))
        && (forall p | p in r.value.products :: p in cart.products || (p in catalog && p.id in productIds))
        && (forall p | p in cart.products :: p in r.value.products)
        && (forall p | p in catalog && p.id in productIds :: p in r.value.products)
        && (NoDuplicates(cart.products) ==>
              r.value.products == cart.products + DistinctAfter(WithIds(catalog, productIds), Elements(cart.products)))
    {
      var found := store.FindById(cartId);
      if found.None? {
        return Err(NotFound(CartNotFound));
      }
      var cart := found.value;
      var newProducts := WithIds(catalog, productIds);
      if newProducts != [] {
        forall p | p in catalog && p.id in productIds ensures p in newProducts {
          SelectMembership(catalog, productIds, true, p);
        }
        if NoDuplicates(cart.products) {
          DistinctConcat(cart.products, newProducts);
        }
        DistinctAfterIsSubsequence(cart.products + newProducts, {});
        var combined := Distinct(cart.products + newProducts);
        cart := cart.(products := combined);
      } else {
        return Err(NotFound(NoProductsFound));
      }
      var saved := store.Save(cart);
      r := Ok(saved);
    }

    /** removeProductsFromShoppingCart: drops the cart's products whose id is
        listed, keeping the others in order; with no ids the cart is re-saved
        as it was. The catalog is not consulted. */
    method RemoveProductsFromShoppingCart(cartId: Uuid, productIds: seq<Uuid>)
        returns (r: Result<ShoppingCart>)
      requires Valid()
      modifies store
      ensures Valid()
      ensures cartId !in old(store.carts) ==>
        r == Err(NotFound(CartNotFound)) && store.carts == old(store.carts)
      ensures cartId in old(store.carts) ==>
        var cart := old(store.carts)[cartId];
        && r == Ok(cart.(products := WithoutIds(cart.products, productIds)))
        && store.carts == old(store.carts)[cartId := r.value]
      ensures cartId in old(store.carts) && productIds == [] ==>
        r == Ok(old(store.carts)[cartId]) && store.carts == old(store.carts)
      ensures cartId in old(store.carts) ==>
        var before := old(store.carts)[cartId].products;
        && IsSubsequence(r.value.products, before)
        && (forall p | p in r.value.products :: p in before && p.id !in productIds)
        && (forall p | p in before && p.id !in productIds :: p in r.value.products)
    {
      var found := store.FindById(cartId);
      if found.None? {
        return Err(NotFound(CartNotFound));
      }
      var cart := found.value;
      SelectIsSubsequence(cart.products, productIds, false);
      forall p | p in cart.products && p.id !in productIds ensures p in WithoutIds(cart.products, productIds) {
        SelectMembership(cart.products, productIds, false, p);
      }
      if productIds != [] {
        cart := cart.(products := WithoutIds(cart.products, productIds));
      } else {
        WithoutNoIds(cart.products);
      }
      var saved := store.Save(cart);
      r := Ok(saved);
    }

    /** deleteShoppingCart: deletes the cart, or reports NotFound and deletes nothing. */
    method DeleteShoppingCart(id: Uuid) returns (outcome: Outcome)
      requires Valid()
      modifies store
      ensures Valid()
      ensures id in old(store.carts) ==> outcome == Pass && store.carts == old(store.carts) - {id}
      ensures id !in old(store.carts) ==>
        outcome == Fail(NotFound(CartNotFound)) && store.carts == old(store.carts)
    {
      var found := store.FindById(id);
      if found.None? {
        return Fail(NotFound(CartNotFound));
      }
      store.Delete(found.value);
      outcome := Pass;
    }

    /** deleteOldCarts: deletes exactly the carts inserted strictly before
        now minus the retention window, and never fails. */
    method DeleteOldCarts(now: Timestamp)
      requires Valid()
      modifies store
      ensures Valid()
      ensures store.carts == InsertedNotBefore(old(store.carts), now - RetentionWindow)
      ensures forall id | id in old(store.carts) ::
        id in store.carts <==> old(store.carts)[id].insertDateTime >= now - RetentionWindow
      ensures forall id | id in store.carts :: id in old(store.carts) && store.carts[id] == old(store.carts)[id]
    {
      var cutoff := now - RetentionWindow;
      store.DeleteInsertedBefore(cutoff);
    }
  }

  lemma DeleteUndoesInsert(carts: map<Uuid, ShoppingCart>, id: Uuid, cart: ShoppingCart)
    requires id !in carts
    ensures carts[id := cart] - {id} == carts
  {
    assert (carts[id := cart] - {id}).Keys == carts.Keys;
  }

  /** The catalog computations of the lifecycle below. */
  lemma LifecycleSteps(p1: Product, p3: Product, id2: Uuid)
    requires p1.id != p3.id && id2 != p1.id && id2 != p3.id
    ensures WithIds([p1, p3], [p1.id, id2]) == [p1]
    ensures WithIds([p1, p3], [id2, p3.id]) == [p3]
    ensures Distinct([p1] + [p3]) == [p1, p3]
  {
    var catalog := [p1, p3];
    assert catalog[1..] == [p3] && [p3][1..] == [];
    assert SelectByIds([p3], [p1.id, id2], true) == [];
    assert SelectByIds([p3], [id2, p3.id], true) == [p3];
    assert [p1] + [p3] == catalog;
    DistinctOfUnique(catalog);
  }

  /** The first half of a cart's life: it is created from a request of which
      only p1 is in the catalog, then p3 is added. */
  method CreateThenAdd(service: ShoppingService, p1: Product, p3: Product, id2: Uuid, cartId: Uuid, now: Timestamp)
      returns (created: Result<ShoppingCart>, added: Result<ShoppingCart>)
    requires service.Valid()
    requires cartId !in service.store.carts
    requires p1.id != p3.id && id2 != p1.id && id2 != p3.id
    modifies service.store
    ensures service.Valid()
    ensures created == Ok(ShoppingCart(cartId, [p1], now))
    ensures added == Ok(ShoppingCart(cartId, [p1, p3], now))
    ensures service.store.carts == old(service.store.carts)[cartId := added.value]
  {
    LifecycleSteps(p1, p3, id2);
    var catalog := [p1, p3];
    created := service.CreateShoppingCart(catalog, [p1.id, id2], cartId, now);
    assert created == Ok(ShoppingCart(cartId, [p1], now));
    added := service.AddProductsToShoppingCart(cartId, catalog, [id2, p3.id]);
  }

  /** Deleting a present cart succeeds, and a retrieve right after it fails. */
  method DeleteThenRetrieve(service: ShoppingService, cartId: Uuid)
      returns (deleted: Outcome, retrieved: Result<ShoppingCart>)
    requires service.Valid()
    requires cartId in service.store.carts
    modifies service.store
    ensures service.Valid()
    ensures deleted == Pass
    ensures retrieved == Err(NotFound(CartNotFound))
    ensures service.store.carts == old(service.store.carts) - {cartId}
  {
    deleted := service.DeleteShoppingCart(cartId);
    retrieved := service.RetrieveShoppingCart(cartId);
  }

  /** The middle of a cart's life: p1 is removed from [p1, p3], then
      removing nothing leaves [p3] in place. */
  method RemoveThenRemoveNothing(service: ShoppingService, p1: Product, p3: Product, cartId: Uuid, now: Timestamp)
      returns (removed: Result<ShoppingCart>, removedNothing: Result<ShoppingCart>)
    requires service.Valid()
    requires cartId in service.store.carts
    requires service.store.carts[cartId] == ShoppingCart(cartId, [p1, p3], now)
    requires p1.id != p3.id
    modifies service.store
    ensures service.Valid()
    ensures removed == Ok(ShoppingCart(cartId, [p3], now))
    ensures removedNothing == removed
    ensures service.store.carts == old(service.store.carts)[cartId := removed.value]
  {
    assert [p1, p3][1..] == [p3] && [p3][1..] == [];
    assert SelectByIds([p3], [p1.id], false) == [p3];
    assert WithoutIds([p1, p3], [p1.id]) == [p3];
    removed := service.RemoveProductsFromShoppingCart(cartId, [p1.id]);
    removedNothing := service.RemoveProductsFromShoppingCart(cartId, []);
  }

  /** A cart's whole life, from creation to deletion, leaves the store as it
      was and ends with a failing retrieve. */
  method CartLifecycle(service: ShoppingService, p1: Product, p3: Product, id2: Uuid, cartId: Uuid, now: Timestamp)
      returns (retrieved: Result<ShoppingCart>)
    requires service.Valid()
    requires cartId !in service.store.carts
    requires p1.id != p3.id && id2 != p1.id && id2 != p3.id
    modifies service.store
    ensures service.Valid()
    ensures retrieved == Err(NotFound(CartNotFound))
    ensures service.store.carts == old(service.store.carts)
  {
    ghost var initial := service.store.carts;
    var created, added := CreateThenAdd(service, p1, p3, id2, cartId, now);
    var removed, removedNothing := RemoveThenRemoveNothing(service, p1, p3, cartId, now);
    assert service.store.carts == initial[cartId := removed.value];
    var deleted;
    deleted, retrieved := DeleteThenRetrieve(service, cartId);
    DeleteUndoesInsert(initial, cartId, removed.value);
  }
}
