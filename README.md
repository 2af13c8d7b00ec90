# Shopping-cart manager of web-shopping-service, in Dafny

This project models the cart manager of the web-shopping-service
microservice (`ShoppingService`) and proves what its operations do. The
manager keeps shopping carts in a document store and fills them with
copies of products taken from an external product catalog. It offers six
operations: retrieve, create, edit, add products, remove products and
delete. It also has a purge that deletes every cart older than one minute.

## Layout

- `model.dfy` (module `Model`): the documents. `Product` and `ShoppingCart`
  are datatypes, so equality between them compares every field, as
  Lombok's `@Data` equality does. `Uuid` is two 64-bit halves. A price is
  an opaque `Decimal` of unscaled value and scale, which is what
  `BigDecimal.equals` compares. A timestamp is an integer count of
  nanoseconds.
- `results.dfy` (module `Results`): `Option`, plus the one domain error
  `NotFound(reason)` as a `Result` or an `Outcome`.
- `product_streams.dfy` (module `ProductStreams`): the stream pipelines as
  functions. This covers filtering products by whether their id is in a
  list (`SelectByIds`, with `WithIds` to keep and `WithoutIds` to drop) and
  `Stream.distinct()` (`Distinct`). Their lemmas cover membership,
  multiplicity, order (`IsSubsequence`), idempotence, and how `distinct`
  treats a concatenation.
- `cart_store.dfy` (module `Store`): the repository as a class `CartStore`.
  It holds a `map<Uuid, ShoppingCart>` and has find, save (an upsert),
  delete and the bulk delete of carts inserted before a time.
- `shopping_service.dfy` (module `Service`): the class `ShoppingService`
  with one method per operation. Each method does the same read-modify-write
  on the store, in the same order, as the Java method. Each contract gives
  the result and the whole new store contents, error paths included. The
  catalog the client would fetch, the fresh id `UUID.randomUUID()` would
  produce, and the current time are all parameters. Four client methods at
  the end run a cart through its whole life: create, add, remove, remove
  nothing, delete, then a retrieve that fails.

Modelling choices:

- Products are kept in list order, as the Java `List` of a cart keeps them.
- The purge's retention window is the one-minute constant of
  `deleteOldCarts` (`minusMinutes(1)`,
  `ShoppingService.java:105`).
- `editShoppingCart` filters the catalog before it looks up the cart, so a
  request with no matching product answers `"No products found"` even for a
  cart that does not exist.
- `distinct` compares products in all their fields. Two snapshots with the
  same id but, say, different prices both stay in the cart. The contract of
  `AddProductsToShoppingCart` says this: every existing and every matched
  product is kept, with no two fully equal.

## Model

| member | source | states |
|---|---|---|
| `Store.CartStore.FindById` | src/main/java/com/example/webshoppingservice/repository/ShoppingCartRepository.java:10 | a document is found exactly when one is stored under the id; it is that document and carries that id |
| `Store.CartStore.Save` | src/main/java/com/example/webshoppingservice/service/ShoppingService.java:44 | save is an upsert under the cart's own id that returns the cart; no other document changes; every document stays under its own id |
| `Store.CartStore.Delete` | src/main/java/com/example/webshoppingservice/service/ShoppingService.java:101 | deleting an entity removes exactly the document with that entity's id |
| `Store.CartStore.DeleteInsertedBefore` | src/main/java/com/example/webshoppingservice/service/ShoppingService.java:106 | the bulk delete leaves exactly the documents inserted at or after the cutoff, unchanged |
| `Store.InsertedNotBefore` | src/main/java/com/example/webshoppingservice/service/ShoppingService.java:106 | a stored cart survives the sweep if and only if its insertDateTime is not strictly before the cutoff; survivors are unchanged and nothing is added |
| `Store.SweepsCompose` | src/main/java/com/example/webshoppingservice/service/ShoppingCartCleanupScheduler.java:15-18 | two sweeps in a row equal one sweep at the later cutoff, so repeating a sweep with the same cutoff deletes nothing more |
| `ProductStreams.SelectByIds` | src/main/java/com/example/webshoppingservice/service/ShoppingService.java:35-37 | the filter never lengthens the list, and every product it returns comes from the input with its id passing the membership test |
| `ProductStreams.SelectMembership` | src/main/java/com/example/webshoppingservice/service/ShoppingService.java:35-37 | a product is in the filtered list if and only if it is in the input and its id is in (or, when dropping, not in) the id list |
| `ProductStreams.SelectCount` | src/main/java/com/example/webshoppingservice/service/ShoppingService.java:35-37 | every product that passes keeps its exact number of occurrences; every other product occurs zero times |
| `ProductStreams.SelectIsSubsequence` | src/main/java/com/example/webshoppingservice/service/ShoppingService.java:35-37 | the filtered list is a subsequence of the input, so catalog order (or cart order) is kept |
| `ProductStreams.SelectPartition` | src/main/java/com/example/webshoppingservice/service/ShoppingService.java:89-91 | keeping the listed ids and dropping them split the list: the two results together are the input as a multiset |
| `ProductStreams.SelectIdempotent` | src/main/java/com/example/webshoppingservice/service/ShoppingService.java:89-91 | filtering again by the same id list changes nothing, so repeating a removal gives the same products |
| `ProductStreams.WithoutNoIds` | src/main/java/com/example/webshoppingservice/service/ShoppingService.java:88-92 | dropping an empty id list keeps every product in place |
| `ProductStreams.WithIdsEmptyIff` | src/main/java/com/example/webshoppingservice/service/ShoppingService.java:35-41 | nothing matches if and only if no catalog product has a requested id |
| `ProductStreams.DistinctAfterFacts` | src/main/java/com/example/webshoppingservice/service/ShoppingService.java:74-76 | de-duplicating past a set of seen elements keeps exactly the unseen elements of the input and repeats none |
| `ProductStreams.Distinct` | src/main/java/com/example/webshoppingservice/service/ShoppingService.java:74-76 | distinct has exactly the elements of its input, each once |
| `ProductStreams.DistinctAfterIsSubsequence` | src/main/java/com/example/webshoppingservice/service/ShoppingService.java:74-76 | the de-duplicated list is a subsequence of the input (encounter order is kept) |
| `ProductStreams.DistinctAfterSnoc` | src/main/java/com/example/webshoppingservice/service/ShoppingService.java:74-76 | appending an element to the input appends it to the output exactly when it has not occurred before and was not already seen |
| `ProductStreams.DistinctSnoc` | src/main/java/com/example/webshoppingservice/service/ShoppingService.java:74-76 | a left-to-right reference definition of distinct: a new element is appended, a repeated one is dropped (the first occurrence wins) |
| `ProductStreams.DistinctAfterPrefix` | src/main/java/com/example/webshoppingservice/service/ShoppingService.java:74-76 | a duplicate-free prefix that shares nothing with the seen set passes through unchanged, and the rest is de-duplicated against it |
| `ProductStreams.DistinctConcat` | src/main/java/com/example/webshoppingservice/service/ShoppingService.java:74-76 | when the cart has no duplicates, distinct(existing ++ added) is the existing list, unchanged and first, followed by each added product that is new, once |
| `ProductStreams.DistinctOfUnique` | src/main/java/com/example/webshoppingservice/service/ShoppingService.java:74-76 | distinct leaves a duplicate-free list unchanged, so distinct is idempotent |
| `Service.ShoppingService.RetrieveShoppingCart` | src/main/java/com/example/webshoppingservice/service/ShoppingService.java:28-31 | returns the stored cart if and only if the id is present, or else NotFound "Shopping cart not found"; it has no modifies clause, so the store never changes |
| `Service.ShoppingService.CreateShoppingCart` | src/main/java/com/example/webshoppingservice/service/ShoppingService.java:33-45 | fails with NotFound "No available products found", store unchanged, if and only if no catalog product has a requested id; otherwise stores exactly one new entry under the fresh id, stamped now, whose products are the requested catalog products in catalog order (a subsequence of the catalog, containing every match and nothing else); every other cart is unchanged |
| `Service.ShoppingService.EditShoppingCart` | src/main/java/com/example/webshoppingservice/service/ShoppingService.java:47-62 | an empty catalog match gives "No products found" whether or not the cart exists; a missing cart then gives "Shopping cart not found"; both leave the store unchanged; "No products found" is the answer if and only if no catalog product has a requested id; otherwise the cart's products are replaced by the match (a subsequence of the catalog, containing every match and nothing else), keeping its id and insertDateTime |
| `Service.ShoppingService.AddProductsToShoppingCart` | src/main/java/com/example/webshoppingservice/service/ShoppingService.java:64-82 | a missing cart gives "Shopping cart not found" before the catalog is consulted; an empty match gives "No products found"; neither writes; otherwise the products become distinct(existing ++ matched): no duplicates, every existing and every matched product, nothing else, in encounter order, with the existing list kept as a prefix when it had no duplicates |
| `Service.ShoppingService.RemoveProductsFromShoppingCart` | src/main/java/com/example/webshoppingservice/service/ShoppingService.java:84-95 | a missing cart gives "Shopping cart not found" with no write; otherwise the kept products are exactly the existing ones whose id is not listed, a subsequence of the cart's list; with an empty list the cart and the store are exactly as before; the catalog is not a parameter |
| `Service.ShoppingService.DeleteShoppingCart` | src/main/java/com/example/webshoppingservice/service/ShoppingService.java:97-102 | a missing id fails with "Shopping cart not found" and deletes nothing; a present id is removed and no other cart changes |
| `Service.ShoppingService.DeleteOldCarts` | src/main/java/com/example/webshoppingservice/service/ShoppingService.java:104-109 | always succeeds; removes exactly the carts inserted strictly before now minus one minute; carts at or after that cutoff are kept unchanged |
| `Service.CreateThenAdd` | src/main/java/com/example/webshoppingservice/service/ShoppingService.java:33-82 | creating with ids [P1, X], where only P1 is in the catalog, gives [P1]; adding [X, P3] then gives [P1, P3] |
| `Service.RemoveThenRemoveNothing` | src/main/java/com/example/webshoppingservice/service/ShoppingService.java:84-95 | removing P1 from [P1, P3] leaves [P3]; removing nothing then returns the same cart |
| `Service.DeleteThenRetrieve` | src/main/java/com/example/webshoppingservice/service/ShoppingService.java:97-102 | deleting a present cart succeeds, and a retrieve right after it fails with "Shopping cart not found" |
| `Service.CartLifecycle` | src/main/java/com/example/webshoppingservice/service/ShoppingService.java:28-102 | the whole life of a cart (create, add, remove, remove nothing, delete) ends in a failing retrieve and leaves the store as it was |

## Left out

- HTTP routing, `@Valid` request validation and the mapping of NotFound to
  status 404 belong to the controller (`ShoppingController.java`). They are
  framework plumbing and are not modelled.
- The catalog client (`ProductClient.java`, `ProductConfig.java`) makes an
  HTTP call. The catalog is a `seq<Product>` parameter instead. A failed or
  empty (null) catalog response is not modelled, and neither are store
  failures. The source does not handle either kind of failure.
- `UUID.randomUUID()` is replaced by a `freshId` parameter. Its requirement,
  that the id is not a key of the store, stands in for the randomness. With
  a collision, `save` would overwrite the old cart, and the model does not
  cover that case.
- `LocalDateTime.now()`, `ZoneId.systemDefault()` and `minusMinutes(1)` are
  replaced by a `now` parameter and an integer subtraction of one minute in
  nanoseconds. Time zones, daylight-saving shifts and clock resolution are
  not modelled.
- The log line in `deleteOldCarts` and the cron timing of
  `ShoppingCartCleanupScheduler.java` are left out. The scheduler is a
  one-line call to the purge.
- `BigDecimal` arithmetic is not modelled. No operation computes with
  prices; only their equality matters, and that is modelled.
- Category.java is not part of this model. A category is an opaque value
  identified by its ordinal.
- Java `null` (a product list, an id or a field that is null) is not
  modelled. Every value in the model is present.
- The repository is an abstract map. `ShoppingCartRepository.java`
  declares `MongoRepository<ShoppingCart, String>` with a `String` key, and
  it does not declare the derived query
  `deleteShoppingCartsByInsertDateTimeIsBefore` that `ShoppingService.java:106`
  calls. The model gives that query its Spring Data meaning: delete every
  cart whose insertDateTime is strictly before the argument. `save` and
  `delete(entity)` are the inherited repository methods. Both work by the
  cart's id. The map gives back exactly what was saved; a MongoDB store
  keeps dates only to the millisecond, so a reloaded snapshot can differ
  from a fresh catalog copy in `createdAt`, `updatedAt` or `reviewDate`,
  and the full-field `distinct` would then keep both. The model assumes a
  lossless round-trip.
- `deleteShoppingCartById` (`ShoppingCartRepository.java:12`) is declared
  but never called by the manager, so it is not modelled. The manager
  deletes through `delete(entity)`, which removes the same document.
- Two requests running at the same time, or a request racing the purge,
  can interleave. There is no coordination in the source, and the model
  runs each operation to completion on its own.
- The methods of `ShoppingService` return the value passed to `save`. Any
  field the database itself might assign is not modelled.
