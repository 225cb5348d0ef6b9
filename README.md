# Flea market: seller and product bookkeeping

A model of the service layer of a small marketplace backend. Sellers have unique names. Each
seller lists products, and product names are unique within one seller's list. `SellerService`
enforces both rules by checking first and then changing the store. `ProductService` maps a
product id back to its owning seller.

The two JPA repositories are replaced by an in-memory store, the class `SellerService.Store`:

- `sellers`: the seller rows in storage order. Each row has an id, a name and an ordered list of product ids.
- `products`: the product table. It maps an id to a row with that id, a name and the owning seller's id.
- two counters for the ids the database would generate next.

`Store.Valid()` is the structure the JPA mapping keeps:
- seller ids are distinct, and every seller id and product owner was handed out before;
- each product row sits under its own id;
- each id in a seller's list has a row whose owner is that seller;
- each seller's list holds every row whose owner is that seller, each exactly once. The list is the `mappedBy` side of the product's `seller_id` column (Seller.java:25-28, Product.java:22-24), so it is determined by the product rows up to order.

`Store.NamesUnique()` holds the two uniqueness rules. Every method keeps `Valid()`. Every method
keeps `NamesUnique()` when it held before.

Java exceptions become values. `Errors.Error` has one constructor per error message the services
throw (seven messages over five exception classes), and each carries the name or id the message
is formatted with. `Error.Kind()` gives the
kind the exception handler reports it as: `NotFound` (404), `InvalidArgument` (400) or
`Conflict` (409). Void service methods return an `Outcome` and queries return a `Result`. A
failure always leaves the store unchanged.

Modules:
- `errors.dfy`: the error values.
- `java_string.dfy`: `String.trim()` and the `trim().isEmpty()` blankness test.
- `market.dfy`: the entities, the repository queries, the invariants, and value-level lemmas showing that each state change keeps them.
- `seller_service.dfy`: the store and the service methods.
- `product_service.dfy`: the reverse lookup.
- `scenarios.dfy`: seller tests of the service, replayed against the contracts. Each promises what the service code does; where a test expects something else, the scenario says so.

Modelling decisions:
- `Seller.getProduct(name)` and `Seller.addProduct(p)` are called by the service but are not declared in `Seller.java`. Lombok generates only the accessors there. They are modelled as "the first product in the list with that exact name, else none" (`Market.IndexOfProduct`) and as "append at the end". `SellerServiceTest.java` relies on both: the new product sits at index 1 after one existing product.
- A blank name is one for which `trim().isEmpty()` holds (`JavaString.IsBlank`). `JavaString.Trim` follows `String.trim()`: it drops leading and trailing characters whose code is at most U+0020. `BlankIffAllTrimmed` proves that a name is blank exactly when all its characters are such characters.
- Two behaviours of the source are easy to miss:
  - `deleteSeller` does not cascade. `Seller.products` cascades DETACH, REFRESH, MERGE and PERSIST, but not REMOVE. `deleteSeller` itself only calls `delete` on the seller. The model removes only the seller row, and its product rows stay in the table; what the database does in that case is under "Left out".
  - Renaming a seller or a product to its own current name is a `Conflict`. The existence check also finds the renamed entry itself.
  - `deleteProduct` deletes one row. `removeIf` drops every entry of the name from the loaded list (SellerService.java:153-155), but only the first one's row is deleted (:156), and saving the seller does not write the list, which is mapped by the product's `seller_id`. So the stored list loses only the deleted row's entry: `Store.DeleteProduct` cuts that entry out. With unique names, which every operation keeps, this is the list `removeIf` leaves (`Market.RemoveUniqueName`).

## Model

| member | source | states |
|---|---|---|
| `JavaString.LeadingRun` | fleaMarket/src/main/java/com/fleamarket/service/SellerService.java:69 | the first loop of `trim()`: the leading run it skips is made of characters at most U+0020 and is maximal, so the character after it, if any, is kept |
| `JavaString.TrailingRun` | fleaMarket/src/main/java/com/fleamarket/service/SellerService.java:69 | the second loop of `trim()`: the trailing run it skips is made of characters at most U+0020 and is maximal, so the character before it, if any, is kept |
| `JavaString.TrimStart` | fleaMarket/src/main/java/com/fleamarket/service/SellerService.java:69 | the result is a suffix of the input; every dropped character is at most U+0020; the result is empty or starts with a kept character |
| `JavaString.TrimEnd` | fleaMarket/src/main/java/com/fleamarket/service/SellerService.java:91 | the result is a prefix of the input; every dropped character is at most U+0020; the result is empty or ends with a kept character |
| `JavaString.Trim` | fleaMarket/src/main/java/com/fleamarket/service/SellerService.java:125 | `trim()` returns the infix of the input left once only characters at most U+0020 are dropped from its start and its end; what it returns is empty or neither starts nor ends with such a character |
| `JavaString.IsBlank` | fleaMarket/src/main/java/com/fleamarket/service/SellerService.java:69 | `trim().isEmpty()` holds exactly when dropping the leading characters at most U+0020 already leaves nothing |
| `JavaString.BlankIffAllTrimmed` | fleaMarket/src/main/java/com/fleamarket/service/SellerService.java:173 | `trim().isEmpty()` holds exactly when every character of the name is at most U+0020 |
| `Market.SellerExists` | fleaMarket/src/main/java/com/fleamarket/dao/SellerRepository.java:12 | `existsSellerBySellerName`: true exactly when the name is among the stored sellers' names |
| `Errors.Error.Kind` | fleaMarket/src/main/java/com/fleamarket/exception/ControllerExceptionHandler.java:18-58 | the handler's grouping: the three not-found errors are NotFound (404), the two empty-parameter errors InvalidArgument (400), the two taken errors Conflict (409), each in both directions |
| `Market.IndexOfSeller` | fleaMarket/src/main/java/com/fleamarket/dao/SellerRepository.java:10 | finds a seller with exactly that name, and the first one; finds none exactly when no seller has the name |
| `Market.IndexOfProduct` | fleaMarket/src/main/java/com/fleamarket/service/SellerService.java:128 | `getProduct`: the first entry of the seller's list whose product has that name; none exactly when no entry has it |
| `Market.ProductsOf` | fleaMarket/src/main/java/com/fleamarket/service/SellerService.java:111 | the product rows of a list, one per entry and in list order |
| `Market.RemoveNamed` | fleaMarket/src/main/java/com/fleamarket/service/SellerService.java:153-155 | `removeIf`: what stays is exactly the entries whose product name differs from the removed name |
| `Market.RemoveNamedAppend` | fleaMarket/src/main/java/com/fleamarket/service/SellerService.java:153-155 | `removeIf` keeps the relative order of the remaining products: it distributes over concatenation |
| `Market.RemoveAbsentName` | fleaMarket/src/main/java/com/fleamarket/service/SellerService.java:153-155 | removing a name no entry carries leaves the list unchanged |
| `Market.RemoveUniqueName` | fleaMarket/src/main/java/com/fleamarket/service/SellerService.java:149-155 | when the list's names are unique, removing the name found at position k removes exactly that entry |
| `Market.ListedByOneSeller` | fleaMarket/src/main/java/com/fleamarket/model/entity/Product.java:22-25 | in a consistent store, a product appears in the list of one seller only: the one its seller column names |
| `Market.AddSellerKeepsInvariants` | fleaMarket/src/main/java/com/fleamarket/service/SellerService.java:72-77 | appending a seller under the next id keeps the store consistent (no row points to that id yet) and every id below the counters, and keeps names unique when the name was not taken |
| `Market.RemoveSellerKeepsInvariants` | fleaMarket/src/main/java/com/fleamarket/service/SellerService.java:56-59 | dropping one seller row keeps the store consistent and the names unique, though its product rows stay |
| `Market.RenameSellerKeepsInvariants` | fleaMarket/src/main/java/com/fleamarket/service/SellerService.java:94-99 | renaming a seller keeps the store consistent, and keeps seller names unique when the new name was not taken |
| `Market.AddProductKeepsInvariants` | fleaMarket/src/main/java/com/fleamarket/service/SellerService.java:128-136 | a new row under an unused id appended to one seller's list keeps the store consistent, and keeps product names unique when the seller did not list that name |
| `Market.DeleteFromOwnList` | fleaMarket/src/main/java/com/fleamarket/service/SellerService.java:156 | once the found row is deleted, the seller's list without that entry is again exactly the rows that point to the seller, each once |
| `Market.DeleteKeepsNamesUnique` | fleaMarket/src/main/java/com/fleamarket/service/SellerService.java:149-156 | a list with unique names still has unique names after the delete |
| `Market.DeleteProductKeepsInvariants` | fleaMarket/src/main/java/com/fleamarket/service/SellerService.java:147-158 | deleteProduct's change keeps the whole store consistent, both directions of the seller_id mapping included, and keeps both rules when they held |
| `Market.RenameProductKeepsInvariants` | fleaMarket/src/main/java/com/fleamarket/service/SellerService.java:177-184 | renaming a listed product keeps the store consistent, and keeps both rules when the seller did not list the new name |
| `ProductService.GetSellerByProductId` | fleaMarket/src/main/java/com/fleamarket/service/ProductService.java:28-36 | succeeds exactly when a product row has the id and then returns that row's owner; otherwise fails with a NotFound naming the requested id; being a function it changes nothing |
| `ProductService.LookupFindsListingSeller` | fleaMarket/src/main/java/com/fleamarket/service/ProductService.java:35 | in a consistent store, every product a seller lists looks up to that seller |
| `ProductService.LookupIffListed` | fleaMarket/src/main/java/com/fleamarket/model/entity/Seller.java:25-28 | in a consistent store, an id looks up to a stored seller exactly when that seller lists it: the list is the `mappedBy` side of the lookup's column |
| `ProductService.LookupIgnoresRename` | fleaMarket/src/main/java/com/fleamarket/service/SellerService.java:183 | renaming a product row changes the lookup's answer for no id |
| `ProductService.LookupAfterDelete` | fleaMarket/src/main/java/com/fleamarket/service/SellerService.java:156 | once its row is deleted the id is NotFound; every other id answers as before |
| `SellerService.Store.AllSellers` | fleaMarket/src/main/java/com/fleamarket/service/SellerService.java:46-48 | every stored seller, in storage order, with nothing filtered |
| `SellerService.Store.FindSeller` | fleaMarket/src/main/java/com/fleamarket/service/SellerService.java:196-201 | the first seller with exactly that name; fails exactly when no seller has it, with a SellerNotFound naming it |
| `SellerService.Store.AllProducts` | fleaMarket/src/main/java/com/fleamarket/service/SellerService.java:109-112 | NotFound exactly when no seller has the name; otherwise that seller's product rows in list order, each with its listed id and pointing back to the seller |
| `SellerService.Store.CreateSeller` | fleaMarket/src/main/java/com/fleamarket/service/SellerService.java:68-78 | InvalidArgument for a blank name first, then Conflict for a taken name, with the store unchanged; otherwise one seller is appended with a fresh id, the name and no products, and nothing else changes; the rules are kept |
| `SellerService.Store.DeleteSeller` | fleaMarket/src/main/java/com/fleamarket/service/SellerService.java:56-59 | NotFound exactly when no seller has the name, with the store unchanged; otherwise exactly that seller row is removed and the product table is untouched; with unique names no seller of that name is left |
| `SellerService.Store.ChangeSellerName` | fleaMarket/src/main/java/com/fleamarket/service/SellerService.java:89-100 | NotFound for the old name, then InvalidArgument for a blank new name, then Conflict if any seller (the renamed one included) has the new name, with the store unchanged; otherwise only that seller's name changes, and its id and product list stay |
| `SellerService.Store.AddProductToSeller` | fleaMarket/src/main/java/com/fleamarket/service/SellerService.java:123-137 | NotFound seller, then InvalidArgument blank name, then Conflict if the seller lists the name, with the store unchanged; otherwise a new row under a fresh id with the name and this seller as owner, appended last to this seller's list only |
| `SellerService.Store.DeleteProduct` | fleaMarket/src/main/java/com/fleamarket/service/SellerService.java:147-158 | NotFound seller, then NotFound product, with the store unchanged; otherwise the first product of that name has its row deleted and its entry cut out of the seller's list, the rest keeping their order; with unique names this is exactly the list `removeIf` leaves |
| `SellerService.Store.ChangeProduct` | fleaMarket/src/main/java/com/fleamarket/service/SellerService.java:171-188 | NotFound seller, then InvalidArgument blank new name, then NotFound old product, then Conflict if the new name is listed (the old product's own name included), with the store unchanged; otherwise only the found row's name changes; no product's owner lookup ever changes |
| `Scenarios.CreateSellerTwice` | fleaMarket/src/test/java/market/fleaMarket/service/SellerServiceTest.java:94-111 | creating a seller succeeds, and creating it again is a Conflict naming it |
| `Scenarios.CreateBlankSeller` | fleaMarket/src/test/java/market/fleaMarket/service/SellerServiceTest.java:112-121 | creating a seller named by two spaces, or by the empty string, is InvalidArgument |
| `Scenarios.ChangeMissingSeller` | fleaMarket/src/test/java/market/fleaMarket/service/SellerServiceTest.java:150-160 | renaming a seller nobody has is NotFound naming the old name |
| `Scenarios.ChangeSellerToOwnName` | fleaMarket/src/main/java/com/fleamarket/service/SellerService.java:94-95 | renaming a seller to its own current name is a Conflict, as the service code does; the test at SellerServiceTest.java:170-172 expects an IllegalArgumentException instead |
| `Scenarios.DeleteThenListProducts` | fleaMarket/src/test/java/market/fleaMarket/service/SellerServiceTest.java:131-136 | deleting an existing seller succeeds (as at SellerServiceTest.java:73-81), after which listing its products is NotFound, as for any missing seller |

## Left out

- HTTP controllers, the exception handler's status mapping and logging, and the `ResponseError` body with its clock timestamp. Only the error kind the handler reports is kept, as `Error.Kind()`.
- Message texts. Each error carries only the name or id its message is formatted with.
- Transactions and concurrency: each service call is one atomic step on the store.
- Database comparison rules: names are compared exactly, with no collation or case folding.
- Id width: identities are unbounded integers, starting at 1 and growing by one, where the database uses 64-bit `Long` identity columns.
- Seller.products of a new seller: `new Seller()` leaves the list `null` until the seller is reloaded; the model gives a new seller an empty list.
- Market.IndexOfSeller: takes the first seller with the name. The Spring Data query would fail if two sellers shared a name. No operation lets that happen from a store whose names are unique.
- ProductService.GetSellerByProductId: returns the owner's id instead of the `Seller` entity. For a product row whose seller was deleted, the model answers with an id that names no stored seller. The Java stack would not answer at all: either the delete was refused, or the eager fetch of the missing seller fails (see the next line).
- SellerService.Store.DeleteSeller: does not model deleting a seller that still lists products. `Seller.products` is mapped by the `seller_id` column of the product table (Seller.java:26, Product.java:23-24). With the foreign key on that column the database refuses the delete at flush, and the call fails through the handler for any runtime exception. Without it, a later lookup of one of those products fails when it fetches the missing seller. The model instead lets the delete pass, keeps the product rows, and answers their lookups with the deleted seller's id.
- Null arguments: every service argument is assumed non-null. The controllers bind `newUsername`, `seller` and `newProductName` without `@RequestParam` (SellerController.java:44, 49, 54, 59), so a missing one arrives as `null`. Then `trim()` on `newUsername` or `newProductName` throws a NullPointerException, reported as an internal error (SellerService.java:91, 173). A null `seller` fails before that (SellerService.java:124): `findSeller(null)` fails with a SellerNotFound naming "null". Neither path is modelled.
- The product-side service tests (adding, renaming and deleting products) are not replayed as scenarios. Their outcomes follow from the contracts of the store methods.
