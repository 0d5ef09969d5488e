# Warehouse management backend: stock ledger, orders, catalogue, access control

A Dafny model of the business core of a small warehouse-management backend
written in Go. The model covers:

- the **stock ledger**: an append-only list of `receipt`, `write_off` and
  `reserve` movements from which every product's stock is derived;
- the **warehouse service**, which checks its input and the current stock
  before it appends a movement;
- the **order lifecycle**: order creation with one automatic reservation
  per item, the status state machine, and the order repository's
  persistence rules (what `Create` and `Update` write, and how orders and
  their status history are read back);
- the validation rules of the **product, category and supplier services**;
- the two **HTTP middlewares** that authenticate a bearer token and gate
  handlers by role.

Everything is a pure function over immutable values:

- A store is a `map` from id to row, and the ledger is a `seq<Movement>`.
- An operation returns an `Outcome`: a `Result` together with the new state.
- The environment enters as parameters:
  - A `Clock` gives the time of day and the text the ids are generated from.
  - A `Faults` set says which store calls fail. The model can therefore say
    exactly which step's failure leaves which writes behind.
    The services pass a failed call's error through unchanged, and every
    service contract names the `Backend(call)` error each failing call
    produces.
  - JWT verification is a function `verify` from the token text to its
    claims.

Modules, one per file:

| module | file | models |
|---|---|---|
| `Base` | base.dfy | time, clock, store-call failures, error values, `Result`/`Outcome`, generated ids |
| `Text` | text.dfy | Go's `strings.TrimSpace`, `strings.EqualFold` against "Bearer", `strings.SplitN(s, " ", 2)` |
| `Sorting` | sorting.dfy | the stable ordering of query results by a timestamp key |
| `Store` | store.dfy | a map-backed table: lookup, insert, replace, remove |
| `StockLedger` | stock_ledger.dfy | `warehouse_repository.go` |
| `Warehouse` | warehouse.dfy | `warehouse_service.go` |
| `OrderModel` | order_model.dfy | `models/order.go` |
| `OrderStore` | order_store.dfy | `order_repository.go` |
| `OrderService` | order_service.dfy | `order_service.go` |
| `Products`, `Categories`, `Suppliers` | products.dfy, categories.dfy, suppliers.dfy | the three catalogue services |
| `Auth` | auth.dfy | `middleware/auth.go` |

Quantities and prices are `real`. A time is an `int`, and `0` plays the
role of Go's zero `time.Time`.

## Model

| member | source | states |
|---|---|---|
| StockLedger.StockIsReceiptsMinusOutflows | backend/src/repositories/warehouse_repository.go:61-82 | a product's stock is its receipt quantities minus its write-off and reserve quantities, over that product's movements only |
| StockLedger.NoMovementsMeansZeroStock | backend/src/repositories/warehouse_repository.go:64-72 | a product with no movements has stock 0, not an error |
| StockLedger.StockOfConcat | backend/src/repositories/warehouse_repository.go:62-72 | the stock of two ledgers joined together is the sum of their stocks |
| StockLedger.StockAfterAppend | backend/src/repositories/warehouse_repository.go:72 | appending a movement changes the stock of its own product by its signed quantity and leaves every other product's stock unchanged |
| StockLedger.StockIgnoresOrder | backend/src/repositories/warehouse_repository.go:63-72 | stock does not depend on the order of the movements: two ledgers with the same multiset of movements give every product the same stock |
| StockLedger.AddMovement | backend/src/repositories/warehouse_repository.go:85-117 | fails exactly when the insert fails, and then leaves the ledger as it was; otherwise the ledger only grows, by the one stored movement. A caller's id and time are kept; an empty id becomes "w-" plus the clock text and a zero time becomes now. No other field is touched. |
| StockLedger.GetInventory | backend/src/repositories/warehouse_repository.go:23-58 | fails exactly when the query fails; otherwise returns one row per product that has a movement, no two rows for the same product, and each row's quantity is that product's stock |
| StockLedger.AccumulateStep | backend/src/repositories/warehouse_repository.go:24-36 | folding one more movement into a correct inventory gives the correct inventory of the longer ledger |
| Warehouse.Receipt | backend/src/services/warehouse_service.go:36-58 | an empty product id or a quantity ≤ 0 is rejected with nothing written. It succeeds exactly when the input is valid and neither the product lookup nor the insert fails, so a product that is merely missing does not stop it. On success it appends exactly one receipt carrying the given product, supplier, quantity, price and expiry. That product's stock rises by the quantity and no other product's stock changes. A failed product lookup, and then a failed insert, is returned as that store call's own error with nothing written. |
| Warehouse.WriteOff | backend/src/services/warehouse_service.go:61-83 | invalid input is rejected with nothing written. Insufficient stock is reported exactly when the stock read succeeds and the stock is below the quantity. Otherwise it appends exactly one write-off, so the stock falls by the quantity and stays ≥ 0; no other product's stock changes. A failed stock read, and then a failed insert, is returned as that store call's own error with nothing written. |
| Warehouse.Reserve | backend/src/services/warehouse_service.go:86-109 | the same as the write-off, but an order id is required too. The one appended movement is a reservation carrying that order id. A failed stock read or insert is returned as that store call's own error. |
| Warehouse.Inventory | backend/src/services/warehouse_service.go:112-114 | returns the repository's aggregation unchanged: a correct inventory of the ledger. A failed query is returned as its own error. |
| Warehouse.CheckedOperationsKeepStockNonNegative | backend/src/services/warehouse_service.go:66-82 | if no product has negative stock, then none has after a receipt, a write-off or a reservation, whatever their outcome |
| Warehouse.WriteOffEverything | backend/src/services/warehouse_service.go:66-73 | withdrawing exactly the current stock succeeds and leaves 0 |
| Warehouse.ReceiptThenWriteOffs | backend/src/services/warehouse_service.go:36-83 | a worked run: receive 100, write off 40, and a write-off of 100 is refused with the stock still 60 |
| OrderModel.NewOrder | backend/src/models/order.go:40-56 | a new order has an empty id, the given customer and items, status "new", one history entry "new", and its creation time, update time and first history time are the same instant. The result is a consistent order: its history is non-empty, in time order, and ends in its status. |
| OrderStore.GetById | backend/src/repositories/order_repository.go:57-78 | fails exactly when the read fails; an absent order is no order and no error; a present one is returned with its items and with its history sorted by time. A failed read is returned as its own error. |
| OrderStore.Hydrate | backend/src/repositories/order_repository.go:216-267 | reading a row back keeps its fields; the history comes back sorted by change time and holds exactly the stored entries |
| OrderStore.Create | backend/src/repositories/order_repository.go:81-151 | an empty id becomes "o-" plus the clock text, and a caller's id is kept. A zero creation time becomes now, and the update time is always now. The order, its items and its whole history are written together, or nothing is written when the insert fails or the key is taken. A failed insert is returned as its own error, and a taken key as a duplicate-key error. |
| OrderStore.Update | backend/src/repositories/order_repository.go:154-213 | fails with "not found" when no row has the id. Otherwise it overwrites only the customer, the status and the update time; the stored items and creation time stay; only the last in-memory history entry is appended to the stored history. No other order changes, and a failure writes nothing. A failed write is returned as its own error. |
| OrderStore.GetAll | backend/src/repositories/order_repository.go:23-54 | fails exactly when the query fails; otherwise lists every stored order exactly once, hydrated, newest first |
| OrderStore.ListOneMore | backend/src/repositories/order_repository.go:39-49 | adding one more order to a newest-first listing keeps it a complete listing of the orders seen so far |
| OrderService.GetOrder | backend/src/services/order_service.go:47-61 | a blank id is invalid and an absent order is not found. It succeeds exactly when the id is non-blank, the read succeeds and the order exists, and it then returns the stored order as read back. A failed read is returned as its own error, not as "not found". |
| OrderService.CheckItems | backend/src/services/order_service.go:71-78 | the item check passes exactly when every item has a product id, a positive quantity and a product lookup that does not fail. A missing product passes. Otherwise the first item, in item order, that fails either test decides the error: "invalid order" when it is malformed, or else the failed lookup of its own product. |
| OrderService.CreateOrder | backend/src/services/order_service.go:64-101 | a blank customer or no items is invalid with nothing written. Otherwise the first item that fails the item check decides the error, with nothing written. An accepted request stores the order for the trimmed customer and reserves its items. A failed order insert is returned as its own error, and a taken order id as a duplicate-key error, both with nothing written. |
| OrderService.CreateOrderWrites | backend/src/services/order_service.go:80-101 | the whole outcome of an accepted order: it is stored with status "new", the trimmed customer and the given items, and then one reservation per item is appended, without any stock check. If a reservation insert fails, that error is returned while the stored order and the earlier reservations remain. |
| OrderService.ReserveItemsAppends | backend/src/services/order_service.go:87-98 | the reservation loop appends, in item order, one reserve movement per item up to the first failing insert, each carrying the order id and the item's quantity |
| OrderService.ReserveItemsReports | backend/src/services/order_service.go:87-98 | the reservation loop succeeds exactly when no insert fails, and otherwise returns the first failing insert's error |
| OrderService.ReservationsLowerStock | backend/src/services/order_service.go:87-98 | when all reservations are written, each product's stock falls by exactly the quantity ordered of it |
| OrderService.CreateOrderLowersStock | backend/src/services/order_service.go:64-101 | an accepted order whose writes all go through succeeds and lowers each product's stock by exactly the quantity ordered of it |
| OrderService.OrderMayOverdrawStock | backend/src/services/order_service.go:86-98 | an order for a product with no stock succeeds and drives that product's stock negative |
| OrderService.UpdateOrderStatus | backend/src/services/order_service.go:104-139 | a blank id is invalid, an absent order is not found, and an order that is neither new nor reserved is refused with a bad-status error; every error writes nothing. It succeeds exactly when the order exists, is open, and neither the read nor the write fails. An open order is changed as `ChangeStatus` says. A failed read, or a failed write of an open order, is returned as that store call's own error. |
| OrderService.ChangeStatus | backend/src/services/order_service.go:126-138 | the status becomes the requested one, whichever it is, and the update time becomes now. The history grows by exactly one trailing entry for that status; items, customer and creation time stay; no other order changes. A failed write changes nothing. A failed write is returned as its own error. |
| OrderService.UpdateKeepsConsistent | backend/src/services/order_service.go:126-132 | a status change of a stored order yields a consistent order |
| OrderService.UpdateThenGetOrder | backend/src/services/order_service.go:104-139 | after a successful change, reading the order back gives the order the change returned, provided no stored entry is later than the change. The stored history need not be in time order: the read-back sort by change time puts the new entry last. |
| OrderService.CompletedOrderIsFinal | backend/src/services/order_service.go:119-124 | once an order is completed, every later status change is refused and writes nothing |
| OrderService.ListOrders | backend/src/services/order_service.go:42-44 | fails exactly when the query fails. Otherwise every stored order appears, no id appears twice, and the list has as many entries as the store has orders; each entry is the order as read back by id, and the list is newest first. A failed query is returned as its own error. |
| Products.GetProduct | backend/src/services/product_service.go:42-51 | succeeds exactly when the read succeeds and the product exists, and returns it. An absent product gives "product not found". A failed read is returned as its own error. |
| Products.CreateProduct | backend/src/services/product_service.go:54-86 | a blank SKU, name or category is invalid and an SKU already in use is refused, both with nothing written. It succeeds exactly when the three fields are non-blank, the SKU lookup succeeds and finds no product, the new "p-" id is free and the insert succeeds. A created product gets a fresh "p-" id and stores the trimmed SKU, name and category; description, supplier and unit are stored as given. A failed SKU lookup, a failed insert and a taken id are each returned as that store error. |
| Products.UpdateProduct | backend/src/services/product_service.go:89-135 | a blank id is invalid and an absent product is not found, both checked before the fields. SKU uniqueness is checked only when the SKU changes, so keeping its own SKU is never refused. It succeeds exactly when the id is non-blank, the product is found, the three fields are non-blank, a changed SKU is looked up without error and is free, and the update succeeds. A success overwrites the six editable fields and keeps the id and creation time. A failed product read, a failed lookup of a changed SKU and a failed update are each returned as that store call's own error. |
| Products.DeleteProduct | backend/src/services/product_service.go:138-145 | a blank id is invalid. It succeeds exactly when the product exists and the delete succeeds, and it then removes just that product. A failed delete is returned as its own error, and an absent row as the store's "not found" error. |
| Products.CreateProductKeepsSkusUnique | backend/src/services/product_service.go:64-70 | if no two products share an SKU, this still holds after a create |
| Products.UpdateProductKeepsSkusUnique | backend/src/services/product_service.go:112-120 | if no two products share an SKU, this still holds after an update |
| Products.CreateThenGetProduct | backend/src/services/product_service.go:42-86 | a created product can be read back by its id |
| Products.DeleteThenGetProduct | backend/src/services/product_service.go:42-51 | a deleted product is not found afterwards |
| Categories.GetCategory | backend/src/services/category_service.go:39-53 | a blank id is invalid and an absent category is not found. It succeeds exactly when the category exists and the read succeeds, and it then returns it. A failed read is returned as its own error. |
| Categories.CreateCategory | backend/src/services/category_service.go:56-70 | a blank name is invalid with nothing written; a created category stores the trimmed name under a fresh "c-" id. It succeeds exactly when the name is non-blank, the id is free and the insert succeeds. A failed insert is returned as its own error, and a taken id as a duplicate-key error. |
| Categories.UpdateCategory | backend/src/services/category_service.go:73-99 | a blank id is invalid and an absent category is not found, both checked before the name. A success changes only the name and the update time. A failed read and a failed update are each returned as that store call's own error. |
| Categories.DeleteCategory | backend/src/services/category_service.go:102-109 | a blank id is invalid; a success removes just that category. A failed delete is returned as its own error, and an absent row as the store's "not found" error. |
| Categories.CreateThenGetCategory | backend/src/services/category_service.go:39-70 | a created category can be read back by its id |
| Categories.UpdateThenGetCategory | backend/src/services/category_service.go:39-99 | an updated category reads back with the new name |
| Categories.DeleteThenGetCategory | backend/src/services/category_service.go:39-109 | a deleted category is not found afterwards |
| Suppliers.GetSupplier | backend/src/services/supplier_service.go:39-53 | a blank id is invalid and an absent supplier is not found. It succeeds exactly when the supplier exists and the read succeeds. A failed read is returned as its own error. |
| Suppliers.CreateSupplier | backend/src/services/supplier_service.go:56-73 | all four fields are trimmed and a blank name is invalid; a created supplier gets a fresh "s-" id. It succeeds exactly when the name is non-blank, the id is free and the insert succeeds. A failed insert is returned as its own error, and a taken id as a duplicate-key error. |
| Suppliers.UpdateSupplier | backend/src/services/supplier_service.go:76-109 | a blank id is invalid and an absent supplier is not found, both checked before the name; a success stores the four trimmed fields and keeps the id. A failed read and a failed update are each returned as that store call's own error. |
| Suppliers.DeleteSupplier | backend/src/services/supplier_service.go:112-119 | a blank id is invalid; a success removes just that supplier. A failed delete is returned as its own error, and an absent row as the store's "not found" error. |
| Suppliers.WritesStoreNormalizedSuppliers | backend/src/services/supplier_service.go:57-102 | every supplier a create or an update writes has a non-blank name and no surrounding white space in any field |
| Suppliers.CreateThenGetSupplier | backend/src/services/supplier_service.go:39-73 | a created supplier can be read back by its id |
| Suppliers.DeleteThenGetSupplier | backend/src/services/supplier_service.go:39-119 | a deleted supplier is not found afterwards |
| Auth.BearerToken | backend/src/middleware/auth.go:45-51 | a token is found exactly when the header splits at its first space and the part before it is "Bearer" in some letter case; the token is the rest, trimmed |
| Auth.Authenticate | backend/src/middleware/auth.go:31-83 | OPTIONS passes untouched; a missing header, a bad format, an empty token, a token that fails verification ("invalid or expired token") and claims without a user id ("invalid token payload") each give 401 with their own message, and every denial is a 401. The request is forwarded exactly when the token verifies and names a user. The forwarded request carries the user id, and carries the role only when it is non-empty. |
| Auth.Authorize | backend/src/middleware/auth.go:87-111 | forwards the request unchanged or denies with 403 "access denied". It forwards exactly for OPTIONS or a non-empty role in the allowed list. |
| Auth.BearerTokenOfHeader | backend/src/middleware/auth.go:45-55 | a header made of the scheme in any letter case, one space and a token with no surrounding white space yields that token; spaces inside the token are kept, because only the first space splits the header |
| Auth.AuthenticatedRoles | backend/src/middleware/auth.go:31-111 | a fresh request passes both middlewares exactly when its token verifies to a user with a non-empty allowed role |
| Auth.ValidBearerGetsThrough | backend/src/middleware/auth.go:31-111 | a well-formed bearer request with such a token reaches the handler with the user id and role in its context |
| Text.TrimSpaceEmptyIffBlank | backend/src/services/order_service.go:65-66 | the services' "empty after trimming" test holds exactly for strings made only of white space |
| Text.GeneratedIdIsTrimmed | backend/src/repositories/order_repository.go:82-84 | a generated id has no surrounding white space, so the trimming lookups find it again |

## Left out

- Database I/O, transactions as such, SQL text, and the 3–5 second
  context timeouts. A store is a map, and a failing call is named in the
  `Faults` set instead of being raised by a driver.
- Concurrency. Between its stock read and its append, a concurrent
  write-off or reservation can pass the same sufficiency check, so stock
  can go negative. The model is sequential and does not show this race.
- JWT parsing, signature and expiry checking: an oracle `verify` from the
  token text to the claims. A token that fails verification is `None`.
- The clock and id generation: each operation reads one `Clock`. Ids are a
  prefix plus the clock's text. Ids that collide because two calls read the
  same instant are not modelled. Every reservation of one `CreateOrder`
  gets the same movement id text, because the model gives the whole
  operation one clock reading.
- Floating-point arithmetic: quantities are exact `real` values.
- The order of history entries with equal change times. The database
  leaves it unspecified; the model keeps insertion order (a stable sort).
- `ListProducts`, `ListCategories` and `ListSuppliers`: each only returns
  the repository's `GetAll`. These repositories are plain SQL CRUD and are
  not part of this model.
- The HTTP controllers, the router, CORS and logging middleware, the
  authentication service (password hashing and token signing), the
  database schema and its foreign keys, and the frontend.
- The category repository reads a `parent_id` column that the schema
  does not define. That repository is not part of this model. As shipped,
  every category lookup by id therefore fails, and so does
  `UpdateCategory`, which looks the category up first. `Categories.GetCategory`,
  `Categories.UpdateCategory` and `Categories.CreateThenGetCategory` model a
  repository whose lookup works.
- The order of an order's items when it is read back. The items query
  has no `ORDER BY`, so the source promises no order. The model returns
  the items in the order they were stored. Nothing in the model depends
  on that order, because ordered quantities are sums.
- A missing product is not rejected. `Receipt` and `CreateOrder` stop
  only on a store error from the product lookup.
- `AddMovement` does not check the quantity.
- OrderService.ReserveItemsAppends: states the appended movements with the
  shared movement id text noted above, rather than one fresh id per
  movement.
