/** The order service of `order_service.go`: order creation with one
    reservation movement per item, and the status state machine. */
module OrderService {
  import opened Base
  import opened Text
  import opened Sorting
  import opened StockLedger
  import opened OrderModel
  import OrderStore
  import Store
  import Products

  /** The two stores order creation writes: the order table and the stock
      ledger. They are separate stores with no shared transaction. */
  datatype Books = Books(orders: OrderStore.OrderTable, ledger: Ledger)

  predicate ValidItem(it: OrderItem) {
    it.productId != "" && it.quantity > 0.0
  }

  /** An item gets through the check loop: it is well formed and its
      product lookup does not fail. */
  predicate PassesCheck(it: OrderItem, faults: Faults) {
    ValidItem(it) && Select(ProductRows, it.productId) !in faults
  }

  /** The error the check loop returns at an item that does not pass: the
      shape test comes first, then the lookup's own error. */
  function CheckError(it: OrderItem): Error {
    if !ValidItem(it) then InvalidOrder else Backend(Select(ProductRows, it.productId))
  }

  /** Item `k` is the first one that does not pass the check loop. */
  predicate FirstFailing(items: seq<OrderItem>, faults: Faults, k: int) {
    && 0 <= k < |items| && !PassesCheck(items[k], faults)
    && forall i :: 0 <= i < k ==> PassesCheck(items[i], faults)
  }

  /** The item loop of `CreateOrder` before anything is written: the first
      item that is malformed gives `InvalidOrder`, the first product lookup
      that fails gives its error, in item order. A product that is simply
      not in the store passes. */
  function CheckItems(products: map<string, Products.Product>, items: seq<OrderItem>, faults: Faults): (e: Option<Error>)
    ensures e.None? <==> forall i :: 0 <= i < |items| ==>
      ValidItem(items[i]) && Select(ProductRows, items[i].productId) !in faults
    ensures forall k :: FirstFailing(items, faults, k) ==> e == Some(CheckError(items[k]))
    ensures e.Some? ==> e.value == InvalidOrder || (e.value.Backend? && e.value.call.Select?)
    ensures (forall i :: 0 <= i < |items| ==> ValidItem(items[i])) ==> e.None? || e.value.Backend?
    ensures (forall i :: 0 <= i < |items| ==> Select(ProductRows, items[i].productId) !in faults) ==>
      e.None? || e.value == InvalidOrder
  {
    if |items| == 0 then None
    else if !ValidItem(items[0]) then Some(InvalidOrder)
    else
      var found := Store.Get(products, ProductRows, items[0].productId, faults);
      if found.Err? then Some(found.error)
      else
        var rest := CheckItems(products, items[1..], faults);
        assert forall i :: 1 <= i < |items| ==> items[i] == items[1..][i - 1];
        assert forall k :: FirstFailing(items, faults, k) ==> k > 0 && FirstFailing(items[1..], faults, k - 1);
        rest
  }

  /** The reservation movement `CreateOrder` writes for one item, as the
      ledger stores it: no supplier, no price, no expiry. */
  function ReservationOf(orderId: string, it: OrderItem, clock: Clock): (m: Movement)
    ensures m.kind == MovementType.Reserve && m.productId == it.productId && m.orderId == orderId
    ensures m.quantity == it.quantity && m.id == "w-" + clock.stamp && m.createdAt == clock.now
  {
    Movement("w-" + clock.stamp, MovementType.Reserve, it.productId, "", orderId, it.quantity, 0.0, None, clock.now)
  }

  /** The reservations for a run of items, in item order. */
  function Reservations(orderId: string, items: seq<OrderItem>, clock: Clock): (ms: seq<Movement>)
    ensures |ms| == |items|
    ensures forall j {:trigger ms[j]} :: 0 <= j < |items| ==> ms[j] == ReservationOf(orderId, items[j], clock)
  {
    if |items| == 0 then [] else [ReservationOf(orderId, items[0], clock)] + Reservations(orderId, items[1..], clock)
  }

  /** How many of `count` consecutive inserts, starting with the `n`-th,
      go through before the first one that fails. */
  function InsertsBeforeFailure(faults: Faults, n: nat, count: nat): (d: nat)
    ensures d <= count
    ensures forall k :: n <= k < n + d ==> Insert(MovementRows, k) !in faults
    ensures d < count ==> Insert(MovementRows, n + d) in faults
    decreases count
  {
    if count == 0 || Insert(MovementRows, n) in faults then 0
    else 1 + InsertsBeforeFailure(faults, n + 1, count - 1)
  }

  /** The reservation `CreateOrder` hands to the ledger, before the ledger
      fills in its id. */
  function BlankReservation(orderId: string, it: OrderItem, clock: Clock): Movement {
    Movement("", MovementType.Reserve, it.productId, "", orderId, it.quantity, 0.0, None, clock.now)
  }

  lemma AddReservation(l: Ledger, orderId: string, it: OrderItem, n: nat, clock: Clock, faults: Faults)
    ensures AddMovement(l, BlankReservation(orderId, it, clock), n, clock, faults) ==
      if Insert(MovementRows, n) in faults then Outcome(Err(Backend(Insert(MovementRows, n))), l)
      else Outcome(Ok(ReservationOf(orderId, it, clock)), l + [ReservationOf(orderId, it, clock)])
  {
  }

  lemma ReservationsStep(l: Ledger, orderId: string, items: seq<OrderItem>, d: nat, clock: Clock)
    requires d < |items|
    ensures (l + [ReservationOf(orderId, items[0], clock)]) + Reservations(orderId, items[1..][..d], clock)
         == l + Reservations(orderId, items[..d + 1], clock)
  {
    assert items[..d + 1][1..] == items[1..][..d];
  }

  /** Appends one reservation per item, in item order, with no sufficiency
      check; the `n`-th append of the operation is the `n`-th insert. The
      first failing append stops the loop and is reported; the reservations
      already appended stay. */
  function ReserveItems(l: Ledger, orderId: string, items: seq<OrderItem>, n: nat, clock: Clock, faults: Faults): Outcome<(), Ledger>
    decreases |items|
  {
    if |items| == 0 then Outcome(Ok(()), l)
    else
      var added := AddMovement(l, BlankReservation(orderId, items[0], clock), n, clock, faults);
      if added.result.Err? then Outcome(Err(added.result.error), l)
      else ReserveItems(added.state, orderId, items[1..], n + 1, clock, faults)
  }

  /** `ReserveItems` appends the reservations of exactly the items whose
      inserts went through before the first failing one, in item order. */
  lemma {:induction false} ReserveItemsAppends(l: Ledger, orderId: string, items: seq<OrderItem>, n: nat, clock: Clock, faults: Faults)
    ensures ReserveItems(l, orderId, items, n, clock, faults).state
         == l + Reservations(orderId, items[..InsertsBeforeFailure(faults, n, |items|)], clock)
    decreases |items|
  {
    if |items| == 0 {
      assert items[..0] == [];
    } else {
      AddReservation(l, orderId, items[0], n, clock, faults);
      if Insert(MovementRows, n) in faults {
        assert items[..0] == [];
      } else {
        var next := l + [ReservationOf(orderId, items[0], clock)];
        ReserveItemsAppends(next, orderId, items[1..], n + 1, clock, faults);
        ReservationsStep(l, orderId, items, InsertsBeforeFailure(faults, n + 1, |items| - 1), clock);
      }
    }
  }

  /** `ReserveItems` succeeds exactly when every one of its inserts does,
      and otherwise reports the first insert that failed. */
  lemma {:induction false} ReserveItemsReports(l: Ledger, orderId: string, items: seq<OrderItem>, n: nat, clock: Clock, faults: Faults)
    ensures var d := InsertsBeforeFailure(faults, n, |items|);
      ReserveItems(l, orderId, items, n, clock, faults).result ==
        if d == |items| then Ok(()) else Err(Backend(Insert(MovementRows, n + d)))
    decreases |items|
  {
    if |items| > 0 {
      AddReservation(l, orderId, items[0], n, clock, faults);
      if Insert(MovementRows, n) !in faults {
        ReserveItemsReports(l + [ReservationOf(orderId, items[0], clock)], orderId, items[1..], n + 1, clock, faults);
      }
    }
  }

  /** On success the reservations lower each product's stock by exactly
      the quantity ordered of it. */
  lemma {:induction false} ReservationsLowerStock(l: Ledger, orderId: string, items: seq<OrderItem>, n: nat,
                                                  clock: Clock, faults: Faults, p: string)
    requires ReserveItems(l, orderId, items, n, clock, faults).result.Ok?
    ensures StockOf(ReserveItems(l, orderId, items, n, clock, faults).state, p) == StockOf(l, p) - OrderedQuantity(items, p)
    decreases |items|
  {
    if |items| > 0 {
      var m := Movement("", MovementType.Reserve, items[0].productId, "", orderId, items[0].quantity, 0.0, None, clock.now);
      var added := AddMovement(l, m, n, clock, faults);
      StockAfterAppend(l, added.result.value, p);
      ReservationsLowerStock(added.state, orderId, items[1..], n + 1, clock, faults, p);
    }
  }

  /** The row `CreateOrder` stores: status "new" under the generated id,
      created and updated now, with one history entry for "new". */
  function StoredOrder(customer: string, items: seq<OrderItem>, clock: Clock): Order {
    Order("o-" + clock.stamp, customer, StatusNew, items, clock.now, clock.now, [StatusEntry(StatusNew, clock.now)])
  }

  /** The writing half of `CreateOrder`, once the input has passed: store
      the order, then reserve its items. */
  function Place(books: Books, customer: string, items: seq<OrderItem>, clock: Clock, faults: Faults): (r: Outcome<Order, Books>)
    ensures r.state.orders == books.orders ==> r.state.ledger == books.ledger && r.result.Err?
    ensures r.state.orders != books.orders <==> Insert(OrderRows, 0) !in faults && "o-" + clock.stamp !in books.orders
    ensures Insert(OrderRows, 0) in faults ==> r == Outcome(Err(Backend(Insert(OrderRows, 0))), books)
    ensures Insert(OrderRows, 0) !in faults && "o-" + clock.stamp in books.orders ==>
      r == Outcome(Err(DuplicateKey(OrderRows, "o-" + clock.stamp)), books)
  {
    var created := OrderStore.Create(books.orders, NewOrder(customer, items, clock.now), clock, faults);
    if created.result.Err? then Outcome(Err(created.result.error), books)
    else
      var o := created.result.value;
      var reserved := ReserveItems(books.ledger, o.id, o.items, 0, clock, faults);
      assert created.state != books.orders;
      Outcome(if reserved.result.Ok? then Ok(o) else Err(reserved.result.error), Books(created.state, reserved.state))
  }

  /** Once the order row is written, the ledger gains the reservations of
      the items whose inserts went through, and the operation succeeds with
      the stored order exactly when all of them did. */
  lemma PlaceWrites(books: Books, customer: string, items: seq<OrderItem>, clock: Clock, faults: Faults)
    requires Insert(OrderRows, 0) !in faults && "o-" + clock.stamp !in books.orders
    ensures var r := Place(books, customer, items, clock, faults);
      var o, d := StoredOrder(customer, items, clock), InsertsBeforeFailure(faults, 0, |items|);
      && r.state == Books(books.orders[o.id := o], books.ledger + Reservations(o.id, items[..d], clock))
      && r.result == if d == |items| then Ok(o) else Err(Backend(Insert(MovementRows, d)))
  {
    var id := "o-" + clock.stamp;
    ReserveItemsAppends(books.ledger, id, items, 0, clock, faults);
    ReserveItemsReports(books.ledger, id, items, 0, clock, faults);
  }

  /** The input `CreateOrder` accepts before writing anything. */
  predicate Accepted(customer: string, items: seq<OrderItem>, faults: Faults) {
    && TrimSpace(customer) != "" && |items| > 0
    && forall i :: 0 <= i < |items| ==> ValidItem(items[i]) && Select(ProductRows, items[i].productId) !in faults
  }

  /** `CreateOrder`: a blank (after trimming) customer or an empty item list,
      or any malformed item, is `InvalidOrder` before anything is written; a
      failing product lookup aborts, a missing product does not. The order is
      stored as "new" with the trimmed customer, then one reservation per
      item is appended with no sufficiency check. A failing reservation is
      reported, but the stored order and the earlier reservations remain. */
  function CreateOrder(books: Books, products: map<string, Products.Product>, customer: string, items: seq<OrderItem>,
                       clock: Clock, faults: Faults): (r: Outcome<Order, Books>)
    ensures TrimSpace(customer) == "" || |items| == 0 ==> r == Outcome(Err(InvalidOrder), books)
    ensures ((exists i :: 0 <= i < |items| && !ValidItem(items[i])) &&
             (forall i :: 0 <= i < |items| ==> Select(ProductRows, items[i].productId) !in faults)) ==>
      r == Outcome(Err(InvalidOrder), books)
    ensures !Accepted(customer, items, faults) ==> r.state == books && r.result.Err?
    ensures TrimSpace(customer) != "" ==>
      forall k :: FirstFailing(items, faults, k) ==> r == Outcome(Err(CheckError(items[k])), books)
    ensures Accepted(customer, items, faults) ==> r == Place(books, TrimSpace(customer), items, clock, faults)
  {
    var customer := TrimSpace(customer);
    if customer == "" || |items| == 0 then Outcome(Err(InvalidOrder), books)
    else
      var bad := CheckItems(products, items, faults);
      if bad.Some? then Outcome(Err(bad.value), books)
      else Place(books, customer, items, clock, faults)
  }

  /** What a created order leaves behind, whatever the faults: nothing when
      the input is rejected or the order row cannot be written; otherwise
      the "new" order with the trimmed customer, and the reservations of the
      items up to the first failing insert. */
  lemma CreateOrderWrites(books: Books, products: map<string, Products.Product>, customer: string, items: seq<OrderItem>,
                          clock: Clock, faults: Faults)
    ensures var r := CreateOrder(books, products, customer, items, clock, faults);
      var o, d := StoredOrder(TrimSpace(customer), items, clock), InsertsBeforeFailure(faults, 0, |items|);
      if Accepted(customer, items, faults) && Insert(OrderRows, 0) !in faults && o.id !in books.orders then
        && r.state == Books(books.orders[o.id := o], books.ledger + Reservations(o.id, items[..d], clock))
        && r.result == if d == |items| then Ok(o) else Err(Backend(Insert(MovementRows, d)))
      else r.state == books && r.result.Err?
  {
    if Accepted(customer, items, faults) && Insert(OrderRows, 0) !in faults && "o-" + clock.stamp !in books.orders {
      PlaceWrites(books, TrimSpace(customer), items, clock, faults);
    }
  }

  /** A created order lowers each product's stock by the quantity ordered
      of it: nothing checks availability, so stock can go negative. */
  lemma CreateOrderLowersStock(books: Books, products: map<string, Products.Product>, customer: string,
                               items: seq<OrderItem>, clock: Clock, faults: Faults, p: string)
    requires Accepted(customer, items, faults)
    requires Insert(OrderRows, 0) !in faults && "o-" + clock.stamp !in books.orders
    requires forall k :: 0 <= k < |items| ==> Insert(MovementRows, k) !in faults
    ensures CreateOrder(books, products, customer, items, clock, faults).result.Ok?
    ensures StockOf(CreateOrder(books, products, customer, items, clock, faults).state.ledger, p)
         == StockOf(books.ledger, p) - OrderedQuantity(items, p)
  {
    var id := "o-" + clock.stamp;
    assert InsertsBeforeFailure(faults, 0, |items|) == |items|;
    CreateOrderWrites(books, products, customer, items, clock, faults);
    ReserveItemsReports(books.ledger, id, items, 0, clock, faults);
    ReservationsLowerStock(books.ledger, id, items, 0, clock, faults, p);
  }

  /** Ordering ten units of a product nobody has received succeeds and
      leaves its stock at minus ten. */
  lemma OrderMayOverdrawStock(products: map<string, Products.Product>, clock: Clock)
    ensures var r := CreateOrder(Books(map[], []), products, "acme", [OrderItem("P1", 10.0, 2.5)], clock, {});
      && r.result.Ok? && r.result.value.status == StatusNew && r.result.value.customer == "acme"
      && |r.result.value.history| == 1 && StockOf(r.state.ledger, "P1") == -10.0
  {
    var books := Books(map[], []);
    var items := [OrderItem("P1", 10.0, 2.5)];
    TrimSpaceOfTrimmed("acme");
    assert ValidItem(items[0]);
    var r := CreateOrder(books, products, "acme", items, clock, {});
    assert r.state != books;
    assert r.result.Ok?;
    CreateOrderLowersStock(books, products, "acme", items, clock, {}, "P1");
    assert OrderedQuantity(items, "P1") == 10.0 by {
      assert items[1..] == [];
    }
  }

  /** `GetOrder`: a blank id is invalid, a missing order is not found. */
  function GetOrder(orders: OrderStore.OrderTable, id: string, faults: Faults): (r: Result<Order>)
    ensures TrimSpace(id) == "" ==> r == Err(InvalidOrder)
    ensures TrimSpace(id) != "" && Select(OrderRows, TrimSpace(id)) in faults ==>
      r == Err(Backend(Select(OrderRows, TrimSpace(id))))
    ensures TrimSpace(id) != "" && Select(OrderRows, TrimSpace(id)) !in faults && TrimSpace(id) !in orders ==>
      r == Err(OrderNotFound)
    ensures r.Ok? <==> TrimSpace(id) != "" && Select(OrderRows, TrimSpace(id)) !in faults && TrimSpace(id) in orders
    ensures r.Ok? ==> r.value == OrderStore.Hydrate(TrimSpace(id), orders[TrimSpace(id)])
  {
    var id := TrimSpace(id);
    if id == "" then Err(InvalidOrder)
    else
      var found := OrderStore.GetById(orders, id, faults);
      if found.Err? then Err(found.error)
      else if found.value.None? then Err(OrderNotFound)
      else Ok(found.value.value)
  }

  /** The statuses an order may leave. */
  predicate Open(status: OrderStatus) {
    status == StatusNew || status == StatusReserved
  }

  /** The writing half of `UpdateOrderStatus` for an order found open
      under `key`: the read-back order gets the requested status, the
      update time and one history entry for the change at the end, and is
      written back. */
  function ChangeStatus(orders: OrderStore.OrderTable, key: string, newStatus: OrderStatus,
                        clock: Clock, faults: Faults): (r: Outcome<Order, OrderStore.OrderTable>)
    requires key in orders
    ensures r.result.Ok? <==> UpdateRow(OrderRows) !in faults
    ensures UpdateRow(OrderRows) in faults ==> r == Outcome(Err(Backend(UpdateRow(OrderRows))), orders)
    ensures r.result.Err? ==> r.state == orders
    ensures r.result.Ok? ==> var o, before := r.result.value, OrderStore.Hydrate(key, orders[key]);
      && o.id == key && o.status == newStatus && o.updatedAt == clock.now
      && o.items == before.items && o.customer == before.customer && o.createdAt == before.createdAt
      && o.history == before.history + [StatusEntry(newStatus, clock.now)]
    ensures r.result.Ok? ==>
      && r.state.Keys == orders.Keys
      && (forall k :: k in orders && k != key ==> r.state[k] == orders[k])
      && r.state[key] == orders[key].(status := newStatus, updatedAt := clock.now,
                                      history := orders[key].history + [StatusEntry(newStatus, clock.now)])
  {
    var o := OrderStore.Hydrate(key, orders[key]);
    var changed := o.(status := newStatus, updatedAt := clock.now,
                      history := o.history + [StatusEntry(newStatus, clock.now)]);
    OrderStore.Update(orders, changed, clock, faults)
  }

  /** `UpdateOrderStatus`: only an order in "new" or "reserved" may change;
      the target status is not checked. The status becomes the requested
      one and exactly one history entry for it is added at the end. */
  function UpdateOrderStatus(orders: OrderStore.OrderTable, id: string, newStatus: OrderStatus,
                             clock: Clock, faults: Faults): (r: Outcome<Order, OrderStore.OrderTable>)
    ensures TrimSpace(id) == "" ==> r == Outcome(Err(InvalidOrder), orders)
    ensures TrimSpace(id) != "" && Select(OrderRows, TrimSpace(id)) in faults ==>
      r == Outcome(Err(Backend(Select(OrderRows, TrimSpace(id)))), orders)
    ensures TrimSpace(id) != "" && Select(OrderRows, TrimSpace(id)) !in faults && TrimSpace(id) !in orders ==>
      r == Outcome(Err(OrderNotFound), orders)
    ensures (TrimSpace(id) != "" && TrimSpace(id) in orders && Open(orders[TrimSpace(id)].status)
      && Select(OrderRows, TrimSpace(id)) !in faults && UpdateRow(OrderRows) in faults) ==>
      r == Outcome(Err(Backend(UpdateRow(OrderRows))), orders)
    ensures (TrimSpace(id) != "" && Select(OrderRows, TrimSpace(id)) !in faults && TrimSpace(id) in orders
      && !Open(orders[TrimSpace(id)].status)) ==> r == Outcome(Err(OrderBadStatus), orders)
    ensures r.result.Err? ==> r.state == orders
    ensures r.result.Ok? <==>
      && TrimSpace(id) != "" && TrimSpace(id) in orders && Open(orders[TrimSpace(id)].status)
      && Select(OrderRows, TrimSpace(id)) !in faults && UpdateRow(OrderRows) !in faults
    ensures (TrimSpace(id) != "" && TrimSpace(id) in orders && Open(orders[TrimSpace(id)].status)
      && Select(OrderRows, TrimSpace(id)) !in faults) ==>
      r == ChangeStatus(orders, TrimSpace(id), newStatus, clock, faults)
  {
    var id := TrimSpace(id);
    if id == "" then Outcome(Err(InvalidOrder), orders)
    else
      var found := OrderStore.GetById(orders, id, faults);
      if found.Err? then Outcome(Err(found.error), orders)
      else if found.value.None? then Outcome(Err(OrderNotFound), orders)
      else if !Open(found.value.value.status) then Outcome(Err(OrderBadStatus), orders)
      else ChangeStatus(orders, id, newStatus, clock, faults)
  }

  /** `ListOrders` hands the repository's newest-first list through. */
  method ListOrders(orders: OrderStore.OrderTable, faults: Faults) returns (r: Result<seq<Order>>)
    ensures r.Err? <==> SelectAll(OrderRows) in faults
    ensures r.Err? ==> r.error == Backend(SelectAll(OrderRows))
    ensures r.Ok? ==> |r.value| == |orders| && SortedBy(r.value, OrderStore.NewestFirst)
    ensures r.Ok? ==> forall i :: 0 <= i < |r.value| ==>
      r.value[i].id in orders && r.value[i] == OrderStore.Hydrate(r.value[i].id, orders[r.value[i].id])
    ensures r.Ok? ==> forall k :: k in orders ==> exists i :: 0 <= i < |r.value| && r.value[i].id == k
    ensures r.Ok? ==> forall i, j :: 0 <= i < j < |r.value| ==> r.value[i].id != r.value[j].id
  {
    r := OrderStore.GetAll(orders, faults);
  }

  /** When the clock has not gone back behind the order's history, a status
      change leaves the returned order consistent: its history is in time
      order and ends with the entry for its current status. */
  lemma {:induction false} UpdateKeepsConsistent(orders: OrderStore.OrderTable, id: string, newStatus: OrderStatus,
                                                 clock: Clock, faults: Faults)
    requires UpdateOrderStatus(orders, id, newStatus, clock, faults).result.Ok?
    requires forall i :: 0 <= i < |orders[TrimSpace(id)].history| ==> orders[TrimSpace(id)].history[i].changedAt <= clock.now
    ensures Consistent(UpdateOrderStatus(orders, id, newStatus, clock, faults).result.value)
  {
    var key := TrimSpace(id);
    var before := OrderStore.Hydrate(key, orders[key]);
    SortByKeepsBound(orders[key].history, ChangedAt, clock.now);
    AppendKeepsSorted(before.history, StatusEntry(newStatus, clock.now), ChangedAt);
  }

  /** Reading an order back after a status change gives exactly what the
      change returned, provided the stored history was in time order and
      not later than the change. */
  lemma {:induction false} UpdateThenGetOrder(orders: OrderStore.OrderTable, id: string, newStatus: OrderStatus,
                                              clock: Clock, faults: Faults, later: Faults)
    requires UpdateOrderStatus(orders, id, newStatus, clock, faults).result.Ok?
    requires forall i :: 0 <= i < |orders[TrimSpace(id)].history| ==> orders[TrimSpace(id)].history[i].changedAt <= clock.now
    requires Select(OrderRows, TrimSpace(id)) !in later
    ensures var r := UpdateOrderStatus(orders, id, newStatus, clock, faults);
      GetOrder(r.state, id, later) == Ok(r.result.value)
  {
    var key := TrimSpace(id);
    var r := UpdateOrderStatus(orders, id, newStatus, clock, faults);
    var e := StatusEntry(newStatus, clock.now);
    SortByAppendMax(orders[key].history, e, ChangedAt);
  }

  /** Once an order has been completed, any further status change is
      refused and changes nothing. */
  lemma CompletedOrderIsFinal(orders: OrderStore.OrderTable, id: string, next: OrderStatus,
                              clock: Clock, faults: Faults, clock2: Clock, later: Faults)
    requires UpdateOrderStatus(orders, id, StatusCompleted, clock, faults).result.Ok?
    requires Select(OrderRows, TrimSpace(id)) !in later
    ensures var after := UpdateOrderStatus(orders, id, StatusCompleted, clock, faults).state;
      UpdateOrderStatus(after, id, next, clock2, later) == Outcome(Err(OrderBadStatus), after)
  {
    var key := TrimSpace(id);
    var after := UpdateOrderStatus(orders, id, StatusCompleted, clock, faults).state;
    assert key != "" && key in after && after[key].status == StatusCompleted;
    CompletedIsClosed();
    ClosedOrderIsRefused(after, id, next, clock2, later);
  }

  lemma CompletedIsClosed()
    ensures !Open(StatusCompleted)
  {
    assert StatusCompleted[0] == 'c' && StatusNew[0] == 'n' && StatusReserved[0] == 'r';
  }

  /** An order that is neither new nor reserved is refused, and nothing is written. */
  lemma ClosedOrderIsRefused(orders: OrderStore.OrderTable, id: string, next: OrderStatus,
                             clock: Clock, faults: Faults)
    requires TrimSpace(id) != "" && TrimSpace(id) in orders && !Open(orders[TrimSpace(id)].status)
    requires Select(OrderRows, TrimSpace(id)) !in faults
    ensures UpdateOrderStatus(orders, id, next, clock, faults) == Outcome(Err(OrderBadStatus), orders)
  {
  }
}

