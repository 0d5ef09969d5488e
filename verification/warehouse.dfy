/** The warehouse service of `warehouse_service.go`: receipts, write-offs and
    reservations validated and checked against the ledger's current stock,
    each appending at most one movement. */
module Warehouse {
  import opened Base
  import opened StockLedger
  import Store
  import Products

  /** Every product's stock is at least zero. */
  ghost predicate NonNegative(l: Ledger) {
    forall p :: StockOf(l, p) >= 0.0
  }

  /** The ledger grew by exactly one movement and keeps the old ledger as
      its prefix. */
  predicate AppendedOne(before: Ledger, after: Ledger) {
    |after| == |before| + 1 && after[..|before|] == before
  }

  /** `Receipt`: stock arrives. The product lookup only guards against a
      failing store call: a product that is not in the store (a nil product
      with no error) does not stop the receipt. There is no sufficiency
      check. */
  function Receipt(l: Ledger, products: map<string, Products.Product>, productId: string, supplierId: string,
                   quantity: real, price: real, expiry: Option<Time>, clock: Clock, faults: Faults): (r: Outcome<(), Ledger>)
    ensures productId == "" || quantity <= 0.0 ==> r == Outcome(Err(InvalidOperation), l)
    ensures r.result.Ok? <==>
      && productId != "" && quantity > 0.0
      && Select(ProductRows, productId) !in faults && Insert(MovementRows, 0) !in faults
    ensures productId != "" && quantity > 0.0 && Select(ProductRows, productId) in faults ==>
      r == Outcome(Err(Backend(Select(ProductRows, productId))), l)
    ensures (productId != "" && quantity > 0.0 && Select(ProductRows, productId) !in faults
      && Insert(MovementRows, 0) in faults) ==> r == Outcome(Err(Backend(Insert(MovementRows, 0))), l)
    ensures r.result.Err? ==> r.state == l
    ensures r.result.Ok? ==> (AppendedOne(l, r.state)
      && var m := r.state[|l|];
      && m.kind == MovementType.Receipt && m.productId == productId && m.supplierId == supplierId && m.orderId == ""
      && m.quantity == quantity && m.price == price && m.expiry == expiry && m.createdAt == clock.now)
    ensures r.result.Ok? ==> StockOf(r.state, productId) == StockOf(l, productId) + quantity
    ensures forall q :: q != productId ==> StockOf(r.state, q) == StockOf(l, q)
  {
    if productId == "" || quantity <= 0.0 then Outcome(Err(InvalidOperation), l)
    else
      var found := Store.Get(products, ProductRows, productId, faults);
      if found.Err? then Outcome(Err(found.error), l)
      else
        var m := Movement("", MovementType.Receipt, productId, supplierId, "", quantity, price, expiry, clock.now);
        Commit(l, m, clock, faults)
  }

  /** `WriteOff`: stock leaves the warehouse, but never more than there is. */
  function WriteOff(l: Ledger, productId: string, quantity: real, clock: Clock, faults: Faults): (r: Outcome<(), Ledger>)
    ensures productId == "" || quantity <= 0.0 ==> r == Outcome(Err(InvalidOperation), l)
    ensures productId != "" && quantity > 0.0 && Select(MovementRows, productId) in faults ==>
      r == Outcome(Err(Backend(Select(MovementRows, productId))), l)
    ensures r.result == Err(InsufficientStock) <==>
      && productId != "" && quantity > 0.0
      && Select(MovementRows, productId) !in faults && StockOf(l, productId) < quantity
    ensures (productId != "" && quantity > 0.0 && Select(MovementRows, productId) !in faults
      && StockOf(l, productId) >= quantity && Insert(MovementRows, 0) in faults) ==>
      r == Outcome(Err(Backend(Insert(MovementRows, 0))), l)
    ensures r.result.Ok? <==>
      && productId != "" && quantity > 0.0
      && Select(MovementRows, productId) !in faults && Insert(MovementRows, 0) !in faults
      && StockOf(l, productId) >= quantity
    ensures r.result.Err? ==> r.state == l
    ensures r.result.Ok? ==> (AppendedOne(l, r.state)
      && var m := r.state[|l|];
      && m.kind == MovementType.WriteOff && m.productId == productId && m.quantity == quantity
      && m.supplierId == "" && m.orderId == "" && m.price == 0.0 && m.expiry == None && m.createdAt == clock.now)
    ensures r.result.Ok? ==>
      StockOf(r.state, productId) == StockOf(l, productId) - quantity && StockOf(r.state, productId) >= 0.0
    ensures forall q :: q != productId ==> StockOf(r.state, q) == StockOf(l, q)
  {
    if productId == "" || quantity <= 0.0 then Outcome(Err(InvalidOperation), l)
    else if Select(MovementRows, productId) in faults then Outcome(Err(Backend(Select(MovementRows, productId))), l)
    else if StockOf(l, productId) < quantity then Outcome(Err(InsufficientStock), l)
    else
      var m := Movement("", MovementType.WriteOff, productId, "", "", quantity, 0.0, None, clock.now);
      Commit(l, m, clock, faults)
  }

  /** `Reserve`: stock is held for an order, under the same sufficiency rule
      as a write-off; the movement carries the order's id. */
  function Reserve(l: Ledger, productId: string, orderId: string, quantity: real, clock: Clock, faults: Faults): (r: Outcome<(), Ledger>)
    ensures productId == "" || orderId == "" || quantity <= 0.0 ==> r == Outcome(Err(InvalidOperation), l)
    ensures productId != "" && orderId != "" && quantity > 0.0 && Select(MovementRows, productId) in faults ==>
      r == Outcome(Err(Backend(Select(MovementRows, productId))), l)
    ensures r.result == Err(InsufficientStock) <==>
      && productId != "" && orderId != "" && quantity > 0.0
      && Select(MovementRows, productId) !in faults && StockOf(l, productId) < quantity
    ensures (productId != "" && orderId != "" && quantity > 0.0 && Select(MovementRows, productId) !in faults
      && StockOf(l, productId) >= quantity && Insert(MovementRows, 0) in faults) ==>
      r == Outcome(Err(Backend(Insert(MovementRows, 0))), l)
    ensures r.result.Ok? <==>
      && productId != "" && orderId != "" && quantity > 0.0
      && Select(MovementRows, productId) !in faults && Insert(MovementRows, 0) !in faults
      && StockOf(l, productId) >= quantity
    ensures r.result.Err? ==> r.state == l
    ensures r.result.Ok? ==> (AppendedOne(l, r.state)
      && var m := r.state[|l|];
      && m.kind == MovementType.Reserve && m.productId == productId && m.orderId == orderId && m.quantity == quantity
      && m.supplierId == "" && m.price == 0.0 && m.expiry == None && m.createdAt == clock.now)
    ensures r.result.Ok? ==>
      StockOf(r.state, productId) == StockOf(l, productId) - quantity && StockOf(r.state, productId) >= 0.0
    ensures forall q :: q != productId ==> StockOf(r.state, q) == StockOf(l, q)
  {
    if productId == "" || orderId == "" || quantity <= 0.0 then Outcome(Err(InvalidOperation), l)
    else if Select(MovementRows, productId) in faults then Outcome(Err(Backend(Select(MovementRows, productId))), l)
    else if StockOf(l, productId) < quantity then Outcome(Err(InsufficientStock), l)
    else
      var m := Movement("", MovementType.Reserve, productId, "", orderId, quantity, 0.0, None, clock.now);
      Commit(l, m, clock, faults)
  }

  /** Appends the service's movement (whose id is empty and whose timestamp
      is the clock's) as the operation's only insert, and reports only
      success or the store's error. */
  function Commit(l: Ledger, m: Movement, clock: Clock, faults: Faults): (r: Outcome<(), Ledger>)
    requires m.id == "" && m.createdAt == clock.now
    ensures r.result.Ok? <==> Insert(MovementRows, 0) !in faults
    ensures r.result.Err? ==> r.state == l && r.result.error == Backend(Insert(MovementRows, 0))
    ensures r.result.Ok? ==> r.state == l + [m.(id := "w-" + clock.stamp)]
    ensures forall q :: StockOf(r.state, q) == StockOf(l, q) + (if r.result.Ok? then Contribution(m, q) else 0.0)
  {
    var added := AddMovement(l, m, 0, clock, faults);
    if added.result.Err? then Outcome(Err(added.result.error), l)
    else
      var stored := added.result.value;
      assert stored == m.(id := "w-" + clock.stamp);
      assert forall q :: StockOf(added.state, q) == StockOf(l, q) + Contribution(stored, q) by {
        forall q ensures StockOf(added.state, q) == StockOf(l, q) + Contribution(stored, q) {
          StockAfterAppend(l, stored, q);
        }
      }
      Outcome(Ok(()), added.state)
  }

  /** `GetInventory` hands the repository's aggregation through unchanged. */
  method Inventory(l: Ledger, faults: Faults) returns (r: Result<seq<StockItem>>)
    ensures r.Err? <==> SelectAll(MovementRows) in faults
    ensures r.Err? ==> r.error == Backend(SelectAll(MovementRows))
    ensures r.Ok? ==> IsInventoryOf(l, r.value)
  {
    r := GetInventory(l, faults);
  }

  /** None of the three checked operations can take a product's stock below
      zero. */
  lemma CheckedOperationsKeepStockNonNegative(
    l: Ledger, products: map<string, Products.Product>, productId: string, supplierId: string, orderId: string,
    quantity: real, price: real, expiry: Option<Time>, clock: Clock, faults: Faults)
    requires NonNegative(l)
    ensures NonNegative(Receipt(l, products, productId, supplierId, quantity, price, expiry, clock, faults).state)
    ensures NonNegative(WriteOff(l, productId, quantity, clock, faults).state)
    ensures NonNegative(Reserve(l, productId, orderId, quantity, clock, faults).state)
  {
    var a := Receipt(l, products, productId, supplierId, quantity, price, expiry, clock, faults).state;
    var b := WriteOff(l, productId, quantity, clock, faults).state;
    var c := Reserve(l, productId, orderId, quantity, clock, faults).state;
    forall q ensures StockOf(a, q) >= 0.0 && StockOf(b, q) >= 0.0 && StockOf(c, q) >= 0.0 {
      assert StockOf(l, q) >= 0.0;
    }
  }

  /** Withdrawing exactly the current stock succeeds and leaves zero. */
  lemma WriteOffEverything(l: Ledger, productId: string, clock: Clock, faults: Faults)
    requires productId != "" && StockOf(l, productId) > 0.0
    requires Select(MovementRows, productId) !in faults && Insert(MovementRows, 0) !in faults
    ensures var r := WriteOff(l, productId, StockOf(l, productId), clock, faults);
      r.result.Ok? && StockOf(r.state, productId) == 0.0
  {
  }

  /** The receipt/write-off walk-through: 100 units arrive, 40 are written
      off, and a request for 100 more is refused with the stock still 60. */
  lemma ReceiptThenWriteOffs(products: map<string, Products.Product>, clock: Clock)
    ensures var r1 := Receipt([], products, "P1", "S1", 100.0, 2.0, None, clock, {});
      && r1.result.Ok? && StockOf(r1.state, "P1") == 100.0
      && var r2 := WriteOff(r1.state, "P1", 40.0, clock, {});
      && r2.result.Ok? && StockOf(r2.state, "P1") == 60.0
      && var r3 := WriteOff(r2.state, "P1", 100.0, clock, {});
      && r3.result == Err(InsufficientStock) && StockOf(r3.state, "P1") == 60.0
  {
    assert StockOf([], "P1") == 0.0;
  }
}
