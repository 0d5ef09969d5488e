/** The stock ledger of `warehouse_repository.go`. Stock is never stored:
    the repository keeps an append-only list of movements and derives every
    product's stock by a signed sum over that list. */
module StockLedger {
  import opened Base

  datatype MovementType = Receipt | WriteOff | Reserve

  /** One row of `stock_movements`. The quantity is stored as given; its sign
      comes from the type when stock is summed. Fields a movement kind does
      not use hold Go's zero values ("" and 0). */
  datatype Movement = Movement(
    id: string,
    kind: MovementType,
    productId: string,
    supplierId: string,
    orderId: string,
    quantity: real,
    price: real,
    expiry: Option<Time>,
    createdAt: Time)

  type Ledger = seq<Movement>

  /** A derived stock row of the inventory query. */
  datatype StockItem = StockItem(productId: string, quantity: real)

  /** The `CASE type` of the aggregation queries: receipts add, write-offs
      and reservations subtract. */
  function Signed(m: Movement): real {
    match m.kind
    case Receipt => m.quantity
    case WriteOff => -m.quantity
    case Reserve => -m.quantity
  }

  /** What one movement contributes to the stock of `p`. */
  function Contribution(m: Movement, p: string): real {
    if m.productId == p then Signed(m) else 0.0
  }

  /** `GetStockByProduct`: the signed sum over the movements of `p`;
      `COALESCE(..., 0)` makes it 0 for a product without movements. */
  function StockOf(l: Ledger, p: string): real {
    if |l| == 0 then 0.0 else Contribution(l[0], p) + StockOf(l[1..], p)
  }

  /** The plain sum of the quantities of the movements of kind `k` for `p`. */
  function QuantityOf(l: Ledger, p: string, k: MovementType): real {
    if |l| == 0 then 0.0
    else (if l[0].productId == p && l[0].kind == k then l[0].quantity else 0.0) + QuantityOf(l[1..], p, k)
  }

  /** The products that have at least one movement (the groups of
      `GROUP BY product_id`). */
  function Products(l: Ledger): set<string> {
    set i | 0 <= i < |l| :: l[i].productId
  }

  /** Stock is receipts minus write-offs minus reservations, over the
      movements of that product only. */
  lemma {:induction false} StockIsReceiptsMinusOutflows(l: Ledger, p: string)
    ensures StockOf(l, p) == QuantityOf(l, p, Receipt) - QuantityOf(l, p, WriteOff) - QuantityOf(l, p, Reserve)
  {
    if |l| > 0 {
      StockIsReceiptsMinusOutflows(l[1..], p);
    }
  }

  /** A product without movements has stock 0, not an error. */
  lemma {:induction false} NoMovementsMeansZeroStock(l: Ledger, p: string)
    requires p !in Products(l)
    ensures StockOf(l, p) == 0.0
  {
    if |l| > 0 {
      assert l[0].productId in Products(l);
      assert Products(l[1..]) <= Products(l) by {
        forall q | q in Products(l[1..]) ensures q in Products(l) {
          var i :| 0 <= i < |l[1..]| && l[1..][i].productId == q;
          assert l[i + 1].productId == q;
        }
      }
      NoMovementsMeansZeroStock(l[1..], p);
    }
  }

  /** The stock of a concatenation is the sum of the stocks of the parts. */
  lemma {:induction false} StockOfConcat(a: Ledger, b: Ledger, p: string)
    ensures StockOf(a + b, p) == StockOf(a, p) + StockOf(b, p)
  {
    if |a| > 0 {
      assert (a + b)[1..] == a[1..] + b;
      StockOfConcat(a[1..], b, p);
    } else {
      assert a + b == b;
    }
  }

  /** Appending a movement moves the stock of its own product by its signed
      quantity and leaves every other product's stock unchanged. */
  lemma StockAfterAppend(l: Ledger, m: Movement, q: string)
    ensures StockOf(l + [m], q) == StockOf(l, q) + Contribution(m, q)
    ensures q != m.productId ==> StockOf(l + [m], q) == StockOf(l, q)
  {
    StockOfConcat(l, [m], q);
    assert [m][1..] == [];
  }

  /** Stock does not depend on the order of the movements: any permutation
      of the ledger gives every product the same stock. */
  lemma {:induction false} StockIgnoresOrder(a: Ledger, b: Ledger, p: string)
    requires multiset(a) == multiset(b)
    ensures StockOf(a, p) == StockOf(b, p)
  {
    if |a| == 0 {
      assert |b| == |multiset(b)| == 0;
    } else {
      var x := a[0];
      assert x in multiset(b);
      var i :| 0 <= i < |b| && b[i] == x;
      var rest := b[..i] + b[i + 1..];
      assert a == [x] + a[1..];
      assert multiset(a[1..]) == multiset(a) - multiset{x};
      MultisetWithout(b, i);
      StockIgnoresOrder(a[1..], rest, p);
      StockWithout(b, i, p);
    }
  }

  lemma MultisetWithout(b: Ledger, i: nat)
    requires i < |b|
    ensures multiset(b[..i] + b[i + 1..]) == multiset(b) - multiset{b[i]}
  {
    assert b == b[..i] + [b[i]] + b[i + 1..];
  }

  lemma StockWithout(b: Ledger, i: nat, p: string)
    requires i < |b|
    ensures StockOf(b, p) == Contribution(b[i], p) + StockOf(b[..i] + b[i + 1..], p)
  {
    assert b == b[..i] + [b[i]] + b[i + 1..];
    StockOfConcat(b[..i] + [b[i]], b[i + 1..], p);
    StockOfConcat(b[..i], [b[i]], p);
    StockOfConcat(b[..i], b[i + 1..], p);
    assert [b[i]][1..] == [];
  }

  /** `AddMovement`: fills in a generated id when the id is empty and the
      clock's instant when the timestamp is zero, keeps whatever the caller
      supplied, and inserts the row. A failing insert (the `n`-th insert of
      the calling operation) leaves the ledger as it was. Nothing is ever
      updated or deleted: the old ledger is a prefix of the new one. */
  function AddMovement(l: Ledger, m: Movement, n: nat, clock: Clock, faults: Faults): (r: Outcome<Movement, Ledger>)
    ensures r.result.Err? <==> Insert(MovementRows, n) in faults
    ensures r.result.Err? ==> r.result.error == Backend(Insert(MovementRows, n)) && r.state == l
    ensures r.result.Ok? ==> r.state == l + [r.result.value]
    ensures |l| <= |r.state| && r.state[..|l|] == l
    ensures r.result.Ok? ==> var s := r.result.value;
      && (m.id != "" ==> s.id == m.id)
      && (m.id == "" ==> s.id == "w-" + clock.stamp)
      && (m.createdAt != ZeroTime ==> s.createdAt == m.createdAt)
      && (m.createdAt == ZeroTime ==> s.createdAt == clock.now)
      && s.(id := m.id, createdAt := m.createdAt) == m
  {
    var stored := m.(
      id := if m.id == "" then GeneratedId("w-", clock) else m.id,
      createdAt := if m.createdAt == ZeroTime then clock.now else m.createdAt);
    if Insert(MovementRows, n) in faults then Outcome(Err(Backend(Insert(MovementRows, n))), l)
    else Outcome(Ok(stored), l + [stored])
  }

  /** Exactly one row per product with movements, each carrying that
      product's stock. */
  predicate IsInventoryOf(l: Ledger, rows: seq<StockItem>) {
    && (forall i, j :: 0 <= i < j < |rows| ==> rows[i].productId != rows[j].productId)
    && (forall i :: 0 <= i < |rows| ==> rows[i].productId in Products(l) && rows[i].quantity == StockOf(l, rows[i].productId))
    && (forall p :: p in Products(l) ==> exists i :: 0 <= i < |rows| && rows[i].productId == p)
  }

  /** The position of the row for `p`, or `|rows|` when there is none. */
  function RowOf(rows: seq<StockItem>, p: string): (k: nat)
    ensures k <= |rows|
    ensures k < |rows| ==> rows[k].productId == p
    ensures k == |rows| ==> forall i :: 0 <= i < |rows| ==> rows[i].productId != p
  {
    if |rows| == 0 then 0
    else if rows[|rows| - 1].productId == p then |rows| - 1
    else
      var k := RowOf(rows[..|rows| - 1], p);
      if k == |rows| - 1 then |rows| else k
  }

  /** Adds the signed quantity of `m` to its product's row, or starts a
      row for a product seen for the first time. */
  function Accumulate(rows: seq<StockItem>, m: Movement): (r: seq<StockItem>)
    ensures |rows| <= |r| <= |rows| + 1
  {
    var k := RowOf(rows, m.productId);
    if k < |rows| then rows[k := StockItem(m.productId, rows[k].quantity + Signed(m))]
    else rows + [StockItem(m.productId, Signed(m))]
  }

  lemma ProductsSnoc(l: Ledger, m: Movement)
    ensures Products(l + [m]) == Products(l) + {m.productId}
  {
    var l' := l + [m];
    forall q | q in Products(l') ensures q in Products(l) + {m.productId} {
      var j :| 0 <= j < |l'| && l'[j].productId == q;
      if j < |l| { assert l[j].productId == q; }
    }
    forall q | q in Products(l) ensures q in Products(l') {
      var j :| 0 <= j < |l| && l[j].productId == q;
      assert l'[j].productId == q;
    }
    assert l'[|l|].productId == m.productId;
  }

  /** Folding one more movement into an inventory of `l` gives the
      inventory of `l + [m]`. */
  lemma AccumulateStep(l: Ledger, rows: seq<StockItem>, m: Movement)
    requires IsInventoryOf(l, rows)
    ensures IsInventoryOf(l + [m], Accumulate(rows, m))
  {
    ProductsSnoc(l, m);
    AccumulateKeepsRowsDistinct(l, rows, m);
    AccumulateKeepsQuantities(l, rows, m);
    AccumulateCoversProducts(l, rows, m);
  }

  lemma AccumulateKeepsRowsDistinct(l: Ledger, rows: seq<StockItem>, m: Movement)
    requires IsInventoryOf(l, rows)
    ensures var r := Accumulate(rows, m);
      forall i, j :: 0 <= i < j < |r| ==> r[i].productId != r[j].productId
  {
  }

  lemma AccumulateKeepsQuantities(l: Ledger, rows: seq<StockItem>, m: Movement)
    requires IsInventoryOf(l, rows)
    ensures var r := Accumulate(rows, m);
      forall i :: 0 <= i < |r| ==> r[i].productId in Products(l + [m]) && r[i].quantity == StockOf(l + [m], r[i].productId)
  {
    var r := Accumulate(rows, m);
    var k := RowOf(rows, m.productId);
    ProductsSnoc(l, m);
    if k == |rows| {
      NoMovementsMeansZeroStock(l, m.productId);
    }
    forall i | 0 <= i < |r|
      ensures r[i].productId in Products(l + [m]) && r[i].quantity == StockOf(l + [m], r[i].productId)
    {
      StockAfterAppend(l, m, r[i].productId);
    }
  }

  lemma AccumulateCoversProducts(l: Ledger, rows: seq<StockItem>, m: Movement)
    requires IsInventoryOf(l, rows)
    ensures var r := Accumulate(rows, m);
      forall q :: q in Products(l + [m]) ==> exists j :: 0 <= j < |r| && r[j].productId == q
  {
    var r := Accumulate(rows, m);
    var k := RowOf(rows, m.productId);
    ProductsSnoc(l, m);
    forall q | q in Products(l + [m])
      ensures exists j :: 0 <= j < |r| && r[j].productId == q
    {
      if q == m.productId {
        assert r[k].productId == q;
      } else {
        var j :| 0 <= j < |rows| && rows[j].productId == q;
        assert r[j].productId == q;
      }
    }
  }

  /** `GetInventory`: the grouped signed sums over the whole ledger, built
      one movement at a time. The row order of `GROUP BY` is unspecified
      and is not promised. */
  method GetInventory(l: Ledger, faults: Faults) returns (r: Result<seq<StockItem>>)
    ensures r.Err? <==> SelectAll(MovementRows) in faults
    ensures r.Err? ==> r.error == Backend(SelectAll(MovementRows))
    ensures r.Ok? ==> IsInventoryOf(l, r.value)
  {
    if SelectAll(MovementRows) in faults {
      return Err(Backend(SelectAll(MovementRows)));
    }
    var rows: seq<StockItem> := [];
    var i := 0;
    while i < |l|
      invariant 0 <= i <= |l|
      invariant IsInventoryOf(l[..i], rows)
    {
      AccumulateStep(l[..i], rows, l[i]);
      assert l[..i + 1] == l[..i] + [l[i]];
      rows := Accumulate(rows, l[i]);
      i := i + 1;
    }
    assert l[..|l|] == l;
    return Ok(rows);
  }
}
