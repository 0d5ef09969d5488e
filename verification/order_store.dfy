/** The order repository of `order_repository.go` over an abstract table:
    each stored row holds the `orders` columns together with the order's
    `order_items` rows and its `order_status_history` rows in the order they
    were inserted. */
module OrderStore {
  import opened Base
  import opened Sorting
  import opened OrderModel
  import Store

  type OrderTable = map<string, Order>

  /** What `GetByID`/`GetAll` read back for the row stored under `id`: the
      id column, the items, and the history ordered by `changed_at`. */
  function Hydrate(id: string, row: Order): (o: Order)
    ensures o.id == id && o.items == row.items && o.customer == row.customer && o.status == row.status
    ensures o.createdAt == row.createdAt && o.updatedAt == row.updatedAt
    ensures SortedBy(o.history, ChangedAt) && multiset(o.history) == multiset(row.history)
  {
    row.(id := id, history := SortBy(row.history, ChangedAt))
  }

  /** `GetByID`: a missing order is "no order, no error". */
  function GetById(orders: OrderTable, id: string, faults: Faults): (r: Result<Option<Order>>)
    ensures r.Err? <==> Select(OrderRows, id) in faults
    ensures r.Err? ==> r.error == Backend(Select(OrderRows, id))
    ensures r.Ok? ==> (r.value.None? <==> id !in orders)
    ensures r.Ok? && r.value.Some? ==> id in orders && r.value.value == Hydrate(id, orders[id])
  {
    var found := Store.Get(orders, OrderRows, id, faults);
    if found.Err? then Err(found.error)
    else if found.value.None? then Ok(None)
    else Ok(Some(Hydrate(id, found.value.value)))
  }

  /** `Create`: a generated "o-" id only when the order has none, the
      creation time kept unless zero, the update time set to now; the order
      row, every item and every history entry are written in one
      transaction, so on any failure nothing is stored. */
  function Create(orders: OrderTable, o: Order, clock: Clock, faults: Faults): (r: Outcome<Order, OrderTable>)
    ensures r.result.Ok? <==> Insert(OrderRows, 0) !in faults && (if o.id == "" then "o-" + clock.stamp else o.id) !in orders
    ensures Insert(OrderRows, 0) in faults ==> r.result == Err(Backend(Insert(OrderRows, 0)))
    ensures Insert(OrderRows, 0) !in faults && (if o.id == "" then "o-" + clock.stamp else o.id) in orders ==>
      r.result == Err(DuplicateKey(OrderRows, if o.id == "" then "o-" + clock.stamp else o.id))
    ensures r.result.Ok? ==> var s := r.result.value;
      && s.id == (if o.id == "" then "o-" + clock.stamp else o.id)
      && s.createdAt == (if o.createdAt == ZeroTime then clock.now else o.createdAt)
      && s.updatedAt == clock.now
      && s.customer == o.customer && s.status == o.status && s.items == o.items && s.history == o.history
      && s.id !in orders && r.state == orders[s.id := s]
    ensures r.result.Err? ==> r.state == orders
  {
    var s := o.(
      id := if o.id == "" then GeneratedId("o-", clock) else o.id,
      createdAt := if o.createdAt == ZeroTime then clock.now else o.createdAt,
      updatedAt := clock.now);
    Store.Insert(orders, OrderRows, s.id, s, faults)
  }

  /** `Update`: rewrites the customer, status and update time of the stored
      row and inserts only the LAST entry of the in-memory history; the
      stored items and earlier history rows are not touched. A missing row
      is the "not found" error; any failure rolls the transaction back. */
  function Update(orders: OrderTable, o: Order, clock: Clock, faults: Faults): (r: Outcome<Order, OrderTable>)
    ensures r.result.Ok? <==> UpdateRow(OrderRows) !in faults && o.id in orders
    ensures UpdateRow(OrderRows) in faults ==> r.result == Err(Backend(UpdateRow(OrderRows)))
    ensures UpdateRow(OrderRows) !in faults && o.id !in orders ==> r.result == Err(RowMissing(OrderRows, o.id))
    ensures r.result.Err? ==> r.state == orders
    ensures r.result.Ok? ==> r.result.value == o.(updatedAt := clock.now)
    ensures r.result.Ok? ==> (r.state.Keys == orders.Keys
      && (forall k :: k in orders && k != o.id ==> r.state[k] == orders[k])
      && var before, after := orders[o.id], r.state[o.id];
      && after.customer == o.customer && after.status == o.status && after.updatedAt == clock.now
      && after.items == before.items && after.createdAt == before.createdAt
      && after.history == before.history + (if |o.history| > 0 then [o.history[|o.history| - 1]] else []))
  {
    if UpdateRow(OrderRows) in faults then Outcome(Err(Backend(UpdateRow(OrderRows))), orders)
    else if o.id !in orders then Outcome(Err(RowMissing(OrderRows, o.id)), orders)
    else
      var before := orders[o.id];
      var appended := if |o.history| > 0 then [o.history[|o.history| - 1]] else [];
      var after := before.(customer := o.customer, status := o.status, updatedAt := clock.now,
                           history := before.history + appended);
      Outcome(Ok(o.(updatedAt := clock.now)), orders[o.id := after])
  }

  /** The read-back order of `GetAll`: newest first. */
  function NewestFirst(o: Order): int {
    -o.createdAt
  }

  /** Every stored order as `GetByID` would read it back. */
  function Hydrated(orders: OrderTable): (view: map<string, Order>)
    ensures view.Keys == orders.Keys
    ensures forall k :: k in view ==> view[k] == Hydrate(k, orders[k]) && view[k].id == k
  {
    map k | k in orders :: Hydrate(k, orders[k])
  }

  /** Each row of `view` carries its own key as id. */
  predicate KeyedById(view: map<string, Order>) {
    forall k :: k in view ==> view[k].id == k
  }

  /** `listed` holds exactly the rows of `view` whose ids are in `done`. */
  predicate Lists(view: map<string, Order>, done: set<string>, listed: seq<Order>) {
    && done <= view.Keys
    && |listed| == |done|
    && (forall i :: 0 <= i < |listed| ==> listed[i].id in done && listed[i].id in view && listed[i] == view[listed[i].id])
    && (forall k :: k in done ==> exists i :: 0 <= i < |listed| && listed[i].id == k)
  }

  /** No two listed orders have the same id. */
  predicate DistinctIds(listed: seq<Order>) {
    forall i, j :: 0 <= i < j < |listed| ==> listed[i].id != listed[j].id
  }

  /** Inserting a row whose id is not yet listed keeps the ids distinct. */
  lemma InsertKeepsIdsDistinct(row: Order, listed: seq<Order>)
    requires SortedBy(listed, NewestFirst) && DistinctIds(listed)
    requires forall i :: 0 <= i < |listed| ==> listed[i].id != row.id
    ensures DistinctIds(InsertBy(row, listed, NewestFirst))
  {
    var m := InsertBySplices(row, listed, NewestFirst);
    var next := InsertBy(row, listed, NewestFirst);
    forall i, j | 0 <= i < j < |next|
      ensures next[i].id != next[j].id
    {
      SpliceIndex(listed, m, row, i);
      SpliceIndex(listed, m, row, j);
    }
  }

  lemma ListOneMore(view: map<string, Order>, done: set<string>, listed: seq<Order>, k: string)
    requires KeyedById(view) && Lists(view, done, listed) && SortedBy(listed, NewestFirst)
    requires k in view && k !in done
    ensures Lists(view, done + {k}, InsertBy(view[k], listed, NewestFirst))
  {
    var next := InsertBy(view[k], listed, NewestFirst);
    InsertedRowsAreListed(view, done, listed, k, next);
    InsertByMembers(view[k], listed, NewestFirst);
    InsertedRowsCoverIds(view[k], listed, next, done);
    FreshKeyCount(done, k);
  }

  lemma FreshKeyCount(done: set<string>, k: string)
    requires k !in done
    ensures |done + {k}| == |done| + 1
  {
  }

  lemma SomeLeft(keys: set<string>, done: set<string>)
    requires done <= keys && done != keys
    ensures exists k :: k in keys && k !in done
  {
    assert !(keys <= done);
  }

  lemma FewerLeft(keys: set<string>, done: set<string>, k: string)
    requires k in keys && k !in done
    ensures |keys - (done + {k})| < |keys - done|
  {
    var left := keys - (done + {k});
    assert keys - done == left + {k} && k !in left;
  }

  lemma InsertedRowsAreListed(view: map<string, Order>, done: set<string>, listed: seq<Order>, k: string, next: seq<Order>)
    requires KeyedById(view) && Lists(view, done, listed) && SortedBy(listed, NewestFirst)
    requires k in view && k !in done
    requires next == InsertBy(view[k], listed, NewestFirst)
    ensures forall i :: 0 <= i < |next| ==> next[i].id in done + {k} && next[i].id in view && next[i] == view[next[i].id]
  {
    InsertByMembers(view[k], listed, NewestFirst);
    forall i | 0 <= i < |next|
      ensures next[i].id in done + {k} && next[i].id in view && next[i] == view[next[i].id]
    {
      if next[i] != view[k] {
        var j :| 0 <= j < |listed| && listed[j] == next[i];
      }
    }
  }

  /** The inserted row is found by its id, and so is every row listed before. */
  lemma InsertedRowsCoverIds(row: Order, listed: seq<Order>, next: seq<Order>, done: set<string>)
    requires row in next && forall x :: x in listed ==> x in next
    requires forall j :: j in done ==> exists i :: 0 <= i < |listed| && listed[i].id == j
    ensures forall j :: j in done + {row.id} ==> exists i :: 0 <= i < |next| && next[i].id == j
  {
    var i :| 0 <= i < |next| && next[i] == row;
    IdsCarryOver(listed, next, done);
  }

  /** Every id found in `listed` is still found once `listed`'s rows are all in `next`. */
  lemma IdsCarryOver(listed: seq<Order>, next: seq<Order>, done: set<string>)
    requires forall x :: x in listed ==> x in next
    requires forall j :: j in done ==> exists i :: 0 <= i < |listed| && listed[i].id == j
    ensures forall j :: j in done ==> exists i :: 0 <= i < |next| && next[i].id == j
  {
    forall j | j in done
      ensures exists i :: 0 <= i < |next| && next[i].id == j
    {
      var i :| 0 <= i < |listed| && listed[i].id == j;
      assert listed[i] in listed;
      var i' :| 0 <= i' < |next| && next[i'] == listed[i];
    }
  }

  lemma ListedAll(orders: OrderTable, listed: seq<Order>)
    requires Lists(Hydrated(orders), orders.Keys, listed)
    ensures |listed| == |orders|
    ensures forall i :: 0 <= i < |listed| ==>
      listed[i].id in orders && listed[i] == Hydrate(listed[i].id, orders[listed[i].id])
    ensures forall k :: k in orders ==> exists i :: 0 <= i < |listed| && listed[i].id == k
  {
    assert |orders| == |orders.Keys|;
  }

  /** `GetAll`: every stored order, hydrated, newest first. */
  method GetAll(orders: OrderTable, faults: Faults) returns (r: Result<seq<Order>>)
    ensures r.Err? <==> SelectAll(OrderRows) in faults
    ensures r.Err? ==> r.error == Backend(SelectAll(OrderRows))
    ensures r.Ok? ==> |r.value| == |orders|
    ensures r.Ok? ==> SortedBy(r.value, NewestFirst)
    ensures r.Ok? ==> forall i :: 0 <= i < |r.value| ==>
      r.value[i].id in orders && r.value[i] == Hydrate(r.value[i].id, orders[r.value[i].id])
    ensures r.Ok? ==> forall k :: k in orders ==> exists i :: 0 <= i < |r.value| && r.value[i].id == k
    ensures r.Ok? ==> DistinctIds(r.value)
  {
    if SelectAll(OrderRows) in faults {
      return Err(Backend(SelectAll(OrderRows)));
    }
    var view := Hydrated(orders);
    var done: set<string> := {};
    var listed: seq<Order> := [];
    while done != view.Keys
      invariant Lists(view, done, listed)
      invariant SortedBy(listed, NewestFirst)
      invariant DistinctIds(listed)
      decreases |view.Keys - done|
    {
      SomeLeft(view.Keys, done);
      var k :| k in view.Keys && k !in done;
      ListOneMore(view, done, listed, k);
      InsertKeepsIdsDistinct(view[k], listed);
      FewerLeft(view.Keys, done, k);
      listed := InsertBy(view[k], listed, NewestFirst);
      done := done + {k};
    }
    ListedAll(orders, listed);
    return Ok(listed);
  }
}
