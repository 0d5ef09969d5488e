/** The order aggregate of `models/order.go`: an order with its items and
    its status history. */
module OrderModel {
  import opened Base
  import opened Sorting

  /** A status is free text: the four named values are the ones the
      program sets or checks, but a status update stores whatever it is
      given. */
  type OrderStatus = string

  const StatusNew: OrderStatus := "new"
  const StatusReserved: OrderStatus := "reserved"
  const StatusCompleted: OrderStatus := "completed"
  const StatusCanceled: OrderStatus := "canceled"

  datatype OrderItem = OrderItem(productId: string, quantity: real, price: real)

  datatype StatusEntry = StatusEntry(status: OrderStatus, changedAt: Time)

  datatype Order = Order(
    id: string,
    customer: string,
    status: OrderStatus,
    items: seq<OrderItem>,
    createdAt: Time,
    updatedAt: Time,
    history: seq<StatusEntry>)

  /** The key the history is ordered by. */
  function ChangedAt(e: StatusEntry): int {
    e.changedAt
  }

  /** An order whose history is non-empty, in time order, and ends with the
      order's current status. */
  predicate Consistent(o: Order) {
    && |o.history| > 0
    && SortedBy(o.history, ChangedAt)
    && o.history[|o.history| - 1].status == o.status
  }

  /** `NewOrder`: no id yet, status new, the items and customer as given,
      and one history entry recording "new" at the creation instant. */
  function NewOrder(customer: string, items: seq<OrderItem>, now: Time): (o: Order)
    ensures o.id == "" && o.customer == customer && o.items == items
    ensures o.status == StatusNew
    ensures o.history == [StatusEntry(StatusNew, now)]
    ensures o.createdAt == now && o.updatedAt == now && o.history[0].changedAt == now
    ensures Consistent(o)
  {
    Order("", customer, StatusNew, items, now, now, [StatusEntry(StatusNew, now)])
  }

  /** The sum of the quantities ordered of product `p`. */
  function OrderedQuantity(items: seq<OrderItem>, p: string): real {
    if |items| == 0 then 0.0
    else (if items[0].productId == p then items[0].quantity else 0.0) + OrderedQuantity(items[1..], p)
  }
}
