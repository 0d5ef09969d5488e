/** Shared vocabulary of the warehouse backend model: time, the clock oracle,
    the store-failure oracle, the error taxonomy of the services and the
    result shapes every operation returns. */
module Base {

  /** A timestamp. `ZeroTime` plays the role of Go's zero `time.Time`,
      which the repositories test with `IsZero`. */
  type Time = int

  const ZeroTime: Time := 0

  /** One reading of the wall clock: the instant, and its textual form that
      the repositories append to a prefix ("w-", "o-", "p-", ...) to make ids. */
  datatype Clock = Clock(now: Time, stamp: string)

  datatype Option<+T> = None | Some(value: T)

  /** The SQL tables behind the repositories. */
  datatype Table = ProductRows | CategoryRows | SupplierRows | OrderRows | MovementRows

  /** A single call into the storage engine. Which calls fail is not decided
      by the program, so it is an input to every operation (see `Faults`). */
  datatype Call =
    | Select(table: Table, key: string)   // a by-id lookup, or the stock sum of one product
    | SelectBySku(sku: string)             // the product lookup by SKU
    | SelectAll(table: Table)              // a whole-table read (inventory, order list)
    | Insert(table: Table, n: nat)         // the n-th insert an operation performs into a table
    | UpdateRow(table: Table)
    | DeleteRow(table: Table)

  /** The storage calls that fail during one operation. */
  type Faults = set<Call>

  /** The errors the services return: their sentinel errors, the repositories'
      "with id ... not found" errors, a primary-key violation, and a failed
      storage call passed through unchanged. */
  datatype Error =
    | InvalidOperation | InsufficientStock
    | InvalidOrder | OrderNotFound | OrderBadStatus
    | InvalidProduct | ProductNotFound | SkuAlreadyUsed
    | InvalidCategory | CategoryNotFound
    | InvalidSupplier | SupplierNotFound
    | RowMissing(table: Table, id: string)
    | DuplicateKey(table: Table, id: string)
    | Backend(call: Call)

  datatype Result<+T> = Ok(value: T) | Err(error: Error)

  /** What an operation returns, together with the store it leaves behind. */
  datatype Outcome<+T, +S> = Outcome(result: Result<T>, state: S)

  /** The id a repository generates for a new row: a table prefix followed by
      the clock's text. */
  function GeneratedId(prefix: string, clock: Clock): (id: string)
    requires |prefix| > 0
    ensures |id| >= |prefix| && id[..|prefix|] == prefix
  {
    prefix + clock.stamp
  }
}
