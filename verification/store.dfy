/** A table of the relational store keyed by its `id` primary key, as the
    product, category, supplier and order repositories use it: a by-id
    lookup that reports a missing row as "no row, no error", an insert that
    refuses an existing key, and an update or delete that fails with
    "with id ... not found" when no row matches. */
module Store {
  import opened Base

  /** `GetByID`: a failed call is an error; an absent row is `None`. */
  function Get<T>(rows: map<string, T>, t: Table, id: string, faults: Faults): (r: Result<Option<T>>)
    ensures r.Err? <==> Select(t, id) in faults
    ensures r.Err? ==> r.error == Backend(Select(t, id))
    ensures r.Ok? ==> (r.value.Some? <==> id in rows)
    ensures r.Ok? && r.value.Some? ==> id in rows && r.value.value == rows[id]
  {
    if Select(t, id) in faults then Err(Backend(Select(t, id)))
    else if id in rows then Ok(Some(rows[id]))
    else Ok(None)
  }

  /** `INSERT`: the primary key rejects an id that is already stored. */
  function Insert<T>(rows: map<string, T>, t: Table, id: string, row: T, faults: Faults): (r: Outcome<T, map<string, T>>)
    ensures r.result.Ok? <==> Base.Insert(t, 0) !in faults && id !in rows
    ensures Base.Insert(t, 0) in faults ==> r.result == Err(Backend(Base.Insert(t, 0)))
    ensures Base.Insert(t, 0) !in faults && id in rows ==> r.result == Err(DuplicateKey(t, id))
    ensures r.result.Ok? ==> r.result.value == row && r.state == rows[id := row]
    ensures r.result.Err? ==> r.state == rows
  {
    if Base.Insert(t, 0) in faults then Outcome(Err(Backend(Base.Insert(t, 0))), rows)
    else if id in rows then Outcome(Err(DuplicateKey(t, id)), rows)
    else Outcome(Ok(row), rows[id := row])
  }

  /** `UPDATE ... WHERE id = ?` with the rows-affected check. */
  function Replace<T>(rows: map<string, T>, t: Table, id: string, row: T, faults: Faults): (r: Outcome<T, map<string, T>>)
    ensures r.result.Ok? <==> UpdateRow(t) !in faults && id in rows
    ensures r.result.Ok? ==> r.result.value == row && r.state == rows[id := row]
    ensures r.result.Err? ==> r.state == rows
    ensures UpdateRow(t) in faults ==> r.result == Err(Backend(UpdateRow(t)))
    ensures UpdateRow(t) !in faults && id !in rows ==> r.result == Err(RowMissing(t, id))
  {
    if UpdateRow(t) in faults then Outcome(Err(Backend(UpdateRow(t))), rows)
    else if id !in rows then Outcome(Err(RowMissing(t, id)), rows)
    else Outcome(Ok(row), rows[id := row])
  }

  /** `DELETE ... WHERE id = ?` with the rows-affected check. */
  function Remove<T>(rows: map<string, T>, t: Table, id: string, faults: Faults): (r: Outcome<(), map<string, T>>)
    ensures r.result.Ok? <==> DeleteRow(t) !in faults && id in rows
    ensures r.result.Ok? ==> r.state == rows - {id} && r.state.Keys == rows.Keys - {id}
    ensures r.result.Err? ==> r.state == rows
    ensures DeleteRow(t) in faults ==> r.result == Err(Backend(DeleteRow(t)))
    ensures DeleteRow(t) !in faults && id !in rows ==> r.result == Err(RowMissing(t, id))
  {
    if DeleteRow(t) in faults then Outcome(Err(Backend(DeleteRow(t))), rows)
    else if id !in rows then Outcome(Err(RowMissing(t, id)), rows)
    else Outcome(Ok(()), rows - {id})
  }
}
