/** Suppliers (`models/supplier.go`, `supplier_service.go`): all four text
    fields are trimmed, the name is required, and by-id lookups map a
    missing row to not found. */
module Suppliers {
  import opened Base
  import opened Text
  import Store

  datatype Supplier = Supplier(
    id: string, name: string, address: string, phone: string, email: string,
    createdAt: Time, updatedAt: Time)

  type SupplierTable = map<string, Supplier>

  /** The repository's `Create` with its "s-" id and timestamp defaulting. */
  function CreateRow(suppliers: SupplierTable, s: Supplier, clock: Clock, faults: Faults): (r: Outcome<Supplier, SupplierTable>)
    ensures r.result.Ok? ==> var t := r.result.value;
      && t.id == (if s.id == "" then "s-" + clock.stamp else s.id)
      && t.id !in suppliers && r.state == suppliers[t.id := t]
      && t.createdAt == (if s.createdAt == ZeroTime then clock.now else s.createdAt)
      && t.updatedAt == clock.now
      && t.(id := s.id, createdAt := s.createdAt, updatedAt := s.updatedAt) == s
    ensures Insert(SupplierRows, 0) in faults ==> r.result == Err(Backend(Insert(SupplierRows, 0)))
    ensures Insert(SupplierRows, 0) !in faults && (if s.id == "" then "s-" + clock.stamp else s.id) in suppliers ==>
      r.result == Err(DuplicateKey(SupplierRows, if s.id == "" then "s-" + clock.stamp else s.id))
    ensures r.result.Err? ==> r.state == suppliers
  {
    var t := s.(
      id := if s.id == "" then GeneratedId("s-", clock) else s.id,
      createdAt := if s.createdAt == ZeroTime then clock.now else s.createdAt,
      updatedAt := clock.now);
    Store.Insert(suppliers, SupplierRows, t.id, t, faults)
  }

  /** `GetSupplier`: a blank id is invalid, a missing row is not found. */
  function GetSupplier(suppliers: SupplierTable, id: string, faults: Faults): (r: Result<Supplier>)
    ensures TrimSpace(id) == "" ==> r == Err(InvalidSupplier)
    ensures TrimSpace(id) != "" && Select(SupplierRows, TrimSpace(id)) !in faults && TrimSpace(id) !in suppliers ==>
      r == Err(SupplierNotFound)
    ensures TrimSpace(id) != "" && Select(SupplierRows, TrimSpace(id)) in faults ==>
      r == Err(Backend(Select(SupplierRows, TrimSpace(id))))
    ensures r.Ok? <==> TrimSpace(id) != "" && Select(SupplierRows, TrimSpace(id)) !in faults && TrimSpace(id) in suppliers
    ensures r.Ok? ==> r.value == suppliers[TrimSpace(id)]
  {
    var id := TrimSpace(id);
    if id == "" then Err(InvalidSupplier)
    else
      var found := Store.Get(suppliers, SupplierRows, id, faults);
      if found.Err? then Err(found.error)
      else if found.value.None? then Err(SupplierNotFound)
      else Ok(found.value.value)
  }

  /** `CreateSupplier`: name, address, phone and email are stored trimmed;
      only the name is required. */
  function CreateSupplier(suppliers: SupplierTable, name: string, address: string, phone: string, email: string,
                          clock: Clock, faults: Faults): (r: Outcome<Supplier, SupplierTable>)
    ensures TrimSpace(name) == "" ==> r == Outcome(Err(InvalidSupplier), suppliers)
    ensures TrimSpace(name) != "" && Insert(SupplierRows, 0) in faults ==>
      r == Outcome(Err(Backend(Insert(SupplierRows, 0))), suppliers)
    ensures TrimSpace(name) != "" && Insert(SupplierRows, 0) !in faults && "s-" + clock.stamp in suppliers ==>
      r == Outcome(Err(DuplicateKey(SupplierRows, "s-" + clock.stamp)), suppliers)
    ensures r.result.Err? ==> r.state == suppliers
    ensures r.result.Ok? ==> var s := r.result.value;
      && s.id == "s-" + clock.stamp && s.id !in suppliers && r.state == suppliers[s.id := s]
      && s.name == TrimSpace(name) && s.address == TrimSpace(address)
      && s.phone == TrimSpace(phone) && s.email == TrimSpace(email)
      && s.createdAt == clock.now && s.updatedAt == clock.now
    ensures r.result.Ok? <==>
      TrimSpace(name) != "" && Insert(SupplierRows, 0) !in faults && "s-" + clock.stamp !in suppliers
  {
    var name, address, phone, email := TrimSpace(name), TrimSpace(address), TrimSpace(phone), TrimSpace(email);
    if name == "" then Outcome(Err(InvalidSupplier), suppliers)
    else CreateRow(suppliers, Supplier("", name, address, phone, email, clock.now, clock.now), clock, faults)
  }

  /** `UpdateSupplier`: the id checks (blank, then not found) come before
      the name check; the four text fields are replaced by their trimmed
      values. */
  function UpdateSupplier(suppliers: SupplierTable, id: string, name: string, address: string, phone: string, email: string,
                          clock: Clock, faults: Faults): (r: Outcome<Supplier, SupplierTable>)
    ensures TrimSpace(id) == "" ==> r == Outcome(Err(InvalidSupplier), suppliers)
    ensures TrimSpace(id) != "" && Select(SupplierRows, TrimSpace(id)) in faults ==>
      r == Outcome(Err(Backend(Select(SupplierRows, TrimSpace(id)))), suppliers)
    ensures TrimSpace(id) != "" && Select(SupplierRows, TrimSpace(id)) !in faults && TrimSpace(id) !in suppliers ==>
      r == Outcome(Err(SupplierNotFound), suppliers)
    ensures (TrimSpace(id) != "" && TrimSpace(id) in suppliers && Select(SupplierRows, TrimSpace(id)) !in faults
      && TrimSpace(name) != "" && UpdateRow(SupplierRows) in faults) ==>
      r == Outcome(Err(Backend(UpdateRow(SupplierRows))), suppliers)
    ensures TrimSpace(id) in suppliers && Select(SupplierRows, TrimSpace(id)) !in faults && TrimSpace(name) == "" ==>
      r == Outcome(Err(InvalidSupplier), suppliers)
    ensures r.result.Err? ==> r.state == suppliers
    ensures r.result.Ok? ==> var s := r.result.value;
      && s.id == TrimSpace(id) && s.id in suppliers && r.state == suppliers[s.id := s]
      && s.name == TrimSpace(name) && s.address == TrimSpace(address)
      && s.phone == TrimSpace(phone) && s.email == TrimSpace(email)
      && s.createdAt == suppliers[s.id].createdAt && s.updatedAt == clock.now
    ensures r.result.Ok? <==>
      && TrimSpace(id) in suppliers && TrimSpace(id) != "" && TrimSpace(name) != ""
      && Select(SupplierRows, TrimSpace(id)) !in faults && UpdateRow(SupplierRows) !in faults
  {
    var id := TrimSpace(id);
    if id == "" then Outcome(Err(InvalidSupplier), suppliers)
    else
      var found := Store.Get(suppliers, SupplierRows, id, faults);
      if found.Err? then Outcome(Err(found.error), suppliers)
      else if found.value.None? then Outcome(Err(SupplierNotFound), suppliers)
      else
        var name, address, phone, email := TrimSpace(name), TrimSpace(address), TrimSpace(phone), TrimSpace(email);
        if name == "" then Outcome(Err(InvalidSupplier), suppliers)
        else
          var edited := found.value.value.(id := id, name := name, address := address, phone := phone,
                                           email := email, updatedAt := clock.now);
          Store.Replace(suppliers, SupplierRows, id, edited, faults)
  }

  /** `DeleteSupplier`: a blank id is invalid; a missing row is the store's
      "not found" error. */
  function DeleteSupplier(suppliers: SupplierTable, id: string, faults: Faults): (r: Outcome<(), SupplierTable>)
    ensures TrimSpace(id) == "" ==> r == Outcome(Err(InvalidSupplier), suppliers)
    ensures r.result.Ok? <==> TrimSpace(id) != "" && TrimSpace(id) in suppliers && DeleteRow(SupplierRows) !in faults
    ensures r.result.Ok? ==> r.state == suppliers - {TrimSpace(id)}
    ensures TrimSpace(id) != "" && DeleteRow(SupplierRows) in faults ==>
      r == Outcome(Err(Backend(DeleteRow(SupplierRows))), suppliers)
    ensures TrimSpace(id) != "" && TrimSpace(id) !in suppliers && DeleteRow(SupplierRows) !in faults ==>
      r.result == Err(RowMissing(SupplierRows, TrimSpace(id)))
    ensures r.result.Err? ==> r.state == suppliers
  {
    var id := TrimSpace(id);
    if id == "" then Outcome(Err(InvalidSupplier), suppliers)
    else Store.Remove(suppliers, SupplierRows, id, faults)
  }

  /** Every stored text field of a supplier written through the service is
      already trimmed: creating or updating keeps that true. */
  predicate Normalized(s: Supplier) {
    && TrimSpace(s.name) == s.name && s.name != ""
    && TrimSpace(s.address) == s.address
    && TrimSpace(s.phone) == s.phone
    && TrimSpace(s.email) == s.email
  }

  lemma WritesStoreNormalizedSuppliers(suppliers: SupplierTable, id: string, name: string, address: string,
                                       phone: string, email: string, clock: Clock, faults: Faults)
    ensures var r := CreateSupplier(suppliers, name, address, phone, email, clock, faults);
      r.result.Ok? ==> Normalized(r.result.value)
    ensures var r := UpdateSupplier(suppliers, id, name, address, phone, email, clock, faults);
      r.result.Ok? ==> Normalized(r.result.value)
  {
    TrimSpaceIdempotent(name);
    TrimSpaceIdempotent(address);
    TrimSpaceIdempotent(phone);
    TrimSpaceIdempotent(email);
  }

  /** A created supplier is found again under its id. */
  lemma CreateThenGetSupplier(suppliers: SupplierTable, name: string, address: string, phone: string, email: string,
                              clock: Clock, faults: Faults)
    requires Select(SupplierRows, "s-" + clock.stamp) !in faults
    requires NoSpaces(clock.stamp)
    ensures var r := CreateSupplier(suppliers, name, address, phone, email, clock, faults);
      r.result.Ok? ==> GetSupplier(r.state, r.result.value.id, faults) == r.result
  {
    var r := CreateSupplier(suppliers, name, address, phone, email, clock, faults);
    if r.result.Ok? {
      GeneratedIdIsTrimmed("s-", clock.stamp);
    }
  }

  /** After a delete the supplier is not found. */
  lemma DeleteThenGetSupplier(suppliers: SupplierTable, id: string, faults: Faults)
    requires Select(SupplierRows, TrimSpace(id)) !in faults
    ensures var r := DeleteSupplier(suppliers, id, faults);
      r.result.Ok? ==> GetSupplier(r.state, id, faults) == Err(SupplierNotFound)
  {
  }
}
