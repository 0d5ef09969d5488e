/** Categories (`models/category.go`, `category_service.go`): a trimmed,
    required name, and the by-id not-found mapping. */
module Categories {
  import opened Base
  import opened Text
  import Store

  datatype Category = Category(id: string, name: string, createdAt: Time, updatedAt: Time)

  type CategoryTable = map<string, Category>

  /** The repository's `Create` with its "c-" id and timestamp defaulting. */
  function CreateRow(categories: CategoryTable, c: Category, clock: Clock, faults: Faults): (r: Outcome<Category, CategoryTable>)
    ensures r.result.Ok? ==> var s := r.result.value;
      && s.id == (if c.id == "" then "c-" + clock.stamp else c.id)
      && s.id !in categories && r.state == categories[s.id := s]
      && s.createdAt == (if c.createdAt == ZeroTime then clock.now else c.createdAt)
      && s.updatedAt == clock.now && s.name == c.name
    ensures Insert(CategoryRows, 0) in faults ==> r.result == Err(Backend(Insert(CategoryRows, 0)))
    ensures Insert(CategoryRows, 0) !in faults && (if c.id == "" then "c-" + clock.stamp else c.id) in categories ==>
      r.result == Err(DuplicateKey(CategoryRows, if c.id == "" then "c-" + clock.stamp else c.id))
    ensures r.result.Err? ==> r.state == categories
  {
    var s := c.(
      id := if c.id == "" then GeneratedId("c-", clock) else c.id,
      createdAt := if c.createdAt == ZeroTime then clock.now else c.createdAt,
      updatedAt := clock.now);
    Store.Insert(categories, CategoryRows, s.id, s, faults)
  }

  /** `GetCategory`: a blank id is invalid, a missing row is not found. */
  function GetCategory(categories: CategoryTable, id: string, faults: Faults): (r: Result<Category>)
    ensures TrimSpace(id) == "" ==> r == Err(InvalidCategory)
    ensures TrimSpace(id) != "" && Select(CategoryRows, TrimSpace(id)) !in faults && TrimSpace(id) !in categories ==>
      r == Err(CategoryNotFound)
    ensures TrimSpace(id) != "" && Select(CategoryRows, TrimSpace(id)) in faults ==>
      r == Err(Backend(Select(CategoryRows, TrimSpace(id))))
    ensures r.Ok? <==> TrimSpace(id) != "" && Select(CategoryRows, TrimSpace(id)) !in faults && TrimSpace(id) in categories
    ensures r.Ok? ==> r.value == categories[TrimSpace(id)]
  {
    var id := TrimSpace(id);
    if id == "" then Err(InvalidCategory)
    else
      var found := Store.Get(categories, CategoryRows, id, faults);
      if found.Err? then Err(found.error)
      else if found.value.None? then Err(CategoryNotFound)
      else Ok(found.value.value)
  }

  /** `CreateCategory`: the stored name is the trimmed one and must not be
      empty. */
  function CreateCategory(categories: CategoryTable, name: string, clock: Clock, faults: Faults): (r: Outcome<Category, CategoryTable>)
    ensures TrimSpace(name) == "" ==> r == Outcome(Err(InvalidCategory), categories)
    ensures TrimSpace(name) != "" && Insert(CategoryRows, 0) in faults ==>
      r == Outcome(Err(Backend(Insert(CategoryRows, 0))), categories)
    ensures TrimSpace(name) != "" && Insert(CategoryRows, 0) !in faults && "c-" + clock.stamp in categories ==>
      r == Outcome(Err(DuplicateKey(CategoryRows, "c-" + clock.stamp)), categories)
    ensures r.result.Err? ==> r.state == categories
    ensures r.result.Ok? ==> var c := r.result.value;
      && c.id == "c-" + clock.stamp && c.id !in categories && r.state == categories[c.id := c]
      && c.name == TrimSpace(name) && c.createdAt == clock.now && c.updatedAt == clock.now
    ensures r.result.Ok? <==>
      TrimSpace(name) != "" && Insert(CategoryRows, 0) !in faults && "c-" + clock.stamp !in categories
  {
    var name := TrimSpace(name);
    if name == "" then Outcome(Err(InvalidCategory), categories)
    else CreateRow(categories, Category("", name, clock.now, clock.now), clock, faults)
  }

  /** `UpdateCategory`: the id checks (blank, then not found) come before
      the name check; only the name changes. */
  function UpdateCategory(categories: CategoryTable, id: string, name: string, clock: Clock, faults: Faults): (r: Outcome<Category, CategoryTable>)
    ensures TrimSpace(id) == "" ==> r == Outcome(Err(InvalidCategory), categories)
    ensures TrimSpace(id) != "" && Select(CategoryRows, TrimSpace(id)) in faults ==>
      r == Outcome(Err(Backend(Select(CategoryRows, TrimSpace(id)))), categories)
    ensures TrimSpace(id) != "" && Select(CategoryRows, TrimSpace(id)) !in faults && TrimSpace(id) !in categories ==>
      r == Outcome(Err(CategoryNotFound), categories)
    ensures (TrimSpace(id) != "" && TrimSpace(id) in categories && Select(CategoryRows, TrimSpace(id)) !in faults
      && TrimSpace(name) != "" && UpdateRow(CategoryRows) in faults) ==>
      r == Outcome(Err(Backend(UpdateRow(CategoryRows))), categories)
    ensures TrimSpace(id) in categories && Select(CategoryRows, TrimSpace(id)) !in faults && TrimSpace(name) == "" ==>
      r == Outcome(Err(InvalidCategory), categories)
    ensures r.result.Err? ==> r.state == categories
    ensures r.result.Ok? ==> var c := r.result.value;
      && c.id == TrimSpace(id) && c.id in categories && r.state == categories[c.id := c]
      && c.name == TrimSpace(name) && c.createdAt == categories[c.id].createdAt && c.updatedAt == clock.now
    ensures r.result.Ok? <==>
      && TrimSpace(id) in categories && TrimSpace(id) != "" && TrimSpace(name) != ""
      && Select(CategoryRows, TrimSpace(id)) !in faults && UpdateRow(CategoryRows) !in faults
  {
    var id := TrimSpace(id);
    if id == "" then Outcome(Err(InvalidCategory), categories)
    else
      var found := Store.Get(categories, CategoryRows, id, faults);
      if found.Err? then Outcome(Err(found.error), categories)
      else if found.value.None? then Outcome(Err(CategoryNotFound), categories)
      else
        var name := TrimSpace(name);
        if name == "" then Outcome(Err(InvalidCategory), categories)
        else Store.Replace(categories, CategoryRows, id, found.value.value.(id := id, name := name, updatedAt := clock.now), faults)
  }

  /** `DeleteCategory`: a blank id is invalid; a missing row is the store's
      "not found" error. */
  function DeleteCategory(categories: CategoryTable, id: string, faults: Faults): (r: Outcome<(), CategoryTable>)
    ensures TrimSpace(id) == "" ==> r == Outcome(Err(InvalidCategory), categories)
    ensures r.result.Ok? <==> TrimSpace(id) != "" && TrimSpace(id) in categories && DeleteRow(CategoryRows) !in faults
    ensures r.result.Ok? ==> r.state == categories - {TrimSpace(id)}
    ensures TrimSpace(id) != "" && DeleteRow(CategoryRows) in faults ==>
      r == Outcome(Err(Backend(DeleteRow(CategoryRows))), categories)
    ensures TrimSpace(id) != "" && TrimSpace(id) !in categories && DeleteRow(CategoryRows) !in faults ==>
      r.result == Err(RowMissing(CategoryRows, TrimSpace(id)))
    ensures r.result.Err? ==> r.state == categories
  {
    var id := TrimSpace(id);
    if id == "" then Outcome(Err(InvalidCategory), categories)
    else Store.Remove(categories, CategoryRows, id, faults)
  }

  /** A created category is found again under its id, with the trimmed
      name. */
  lemma CreateThenGetCategory(categories: CategoryTable, name: string, clock: Clock, faults: Faults)
    requires Select(CategoryRows, "c-" + clock.stamp) !in faults
    requires NoSpaces(clock.stamp)
    ensures var r := CreateCategory(categories, name, clock, faults);
      r.result.Ok? ==> GetCategory(r.state, r.result.value.id, faults) == r.result
  {
    var r := CreateCategory(categories, name, clock, faults);
    if r.result.Ok? {
      GeneratedIdIsTrimmed("c-", clock.stamp);
    }
  }

  /** After an update, reading the category returns the updated row. */
  lemma UpdateThenGetCategory(categories: CategoryTable, id: string, name: string, clock: Clock, faults: Faults)
    requires Select(CategoryRows, TrimSpace(id)) !in faults
    ensures var r := UpdateCategory(categories, id, name, clock, faults);
      r.result.Ok? ==> GetCategory(r.state, id, faults) == r.result
  {
  }

  /** After a delete the category is not found. */
  lemma DeleteThenGetCategory(categories: CategoryTable, id: string, faults: Faults)
    requires Select(CategoryRows, TrimSpace(id)) !in faults
    ensures var r := DeleteCategory(categories, id, faults);
      r.result.Ok? ==> GetCategory(r.state, id, faults) == Err(CategoryNotFound)
  {
  }
}
