/** Products (`models/product.go`, `product_service.go`): required fields
    after trimming, SKU uniqueness checked by the service, and the store's
    not-found mapping. The product table is a map from id to row. */
module Products {
  import opened Base
  import opened Text
  import Store

  datatype Product = Product(
    id: string,
    sku: string,
    name: string,
    description: string,
    categoryId: string,
    supplierId: string,
    unit: string,
    createdAt: Time,
    updatedAt: Time)

  type ProductTable = map<string, Product>

  /** `NewProduct`: a row without an id, both timestamps at `now`. */
  function NewProduct(sku: string, name: string, description: string, categoryId: string,
                      supplierId: string, unit: string, now: Time): Product
  {
    Product("", sku, name, description, categoryId, supplierId, unit, now, now)
  }

  /** Some stored product carries `sku` (the `GetBySKU` lookup is not nil). */
  predicate SkuTaken(products: ProductTable, sku: string) {
    exists id :: id in products && products[id].sku == sku
  }

  /** No two stored products share a SKU. */
  predicate UniqueSkus(products: ProductTable) {
    forall a, b :: a in products && b in products && products[a].sku == products[b].sku ==> a == b
  }

  /** The repository's `Create`: a generated "p-" id when none is given, the
      creation time kept unless zero, the update time set to now. */
  function CreateRow(products: ProductTable, p: Product, clock: Clock, faults: Faults): (r: Outcome<Product, ProductTable>)
    ensures r.result.Ok? ==> var s := r.result.value;
      && s.id == (if p.id == "" then "p-" + clock.stamp else p.id)
      && s.id !in products && r.state == products[s.id := s]
      && s.createdAt == (if p.createdAt == ZeroTime then clock.now else p.createdAt)
      && s.updatedAt == clock.now
      && s.(id := p.id, createdAt := p.createdAt, updatedAt := p.updatedAt) == p
    ensures r.result.Ok? <==>
      && Insert(ProductRows, 0) !in faults
      && (if p.id == "" then "p-" + clock.stamp else p.id) !in products
    ensures Insert(ProductRows, 0) in faults ==> r.result == Err(Backend(Insert(ProductRows, 0)))
    ensures Insert(ProductRows, 0) !in faults && (if p.id == "" then "p-" + clock.stamp else p.id) in products ==>
      r.result == Err(DuplicateKey(ProductRows, if p.id == "" then "p-" + clock.stamp else p.id))
    ensures r.result.Err? ==> r.state == products
  {
    var s := p.(
      id := if p.id == "" then GeneratedId("p-", clock) else p.id,
      createdAt := if p.createdAt == ZeroTime then clock.now else p.createdAt,
      updatedAt := clock.now);
    Store.Insert(products, ProductRows, s.id, s, faults)
  }

  /** `GetProduct`: the id is used as given (no trimming, no blank check);
      a missing row becomes `ProductNotFound`. */
  function GetProduct(products: ProductTable, id: string, faults: Faults): (r: Result<Product>)
    ensures r.Ok? <==> Select(ProductRows, id) !in faults && id in products
    ensures r.Ok? ==> r.value == products[id]
    ensures Select(ProductRows, id) !in faults && id !in products ==> r == Err(ProductNotFound)
    ensures Select(ProductRows, id) in faults ==> r == Err(Backend(Select(ProductRows, id)))
  {
    var found := Store.Get(products, ProductRows, id, faults);
    if found.Err? then Err(found.error)
    else if found.value.None? then Err(ProductNotFound)
    else Ok(found.value.value)
  }

  /** `CreateProduct`: SKU, name and category are trimmed and required; the
      SKU must not be in use; description, supplier and unit are stored as
      given. */
  function CreateProduct(products: ProductTable, sku: string, name: string, description: string,
                         categoryId: string, supplierId: string, unit: string,
                         clock: Clock, faults: Faults): (r: Outcome<Product, ProductTable>)
    ensures TrimSpace(sku) == "" || TrimSpace(name) == "" || TrimSpace(categoryId) == "" ==>
      r == Outcome(Err(InvalidProduct), products)
    ensures (TrimSpace(sku) != "" && TrimSpace(name) != "" && TrimSpace(categoryId) != ""
      && SelectBySku(TrimSpace(sku)) !in faults && SkuTaken(products, TrimSpace(sku))) ==>
      r == Outcome(Err(SkuAlreadyUsed), products)
    ensures (TrimSpace(sku) != "" && TrimSpace(name) != "" && TrimSpace(categoryId) != ""
      && SelectBySku(TrimSpace(sku)) in faults) ==>
      r == Outcome(Err(Backend(SelectBySku(TrimSpace(sku)))), products)
    ensures (TrimSpace(sku) != "" && TrimSpace(name) != "" && TrimSpace(categoryId) != ""
      && SelectBySku(TrimSpace(sku)) !in faults && !SkuTaken(products, TrimSpace(sku))) ==>
      && (Insert(ProductRows, 0) in faults ==> r == Outcome(Err(Backend(Insert(ProductRows, 0))), products))
      && (Insert(ProductRows, 0) !in faults && "p-" + clock.stamp in products ==>
            r == Outcome(Err(DuplicateKey(ProductRows, "p-" + clock.stamp)), products))
    ensures r.result.Ok? <==>
      && TrimSpace(sku) != "" && TrimSpace(name) != "" && TrimSpace(categoryId) != ""
      && SelectBySku(TrimSpace(sku)) !in faults && !SkuTaken(products, TrimSpace(sku))
      && Insert(ProductRows, 0) !in faults && "p-" + clock.stamp !in products
    ensures r.result.Err? ==> r.state == products
    ensures r.result.Ok? ==> !SkuTaken(products, TrimSpace(sku))
    ensures r.result.Ok? ==> var p := r.result.value;
      && p.id == "p-" + clock.stamp && p.id !in products && r.state == products[p.id := p]
      && p.sku == TrimSpace(sku) && p.name == TrimSpace(name) && p.categoryId == TrimSpace(categoryId)
      && p.description == description && p.supplierId == supplierId && p.unit == unit
      && p.createdAt == clock.now && p.updatedAt == clock.now
  {
    var sku, name, categoryId := TrimSpace(sku), TrimSpace(name), TrimSpace(categoryId);
    if sku == "" || name == "" || categoryId == "" then Outcome(Err(InvalidProduct), products)
    else if SelectBySku(sku) in faults then Outcome(Err(Backend(SelectBySku(sku))), products)
    else if SkuTaken(products, sku) then Outcome(Err(SkuAlreadyUsed), products)
    else CreateRow(products, NewProduct(sku, name, description, categoryId, supplierId, unit, clock.now), clock, faults)
  }

  /** `UpdateProduct`: the id is trimmed and required and the product must
      exist, both checked before the fields; the SKU is checked for
      uniqueness only when it changes. */
  function UpdateProduct(products: ProductTable, id: string, sku: string, name: string, description: string,
                         categoryId: string, supplierId: string, unit: string,
                         clock: Clock, faults: Faults): (r: Outcome<Product, ProductTable>)
    ensures TrimSpace(id) == "" ==> r == Outcome(Err(InvalidProduct), products)
    ensures TrimSpace(id) != "" && Select(ProductRows, TrimSpace(id)) in faults ==>
      r == Outcome(Err(Backend(Select(ProductRows, TrimSpace(id)))), products)
    ensures TrimSpace(id) != "" && Select(ProductRows, TrimSpace(id)) !in faults && TrimSpace(id) !in products ==>
      r == Outcome(Err(ProductNotFound), products)
    ensures (TrimSpace(id) in products && Select(ProductRows, TrimSpace(id)) !in faults
      && (TrimSpace(sku) == "" || TrimSpace(name) == "" || TrimSpace(categoryId) == "")) ==>
      r == Outcome(Err(InvalidProduct), products)
    ensures (TrimSpace(id) != "" && TrimSpace(id) in products && Select(ProductRows, TrimSpace(id)) !in faults) ==>
      r == Edit(products, TrimSpace(id), sku, name, description, categoryId, supplierId, unit, clock, faults)
    ensures TrimSpace(id) in products && TrimSpace(sku) == products[TrimSpace(id)].sku ==>
      r.result != Err(SkuAlreadyUsed)
    ensures r.result == Err(SkuAlreadyUsed) ==> SkuTaken(products, TrimSpace(sku))
    ensures r.result.Ok? <==>
      && TrimSpace(id) != "" && Select(ProductRows, TrimSpace(id)) !in faults && TrimSpace(id) in products
      && TrimSpace(sku) != "" && TrimSpace(name) != "" && TrimSpace(categoryId) != ""
      && (TrimSpace(sku) != products[TrimSpace(id)].sku ==>
            SelectBySku(TrimSpace(sku)) !in faults && !SkuTaken(products, TrimSpace(sku)))
      && UpdateRow(ProductRows) !in faults
    ensures r.result.Err? ==> r.state == products
    ensures r.result.Ok? ==> var p := r.result.value;
      && p.id == TrimSpace(id) && p.id in products
      && (TrimSpace(sku) != products[p.id].sku ==> !SkuTaken(products, TrimSpace(sku)))
      && r.state == products[p.id := p]
      && p.sku == TrimSpace(sku) && p.name == TrimSpace(name) && p.categoryId == TrimSpace(categoryId)
      && p.description == description && p.supplierId == supplierId && p.unit == unit
      && p.createdAt == products[p.id].createdAt && p.updatedAt == clock.now
  {
    var id := TrimSpace(id);
    if id == "" then Outcome(Err(InvalidProduct), products)
    else
      var found := Store.Get(products, ProductRows, id, faults);
      if found.Err? then Outcome(Err(found.error), products)
      else if found.value.None? then Outcome(Err(ProductNotFound), products)
      else Edit(products, id, sku, name, description, categoryId, supplierId, unit, clock, faults)
  }

  /** The part of `UpdateProduct` after the product was found. */
  function Edit(products: ProductTable, id: string, sku: string, name: string, description: string,
                categoryId: string, supplierId: string, unit: string,
                clock: Clock, faults: Faults): (r: Outcome<Product, ProductTable>)
    requires id in products
    ensures TrimSpace(sku) == "" || TrimSpace(name) == "" || TrimSpace(categoryId) == "" ==>
      r == Outcome(Err(InvalidProduct), products)
    ensures (TrimSpace(sku) != "" && TrimSpace(name) != "" && TrimSpace(categoryId) != ""
      && TrimSpace(sku) != products[id].sku) ==>
      && (SelectBySku(TrimSpace(sku)) in faults ==>
            r == Outcome(Err(Backend(SelectBySku(TrimSpace(sku)))), products))
      && (SelectBySku(TrimSpace(sku)) !in faults && SkuTaken(products, TrimSpace(sku)) ==>
            r == Outcome(Err(SkuAlreadyUsed), products))
    ensures (TrimSpace(sku) != "" && TrimSpace(name) != "" && TrimSpace(categoryId) != ""
      && (TrimSpace(sku) != products[id].sku ==>
            SelectBySku(TrimSpace(sku)) !in faults && !SkuTaken(products, TrimSpace(sku)))
      && UpdateRow(ProductRows) in faults) ==> r == Outcome(Err(Backend(UpdateRow(ProductRows))), products)
    ensures TrimSpace(sku) == products[id].sku ==> r.result != Err(SkuAlreadyUsed)
    ensures r.result == Err(SkuAlreadyUsed) ==> SkuTaken(products, TrimSpace(sku))
    ensures r.result.Ok? <==>
      && TrimSpace(sku) != "" && TrimSpace(name) != "" && TrimSpace(categoryId) != ""
      && (TrimSpace(sku) != products[id].sku ==>
            SelectBySku(TrimSpace(sku)) !in faults && !SkuTaken(products, TrimSpace(sku)))
      && UpdateRow(ProductRows) !in faults
    ensures r.result.Err? ==> r.state == products
    ensures r.result.Ok? ==> var p := r.result.value;
      && p.id == id
      && (TrimSpace(sku) != products[id].sku ==> !SkuTaken(products, TrimSpace(sku)))
      && r.state == products[id := p]
      && p.sku == TrimSpace(sku) && p.name == TrimSpace(name) && p.categoryId == TrimSpace(categoryId)
      && p.description == description && p.supplierId == supplierId && p.unit == unit
      && p.createdAt == products[id].createdAt && p.updatedAt == clock.now
  {
    var current := products[id];
    var sku, name, categoryId := TrimSpace(sku), TrimSpace(name), TrimSpace(categoryId);
    if sku == "" || name == "" || categoryId == "" then Outcome(Err(InvalidProduct), products)
    else if current.sku != sku && SelectBySku(sku) in faults then Outcome(Err(Backend(SelectBySku(sku))), products)
    else if current.sku != sku && SkuTaken(products, sku) then Outcome(Err(SkuAlreadyUsed), products)
    else
      var edited := current.(id := id, sku := sku, name := name, description := description,
                             categoryId := categoryId, supplierId := supplierId, unit := unit,
                             updatedAt := clock.now);
      Store.Replace(products, ProductRows, id, edited, faults)
  }

  /** `DeleteProduct`: a blank id is invalid; a missing row is the store's
      "not found" error. */
  function DeleteProduct(products: ProductTable, id: string, faults: Faults): (r: Outcome<(), ProductTable>)
    ensures TrimSpace(id) == "" ==> r == Outcome(Err(InvalidProduct), products)
    ensures r.result.Ok? <==> TrimSpace(id) != "" && TrimSpace(id) in products && DeleteRow(ProductRows) !in faults
    ensures r.result.Ok? ==> r.state == products - {TrimSpace(id)}
    ensures r.result.Err? ==> r.state == products
    ensures TrimSpace(id) != "" && TrimSpace(id) !in products && DeleteRow(ProductRows) !in faults ==>
      r.result == Err(RowMissing(ProductRows, TrimSpace(id)))
    ensures TrimSpace(id) != "" && DeleteRow(ProductRows) in faults ==>
      r == Outcome(Err(Backend(DeleteRow(ProductRows))), products)
  {
    var id := TrimSpace(id);
    if id == "" then Outcome(Err(InvalidProduct), products)
    else Store.Remove(products, ProductRows, id, faults)
  }

  /** Creating a product keeps SKUs unique. */
  lemma CreateProductKeepsSkusUnique(products: ProductTable, sku: string, name: string, description: string,
                                     categoryId: string, supplierId: string, unit: string,
                                     clock: Clock, faults: Faults)
    requires UniqueSkus(products)
    ensures UniqueSkus(CreateProduct(products, sku, name, description, categoryId, supplierId, unit, clock, faults).state)
  {
  }

  /** Updating a product keeps SKUs unique, whether or not its SKU changes. */
  lemma UpdateProductKeepsSkusUnique(products: ProductTable, id: string, sku: string, name: string, description: string,
                                     categoryId: string, supplierId: string, unit: string,
                                     clock: Clock, faults: Faults)
    requires UniqueSkus(products)
    ensures UniqueSkus(UpdateProduct(products, id, sku, name, description, categoryId, supplierId, unit, clock, faults).state)
  {
  }

  /** A created product is found again under its new id. */
  lemma CreateThenGetProduct(products: ProductTable, sku: string, name: string, description: string,
                             categoryId: string, supplierId: string, unit: string,
                             clock: Clock, faults: Faults)
    requires Select(ProductRows, "p-" + clock.stamp) !in faults
    ensures var r := CreateProduct(products, sku, name, description, categoryId, supplierId, unit, clock, faults);
      r.result.Ok? ==> GetProduct(r.state, r.result.value.id, faults) == r.result
  {
  }

  /** A deleted product is no longer found. */
  lemma DeleteThenGetProduct(products: ProductTable, id: string, faults: Faults)
    requires Select(ProductRows, TrimSpace(id)) !in faults
    ensures var r := DeleteProduct(products, id, faults);
      r.result.Ok? ==> GetProduct(r.state, TrimSpace(id), faults) == Err(ProductNotFound)
  {
  }
}
