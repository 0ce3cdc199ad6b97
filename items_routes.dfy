/** The `/items/` endpoints (`app/items/routes.py`). Each receives the user
    resolved from the bearer token and passes that user's id, and no id taken
    from the request, as the owner to the item table. */
module ItemsRoutes {
  import opened Outcomes
  import opened ItemsLogic
  import opened AuthLogic

  /** The query string of `GET /items/`; absent parameters are `None`. */
  datatype ListParams = ListParams(skip: Option<int>, limit: Option<int>,
                                   minPrice: Option<real>, maxPrice: Option<real>,
                                   query: Option<string>)

  /** The parameters once validated and defaulted. */
  datatype ListQuery = ListQuery(skip: nat, limit: nat,
                                 minPrice: Option<real>, maxPrice: Option<real>,
                                 query: Option<string>)

  const DefaultSkip: nat := 0
  const DefaultLimit: nat := 10

  /** The declared bounds: `skip >= 0`, `limit >= 1`, prices `>= 0`. */
  predicate WithinBounds(p: ListParams)
  {
    && (p.skip.Some? ==> p.skip.value >= 0)
    && (p.limit.Some? ==> p.limit.value >= 1)
    && (p.minPrice.Some? ==> p.minPrice.value >= 0.0)
    && (p.maxPrice.Some? ==> p.maxPrice.value >= 0.0)
  }

  /** Parameter validation of `read_items`: out-of-bounds values are 422 before
      the handler runs; then both prices given with `min_price > max_price` is
      400; otherwise the defaults fill in the absent `skip` and `limit`. */
  function ValidateListParams(p: ListParams): (r: Result<ListQuery, HttpError>)
    ensures r.Success? <==> WithinBounds(p)
                            && !(p.minPrice.Some? && p.maxPrice.Some? && p.minPrice.value > p.maxPrice.value)
    ensures !WithinBounds(p) ==> r.Failure? && r.error.status == 422
    ensures WithinBounds(p) && r.Failure? ==> r.error == InvertedPriceRange
    ensures r.Success? ==> && r.value.skip == (if p.skip.Some? then p.skip.value else 0)
                           && r.value.limit == (if p.limit.Some? then p.limit.value else 10)
                           && r.value.limit >= 1
                           && r.value.minPrice == p.minPrice && r.value.maxPrice == p.maxPrice
                           && r.value.query == p.query
  {
    if p.skip.Some? && p.skip.value < 0 then Failure(Unprocessable("skip"))
    else if p.limit.Some? && p.limit.value < 1 then Failure(Unprocessable("limit"))
    else if p.minPrice.Some? && p.minPrice.value < 0.0 then Failure(Unprocessable("min_price"))
    else if p.maxPrice.Some? && p.maxPrice.value < 0.0 then Failure(Unprocessable("max_price"))
    else if p.minPrice.Some? && p.maxPrice.Some? && p.minPrice.value > p.maxPrice.value then
      Failure(InvertedPriceRange)
    else
      Success(ListQuery(
        if p.skip.Some? then p.skip.value else DefaultSkip,
        if p.limit.Some? then p.limit.value else DefaultLimit,
        p.minPrice, p.maxPrice, p.query))
  }

  /** A price range that is a single point is accepted. */
  lemma EqualBoundsAccepted(p: ListParams)
    requires WithinBounds(p) && p.minPrice.Some? && p.maxPrice == p.minPrice
    ensures ValidateListParams(p).Success?
  {
  }

  /** `GET /items/`: the caller's listing, or the validation error without
      consulting the table. */
  function ReadItems(rows: seq<Item>, currentUser: User, p: ListParams): (r: Result<seq<Item>, HttpError>)
    ensures ValidateListParams(p).Failure? ==> r == Failure(ValidateListParams(p).error)
    ensures ValidateListParams(p).Success? ==> r.Success?
    ensures r.Success? ==>
      var q := ValidateListParams(p).value;
      && |r.value| <= q.limit
      && r.value == Page(WhereAll(rows, Criteria(currentUser.id, q.minPrice, q.maxPrice, q.query)), q.skip, q.limit)
      && forall k :: 0 <= k < |r.value| ==>
           r.value[k] in rows && r.value[k].userId == currentUser.id
           && Selected(r.value[k], currentUser.id, q.minPrice, q.maxPrice, q.query)
  {
    match ValidateListParams(p)
    case Failure(e) => Failure(e)
    case Success(q) =>
      var listed := GetItems(rows, currentUser.id, q.skip, q.limit, q.minPrice, q.maxPrice, q.query);
      GetItemsCorrect(rows, currentUser.id, q.skip, q.limit, q.minPrice, q.maxPrice, q.query);
      assert forall k :: 0 <= k < |listed| ==> listed[k] in WhereAll(rows, Criteria(currentUser.id, q.minPrice, q.maxPrice, q.query));
      Success(listed)
  }

  /** `GET /items/{item_id}`: the caller's item with that id, or 404. */
  function ReadItem(rows: seq<Item>, currentUser: User, itemId: int): (r: Result<Item, HttpError>)
    ensures r.Success? ==> r.value in rows && r.value.id == itemId && r.value.userId == currentUser.id
    ensures r.Failure? ==> r.error == ItemNotFound
    ensures r.Failure? <==> forall j :: 0 <= j < |rows| ==> !(rows[j].id == itemId && rows[j].userId == currentUser.id)
  {
    GetItem(rows, itemId, currentUser.id)
  }

  /** `POST /items/`: 201 and the new row, owned by the caller. */
  method CreateItemRoute(table: ItemTable, currentUser: User, body: ItemCreate) returns (status: int, item: Item)
    requires table.Valid()
    modifies table
    ensures table.Valid()
    ensures status == 201
    ensures item.userId == currentUser.id
    ensures item.name == body.name && item.description == body.description && item.price == body.price
    ensures table.rows == old(table.rows) + [item]
  {
    item := table.CreateItem(body, currentUser.id);
    status := 201;
  }

  /** A field of a request body that may be left out. */
  datatype Supplied<T> = Unset | Set(value: T)

  /** The body of an update request (`ItemUpdate`): `name` and `price` are
      required, `description` may be left out. */
  datatype ItemUpdate = ItemUpdate(name: string, description: Supplied<Option<string>>, price: real)

  /** `item.dict(exclude_unset=True).items()`, in declaration order. */
  function SuppliedFields(u: ItemUpdate): (fields: seq<FieldValue>)
    ensures DistinctKeys(fields)
    ensures exists i :: 0 <= i < |fields| && fields[i] == Name(u.name)
    ensures exists i :: 0 <= i < |fields| && fields[i] == Price(u.price)
    ensures (exists i :: 0 <= i < |fields| && fields[i].Description?) <==> u.description.Set?
    ensures forall i :: 0 <= i < |fields| && fields[i].Description? ==> fields[i].description == u.description.value
  {
    var fields := [Name(u.name)]
                  + (if u.description.Set? then [Description(u.description.value)] else [])
                  + [Price(u.price)];
    assert fields[0] == Name(u.name);
    assert fields[|fields| - 1] == Price(u.price);
    assert u.description.Set? ==> fields[1].Description?;
    fields
  }

  /** `PUT /items/{item_id}`: the caller's row with the body merged in (the
      description only when it was sent), or 404 with the table unchanged. */
  method UpdateItemRoute(table: ItemTable, currentUser: User, itemId: int, body: ItemUpdate) returns (r: Result<Item, HttpError>)
    requires table.Valid()
    modifies table
    ensures table.Valid()
    ensures match old(FindOwned(table.rows, itemId, currentUser.id))
      case None => r == Failure(ItemNotFound) && table.rows == old(table.rows)
      case Some(i) =>
        var before := old(table.rows)[i];
        && r == Success(Item(itemId, body.name,
                             if body.description.Set? then body.description.value else before.description,
                             body.price, currentUser.id))
        && table.rows == old(table.rows)[i := r.value]
  {
    var fields := SuppliedFields(body);
    ghost var found := FindOwned(table.rows, itemId, currentUser.id);
    ghost var rowsBefore := table.rows;
    if found.Some? {
      ApplyFieldsWritesOnlySupplied(rowsBefore[found.value], fields);
    }
    r := table.UpdateItem(itemId, fields, currentUser.id);
  }

  /** `DELETE /items/{item_id}`: 204 with the caller's row removed, or 404 with
      the table unchanged. */
  method DeleteItemRoute(table: ItemTable, currentUser: User, itemId: int) returns (r: Result<int, HttpError>)
    requires table.Valid()
    modifies table
    ensures table.Valid()
    ensures match old(FindOwned(table.rows, itemId, currentUser.id))
      case None => r == Failure(ItemNotFound) && table.rows == old(table.rows)
      case Some(i) => r == Success(204) && table.rows == RemoveAt(old(table.rows), i)
  {
    var deleted := table.DeleteItem(itemId, currentUser.id);
    match deleted
    case Failure(e) => r := Failure(e);
    case Success(_) => r := Success(204);
  }
}
