/** The item table and the ownership-scoped operations over it
    (`app/items/items_logic.py`). Every operation takes the caller's user id
    and only ever reads or writes rows whose `user_id` equals it. */
module ItemsLogic {
  import opened Outcomes
  import opened Search

  datatype Item = Item(id: int, name: string, description: Option<string>, price: real, userId: int)

  /** The body of a create request (`ItemCreate`). */
  datatype ItemCreate = ItemCreate(name: string, description: Option<string>, price: real)

  /** One entry of `item.dict(exclude_unset=True)`: a supplied field and its value. */
  datatype FieldValue = Name(name: string) | Description(description: Option<string>) | Price(price: real)

  datatype FieldKey = NameKey | DescriptionKey | PriceKey

  function KeyOf(f: FieldValue): FieldKey
  {
    match f
    case Name(_) => NameKey
    case Description(_) => DescriptionKey
    case Price(_) => PriceKey
  }

  /** The entries of a dictionary: no key twice. */
  predicate DistinctKeys(fields: seq<FieldValue>)
  {
    forall i, j :: 0 <= i < j < |fields| ==> KeyOf(fields[i]) != KeyOf(fields[j])
  }

  /** Row ids are a primary key. */
  predicate IdsDistinct(rows: seq<Item>)
  {
    forall i, j :: 0 <= i < j < |rows| ==> rows[i].id != rows[j].id
  }

  /** The row the filter `id == item_id, user_id == user_id` selects. */
  predicate IsOwnedRow(it: Item, itemId: int, userId: int)
  {
    it.id == itemId && it.userId == userId
  }

  /** `query(Item).filter(id == item_id, user_id == user_id).first()`: the
      position of the first row with both the id and the owner. */
  function FindOwned(rows: seq<Item>, itemId: int, userId: int): (r: Option<nat>)
    ensures r.Some? ==> r.value < |rows| && IsOwnedRow(rows[r.value], itemId, userId)
    ensures r.Some? ==> forall j :: 0 <= j < r.value ==> !IsOwnedRow(rows[j], itemId, userId)
    ensures r.None? ==> forall j :: 0 <= j < |rows| ==> !IsOwnedRow(rows[j], itemId, userId)
  {
    if |rows| == 0 then None
    else if IsOwnedRow(rows[0], itemId, userId) then Some(0)
    else match FindOwned(rows[1..], itemId, userId)
      case None => None
      case Some(k) => Some(k + 1)
  }

  /** `get_item`: the caller's row with that id, or 404. A row of another user
      gives the same 404 as a row that does not exist. */
  function GetItem(rows: seq<Item>, itemId: int, userId: int): (r: Result<Item, HttpError>)
    ensures r.Success? <==> exists j :: 0 <= j < |rows| && IsOwnedRow(rows[j], itemId, userId)
    ensures r.Success? ==> r.value in rows && r.value.id == itemId && r.value.userId == userId
    ensures r.Failure? ==> r.error == ItemNotFound
  {
    match FindOwned(rows, itemId, userId)
    case None => Failure(ItemNotFound)
    case Some(i) => Success(rows[i])
  }

  /** `setattr(db_item, key, value)` for one supplied field. */
  function SetField(item: Item, f: FieldValue): (r: Item)
    ensures r.id == item.id && r.userId == item.userId
    ensures r.name == (if f.Name? then f.name else item.name)
    ensures r.description == (if f.Description? then f.description else item.description)
    ensures r.price == (if f.Price? then f.price else item.price)
  {
    match f
    case Name(n) => item.(name := n)
    case Description(d) => item.(description := d)
    case Price(p) => item.(price := p)
  }

  /** The loop of `update_item`: the supplied fields written in order. */
  function ApplyFields(item: Item, fields: seq<FieldValue>): (r: Item)
    ensures r.id == item.id && r.userId == item.userId
    decreases |fields|
  {
    if fields == [] then item else ApplyFields(SetField(item, fields[0]), fields[1..])
  }

  /** A partial update writes each supplied field and leaves every field that
      was not supplied as it was. */
  lemma {:induction false} ApplyFieldsWritesOnlySupplied(item: Item, fields: seq<FieldValue>)
    requires DistinctKeys(fields)
    ensures var r := ApplyFields(item, fields);
      && (forall i :: 0 <= i < |fields| && fields[i].Name? ==> r.name == fields[i].name)
      && (forall i :: 0 <= i < |fields| && fields[i].Description? ==> r.description == fields[i].description)
      && (forall i :: 0 <= i < |fields| && fields[i].Price? ==> r.price == fields[i].price)
      && ((forall i :: 0 <= i < |fields| ==> !fields[i].Name?) ==> r.name == item.name)
      && ((forall i :: 0 <= i < |fields| ==> !fields[i].Description?) ==> r.description == item.description)
      && ((forall i :: 0 <= i < |fields| ==> !fields[i].Price?) ==> r.price == item.price)
    decreases |fields|
  {
    if fields != [] {
      var rest := fields[1..];
      assert DistinctKeys(rest) by {
        forall i, j | 0 <= i < j < |rest| ensures KeyOf(rest[i]) != KeyOf(rest[j]) {
          assert rest[i] == fields[i + 1] && rest[j] == fields[j + 1];
        }
      }
      forall i | 0 <= i < |rest| ensures KeyOf(rest[i]) != KeyOf(fields[0]) {
        assert rest[i] == fields[i + 1];
      }
      ApplyFieldsWritesOnlySupplied(SetField(item, fields[0]), rest);
      forall i | 1 <= i < |fields| ensures fields[i] == rest[i - 1] {
      }
    }
  }

  /** `rows` with the row at `i` taken out; the others keep their order. */
  function RemoveAt(rows: seq<Item>, i: nat): (r: seq<Item>)
    requires i < |rows|
    ensures |r| == |rows| - 1
    ensures forall j :: 0 <= j < i ==> r[j] == rows[j]
    ensures forall j :: i <= j < |r| ==> r[j] == rows[j + 1]
  {
    rows[..i] + rows[i + 1..]
  }

  /** Delete removes exactly one row: the table loses that row and nothing else. */
  lemma RemoveAtExactlyOne(rows: seq<Item>, i: nat)
    requires i < |rows|
    ensures multiset(RemoveAt(rows, i)) + multiset{rows[i]} == multiset(rows)
  {
    assert rows == rows[..i] + [rows[i]] + rows[i + 1..];
  }

  /** Deleting the row found for `(itemId, userId)` makes a later `get_item`
      for that id fail with 404. */
  lemma {:induction false} DeleteThenGetNotFound(rows: seq<Item>, itemId: int, userId: int, i: nat)
    requires IdsDistinct(rows)
    requires FindOwned(rows, itemId, userId) == Some(i)
    ensures GetItem(RemoveAt(rows, i), itemId, userId) == Failure(ItemNotFound)
  {
    var r := RemoveAt(rows, i);
    forall j | 0 <= j < |r| ensures !IsOwnedRow(r[j], itemId, userId) {
      if j < i {
        assert r[j] == rows[j] && rows[j].id != rows[i].id;
      } else {
        assert r[j] == rows[j + 1] && rows[j + 1].id != rows[i].id;
      }
    }
  }

  /** After a create with a fresh id, `get_item` by the owner finds the new row. */
  lemma {:induction false} CreateThenGet(rows: seq<Item>, item: Item)
    requires forall j :: 0 <= j < |rows| ==> rows[j].id != item.id
    ensures GetItem(rows + [item], item.id, item.userId) == Success(item)
  {
    var s := rows + [item];
    assert s[|rows|] == item;
    forall j | 0 <= j < |rows| ensures !IsOwnedRow(s[j], item.id, item.userId) {
      assert s[j] == rows[j];
    }
  }

  /** After an update, `get_item` by the owner returns the merged row. */
  lemma {:induction false} UpdateThenGet(rows: seq<Item>, itemId: int, userId: int, i: nat, fields: seq<FieldValue>)
    requires IdsDistinct(rows)
    requires FindOwned(rows, itemId, userId) == Some(i)
    ensures GetItem(rows[i := ApplyFields(rows[i], fields)], itemId, userId)
            == Success(ApplyFields(rows[i], fields))
  {
    var s := rows[i := ApplyFields(rows[i], fields)];
    assert IsOwnedRow(s[i], itemId, userId);
    forall j | 0 <= j < i ensures !IsOwnedRow(s[j], itemId, userId) {
      assert s[j] == rows[j] && rows[j].id != rows[i].id;
    }
  }

  // ----- the listing query of `get_items` -----

  /** One `.filter(...)` stage of the listing query. */
  datatype Criterion =
    | OwnedBy(userId: int)
    | PriceAtLeast(minPrice: real)
    | PriceAtMost(maxPrice: real)
    | Mentions(query: string)

  /** The SQL condition of a stage, evaluated on one row. A NULL description
      makes its ILIKE unknown, which never selects the row. */
  predicate Holds(c: Criterion, it: Item)
    ensures c.Mentions? ==>
      (Holds(c, it) <==> (exists i :: OccursAt(Lower(it.name), Lower(c.query), i))
                         || (it.description.Some? && exists i :: OccursAt(Lower(it.description.value), Lower(c.query), i)))
  {
    match c
    case OwnedBy(u) => it.userId == u
    case PriceAtLeast(m) => it.price >= m
    case PriceAtMost(m) => it.price <= m
    case Mentions(q) => ILike(it.name, q) || (it.description.Some? && ILike(it.description.value, q))
  }

  /** One filter stage: the rows satisfying `c`, in table order. */
  function Where(rows: seq<Item>, c: Criterion): (r: seq<Item>)
    ensures |r| <= |rows|
    ensures forall it :: it in r <==> it in rows && Holds(c, it)
  {
    if rows == [] then []
    else if Holds(c, rows[0]) then [rows[0]] + Where(rows[1..], c)
    else Where(rows[1..], c)
  }

  /** The stages the listing query applies, in the order it adds them. An empty
      query string is falsy and adds no stage. */
  function Criteria(userId: int, minPrice: Option<real>, maxPrice: Option<real>, query: Option<string>): (cs: seq<Criterion>)
    ensures |cs| >= 1 && cs[0] == OwnedBy(userId)
    ensures forall u :: OwnedBy(u) in cs <==> u == userId
    ensures forall m :: PriceAtLeast(m) in cs <==> minPrice == Some(m)
    ensures forall m :: PriceAtMost(m) in cs <==> maxPrice == Some(m)
    ensures forall q :: Mentions(q) in cs <==> query == Some(q) && q != ""
  {
    [OwnedBy(userId)]
    + (if minPrice.Some? then [PriceAtLeast(minPrice.value)] else [])
    + (if maxPrice.Some? then [PriceAtMost(maxPrice.value)] else [])
    + (if query.Some? && query.value != "" then [Mentions(query.value)] else [])
  }

  /** The stages applied one after the other, as the query is built. */
  function Chain(rows: seq<Item>, cs: seq<Criterion>): (r: seq<Item>)
    ensures |r| <= |rows|
    ensures forall it :: it in r ==> it in rows && forall c :: c in cs ==> Holds(c, it)
    decreases |cs|
  {
    if cs == [] then rows else Chain(Where(rows, cs[0]), cs[1..])
  }

  /** `OFFSET skip LIMIT limit`: the window starting at `skip`, at most `limit` long. */
  function Page(s: seq<Item>, skip: nat, limit: nat): (r: seq<Item>)
    ensures |r| == if skip >= |s| then 0 else if |s| - skip < limit then |s| - skip else limit
    ensures forall k :: 0 <= k < |r| ==> r[k] == s[skip + k]
  {
    if skip >= |s| then [] else if |s| - skip < limit then s[skip..] else s[skip..skip + limit]
  }

  /** `get_items`: owner filter, inclusive price bounds, keyword search, then
      offset and limit. */
  function GetItems(rows: seq<Item>, userId: int, skip: nat, limit: nat,
                    minPrice: Option<real>, maxPrice: Option<real>, query: Option<string>): (r: seq<Item>)
    ensures |r| <= limit
    ensures forall k :: 0 <= k < |r| ==> r[k] in rows && r[k].userId == userId
  {
    Page(Chain(rows, Criteria(userId, minPrice, maxPrice, query)), skip, limit)
  }

  // ----- the reference definition of the listing -----

  /** A row belongs in the listing: owned by the caller, within both given
      bounds (inclusive), and, for a non-empty query, mentioning it in the name
      or in a present description. */
  predicate Selected(it: Item, userId: int, minPrice: Option<real>, maxPrice: Option<real>, query: Option<string>)
  {
    && it.userId == userId
    && (minPrice.Some? ==> minPrice.value <= it.price)
    && (maxPrice.Some? ==> it.price <= maxPrice.value)
    && (query.Some? && query.value != "" ==>
          ILike(it.name, query.value) || (it.description.Some? && ILike(it.description.value, query.value)))
  }

  /** The rows satisfying every criterion of `cs`, in table order, in one pass. */
  function WhereAll(rows: seq<Item>, cs: seq<Criterion>): (r: seq<Item>)
    ensures |r| <= |rows|
  {
    if rows == [] then []
    else if (forall c :: c in cs ==> Holds(c, rows[0])) then [rows[0]] + WhereAll(rows[1..], cs)
    else WhereAll(rows[1..], cs)
  }

  lemma {:induction false} WhereAllMembers(rows: seq<Item>, cs: seq<Criterion>)
    ensures forall it :: it in WhereAll(rows, cs) <==> it in rows && forall c :: c in cs ==> Holds(c, it)
  {
    if rows != [] {
      WhereAllMembers(rows[1..], cs);
      assert rows == [rows[0]] + rows[1..];
    }
  }

  /** Filtering by `c` and then by `cs` is filtering once by `[c] + cs`. */
  lemma {:induction false} WhereThenWhereAll(rows: seq<Item>, c: Criterion, cs: seq<Criterion>)
    ensures WhereAll(Where(rows, c), cs) == WhereAll(rows, [c] + cs)
  {
    if rows != [] {
      WhereThenWhereAll(rows[1..], c, cs);
      var x := rows[0];
      assert (forall d :: d in [c] + cs ==> Holds(d, x)) <==> Holds(c, x) && (forall d :: d in cs ==> Holds(d, x));
      if Holds(c, x) {
        assert Where(rows, c) == [x] + Where(rows[1..], c);
      }
    }
  }

  lemma {:induction false} WhereAllNone(rows: seq<Item>)
    ensures WhereAll(rows, []) == rows
  {
    if rows != [] {
      WhereAllNone(rows[1..]);
    }
  }

  /** The staged query selects the same rows, in the same order, as a single
      filter by all of its stages. */
  lemma {:induction false} ChainIsWhereAll(rows: seq<Item>, cs: seq<Criterion>)
    ensures Chain(rows, cs) == WhereAll(rows, cs)
    decreases |cs|
  {
    if cs == [] {
      WhereAllNone(rows);
    } else {
      ChainIsWhereAll(Where(rows, cs[0]), cs[1..]);
      WhereThenWhereAll(rows, cs[0], cs[1..]);
      assert [cs[0]] + cs[1..] == cs;
    }
  }

  /** A row passes every stage of the query exactly when it is `Selected`. */
  lemma CriteriaMeaning(it: Item, userId: int, minPrice: Option<real>, maxPrice: Option<real>, query: Option<string>)
    ensures (forall c :: c in Criteria(userId, minPrice, maxPrice, query) ==> Holds(c, it))
            <==> Selected(it, userId, minPrice, maxPrice, query)
  {
    var cs := Criteria(userId, minPrice, maxPrice, query);
    if Selected(it, userId, minPrice, maxPrice, query) {
      forall c | c in cs ensures Holds(c, it) {
      }
    } else {
      assert OwnedBy(userId) in cs;
      if minPrice.Some? { assert PriceAtLeast(minPrice.value) in cs; }
      if maxPrice.Some? { assert PriceAtMost(maxPrice.value) in cs; }
      if query.Some? && query.value != "" { assert Mentions(query.value) in cs; }
    }
  }

  /** `get_items` returns the window `[skip, skip + limit)` of the table's
      selected rows, in table order. Every returned row is the caller's and
      satisfies every active filter; every selected row of the table is among
      the rows the window is cut from; at most `limit` rows come back. */
  lemma {:induction false} GetItemsCorrect(rows: seq<Item>, userId: int, skip: nat, limit: nat,
                                          minPrice: Option<real>, maxPrice: Option<real>, query: Option<string>)
    ensures var selected := WhereAll(rows, Criteria(userId, minPrice, maxPrice, query));
      var r := GetItems(rows, userId, skip, limit, minPrice, maxPrice, query);
      && r == Page(selected, skip, limit)
      && |r| <= limit
      && (forall it :: it in selected <==> it in rows && Selected(it, userId, minPrice, maxPrice, query))
      && (forall k :: 0 <= k < |r| ==> Selected(r[k], userId, minPrice, maxPrice, query))
  {
    var cs := Criteria(userId, minPrice, maxPrice, query);
    ChainIsWhereAll(rows, cs);
    WhereAllMembers(rows, cs);
    var selected := WhereAll(rows, cs);
    forall it | it in rows ensures (forall c :: c in cs ==> Holds(c, it)) <==> Selected(it, userId, minPrice, maxPrice, query) {
      CriteriaMeaning(it, userId, minPrice, maxPrice, query);
    }
    var r := GetItems(rows, userId, skip, limit, minPrice, maxPrice, query);
    forall k | 0 <= k < |r| ensures Selected(r[k], userId, minPrice, maxPrice, query) {
      assert r[k] == selected[skip + k];
      assert r[k] in selected;
    }
  }

  /** With no bounds and no (or an empty) query, the listing is the caller's
      rows in table order, paged. */
  lemma {:induction false} GetItemsUnfiltered(rows: seq<Item>, userId: int, skip: nat, limit: nat, query: Option<string>)
    requires query.None? || query == Some("")
    ensures GetItems(rows, userId, skip, limit, None, None, query) == Page(Where(rows, OwnedBy(userId)), skip, limit)
  {
    var cs := Criteria(userId, None, None, query);
    assert cs == [OwnedBy(userId)];
    assert Chain(rows, cs) == Chain(Where(rows, OwnedBy(userId)), []);
  }

  /** The caller's rows, in table order. */
  function OwnerView(rows: seq<Item>, userId: int): seq<Item>
  {
    Where(rows, OwnedBy(userId))
  }

  /** Writing a row that `c` rejects, over a row that `c` rejects, leaves the
      rows `c` selects as they were. */
  lemma {:induction false} WhereIgnoresUpdate(rows: seq<Item>, i: nat, x: Item, c: Criterion)
    requires i < |rows| && !Holds(c, rows[i]) && !Holds(c, x)
    ensures Where(rows[i := x], c) == Where(rows, c)
  {
    if i > 0 {
      assert rows[i := x][1..] == rows[1..][i - 1 := x];
      WhereIgnoresUpdate(rows[1..], i - 1, x, c);
    } else {
      assert rows[i := x][1..] == rows[1..];
    }
  }

  /** Removing a row that `c` rejects leaves the rows `c` selects as they were. */
  lemma {:induction false} WhereIgnoresRemoval(rows: seq<Item>, i: nat, c: Criterion)
    requires i < |rows| && !Holds(c, rows[i])
    ensures Where(RemoveAt(rows, i), c) == Where(rows, c)
  {
    if i > 0 {
      assert RemoveAt(rows, i)[1..] == RemoveAt(rows[1..], i - 1);
      WhereIgnoresRemoval(rows[1..], i - 1, c);
    } else {
      assert RemoveAt(rows, i) == rows[1..];
    }
  }

  /** Appending a row that `c` rejects leaves the rows `c` selects as they were. */
  lemma {:induction false} WhereIgnoresAppend(rows: seq<Item>, x: Item, c: Criterion)
    requires !Holds(c, x)
    ensures Where(rows + [x], c) == Where(rows, c)
  {
    if rows == [] {
      assert Where([x], c) == Where([], c);
    } else {
      assert (rows + [x])[1..] == rows[1..] + [x];
      WhereIgnoresAppend(rows[1..], x, c);
    }
  }

  lemma {:induction false} GetItemOwnerView(rows: seq<Item>, itemId: int, userId: int)
    ensures GetItem(rows, itemId, userId) == GetItem(OwnerView(rows, userId), itemId, userId)
  {
    if rows != [] {
      GetItemOwnerView(rows[1..], itemId, userId);
    }
  }

  /** Reads by a user depend only on that user's rows: two tables that agree on
      them answer `get_item` and `get_items` identically, so rows of other users
      can neither be seen nor be told apart from missing ones. */
  lemma {:induction false} ReadsDependOnlyOnOwnRows(rows1: seq<Item>, rows2: seq<Item>, userId: int, itemId: int,
                                                    skip: nat, limit: nat,
                                                    minPrice: Option<real>, maxPrice: Option<real>, query: Option<string>)
    requires OwnerView(rows1, userId) == OwnerView(rows2, userId)
    ensures GetItem(rows1, itemId, userId) == GetItem(rows2, itemId, userId)
    ensures GetItems(rows1, userId, skip, limit, minPrice, maxPrice, query)
            == GetItems(rows2, userId, skip, limit, minPrice, maxPrice, query)
  {
    GetItemOwnerView(rows1, itemId, userId);
    GetItemOwnerView(rows2, itemId, userId);
  }

  // ----- the stateful table -----

  /** The `items` table. Ids are allocated from a counter above every id in use. */
  class ItemTable {
    var rows: seq<Item>
    var nextId: int

    ghost predicate Valid()
      reads this
    {
      IdsDistinct(rows) && forall j :: 0 <= j < |rows| ==> rows[j].id < nextId
    }

    constructor ()
      ensures Valid() && rows == []
    {
      rows := [];
      nextId := 1;
    }

    /** `create_item`: one new row, owned by `userId`, with the request's fields. */
    method CreateItem(data: ItemCreate, userId: int) returns (item: Item)
      requires Valid()
      modifies this
      ensures Valid()
      ensures item == Item(old(nextId), data.name, data.description, data.price, userId)
      ensures forall j :: 0 <= j < |old(rows)| ==> old(rows)[j].id != item.id
      ensures rows == old(rows) + [item]
      ensures GetItem(rows, item.id, userId) == Success(item)
      ensures forall other :: other != userId ==> OwnerView(rows, other) == OwnerView(old(rows), other)
    {
      item := Item(nextId, data.name, data.description, data.price, userId);
      CreateThenGet(rows, item);
      forall other | other != userId ensures OwnerView(rows + [item], other) == OwnerView(rows, other) {
        WhereIgnoresAppend(rows, item, OwnedBy(other));
      }
      rows := rows + [item];
      nextId := nextId + 1;
    }

    /** `update_item`: the caller's row with the supplied fields written onto it,
        or 404. The 403 branch cannot be taken. */
    method UpdateItem(itemId: int, fields: seq<FieldValue>, userId: int) returns (r: Result<Item, HttpError>)
      requires Valid()
      modifies this
      ensures Valid() && nextId == old(nextId)
      ensures r.Failure? ==> r.error == ItemNotFound && rows == old(rows)
      ensures match old(FindOwned(rows, itemId, userId))
        case None => r.Failure?
        case Some(i) => r == Success(ApplyFields(old(rows)[i], fields)) && rows == old(rows)[i := r.value]
      ensures r.Success? ==> GetItem(rows, itemId, userId) == r
      ensures forall other :: other != userId ==> OwnerView(rows, other) == OwnerView(old(rows), other)
    {
      var found := GetItem(rows, itemId, userId);
      if found.Failure? {
        r := found;
        return;
      }
      var dbItem := found.value;
      if dbItem.userId != userId {
        assert false;
        r := Failure(NotAuthorizedToModify);
        return;
      }
      var i := FindOwned(rows, itemId, userId).value;
      ghost var original := dbItem;
      var k := 0;
      while k < |fields|
        invariant 0 <= k <= |fields|
        invariant ApplyFields(dbItem, fields[k..]) == ApplyFields(original, fields)
      {
        assert fields[k..] == [fields[k]] + fields[k + 1..];
        dbItem := SetField(dbItem, fields[k]);
        k := k + 1;
      }
      assert fields[k..] == [];
      UpdateThenGet(rows, itemId, userId, i, fields);
      forall other | other != userId ensures OwnerView(rows[i := dbItem], other) == OwnerView(rows, other) {
        WhereIgnoresUpdate(rows, i, dbItem, OwnedBy(other));
      }
      rows := rows[i := dbItem];
      r := Success(dbItem);
    }

    /** `delete_item`: the caller's row removed and returned, or 404. The 403
        branch cannot be taken. */
    method DeleteItem(itemId: int, userId: int) returns (r: Result<Item, HttpError>)
      requires Valid()
      modifies this
      ensures Valid() && nextId == old(nextId)
      ensures r.Failure? ==> r.error == ItemNotFound && rows == old(rows)
      ensures match old(FindOwned(rows, itemId, userId))
        case None => r.Failure?
        case Some(i) => r == Success(old(rows)[i]) && rows == RemoveAt(old(rows), i)
      ensures r.Success? ==> GetItem(rows, itemId, userId) == Failure(ItemNotFound)
      ensures forall other :: other != userId ==> OwnerView(rows, other) == OwnerView(old(rows), other)
    {
      var found := GetItem(rows, itemId, userId);
      if found.Failure? {
        r := found;
        return;
      }
      var dbItem := found.value;
      if dbItem.userId != userId {
        assert false;
        r := Failure(NotAuthorizedToDelete);
        return;
      }
      var i := FindOwned(rows, itemId, userId).value;
      DeleteThenGetNotFound(rows, itemId, userId, i);
      forall other | other != userId ensures OwnerView(RemoveAt(rows, i), other) == OwnerView(rows, other) {
        WhereIgnoresRemoval(rows, i, OwnedBy(other));
      }
      rows := RemoveAt(rows, i);
      r := Success(dbItem);
    }
  }
}
