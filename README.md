# Item-management API: ownership-scoped items and bearer authentication

This project models the decision logic of a small multi-tenant item API.
Users register, log in for a bearer token, and create, read, update, delete
and list items they own. The model covers:

- the item table with its ownership-scoped operations (`ItemsLogic`);
- the `/items/` endpoints with their query-parameter validation (`ItemsRoutes`);
- the user store with registration and credential checking (`AuthLogic`);
- token-to-user resolution (`Dependencies`);
- the `/token` and `/register` endpoints (`AuthRoutes`).

The relational store becomes an in-memory table. Tables that the application
changes in place become classes: `ItemsLogic.ItemTable` and
`AuthLogic.UserStore` hold a `seq` of rows and an id counter. Their methods
state the new table in terms of the old one. Queries are functions over the
rows. Raised `HTTPException`s become `Failure` values of `Outcomes.Result`,
carrying status, detail and whether the `WWW-Authenticate: Bearer` header is
present.

Parts of the system outside the model are passed in as function-valued
parameters and left uninterpreted:

- password hashing and verification (`AuthLogic.PasswordHasher`);
- token decoding, which includes the signature, algorithm and expiry checks
  (`Dependencies.Decoder`);
- token issuing (`AuthRoutes.Issuer`).

What the model proves:

- The listing pipeline selects exactly the caller's rows that meet every active
  filter, and returns the `[skip, skip + limit)` window of them.
- A user's reads depend only on that user's rows. Another user's item cannot be
  told apart from a missing one.
- No create, update or delete by one user changes any other user's view of the
  table.
- The 403 branches of update and delete are unreachable.
- A successful login yields a token that `get_current_user` resolves back to
  the same user.

Behaviour of the code worth noting:

- A duplicate email at registration raises the store's `IntegrityError`,
  and nothing in the application translates it into a 409. The model treats
  a duplicate username the same way (see "Left out").
  `AuthRoutes.RegisterUserEndpoint` returns that error unchanged.
- `/register` declares no status code, so a success is 200, not 201.
  Status codes of `/register` are not modelled.
- `ItemUpdate` derives from `ItemBase`, so `name` and `price` are required in
  every update body. Only `description` can be left out. An update carrying
  only `price` is rejected by request validation. It is not a partial merge.
- Item prices are not checked for non-negativity on create or update.
- The login route puts the username in the token's `sub`. The model uses that
  encoding throughout.

## Model

| member | source | states |
|---|---|---|
| `Search.ContainsIff` | app/items/items_logic.py:68-72 | the substring scan succeeds exactly when the query occurs at some position of the text |
| `Search.ILike` | app/items/items_logic.py:69-71 | `ILIKE '%q%'` holds exactly when the lower-cased query occurs in the lower-cased text |
| `Search.ILikeIgnoresCase` | app/items/items_logic.py:71 | lower-casing either side first never changes the match |
| `ItemsLogic.FindOwned` | app/items/items_logic.py:16 | the first row whose id and owner both match, or none when no row matches both |
| `ItemsLogic.GetItem` | app/items/items_logic.py:15-19 | succeeds exactly when the caller owns a row with that id and returns such a row; otherwise 404 "Item not found", the same for a missing row and another user's row |
| `ItemsLogic.ApplyFields` | app/items/items_logic.py:31-32 | writing the supplied fields never changes the row's `id` or `user_id` |
| `ItemsLogic.ApplyFieldsWritesOnlySupplied` | app/items/items_logic.py:31-32 | each supplied field takes the supplied value; every field not supplied keeps its old value |
| `ItemsLogic.RemoveAt` | app/items/items_logic.py:47 | the table without the deleted row, all other rows in their order |
| `ItemsLogic.RemoveAtExactlyOne` | app/items/items_logic.py:47 | delete removes exactly one row: the old multiset is the new one plus the deleted row |
| `ItemsLogic.DeleteThenGetNotFound` | app/items/items_logic.py:38-49 | after deleting the caller's row, `get_item` for that id fails with 404 |
| `ItemsLogic.CreateThenGet` | app/items/items_logic.py:7-19 | after a create with a fresh id, the owner's `get_item` returns the new row |
| `ItemsLogic.UpdateThenGet` | app/items/items_logic.py:22-35 | after an update, the owner's `get_item` returns the merged row |
| `Search.Contains` | app/items/items_logic.py:69-71 | the scan of `LIKE '%q%'`: an empty pattern matches every text, and a match needs the pattern to fit in the text; `Search.ContainsIff` states exactly when it matches |
| `ItemsLogic.SetField` | app/items/items_logic.py:32 | `setattr` for one supplied field: that field takes the supplied value, every other field, `id` and `user_id` included, is kept |
| `ItemsLogic.Holds` | app/items/items_logic.py:61-72 | a keyword stage holds exactly when the lower-cased query occurs in the lower-cased name or in a present description |
| `ItemsLogic.Chain` | app/items/items_logic.py:61-72 | the staged query never grows the table, and every row it keeps is a table row passing every stage; `ItemsLogic.ChainIsWhereAll` gives the converse |
| `ItemsLogic.GetItems` | app/items/items_logic.py:52-74 | `get_items` returns at most `limit` rows, each a table row owned by the caller; `ItemsLogic.GetItemsCorrect` states exactly which rows |
| `ItemsLogic.Where` | app/items/items_logic.py:61-72 | one filter stage keeps exactly the rows satisfying its condition and never grows the table |
| `ItemsLogic.Criteria` | app/items/items_logic.py:61-72 | the owner filter comes first and is the only owner stage; a lower or upper price stage is present exactly when that bound is given, with its value; a keyword stage is present exactly when a non-empty query is given |
| `ItemsLogic.Page` | app/items/items_logic.py:74 | offset/limit: at most `limit` rows, the k-th being row `skip + k` of the filtered rows |
| `ItemsLogic.WhereAll` | app/items/items_logic.py:61-72 | a single-pass filter by all stages never grows the table |
| `ItemsLogic.WhereAllMembers` | app/items/items_logic.py:61-72 | a row is kept by the single-pass filter exactly when it satisfies every stage |
| `ItemsLogic.WhereThenWhereAll` | app/items/items_logic.py:61-72 | one filter stage followed by the rest equals one filter by all of them |
| `ItemsLogic.ChainIsWhereAll` | app/items/items_logic.py:61-72 | the staged query selects the same rows in the same order as a single filter by all stages |
| `ItemsLogic.CriteriaMeaning` | app/items/items_logic.py:61-72 | a row passes every stage exactly when it is the caller's, within both given bounds inclusive, and mentions a non-empty query in its name or present description |
| `ItemsLogic.GetItemsCorrect` | app/items/items_logic.py:52-74 | `get_items` is the `[skip, skip+limit)` window of the selected rows; at most `limit` long; every returned row is the caller's and meets every active filter; every selected row is a candidate |
| `ItemsLogic.GetItemsUnfiltered` | app/items/items_logic.py:61-74 | with no bounds and an absent or empty query, the listing is the caller's rows paged |
| `ItemsLogic.WhereIgnoresUpdate` | app/items/items_logic.py:31-33 | rewriting a row another user owns is invisible to a filter that rejects both versions |
| `ItemsLogic.WhereIgnoresRemoval` | app/items/items_logic.py:47 | removing a row that a filter rejects leaves that filter's result unchanged |
| `ItemsLogic.WhereIgnoresAppend` | app/items/items_logic.py:9 | appending a row that a filter rejects leaves that filter's result unchanged |
| `ItemsLogic.GetItemOwnerView` | app/items/items_logic.py:15-19 | `get_item` gives the same answer on the whole table as on the caller's rows alone |
| `ItemsLogic.ReadsDependOnlyOnOwnRows` | app/items/items_logic.py:15-61 | two tables that agree on a user's rows answer that user's `get_item` and `get_items` identically |
| `ItemsLogic.ItemTable.CreateItem` | app/items/items_logic.py:7-12 | appends exactly one row with a fresh id, owned by the caller, with the request's fields; existing rows and other users' views are unchanged |
| `ItemsLogic.ItemTable.UpdateItem` | app/items/items_logic.py:22-35 | 404 with the table unchanged when the caller owns no such row; otherwise only that row changes, to the supplied fields merged in; the 403 branch is unreachable; other users' views are unchanged |
| `ItemsLogic.ItemTable.DeleteItem` | app/items/items_logic.py:38-49 | 404 with the table unchanged, or exactly the caller's row removed and returned; the 403 branch is unreachable; a later get is 404; other users' views are unchanged |
| `ItemsRoutes.ValidateListParams` | app/items/routes.py:19-32 | 422 unless `skip >= 0`, `limit >= 1`, prices `>= 0`; then 400 exactly when both prices are given and `min_price > max_price`; defaults `skip = 0`, `limit = 10` |
| `ItemsRoutes.EqualBoundsAccepted` | app/items/routes.py:29 | `min_price == max_price` passes, since the comparison is strict |
| `ItemsRoutes.ReadItems` | app/items/routes.py:19-42 | a validation failure is returned without consulting the table; parameters that pass validation always give a success: the current user's filtered window, at most `limit` long, every row the current user's and selected |
| `ItemsRoutes.ReadItem` | app/items/routes.py:45-52 | the current user's item with that id, or 404 exactly when the current user owns none |
| `ItemsRoutes.CreateItemRoute` | app/items/routes.py:10-16 | status 201; the new row is owned by the current user and carries the body's fields |
| `ItemsRoutes.SuppliedFields` | app/items/schemas.py:5-16 | the supplied entries of an update body: name and price always, description exactly when sent, no key twice |
| `ItemsRoutes.UpdateItemRoute` | app/items/routes.py:55-64 | 404 with the table unchanged, or the current user's row with name and price replaced, description replaced only when sent, id and owner kept |
| `ItemsRoutes.DeleteItemRoute` | app/items/routes.py:67-74 | 404 with the table unchanged, or status 204 with exactly the current user's row removed |
| `AuthLogic.FindByUsername` | app/auth/auth_logic.py:23 | a stored user with that username, present exactly when one exists |
| `AuthLogic.FindByUsernameAppend` | app/auth/auth_logic.py:16-17 | adding a user with a new username resolves that username to the new user and changes no other lookup |
| `AuthLogic.AuthenticateUser` | app/auth/auth_logic.py:22-26 | a user exactly when one with that username exists and the password verifies against its hash; the returned user has that username; none for an unknown username |
| `AuthLogic.RegisterThenAuthenticate` | app/auth/auth_logic.py:10-26 | a newly registered user authenticates with the registration password, given that verify accepts a password against its own hash |
| `AuthLogic.UserStore.RegisterUser` | app/auth/auth_logic.py:10-19 | fails, with nothing added, exactly when the email or username is taken; otherwise appends one user with that email and username, the hash of the password and no full name |
| `Dependencies.GetCurrentUser` | app/dependencies.py:25-47 | every failure is the same 401 with the Bearer challenge; succeeds exactly when the token decodes, has a `sub`, and a stored user has that username; the user returned has username `sub` |
| `AuthRoutes.LoginForAccessToken` | app/auth/routes.py:18-33 | fails exactly when authentication fails, always with the same 401 "Incorrect username or password" and Bearer challenge; on success a `bearer` token issued for the username |
| `AuthRoutes.LoginFailuresIndistinguishable` | app/auth/routes.py:22-30 | an unknown username and a wrong password get identical responses |
| `AuthRoutes.LoginThenAccess` | app/auth/routes.py:32 | the token from a successful login resolves, through `get_current_user`, to the authenticated user |
| `AuthRoutes.RegisterUserEndpoint` | app/auth/routes.py:13-15 | delegates to `register_user`: the same failure condition and table change, with the user returned without the password hash |
| `Scenarios.PriceRangeIsInclusive` | tests/test_items.py:63-76 | over items priced 10, 20 and 1000, bounds 10 and 20 return exactly the two items at the bounds |
| `Scenarios.KeywordSearchIgnoresCase` | tests/test_items.py:79-91 | the query "Expensive" returns exactly the item named "very very expensive Item" |
| `Scenarios.ExpensiveMatches` | tests/utils.py:35 | "Expensive" matches "very very expensive Item" case-insensitively |
| `Scenarios.OthersDoNotMatch` | tests/utils.py:33-34 | "Expensive" matches neither the names nor the descriptions of the other two items |

## Left out

- The relational store, sessions, `commit`/`refresh`/`close` and `get_db` are not modelled. The tables are in memory.
- Id allocation is modelled as a counter above every id in use. The store's actual policy is not part of this model. Only freshness matters here.
- Password hashing and verification are uninterpreted functions, so no cryptographic property is proved. Two lemmas assume that verify accepts a password against its own hash, which the repository's tests check. app/auth/utils.py is not part of this model.
- JWT encoding and decoding, including signature, algorithm, secret and expiry checks, are uninterpreted. An expired or forged token is simply one that the decoder rejects. `AuthRoutes.LoginThenAccess` assumes that the decoder accepts a token the issuer just made for that subject.
- A missing `Authorization` header is rejected by the framework's bearer scheme before `get_current_user` runs. That rejection is not modelled.
- A `sub` claim that is not a string is not modelled. Claims are strings.
- Prices are `real`. Floating-point rounding is not modelled.
- `ILIKE` wildcards `%` and `_` inside the query are not modelled. The search is a plain substring test after ASCII lower-casing, as in SQLite's `lower`.
- Listing order: the query has no `ORDER BY`. The model keeps table order and proves nothing that depends on it beyond the window.
- `ItemsLogic.GetItems` takes `skip` and `limit` as naturals. Its only caller has already rejected negative values, so the store's treatment of a negative offset or limit is not modelled.
- The 404 re-checks at app/items/items_logic.py:24-25 and 40-41 test for `None` after `get_item`, which either raises or returns a row. A successful `GetItem` always carries an item, so these branches have no counterpart in the model.
- AuthLogic.UserStore.RegisterUser: username uniqueness is assumed, not taken from the code. The `users` table definition is not part of this model, and the repository shows only the unique email constraint (tests/test_user.py:25-35). If the real table allowed duplicate usernames, the model would reject registrations that the program accepts. `AuthLogic.Clashes` and `AuthLogic.UserStore.Valid` carry the assumption.
- Request-body validation (422 for a missing or non-numeric field) is framework behaviour and is not modelled. The detail of a 422 for a query parameter is reduced to the parameter's name.
- HTTP response serialisation is not modelled beyond the returned values and status codes.
- The test that puts `str(user.id)` in `sub` (tests/test_auth.py:67) is not modelled. It relies on expiry alone.
