# Digimarket order processing, in Dafny

Digimarket is a small Flask shop API. Clients place orders against a product catalogue, and
administrators manage products, categories and order statuses. This project models the handlers
that change or read the store, and proves what they promise. The centre is order creation: it walks
the requested lines, checks each against the stock left so far, reserves the quantity, adds up the
total and captures the price. Around it sit the following:

- the scoped order listing and fetch;
- the administrator-only status update;
- the administrator guard;
- the record defaults and delete cascades;
- the product and category handlers;
- the `seed` command.

Modules, one per source file:

- `Results`: `Option`, `Result` and the outcomes a handler can refuse with. `Unauthorized` is 401,
  `Forbidden` 403, `NotFound` 404, `MissingFields` and `InvalidStatus` 400, `Unavailable(id)` the
  400 of a line that cannot be served, and `Duplicate` 409.
- `Models`: the five tables as datatypes, with their defaults, the password hash, the uniqueness
  predicates, the relationship invariant `Linked` (each order lists, once each, exactly the items
  whose `order_id` is that order), and the two delete cascades.
- `Store`: `Database`, a class holding one map per table and the next primary key of each. It
  stands for the SQLAlchemy session.
- `Decorators`: `admin_required`.
- `Orders`: `app/orders/routes.py`.
  - The loop of `create_order` is the method `Reserve`.
  - `Reserve` is proved equal to the recursive specification `Place`.
  - The lemmas about `Place` state the stock, total, snapshot and refusal properties.
- `Products`, `Categories`, `Commands`: the catalogue handlers and `seed`.

A request is one sequential, atomic step. A handler that refuses after it has touched the session
never commits, so the model states `unchanged(db)` for every refusal. In particular, a refused
order keeps the stock exactly as it was, although the loop had already decremented some products
in the session. The caller's identity is the user id in the access token: `Some(id)`, or `None`
when the request carries no valid token.

In these places the model follows the code where a reader might expect otherwise:

- Cancelling an order gives no stock back.
- There is no route for the lines of one order.
- Orders have no shipping fields. The columns are declared but never set or shown.
- Quantities are not checked to be positive. A negative quantity passes the stock check whenever
  the stock is at least that quantity, and raises the stock (`Orders.NegativeQuantityScenario`); a
  zero quantity leaves it unchanged.
- Fetching one order filters on the caller as owner, for administrators too.

## Model

| member | source | states |
|---|---|---|
| Orders.CreateOrder | app/orders/routes.py:48-77 | No token gives 401 and a body without `items` gives 400, with nothing changed. Otherwise the request is placed exactly when `Place` accepts it. A refusal returns `Place`'s error with the store unchanged. A success commits the working product table, adds one order with fresh item keys and keeps the relationships consistent. The new order's representation is its owner, total, `pending` status and the line snapshots, in request order |
| Orders.Reserve | app/orders/routes.py:58-69 | The loop over the request lines, run on a copy of the product table, returns what `Place` specifies: the refusal of the first line that does not fit, or the reserved table, total and snapshots |
| Orders.PlaceStock | app/orders/routes.py:61-68 | After an accepted request, every product's stock has dropped by exactly the sum of the quantities requested for it. Products not asked for, and all other fields, are unchanged, and no product appears or disappears |
| Orders.PlaceLines | app/orders/routes.py:62-69 | After an accepted request there is one snapshot per line, in request order, carrying the product, the quantity used and the product's price at creation time. The total is the sum of price times quantity over the snapshots |
| Orders.PlaceOutcome | app/orders/routes.py:61-65 | A request is accepted if and only if every line fits. A line fits when its product exists and the stock left after the earlier lines covers its quantity. A refusal names the product of the first line that does not fit |
| Orders.RefusalPersists | app/orders/routes.py:64-65 | Once a prefix of the lines is refused, the whole request is refused with the same error: the early return ends the loop |
| Orders.Quantity | app/orders/routes.py:63 | A line without a quantity uses 1; otherwise its own quantity, unchecked |
| Orders.TwoLinesScenario | tests/test_orders.py:78-102 | Two of product 1 (stock 50) and one of product 2 (stock 200) are accepted, leaving 48 and 199 in stock, with total 2475.50 |
| Orders.InsufficientStockScenario | tests/test_orders.py:114-127 | Asking for 100 of a product with 50 in stock is refused, naming that product |
| Orders.RepeatedProductScenario | app/orders/routes.py:62-68 | Two lines of 30 against a stock of 50 are refused, because the second line is checked against the 20 the first left |
| Orders.NegativeQuantityScenario | app/orders/routes.py:63-68 | A quantity of -5 is accepted; it raises the stock to 55 and makes the total negative |
| Orders.Serialize | app/orders/routes.py:10-23 | The representation carries the order's id, owner, total and status, and one entry per item of the order, in relationship order, each with the captured price. On a consistent store the entries are exactly the items whose order is this one, each once |
| Orders.ListOrders | app/orders/routes.py:25-37 | No token gives 401. An administrator gets the representation of every order. Any other caller, including one whose user row is missing, gets exactly the orders it owns. The listing holds nothing else |
| Orders.GetOrder | app/orders/routes.py:39-46 | Succeeds if and only if the order exists and the caller owns it, for every role. A missing order and another user's order are both not found |
| Orders.ParseStatus | app/orders/routes.py:89-93 | Accepts exactly the four allowed names, each as the status whose name it is |
| Orders.StatusRoundTrip | app/orders/routes.py:90 | Parsing a status's name gives the status back |
| Orders.UpdateOrderStatus | app/orders/routes.py:79-98 | The guard runs first, so a non-administrator gets 401 or 403 even for a missing order. Then come 404 for a missing order, and 400 for a missing status or one outside the allowed four, each with nothing changed. On success only that order's status changes: stock, total, items and the other tables stay as they were, and the result is the order's new representation. Setting the status the order already has changes nothing |
| Decorators.AdminRequired | app/decorators.py:8-22 | The handler runs if and only if there is a token and its user row exists with role admin. A missing token gives 401; any other refusal gives 403 |
| Models.NewUser | app/models.py:14-29 | The role defaults to client, and only the password's hash is stored. The set password passes `CheckPassword`. For an injective hash, a password passes exactly when it is the one that was set |
| Models.NewUserDefaults | app/models.py:8-18 | A user made without a role is a client |
| Models.NewProductDefaults | app/models.py:31-37 | A product made without a stock has 0 in stock, and one made without a description has none |
| Models.NewOrder | app/models.py:59-64 | A new order's status is `pending` |
| Models.DeleteOrder | app/models.py:73-80 | Deleting an order removes exactly its items, leaves no item pointing at a missing order, and touches no other table |
| Models.DeleteUser | app/models.py:12 | Deleting a user removes exactly that user's orders and, through them, exactly their items. The relationships stay consistent |
| Products.ContainsIff | app/products/routes.py:21 | The substring test holds exactly when the pattern occurs at some position |
| Products.GetProducts | app/products/routes.py:12-32 | A product is listed exactly when it passes every filter that is on. With a non-empty `q`, its name contains `q`, ignoring ASCII case. With a non-zero `category_id`, it has that category. Rows are listed as stored |
| Products.SearchIgnoresCase | app/products/routes.py:19-21 | A search term in lower case finds the same products as the term as typed |
| Products.GetProduct | app/products/routes.py:53-67 | Returns the stored product if the id exists, otherwise 404 |
| Products.CreateProduct | app/products/routes.py:71-103 | After the guard: a body missing any of name, price, stock or category_id gives 400; an unknown category gives 404; each leaves the store unchanged. Otherwise exactly one product is added, under a fresh key, with the given fields. An absent description is null |
| Products.UpdateProduct | app/products/routes.py:105-134 | After the guard, a missing product gives 404. A `category_id` naming no category gives 404 with none of the update kept. Otherwise every field absent from the body keeps its value, and nothing but that product changes |
| Products.DeleteProduct | app/products/routes.py:136-143 | After the guard, a missing id gives 404; otherwise exactly that product is removed |
| Categories.GetCategories | app/categories/routes.py:10-20 | The representation of every category, and nothing else |
| Categories.GetCategory | app/categories/routes.py:22-30 | Returns the category's id, name and description if it exists, otherwise 404 |
| Categories.CreateCategory | app/categories/routes.py:34-48 | After the guard: no name gives 400, and a name some category has gives 409; each leaves the store unchanged. Otherwise exactly one category is added, under a fresh key, with the given name and description. Names stay unique |
| Categories.UpdateCategory | app/categories/routes.py:50-59 | After the guard, a missing id gives 404. Otherwise each field absent from the body keeps its value, and nothing else changes |
| Categories.DeleteCategory | app/categories/routes.py:61-68 | After the guard, a missing id gives 404; otherwise exactly that category is removed |
| Commands.SeedCategories | app/commands.py:23-29 | The default rows are exactly the four listed categories, in order, under consecutive keys, with distinct names |
| Commands.Seed | app/commands.py:6-33 | If a user with the administrator's email exists, no user is added; otherwise exactly one admin user with that email and password is added. If the category table is non-empty, no category is added; otherwise exactly the four defaults are. Nothing else changes. Afterwards the store is seeded, so a second run changes nothing. Unique emails and names stay unique |
| Commands.SeedAdmin | app/commands.py:12-17 | The administrator is added only if no user has its email; the email is taken afterwards, and emails stay unique |
| Commands.SeedDefaultCategories | app/commands.py:19-30 | The four default categories are added only if the category table is empty; the table is non-empty afterwards |
| Commands.AddAdminKeepsEmailsUnique | app/commands.py:12-16 | Adding a user whose email is not taken keeps emails unique and makes the email taken |

## Left out

- Money is integer cents. Prices and totals are floats in the code; rounding is not modelled.
- Pagination of the product listing (`query.paginate`) is library behaviour and is not modelled. `Products.GetProducts` is the set of rows before paging. Listing order is also not modelled: listings are sets or maps.
- The name search treats `q` as a literal substring with ASCII case folding, as the default store's `LIKE` does. `%` and `_` inside `q` are not treated as wildcards.
- Access tokens and bcrypt are foreign calls. The caller is a user id, and the hash is a function parameter. The salt that makes bcrypt hashes differ on each call is not modelled.
- The registration and login handlers are not part of this model; they are token and hash plumbing. Email uniqueness is stated as a predicate, which `seed` preserves.
- Status codes become error variants; JSON rendering, order dates, timestamps and `category_name` in product representations are left out.
- Concurrent requests are not modelled: each request is one atomic step.
- Crash paths are not modelled:
  - a line without `product_id` (a key error);
  - non-JSON bodies;
  - the database error a category rename to an existing name raises at commit;
  - the errors the store raises when a deleted category still has products, or a deleted product still has order lines.
- Orders.CreateOrder, Orders.Quantity, Products.CreateProduct, Products.UpdateProduct, Categories.CreateCategory, Categories.UpdateCategory: request values are taken to be well-typed, because no handler checks their type: quantities, prices, stocks and category ids are integers, names are strings, and only a description can be present and null. In the code a fractional quantity such as 0.5 passes the stock check and is taken off the stock as it is; a quantity that is present but null, or a string, makes the stock comparison raise a type error. `LineRequest.quantity` being `None` means only that the key is absent. In the code a present but null `category_id` finds no category, so product create and update refuse it with 404; the model has no such input, and its nearest one, an absent `category_id`, is refused with 400 on create and keeps the category on update. A present but null product name or price, or category name, passes the handlers' checks and then fails the non-null column at commit.
- The order's shipping columns are declared non-nullable but never set; the model has no shipping fields and no failing commit.
- The role column is free text in the code; the model narrows it to client and admin. Likewise the status column narrows to the four names the update accepts.
- In the model, primary keys come from a counter that never reuses a key; the default store can hand out the top key again after a delete. The store's own key choice is not modelled beyond being fresh.
- Commands.Seed: promises the admin role only when it creates the user. A user with the administrator's email that already exists keeps its role, as in the code. Its console messages are left out.
