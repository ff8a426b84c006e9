/** The order routes: creation with stock reservation, scoped listing and fetching, status update. */
module Orders {
  import opened Results
  import opened Models
  import opened Store
  import opened Decorators

  // ------------------------------------------------------ representation

  /** One entry of an order's `items` in its representation; also what creation builds per line. */
  datatype LineSnapshot = LineSnapshot(productId: int, quantity: int, priceAtOrder: int)

  /** The representation of an order (order date left out). */
  datatype OrderView = OrderView(id: int, userId: int, totalAmount: int, status: Status, items: seq<LineSnapshot>)

  function ItemLine(item: OrderItem): LineSnapshot {
    LineSnapshot(item.productId, item.quantity, item.priceAtOrder)
  }

  /** serialize_order: the header fields and the order's items, in relationship order; it reads the
      captured prices, never the live catalogue. The entries are exactly the items whose order is
      this one, each listed once. */
  function Serialize(t: Tables, id: int): (v: OrderView)
    requires Linked(t) && id in t.orders
    ensures v.id == id && v.userId == t.orders[id].userId && v.status == t.orders[id].status
    ensures v.totalAmount == t.orders[id].totalAmount
    ensures |v.items| == |t.orders[id].itemIds|
    ensures forall k :: 0 <= k < |v.items| ==> v.items[k] == ItemLine(t.items[t.orders[id].itemIds[k]])
    ensures forall i :: i in t.items ==> (t.items[i].orderId == id <==> i in t.orders[id].itemIds)
    ensures NoDuplicates(t.orders[id].itemIds)
  {
    var o := t.orders[id];
    OrderView(id, o.userId, o.totalAmount, o.status,
              seq(|o.itemIds|, k requires 0 <= k < |o.itemIds| => ItemLine(t.items[o.itemIds[k]])))
  }

  /** The sum of unit price times quantity over the lines. */
  function LinesTotal(lines: seq<LineSnapshot>): int
    decreases |lines|
  {
    if lines == [] then 0
    else LinesTotal(lines[..|lines| - 1]) + lines[|lines| - 1].priceAtOrder * lines[|lines| - 1].quantity
  }

  // ------------------------------------------------------------ listing

  /** get_orders: a caller whose user row is an admin gets every order, anyone else exactly the
      orders whose owner is the caller. */
  function ListOrders(t: Tables, token: Option<int>): (r: Result<set<OrderView>>)
    requires Linked(t)
    ensures r.Err? <==> token.None?
    ensures r.Err? ==> r.error == Unauthorized
    ensures r.Ok? ==> forall id :: id in t.orders ==>
              (Serialize(t, id) in r.value <==> IsAdmin(t.users, token.value) || t.orders[id].userId == token.value)
    ensures r.Ok? ==> forall v :: v in r.value ==> v.id in t.orders && v == Serialize(t, v.id)
    ensures r.Ok? && !IsAdmin(t.users, token.value) ==> forall v :: v in r.value ==> v.userId == token.value
  {
    if token.None? then Err(Unauthorized)
    else if IsAdmin(t.users, token.value) then
      Ok(set id | id in t.orders :: Serialize(t, id))
    else
      Ok(set id | id in t.orders && t.orders[id].userId == token.value :: Serialize(t, id))
  }

  /** get_order: the lookup filters on the owner for every caller, administrators included, so any
      order that is missing or belongs to someone else is not found. */
  function GetOrder(t: Tables, orderId: int, token: Option<int>): (r: Result<OrderView>)
    requires Linked(t)
    ensures r.Ok? <==> token.Some? && orderId in t.orders && t.orders[orderId].userId == token.value
    ensures r.Ok? ==> r.value == Serialize(t, orderId)
    ensures token.None? ==> r == Err(Unauthorized)
    ensures token.Some? && r.Err? ==> r.error == NotFound
  {
    if token.None? then Err(Unauthorized)
    else if orderId in t.orders && t.orders[orderId].userId == token.value then Ok(Serialize(t, orderId))
    else Err(NotFound)
  }

  // ----------------------------------------------------------- creation

  /** One entry of the request's `items`; `quantity` is `None` when the entry has no quantity key. */
  datatype LineRequest = LineRequest(productId: int, quantity: Option<int>)

  const DefaultQuantity := 1

  /** The quantity the handler uses for a line. Nothing checks that it is positive. */
  function Quantity(req: LineRequest): (q: int)
    ensures req.quantity.None? ==> q == 1
    ensures req.quantity.Some? ==> q == req.quantity.value
  {
    req.quantity.GetOr(DefaultQuantity)
  }

  /** What the creation loop carries from one line to the next: the working copy of the product
      table, the running total and the line snapshots built so far. */
  datatype Placement = Placement(products: map<int, Product>, total: int, lines: seq<LineSnapshot>)

  /** One iteration of the loop: refuse the line if its product is missing or its stock in the
      working copy is below the quantity; otherwise add to the total, take the quantity off the
      stock and snapshot the price. */
  function Step(acc: Placement, req: LineRequest): Result<Placement> {
    var id := req.productId;
    var qty := Quantity(req);
    if id !in acc.products || acc.products[id].stock < qty then Err(Unavailable(id))
    else
      var p := acc.products[id];
      Ok(Placement(acc.products[id := p.(stock := p.stock - qty)],
                   acc.total + p.price * qty,
                   acc.lines + [LineSnapshot(id, qty, p.price)]))
  }

  /** The loop of create_order over the request lines, starting from the committed product table. */
  function Place(products: map<int, Product>, reqs: seq<LineRequest>): Result<Placement>
    decreases |reqs|
  {
    if reqs == [] then Ok(Placement(products, 0, []))
    else
      match Place(products, reqs[..|reqs| - 1])
      case Err(e) => Err(e)
      case Ok(acc) => Step(acc, reqs[|reqs| - 1])
  }

  /** The total quantity the lines ask of product `id`. */
  function Requested(reqs: seq<LineRequest>, id: int): int
    decreases |reqs|
  {
    if reqs == [] then 0
    else Requested(reqs[..|reqs| - 1], id) + (if reqs[|reqs| - 1].productId == id then Quantity(reqs[|reqs| - 1]) else 0)
  }

  /** Line `j` can be served: its product exists and the stock left after the earlier lines'
      reservations covers its quantity. */
  predicate Fits(products: map<int, Product>, reqs: seq<LineRequest>, j: int)
    requires 0 <= j < |reqs|
  {
    var id := reqs[j].productId;
    id in products && products[id].stock - Requested(reqs[..j], id) >= Quantity(reqs[j])
  }

  /** Once a prefix of the lines is refused, the whole request is refused the same way. */
  lemma {:induction false} RefusalPersists(products: map<int, Product>, reqs: seq<LineRequest>, k: int)
    requires 0 <= k <= |reqs| && Place(products, reqs[..k]).Err?
    ensures Place(products, reqs) == Place(products, reqs[..k])
    decreases |reqs|
  {
    if k < |reqs| {
      var pre := reqs[..|reqs| - 1];
      assert pre[..k] == reqs[..k];
      RefusalPersists(products, pre, k);
    } else {
      assert reqs[..k] == reqs;
    }
  }

  /** After a successful pass, each product's stock has dropped by exactly what the lines requested
      of it; every other field and every other product is as it was. */
  lemma {:induction false} PlaceStock(products: map<int, Product>, reqs: seq<LineRequest>)
    requires Place(products, reqs).Ok?
    ensures Place(products, reqs).value.products.Keys == products.Keys
    ensures forall id :: id in products ==>
              Place(products, reqs).value.products[id] == products[id].(stock := products[id].stock - Requested(reqs, id))
    decreases |reqs|
  {
    if reqs != [] {
      PlaceStock(products, reqs[..|reqs| - 1]);
    }
  }

  /** After a successful pass there is one snapshot per line, in request order, carrying the
      product, the quantity and the price the product had when the order was made; the total is
      the sum of price times quantity over those snapshots. */
  lemma {:induction false} PlaceLines(products: map<int, Product>, reqs: seq<LineRequest>)
    requires Place(products, reqs).Ok?
    ensures |Place(products, reqs).value.lines| == |reqs|
    ensures forall k :: 0 <= k < |reqs| ==> reqs[k].productId in products
    ensures forall k :: 0 <= k < |reqs| ==>
              Place(products, reqs).value.lines[k]
                == LineSnapshot(reqs[k].productId, Quantity(reqs[k]), products[reqs[k].productId].price)
    ensures Place(products, reqs).value.total == LinesTotal(Place(products, reqs).value.lines)
    decreases |reqs|
  {
    if reqs != [] {
      var pre := reqs[..|reqs| - 1];
      PlaceLines(products, pre);
      PlaceStock(products, pre);
      var acc := Place(products, pre).value;
      var out := Place(products, reqs).value;
      assert out.lines[..|out.lines| - 1] == acc.lines;
      forall k | 0 <= k < |reqs| - 1
        ensures reqs[k].productId in products
        ensures out.lines[k] == LineSnapshot(reqs[k].productId, Quantity(reqs[k]), products[reqs[k].productId].price)
      {
        assert reqs[k] == pre[k];
      }
    }
  }

  /** A request goes through exactly when every line fits; when it is refused, the refusal names the
      product of the first line that does not fit. */
  lemma {:induction false} PlaceOutcome(products: map<int, Product>, reqs: seq<LineRequest>)
    ensures Place(products, reqs).Ok? <==> forall j :: 0 <= j < |reqs| ==> Fits(products, reqs, j)
    ensures Place(products, reqs).Err? ==>
              exists k :: 0 <= k < |reqs| && !Fits(products, reqs, k)
                       && (forall j :: 0 <= j < k ==> Fits(products, reqs, j))
                       && Place(products, reqs).error == Unavailable(reqs[k].productId)
    decreases |reqs|
  {
    if reqs != [] {
      var n := |reqs|;
      var pre := reqs[..n - 1];
      PlaceOutcome(products, pre);
      forall j | 0 <= j < n - 1 ensures Fits(products, reqs, j) == Fits(products, pre, j) {
        assert reqs[..j] == pre[..j];
      }
      assert reqs[..n - 1] == pre;
      if Place(products, pre).Ok? {
        PlaceStock(products, pre);
        if Place(products, reqs).Err? {
          assert !Fits(products, reqs, n - 1);
        }
      }
    }
  }

  /** The primary keys given to the items of a new order. */
  function ItemIds(first: int, n: nat): seq<int> {
    seq(n, k => first + k)
  }

  /** The item rows of a new order, one per snapshot, keyed from `first` on. */
  function NewItems(orderId: int, first: int, lines: seq<LineSnapshot>): map<int, OrderItem> {
    map i | first <= i < first + |lines| :: ItemRow(orderId, first, lines, i)
  }

  function ItemRow(orderId: int, first: int, lines: seq<LineSnapshot>, i: int): OrderItem
    requires first <= i < first + |lines|
  {
    OrderItem(orderId, lines[i - first].productId, lines[i - first].quantity, lines[i - first].priceAtOrder)
  }

  /** create_order. `items` is `None` when the body is missing or has no `items` key. The loop works
      on a copy of the product table that becomes the committed table only if every line is
      served; any refusal leaves the store exactly as it was. */
  method CreateOrder(db: Database, token: Option<int>, items: Option<seq<LineRequest>>) returns (r: Result<int>)
    requires db.Valid()
    modifies db
    ensures db.Valid()
    ensures r.Err? ==> unchanged(db)
    ensures token.None? ==> r == Err(Unauthorized)
    ensures token.Some? && items.None? ==> r == Err(MissingFields)
    ensures token.Some? && items.Some? ==>
              var placed := Place(old(db.products), items.value);
              (placed.Err? ==> r == Err(placed.error)) && (placed.Ok? ==> r.Ok?)
    ensures r.Ok? ==>
              && token.Some? && items.Some? && Place(old(db.products), items.value).Ok?
              && r.value == old(db.nextOrderId)
              && db.NextKeys() == old(db.NextKeys()).(order := r.value + 1,
                                                      item := old(db.nextItemId) + |items.value|)
              && db.Contents() == AddOrder(old(db.Contents()), r.value, token.value, old(db.nextItemId),
                                           Place(old(db.products), items.value).value)
              && Serialize(db.Contents(), r.value)
                   == OrderView(r.value, token.value, Place(old(db.products), items.value).value.total, Pending,
                                Place(old(db.products), items.value).value.lines)
  {
    if token.None? {
      return Err(Unauthorized);
    }
    if items.None? {
      return Err(MissingFields);
    }
    var placed := Reserve(db.products, items.value);
    if placed.Err? {
      return Err(placed.error);
    }
    PlaceStock(db.products, items.value);
    PlaceLines(db.products, items.value);
    var orderId, first := db.nextOrderId, db.nextItemId;
    var before := db.Contents();
    var after := AddOrder(before, orderId, token.value, first, placed.value);
    AddOrderProps(before, orderId, token.value, first, placed.value);
    db.orders := after.orders;
    db.items := after.items;
    db.products := after.products;
    db.nextOrderId := orderId + 1;
    db.nextItemId := first + |placed.value.lines|;
    assert db.Contents() == after;
    r := Ok(orderId);
  }

  /** The loop of create_order, run on a copy of the product table: each line looks its product up
      in the copy, so a product named twice is checked against the stock the earlier line left.
      The first line that cannot be served ends the loop with a refusal naming its product. */
  method Reserve(products: map<int, Product>, reqs: seq<LineRequest>) returns (r: Result<Placement>)
    ensures r == Place(products, reqs)
  {
    var working := products;
    var total := 0;
    var lines: seq<LineSnapshot> := [];
    var i := 0;
    while i < |reqs|
      invariant 0 <= i <= |reqs|
      invariant Place(products, reqs[..i]) == Ok(Placement(working, total, lines))
    {
      var id := reqs[i].productId;
      var qty := Quantity(reqs[i]);
      assert reqs[..i + 1][..i] == reqs[..i];
      if id !in working || working[id].stock < qty {
        RefusalPersists(products, reqs, i + 1);
        return Err(Unavailable(id));
      }
      var product := working[id];
      total := total + product.price * qty;
      working := working[id := product.(stock := product.stock - qty)];
      lines := lines + [LineSnapshot(id, qty, product.price)];
      i := i + 1;
    }
    assert reqs[..i] == reqs;
    r := Ok(Placement(working, total, lines));
  }

  /** The store after an order made from `placed` has been added and committed: the working copy of
      the product table replaces the committed one, and the order gets key `orderId` and its items
      the keys from `first` on. */
  function AddOrder(t: Tables, orderId: int, userId: int, first: int, placed: Placement): Tables {
    t.(products := placed.products,
       orders := t.orders[orderId := NewOrder(userId, placed.total, ItemIds(first, |placed.lines|))],
       items := t.items + NewItems(orderId, first, placed.lines))
  }

  /** Adding an order with fresh keys keeps the relationships consistent, and the new order's
      representation lists exactly the snapshots it was made from. */
  lemma AddOrderProps(t: Tables, orderId: int, userId: int, first: int, placed: Placement)
    requires Linked(t) && orderId !in t.orders
    requires forall i :: i in t.items ==> i < first
    ensures Linked(AddOrder(t, orderId, userId, first, placed))
    ensures Serialize(AddOrder(t, orderId, userId, first, placed), orderId)
              == OrderView(orderId, userId, placed.total, Pending, placed.lines)
  {
    AddOrderItemsListed(t, orderId, userId, first, placed);
    AddOrderListsOwned(t, orderId, userId, first, placed);
    AddOrderListsDistinct(t, orderId, userId, first, placed);
    var v := Serialize(AddOrder(t, orderId, userId, first, placed), orderId);
    assert v.items == placed.lines;
  }

  lemma AddOrderItemsListed(t: Tables, orderId: int, userId: int, first: int, placed: Placement)
    requires ItemsListed(t) && orderId !in t.orders
    requires forall i :: i in t.items ==> i < first
    ensures ItemsListed(AddOrder(t, orderId, userId, first, placed))
  {
    var t' := AddOrder(t, orderId, userId, first, placed);
    var ids := ItemIds(first, |placed.lines|);
    forall i | i in t'.items
      ensures t'.items[i].orderId in t'.orders && i in t'.orders[t'.items[i].orderId].itemIds
    {
      if i in t.items {
        assert t'.orders[t.items[i].orderId] == t.orders[t.items[i].orderId];
      } else {
        assert ids[i - first] == i;
      }
    }
  }

  lemma AddOrderListsOwned(t: Tables, orderId: int, userId: int, first: int, placed: Placement)
    requires ListsOwned(t) && orderId !in t.orders
    requires forall i :: i in t.items ==> i < first
    ensures ListsOwned(AddOrder(t, orderId, userId, first, placed))
  {
    var t' := AddOrder(t, orderId, userId, first, placed);
    forall o, k | o in t'.orders && 0 <= k < |t'.orders[o].itemIds|
      ensures t'.orders[o].itemIds[k] in t'.items && t'.items[t'.orders[o].itemIds[k]].orderId == o
    {
      if o != orderId {
        assert t'.orders[o] == t.orders[o];
      }
    }
  }

  lemma AddOrderListsDistinct(t: Tables, orderId: int, userId: int, first: int, placed: Placement)
    requires ListsDistinct(t) && orderId !in t.orders
    ensures ListsDistinct(AddOrder(t, orderId, userId, first, placed))
  {
    var t' := AddOrder(t, orderId, userId, first, placed);
    forall o | o in t'.orders ensures NoDuplicates(t'.orders[o].itemIds) {
      if o != orderId {
        assert t'.orders[o] == t.orders[o];
      }
    }
  }

  // ---------------------------------------------------------- scenarios

  /** Two products, as in the order tests: 1200.00 with 50 in stock and 75.50 with 200 in stock. */
  function Catalogue(): map<int, Product> {
    map[1 := Product("Laptop Pro", None, 120000, 50, 1), 2 := Product("Souris Gamer", None, 7550, 200, 2)]
  }

  /** Two of the first product and one of the second leave 48 and 199 in stock. */
  lemma TwoLinesScenario()
    ensures var r := Place(Catalogue(), [LineRequest(1, Some(2)), LineRequest(2, Some(1))]);
            r.Ok? && r.value.products[1].stock == 48 && r.value.products[2].stock == 199
            && r.value.total == 247550
  {
  }

  /** Asking for 100 of a product with 50 in stock is refused, naming that product. */
  lemma InsufficientStockScenario()
    ensures Place(Catalogue(), [LineRequest(1, Some(100))]) == Err(Unavailable(1))
  {
  }

  /** Each of two lines of 30 fits the stock of 50 on its own, but the second is checked against the
      20 the first left, so the request is refused. */
  lemma RepeatedProductScenario()
    ensures Place(Catalogue(), [LineRequest(1, Some(30)), LineRequest(1, Some(30))]) == Err(Unavailable(1))
  {
  }

  /** A negative quantity passes the stock check and raises the stock. */
  lemma NegativeQuantityScenario()
    ensures var r := Place(Catalogue(), [LineRequest(1, Some(-5))]);
            r.Ok? && r.value.products[1].stock == 55 && r.value.total == -600000
  {
  }

  // -------------------------------------------------------- status update

  /** The values update_order_status accepts. */
  const AllowedStatuses := ["pending", "validated", "shipped", "cancelled"]

  function ParseStatus(s: string): (r: Option<Status>)
    ensures r.Some? <==> s in AllowedStatuses
    ensures r.Some? ==> StatusName(r.value) == s
  {
    if s == "pending" then Some(Pending)
    else if s == "validated" then Some(Validated)
    else if s == "shipped" then Some(Shipped)
    else if s == "cancelled" then Some(Cancelled)
    else None
  }

  lemma StatusRoundTrip(s: Status)
    ensures ParseStatus(StatusName(s)) == Some(s)
  {
  }

  /** update_order_status. The admin check runs first, then the order lookup, then the body checks.
      On success only the status field of that order changes: no stock is given back, whatever the
      new status, and total and items stay as they were. Setting the status an order already has
      changes nothing, so repeating an update is harmless. */
  method UpdateOrderStatus(db: Database, token: Option<int>, orderId: int, status: Option<string>) returns (r: Result<OrderView>)
    requires db.Valid()
    modifies db
    ensures db.Valid()
    ensures r.Err? ==> unchanged(db)
    ensures AdminRequired(old(db.users), token).Err? ==> r == Err(AdminRequired(old(db.users), token).error)
    ensures AdminRequired(old(db.users), token).Ok? ==>
              && (orderId !in old(db.orders) ==> r == Err(NotFound))
              && (orderId in old(db.orders) && status.None? ==> r == Err(MissingFields))
              && (orderId in old(db.orders) && status.Some? && status.value !in AllowedStatuses ==> r == Err(InvalidStatus))
    ensures r.Ok? ==>
              && AdminRequired(old(db.users), token).Ok? && orderId in old(db.orders)
              && status.Some? && status.value in AllowedStatuses
              && var s := ParseStatus(status.value).value;
                 && db.orders == old(db.orders)[orderId := old(db.orders)[orderId].(status := s)]
                 && db.products == old(db.products) && db.items == old(db.items)
                 && db.users == old(db.users) && db.categories == old(db.categories)
                 && r.value == Serialize(db.Contents(), orderId)
                 && db.NextKeys() == old(db.NextKeys())
                 && StatusName(r.value.status) == status.value
    ensures (AdminRequired(old(db.users), token).Ok? && orderId in old(db.orders)
             && status.Some? && status.value in AllowedStatuses) ==> r.Ok?
    ensures (orderId in old(db.orders) && status.Some?
             && ParseStatus(status.value) == Some(old(db.orders)[orderId].status)) ==> unchanged(db)
  {
    var guard := AdminRequired(db.users, token);
    if guard.Err? {
      return Err(guard.error);
    }
    if orderId !in db.orders {
      return Err(NotFound);
    }
    if status.None? {
      return Err(MissingFields);
    }
    var s := ParseStatus(status.value);
    if s.None? {
      return Err(InvalidStatus);
    }
    var order := db.orders[orderId];
    assert Linked(db.Contents());
    db.orders := db.orders[orderId := order.(status := s.value)];
    assert forall o :: o in db.orders ==> db.orders[o].itemIds == old(db.orders)[o].itemIds;
    if order.status == s.value {
      assert order.(status := s.value) == order;
      assert db.orders == old(db.orders);
    }
    r := Ok(Serialize(db.Contents(), orderId));
  }
}
