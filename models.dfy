/** The tables of the store, their column defaults, and the cascade rules of their relationships. */
module Models {
  import opened Results

  // ---------------------------------------------------------------- users

  datatype Role = Client | Admin

  /** A row of the user table. The password itself is never stored, only its hash. */
  datatype User = User(email: string, passwordHash: string, role: Role)

  /** The role a user is given when the caller names none. */
  const DefaultRole := Client

  /** A hash function that maps different passwords to different hashes. */
  ghost predicate Injective(hash: string -> string) {
    forall a, b :: hash(a) == hash(b) ==> a == b
  }

  /** check_password: hashes the attempt the way the stored hash was made and compares. */
  predicate CheckPassword(u: User, attempt: string, hash: string -> string) {
    hash(attempt) == u.passwordHash
  }

  /** The user constructor: the password goes through the hash setter, the role defaults to client. */
  function NewUser(email: string, password: string, hash: string -> string, role: Role := DefaultRole): (u: User)
    ensures u.email == email && u.role == role
    ensures CheckPassword(u, password, hash)
    ensures Injective(hash) ==> forall attempt :: CheckPassword(u, attempt, hash) <==> attempt == password
  {
    User(email, hash(password), role)
  }

  /** A user made without a role is a client. */
  lemma NewUserDefaults(email: string, password: string, hash: string -> string)
    ensures NewUser(email, password, hash).role == Client
  {
  }

  /** The guard both the admin decorator and the order listing apply: the user row exists and is an admin. */
  predicate IsAdmin(users: map<int, User>, id: int) {
    id in users && users[id].role == Admin
  }

  predicate EmailTaken(users: map<int, User>, email: string) {
    exists id :: id in users && users[id].email == email
  }

  /** The unique constraint on the email column. */
  ghost predicate EmailsUnique(users: map<int, User>) {
    forall a, b :: a in users && b in users && users[a].email == users[b].email ==> a == b
  }

  // ------------------------------------------------------ catalog tables

  datatype Category = Category(name: string, description: Option<string>)

  predicate NameTaken(categories: map<int, Category>, name: string) {
    exists id :: id in categories && categories[id].name == name
  }

  /** The unique constraint on the category name column. */
  ghost predicate NamesUnique(categories: map<int, Category>) {
    forall a, b :: a in categories && b in categories && categories[a].name == categories[b].name ==> a == b
  }

  /** Prices and amounts are whole numbers of cents. */
  datatype Product = Product(name: string, description: Option<string>, price: int, stock: int, categoryId: int)

  /** The stock column's default. */
  const DefaultStock := 0

  function NewProduct(name: string, price: int, categoryId: int,
                      description: Option<string> := None, stock: int := DefaultStock): Product
  {
    Product(name, description, price, stock, categoryId)
  }

  /** A product made without a stock has none in stock, and one made without a description has none. */
  lemma NewProductDefaults(name: string, price: int, categoryId: int)
    ensures NewProduct(name, price, categoryId).stock == 0
    ensures NewProduct(name, price, categoryId).description == None
  {
  }

  // ------------------------------------------------------------- orders

  datatype Status = Pending | Validated | Shipped | Cancelled

  /** The text stored in the status column for each status. */
  function StatusName(s: Status): string {
    match s
    case Pending => "pending"
    case Validated => "validated"
    case Shipped => "shipped"
    case Cancelled => "cancelled"
  }

  /** The status column's default. */
  const DefaultStatus := Pending

  /** An order header; `itemIds` is the order's `items` relationship, in the order the lines were added. */
  datatype Order = Order(userId: int, totalAmount: int, status: Status, itemIds: seq<int>)

  function NewOrder(userId: int, totalAmount: int, itemIds: seq<int>): (o: Order)
    ensures o.userId == userId && o.totalAmount == totalAmount && o.itemIds == itemIds
    ensures o.status == Pending
  {
    Order(userId, totalAmount, DefaultStatus, itemIds)
  }

  /** A row of the order item table; `priceAtOrder` is the unit price copied when the order was made. */
  datatype OrderItem = OrderItem(orderId: int, productId: int, quantity: int, priceAtOrder: int)

  // ----------------------------------------------------------- the store

  datatype Tables = Tables(users: map<int, User>,
                           categories: map<int, Category>,
                           products: map<int, Product>,
                           orders: map<int, Order>,
                           items: map<int, OrderItem>)

  /** The `order_id` foreign key and the `items` relationship agree: every item belongs to an existing
      order (no orphans) and is listed by that order, every item an order lists is an item of that
      order, and no order lists an item twice. */
  ghost predicate Linked(t: Tables) {
    ItemsListed(t) && ListsOwned(t) && ListsDistinct(t)
  }

  /** Every item belongs to an existing order, which lists it. */
  ghost predicate ItemsListed(t: Tables) {
    forall i :: i in t.items ==> t.items[i].orderId in t.orders && i in t.orders[t.items[i].orderId].itemIds
  }

  /** Every item an order lists is an item of that order. */
  ghost predicate ListsOwned(t: Tables) {
    forall o, k :: o in t.orders && 0 <= k < |t.orders[o].itemIds| ==>
      t.orders[o].itemIds[k] in t.items && t.items[t.orders[o].itemIds[k]].orderId == o
  }

  /** No order lists an item twice. */
  ghost predicate ListsDistinct(t: Tables) {
    forall o :: o in t.orders ==> NoDuplicates(t.orders[o].itemIds)
  }

  predicate NoDuplicates(ids: seq<int>) {
    forall j, k :: 0 <= j < k < |ids| ==> ids[j] != ids[k]
  }

  /** Deleting an order: the delete-orphan cascade on `Order.items` removes its items with it. */
  function DeleteOrder(t: Tables, id: int): (r: Tables)
    requires Linked(t)
    ensures Linked(r)
    ensures r.orders == t.orders - {id}
    ensures forall i :: i in r.items ==> r.items[i].orderId != id
    ensures forall i :: i in t.items ==> (i in r.items <==> t.items[i].orderId != id)
    ensures forall i :: i in r.items ==> i in t.items && r.items[i] == t.items[i]
    ensures r.users == t.users && r.categories == t.categories && r.products == t.products
  {
    t.(orders := t.orders - {id},
       items := map i | i in t.items && t.items[i].orderId != id :: t.items[i])
  }

  /** Deleting a user: the cascade on `User.orders` removes the user's orders, and through the
      cascade on `Order.items`, their items. */
  function DeleteUser(t: Tables, uid: int): (r: Tables)
    requires Linked(t)
    ensures Linked(r)
    ensures r.users == t.users - {uid}
    ensures forall o :: o in r.orders ==> r.orders[o].userId != uid
    ensures forall o :: o in t.orders ==> (o in r.orders <==> t.orders[o].userId != uid)
    ensures forall o :: o in r.orders ==> o in t.orders && r.orders[o] == t.orders[o]
    ensures forall i :: i in t.items ==> (i in r.items <==> t.orders[t.items[i].orderId].userId != uid)
    ensures forall i :: i in r.items ==> i in t.items && r.items[i] == t.items[i]
    ensures r.categories == t.categories && r.products == t.products
  {
    var orders := map o | o in t.orders && t.orders[o].userId != uid :: t.orders[o];
    t.(users := t.users - {uid},
       orders := orders,
       items := map i | i in t.items && t.items[i].orderId in orders :: t.items[i])
  }
}
