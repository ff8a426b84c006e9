/** The database session the route handlers work on: one map per table, keyed by primary key. */
module Store {
  import opened Results
  import opened Models

  /** The next primary key of each table. */
  datatype Keys = Keys(user: int, category: int, product: int, order: int, item: int)

  class Database {
    var users: map<int, User>
    var categories: map<int, Category>
    var products: map<int, Product>
    var orders: map<int, Order>
    var items: map<int, OrderItem>

    // The next primary key the store hands out for each table; keys are never reused.
    var nextUserId: int
    var nextCategoryId: int
    var nextProductId: int
    var nextOrderId: int
    var nextItemId: int

    function Contents(): Tables
      reads this
    {
      Tables(users, categories, products, orders, items)
    }

    function NextKeys(): Keys
      reads this
    {
      Keys(nextUserId, nextCategoryId, nextProductId, nextOrderId, nextItemId)
    }

    /** The relationships are consistent and every key in use lies below its table's next key. */
    ghost predicate Valid()
      reads this
    {
      && Linked(Contents())
      && (forall id :: id in users ==> id < nextUserId)
      && (forall id :: id in categories ==> id < nextCategoryId)
      && (forall id :: id in products ==> id < nextProductId)
      && (forall id :: id in orders ==> id < nextOrderId)
      && (forall id :: id in items ==> id < nextItemId)
    }

    /** An empty store; primary keys start at 1. */
    constructor ()
      ensures Valid()
      ensures Contents() == Tables(map[], map[], map[], map[], map[])
      ensures nextUserId == nextCategoryId == nextProductId == nextOrderId == nextItemId == 1
    {
      users, categories, products, orders, items := map[], map[], map[], map[], map[];
      nextUserId, nextCategoryId, nextProductId, nextOrderId, nextItemId := 1, 1, 1, 1, 1;
    }
  }
}
