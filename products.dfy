/** The product routes: filtered listing, fetch, and the administrator-only create, update, delete. */
module Products {
  import opened Results
  import opened Models
  import opened Store
  import opened Decorators

  // ------------------------------------------------------------- search

  /** ASCII case folding, the case-insensitivity of the default store's LIKE. */
  function LowerChar(c: char): char {
    if 'A' <= c <= 'Z' then (c as int - 'A' as int + 'a' as int) as char else c
  }

  function Lower(s: string): string {
    seq(|s|, k requires 0 <= k < |s| => LowerChar(s[k]))
  }

  /** `p` occurs in `s` starting at position `i`. */
  predicate OccursAt(s: string, p: string, i: int) {
    0 <= i && i + |p| <= |s| && s[i..i + |p|] == p
  }

  /** Substring test, from the left. */
  function Contains(s: string, p: string): bool
    decreases |s|
  {
    |p| <= |s| && (s[..|p|] == p || Contains(s[1..], p))
  }

  lemma {:induction false} ContainsIff(s: string, p: string)
    ensures Contains(s, p) <==> exists i :: OccursAt(s, p, i)
    decreases |s|
  {
    if |p| <= |s| {
      if s[..|p|] == p {
        assert OccursAt(s, p, 0);
      } else {
        ContainsIff(s[1..], p);
        if Contains(s[1..], p) {
          var i :| OccursAt(s[1..], p, i);
          assert s[i + 1..i + 1 + |p|] == s[1..][i..i + |p|];
          assert OccursAt(s, p, i + 1);
        }
        assert !OccursAt(s, p, 0) by {
          assert s[0..|p|] == s[..|p|];
        }
        forall i | OccursAt(s, p, i) && i != 0 ensures OccursAt(s[1..], p, i - 1) {
          assert s[1..][i - 1..i - 1 + |p|] == s[i..i + |p|];
        }
      }
    }
  }

  /** The `name ILIKE '%q%'` test. */
  predicate NameMatches(name: string, q: string) {
    Contains(Lower(name), Lower(q))
  }

  /** A non-empty `q` switches the name filter on. */
  predicate SearchesName(q: Option<string>) {
    q.Some? && q.value != ""
  }

  /** A `category_id` that is present and not 0 switches the category filter on. */
  predicate SearchesCategory(categoryId: Option<int>) {
    categoryId.Some? && categoryId.value != 0
  }

  function ByName(products: map<int, Product>, q: Option<string>): map<int, Product> {
    if SearchesName(q) then map id | id in products && NameMatches(products[id].name, q.value) :: products[id]
    else products
  }

  function ByCategory(products: map<int, Product>, categoryId: Option<int>): map<int, Product> {
    if SearchesCategory(categoryId) then map id | id in products && products[id].categoryId == categoryId.value :: products[id]
    else products
  }

  /** get_products, before pagination: the rows left after the name filter and then the category
      filter. A row is listed exactly when it passes every filter that is switched on, and the
      name filter ignores the case of ASCII letters. */
  function GetProducts(products: map<int, Product>, q: Option<string>, categoryId: Option<int>): (r: map<int, Product>)
    ensures forall id :: id in r <==>
              && id in products
              && (SearchesName(q) ==> exists i :: OccursAt(Lower(products[id].name), Lower(q.value), i))
              && (SearchesCategory(categoryId) ==> products[id].categoryId == categoryId.value)
    ensures forall id :: id in r ==> r[id] == products[id]
  {
    var r := ByCategory(ByName(products, q), categoryId);
    assert forall id :: id in products && SearchesName(q) ==>
      (NameMatches(products[id].name, q.value) <==> exists i :: OccursAt(Lower(products[id].name), Lower(q.value), i)) by {
      forall id | id in products && SearchesName(q) {
        ContainsIff(Lower(products[id].name), Lower(q.value));
      }
    }
    r
  }

  /** Folding the search term changes nothing: upper and lower case letters find the same rows. */
  lemma SearchIgnoresCase(products: map<int, Product>, q: string, categoryId: Option<int>)
    ensures GetProducts(products, Some(Lower(q)), categoryId) == GetProducts(products, Some(q), categoryId)
  {
    assert Lower(Lower(q)) == Lower(q);
  }

  /** get_product. */
  function GetProduct(products: map<int, Product>, id: int): (r: Result<Product>)
    ensures r.Ok? <==> id in products
    ensures r.Ok? ==> r.value == products[id]
    ensures r.Err? ==> r.error == NotFound
  {
    if id in products then Ok(products[id]) else Err(NotFound)
  }

  // ------------------------------------------------------------ changes

  /** A request body: each field is `None` when its key is absent. A present `description` may be
      null, hence the inner option. */
  datatype ProductBody = ProductBody(name: Option<string>, description: Option<Option<string>>,
                                     price: Option<int>, stock: Option<int>, categoryId: Option<int>)

  predicate HasRequiredFields(body: ProductBody) {
    body.name.Some? && body.price.Some? && body.stock.Some? && body.categoryId.Some?
  }

  /** create_product. After the admin check, a body missing any of name, price, stock or
      category_id is refused with 400, an unknown category with 404; otherwise exactly one row
      is added, under a fresh key, carrying the given fields. */
  method CreateProduct(db: Database, token: Option<int>, body: ProductBody) returns (r: Result<int>)
    requires db.Valid()
    modifies db
    ensures db.Valid()
    ensures r.Err? ==> unchanged(db)
    ensures AdminRequired(old(db.users), token).Err? ==> r == Err(AdminRequired(old(db.users), token).error)
    ensures AdminRequired(old(db.users), token).Ok? && !HasRequiredFields(body) ==> r == Err(MissingFields)
    ensures (AdminRequired(old(db.users), token).Ok? && HasRequiredFields(body)
             && body.categoryId.value !in old(db.categories)) ==> r == Err(NotFound)
    ensures r.Ok? <==> AdminRequired(old(db.users), token).Ok? && HasRequiredFields(body)
                       && body.categoryId.value in old(db.categories)
    ensures r.Ok? ==>
              && r.value == old(db.nextProductId) && r.value !in old(db.products)
              && db.Contents() == old(db.Contents()).(products := old(db.products)[r.value :=
                   NewProduct(body.name.value, body.price.value, body.categoryId.value,
                              body.description.GetOr(None), body.stock.value)])
              && |db.products| == |old(db.products)| + 1
              && db.NextKeys() == old(db.NextKeys()).(product := r.value + 1)
  {
    var guard := AdminRequired(db.users, token);
    if guard.Err? {
      return Err(guard.error);
    }
    if !HasRequiredFields(body) {
      return Err(MissingFields);
    }
    if body.categoryId.value !in db.categories {
      return Err(NotFound);
    }
    var id := db.nextProductId;
    var product := NewProduct(body.name.value, body.price.value, body.categoryId.value,
                              body.description.GetOr(None), body.stock.value);
    db.products := db.products[id := product];
    db.nextProductId := id + 1;
    r := Ok(id);
  }

  /** update_product. Every field absent from the body keeps its value. A category_id naming no
      category is refused with 404 after the other fields were set on the session's copy, which is
      then discarded, so none of the update persists. */
  method UpdateProduct(db: Database, token: Option<int>, id: int, body: ProductBody) returns (r: Result<Product>)
    requires db.Valid()
    modifies db
    ensures db.Valid()
    ensures r.Err? ==> unchanged(db)
    ensures AdminRequired(old(db.users), token).Err? ==> r == Err(AdminRequired(old(db.users), token).error)
    ensures AdminRequired(old(db.users), token).Ok? && id !in old(db.products) ==> r == Err(NotFound)
    ensures (AdminRequired(old(db.users), token).Ok? && id in old(db.products)
             && body.categoryId.Some? && body.categoryId.value !in old(db.categories)) ==> r == Err(NotFound)
    ensures r.Ok? <==> AdminRequired(old(db.users), token).Ok? && id in old(db.products)
                       && (body.categoryId.Some? ==> body.categoryId.value in old(db.categories))
    ensures r.Ok? ==>
              var p := old(db.products[id]);
              && r.value == Product(body.name.GetOr(p.name), body.description.GetOr(p.description),
                                    body.price.GetOr(p.price), body.stock.GetOr(p.stock),
                                    body.categoryId.GetOr(p.categoryId))
              && db.Contents() == old(db.Contents()).(products := old(db.products)[id := r.value])
              && db.NextKeys() == old(db.NextKeys())
  {
    var guard := AdminRequired(db.users, token);
    if guard.Err? {
      return Err(guard.error);
    }
    if id !in db.products {
      return Err(NotFound);
    }
    var product := db.products[id];
    product := product.(name := body.name.GetOr(product.name));
    product := product.(description := body.description.GetOr(product.description));
    product := product.(price := body.price.GetOr(product.price));
    product := product.(stock := body.stock.GetOr(product.stock));
    if body.categoryId.Some? {
      if body.categoryId.value !in db.categories {
        return Err(NotFound);
      }
      product := product.(categoryId := body.categoryId.value);
    }
    db.products := db.products[id := product];
    r := Ok(product);
  }

  /** delete_product: removes exactly that row. */
  method DeleteProduct(db: Database, token: Option<int>, id: int) returns (r: Result<()>)
    requires db.Valid()
    modifies db
    ensures db.Valid()
    ensures r.Err? ==> unchanged(db)
    ensures AdminRequired(old(db.users), token).Err? ==> r == Err(AdminRequired(old(db.users), token).error)
    ensures AdminRequired(old(db.users), token).Ok? && id !in old(db.products) ==> r == Err(NotFound)
    ensures r.Ok? <==> AdminRequired(old(db.users), token).Ok? && id in old(db.products)
    ensures r.Ok? ==> db.Contents() == old(db.Contents()).(products := old(db.products) - {id})
                      && db.NextKeys() == old(db.NextKeys())
  {
    var guard := AdminRequired(db.users, token);
    if guard.Err? {
      return Err(guard.error);
    }
    if id !in db.products {
      return Err(NotFound);
    }
    db.products := db.products - {id};
    r := Ok(());
  }
}
