/** The category routes: listing and fetch, and the administrator-only create, update, delete. */
module Categories {
  import opened Results
  import opened Models
  import opened Store
  import opened Decorators

  /** The representation of a category. */
  datatype CategoryView = CategoryView(id: int, name: string, description: Option<string>)

  function View(categories: map<int, Category>, id: int): CategoryView
    requires id in categories
  {
    CategoryView(id, categories[id].name, categories[id].description)
  }

  /** get_categories: one representation per row, and nothing else. */
  function GetCategories(categories: map<int, Category>): (r: set<CategoryView>)
    ensures forall id :: id in categories ==> View(categories, id) in r
    ensures forall v :: v in r ==> v.id in categories && v == View(categories, v.id)
  {
    set id | id in categories :: View(categories, id)
  }

  /** get_category. */
  function GetCategory(categories: map<int, Category>, id: int): (r: Result<CategoryView>)
    ensures r.Ok? <==> id in categories
    ensures r.Ok? ==> r.value.id == id && r.value.name == categories[id].name
                      && r.value.description == categories[id].description
    ensures r.Err? ==> r.error == NotFound
  {
    if id in categories then Ok(View(categories, id)) else Err(NotFound)
  }

  /** A request body: each field is `None` when its key is absent; a present description may be null. */
  datatype CategoryBody = CategoryBody(name: Option<string>, description: Option<Option<string>>)

  /** create_category. After the admin check, a body without a name is refused with 400, a name some
      category already has with 409; otherwise exactly one row is added under a fresh key, and
      names stay unique. */
  method CreateCategory(db: Database, token: Option<int>, body: CategoryBody) returns (r: Result<int>)
    requires db.Valid()
    modifies db
    ensures db.Valid()
    ensures r.Err? ==> unchanged(db)
    ensures AdminRequired(old(db.users), token).Err? ==> r == Err(AdminRequired(old(db.users), token).error)
    ensures AdminRequired(old(db.users), token).Ok? && body.name.None? ==> r == Err(MissingFields)
    ensures (AdminRequired(old(db.users), token).Ok? && body.name.Some?
             && NameTaken(old(db.categories), body.name.value)) ==> r == Err(Duplicate)
    ensures r.Ok? <==> AdminRequired(old(db.users), token).Ok? && body.name.Some?
                       && !NameTaken(old(db.categories), body.name.value)
    ensures r.Ok? ==>
              && r.value == old(db.nextCategoryId) && r.value !in old(db.categories)
              && db.Contents() == old(db.Contents()).(categories := old(db.categories)[r.value :=
                   Category(body.name.value, body.description.GetOr(None))])
              && db.NextKeys() == old(db.NextKeys()).(category := r.value + 1)
    ensures NamesUnique(old(db.categories)) ==> NamesUnique(db.categories)
  {
    var guard := AdminRequired(db.users, token);
    if guard.Err? {
      return Err(guard.error);
    }
    if body.name.None? {
      return Err(MissingFields);
    }
    if NameTaken(db.categories, body.name.value) {
      return Err(Duplicate);
    }
    var id := db.nextCategoryId;
    db.categories := db.categories[id := Category(body.name.value, body.description.GetOr(None))];
    db.nextCategoryId := id + 1;
    r := Ok(id);
  }

  /** update_category: each field absent from the body keeps its value. */
  method UpdateCategory(db: Database, token: Option<int>, id: int, body: CategoryBody) returns (r: Result<CategoryView>)
    requires db.Valid()
    modifies db
    ensures db.Valid()
    ensures r.Err? ==> unchanged(db)
    ensures AdminRequired(old(db.users), token).Err? ==> r == Err(AdminRequired(old(db.users), token).error)
    ensures AdminRequired(old(db.users), token).Ok? && id !in old(db.categories) ==> r == Err(NotFound)
    ensures r.Ok? <==> AdminRequired(old(db.users), token).Ok? && id in old(db.categories)
    ensures r.Ok? ==>
              var c := old(db.categories[id]);
              && db.Contents() == old(db.Contents()).(categories := old(db.categories)[id :=
                   Category(body.name.GetOr(c.name), body.description.GetOr(c.description))])
              && r.value == View(db.categories, id)
              && db.NextKeys() == old(db.NextKeys())
  {
    var guard := AdminRequired(db.users, token);
    if guard.Err? {
      return Err(guard.error);
    }
    if id !in db.categories {
      return Err(NotFound);
    }
    var category := db.categories[id];
    category := category.(name := body.name.GetOr(category.name));
    category := category.(description := body.description.GetOr(category.description));
    db.categories := db.categories[id := category];
    r := Ok(View(db.categories, id));
  }

  /** delete_category: removes exactly that row. */
  method DeleteCategory(db: Database, token: Option<int>, id: int) returns (r: Result<()>)
    requires db.Valid()
    modifies db
    ensures db.Valid()
    ensures r.Err? ==> unchanged(db)
    ensures AdminRequired(old(db.users), token).Err? ==> r == Err(AdminRequired(old(db.users), token).error)
    ensures AdminRequired(old(db.users), token).Ok? && id !in old(db.categories) ==> r == Err(NotFound)
    ensures r.Ok? <==> AdminRequired(old(db.users), token).Ok? && id in old(db.categories)
    ensures r.Ok? ==> db.Contents() == old(db.Contents()).(categories := old(db.categories) - {id})
                      && db.NextKeys() == old(db.NextKeys())
  {
    var guard := AdminRequired(db.users, token);
    if guard.Err? {
      return Err(guard.error);
    }
    if id !in db.categories {
      return Err(NotFound);
    }
    db.categories := db.categories - {id};
    r := Ok(());
  }
}
