/** The `seed` command: puts the administrator account and the default categories in place once. */
module Commands {
  import opened Results
  import opened Models
  import opened Store

  const AdminEmail := "admin@digimarket.com"
  const AdminPassword := "adminpassword"

  /** The four categories a seed adds to an empty category table, in this order. */
  const DefaultCategories: seq<Category> := [
    Category("Ordinateurs Portables", Some("Des PC portables pour tous les usages.")),
    Category("Périphériques", Some("Claviers, souris, et autres accessoires.")),
    Category("Moniteurs", Some("Écrans de toutes tailles et résolutions.")),
    Category("Composants", Some("Processeurs, cartes graphiques, mémoire, etc."))
  ]

  /** The category rows a seed adds, keyed from `first` on. */
  function SeedCategories(first: int): (m: map<int, Category>)
    ensures forall id :: id in m <==> first <= id < first + |DefaultCategories|
    ensures forall k :: 0 <= k < |DefaultCategories| ==> m[first + k] == DefaultCategories[k]
    ensures NamesUnique(m)
  {
    map id | first <= id < first + |DefaultCategories| :: DefaultRow(first, id)
  }

  function DefaultRow(first: int, id: int): Category
    requires first <= id < first + |DefaultCategories|
  {
    DefaultCategories[id - first]
  }

  /** Some user has the administrator's email, and the category table is not empty. */
  predicate Seeded(users: map<int, User>, categories: map<int, Category>) {
    EmailTaken(users, AdminEmail) && |categories| > 0
  }

  /** seed. The administrator is added only if no user has its email (whatever that user's role);
      the categories only if the category table is empty. Both land in one commit. Afterwards the
      store is seeded, and running the command on a seeded store changes nothing, so a second run
      is a no-op. */
  method Seed(db: Database, hash: string -> string)
    requires db.Valid()
    modifies db
    ensures db.Valid()
    ensures EmailTaken(old(db.users), AdminEmail) ==> db.users == old(db.users) && db.nextUserId == old(db.nextUserId)
    ensures !EmailTaken(old(db.users), AdminEmail) ==>
              && old(db.nextUserId) !in old(db.users)
              && db.users == old(db.users)[old(db.nextUserId) := NewUser(AdminEmail, AdminPassword, hash, Admin)]
              && db.nextUserId == old(db.nextUserId) + 1
    ensures |old(db.categories)| > 0 ==> db.categories == old(db.categories) && db.nextCategoryId == old(db.nextCategoryId)
    ensures |old(db.categories)| == 0 ==>
              && db.categories == SeedCategories(old(db.nextCategoryId))
              && db.nextCategoryId == old(db.nextCategoryId) + |DefaultCategories|
    ensures db.products == old(db.products) && db.orders == old(db.orders) && db.items == old(db.items)
    ensures db.nextProductId == old(db.nextProductId) && db.nextOrderId == old(db.nextOrderId)
            && db.nextItemId == old(db.nextItemId)
    ensures Seeded(db.users, db.categories)
    ensures Seeded(old(db.users), old(db.categories)) ==> unchanged(db)
    ensures EmailsUnique(old(db.users)) ==> EmailsUnique(db.users)
    ensures NamesUnique(old(db.categories)) ==> NamesUnique(db.categories)
  {
    SeedAdmin(db, hash);
    SeedDefaultCategories(db);
  }

  /** The first half of seed: the administrator row, if no user has its email. */
  method SeedAdmin(db: Database, hash: string -> string)
    requires db.Valid()
    modifies db
    ensures db.Valid()
    ensures EmailTaken(old(db.users), AdminEmail) ==> unchanged(db)
    ensures !EmailTaken(old(db.users), AdminEmail) ==>
              && old(db.nextUserId) !in old(db.users)
              && db.users == old(db.users)[old(db.nextUserId) := NewUser(AdminEmail, AdminPassword, hash, Admin)]
              && db.NextKeys() == old(db.NextKeys()).(user := old(db.nextUserId) + 1)
    ensures db.categories == old(db.categories) && db.nextCategoryId == old(db.nextCategoryId)
    ensures db.products == old(db.products) && db.orders == old(db.orders) && db.items == old(db.items)
    ensures EmailTaken(db.users, AdminEmail)
    ensures EmailsUnique(old(db.users)) ==> EmailsUnique(db.users)
  {
    if !EmailTaken(db.users, AdminEmail) {
      var id := db.nextUserId;
      var admin := NewUser(AdminEmail, AdminPassword, hash, Admin);
      AddAdminKeepsEmailsUnique(db.users, id, admin);
      ghost var before := db.Contents();
      db.users := db.users[id := admin];
      db.nextUserId := id + 1;
      assert db.Contents().orders == before.orders && db.Contents().items == before.items;
    }
  }

  /** The second half of seed: the default categories, if the category table is empty. */
  method SeedDefaultCategories(db: Database)
    requires db.Valid()
    modifies db
    ensures db.Valid()
    ensures |old(db.categories)| > 0 ==> unchanged(db)
    ensures |old(db.categories)| == 0 ==>
              && db.categories == SeedCategories(old(db.nextCategoryId))
              && db.NextKeys() == old(db.NextKeys()).(category := old(db.nextCategoryId) + |DefaultCategories|)
    ensures db.users == old(db.users) && db.nextUserId == old(db.nextUserId)
    ensures db.products == old(db.products) && db.orders == old(db.orders) && db.items == old(db.items)
    ensures |db.categories| > 0
    ensures NamesUnique(old(db.categories)) ==> NamesUnique(db.categories)
  {
    if |db.categories| == 0 {
      var first := db.nextCategoryId;
      ghost var before := db.Contents();
      db.categories := SeedCategories(first);
      db.nextCategoryId := first + |DefaultCategories|;
      assert first in db.categories;
      assert db.Contents().orders == before.orders && db.Contents().items == before.items;
    }
  }

  /** Adding a user whose email no row has keeps emails unique, and makes that email taken. */
  lemma AddAdminKeepsEmailsUnique(users: map<int, User>, id: int, u: User)
    requires !EmailTaken(users, u.email) && id !in users
    ensures EmailsUnique(users) ==> EmailsUnique(users[id := u])
    ensures EmailTaken(users[id := u], u.email)
  {
    assert users[id := u][id].email == u.email;
  }
}
