/**
 * The document store behind the repositories: one collection per entity,
 * each a sequence in natural (insertion) order, with the indexes the `User`
 * entity declares enforced on every write.
 */
module Store {
  import opened Common
  import opened Records
  import opened Query

  function UserKey(u: User): Id { u.id }
  function UsernameKey(u: User): Option<string> { u.username }
  function DocumentNumberKey(u: User): Option<string> { u.documentNumber }
  function MenuItemKey(m: MenuItem): Id { m.id }

  /**
   * The indexes of the users collection: the primary key and the unique
   * indexes on `username` and `documentNumber`. These indexes are not sparse,
   * so a missing value is indexed as null and may occur only once.
   */
  predicate UniqueUserKeys(users: seq<User>)
  {
    && DistinctKeys(users, UserKey)
    && DistinctKeys(users, UsernameKey)
    && DistinctKeys(users, DocumentNumberKey)
  }

  /** Saving `u` breaks no unique index: every other user differs on both unique keys. */
  predicate KeysFree(users: seq<User>, u: User)
  {
    forall v :: v in users && v.id != u.id ==> v.username != u.username && v.documentNumber != u.documentNumber
  }

  /** The stored user with this id (`findOneBy(id)`). */
  function FindUser(users: seq<User>, id: Id): (r: Option<User>)
    ensures r.Some? ==> r.value in users && r.value.id == id
    ensures r.None? <==> forall u :: u in users ==> u.id != id
  {
    First(users, (u: User) => u.id == id)
  }

  /** The stored role with this id. */
  function FindRole(roles: seq<Role>, id: Id): (r: Option<Role>)
    ensures r.Some? ==> r.value in roles && r.value.id == id
    ensures r.None? <==> forall x :: x in roles ==> x.id != id
  {
    First(roles, (x: Role) => x.id == id)
  }

  /** The stored menu with this id. */
  function FindMenu(menus: seq<Menu>, id: Id): (r: Option<Menu>)
    ensures r.Some? ==> r.value in menus && r.value.id == id
    ensures r.None? <==> forall m :: m in menus ==> m.id != id
  {
    First(menus, (m: Menu) => m.id == id)
  }

  /** The stored module with this id. */
  function FindModule(modules: seq<Module>, id: Id): (r: Option<Module>)
    ensures r.Some? ==> r.value in modules && r.value.id == id
    ensures r.None? <==> forall m :: m in modules ==> m.id != id
  {
    First(modules, (m: Module) => m.id == id)
  }

  /** The stored menu item with this id. */
  function FindMenuItem(items: seq<MenuItem>, id: Id): (r: Option<MenuItem>)
    ensures r.Some? ==> r.value in items && r.value.id == id
    ensures r.None? <==> forall m :: m in items ==> m.id != id
  {
    First(items, (m: MenuItem) => m.id == id)
  }

  /** `deleteOne({ _id: id })` on the users collection. */
  function WithoutUser(users: seq<User>, id: Id): (r: seq<User>)
    ensures forall u :: u in r <==> u in users && u.id != id
    ensures UniqueUserKeys(users) ==> UniqueUserKeys(r)
  {
    var r := Select(users, (u: User) => u.id != id);
    if UniqueUserKeys(users) then
      SelectKeepsDistinct(users, (u: User) => u.id != id, UserKey);
      SelectKeepsDistinct(users, (u: User) => u.id != id, UsernameKey);
      SelectKeepsDistinct(users, (u: User) => u.id != id, DocumentNumberKey);
      r
    else r
  }

  /** `deleteOne({ _id: id })` on the menu items collection. */
  function WithoutMenuItem(items: seq<MenuItem>, id: Id): (r: seq<MenuItem>)
    ensures forall m :: m in r <==> m in items && m.id != id
    ensures DistinctKeys(items, MenuItemKey) ==> DistinctKeys(r, MenuItemKey)
  {
    var r := Select(items, (m: MenuItem) => m.id != id);
    if DistinctKeys(items, MenuItemKey) then
      SelectKeepsDistinct(items, (m: MenuItem) => m.id != id, MenuItemKey);
      r
    else r
  }

  /**
   * The store accepts the save of `u` exactly when the collection it would
   * leave behind still satisfies every unique index.
   */
  lemma SaveUserKeepsIndexes(users: seq<User>, u: User)
    requires UniqueUserKeys(users)
    ensures UniqueUserKeys(Upsert(users, u, UserKey)) <==> KeysFree(users, u)
  {
    var i := IndexOf(users, UserKey, u.id);
    var r := Upsert(users, u, UserKey);
    // the position that holds u in r
    var at := if i == -1 then |users| else i;
    assert |r| == (if i == -1 then |users| + 1 else |users|);
    assert r[at] == u;
    assert forall k :: 0 <= k < |r| && k != at ==> r[k] == users[k];
    if KeysFree(users, u) {
      forall a, b | 0 <= a < b < |r|
        ensures r[a].id != r[b].id && r[a].username != r[b].username
             && r[a].documentNumber != r[b].documentNumber
      {
        if a != at && b != at {
          assert r[a] == users[a] && r[b] == users[b];
        } else {
          var k := if a == at then b else a;
          assert r[k] == users[k] && users[k] in users;
          assert users[k].id != u.id;
        }
      }
    }
    if UniqueUserKeys(r) {
      forall v | v in users && v.id != u.id
        ensures v.username != u.username && v.documentNumber != u.documentNumber
      {
        var k :| 0 <= k < |users| && users[k] == v;
        assert k != at;
        assert r[k] == v;
        assert UsernameKey(r[k]) != UsernameKey(r[at]);
        assert DocumentNumberKey(r[k]) != DocumentNumberKey(r[at]);
      }
    }
  }

  /**
   * Writing back a stored user with the same id, username and document
   * number never breaks a unique index.
   */
  lemma {:induction false} ResaveIsFree(users: seq<User>, stored: User, u: User)
    requires UniqueUserKeys(users)
    requires stored in users
    requires u.id == stored.id && u.username == stored.username && u.documentNumber == stored.documentNumber
    ensures KeysFree(users, u)
  {
    forall v | v in users && v.id != u.id
      ensures v.username != u.username && v.documentNumber != u.documentNumber
    {
      var a :| 0 <= a < |users| && users[a] == v;
      var b :| 0 <= b < |users| && users[b] == stored;
      assert a != b;
      if a < b {
        assert UsernameKey(users[a]) != UsernameKey(users[b]);
        assert DocumentNumberKey(users[a]) != DocumentNumberKey(users[b]);
      } else {
        assert UsernameKey(users[b]) != UsernameKey(users[a]);
        assert DocumentNumberKey(users[b]) != DocumentNumberKey(users[a]);
      }
    }
  }

  /**
   * Two users that both lack a document number cannot be stored together:
   * the document-number index is not sparse.
   */
  lemma {:induction false} MissingDocumentNumberIsAKey(users: seq<User>, u: User)
    requires exists v :: v in users && v.id != u.id && v.documentNumber.None?
    requires u.documentNumber.None?
    ensures !KeysFree(users, u)
  {
    var v :| v in users && v.id != u.id && v.documentNumber.None?;
    assert v.documentNumber == u.documentNumber;
  }

  /** The repositories' shared connection: one collection per entity. */
  class Database {
    var users: seq<User>
    var roles: seq<Role>
    var menus: seq<Menu>
    var menuItems: seq<MenuItem>
    var modules: seq<Module>
    var auditLogins: seq<AuditLogin>

    /** The indexes hold, and no stored menu carries the per-session item list. */
    ghost predicate Valid()
      reads this
    {
      && UniqueUserKeys(users)
      && DistinctKeys(menuItems, MenuItemKey)
      && forall m :: m in menus ==> m.menuItemsLogin.None?
    }

    constructor ()
      ensures Valid()
      ensures users == [] && roles == [] && menus == [] && menuItems == []
      ensures modules == [] && auditLogins == []
    {
      users, roles, menus, menuItems, modules, auditLogins := [], [], [], [], [], [];
    }

    /** `save` on the users collection: an upsert by id that the unique indexes may refuse. */
    method SaveUser(u: User) returns (saved: bool)
      requires Valid()
      modifies this`users
      ensures Valid()
      ensures saved == KeysFree(old(users), u)
      ensures users == if saved then Upsert(old(users), u, UserKey) else old(users)
    {
      saved := KeysFree(users, u);
      if saved {
        SaveUserKeepsIndexes(users, u);
        users := Upsert(users, u, UserKey);
      }
    }

    /** `deleteOne` on the users collection. */
    method DeleteUser(id: Id)
      requires Valid()
      modifies this`users
      ensures Valid()
      ensures users == WithoutUser(old(users), id)
    {
      users := WithoutUser(users, id);
    }

    /** `save` on the menu items collection: an upsert by id. */
    method SaveMenuItem(m: MenuItem)
      requires Valid()
      modifies this`menuItems
      ensures Valid()
      ensures menuItems == Upsert(old(menuItems), m, MenuItemKey)
    {
      UpsertSpec(menuItems, m, MenuItemKey);
      menuItems := Upsert(menuItems, m, MenuItemKey);
    }

    /** `deleteOne` on the menu items collection. */
    method DeleteMenuItem(id: Id)
      requires Valid()
      modifies this`menuItems
      ensures Valid()
      ensures menuItems == WithoutMenuItem(old(menuItems), id)
    {
      menuItems := WithoutMenuItem(menuItems, id);
    }

    /** `save` of a new audit record: an insert. */
    method SaveAuditLogin(a: AuditLogin)
      requires Valid()
      modifies this`auditLogins
      ensures Valid()
      ensures auditLogins == old(auditLogins) + [a]
    {
      auditLogins := auditLogins + [a];
    }
  }
}
