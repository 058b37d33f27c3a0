/**
 * The menu item resolvers: the list query, the lifecycle mutations, and the
 * field resolvers. `removeEmptyStringElements` is the parameter `clean`.
 */
module MenuItemResolver {
  import opened Common
  import opened Records
  import opened Query
  import opened Store

  // ---------------------------------------------------------------------------
  // The list query

  function NewestItemFirst(m: MenuItem): Option<int> { Some(-m.createdAt) }

  /**
   * The condition of `getAllMenuItem`: every item, or only active ones; and,
   * when `menuId` is truthy, only the items of that menu.
   */
  predicate Listed(m: MenuItem, allData: bool, menuId: Option<string>)
  {
    && (allData || m.active == Some(true))
    && (Truthy(menuId) ==> m.menuId == menuId)
  }

  /** The selection of `getAllMenuItem`, optionally newest first. */
  function GetAllMenuItem(items: seq<MenuItem>, allData: bool, orderCreated: bool, menuId: Option<string>)
    : (r: Connection<MenuItem>)
    ensures r.totalCount == |r.nodes|
    ensures forall m :: multiset(r.nodes)[m] == if Listed(m, allData, menuId) then multiset(items)[m] else 0
    ensures orderCreated ==> forall i, j :: 0 <= i < j < |r.nodes| ==> r.nodes[i].createdAt >= r.nodes[j].createdAt
    ensures allData && !orderCreated && !Truthy(menuId) ==> r.nodes == items
  {
    var result :=
      if allData && !Truthy(menuId) then items
      else Select(items, (m: MenuItem) => Listed(m, allData, menuId));
    var ordered := if orderCreated then SortBy(result, NewestItemFirst) else result;
    Connection(ordered, |ordered|)
  }

  /** Without `allData`, the list holds only active items; with a truthy `menuId`, only that menu's. */
  lemma GetAllMenuItemFilters(items: seq<MenuItem>, allData: bool, orderCreated: bool, menuId: Option<string>)
    ensures var r := GetAllMenuItem(items, allData, orderCreated, menuId);
      && (!allData ==> forall m :: m in r.nodes ==> m.active == Some(true))
      && (Truthy(menuId) ==> forall m :: m in r.nodes ==> m.menuId == menuId)
      && (forall m :: m in r.nodes ==> m in items)
  {
    var r := GetAllMenuItem(items, allData, orderCreated, menuId);
    forall m | m in r.nodes ensures Listed(m, allData, menuId) && m in items {
      assert m in multiset(r.nodes);
    }
  }

  // ---------------------------------------------------------------------------
  // Lifecycle of menu item records

  /** A record built from nothing but its id. */
  function BlankMenuItem(id: Id, now: int): MenuItem
  {
    MenuItem(id, None, NaN, now, None, None, None, None, None, [], None)
  }

  function BaseMenuItem(found: Option<MenuItem>, id: Id, now: int): MenuItem
  {
    if found.Some? then found.value else BlankMenuItem(id, now)
  }

  function FoundVersion(found: Option<MenuItem>): Option<Version>
  {
    if found.Some? then Some(found.value.version) else None
  }

  /** The record `createMenuItem` saves. */
  function CreatedMenuItem(d: NewMenuItem, id: Id, actor: Option<Id>, now: int): MenuItem
  {
    SpreadMenuItem(BlankMenuItem(id, now), d).(active := Some(true), version := Num(0), createdByUserId := actor)
  }

  /** The record `updateMenuItem` saves. */
  function UpdatedMenuItem(found: Option<MenuItem>, id: Id, d: NewMenuItem, actor: Option<Id>, now: int): MenuItem
  {
    SpreadMenuItem(BaseMenuItem(found, id, now), d)
      .(version := VersionAfter(FoundVersion(found)), updatedByUserId := actor)
  }

  /** The record `changeActiveMenuItem` saves. */
  function ActiveChangedMenuItem(found: Option<MenuItem>, id: Id, active: bool, actor: Option<Id>, now: int): MenuItem
  {
    BaseMenuItem(found, id, now)
      .(active := Some(active), version := VersionAfter(FoundVersion(found)), updatedByUserId := actor)
  }

  /** A created item is active at version 0, records its creator and carries the present input fields. */
  lemma CreatedMenuItemFields(d: NewMenuItem, id: Id, actor: Option<Id>, now: int)
    ensures var r := CreatedMenuItem(d, id, actor, now);
      && r.id == id && r.active == Some(true) && r.version == Num(0) && r.createdAt == now
      && r.createdByUserId == actor && r.updatedByUserId.None?
      && r.menuId == d.menuId.Or(None) && r.rolesId == d.rolesId.Or([]) && r.order == d.order.Or(None)
  {
  }

  /**
   * A rewrite of a stored item keeps its id and its creation data, sets the
   * version to the stored one plus one and the updater to the caller;
   * `changeActiveMenuItem` changes nothing else but `active`.
   */
  lemma RewritesOfStoredMenuItem(m: MenuItem, d: NewMenuItem, active: bool, actor: Option<Id>, now: int)
    ensures var r := UpdatedMenuItem(Some(m), m.id, d, actor, now);
      && r.id == m.id && r.version == Next(m.version) && r.updatedByUserId == actor
      && r.active == m.active && r.createdAt == m.createdAt && r.createdByUserId == m.createdByUserId
      && r.menuId == d.menuId.Or(m.menuId) && r.rolesId == d.rolesId.Or(m.rolesId)
      && r.order == d.order.Or(m.order) && r.name == d.name.Or(m.name) && r.moduleId == d.moduleId.Or(m.moduleId)
    ensures ActiveChangedMenuItem(Some(m), m.id, active, actor, now)
      == m.(active := Some(active), version := Next(m.version), updatedByUserId := actor)
  {
  }

  /** A rewrite of an id that is not stored builds the record from nothing, with version NaN. */
  lemma RewritesOfMissingMenuItem(id: Id, d: NewMenuItem, active: bool, actor: Option<Id>, now: int)
    ensures var r := UpdatedMenuItem(None, id, d, actor, now);
      r.id == id && r.version == NaN && r.active.None? && r.createdByUserId.None?
    ensures var r := ActiveChangedMenuItem(None, id, active, actor, now);
      r.version == NaN && r.active == Some(active) && r.menuId.None? && r.rolesId == []
  {
  }

  /**
   * After a save the store holds exactly the saved record under its id, the
   * other records are kept, and the collection grows only for a new id.
   */
  lemma SavedMenuItemIsFound(items: seq<MenuItem>, m: MenuItem)
    requires DistinctKeys(items, MenuItemKey)
    ensures var r := Upsert(items, m, MenuItemKey);
      && FindMenuItem(r, m.id) == Some(m)
      && (forall x :: x in items && x.id != m.id ==> x in r)
      && (forall x :: x in r ==> x == m || x in items)
      && |r| == if FindMenuItem(items, m.id).Some? then |items| else |items| + 1
  {
    UpsertSpec(items, m, MenuItemKey);
    var r := Upsert(items, m, MenuItemKey);
    var f := FindMenuItem(r, m.id).value;
    var a :| 0 <= a < |r| && r[a] == m;
    var b :| 0 <= b < |r| && r[b] == f;
    assert MenuItemKey(r[a]) == MenuItemKey(r[b]);
    if FindMenuItem(items, m.id).Some? {
      assert FindMenuItem(items, m.id).value in items;
    }
  }

  /** `createMenuItem`: adds exactly one active record at version 0. */
  method CreateMenuItem(db: Database, data: NewMenuItem, actor: Option<Id>, newId: Id, now: int,
                        clean: NewMenuItem -> NewMenuItem)
    returns (result: MenuItem)
    requires db.Valid()
    requires forall m :: m in db.menuItems ==> m.id != newId  // the store assigns a fresh id
    modifies db`menuItems
    ensures db.Valid()
    ensures result == CreatedMenuItem(clean(data), newId, actor, now)
    ensures db.menuItems == old(db.menuItems) + [result]
  {
    var dataProcess := clean(data);
    var model := CreatedMenuItem(dataProcess, newId, actor, now);
    assert IndexOf(db.menuItems, MenuItemKey, newId) == -1;
    db.SaveMenuItem(model);
    result := model;
  }

  /** `updateMenuItem`: writes the stored record (or a blank one) with the present input fields over it. */
  method UpdateMenuItem(db: Database, data: NewMenuItem, id: Id, actor: Option<Id>, now: int,
                        clean: NewMenuItem -> NewMenuItem)
    returns (result: MenuItem)
    requires db.Valid()
    modifies db`menuItems
    ensures db.Valid()
    ensures result == UpdatedMenuItem(FindMenuItem(old(db.menuItems), id), id, clean(data), actor, now)
    ensures db.menuItems == Upsert(old(db.menuItems), result, MenuItemKey)
  {
    var dataProcess := clean(data);
    var found := FindMenuItem(db.menuItems, id);
    result := UpdatedMenuItem(found, id, dataProcess, actor, now);
    db.SaveMenuItem(result);
  }

  /** `changeActiveMenuItem`: sets `active`, bumps the version, records the updater. */
  method ChangeActiveMenuItem(db: Database, active: bool, id: Id, actor: Option<Id>, now: int)
    returns (changed: bool)
    requires db.Valid()
    modifies db`menuItems
    ensures db.Valid()
    ensures changed
    ensures db.menuItems
      == Upsert(old(db.menuItems), ActiveChangedMenuItem(FindMenuItem(old(db.menuItems), id), id, active, actor, now), MenuItemKey)
  {
    var found := FindMenuItem(db.menuItems, id);
    var model := ActiveChangedMenuItem(found, id, active, actor, now);
    db.SaveMenuItem(model);
    changed := true;
  }

  /** `deleteMenuItem`: removes the record with the id and keeps every other. */
  method DeleteMenuItem(db: Database, id: Id)
    requires db.Valid()
    modifies db`menuItems
    ensures db.Valid()
    ensures db.menuItems == WithoutMenuItem(old(db.menuItems), id)
  {
    db.DeleteMenuItem(id);
  }

  // ---------------------------------------------------------------------------
  // Field resolvers

  /** The `menu` field: the item's menu when `menuId` is set and stored. */
  function ResolveMenu(menus: seq<Menu>, data: MenuItem): (r: Option<Menu>)
    ensures r.Some? ==> r.value in menus && data.menuId == Some(r.value.id)
    ensures r.None? <==> data.menuId.None? || forall m :: m in menus ==> m.id != data.menuId.value
  {
    if data.menuId.Some? then FindMenu(menus, data.menuId.value) else None
  }

  /** The `module` field: the item's module when `moduleId` is set and stored. */
  function ResolveModule(modules: seq<Module>, data: MenuItem): (r: Option<Module>)
    ensures r.Some? ==> r.value in modules && data.moduleId == Some(r.value.id)
    ensures r.None? <==> data.moduleId.None? || forall m :: m in modules ==> m.id != data.moduleId.value
  {
    if data.moduleId.Some? then FindModule(modules, data.moduleId.value) else None
  }

  /** The `createdByUser` field of an item. */
  function ResolveCreatedByUser(users: seq<User>, data: MenuItem): (r: Option<User>)
    ensures r.Some? ==> r.value in users && data.createdByUserId == Some(r.value.id)
    ensures r.None? <==> data.createdByUserId.None? || forall u :: u in users ==> u.id != data.createdByUserId.value
  {
    if data.createdByUserId.Some? then FindUser(users, data.createdByUserId.value) else None
  }

  /** The `updatedByUser` field of an item. */
  function ResolveUpdatedByUser(users: seq<User>, data: MenuItem): (r: Option<User>)
    ensures r.Some? ==> r.value in users && data.updatedByUserId == Some(r.value.id)
    ensures r.None? <==> data.updatedByUserId.None? || forall u :: u in users ==> u.id != data.updatedByUserId.value
  {
    if data.updatedByUserId.Some? then FindUser(users, data.updatedByUserId.value) else None
  }

  /** The `roles` field: the stored roles whose ids the item lists. */
  function ResolveRoles(roles: seq<Role>, data: MenuItem): (r: seq<Role>)
    ensures forall x :: x in r <==> x in roles && x.id in data.rolesId
    ensures forall x :: multiset(r)[x] == if x.id in data.rolesId then multiset(roles)[x] else 0
  {
    Select(roles, (x: Role) => x.id in data.rolesId)
  }
}
