/**
 * What a session payload must contain: the permission tree of a role (its
 * visible menus, each with its visible items, ordered by their `order` keys)
 * and the profile fields copied from the user.
 */
module Session {
  import opened Common
  import opened Records
  import opened Query
  import opened Store

  /** The menu query's condition: active and granted to the role (`rolesId: { $in: [roleId] }`). */
  predicate MenuVisible(m: Menu, roleId: Id)
  {
    m.active == Some(true) && roleId in m.rolesId
  }

  /** The item query's condition: in the menu, granted to the role, and active. */
  predicate ItemVisible(i: MenuItem, menuId: Id, roleId: Id)
  {
    i.menuId == Some(menuId) && roleId in i.rolesId && i.active == Some(true)
  }

  function MenuOrder(m: Menu): Option<int> { m.order }
  function ItemOrder(i: MenuItem): Option<int> { i.order }

  /** The menus the role may see, ascending by `order`. */
  function MenusForRole(menus: seq<Menu>, roleId: Id): (r: seq<Menu>)
    ensures SortedBy(r, MenuOrder)
    ensures forall m :: multiset(r)[m] == if MenuVisible(m, roleId) then multiset(menus)[m] else 0
  {
    SortBy(Select(menus, (m: Menu) => MenuVisible(m, roleId)), MenuOrder)
  }

  /** The items of one menu that the role may see, ascending by `order`. */
  function ItemsForMenu(items: seq<MenuItem>, menuId: Id, roleId: Id): (r: seq<MenuItem>)
    ensures SortedBy(r, ItemOrder)
    ensures forall i :: multiset(r)[i] == if ItemVisible(i, menuId, roleId) then multiset(items)[i] else 0
  {
    SortBy(Select(items, (i: MenuItem) => ItemVisible(i, menuId, roleId)), ItemOrder)
  }

  /** The menus of a tree as they are stored, without their attached item lists. */
  function Detached(tree: seq<Menu>): (r: seq<Menu>)
  {
    seq(|tree|, k requires 0 <= k < |tree| => tree[k].(menuItemsLogin := None))
  }

  /** `list` holds exactly the items of `menuId` visible to `roleId`, ascending by `order`. */
  ghost predicate IsItemList(list: seq<MenuItem>, items: seq<MenuItem>, menuId: Id, roleId: Id)
  {
    && SortedBy(list, ItemOrder)
    && forall i :: multiset(list)[i] == if ItemVisible(i, menuId, roleId) then multiset(items)[i] else 0
  }

  /**
   * `tree` is the permission tree of `roleId`: exactly the visible menus,
   * ascending by `order`, each carrying exactly its visible items, ascending
   * by `order`. Equal keys may come in any order.
   */
  ghost predicate IsPermissionTree(tree: seq<Menu>, menus: seq<Menu>, items: seq<MenuItem>, roleId: Id)
  {
    && SortedBy(tree, MenuOrder)
    && (forall m :: multiset(Detached(tree))[m] == if MenuVisible(m, roleId) then multiset(menus)[m] else 0)
    && forall k :: 0 <= k < |tree| ==>
         tree[k].menuItemsLogin.Some? && IsItemList(tree[k].menuItemsLogin.value, items, tree[k].id, roleId)
  }

  /**
   * `p` carries the user's profile, and the role and permission tree when
   * the user has a (truthy) role id; the token is not constrained here.
   */
  ghost predicate IsSession(p: Jwt, u: User, roles: seq<Role>, menus: seq<Menu>, items: seq<MenuItem>)
  {
    && p.userId == Some(u.id)
    && p.name == u.name
    && p.lastName == u.lastName
    && p.username == u.username
    && p.profilePhoto == u.profilePhoto
    && p.role == (if Truthy(u.roleId) then FindRole(roles, u.roleId.value) else None)
    && if Truthy(u.roleId)
       then p.roleMenus.Some? && IsPermissionTree(p.roleMenus.value, menus, items, u.roleId.value)
       else p.roleMenus.None?
  }

  /** A permission tree has one node per visible stored menu. */
  lemma PermissionTreeSize(tree: seq<Menu>, menus: seq<Menu>, items: seq<MenuItem>, roleId: Id)
    requires IsPermissionTree(tree, menus, items, roleId)
    ensures |tree| == |Select(menus, (m: Menu) => MenuVisible(m, roleId))|
  {
    var d := Detached(tree);
    var v := Select(menus, (m: Menu) => MenuVisible(m, roleId));
    assert multiset(d) == multiset(v);
    assert |d| == |multiset(d)|;
    assert |v| == |multiset(v)|;
  }

  /** Each node of a permission tree is a stored menu that the role may see. */
  lemma PermissionTreeMenusStored(tree: seq<Menu>, menus: seq<Menu>, items: seq<MenuItem>, roleId: Id, k: int)
    requires IsPermissionTree(tree, menus, items, roleId)
    requires 0 <= k < |tree|
    ensures tree[k].(menuItemsLogin := None) in menus
    ensures MenuVisible(tree[k], roleId)
  {
    var d := Detached(tree);
    assert d[k] in multiset(d);
  }

  /**
   * The item list of each node holds only stored, active items of that menu
   * granted to the role.
   */
  lemma PermissionTreeItemsStored(tree: seq<Menu>, menus: seq<Menu>, items: seq<MenuItem>, roleId: Id, k: int, i: MenuItem)
    requires IsPermissionTree(tree, menus, items, roleId)
    requires 0 <= k < |tree|
    requires i in tree[k].menuItemsLogin.value
    ensures i in items && i.active == Some(true) && i.menuId == Some(tree[k].id) && roleId in i.rolesId
  {
    assert i in multiset(tree[k].menuItemsLogin.value);
  }

  /**
   * A user without a truthy role id gets neither a role nor menus, and that
   * is not an error: the payload is the profile alone, next to its token.
   */
  lemma NoRoleNoMenus(p: Jwt, u: User, roles: seq<Role>, menus: seq<Menu>, items: seq<MenuItem>)
    requires IsSession(p, u, roles, menus, items)
    requires !Truthy(u.roleId)
    ensures p == EmptyJwt.(jwt := p.jwt, userId := Some(u.id), name := u.name, lastName := u.lastName,
                           username := u.username, profilePhoto := u.profilePhoto)
  {
  }

  /**
   * The worked scenario: role R1 sees menu M1 (order 1, active) holding item
   * I1 (order 1, active, granted to R1). Its only permission tree is M1 with
   * I1 attached.
   */
  lemma {:induction false} SingleMenuScenario(tree: seq<Menu>, m1: Menu, i1: MenuItem)
    requires m1 == Menu("M1", Some(true), Some("Menu"), None, Some(1), ["R1"], None)
    requires i1 == MenuItem("I1", Some(true), Num(0), 0, None, None, Some("Item"), Some("M1"), None, ["R1"], Some(1))
    requires IsPermissionTree(tree, [m1], [i1], "R1")
    ensures tree == [m1.(menuItemsLogin := Some([i1]))]
  {
    var d := Detached(tree);
    assert multiset(d) == multiset([m1]) by {
      forall m ensures multiset(d)[m] == multiset([m1])[m] {
        if m == m1 { assert MenuVisible(m, "R1"); }
      }
    }
    assert |tree| == 1 by {
      assert |d| == |multiset(d)| == |multiset([m1])| == 1;
    }
    assert d[0] in multiset(d);
    assert d[0] == m1;
    var list := tree[0].menuItemsLogin.value;
    assert tree[0].id == "M1";
    assert multiset(list) == multiset([i1]) by {
      forall i ensures multiset(list)[i] == multiset([i1])[i] {
        if i == i1 { assert ItemVisible(i, "M1", "R1"); }
      }
    }
    assert |list| == 1 by {
      assert |list| == |multiset(list)| == |multiset([i1])| == 1;
    }
    assert list[0] in multiset(list);
    assert list == [i1];
    assert tree[0] == d[0].(menuItemsLogin := Some(list));
  }

  /** The visible menus of a role have pairwise distinct `order` keys. */
  ghost predicate MenuOrdersDistinct(menus: seq<Menu>, roleId: Id)
  {
    forall m1, m2 ::
      (m1 in menus && m2 in menus && MenuVisible(m1, roleId) && MenuVisible(m2, roleId) && m1.order == m2.order)
      ==> m1 == m2
  }

  /** Within each menu, the items visible to a role have pairwise distinct `order` keys. */
  ghost predicate ItemOrdersDistinct(items: seq<MenuItem>, roleId: Id)
  {
    forall i1, i2 ::
      (i1 in items && i2 in items && i1.menuId == i2.menuId && i1.order == i2.order
       && i1.active == Some(true) && i2.active == Some(true) && roleId in i1.rolesId && roleId in i2.rolesId)
      ==> i1 == i2
  }

  /** With distinct menu orders, the menus of a permission tree come in one determined order. */
  lemma TreeMenusDetermined(t1: seq<Menu>, t2: seq<Menu>, menus: seq<Menu>, items: seq<MenuItem>, roleId: Id)
    requires IsPermissionTree(t1, menus, items, roleId) && IsPermissionTree(t2, menus, items, roleId)
    requires MenuOrdersDistinct(menus, roleId)
    ensures Detached(t1) == Detached(t2)
  {
    var d1, d2 := Detached(t1), Detached(t2);
    assert multiset(d1) == multiset(d2) by {
      forall m ensures multiset(d1)[m] == multiset(d2)[m] { }
    }
    assert SortedBy(d1, MenuOrder) by {
      forall i, j | 0 <= i < j < |d1| ensures KeyLe(MenuOrder(d1[i]), MenuOrder(d1[j])) {
        assert d1[i].order == t1[i].order && d1[j].order == t1[j].order;
      }
    }
    assert SortedBy(d2, MenuOrder) by {
      forall i, j | 0 <= i < j < |d2| ensures KeyLe(MenuOrder(d2[i]), MenuOrder(d2[j])) {
        assert d2[i].order == t2[i].order && d2[j].order == t2[j].order;
      }
    }
    assert KeyIdentifies(d1, MenuOrder) by {
      forall i, j | 0 <= i < |d1| && 0 <= j < |d1| && MenuOrder(d1[i]) == MenuOrder(d1[j])
        ensures d1[i] == d1[j]
      {
        PermissionTreeMenusStored(t1, menus, items, roleId, i);
        PermissionTreeMenusStored(t1, menus, items, roleId, j);
      }
    }
    SortedPermutationUnique(d1, d2, MenuOrder);
  }

  /** With distinct item orders, the item list of a menu comes in one determined order. */
  lemma ItemListDetermined(l1: seq<MenuItem>, l2: seq<MenuItem>, items: seq<MenuItem>, menuId: Id, roleId: Id)
    requires IsItemList(l1, items, menuId, roleId) && IsItemList(l2, items, menuId, roleId)
    requires ItemOrdersDistinct(items, roleId)
    ensures l1 == l2
  {
    assert multiset(l1) == multiset(l2) by {
      forall i ensures multiset(l1)[i] == multiset(l2)[i] { }
    }
    assert KeyIdentifies(l1, ItemOrder) by {
      forall a, b | 0 <= a < |l1| && 0 <= b < |l1| && ItemOrder(l1[a]) == ItemOrder(l1[b])
        ensures l1[a] == l1[b]
      {
        assert l1[a] in multiset(l1) && l1[b] in multiset(l1);
      }
    }
    SortedPermutationUnique(l1, l2, ItemOrder);
  }

  /**
   * When order keys are distinct, a role has exactly one permission tree:
   * rebuilding the session without an intervening write gives the same
   * payload.
   */
  lemma PermissionTreeUnique(t1: seq<Menu>, t2: seq<Menu>, menus: seq<Menu>, items: seq<MenuItem>, roleId: Id)
    requires IsPermissionTree(t1, menus, items, roleId) && IsPermissionTree(t2, menus, items, roleId)
    requires MenuOrdersDistinct(menus, roleId) && ItemOrdersDistinct(items, roleId)
    ensures t1 == t2
  {
    TreeMenusDetermined(t1, t2, menus, items, roleId);
    var d1, d2 := Detached(t1), Detached(t2);
    assert |t1| == |d1| == |d2| == |t2|;
    forall k | 0 <= k < |t1| ensures t1[k] == t2[k] {
      assert d1[k] == d2[k];
      assert t1[k].id == t2[k].id;
      ItemListDetermined(t1[k].menuItemsLogin.value, t2[k].menuItemsLogin.value, items, t1[k].id, roleId);
      assert t1[k] == d1[k].(menuItemsLogin := t1[k].menuItemsLogin);
      assert t2[k] == d2[k].(menuItemsLogin := t2[k].menuItemsLogin);
    }
  }

  /**
   * When order keys are distinct, the session of a user over one store is
   * determined up to its token: asking `me` twice without an intervening
   * write gives the same payload.
   */
  lemma SessionUnique(p1: Jwt, p2: Jwt, u: User, roles: seq<Role>, menus: seq<Menu>, items: seq<MenuItem>)
    requires IsSession(p1, u, roles, menus, items) && IsSession(p2, u, roles, menus, items)
    requires p1.jwt == p2.jwt
    requires Truthy(u.roleId) ==> MenuOrdersDistinct(menus, u.roleId.value) && ItemOrdersDistinct(items, u.roleId.value)
    ensures p1 == p2
  {
    if Truthy(u.roleId) {
      PermissionTreeUnique(p1.roleMenus.value, p2.roleMenus.value, menus, items, u.roleId.value);
    }
  }

  /** An active menu granted to role R1 with the given order key. */
  function ScenarioMenu(id: Id, order: int): Menu
  {
    Menu(id, Some(true), None, None, Some(order), ["R1"], None)
  }

  /** The menus of a tree over the three scenario menus are exactly those three. */
  lemma ScenarioTreeMenus(tree: seq<Menu>, items: seq<MenuItem>)
    requires IsPermissionTree(tree, [ScenarioMenu("A", 3), ScenarioMenu("B", 1), ScenarioMenu("C", 2)], items, "R1")
    ensures multiset(Detached(tree)) == multiset([ScenarioMenu("B", 1), ScenarioMenu("C", 2), ScenarioMenu("A", 3)])
  {
    var menus := [ScenarioMenu("A", 3), ScenarioMenu("B", 1), ScenarioMenu("C", 2)];
    var want := [ScenarioMenu("B", 1), ScenarioMenu("C", 2), ScenarioMenu("A", 3)];
    assert multiset(menus) == multiset(want);
    forall m ensures multiset(Detached(tree))[m] == multiset(want)[m] {
      if m in menus { assert MenuVisible(m, "R1"); }
    }
  }

  /**
   * The ordering scenario: menus stored with order keys 3, 1, 2 come out in
   * the tree as 1, 2, 3.
   */
  lemma MenuOrderScenario(tree: seq<Menu>, items: seq<MenuItem>)
    requires IsPermissionTree(tree, [ScenarioMenu("A", 3), ScenarioMenu("B", 1), ScenarioMenu("C", 2)], items, "R1")
    ensures Detached(tree) == [ScenarioMenu("B", 1), ScenarioMenu("C", 2), ScenarioMenu("A", 3)]
  {
    var d := Detached(tree);
    var want := [ScenarioMenu("B", 1), ScenarioMenu("C", 2), ScenarioMenu("A", 3)];
    ScenarioTreeMenus(tree, items);
    assert KeyIdentifies(d, MenuOrder) by {
      forall i, j | 0 <= i < |d| && 0 <= j < |d| && MenuOrder(d[i]) == MenuOrder(d[j]) ensures d[i] == d[j] {
        assert d[i] in multiset(want) && d[j] in multiset(want);
      }
    }
    assert SortedBy(d, MenuOrder) by {
      forall i, j | 0 <= i < j < |d| ensures KeyLe(MenuOrder(d[i]), MenuOrder(d[j])) {
        assert d[i].order == tree[i].order && d[j].order == tree[j].order;
      }
    }
    SortedPermutationUnique(d, want, MenuOrder);
  }
}
