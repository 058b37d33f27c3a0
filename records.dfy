/**
 * The documents of the store and the GraphQL inputs and payloads that the
 * resolvers exchange. Every nullable column is an `Option`; timestamps are
 * plain numbers assigned by the store.
 */
module Records {
  import opened Common

  /** A stored user (the `User` entity). `createdAt` is set by the store on insert. */
  datatype User = User(
    id: Id,
    active: Option<bool>,
    version: Version,
    createdAt: int,
    createdByUserId: Option<Id>,
    updatedByUserId: Option<Id>,
    name: Option<string>,
    lastName: Option<string>,
    username: Option<string>,
    password: Option<string>,       // a bcrypt digest once stored through the resolvers
    documentNumber: Option<string>,
    birthdate: Option<int>,
    phone: Option<string>,
    email: Option<string>,
    profilePhoto: Option<string>,
    roleId: Option<Id>)

  /** A stored role. */
  datatype Role = Role(id: Id, name: Option<string>)

  /** A stored module that a menu item links to. */
  datatype Module = Module(id: Id, name: Option<string>)

  /** A stored menu item: belongs to one menu, visible to the roles in `rolesId`. */
  datatype MenuItem = MenuItem(
    id: Id,
    active: Option<bool>,
    version: Version,
    createdAt: int,
    createdByUserId: Option<Id>,
    updatedByUserId: Option<Id>,
    name: Option<string>,
    menuId: Option<Id>,
    moduleId: Option<Id>,
    rolesId: seq<Id>,
    order: Option<int>)

  /**
   * A stored menu, visible to the roles in `rolesId`. `menuItemsLogin` is not
   * a stored column: the session resolvers fill it on the documents they
   * return.
   */
  datatype Menu = Menu(
    id: Id,
    active: Option<bool>,
    name: Option<string>,
    icon: Option<string>,
    order: Option<int>,
    rolesId: seq<Id>,
    menuItemsLogin: Option<seq<MenuItem>>)

  /** The request metadata the gateway forwards in the context (all optional). */
  datatype RequestData = RequestData(
    ip: Option<string>,
    geo: Option<string>,
    browser: Option<string>,
    language: Option<string>,
    ipware: Option<string>,
    ipwarePublic: Option<string>)

  /** One login attempt against an existing active user. */
  datatype AuditLogin = AuditLogin(
    userId: Id,
    username: string,
    request: RequestData,
    auth: bool,
    active: bool,
    version: Version)

  /** The session payload returned by `login` and `me` (the `Jwt` object type). */
  datatype Jwt = Jwt(
    jwt: Option<string>,
    userId: Option<Id>,
    name: Option<string>,
    lastName: Option<string>,
    username: Option<string>,
    profilePhoto: Option<string>,
    role: Option<Role>,
    roleMenus: Option<seq<Menu>>)

  /** A freshly constructed `Jwt`: every field unset. */
  const EmptyJwt := Jwt(None, None, None, None, None, None, None, None)

  /** The `NewUser` input object. */
  datatype NewUser = NewUser(
    name: Input<Option<string>>,
    lastName: Input<Option<string>>,
    username: Input<Option<string>>,
    password: Input<Option<string>>,
    birthdate: Input<Option<int>>,
    phone: Input<Option<string>>,
    email: Input<Option<string>>,
    profilePhoto: Input<Option<string>>,
    roleId: Input<Option<Id>>)

  /** The `NewMenuItem` input object, restricted to the fields this model keeps. */
  datatype NewMenuItem = NewMenuItem(
    name: Input<Option<string>>,
    menuId: Input<Option<Id>>,
    moduleId: Input<Option<Id>>,
    rolesId: Input<seq<Id>>,
    order: Input<Option<int>>)

  /** `{ ...u, ...d }`: the user with the fields present in `d` overridden. */
  function SpreadUser(u: User, d: NewUser): User
  {
    u.(name := d.name.Or(u.name),
       lastName := d.lastName.Or(u.lastName),
       username := d.username.Or(u.username),
       password := d.password.Or(u.password),
       birthdate := d.birthdate.Or(u.birthdate),
       phone := d.phone.Or(u.phone),
       email := d.email.Or(u.email),
       profilePhoto := d.profilePhoto.Or(u.profilePhoto),
       roleId := d.roleId.Or(u.roleId))
  }

  /** `{ ...m, ...d }`: the menu item with the fields present in `d` overridden. */
  function SpreadMenuItem(m: MenuItem, d: NewMenuItem): MenuItem
  {
    m.(name := d.name.Or(m.name),
       menuId := d.menuId.Or(m.menuId),
       moduleId := d.moduleId.Or(m.moduleId),
       rolesId := d.rolesId.Or(m.rolesId),
       order := d.order.Or(m.order))
  }

  /**
   * Spreading a `NewUser` never touches the id, the lifecycle columns or the
   * document number, and each input field changes its column exactly when it
   * is present, to the value it carries.
   */
  lemma SpreadUserFields(u: User, d: NewUser)
    ensures var r := SpreadUser(u, d);
      && r.id == u.id && r.active == u.active && r.version == u.version
      && r.createdAt == u.createdAt && r.createdByUserId == u.createdByUserId
      && r.updatedByUserId == u.updatedByUserId && r.documentNumber == u.documentNumber
      && (d.name.Absent? ==> r.name == u.name) && (d.name.Given? ==> r.name == d.name.value)
      && (d.lastName.Absent? ==> r.lastName == u.lastName) && (d.lastName.Given? ==> r.lastName == d.lastName.value)
      && (d.username.Absent? ==> r.username == u.username) && (d.username.Given? ==> r.username == d.username.value)
      && (d.password.Absent? ==> r.password == u.password) && (d.password.Given? ==> r.password == d.password.value)
      && (d.birthdate.Absent? ==> r.birthdate == u.birthdate) && (d.birthdate.Given? ==> r.birthdate == d.birthdate.value)
      && (d.phone.Absent? ==> r.phone == u.phone) && (d.phone.Given? ==> r.phone == d.phone.value)
      && (d.email.Absent? ==> r.email == u.email) && (d.email.Given? ==> r.email == d.email.value)
      && (d.profilePhoto.Absent? ==> r.profilePhoto == u.profilePhoto)
      && (d.profilePhoto.Given? ==> r.profilePhoto == d.profilePhoto.value)
      && (d.roleId.Absent? ==> r.roleId == u.roleId) && (d.roleId.Given? ==> r.roleId == d.roleId.value)
      && (d == NewUser(Absent, Absent, Absent, Absent, Absent, Absent, Absent, Absent, Absent) ==> r == u)
  {
  }

  /**
   * Spreading a `NewMenuItem` never touches the id or the lifecycle columns,
   * and each input field changes its column exactly when it is present.
   */
  lemma SpreadMenuItemFields(m: MenuItem, d: NewMenuItem)
    ensures var r := SpreadMenuItem(m, d);
      && r.id == m.id && r.active == m.active && r.version == m.version
      && r.createdAt == m.createdAt && r.createdByUserId == m.createdByUserId
      && r.updatedByUserId == m.updatedByUserId
      && (d.name.Absent? ==> r.name == m.name) && (d.name.Given? ==> r.name == d.name.value)
      && (d.menuId.Absent? ==> r.menuId == m.menuId) && (d.menuId.Given? ==> r.menuId == d.menuId.value)
      && (d.moduleId.Absent? ==> r.moduleId == m.moduleId) && (d.moduleId.Given? ==> r.moduleId == d.moduleId.value)
      && (d.rolesId.Absent? ==> r.rolesId == m.rolesId) && (d.rolesId.Given? ==> r.rolesId == d.rolesId.value)
      && (d.order.Absent? ==> r.order == m.order) && (d.order.Given? ==> r.order == d.order.value)
      && (d == NewMenuItem(Absent, Absent, Absent, Absent, Absent) ==> r == m)
  {
  }
}
