/**
 * The user resolvers: session assembly (`login`, `me`), the lifecycle
 * mutations on users, the list and validation queries, and the field
 * resolvers. Each resolver is one sequential step against the store. bcrypt's
 * `hash` and `compare`, jsonwebtoken's `sign` and `removeEmptyStringElements`
 * are parameters: `hash` and `clean` as functions of their input, `compare`
 * as a predicate, and `sign` as a function of the claimed id and the subject.
 */
module UserResolver {
  import opened Common
  import opened Records
  import opened Query
  import opened Store
  import opened Session

  // ---------------------------------------------------------------------------
  // Session assembly

  /** The login lookup: an active user with this username (`findOneBy({ username, active: true })`). */
  function FindActiveUser(users: seq<User>, username: string): (r: Option<User>)
    ensures r.Some? ==> r.value in users && r.value.username == Some(username) && r.value.active == Some(true)
    ensures r.None? <==> forall u :: u in users ==> !(u.username == Some(username) && u.active == Some(true))
  {
    First(users, (u: User) => u.username == Some(username) && u.active == Some(true))
  }

  /** Under the unique username index, the login lookup finds the one matching active user. */
  lemma FindActiveUserUnique(users: seq<User>, username: string, u: User)
    requires UniqueUserKeys(users)
    requires u in users && u.username == Some(username) && u.active == Some(true)
    ensures FindActiveUser(users, username) == Some(u)
  {
    var f := FindActiveUser(users, username).value;
    var a :| 0 <= a < |users| && users[a] == u;
    var b :| 0 <= b < |users| && users[b] == f;
    assert UsernameKey(users[a]) == UsernameKey(users[b]);
  }

  /** `found` with the visible items of each menu attached. */
  function Attached(found: seq<Menu>, items: seq<MenuItem>, roleId: Id, k: int): Menu
    requires 0 <= k < |found|
  {
    found[k].(menuItemsLogin := Some(ItemsForMenu(items, found[k].id, roleId)))
  }

  /** Attaching each visible menu's visible items to the menu query's result gives a permission tree. */
  lemma AttachedIsPermissionTree(tree: seq<Menu>, menus: seq<Menu>, items: seq<MenuItem>, roleId: Id)
    requires forall m :: m in menus ==> m.menuItemsLogin.None?
    requires |tree| == |MenusForRole(menus, roleId)|
    requires forall k :: 0 <= k < |tree| ==> tree[k] == Attached(MenusForRole(menus, roleId), items, roleId, k)
    ensures IsPermissionTree(tree, menus, items, roleId)
  {
    var found := MenusForRole(menus, roleId);
    forall k | 0 <= k < |found| ensures found[k].menuItemsLogin.None? {
      assert found[k] in multiset(found);
    }
    assert Detached(tree) == found;
    forall i, j | 0 <= i < j < |tree| ensures KeyLe(MenuOrder(tree[i]), MenuOrder(tree[j])) {
      assert tree[i].order == found[i].order && tree[j].order == found[j].order;
    }
  }

  /**
   * The menu query followed by the loop that attaches to each menu, in
   * place, its visible items.
   */
  method LoadRoleMenus(menus: seq<Menu>, items: seq<MenuItem>, roleId: Id) returns (tree: seq<Menu>)
    requires forall m :: m in menus ==> m.menuItemsLogin.None?
    ensures IsPermissionTree(tree, menus, items, roleId)
  {
    ghost var found := MenusForRole(menus, roleId);
    tree := MenusForRole(menus, roleId);
    var index := 0;
    while index < |tree|
      invariant 0 <= index <= |tree| == |found|
      invariant forall k :: 0 <= k < |tree| ==>
                  tree[k] == if k < index then Attached(found, items, roleId, k) else found[k]
    {
      var menuItems := ItemsForMenu(items, tree[index].id, roleId);
      tree := tree[index := tree[index].(menuItemsLogin := Some(menuItems))];
      index := index + 1;
    }
    AttachedIsPermissionTree(tree, menus, items, roleId);
  }

  /**
   * The profile part shared by `login` and `me`: profile fields, then the
   * role and the permission tree when the user has a truthy role id.
   */
  method AssembleSession(db: Database, u: User) returns (p: Jwt)
    requires db.Valid()
    ensures p.jwt.None?
    ensures IsSession(p, u, db.roles, db.menus, db.menuItems)
  {
    p := EmptyJwt.(name := u.name, lastName := u.lastName, username := u.username,
                   profilePhoto := u.profilePhoto, userId := Some(u.id));
    if Truthy(u.roleId) {
      var role := FindRole(db.roles, u.roleId.value);
      p := p.(role := role);
      var tree := LoadRoleMenus(db.menus, db.menuItems, u.roleId.value);
      p := p.(roleMenus := Some(tree));
    }
  }

  /**
   * `login`. An unknown username (or an inactive user) yields the empty
   * payload and no audit record. For an active user, bcrypt's compare runs;
   * it rejects when the stored user has no password. Otherwise exactly one
   * audit record is appended whatever the outcome, and the payload is the
   * signed session on success and empty on failure.
   */
  method Login(db: Database, username: string, password: string, request: RequestData,
               compare: (string, string) -> bool, sign: (Id, string) -> string)
    returns (res: Result<Jwt, Failure>)
    requires db.Valid()
    modifies db`auditLogins
    ensures db.Valid()
    ensures match FindActiveUser(db.users, username)
      case None =>
        res == Ok(EmptyJwt) && db.auditLogins == old(db.auditLogins)
      case Some(u) =>
        if u.password.None? then
          res == Err(MissingHash) && db.auditLogins == old(db.auditLogins)
        else
          var auth := compare(password, u.password.value);
          && db.auditLogins == old(db.auditLogins) + [AuditLogin(u.id, username, request, auth, true, Num(0))]
          && res.Ok?
          && (auth ==>
                res.value.jwt == Some(sign(u.id, username))
                && IsSession(res.value, u, db.roles, db.menus, db.menuItems))
          && (!auth ==> res.value == EmptyJwt)
  {
    var jwtUtil := EmptyJwt;
    var user := FindActiveUser(db.users, username);
    if user.Some? {
      var u := user.value;
      if u.password.None? {
        return Err(MissingHash);
      }
      var auth := compare(password, u.password.value);
      if auth {
        var token := sign(u.id, username);
        jwtUtil := AssembleSession(db, u);
        jwtUtil := jwtUtil.(jwt := Some(token));
      }
      db.SaveAuditLogin(AuditLogin(u.id, username, request, auth, true, Num(0)));
    }
    res := Ok(jwtUtil);
  }

  /**
   * `me`: the session of the user the request's token names, looked up by id
   * alone (an inactive user is found too), without a token and without an
   * audit record. A request without a token still runs the lookup, with an
   * undefined id; what the store answers then is `noIdUser`, a stored user
   * or nothing. No user found yields the empty payload.
   */
  method Me(db: Database, userId: Option<Id>, noIdUser: Option<User>) returns (p: Jwt)
    requires db.Valid()
    requires noIdUser.Some? ==> noIdUser.value in db.users
    ensures p.jwt.None?
    ensures match (if userId.Some? then FindUser(db.users, userId.value) else noIdUser)
      case None => p == EmptyJwt
      case Some(u) => u in db.users && IsSession(p, u, db.roles, db.menus, db.menuItems)
  {
    var user := if userId.Some? then FindUser(db.users, userId.value) else noIdUser;
    p := EmptyJwt;
    if user.Some? {
      p := AssembleSession(db, user.value);
    }
  }

  // ---------------------------------------------------------------------------
  // Lifecycle of user records

  /** A record built from nothing but its id: what `{ _id, ...null }` stores. */
  function BlankUser(id: Id, now: int): User
  {
    User(id, None, NaN, now, None, None, None, None, None, None, None, None, None, None, None, None)
  }

  /** The record a write starts from: the stored one, or a blank one with the id. */
  function BaseUser(found: Option<User>, id: Id, now: int): User
  {
    if found.Some? then found.value else BlankUser(id, now)
  }

  /** The password input after the in-place hashing of `createUser`. */
  function HashedInput(password: Input<Option<string>>, hash: string -> string): Input<Option<string>>
  {
    if password.Given? && password.value.Some? then Given(Some(hash(password.value.value))) else password
  }

  /** The record `createUser` saves. */
  function CreatedUser(d: NewUser, id: Id, actor: Option<Id>, now: int, hash: string -> string): User
  {
    SpreadUser(BlankUser(id, now), d.(password := HashedInput(d.password, hash)))
      .(active := Some(true), version := Num(0), createdByUserId := actor)
  }

  /** The record `updateUser` saves. */
  function UpdatedUser(found: Option<User>, id: Id, d: NewUser, actor: Option<Id>, now: int): User
  {
    SpreadUser(BaseUser(found, id, now), d)
      .(version := VersionAfter(if found.Some? then Some(found.value.version) else None),
        updatedByUserId := actor)
  }

  /** The record `changeActiveUser` saves. */
  function ActiveChangedUser(found: Option<User>, id: Id, active: bool, actor: Option<Id>, now: int): User
  {
    BaseUser(found, id, now)
      .(active := Some(active),
        version := VersionAfter(if found.Some? then Some(found.value.version) else None),
        updatedByUserId := actor)
  }

  /** The record `changePasswordUser` and `resetPasswordUser` save. */
  function PasswordChangedUser(found: Option<User>, id: Id, digest: string, actor: Option<Id>, now: int): User
  {
    BaseUser(found, id, now)
      .(password := Some(digest),
        version := VersionAfter(if found.Some? then Some(found.value.version) else None),
        updatedByUserId := actor)
  }

  /**
   * A created user is active at version 0, records its creator, has no
   * updater and no document number (the input has none), and stores the
   * digest of a given password, never the password itself.
   */
  lemma CreatedUserFields(d: NewUser, id: Id, actor: Option<Id>, now: int, hash: string -> string)
    ensures var r := CreatedUser(d, id, actor, now, hash);
      && r.id == id && r.active == Some(true) && r.version == Num(0) && r.createdAt == now
      && r.createdByUserId == actor && r.updatedByUserId.None? && r.documentNumber.None?
      && r.username == d.username.Or(None) && r.roleId == d.roleId.Or(None)
      && (d.password.Given? && d.password.value.Some? ==> r.password == Some(hash(d.password.value.value)))
      && (!(d.password.Given? && d.password.value.Some?) ==> r.password.None?)
  {
  }

  /**
   * Every rewrite of a stored user keeps its id, its creation data and every
   * column it does not name, and sets the version to the stored one plus one.
   */
  lemma RewritesOfStoredUser(u: User, d: NewUser, active: bool, digest: string, actor: Option<Id>, now: int)
    ensures var r := UpdatedUser(Some(u), u.id, d, actor, now);
      && r.id == u.id && r.version == Next(u.version) && r.updatedByUserId == actor
      && r.active == u.active && r.createdAt == u.createdAt && r.createdByUserId == u.createdByUserId
      && r.documentNumber == u.documentNumber
      && r.username == d.username.Or(u.username) && r.password == d.password.Or(u.password)
      && r.roleId == d.roleId.Or(u.roleId)
    ensures ActiveChangedUser(Some(u), u.id, active, actor, now)
      == u.(active := Some(active), version := Next(u.version), updatedByUserId := actor)
    ensures PasswordChangedUser(Some(u), u.id, digest, actor, now)
      == u.(password := Some(digest), version := Next(u.version), updatedByUserId := actor)
  {
  }

  /**
   * A rewrite of an id that is not stored builds the record from nothing:
   * its version is NaN and it is neither active nor inactive.
   */
  lemma RewritesOfMissingUser(id: Id, d: NewUser, active: bool, digest: string, actor: Option<Id>, now: int)
    ensures var r := UpdatedUser(None, id, d, actor, now);
      r.id == id && r.version == NaN && r.active.None? && r.documentNumber.None?
    ensures ActiveChangedUser(None, id, active, actor, now).version == NaN
    ensures var r := PasswordChangedUser(None, id, digest, actor, now);
      r.version == NaN && r.active.None? && r.username.None? && r.documentNumber.None?
  {
  }

  /** Saving a user under an id not yet stored appends it. */
  lemma {:induction false} UpsertFreshUser(users: seq<User>, u: User)
    requires forall v :: v in users ==> v.id != u.id
    ensures Upsert(users, u, UserKey) == users + [u]
  {
    assert IndexOf(users, UserKey, u.id) == -1;
  }

  /** `createUser`: adds exactly one active record at version 0, unless a unique index refuses it. */
  method CreateUser(db: Database, data: NewUser, actor: Option<Id>, newId: Id, now: int,
                    clean: NewUser -> NewUser, hash: string -> string)
    returns (res: Result<User, Failure>)
    requires db.Valid()
    requires forall u :: u in db.users ==> u.id != newId  // the store assigns a fresh id
    modifies db`users
    ensures db.Valid()
    ensures var u := CreatedUser(clean(data), newId, actor, now, hash);
      if KeysFree(old(db.users), u) then res == Ok(u) && db.users == old(db.users) + [u]
      else res == Err(DuplicateKey) && db.users == old(db.users)
  {
    var dataProcess := clean(data);
    var model := CreatedUser(dataProcess, newId, actor, now, hash);
    UpsertFreshUser(db.users, model);
    var saved := db.SaveUser(model);
    res := if saved then Ok(model) else Err(DuplicateKey);
  }

  /** `updateUser`: writes the stored record (or a blank one) with the present input fields over it. */
  method UpdateUser(db: Database, data: NewUser, id: Id, actor: Option<Id>, now: int,
                    clean: NewUser -> NewUser)
    returns (res: Result<User, Failure>)
    requires db.Valid()
    modifies db`users
    ensures db.Valid()
    ensures var u := UpdatedUser(FindUser(old(db.users), id), id, clean(data), actor, now);
      if KeysFree(old(db.users), u) then res == Ok(u) && db.users == Upsert(old(db.users), u, UserKey)
      else res == Err(DuplicateKey) && db.users == old(db.users)
  {
    var dataProcess := clean(data);
    var result := FindUser(db.users, id);
    var model := UpdatedUser(result, id, dataProcess, actor, now);
    var saved := db.SaveUser(model);
    res := if saved then Ok(model) else Err(DuplicateKey);
  }

  /** `changeActiveUser`: sets `active`; on a stored user it always succeeds. */
  method ChangeActiveUser(db: Database, active: bool, id: Id, actor: Option<Id>, now: int)
    returns (res: Result<bool, Failure>)
    requires db.Valid()
    modifies db`users
    ensures db.Valid()
    ensures var u := ActiveChangedUser(FindUser(old(db.users), id), id, active, actor, now);
      if KeysFree(old(db.users), u) then res == Ok(true) && db.users == Upsert(old(db.users), u, UserKey)
      else res == Err(DuplicateKey) && db.users == old(db.users)
    ensures FindUser(old(db.users), id).Some? ==> res == Ok(true)
  {
    var result := FindUser(db.users, id);
    var model := ActiveChangedUser(result, id, active, actor, now);
    if result.Some? {
      ResaveIsFree(db.users, result.value, model);
    }
    var saved := db.SaveUser(model);
    res := if saved then Ok(true) else Err(DuplicateKey);
  }

  /** `changePasswordUser`: refuses a null password; otherwise stores its digest. */
  method ChangePasswordUser(db: Database, password: Option<string>, id: Id, actor: Option<Id>, now: int,
                            hash: string -> string)
    returns (res: Result<bool, Failure>)
    requires db.Valid()
    modifies db`users
    ensures db.Valid()
    ensures password.None? ==> res == Ok(false) && db.users == old(db.users)
    ensures password.Some? ==>
      var u := PasswordChangedUser(FindUser(old(db.users), id), id, hash(password.value), actor, now);
      if KeysFree(old(db.users), u) then res == Ok(true) && db.users == Upsert(old(db.users), u, UserKey)
      else res == Err(DuplicateKey) && db.users == old(db.users)
    ensures password.Some? && FindUser(old(db.users), id).Some? ==> res == Ok(true)
  {
    var result := FindUser(db.users, id);
    if password.None? {
      return Ok(false);
    }
    var model := PasswordChangedUser(result, id, hash(password.value), actor, now);
    if result.Some? {
      ResaveIsFree(db.users, result.value, model);
    }
    var saved := db.SaveUser(model);
    res := if saved then Ok(true) else Err(DuplicateKey);
  }

  /**
   * `resetPasswordUser`: the new password is the user's document number. It
   * refuses an unknown id or a missing document number; otherwise it always
   * succeeds.
   */
  method ResetPasswordUser(db: Database, id: Id, actor: Option<Id>, now: int, hash: string -> string)
    returns (reset: bool)
    requires db.Valid()
    modifies db`users
    ensures db.Valid()
    ensures var found := FindUser(old(db.users), id);
      reset == (found.Some? && found.value.documentNumber.Some?)
    ensures !reset ==> db.users == old(db.users)
    ensures reset ==>
      var found := FindUser(old(db.users), id);
      db.users == Upsert(old(db.users),
                         PasswordChangedUser(found, id, hash(found.value.documentNumber.value), actor, now),
                         UserKey)
  {
    var result := FindUser(db.users, id);
    if result.None? || result.value.documentNumber.None? {
      return false;
    }
    var password := result.value.documentNumber.value;
    var model := PasswordChangedUser(result, id, hash(password), actor, now);
    ResaveIsFree(db.users, result.value, model);
    var saved := db.SaveUser(model);
    reset := true;
  }

  /** `deleteUser`: removes the record with the id and keeps every other. */
  method DeleteUser(db: Database, id: Id)
    requires db.Valid()
    modifies db`users
    ensures db.Valid()
    ensures db.users == WithoutUser(old(db.users), id)
  {
    db.DeleteUser(id);
  }

  /**
   * After a successful save the store holds exactly the saved record under
   * its id, and every other record is still stored.
   */
  lemma SavedUserIsFound(users: seq<User>, u: User)
    requires UniqueUserKeys(users)
    ensures FindUser(Upsert(users, u, UserKey), u.id) == Some(u)
    ensures forall v :: v in users && v.id != u.id ==> v in Upsert(users, u, UserKey)
  {
    UpsertSpec(users, u, UserKey);
    var r := Upsert(users, u, UserKey);
    var f := FindUser(r, u.id).value;
    var a :| 0 <= a < |r| && r[a] == u;
    var b :| 0 <= b < |r| && r[b] == f;
    assert UserKey(r[a]) == UserKey(r[b]);
  }

  // ---------------------------------------------------------------------------
  // Queries and field resolvers

  predicate ActiveUser(u: User) { u.active == Some(true) }
  function NewestUserFirst(u: User): Option<int> { Some(-u.createdAt) }

  /** The selection of `getAllUser`: all or only active users, optionally newest first. */
  function GetAllUser(users: seq<User>, allData: bool, orderCreated: bool): (r: Connection<User>)
    ensures r.totalCount == |r.nodes|
    ensures forall u :: multiset(r.nodes)[u] == if allData || ActiveUser(u) then multiset(users)[u] else 0
    ensures orderCreated ==> forall i, j :: 0 <= i < j < |r.nodes| ==> r.nodes[i].createdAt >= r.nodes[j].createdAt
    ensures allData && !orderCreated ==> r.nodes == users
  {
    var result := if allData then users else Select(users, ActiveUser);
    var ordered := if orderCreated then SortBy(result, NewestUserFirst) else result;
    Connection(ordered, |ordered|)
  }

  /** `getValidationDocumentNumberUser`: true exactly when no user has this document number. */
  function GetValidationDocumentNumberUser(users: seq<User>, documentNumber: string): (free: bool)
    ensures free <==> forall u :: u in users ==> u.documentNumber != Some(documentNumber)
  {
    var result := Select(users, (u: User) => u.documentNumber == Some(documentNumber));
    assert result != [] ==> result[0] in result;
    |result| < 1
  }

  /** The `createdByUser` field: the creator's record when the id is set and stored. */
  function ResolveCreatedByUser(users: seq<User>, data: User): (r: Option<User>)
    ensures r.Some? ==> r.value in users && data.createdByUserId == Some(r.value.id)
    ensures r.None? <==> data.createdByUserId.None? || forall u :: u in users ==> u.id != data.createdByUserId.value
  {
    if data.createdByUserId.Some? then FindUser(users, data.createdByUserId.value) else None
  }

  /** The `updatedByUser` field: the last updater's record when the id is set and stored. */
  function ResolveUpdatedByUser(users: seq<User>, data: User): (r: Option<User>)
    ensures r.Some? ==> r.value in users && data.updatedByUserId == Some(r.value.id)
    ensures r.None? <==> data.updatedByUserId.None? || forall u :: u in users ==> u.id != data.updatedByUserId.value
  {
    if data.updatedByUserId.Some? then FindUser(users, data.updatedByUserId.value) else None
  }

  /** The `role` field: the user's role when the role id is set and stored. */
  function ResolveRole(roles: seq<Role>, data: User): (r: Option<Role>)
    ensures r.Some? ==> r.value in roles && data.roleId == Some(r.value.id)
    ensures r.None? <==> data.roleId.None? || forall x :: x in roles ==> x.id != data.roleId.value
  {
    if data.roleId.Some? then FindRole(roles, data.roleId.value) else None
  }
}
