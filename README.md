# Users, sessions and menu items of the GraphQL back end

The back end is a GraphQL API over a MongoDB store. This model covers the part
that decides who may sign in and what they then see:

- `login` looks up an active user by username, checks the password with
  bcrypt and signs a token. It assembles the session payload (`Jwt`): the
  profile fields, the user's role and the role's permission tree. It records
  an audit entry for each attempt against an existing active user that has a
  stored password; for an active user without one, the password check
  rejects, the call fails and nothing is recorded.
- `me` rebuilds the same payload, without a token, for the user the request's
  token names.
- The permission tree holds the menus that are active and granted to the
  role, ascending by `order`. Each menu carries, in `menuItemsLogin`, its
  items that are active and granted to the role, also ascending by `order`.
- The user lifecycle: create, update, change active, change password, reset
  password, delete. Also the list query, the document-number availability
  query and the field resolvers.
- The menu-item lifecycle: create, update, change active, delete. Also the
  list query and the field resolvers.

## Structure

| file | module | contents |
|---|---|---|
| `common.dfy` | `Common` | `Option`, `Result`, failures, the `Version` number (with JavaScript's `NaN`), the `Input` of a spread, JavaScript truthiness, the list-query `Connection` |
| `query.dfy` | `Query` | the store's query primitives: filter, first match, sort by an optional key with missing keys first, upsert by id |
| `records.dfy` | `Records` | the documents (`User`, `Role`, `Module`, `Menu`, `MenuItem`, `AuditLogin`), the `Jwt` payload, the input objects and the spread `{ ...record, ...input }` |
| `store.dfy` | `Store` | the `Database` class (one collection per entity) and the unique indexes of `User` |
| `session.dfy` | `Session` | what a permission tree and a session payload must be, and the lemmas about them |
| `user_resolver.dfy` | `UserResolver` | the user resolvers, `login` and `me` |
| `menu_item_resolver.dfy` | `MenuItemResolver` | the menu-item resolvers |

## Modelling choices

- **The store.** The store is the class `Store.Database`, with a sequence per
  collection in natural (insertion) order.
  - Each resolver that writes is a method that modifies only the collections
    it writes. The queries and field resolvers only read, and are functions of
    the collections they read.
  - `save` of a record with an id is an upsert.
  - The `username` and `documentNumber` indexes are unique and not sparse. A
    missing value is indexed as null and may therefore occur only once. A
    save that would break an index fails with `DuplicateKey`.
- **Rewrites.** A rewrite of an id that is not stored (`{ _id, ...null, ... }`)
  creates a record. Its version is `(undefined) + 1`, which is `NaN`, and the
  model writes it as `Version.NaN`.
- **Sorting.** Ascending order places a missing key first. The order of equal
  keys is not fixed by the store, so the contracts state only "a sorted
  permutation".
  - With distinct keys, `Query.SortedPermutationUnique` shows that this
    determines the result.
  - `createdAt` descending is ascending on the key `-createdAt`.
- **Opaque helpers.** bcrypt's `hash` and `compare`, jsonwebtoken's `sign`
  and `removeEmptyStringElements` (`clean`) are function parameters of the
  resolvers that use them.
  - `sign` is a parameter of each `login` call. The token it returns depends
    on the claimed id and the subject, and also on the clock: the expiry
    option makes jsonwebtoken stamp the issue and expiry times. The model
    constrains the token only as `sign(id, username)` of that call.
  - The context's user id and the store's new id and timestamp are plain
    parameters.
- **Behaviours of the code worth stating outright:**
  - `login` writes an audit record only inside the branch where an active
    user with the username was found
    (`Backend/app/graphql/resolvers/UserResolver.ts:250-301`), so an unknown
    username leaves no trace.
  - `me` looks the user up by id alone
    (`Backend/app/graphql/resolvers/UserResolver.ts:308`), so an inactive
    user still gets a session.
  - `getAllMenuItem` without `allData` and without `menuId` lists only the
    active items (`Backend/app/graphql/resolvers/MenuItemResolver.ts:93-99`).

## Model

| member | source | states |
|---|---|---|
| Query.Select | Backend/app/graphql/resolvers/UserResolver.ts:63-83 | a `findBy` with a condition keeps exactly the matching documents, each as often as stored, and no others; the order is not promised |
| Query.First | Backend/app/graphql/resolvers/UserResolver.ts:117 | `findOneBy` returns a matching document, and nothing exactly when none matches |
| Query.SortBy | Backend/app/graphql/resolvers/UserResolver.ts:267-270 | `order: ASC` returns a permutation of its input, sorted with missing keys first |
| Query.SortedPermutationUnique | Backend/app/graphql/resolvers/UserResolver.ts:267-281 | two sorted permutations of the same documents are equal when the sort key identifies the documents |
| Query.UpsertSpec | Backend/app/graphql/resolvers/UserResolver.ts:118-124 | `save` with an id leaves the saved record stored, keeps every record with another id, adds nothing else, and grows the collection only for a new id; distinct ids stay distinct |
| Query.SelectKeepsDistinct | Backend/app/graphql/resolvers/UserResolver.ts:208 | removing documents keeps every key distinct that was distinct |
| Records.SpreadUserFields | Backend/app/graphql/resolvers/UserResolver.ts:118-124 | spreading a `NewUser` over a user changes each of the nine input columns exactly when the input carries it, to the carried value, and never the id, lifecycle columns or document number |
| Records.SpreadMenuItemFields | Backend/app/graphql/resolvers/MenuItemResolver.ts:137-143 | spreading a `NewMenuItem` over an item changes each of its input columns exactly when the input carries it, to the carried value, and never the id or lifecycle columns |
| Store.FindUser | Backend/app/graphql/resolvers/UserResolver.ts:41-45 | `getUser`/`findOneBy(id)`: a stored user with that id, or nothing exactly when there is none |
| Store.FindRole | Backend/app/graphql/resolvers/UserResolver.ts:236 | a stored role with that id, or nothing exactly when there is none |
| Store.FindMenu | Backend/app/graphql/resolvers/MenuItemResolver.ts:203 | a stored menu with that id, or nothing exactly when there is none |
| Store.FindModule | Backend/app/graphql/resolvers/MenuItemResolver.ts:213 | a stored module with that id, or nothing exactly when there is none |
| Store.FindMenuItem | Backend/app/graphql/resolvers/MenuItemResolver.ts:34-38 | `getMenuItem`: a stored item with that id, or nothing exactly when there is none |
| Store.WithoutUser | Backend/app/graphql/resolvers/UserResolver.ts:208 | `deleteOne` keeps exactly the users with another id, and the unique indexes still hold |
| Store.WithoutMenuItem | Backend/app/graphql/resolvers/MenuItemResolver.ts:175 | `deleteOne` keeps exactly the items with another id, and ids stay distinct |
| Store.SaveUserKeepsIndexes | Backend/app/graphql/models/User.ts:54-66 | an upsert leaves the id, username and document-number indexes intact if and only if no other user shares the new record's username or document number |
| Store.ResaveIsFree | Backend/app/graphql/resolvers/UserResolver.ts:135-141 | writing back a stored user with the same id, username and document number never violates an index |
| Store.MissingDocumentNumberIsAKey | Backend/app/graphql/models/User.ts:63-66 | two users without a document number cannot both be stored, because the index is not sparse |
| Store.Database.SaveUser | Backend/app/graphql/resolvers/UserResolver.ts:105 | the save succeeds exactly when the indexes allow it, and then the collection is the upsert; otherwise it is unchanged |
| Store.Database.DeleteUser | Backend/app/graphql/resolvers/UserResolver.ts:208 | the users collection loses exactly the records with the id |
| Store.Database.SaveMenuItem | Backend/app/graphql/resolvers/MenuItemResolver.ts:124 | the items collection becomes the upsert of the record and stays keyed by id |
| Store.Database.DeleteMenuItem | Backend/app/graphql/resolvers/MenuItemResolver.ts:175 | the items collection loses exactly the records with the id |
| Store.Database.SaveAuditLogin | Backend/app/graphql/resolvers/UserResolver.ts:287-300 | the audit collection gains exactly the one record |
| Session.MenusForRole | Backend/app/graphql/resolvers/UserResolver.ts:267-270 | the menus active and granted to the role, each as often as stored, ascending by `order` |
| Session.ItemsForMenu | Backend/app/graphql/resolvers/UserResolver.ts:272-279 | the items of the menu active and granted to the role, each as often as stored, ascending by `order` |
| Session.PermissionTreeSize | Backend/app/graphql/resolvers/UserResolver.ts:266-283 | a permission tree has exactly one node per visible stored menu |
| Session.PermissionTreeMenusStored | Backend/app/graphql/resolvers/UserResolver.ts:267-270 | every node is a stored menu, active and granted to the role |
| Session.PermissionTreeItemsStored | Backend/app/graphql/resolvers/UserResolver.ts:272-281 | every attached item is stored, active, in that node's menu and granted to the role |
| Session.NoRoleNoMenus | Backend/app/graphql/resolvers/UserResolver.ts:258-266 | a user without a truthy role id gets the profile fields and the token and nothing else: neither role nor menus |
| Session.SingleMenuScenario | Backend/app/graphql/resolvers/UserResolver.ts:266-283 | with one visible menu holding one visible item, the tree is exactly that menu with that item attached |
| Session.TreeMenusDetermined | Backend/app/graphql/resolvers/UserResolver.ts:267-270 | with distinct menu orders, every permission tree lists the same menus in the same order |
| Session.ItemListDetermined | Backend/app/graphql/resolvers/UserResolver.ts:272-281 | with distinct item orders, a menu's item list is determined |
| Session.PermissionTreeUnique | Backend/app/graphql/resolvers/UserResolver.ts:266-283 | with distinct orders, a role has exactly one permission tree |
| Session.SessionUnique | Backend/app/graphql/resolvers/UserResolver.ts:305-338 | with distinct orders, two `me` payloads for one user over one store are equal |
| Session.ScenarioTreeMenus | Backend/app/graphql/resolvers/UserResolver.ts:267-270 | three visible menus all appear in the tree, once each |
| Session.MenuOrderScenario | Backend/app/graphql/resolvers/UserResolver.ts:267-270 | menus stored with orders 3, 1, 2 appear in the tree as 1, 2, 3 |
| UserResolver.FindActiveUser | Backend/app/graphql/resolvers/UserResolver.ts:249 | the login lookup finds a stored active user with that username, and nothing exactly when there is none |
| UserResolver.FindActiveUserUnique | Backend/app/graphql/resolvers/UserResolver.ts:249 | under the unique username index the lookup finds the one matching active user |
| UserResolver.AttachedIsPermissionTree | Backend/app/graphql/resolvers/UserResolver.ts:271-283 | attaching each found menu's visible items to the menu query's result yields a permission tree |
| UserResolver.LoadRoleMenus | Backend/app/graphql/resolvers/UserResolver.ts:266-283 | the menu query followed by the loop over its result yields a permission tree of the role |
| UserResolver.AssembleSession | Backend/app/graphql/resolvers/UserResolver.ts:258-283 | the payload carries the profile, and the role and permission tree exactly when the role id is truthy; no token |
| UserResolver.Login | Backend/app/graphql/resolvers/UserResolver.ts:242-303 | an unknown or inactive username gives the empty payload and no audit; a stored user without a hash makes the call fail with no audit; otherwise exactly one audit record with the compare outcome, and on success the signed token with the full session, on failure the empty payload |
| UserResolver.Me | Backend/app/graphql/resolvers/UserResolver.ts:305-338 | no token and no audit; the session of the user the lookup finds (by the id, inactive or not, or whatever stored user the store answers to a lookup without an id), and the empty payload exactly when it finds none |
| UserResolver.CreatedUserFields | Backend/app/graphql/resolvers/UserResolver.ts:87-107 | a created user is active at version 0 with its creator, no updater and no document number, and stores the digest of a given password, never the password |
| UserResolver.RewritesOfStoredUser | Backend/app/graphql/resolvers/UserResolver.ts:109-200 | every rewrite of a stored user keeps its id and creation data, bumps the version by one and records the updater; the active and password changes touch nothing else |
| UserResolver.RewritesOfMissingUser | Backend/app/graphql/resolvers/UserResolver.ts:117-124 | a rewrite of an id that is not stored builds a record from nothing, with version NaN and no `active` |
| UserResolver.UpsertFreshUser | Backend/app/graphql/resolvers/UserResolver.ts:105 | saving under an id not yet stored appends the record |
| UserResolver.CreateUser | Backend/app/graphql/resolvers/UserResolver.ts:87-107 | exactly one record is appended, or, when an index refuses it, nothing changes and the call fails |
| UserResolver.UpdateUser | Backend/app/graphql/resolvers/UserResolver.ts:109-126 | the stored (or a blank) record with the present input fields over it is upserted and returned, unless an index refuses it |
| UserResolver.ChangeActiveUser | Backend/app/graphql/resolvers/UserResolver.ts:128-148 | `active` is set with the version bumped; on a stored user the call always succeeds and returns true |
| UserResolver.ChangePasswordUser | Backend/app/graphql/resolvers/UserResolver.ts:150-174 | a null password changes nothing and returns false; otherwise the digest is stored, and on a stored user the call returns true |
| UserResolver.ResetPasswordUser | Backend/app/graphql/resolvers/UserResolver.ts:176-200 | returns true exactly when the user exists and has a document number, and then stores the digest of the document number; otherwise nothing changes |
| UserResolver.DeleteUser | Backend/app/graphql/resolvers/UserResolver.ts:202-210 | removes the user with the id and keeps every other |
| UserResolver.SavedUserIsFound | Backend/app/graphql/resolvers/UserResolver.ts:118-124 | after a save the lookup by the id finds the saved record, and every other user is still stored |
| UserResolver.GetAllUser | Backend/app/graphql/resolvers/UserResolver.ts:47-85 | all users or only active ones, each as often as stored, newest first when asked, the stored order otherwise for all users; the count is the list's length |
| UserResolver.GetValidationDocumentNumberUser | Backend/app/graphql/resolvers/UserResolver.ts:379-389 | true exactly when no user has the document number |
| UserResolver.ResolveCreatedByUser | Backend/app/graphql/resolvers/UserResolver.ts:212-220 | the creator's record when the id is set and stored, nothing otherwise |
| UserResolver.ResolveUpdatedByUser | Backend/app/graphql/resolvers/UserResolver.ts:222-230 | the last updater's record when the id is set and stored, nothing otherwise |
| UserResolver.ResolveRole | Backend/app/graphql/resolvers/UserResolver.ts:232-240 | the user's role when the id is set and stored, nothing otherwise |
| MenuItemResolver.GetAllMenuItem | Backend/app/graphql/resolvers/MenuItemResolver.ts:40-109 | all items or only active ones, of the given menu when `menuId` is truthy, each as often as stored, newest first when asked; the count is the list's length |
| MenuItemResolver.GetAllMenuItemFilters | Backend/app/graphql/resolvers/MenuItemResolver.ts:67-101 | without `allData` every listed item is active; with a truthy `menuId` every listed item belongs to it; every listed item is stored |
| MenuItemResolver.CreatedMenuItemFields | Backend/app/graphql/resolvers/MenuItemResolver.ts:111-126 | a created item is active at version 0 with its creator and the input's menu, roles and order |
| MenuItemResolver.RewritesOfStoredMenuItem | Backend/app/graphql/resolvers/MenuItemResolver.ts:128-167 | a rewrite of a stored item keeps its id and creation data, bumps the version and records the updater; the active change touches nothing else |
| MenuItemResolver.RewritesOfMissingMenuItem | Backend/app/graphql/resolvers/MenuItemResolver.ts:134-160 | a rewrite of an id that is not stored builds an item from nothing, with version NaN |
| MenuItemResolver.SavedMenuItemIsFound | Backend/app/graphql/resolvers/MenuItemResolver.ts:137-143 | after a save the lookup by the id finds the saved item, the others are kept, nothing else is added, and the collection grows only for a new id |
| MenuItemResolver.CreateMenuItem | Backend/app/graphql/resolvers/MenuItemResolver.ts:111-126 | exactly one item, the created record, is appended |
| MenuItemResolver.UpdateMenuItem | Backend/app/graphql/resolvers/MenuItemResolver.ts:128-145 | the stored (or a blank) item with the present input fields over it is upserted and returned |
| MenuItemResolver.ChangeActiveMenuItem | Backend/app/graphql/resolvers/MenuItemResolver.ts:147-167 | `active` is set with the version bumped, and the call returns true |
| MenuItemResolver.DeleteMenuItem | Backend/app/graphql/resolvers/MenuItemResolver.ts:169-177 | removes the item with the id and keeps every other |
| MenuItemResolver.ResolveMenu | Backend/app/graphql/resolvers/MenuItemResolver.ts:199-207 | the item's menu when the id is set and stored, nothing otherwise |
| MenuItemResolver.ResolveModule | Backend/app/graphql/resolvers/MenuItemResolver.ts:209-217 | the item's module when the id is set and stored, nothing otherwise |
| MenuItemResolver.ResolveCreatedByUser | Backend/app/graphql/resolvers/MenuItemResolver.ts:179-187 | the creator's record when the id is set and stored, nothing otherwise |
| MenuItemResolver.ResolveUpdatedByUser | Backend/app/graphql/resolvers/MenuItemResolver.ts:189-197 | the last updater's record when the id is set and stored, nothing otherwise |
| MenuItemResolver.ResolveRoles | Backend/app/graphql/resolvers/MenuItemResolver.ts:219-231 | exactly the stored roles whose ids the item lists, each as often as stored, so none is listed twice over |

## Left out

- Hashing, password comparison, token signing and `removeEmptyStringElements` are function parameters. Salt rounds, the secret, the algorithm, the expiry and the clock that stamps the token are not modelled.
- Relay pagination (`connectionFromArraySlice` with the connection arguments) is not modelled. A list query returns only its selected documents and `totalCount`.
- Profile image and file uploads (`userProfileUploadImage`, `singleUpload`) and their storage are not modelled.
- The values `deleteUser` and `deleteMenuItem` return depend on the driver's result shape. The model keeps only the effect on the store.
- `updatedAt` and the audit record's own id and timestamp are set by the store and are not modelled.
- The capability flags of menu items and the remaining columns of `Menu`, `MenuItem`, `Module`, `Role` and `AuditLogin` are not modelled. `models/Menu.ts`, `models/MenuItem.ts`, `models/Module.ts`, `models/Role.ts`, `models/AuditLogin.ts` and `inputs/NewMenuItem.ts` are not part of this model.
- Me: with no user id in the context, the source calls `findOneBy(undefined)`, whose result depends on the driver. The model leaves that outcome open: the store's answer is the parameter `noIdUser`, required only to be a stored user or nothing.
- Ids are plain strings. The exception `new ObjectId(id)` raises for a malformed id is not modelled.
- CreateUser: the password is hashed in `data` after `removeEmptyStringElements` has run. The model assumes that helper works in place, so the digest reaches the stored record. If it returns a copy, the plain password would be stored.
- Resolvers are sequential steps. Concurrent requests, interleaved awaits and store outages are not modelled. The only store failure modelled is an index violation.
- MenuItemResolver.ResolveRoles: a null `rolesId` (the resolver then returns null) is not modelled, because `rolesId` is a list here.
- `getUser` and `getMenuItem` are the lookups `Store.FindUser` and `Store.FindMenuItem`.
- GetAllUser and MenuItemResolver.GetAllMenuItem: the order of equal `createdAt` values is left open, as the store leaves it.
