# User directory and permission dispatch of the NestJS authorization service

This project models the logic of the service that the repository itself contains. It leaves
out the role-based access-control engine, which the service delegates to the `nest-authz`
library (a wrapper around casbin).

- **Directory** (`directory.dfy`). This module holds the `User` record (`id`, `username`,
  `password`). It also gives, as pure functions over the sequence of users, what the
  service's scans compute:
  - `FirstIndex` and `FindFirst` return the first entry whose id or username matches.
  - `HasUserName` says whether a username is present.
  - `RemoveFirst` is the directory after the first entry with a given username has been
    spliced out.

  Lemmas about these functions give the splice form, the add/delete round trip, the fact
  that a freshly added user is the one found, and the preservation of unique usernames.
- **UserServices** (`user_service.dfy`). This is the class `UserService`. It holds the shared
  user array as a `seq<User>` field, which `AddUser` and `DeleteUser` reassign. Its lookups
  are loops, and each is proved against the Directory functions.
  - Each authorization wrapper first checks that the user exists (`NotFound`). It then
    returns the library call it delegates to, as an `AuthzCall` value with the exact
    arguments passed.
  - The one library answer the service branches on is `hasPermissionForUser`. It is an
    uninterpreted function passed to `HasPermission`. It stands for the library's state at
    the time of that call, which grants, revokes and deletes may have changed.
- **UserPermissionController** (`user_permission_controller.dfy`). The three handlers are
  pure functions over the directory snapshot that `findById` reads. Each returns one of
  three things:
  - `NotFound` for an unknown id;
  - the sentinel `["*"]` for the built-in superuser `root`;
  - the `UserService` call it delegates to, with the request body's `domain`, `operation`
    and `resource`.

  `IsOwn` is the ownership predicate shared by the three handlers' permission decorators.
- **Outcomes** (`outcomes.dfy`). `Option` stands for `User | null`. `Result` with `Error`
  (`NotFound`, `BadRequest`) stands for the thrown `NotFoundException` and
  `BadRequestException`.

Three points about the code shape the model:
- The service has no check for `root`. `root` is answered with `["*"]` only in the
  controller, so a direct call to the service's `grantPermission` for `root` delegates like
  any other.
- Lines 90-94 of `src/services/user.service.ts` are meant to reject revoking a permission
  the user does not hold, as their exception message says. The check at line 90 is not
  awaited, unlike the same call at line 110. It tests a pending promise, which is truthy,
  so it never rejects. `RevokePermission` therefore has only the NotFound guard.
- `addUser` refuses duplicate usernames but not duplicate ids. With a duplicate id,
  `findById` resolves to the first entry, so `isOwn` can pass for one account while the
  handler acts on another (`DuplicateIdPassesOwnCheckForAnother`).

## Model

| member | source | states |
|---|---|---|
| `Directory.FirstIndex` | src/services/user.service.ts:133-162 | a found index holds the key and no earlier entry does; none is found exactly when no entry holds the key |
| `Directory.FindFirst` | src/services/user.service.ts:146-162 | `findById`/`findByUserName` return null exactly when no entry matches, otherwise the first matching entry |
| `Directory.HasUserName` | src/services/user.service.ts:133-140 | the result of `exists`: some entry carries the username; `FirstIndexFindsPresentNames` ties it to the scan and `UserService.Exists` is proved equal to it |
| `Directory.RemoveFirst` | src/services/user.service.ts:34-40 | the directory after the splice loop; `RemoveFirstSplices`, `RemoveFirstAbsent`, `RemoveFirstShrinks` and `RemoveFirstUndoesAppend` give its meaning |
| `Directory.FirstIndexFindsPresentNames` | src/services/user.service.ts:133-140 | the username scan stops at an entry iff the username is present (`exists` and `findByUserName` agree) |
| `Directory.RemoveFirstSplices` | src/services/user.service.ts:34-40 | removing the first entry with a username is the splice at the first matching index: the entries before and after keep their order |
| `Directory.RemoveFirstAbsent` | src/services/user.service.ts:34-40 | when no entry has the username, the loop removes nothing |
| `Directory.RemoveFirstShrinks` | src/services/user.service.ts:34-40 | deleting a present username shortens the directory by exactly one |
| `Directory.RemoveFirstUndoesAppend` | src/services/user.service.ts:17-40 | appending a user with a fresh username, then removing that username, restores the original directory |
| `Directory.AppendedUserIsFound` | src/services/user.service.ts:17-24 | after a fresh user is appended, `findByUserName` of its username returns exactly that user |
| `Directory.AppendFreshKeepsUnique` | src/services/user.service.ts:17-24 | because duplicates are refused, appending keeps usernames unique |
| `Directory.RemoveFirstKeepsOtherNames` | src/services/user.service.ts:34-40 | deleting one username leaves the presence of every other username unchanged |
| `Directory.RemoveFirstOfUniqueDropsName` | src/services/user.service.ts:27-40 | in a directory with unique usernames, a delete removes the username entirely and keeps usernames unique |
| `UserServices.UserService.constructor` | src/services/user.service.ts:14-15 | the service starts from an arbitrary directory |
| `UserServices.UserService.Exists` | src/services/user.service.ts:133-140 | the loop returns true iff some entry has the username |
| `UserServices.UserService.FindById` | src/services/user.service.ts:146-153 | the loop returns the first entry with the id, or null exactly when no entry has it |
| `UserServices.UserService.FindByUserName` | src/services/user.service.ts:155-162 | the loop returns the first entry with the username, or null exactly when `exists` is false |
| `UserServices.UserService.VerifyCredentials` | src/services/user.service.ts:164-180 | returns a user iff the first entry with the username has the given password, and then it is that entry; otherwise null |
| `UserServices.UserService.AddUser` | src/services/user.service.ts:17-25 | a present username gives BadRequest and leaves the directory unchanged; otherwise the user is appended at the end and earlier entries keep their order |
| `UserServices.UserService.DeleteUser` | src/services/user.service.ts:27-43 | an absent username gives NotFound and leaves the directory unchanged; otherwise exactly the first entry with it is spliced out, the order of the rest is kept, the length drops by one and the library's `deleteUser` receives the username |
| `UserServices.AddThenDelete` | src/services/user.service.ts:17-43 | a successful `addUser` followed by `deleteUser` of the same username succeeds and restores the directory; a refused `addUser` deletes nothing and changes nothing |
| `UserServices.UserService.AssignedRoles` | src/services/user.service.ts:45-53 | NotFound iff the user is absent; otherwise delegates to `getImplicitRolesForUser(username)` |
| `UserServices.UserService.UserPermissions` | src/services/user.service.ts:55-63 | NotFound iff the user is absent; otherwise delegates to the unfiltered `getImplicitPermissionsForUser(username)` |
| `UserServices.UserService.GrantPermission` | src/services/user.service.ts:65-77 | NotFound iff the user is absent; otherwise delegates to `addPermissionForUser(username, domain, object, operation)`, with object before operation |
| `UserServices.UserService.RevokePermission` | src/services/user.service.ts:79-97 | NotFound iff the user is absent; otherwise delegates to `deletePermissionForUser(username, domain, object, operation)` |
| `UserServices.UserService.HasPermission` | src/services/user.service.ts:99-118 | NotFound for an absent user whatever the oracle says; BadRequest when the library's current decision, passed to the call, denies; success iff the user is present and allowed, and then delegates to `getImplicitPermissionsForUser(username, domain, object)` |
| `UserServices.UserService.GetResourceListForUserWithActions` | src/services/user.service.ts:120-131 | NotFound iff the user is absent; otherwise delegates with only the username and domain, and the operation is dropped |
| `UserPermissionController.Dispatch` | src/controllers/user-permission.controller.ts:52-57 | the `root` branch shared by the three handlers: `["*"]` for `root`, otherwise the delegated call; `RootGetsSentinel` and `DelegatedCallsPassExistenceGuard` give its meaning |
| `UserPermissionController.FindUserPermissions` | src/controllers/user-permission.controller.ts:45-58 | NotFound iff no entry has the id; otherwise, for the first entry with the id, `["*"]` when it is `root` and `userPermissions(username)` when it is not |
| `UserPermissionController.AddUserPermissions` | src/controllers/user-permission.controller.ts:74-88 | NotFound iff no entry has the id; `["*"]` for `root` without calling `grantPermission`; otherwise `grantPermission(username, domain, operation, resource)` from the body |
| `UserPermissionController.HasUserPermissions` | src/controllers/user-permission.controller.ts:104-118 | NotFound iff no entry has the id; `["*"]` for `root`; otherwise `hasPermission(username, domain, operation, resource)` from the body |
| `UserPermissionController.DelegatedCallsPassExistenceGuard` | src/controllers/user-permission.controller.ts:46-117 | every call a handler delegates names a present user other than `root`, so the service's NotFound guard cannot fire on it |
| `UserPermissionController.RootGetsSentinel` | src/controllers/user-permission.controller.ts:52-115 | for `root`, all three handlers answer exactly `["*"]` whatever the body's domain, operation and resource, and delegate nothing |
| `UserPermissionController.IsOwn` | src/controllers/user-permission.controller.ts:40-43 | the `isOwn` check of all three handlers (also 69-72 and 99-102): the caller's id equals the route id; the three lemmas below give its meaning |
| `UserPermissionController.ResolvedToCallerIsOwn` | src/controllers/user-permission.controller.ts:40-43 | whenever the route id resolves to the caller's own entry, `isOwn` holds, with or without unique ids |
| `UserPermissionController.OwnRequestTargetsCaller` | src/controllers/user-permission.controller.ts:40-43 | with unique ids, `isOwn` holds iff the route id resolves to the caller's own entry |
| `UserPermissionController.DuplicateIdPassesOwnCheckForAnother` | src/services/user.service.ts:17-24 | `addUser` accepts a second user under an existing id; `isOwn` then passes for that user while `findUserPermissions` serves the first user's permissions |

## Left out

- The authorization library (`nest-authz`/casbin) is not part of this model. This covers
  role closure, domain and wildcard matching, and the results of `getImplicitRolesForUser`,
  `getImplicitPermissionsForUser`, `addPermissionForUser`, `deletePermissionForUser` and
  `deleteUser`. A wrapper's successful result is the call itself, with its arguments.
  `hasPermissionForUser` is an uninterpreted function.
- `UserServices.UserService.RevokePermission` states no BadRequest case. The permission
  check at `src/services/user.service.ts:90` is not awaited, so that check never rejects.
- Asynchrony is not modelled. Every `async` method runs to completion in sequence, and the
  `await` at each call is not represented.
- The HTTP surface is not modelled: routing, the `@UseGuards`/`@UsePermissions` decorators
  (apart from the `isOwn` predicate), JWT authentication and Swagger annotations.
- `findAll` is not modelled. It returns the live shared array, and the model has no
  aliasing of that array.
- The initial contents of the fake-data module are not part of this model. The service
  starts from an arbitrary sequence, with no uniqueness assumed for ids or usernames.
- The unused `AuthZManagementService` collaborator is not modelled.
- `src/app.module.ts` (module wiring and database configuration) and
  `src/controllers/user.controller.ts` are not part of this model.
- Passwords are compared as plain strings. The code does no hashing.
