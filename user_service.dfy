/**
 * `UserService`: the shared user array with its add, delete and lookup operations, and the
 * authorization wrappers that check the directory before delegating to the authorization
 * library. The library is not modelled: a wrapper's successful result is the library call it
 * makes, with the arguments it passes. The one library answer a wrapper branches on
 * (`hasPermissionForUser`) is an uninterpreted function of the library's state at the time of
 * the call, so it is passed to that call.
 */
module UserServices {
  import opened Outcomes
  import opened Directory

  /** The authorization-library calls the service delegates to; their own results are the library's. */
  datatype AuthzCall =
    | GetImplicitRolesForUser(user: string)
    | GetImplicitPermissionsForUser(user: string, domainFilter: Option<string>, objectFilter: Option<string>)
    | AddPermissionForUser(user: string, domain: string, obj: string, action: string)
    | DeletePermissionForUser(user: string, domain: string, obj: string, action: string)
    | DeleteUser(user: string)

  /**
   * The library's current `hasPermissionForUser(user, domain, object, action)` decision, left
   * uninterpreted; grants, revokes and deletes change the library's state, so each call is given its own.
   */
  type PermissionOracle = (string, string, string, string) -> bool

  class UserService {
    /** The shared array of users (`users` of the fake-data module). */
    var users: seq<User>

    constructor (initial: seq<User>)
      ensures users == initial
    {
      users := initial;
    }

    /** `exists`: whether some entry carries `username`. */
    method Exists(username: string) returns (b: bool)
      ensures b <==> HasUserName(users, username)
      ensures b <==> FirstIndex(users, UserName, username).Some?
    {
      for i := 0 to |users|
        invariant forall j :: 0 <= j < i ==> users[j].username != username
      {
        if users[i].username == username {
          return true;
        }
      }
      return false;
    }

    /** `findById`: the first entry with `id`, or null. */
    method FindById(id: string) returns (r: Option<User>)
      ensures r.None? <==> forall j :: 0 <= j < |users| ==> users[j].id != id
      ensures r.Some? ==> r.value in users && r.value.id == id
      ensures r == FindFirst(users, Id, id)
    {
      for i := 0 to |users|
        invariant forall j :: 0 <= j < i ==> users[j].id != id
      {
        if users[i].id == id {
          assert IsFirstMatch(users, Id, id, i);
          return Some(users[i]);
        }
      }
      return None;
    }

    /** `findByUserName`: the first entry with `username`, or null exactly when `exists` is false. */
    method FindByUserName(username: string) returns (r: Option<User>)
      ensures r.None? <==> !HasUserName(users, username)
      ensures r.Some? ==> r.value in users && r.value.username == username
      ensures r == FindFirst(users, UserName, username)
    {
      for i := 0 to |users|
        invariant forall j :: 0 <= j < i ==> users[j].username != username
      {
        if users[i].username == username {
          assert IsFirstMatch(users, UserName, username, i);
          return Some(users[i]);
        }
      }
      return None;
    }

    /**
     * `verifyCredentials`: the user `findByUserName` finds, if its password equals `password`;
     * null otherwise.
     */
    method VerifyCredentials(username: string, password: string) returns (r: Option<User>)
      ensures r.Some? <==> exists k :: IsFirstMatch(users, UserName, username, k) && users[k].password == password
      ensures r.Some? ==> r == FindFirst(users, UserName, username) && r.value.password == password
    {
      var user := FindByUserName(username);
      if user.None? {
        return None;
      }
      if user.value.password != password {
        return None;
      }
      return user;
    }

    /** `addUser`: refuses a username already present, otherwise appends the user at the end. */
    method AddUser(user: User) returns (r: Result<()>)
      modifies this
      ensures HasUserName(old(users), user.username) ==> r == Err(BadRequest) && users == old(users)
      ensures !HasUserName(old(users), user.username) ==> r == Ok(()) && users == old(users) + [user]
    {
      var isExist := Exists(user.username);
      if isExist {
        return Err(BadRequest);
      }
      users := users + [user];
      return Ok(());
    }

    /**
     * `deleteUser`: fails when the username is absent; otherwise splices out the first entry
     * with that username and hands the username to the library's `deleteUser`.
     */
    method DeleteUser(username: string) returns (r: Result<AuthzCall>)
      modifies this
      ensures !HasUserName(old(users), username) ==> r == Err(NotFound) && users == old(users)
      ensures HasUserName(old(users), username) ==>
        r == Ok(AuthzCall.DeleteUser(username)) &&
        |users| == |old(users)| - 1 &&
        users == RemoveFirst(old(users), username)
      ensures HasUserName(old(users), username) ==>
        exists k :: IsFirstMatch(old(users), UserName, username, k) && users == old(users)[..k] + old(users)[k + 1..]
    {
      var isExist := Exists(username);
      if !isExist {
        return Err(NotFound);
      }
      ghost var before := users;
      var i, n := 0, |users|;
      while i < n
        invariant 0 <= i <= n == |before| && users == before
        invariant forall j :: 0 <= j < i ==> before[j].username != username
      {
        if users[i].username == username {
          assert IsFirstMatch(before, UserName, username, i);
          RemoveFirstSplices(before, username, i);
          users := users[..i] + users[i + 1..];
          break;
        }
        i := i + 1;
      }
      return Ok(AuthzCall.DeleteUser(username));
    }

    /** `assignedRoles`: NotFound for an absent user, otherwise the library's implicit roles. */
    method AssignedRoles(username: string) returns (r: Result<AuthzCall>)
      ensures r.Err? <==> !HasUserName(users, username)
      ensures r.Err? ==> r.error == NotFound
      ensures r.Ok? ==> r.value == GetImplicitRolesForUser(username)
    {
      var isExists := Exists(username);
      if !isExists {
        return Err(NotFound);
      }
      return Ok(GetImplicitRolesForUser(username));
    }

    /** `userPermissions`: NotFound for an absent user, otherwise all implicit permissions, unfiltered. */
    method UserPermissions(username: string) returns (r: Result<AuthzCall>)
      ensures r.Err? <==> !HasUserName(users, username)
      ensures r.Err? ==> r.error == NotFound
      ensures r.Ok? ==> r.value == GetImplicitPermissionsForUser(username, None, None)
    {
      var isExists := Exists(username);
      if !isExists {
        return Err(NotFound);
      }
      return Ok(GetImplicitPermissionsForUser(username, None, None));
    }

    /**
     * `grantPermission`: NotFound for an absent user, otherwise the library's
     * `addPermissionForUser`, whose argument order puts the object before the operation.
     */
    method GrantPermission(username: string, domain: string, operation: string, obj: string)
      returns (r: Result<AuthzCall>)
      ensures r.Err? <==> !HasUserName(users, username)
      ensures r.Err? ==> r.error == NotFound
      ensures r.Ok? ==> r.value == AddPermissionForUser(username, domain, obj, operation)
    {
      var isUserExists := Exists(username);
      if !isUserExists {
        return Err(NotFound);
      }
      return Ok(AddPermissionForUser(username, domain, obj, operation));
    }

    /**
     * `revokePermission`: NotFound for an absent user, otherwise the library's
     * `deletePermissionForUser`. The permission check before it is not awaited, so its
     * BadRequest branch is never taken.
     */
    method RevokePermission(username: string, domain: string, operation: string, obj: string)
      returns (r: Result<AuthzCall>)
      ensures r.Err? <==> !HasUserName(users, username)
      ensures r.Err? ==> r.error == NotFound
      ensures r.Ok? ==> r.value == DeletePermissionForUser(username, domain, obj, operation)
    {
      var isUserExists := Exists(username);
      if !isUserExists {
        return Err(NotFound);
      }
      return Ok(DeletePermissionForUser(username, domain, obj, operation));
    }

    /**
     * `hasPermission`: NotFound for an absent user whatever the library would answer;
     * BadRequest when the library (in its current state `hasPermissionForUser`) denies;
     * otherwise the implicit permissions filtered by domain and object.
     */
    method HasPermission(hasPermissionForUser: PermissionOracle,
                         username: string, domain: string, operation: string, obj: string)
      returns (r: Result<AuthzCall>)
      ensures !HasUserName(users, username) ==> r == Err(NotFound)
      ensures HasUserName(users, username) && !hasPermissionForUser(username, domain, obj, operation) ==>
        r == Err(BadRequest)
      ensures r.Ok? <==> HasUserName(users, username) && hasPermissionForUser(username, domain, obj, operation)
      ensures r.Ok? ==> r.value == GetImplicitPermissionsForUser(username, Some(domain), Some(obj))
    {
      var isUserExists := Exists(username);
      if !isUserExists {
        return Err(NotFound);
      }
      var allowed := hasPermissionForUser(username, domain, obj, operation);
      if !allowed {
        return Err(BadRequest);
      }
      return Ok(GetImplicitPermissionsForUser(username, Some(domain), Some(obj)));
    }

    /**
     * `getResourceListForUserWithActions`: NotFound for an absent user, otherwise the implicit
     * permissions in `domain`; `operation` reaches neither the guard nor the call.
     */
    method GetResourceListForUserWithActions(username: string, domain: string, operation: string)
      returns (r: Result<AuthzCall>)
      ensures r.Err? <==> !HasUserName(users, username)
      ensures r.Err? ==> r.error == NotFound
      ensures r.Ok? ==> r.value == GetImplicitPermissionsForUser(username, Some(domain), None)
    {
      var isUserExists := Exists(username);
      if !isUserExists {
        return Err(NotFound);
      }
      return Ok(GetImplicitPermissionsForUser(username, Some(domain), None));
    }
  }

  /**
   * Round trip on the service: when `addUser` accepts a user, `deleteUser` of its username
   * succeeds and leaves the directory exactly as it was before the add.
   */
  method AddThenDelete(service: UserService, user: User) returns (added: Result<()>, deleted: Option<Result<AuthzCall>>)
    modifies service
    ensures added.Ok? <==> !HasUserName(old(service.users), user.username)
    ensures added.Ok? ==> deleted == Some(Ok(AuthzCall.DeleteUser(user.username))) && service.users == old(service.users)
    ensures added.Err? ==> added.error == BadRequest && deleted == None && service.users == old(service.users)
  {
    added := service.AddUser(user);
    if added.Err? {
      return added, None;
    }
    assert HasUserName(service.users, user.username) by {
      assert service.users[|service.users| - 1] == user;
    }
    var result := service.DeleteUser(user.username);
    deleted := Some(result);
    RemoveFirstUndoesAppend(old(service.users), user);
  }
}
