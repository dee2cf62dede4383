/**
 * `UserPermissionController`: three handlers that look the route id up in the user directory,
 * answer the built-in superuser `root` with the sentinel `["*"]`, and otherwise hand the
 * request to one `UserService` operation. A handler's reply is either that sentinel or the
 * service call it delegates to, with the arguments it passes.
 */
module UserPermissionController {
  import opened Outcomes
  import opened Directory

  /** The built-in superuser, answered without consulting the service. */
  const Root: string := "root"

  /** The reply that stands for "all permissions". */
  const AllPermissions: seq<string> := ["*"]

  /** The request body of the add and check handlers. */
  datatype AddRolePermissionInput = AddRolePermissionInput(operation: string, resource: string, domain: string)

  /** The `UserService` operations the handlers delegate to, in the service's argument order. */
  datatype ServiceCall =
    | UserPermissions(username: string)
    | GrantPermission(username: string, domain: string, operation: string, obj: string)
    | HasPermission(username: string, domain: string, operation: string, obj: string)

  /** What a handler returns when it does not throw. */
  datatype Reply = Sentinel(items: seq<string>) | Delegate(call: ServiceCall)

  /** The parts of an authenticated request the ownership check reads. */
  datatype Request = Request(caller: User, paramId: string)

  /** The `isOwn` check of all three handlers: the caller is the user named by the route. */
  predicate IsOwn(request: Request)
  {
    request.caller.id == request.paramId
  }

  /** The reply for a found user: the sentinel for `root`, otherwise the given service call. */
  function Dispatch(user: User, call: ServiceCall): Reply
  {
    if user.username == Root then Sentinel(AllPermissions) else Delegate(call)
  }

  /** `GET /users/:id/permissions`. */
  function FindUserPermissions(users: seq<User>, id: string): (r: Result<Reply>)
    ensures r.Err? <==> forall j :: 0 <= j < |users| ==> users[j].id != id
    ensures r.Err? ==> r.error == NotFound
    ensures r.Ok? ==> exists k :: (IsFirstMatch(users, Id, id, k) &&
      (users[k].username == Root ==> r.value == Sentinel(["*"])) &&
      (users[k].username != Root ==> r.value == Delegate(UserPermissions(users[k].username))))
  {
    match FindFirst(users, Id, id)
    case None => Err(NotFound)
    case Some(user) => Ok(Dispatch(user, UserPermissions(user.username)))
  }

  /** `POST /users/:id/permissions`. */
  function AddUserPermissions(users: seq<User>, id: string, input: AddRolePermissionInput): (r: Result<Reply>)
    ensures r.Err? <==> forall j :: 0 <= j < |users| ==> users[j].id != id
    ensures r.Err? ==> r.error == NotFound
    ensures r.Ok? ==> exists k :: (IsFirstMatch(users, Id, id, k) &&
      (users[k].username == Root ==> r.value == Sentinel(["*"])) &&
      (users[k].username != Root ==>
        r.value == Delegate(GrantPermission(users[k].username, input.domain, input.operation, input.resource))))
  {
    match FindFirst(users, Id, id)
    case None => Err(NotFound)
    case Some(user) => Ok(Dispatch(user, GrantPermission(user.username, input.domain, input.operation, input.resource)))
  }

  /** `POST /users/:id/hasPermission`. */
  function HasUserPermissions(users: seq<User>, id: string, input: AddRolePermissionInput): (r: Result<Reply>)
    ensures r.Err? <==> forall j :: 0 <= j < |users| ==> users[j].id != id
    ensures r.Err? ==> r.error == NotFound
    ensures r.Ok? ==> exists k :: (IsFirstMatch(users, Id, id, k) &&
      (users[k].username == Root ==> r.value == Sentinel(["*"])) &&
      (users[k].username != Root ==>
        r.value == Delegate(HasPermission(users[k].username, input.domain, input.operation, input.resource))))
  {
    match FindFirst(users, Id, id)
    case None => Err(NotFound)
    case Some(user) => Ok(Dispatch(user, HasPermission(user.username, input.domain, input.operation, input.resource)))
  }

  /** A delegated call, if any, names a present user other than `root`. */
  predicate DelegatesToPresentUser(users: seq<User>, r: Result<Reply>)
  {
    r.Ok? && r.value.Delegate? ==> r.value.call.username != Root && HasUserName(users, r.value.call.username)
  }

  /**
   * Every call a handler delegates is for a present, non-root username, so the service's
   * existence guard passes and its NotFound is never thrown on a delegated call.
   */
  lemma DelegatedCallsPassExistenceGuard(users: seq<User>, id: string, input: AddRolePermissionInput)
    ensures DelegatesToPresentUser(users, FindUserPermissions(users, id))
    ensures DelegatesToPresentUser(users, AddUserPermissions(users, id, input))
    ensures DelegatesToPresentUser(users, HasUserPermissions(users, id, input))
  {
    match FindFirst(users, Id, id)
    case None =>
    case Some(user) =>
      var k :| IsFirstMatch(users, Id, id, k) && users[k] == user;
      assert users[k].username == user.username;
  }

  /**
   * For `root` all three handlers answer `["*"]` and delegate nothing: the body of a grant or
   * check is ignored, so no permission is granted or checked.
   */
  lemma RootGetsSentinel(users: seq<User>, id: string, input: AddRolePermissionInput)
    requires FindFirst(users, Id, id).Some? && FindFirst(users, Id, id).value.username == Root
    ensures FindUserPermissions(users, id) == Ok(Sentinel(["*"]))
    ensures AddUserPermissions(users, id, input) == Ok(Sentinel(["*"]))
    ensures HasUserPermissions(users, id, input) == Ok(Sentinel(["*"]))
  {
  }

  /**
   * When the route id resolves to the caller's own entry, the ownership check passes;
   * this holds whether or not ids are unique.
   */
  lemma ResolvedToCallerIsOwn(users: seq<User>, request: Request)
    requires FindFirst(users, Id, request.paramId) == Some(request.caller)
    ensures IsOwn(request)
  {
  }

  /**
   * The converse needs unique ids, which `addUser` does not maintain: it refuses only
   * duplicate usernames. Here `bob` is accepted under `alice`'s id, passes the ownership
   * check for route id "1", and the handler then reads `alice`'s permissions.
   */
  lemma {:induction false} DuplicateIdPassesOwnCheckForAnother()
    ensures var alice := User("1", "alice", "a");
            var bob := User("1", "bob", "b");
            var users := [alice] + [bob];
            !HasUserName([alice], bob.username) &&
            IsOwn(Request(bob, "1")) &&
            FindFirst(users, Id, "1") != Some(bob) &&
            FindUserPermissions(users, "1") == Ok(Delegate(UserPermissions("alice")))
  {
    var alice := User("1", "alice", "a");
    var bob := User("1", "bob", "b");
    var users := [alice] + [bob];
    assert "alice" != "bob" by { assert "alice"[0] != "bob"[0]; }
    assert "alice" != Root by { assert "alice"[0] != Root[0]; }
    assert FirstIndex(users, Id, "1") == Some(0);
  }

  /**
   * With unique ids, a request passes the ownership check exactly when the route id resolves
   * to the caller's own entry, so an own request reads or changes the caller's permissions.
   */
  lemma {:induction false} OwnRequestTargetsCaller(users: seq<User>, request: Request)
    requires UniqueIds(users) && request.caller in users
    ensures IsOwn(request) <==> FindFirst(users, Id, request.paramId) == Some(request.caller)
  {
    var i :| 0 <= i < |users| && users[i] == request.caller;
    if IsOwn(request) {
      var f := FindFirst(users, Id, request.paramId);
      assert f.Some? by { assert Key(users[i], Id) == request.paramId; }
      var k :| IsFirstMatch(users, Id, request.paramId, k) && users[k] == f.value;
      assert k == i by {
        if k < i { assert users[k].id == users[i].id; }
        else if i < k { assert Key(users[i], Id) == request.paramId; }
      }
    }
  }
}
