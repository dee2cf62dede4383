/**
 * The in-memory user directory: the `User` record and, as pure functions over the
 * sequence of users, what the service's linear searches and its splice compute.
 */
module Directory {
  import opened Outcomes

  /** A directory entry; passwords are compared as plain strings. */
  datatype User = User(id: string, username: string, password: string)

  /** The field a linear search compares: `findById` looks at `id`, `exists` and `findByUserName` at `username`. */
  datatype Field = Id | UserName

  function Key(u: User, f: Field): string
  {
    match f
    case Id => u.id
    case UserName => u.username
  }

  /** `k` is the index of the first entry whose field `f` equals `key`. */
  ghost predicate IsFirstMatch(users: seq<User>, f: Field, key: string, k: int)
  {
    0 <= k < |users| && Key(users[k], f) == key &&
    forall j :: 0 <= j < k ==> Key(users[j], f) != key
  }

  /** Some entry carries the username `name`. */
  predicate HasUserName(users: seq<User>, name: string)
  {
    exists i :: 0 <= i < |users| && users[i].username == name
  }

  /** Every username occurs at most once. */
  ghost predicate UniqueUserNames(users: seq<User>)
  {
    forall i, j :: 0 <= i < j < |users| ==> users[i].username != users[j].username
  }

  /** Every id occurs at most once. */
  ghost predicate UniqueIds(users: seq<User>)
  {
    forall i, j :: 0 <= i < j < |users| ==> users[i].id != users[j].id
  }

  /** Where an early-return scan over the directory stops, if it stops at an entry. */
  function FirstIndex(users: seq<User>, f: Field, key: string): (r: Option<nat>)
    ensures r.Some? ==> IsFirstMatch(users, f, key, r.value)
    ensures r.None? <==> forall j :: 0 <= j < |users| ==> Key(users[j], f) != key
  {
    if |users| == 0 then None
    else if Key(users[0], f) == key then Some(0)
    else
      match FirstIndex(users[1..], f, key)
      case None => None
      case Some(k) => Some(k + 1)
  }

  /** The entry `findById` (f = Id) or `findByUserName` (f = UserName) returns, or null. */
  function FindFirst(users: seq<User>, f: Field, key: string): (r: Option<User>)
    ensures r.None? <==> forall j :: 0 <= j < |users| ==> Key(users[j], f) != key
    ensures r.Some? ==> exists k :: IsFirstMatch(users, f, key, k) && users[k] == r.value
  {
    match FirstIndex(users, f, key)
    case None => None
    case Some(k) => Some(users[k])
  }

  /** The directory once `deleteUser` has spliced out the first entry named `name`. */
  function RemoveFirst(users: seq<User>, name: string): seq<User>
  {
    if |users| == 0 then []
    else if users[0].username == name then users[1..]
    else [users[0]] + RemoveFirst(users[1..], name)
  }

  /** A username is found by the search exactly when it is present. */
  lemma FirstIndexFindsPresentNames(users: seq<User>, name: string)
    ensures FirstIndex(users, UserName, name).Some? <==> HasUserName(users, name)
  {
  }

  /** A username is present iff it heads the directory or is present in the rest. */
  lemma HasUserNameUnfold(users: seq<User>, name: string)
    requires |users| > 0
    ensures HasUserName(users, name) <==> users[0].username == name || HasUserName(users[1..], name)
  {
    if HasUserName(users, name) && users[0].username != name {
      var i :| 0 <= i < |users| && users[i].username == name;
      assert users[1..][i - 1] == users[i];
    }
    if HasUserName(users[1..], name) {
      var i :| 0 <= i < |users[1..]| && users[1..][i].username == name;
      assert users[i + 1] == users[1..][i];
    }
  }

  /**
   * Removing the first match is a splice at the index the scan stops at: the entries
   * before and after it keep their order.
   */
  lemma {:induction false} RemoveFirstSplices(users: seq<User>, name: string, k: int)
    requires IsFirstMatch(users, UserName, name, k)
    ensures RemoveFirst(users, name) == users[..k] + users[k + 1..]
  {
    if k > 0 {
      var tail := users[1..];
      assert IsFirstMatch(tail, UserName, name, k - 1) by {
        forall j | 0 <= j < k - 1 ensures Key(tail[j], UserName) != name {
          assert tail[j] == users[j + 1];
        }
      }
      RemoveFirstSplices(tail, name, k - 1);
      assert [users[0]] + tail[..k - 1] == users[..k];
      assert tail[k..] == users[k + 1..];
    }
  }

  /** Removing an absent username changes nothing. */
  lemma {:induction false} RemoveFirstAbsent(users: seq<User>, name: string)
    requires !HasUserName(users, name)
    ensures RemoveFirst(users, name) == users
  {
    if |users| > 0 {
      HasUserNameUnfold(users, name);
      RemoveFirstAbsent(users[1..], name);
    }
  }

  /** Deleting a present username shortens the directory by exactly one entry. */
  lemma RemoveFirstShrinks(users: seq<User>, name: string)
    requires HasUserName(users, name)
    ensures |RemoveFirst(users, name)| == |users| - 1
  {
    RemoveFirstSplices(users, name, FirstIndex(users, UserName, name).value);
  }

  /**
   * Round trip: removing the name of a user appended under a fresh username gives
   * back the directory it was appended to.
   */
  lemma {:induction false} RemoveFirstUndoesAppend(users: seq<User>, u: User)
    requires !HasUserName(users, u.username)
    ensures RemoveFirst(users + [u], u.username) == users
  {
    if |users| == 0 {
      assert users + [u] == [u];
    } else {
      assert (users + [u])[1..] == users[1..] + [u];
      HasUserNameUnfold(users, u.username);
      RemoveFirstUndoesAppend(users[1..], u);
    }
  }

  /** After a fresh user is appended, the username search finds exactly that user. */
  lemma AppendedUserIsFound(users: seq<User>, u: User)
    requires !HasUserName(users, u.username)
    ensures FindFirst(users + [u], UserName, u.username) == Some(u)
  {
    var s := users + [u];
    assert Key(s[|users|], UserName) == u.username;
  }

  /** Appending a user under a fresh username keeps usernames unique. */
  lemma AppendFreshKeepsUnique(users: seq<User>, u: User)
    requires UniqueUserNames(users) && !HasUserName(users, u.username)
    ensures UniqueUserNames(users + [u])
  {
  }

  /** Removing a name leaves the presence of every other name as it was. */
  lemma {:induction false} RemoveFirstKeepsOtherNames(users: seq<User>, name: string, other: string)
    requires other != name
    ensures HasUserName(RemoveFirst(users, name), other) <==> HasUserName(users, other)
  {
    if |users| > 0 {
      HasUserNameUnfold(users, other);
      if users[0].username != name {
        RemoveFirstKeepsOtherNames(users[1..], name, other);
        HasUserNameUnfold(RemoveFirst(users, name), other);
        assert RemoveFirst(users, name)[1..] == RemoveFirst(users[1..], name);
      }
    }
  }

  /** In a directory with unique usernames, deleting a name removes it entirely and keeps names unique. */
  lemma RemoveFirstOfUniqueDropsName(users: seq<User>, name: string)
    requires UniqueUserNames(users)
    ensures !HasUserName(RemoveFirst(users, name), name)
    ensures UniqueUserNames(RemoveFirst(users, name))
  {
    var r := RemoveFirst(users, name);
    match FirstIndex(users, UserName, name)
    case None =>
      RemoveFirstAbsent(users, name);
    case Some(k) =>
      RemoveFirstSplices(users, name, k);
      assert forall i :: 0 <= i < |r| ==> r[i] == (if i < k then users[i] else users[i + 1]);
  }
}
