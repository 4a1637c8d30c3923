/** The `/users` handlers: registration, listing, lookup, and the update and
    delete that only the account's owner may perform. Password hashing is the
    parameter `hash`, about which nothing is assumed. */
module Users {
  import opened Results
  import opened Seqs
  import opened Tables

  const UsernameExists := "Username already exists"
  const EmailExists := "Email already exists"
  const UserNotFound := "User not found"
  const NotEnoughPermission := "Not enough permission"
  const UserDeleted := "User deleted"

  /** The registration query's condition: same username OR same email. */
  predicate Clashes(u: User, s: UserSchema)
  {
    u.username == s.username || u.email == s.email
  }

  /** The error registration reports, if any. The query returns the first
      clashing row; the username is blamed when that row shares it, even if
      the row shares the email too, and the email otherwise. */
  function RegistrationError(users: seq<User>, s: UserSchema): (r: Option<string>)
    ensures r.Some? <==> exists u :: u in users && Clashes(u, s)
    ensures r.None? || r == Some(UsernameExists) || r == Some(EmailExists)
    ensures r == Some(UsernameExists) <==>
      exists i :: 0 <= i < |users| && users[i].username == s.username &&
        forall j :: 0 <= j < i ==> !Clashes(users[j], s)
    ensures r == Some(EmailExists) <==>
      exists i :: 0 <= i < |users| && users[i].username != s.username && users[i].email == s.email &&
        forall j :: 0 <= j < i ==> !Clashes(users[j], s)
  {
    match FirstIndex(users, (u: User) => Clashes(u, s))
    case None => None
    case Some(k) =>
      assert forall i :: 0 <= i < |users| && Clashes(users[i], s) ==> k <= i;
      if users[k].username == s.username then Some(UsernameExists) else Some(EmailExists)
  }

  /** With no other clash in the way, a taken username is what gets
      reported, whatever else matches. */
  lemma TakenUsernameReported(users: seq<User>, s: UserSchema)
    requires exists u :: u in users && u.username == s.username
    requires forall u :: u in users && u.email == s.email ==> u.username == s.username
    ensures RegistrationError(users, s) == Some(UsernameExists)
  {
    forall i | 0 <= i < |users| && users[i].email == s.email
      ensures users[i].username == s.username
    {
      assert users[i] in users;
    }
  }

  /** Which of the two messages is reported depends on the order of the rows:
      with one row holding the username and another the email, the earlier
      of the two decides. */
  lemma ReportDependsOnRowOrder()
    ensures var alice, bob := User(1, "alice", "alice@example.com", "x"), User(2, "bob", "bob@example.com", "y");
            var s := UserSchema("bob", "alice@example.com", "secret");
            RegistrationError([alice, bob], s) == Some(EmailExists) &&
            RegistrationError([bob, alice], s) == Some(UsernameExists)
  {
    var alice, bob := User(1, "alice", "alice@example.com", "x"), User(2, "bob", "bob@example.com", "y");
    var s := UserSchema("bob", "alice@example.com", "secret");
    assert Clashes(alice, s) && Clashes(bob, s);
    assert [alice, bob][0] == alice && [bob, alice][0] == bob;
  }

  /** Once registered, the same request fails on the username. */
  lemma {:induction false} RegisteredUsernameIsTaken(users: seq<User>, s: UserSchema, id: int, digest: string)
    requires RegistrationError(users, s) == None
    ensures RegistrationError(users + [User(id, s.username, s.email, digest)], s) == Some(UsernameExists)
  {
    var after := users + [User(id, s.username, s.email, digest)];
    assert after[|users|].username == s.username;
    forall j | 0 <= j < |users|
      ensures !Clashes(after[j], s)
    {
      assert after[j] == users[j] && users[j] in users;
    }
  }

  /** `POST /users/`: rejects a taken username or email, otherwise stores
      the new user with the digest of its password under the next id. */
  method CreateUser(db: Store, user: UserSchema, hash: string -> string) returns (r: Outcome<UserPublic>)
    requires db.Valid()
    modifies db
    ensures db.Valid()
    ensures RegistrationError(old(db.users), user).Some? ==>
      r == BadRequest(RegistrationError(old(db.users), user).value) && unchanged(db)
    ensures RegistrationError(old(db.users), user).None? ==>
      var row := User(old(db.nextUserId), user.username, user.email, hash(user.password));
      && r == Ok(Public(row))
      && db.users == old(db.users) + [row]
      && db.nextUserId == old(db.nextUserId) + 1
      && db.todos == old(db.todos) && db.nextToDoId == old(db.nextToDoId)
  {
    var found := FirstIndex(db.users, (u: User) => Clashes(u, user));
    if found.Some? {
      var dbUser := db.users[found.value];
      if dbUser.username == user.username {
        return BadRequest(UsernameExists);
      } else {
        // The row matched the query, so with another username its email is
        // what matched: the `elif` test always holds here.
        assert dbUser.email == user.email;
        return BadRequest(EmailExists);
      }
    }
    var row := User(db.nextUserId, user.username, user.email, hash(user.password));
    db.users := db.users + [row];
    db.nextUserId := db.nextUserId + 1;
    r := Ok(Public(row));
  }

  /** `GET /users/`: the public view of the table with the first `skip` rows
      dropped and at most `limit` kept. */
  function ListUsers(users: seq<User>, limit: nat := 10, skip: nat := 0): (r: seq<UserPublic>)
    ensures |r| == Min(limit, Max(0, |users| - skip))
    ensures forall i :: 0 <= i < |r| ==> r[i] == Public(users[skip + i])
  {
    var page := Page(users, skip, limit);
    seq(|page|, i requires 0 <= i < |page| => Public(page[i]))
  }

  /** With the defaults, a table of at most ten users is listed whole. */
  lemma ListUsersDefaultsShowSmallTable(users: seq<User>)
    requires |users| <= 10
    ensures |ListUsers(users)| == |users|
    ensures forall u :: u in users ==> Public(u) in ListUsers(users)
  {
    var r := ListUsers(users);
    forall u | u in users
      ensures Public(u) in r
    {
      var i :| 0 <= i < |users| && users[i] == u;
      assert r[i] == Public(u);
    }
  }

  /** `GET /users/{user_id}`: the row with that id, or "User not found". */
  function GetUser(users: seq<User>, userId: int): (r: Outcome<UserPublic>)
    ensures r.Ok? || r == NotFound(UserNotFound)
    ensures r.Ok? <==> exists u :: u in users && u.id == userId
    ensures r.Ok? ==> exists u :: u in users && u.id == userId && r.value == Public(u)
  {
    match FirstIndex(users, (u: User) => u.id == userId)
    case None => NotFound(UserNotFound)
    case Some(k) => Ok(Public(users[k]))
  }

  /** Under distinct ids, looking up a row's id finds that row. */
  lemma GetUserFindsRow(users: seq<User>, u: User)
    requires DistinctUserIds(users) && u in users
    ensures GetUser(users, u.id) == Ok(Public(u))
  {
    var v :| v in users && v.id == u.id && GetUser(users, u.id).value == Public(v);
    SameIdSameRow(users, u, v);
  }

  /** The table after the row with `row.id` is overwritten by `row`. */
  function Overwritten(users: seq<User>, row: User): seq<User>
  {
    seq(|users|, i requires 0 <= i < |users| => if users[i].id == row.id then row else users[i])
  }

  /** After an update, the updated id is found with its new fields... */
  lemma UpdatedRowIsFound(users: seq<User>, row: User)
    requires exists u :: u in users && u.id == row.id
    ensures GetUser(Overwritten(users, row), row.id) == Ok(Public(row))
  {
    var after := Overwritten(users, row);
    var u :| u in users && u.id == row.id;
    var i :| 0 <= i < |users| && users[i] == u;
    assert after[i].id == row.id;
  }

  /** ...and every other id is found exactly as before. */
  lemma OtherUsersUnchangedByUpdate(users: seq<User>, row: User, userId: int)
    requires userId != row.id
    ensures GetUser(Overwritten(users, row), userId) == GetUser(users, userId)
  {
    var after := Overwritten(users, row);
    FirstIndexAgree(after, (u: User) => u.id == userId, users, (u: User) => u.id == userId);
  }

  /** `PUT /users/{user_id}`: refused unless `user_id` is the caller's own
      id, checked before anything else (so also for an id naming nobody);
      otherwise the caller's username, email and password digest are
      overwritten in place. */
  method UpdateUser(db: Store, userId: int, user: UserSchema, current: User, hash: string -> string)
    returns (r: Outcome<UserPublic>)
    requires db.Valid() && current in db.users
    modifies db
    ensures db.Valid()
    ensures current.id != userId ==> r == Forbidden(NotEnoughPermission) && unchanged(db)
    ensures current.id == userId ==>
      var row := User(current.id, user.username, user.email, hash(user.password));
      && r == Ok(Public(row))
      && db.users == Overwritten(old(db.users), row)
      && db.todos == old(db.todos)
      && db.nextUserId == old(db.nextUserId) && db.nextToDoId == old(db.nextToDoId)
  {
    if current.id != userId {
      return Forbidden(NotEnoughPermission);
    }
    var k :| 0 <= k < |db.users| && db.users[k] == current;
    var row := User(current.id, user.username, user.email, hash(user.password));
    ghost var before := db.users;
    assert DistinctUserIds(before);
    db.users := db.users[k := row];
    forall i | 0 <= i < |before|
      ensures db.users[i] == Overwritten(before, row)[i]
    {
      if i != k {
        assert before[i].id != before[k].id;
      }
    }
    r := Ok(Public(row));
  }

  /** The filter that keeps every row but those with id `userId`. */
  function OtherThan(userId: int): User -> bool
  {
    (u: User) => u.id != userId
  }

  /** The table after the row with id `userId` is removed. */
  function Without(users: seq<User>, userId: int): seq<User>
  {
    Where(users, OtherThan(userId))
  }

  /** Removing an id that only one row carries cuts out exactly that row. */
  lemma WithoutCutsOneRow(before: seq<User>, row: User, after: seq<User>)
    requires forall j :: 0 <= j < |before| ==> before[j].id != row.id
    requires forall j :: 0 <= j < |after| ==> after[j].id != row.id
    ensures Without(before + [row] + after, row.id) == before + after
  {
    var keep := OtherThan(row.id);
    WhereAll(before, keep);
    WhereAll(after, keep);
    WhereNone([row], keep);
    WhereAppend(before, [row], keep);
    WhereAppend(before + [row], after, keep);
  }

  /** Cutting a row out keeps the ids of the rest distinct. */
  lemma CutKeepsIdsDistinct(users: seq<User>, k: int)
    requires DistinctUserIds(users) && 0 <= k < |users|
    ensures DistinctUserIds(users[..k] + users[k + 1..])
  {
  }

  /** After a delete, the deleted id is no longer found... */
  lemma DeletedUserIsGone(users: seq<User>, userId: int)
    ensures GetUser(Without(users, userId), userId) == NotFound(UserNotFound)
  {
    forall u | u in Without(users, userId)
      ensures u.id != userId
    {
      WhereMembership(users, OtherThan(userId), u);
    }
  }

  /** ...and, under distinct ids, every other id is found exactly as before. */
  lemma OtherUsersUnchangedByDelete(users: seq<User>, userId: int, otherId: int)
    requires DistinctUserIds(users) && otherId != userId
    ensures GetUser(Without(users, userId), otherId) == GetUser(users, otherId)
  {
    var keep := OtherThan(userId);
    var after := Without(users, userId);
    if u :| u in users && u.id == otherId {
      WhereMembership(users, keep, u);
      var v :| v in after && v.id == otherId && GetUser(after, otherId).value == Public(v);
      WhereMembership(users, keep, v);
      SameIdSameRow(users, u, v);
      GetUserFindsRow(users, u);
    } else {
      forall v | v in after
        ensures v.id != otherId
      {
        WhereMembership(users, keep, v);
      }
    }
  }

  /** `DELETE /users/{user_id}`: refused unless `user_id` is the caller's
      own id, checked first; otherwise the caller's row is removed. */
  method DeleteUser(db: Store, userId: int, current: User) returns (r: Outcome<Message>)
    requires db.Valid() && current in db.users
    modifies db
    ensures db.Valid()
    ensures current.id != userId ==> r == Forbidden(NotEnoughPermission) && unchanged(db)
    ensures current.id == userId ==>
      && r == Ok(Message(UserDeleted))
      && db.users == Without(old(db.users), current.id)
      && |db.users| == |old(db.users)| - 1
      && (forall t :: t in old(db.todos) && t.userId != current.id ==> t in db.todos)
      && (forall t :: t in db.todos ==> t in old(db.todos))
      && db.nextUserId == old(db.nextUserId) && db.nextToDoId == old(db.nextToDoId)
  {
    if current.id != userId {
      return Forbidden(NotEnoughPermission);
    }
    var k :| 0 <= k < |db.users| && db.users[k] == current;
    var before, after := db.users[..k], db.users[k + 1..];
    assert db.users == before + [current] + after;
    forall j | 0 <= j < |before|
      ensures before[j].id != current.id
    {
      assert before[j] == db.users[j];
    }
    forall j | 0 <= j < |after|
      ensures after[j].id != current.id
    {
      assert after[j] == db.users[k + 1 + j];
    }
    WithoutCutsOneRow(before, current, after);
    CutKeepsIdsDistinct(db.users, k);
    db.users := before + after;
    r := Ok(Message(UserDeleted));
  }
}
