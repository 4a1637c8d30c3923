/** The handlers the application object declares itself. They repeat the
    `/users` handlers and the password login of the routers line for line,
    so each one here is the router's, with its promise restated for this
    endpoint. */
module App {
  import opened Results
  import opened Seqs
  import opened Tables
  import Users
  import Auth

  /** `POST /users/`. */
  method CreateUser(db: Store, user: UserSchema, hash: string -> string) returns (r: Outcome<UserPublic>)
    requires db.Valid()
    modifies db
    ensures db.Valid()
    ensures (exists u :: u in old(db.users) && Users.Clashes(u, user)) ==>
      r == BadRequest(Users.RegistrationError(old(db.users), user).value) && unchanged(db)
    ensures (forall u :: u in old(db.users) ==> !Users.Clashes(u, user)) ==>
      var row := User(old(db.nextUserId), user.username, user.email, hash(user.password));
      && r == Ok(Public(row))
      && db.users == old(db.users) + [row]
      && db.nextUserId == old(db.nextUserId) + 1
      && db.todos == old(db.todos) && db.nextToDoId == old(db.nextToDoId)
  {
    r := Users.CreateUser(db, user, hash);
  }

  /** `GET /users/`. */
  function ListUsers(users: seq<User>, limit: nat := 10, skip: nat := 0): (r: seq<UserPublic>)
    ensures |r| == Min(limit, Max(0, |users| - skip))
    ensures forall i :: 0 <= i < |r| ==> r[i] == Public(users[skip + i])
  {
    Users.ListUsers(users, limit, skip)
  }

  /** `GET /users/{user_id}`. */
  function GetUser(users: seq<User>, userId: int): (r: Outcome<UserPublic>)
    ensures r.Ok? || r == NotFound(Users.UserNotFound)
    ensures r.Ok? <==> exists u :: u in users && u.id == userId
    ensures r.Ok? ==> exists u :: u in users && u.id == userId && r.value == Public(u)
  {
    Users.GetUser(users, userId)
  }

  /** `PUT /users/{user_id}`. */
  method UpdateUser(db: Store, userId: int, user: UserSchema, current: User, hash: string -> string)
    returns (r: Outcome<UserPublic>)
    requires db.Valid() && current in db.users
    modifies db
    ensures db.Valid()
    ensures current.id != userId ==> r == Forbidden(Users.NotEnoughPermission) && unchanged(db)
    ensures current.id == userId ==>
      var row := User(current.id, user.username, user.email, hash(user.password));
      && r == Ok(Public(row))
      && db.users == Users.Overwritten(old(db.users), row)
      && db.todos == old(db.todos)
      && db.nextUserId == old(db.nextUserId) && db.nextToDoId == old(db.nextToDoId)
  {
    r := Users.UpdateUser(db, userId, user, current, hash);
  }

  /** `DELETE /users/{user_id}`. */
  method DeleteUser(db: Store, userId: int, current: User) returns (r: Outcome<Message>)
    requires db.Valid() && current in db.users
    modifies db
    ensures db.Valid()
    ensures current.id != userId ==> r == Forbidden(Users.NotEnoughPermission) && unchanged(db)
    ensures current.id == userId ==>
      && r == Ok(Message(Users.UserDeleted))
      && db.users == Users.Without(old(db.users), current.id)
      && |db.users| == |old(db.users)| - 1
      && (forall t :: t in old(db.todos) && t.userId != current.id ==> t in db.todos)
      && (forall t :: t in db.todos ==> t in old(db.todos))
      && db.nextUserId == old(db.nextUserId) && db.nextToDoId == old(db.nextToDoId)
  {
    r := Users.DeleteUser(db, userId, current);
  }

  /** `POST /token`. */
  function LoginForAccessToken(users: seq<User>, form: Auth.LoginForm, verify: (string, string) -> bool,
                               makeToken: Auth.Claims -> string): (r: Outcome<Auth.Token>)
    ensures r.Ok? || r == BadRequest(Auth.IncorrectCredentials)
    ensures (forall u :: u in users ==> u.email != form.username) ==> r == BadRequest(Auth.IncorrectCredentials)
    ensures r.Ok? ==> r.value == Auth.Token(makeToken(Auth.Claims(form.username)), Auth.Bearer)
    ensures r.Ok? ==> exists u :: u in users && u.email == form.username && verify(form.password, u.password)
  {
    Auth.Login(users, form, verify, makeToken)
  }

  /** A user who has just registered can log in with the email and password
      they registered with, provided the password verifies against its own
      digest. */
  lemma RegisteredUserCanLogIn(users: seq<User>, user: UserSchema, id: int, hash: string -> string,
                               verify: (string, string) -> bool, makeToken: Auth.Claims -> string)
    requires Users.RegistrationError(users, user).None?
    requires verify(user.password, hash(user.password))
    ensures LoginForAccessToken(users + [User(id, user.username, user.email, hash(user.password))],
                                Auth.LoginForm(user.email, user.password), verify, makeToken)
            == Ok(Auth.Token(makeToken(Auth.Claims(user.email)), Auth.Bearer))
  {
    var after := users + [User(id, user.username, user.email, hash(user.password))];
    forall j | 0 <= j < |users|
      ensures after[j].email != user.email
    {
      assert after[j] == users[j] && users[j] in users;
    }
    assert Auth.HasEmail(user.email)(after[|users|]);
  }
}
