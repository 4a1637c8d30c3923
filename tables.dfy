/** The records the handlers read and write, and the store that holds them:
    the `users` and `todos` tables with the identifier sequences that number
    new rows. */
module Tables {

  /** A row of the user table; `password` holds the digest, never the
      plaintext. */
  datatype User = User(id: int, username: string, email: string, password: string)

  /** The request body of registration and of an update. */
  datatype UserSchema = UserSchema(username: string, email: string, password: string)

  /** What the client sees of a user: no password digest. */
  datatype UserPublic = UserPublic(id: int, username: string, email: string)

  datatype ToDoState = Draft | Todo | Doing | Done | Trash

  /** A row of the to-do table; `userId` names its owner. */
  datatype ToDo = ToDo(id: int, userId: int, title: string, description: string, state: ToDoState)

  /** The request body of to-do creation. */
  datatype ToDoSchema = ToDoSchema(title: string, description: string, state: ToDoState)

  /** The `{'message': ...}` body of a handler that returns no record. */
  datatype Message = Message(message: string)

  function Public(u: User): UserPublic
  {
    UserPublic(u.id, u.username, u.email)
  }

  /** No two rows of `users` share an id. */
  ghost predicate DistinctUserIds(users: seq<User>)
  {
    forall i, j :: 0 <= i < j < |users| ==> users[i].id != users[j].id
  }

  /** Under distinct ids, two rows with the same id are the same row. */
  lemma SameIdSameRow(users: seq<User>, u: User, v: User)
    requires DistinctUserIds(users)
    requires u in users && v in users && u.id == v.id
    ensures u == v
  {
    var i :| 0 <= i < |users| && users[i] == u;
    var j :| 0 <= j < |users| && users[j] == v;
    assert !(i < j) && !(j < i);
  }

  ghost predicate DistinctToDoIds(todos: seq<ToDo>)
  {
    forall i, j :: 0 <= i < j < |todos| ==> todos[i].id != todos[j].id
  }

  /** The database as the handlers see it through their session. */
  class Store {
    var users: seq<User>
    var todos: seq<ToDo>
    /** The next value of each table's id sequence. */
    var nextUserId: int
    var nextToDoId: int

    /** Ids are primary keys drawn from a sequence that starts at 1: every
        row's id is distinct and below the next value to be handed out. */
    ghost predicate Valid()
      reads this
    {
      1 <= nextUserId && 1 <= nextToDoId &&
      (forall i :: 0 <= i < |users| ==> 1 <= users[i].id < nextUserId) &&
      (forall i :: 0 <= i < |todos| ==> 1 <= todos[i].id < nextToDoId) &&
      DistinctUserIds(users) && DistinctToDoIds(todos)
    }

    constructor ()
      ensures Valid()
      ensures users == [] && todos == []
      ensures nextUserId == 1 && nextToDoId == 1
    {
      users, todos := [], [];
      nextUserId, nextToDoId := 1, 1;
    }
  }
}
