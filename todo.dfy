/** The `/todo` handlers: creating a to-do for the caller, and listing the
    caller's to-dos through optional filters and a page window. */
module ToDos {
  import opened Results
  import opened Seqs
  import opened Tables
  import opened Text

  /** The listing response: the page and the window it was cut with. */
  datatype ToDoPage = ToDoPage(result: seq<ToDo>, offset: nat, limit: nat)

  /** `POST /todo/`: stores the to-do under the next id, owned by the
      caller. */
  method CreateToDo(db: Store, todo: ToDoSchema, user: User) returns (r: ToDo)
    requires db.Valid()
    modifies db
    ensures db.Valid()
    ensures r.id == old(db.nextToDoId) && r.userId == user.id
    ensures r.title == todo.title && r.description == todo.description && r.state == todo.state
    ensures db.todos == old(db.todos) + [r]
    ensures db.nextToDoId == old(db.nextToDoId) + 1
    ensures db.users == old(db.users) && db.nextUserId == old(db.nextUserId)
  {
    r := ToDo(db.nextToDoId, user.id, todo.title, todo.description, todo.state);
    db.todos := db.todos + [r];
    db.nextToDoId := db.nextToDoId + 1;
  }

  /** A text filter takes effect when it is given and not empty. */
  predicate Applies(f: Option<string>)
  {
    f.Some? && f.value != ""
  }

  /** Filter text the database reads literally (absent text is too). */
  predicate LiteralFilter(f: Option<string>)
  {
    f.None? || Literal(f.value)
  }

  predicate TextAdmits(f: Option<string>, field: string)
  {
    !Applies(f) || ContainsIgnoringCase(field, f.value)
  }

  predicate StateAdmits(f: Option<ToDoState>, state: ToDoState)
  {
    f.None? || state == f.value
  }

  /** The listing's whole condition: owned by `userId` and passing each
      filter that takes effect. */
  predicate Listed(t: ToDo, userId: int, title: Option<string>, description: Option<string>, state: Option<ToDoState>)
  {
    t.userId == userId && TextAdmits(title, t.title) && TextAdmits(description, t.description) &&
    StateAdmits(state, t.state)
  }

  function OwnedBy(userId: int): ToDo -> bool { (t: ToDo) => t.userId == userId }
  function TitleFilter(title: Option<string>): ToDo -> bool { (t: ToDo) => TextAdmits(title, t.title) }
  function DescriptionFilter(description: Option<string>): ToDo -> bool { (t: ToDo) => TextAdmits(description, t.description) }
  function StateFilter(state: Option<ToDoState>): ToDo -> bool { (t: ToDo) => StateAdmits(state, t.state) }

  function ListedBy(userId: int, title: Option<string>, description: Option<string>, state: Option<ToDoState>): ToDo -> bool
  {
    (t: ToDo) => Listed(t, userId, title, description, state)
  }

  /** `GET /todo/`: the query starts from the caller's to-dos and narrows it
      by each filter that takes effect, then cuts the page. */
  function ListToDos(todos: seq<ToDo>, user: User, title: Option<string> := None,
                     description: Option<string> := None, state: Option<ToDoState> := None,
                     offset: nat := 0, limit: nat := 10): (r: ToDoPage)
    requires LiteralFilter(title) && LiteralFilter(description)
    ensures r.offset == offset && r.limit == limit
    ensures |r.result| <= limit
  {
    var query := Where(todos, OwnedBy(user.id));
    var query := if Applies(title) then Where(query, TitleFilter(title)) else query;
    var query := if Applies(description) then Where(query, DescriptionFilter(description)) else query;
    var query := if state.Some? then Where(query, StateFilter(state)) else query;
    ToDoPage(Page(query, offset, limit), offset, limit)
  }

  /** The four filters applied one after another, each whether or not it
      takes effect. */
  function Narrowed(todos: seq<ToDo>, userId: int, title: Option<string>, description: Option<string>,
                    state: Option<ToDoState>): seq<ToDo>
  {
    Where(Where(Where(Where(todos, OwnedBy(userId)), TitleFilter(title)), DescriptionFilter(description)),
          StateFilter(state))
  }

  /** A filter that does not take effect admits every row, so skipping it,
      as the handler does, and applying it agree. */
  lemma SkippingFiltersIsHarmless(todos: seq<ToDo>, user: User, title: Option<string>, description: Option<string>,
                                  state: Option<ToDoState>, offset: nat, limit: nat)
    requires LiteralFilter(title) && LiteralFilter(description)
    ensures ListToDos(todos, user, title, description, state, offset, limit).result ==
            Page(Narrowed(todos, user.id, title, description, state), offset, limit)
  {
    var owned := Where(todos, OwnedBy(user.id));
    var byTitle := if Applies(title) then Where(owned, TitleFilter(title)) else owned;
    var byDescription := if Applies(description) then Where(byTitle, DescriptionFilter(description)) else byTitle;
    if !Applies(title) {
      WhereAll(owned, TitleFilter(title));
    }
    assert byTitle == Where(owned, TitleFilter(title));
    if !Applies(description) {
      WhereAll(byTitle, DescriptionFilter(description));
    }
    assert byDescription == Where(byTitle, DescriptionFilter(description));
    if state.None? {
      WhereAll(byDescription, StateFilter(state));
    }
  }

  /** The chained filters combine by AND. */
  lemma NarrowedIsConjunction(todos: seq<ToDo>, userId: int, title: Option<string>, description: Option<string>,
                              state: Option<ToDoState>)
    ensures Narrowed(todos, userId, title, description, state) == Where(todos, ListedBy(userId, title, description, state))
  {
    var p1 := (t: ToDo) => t.userId == userId && TextAdmits(title, t.title);
    var p2 := (t: ToDo) => p1(t) && TextAdmits(description, t.description);
    var p3 := (t: ToDo) => p2(t) && StateAdmits(state, t.state);
    WhereThenWhere(todos, OwnedBy(userId), TitleFilter(title), p1);
    WhereThenWhere(todos, p1, DescriptionFilter(description), p2);
    WhereThenWhere(todos, p2, StateFilter(state), p3);
    WhereAgree(todos, p3, ListedBy(userId, title, description, state));
  }

  /** The listing is the page, at `offset` and of at most `limit` rows, of
      the to-dos meeting the whole condition, in table order. */
  lemma ListToDosIsPageOfListed(todos: seq<ToDo>, user: User, title: Option<string>, description: Option<string>,
                                state: Option<ToDoState>, offset: nat, limit: nat)
    requires LiteralFilter(title) && LiteralFilter(description)
    ensures ListToDos(todos, user, title, description, state, offset, limit).result ==
            Page(Where(todos, ListedBy(user.id, title, description, state)), offset, limit)
    ensures |ListToDos(todos, user, title, description, state, offset, limit).result| ==
            Min(limit, Max(0, |Where(todos, ListedBy(user.id, title, description, state))| - offset))
  {
    SkippingFiltersIsHarmless(todos, user, title, description, state, offset, limit);
    NarrowedIsConjunction(todos, user.id, title, description, state);
  }

  /** Every listed to-do is one of the table's, belongs to the caller and
      passes every filter that takes effect. */
  lemma ListedToDosMatch(todos: seq<ToDo>, user: User, title: Option<string>, description: Option<string>,
                         state: Option<ToDoState>, offset: nat, limit: nat, i: int)
    requires LiteralFilter(title) && LiteralFilter(description)
    requires 0 <= i < |ListToDos(todos, user, title, description, state, offset, limit).result|
    ensures var t := ListToDos(todos, user, title, description, state, offset, limit).result[i];
            t in todos && t.userId == user.id &&
            (Applies(title) ==> ContainsIgnoringCase(t.title, title.value)) &&
            (Applies(description) ==> ContainsIgnoringCase(t.description, description.value)) &&
            (state.Some? ==> t.state == state.value)
  {
    ListToDosIsPageOfListed(todos, user, title, description, state, offset, limit);
    var selected := Where(todos, ListedBy(user.id, title, description, state));
    var t := selected[offset + i];
    WhereMembership(todos, ListedBy(user.id, title, description, state), t);
  }

  /** Conversely, every to-do meeting the condition is listed once the
      window covers the whole selection. */
  lemma ListedToDosComplete(todos: seq<ToDo>, user: User, title: Option<string>, description: Option<string>,
                            state: Option<ToDoState>, t: ToDo)
    requires LiteralFilter(title) && LiteralFilter(description)
    requires t in todos && Listed(t, user.id, title, description, state)
    ensures t in ListToDos(todos, user, title, description, state, 0, |todos|).result
  {
    ListToDosIsPageOfListed(todos, user, title, description, state, 0, |todos|);
    var selected := Where(todos, ListedBy(user.id, title, description, state));
    WhereMembership(todos, ListedBy(user.id, title, description, state), t);
    assert Page(selected, 0, |todos|) == selected;
  }

  /** A new to-do shows up in its owner's unfiltered listing. */
  lemma CreatedToDoIsListed(todos: seq<ToDo>, user: User, t: ToDo)
    requires t.userId == user.id
    ensures t in ListToDos(todos + [t], user, offset := 0, limit := |todos| + 1).result
  {
    assert t in todos + [t];
    ListedToDosComplete(todos + [t], user, None, None, None, t);
  }

  /** Another user's to-do never changes the caller's listing. */
  lemma OthersToDosNotListed(todos: seq<ToDo>, user: User, title: Option<string>, description: Option<string>,
                             state: Option<ToDoState>, offset: nat, limit: nat, t: ToDo)
    requires LiteralFilter(title) && LiteralFilter(description)
    requires t.userId != user.id
    ensures ListToDos(todos + [t], user, title, description, state, offset, limit) ==
            ListToDos(todos, user, title, description, state, offset, limit)
  {
    var keep := ListedBy(user.id, title, description, state);
    ListToDosIsPageOfListed(todos + [t], user, title, description, state, offset, limit);
    ListToDosIsPageOfListed(todos, user, title, description, state, offset, limit);
    WhereAppend(todos, [t], keep);
    WhereNone([t], keep);
    assert Where(todos, keep) + [] == Where(todos, keep);
  }

  /** Five of the caller's to-dos, listed with the defaults, come back
      whole; with `offset=1&limit=2`, two come back. */
  lemma DefaultWindowScenario(todos: seq<ToDo>, user: User)
    requires |todos| == 5
    requires forall j :: 0 <= j < |todos| ==> todos[j].userId == user.id
    ensures |ListToDos(todos, user).result| == 5
    ensures |ListToDos(todos, user, offset := 1, limit := 2).result| == 2
  {
    WhereAll(todos, ListedBy(user.id, None, None, None));
    ListToDosIsPageOfListed(todos, user, None, None, None, 0, 10);
    ListToDosIsPageOfListed(todos, user, None, None, None, 1, 2);
  }

  /** "Test title" contains "test" once case is ignored. */
  lemma TestTitleContainsTest()
    ensures ContainsIgnoringCase("Test title", "test")
    ensures ContainsIgnoringCase("Test Description", "test")
  {
    assert OccursAt(LowerAll("test"), LowerAll("Test title"), 0);
    assert OccursAt(LowerAll("test"), LowerAll("Test Description"), 0);
  }

  /** Five done to-dos titled "Test title" with description "Test
      Description" and three doing ones, all the caller's, filtered by
      `title=test&description=test&state=done`: the five come back, and with
      `offset=2&limit=3`, three of them. */
  lemma CombinedFilterScenario(matching: seq<ToDo>, others: seq<ToDo>, user: User)
    requires |matching| == 5 && |others| == 3
    requires forall j :: 0 <= j < |matching| ==>
      matching[j].userId == user.id && matching[j].title == "Test title" &&
      matching[j].description == "Test Description" && matching[j].state == Done
    requires forall j :: 0 <= j < |others| ==> others[j].userId == user.id && others[j].state == Doing
    ensures |ListToDos(matching + others, user, Some("test"), Some("test"), Some(Done)).result| == 5
    ensures |ListToDos(matching + others, user, Some("test"), Some("test"), Some(Done), 2, 3).result| == 3
  {
    var keep := ListedBy(user.id, Some("test"), Some("test"), Some(Done));
    TestTitleContainsTest();
    WhereAll(matching, keep);
    WhereNone(others, keep);
    WhereAppend(matching, others, keep);
    assert Literal("test");
    ListToDosIsPageOfListed(matching + others, user, Some("test"), Some("test"), Some(Done), 0, 10);
    ListToDosIsPageOfListed(matching + others, user, Some("test"), Some("test"), Some(Done), 2, 3);
  }
}
