/** The `/auth` handlers: password login and token refresh. Checking a
    password against its digest (`verify`) and minting a signed token from
    its claims (`makeToken`) are parameters, about which nothing is assumed. */
module Auth {
  import opened Results
  import opened Seqs
  import opened Tables

  const IncorrectCredentials := "Incorrect email or password"
  const Bearer := "bearer"

  /** The login form; its `username` field carries the email. */
  datatype LoginForm = LoginForm(username: string, password: string)

  /** The claims a token is minted from: the subject. */
  datatype Claims = Claims(sub: string)

  datatype Token = Token(accessToken: string, tokenType: string)

  function HasEmail(email: string): User -> bool { (u: User) => u.email == email }

  /** `POST /auth/token`: the first user whose email is the form's
      `username`; an unknown email and a wrong password fail alike;
      otherwise a bearer token for that email. */
  function Login(users: seq<User>, form: LoginForm, verify: (string, string) -> bool,
                 makeToken: Claims -> string): (r: Outcome<Token>)
    ensures r.Ok? || r == BadRequest(IncorrectCredentials)
    ensures (forall u :: u in users ==> u.email != form.username) ==> r == BadRequest(IncorrectCredentials)
    ensures r.Ok? ==> r.value == Token(makeToken(Claims(form.username)), Bearer)
    ensures r.Ok? ==> exists u :: u in users && u.email == form.username && verify(form.password, u.password)
  {
    match FirstIndex(users, HasEmail(form.username))
    case None => BadRequest(IncorrectCredentials)
    case Some(k) =>
      if !verify(form.password, users[k].password) then BadRequest(IncorrectCredentials)
      else Ok(Token(makeToken(Claims(users[k].email)), Bearer))
  }

  /** No two users share an email. */
  ghost predicate DistinctEmails(users: seq<User>)
  {
    forall i, j :: 0 <= i < j < |users| ==> users[i].email != users[j].email
  }

  /** With emails unique, login succeeds exactly when the user with that
      email exists and the password verifies against its digest. */
  lemma LoginSucceedsIff(users: seq<User>, form: LoginForm, verify: (string, string) -> bool,
                         makeToken: Claims -> string)
    requires DistinctEmails(users)
    ensures Login(users, form, verify, makeToken).Ok? <==>
      exists u :: u in users && u.email == form.username && verify(form.password, u.password)
  {
    if u :| u in users && u.email == form.username && verify(form.password, u.password) {
      var i :| 0 <= i < |users| && users[i] == u;
      var k := FirstIndex(users, HasEmail(form.username)).value;
      assert !(k < i) && !(i < k);
    }
  }

  /** A known email with a password that does not verify gets exactly the
      answer an unknown email gets: the caller cannot tell which it was. */
  lemma LoginFailuresIndistinguishable(users: seq<User>, form: LoginForm, stranger: LoginForm,
                                       verify: (string, string) -> bool, makeToken: Claims -> string)
    requires DistinctEmails(users)
    requires exists u :: u in users && u.email == form.username && !verify(form.password, u.password)
    requires forall u :: u in users ==> u.email != stranger.username
    ensures Login(users, form, verify, makeToken) == Login(users, stranger, verify, makeToken)
  {
    var u :| u in users && u.email == form.username && !verify(form.password, u.password);
    var i :| 0 <= i < |users| && users[i] == u;
    var k := FirstIndex(users, HasEmail(form.username)).value;
    assert !(k < i) && !(i < k);
  }

  /** Without any uniqueness assumption, the first row carrying the form's
      email decides the login: it succeeds exactly when the password
      verifies against that row's digest. */
  lemma LoginDecidedByFirstRow(users: seq<User>, form: LoginForm, verify: (string, string) -> bool,
                               makeToken: Claims -> string, i: nat)
    requires i < |users| && users[i].email == form.username
    requires forall j :: 0 <= j < i ==> users[j].email != form.username
    ensures Login(users, form, verify, makeToken).Ok? <==> verify(form.password, users[i].password)
    ensures !verify(form.password, users[i].password) ==>
      forall stranger: LoginForm :: (forall u :: u in users ==> u.email != stranger.username) ==>
        Login(users, form, verify, makeToken) == Login(users, stranger, verify, makeToken)
  {
    var k := FirstIndex(users, HasEmail(form.username)).value;
    assert !(k < i) && !(i < k);
  }

  /** `POST /auth/refresh_token`: a new bearer token for the caller's
      email, the token a successful login as the caller returns. */
  function RefreshAccessToken(user: User, makeToken: Claims -> string): (r: Token)
    ensures r.tokenType == Bearer
    ensures forall users: seq<User>, form: LoginForm, verify: (string, string) -> bool ::
      user in users && form.username == user.email && Login(users, form, verify, makeToken).Ok? ==>
      Login(users, form, verify, makeToken).value == r
  {
    Token(makeToken(Claims(user.email)), Bearer)
  }
}
